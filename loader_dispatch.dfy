/**
 The choice of document loader for a discovered file path. The indexing
 script lower-cases the path and looks at its extension: ".pdf" selects the
 PDF loader, otherwise ".csv" selects the CSV loader, and every other path is
 read as plain text.
 */
module LoaderDispatch {

  datatype Loader = PdfLoader | CsvLoader | TextLoader

  const PdfSuffix: string := ".pdf"
  const CsvSuffix: string := ".csv"

  /** ASCII lower-casing of one character; every other character is kept. */
  function LowerChar(c: char): (r: char)
    ensures !('A' <= r <= 'Z')
  {
    if 'A' <= c <= 'Z' then (c as int + 32) as char else c
  }

  /** Lower-casing of a whole path, character by character. */
  function Lower(s: string): string
  {
    seq(|s|, i requires 0 <= i < |s| => LowerChar(s[i]))
  }

  predicate EndsWith(s: string, suffix: string) {
    |suffix| <= |s| && s[|s| - |suffix|..] == suffix
  }

  /** The loader the script builds for `path`. */
  function ChooseLoader(path: string): Loader {
    var p := Lower(path);
    if EndsWith(p, PdfSuffix) then PdfLoader
    else if EndsWith(p, CsvSuffix) then CsvLoader
    else TextLoader
  }

  /** `s` ends with `suffix` when case is ignored, compared character by
      character; `suffix` is written in lower case. */
  predicate EndsWithIgnoringCase(s: string, suffix: string) {
    && |suffix| <= |s|
    && forall i :: |s| - |suffix| <= i < |s| ==> LowerChar(s[i]) == suffix[i - (|s| - |suffix|)]
  }

  lemma EndsWithLower(s: string, suffix: string)
    ensures EndsWith(Lower(s), suffix) <==> EndsWithIgnoringCase(s, suffix)
  {
    var p := Lower(s);
    if |suffix| <= |s| {
      var d := |s| - |suffix|;
      var tail := p[d..];
      assert forall i :: d <= i < |s| ==> tail[i - d] == LowerChar(s[i]);
      if EndsWithIgnoringCase(s, suffix) {
        assert forall j :: 0 <= j < |suffix| ==> tail[j] == suffix[j] by {
          forall j | 0 <= j < |suffix| ensures tail[j] == suffix[j] {
            assert tail[(j + d) - d] == LowerChar(s[j + d]);
          }
        }
        assert tail == suffix;
      }
    }
  }

  /** No path ends with both extensions, so the order of the two tests only
      matters for readability. */
  lemma ExtensionsExclusive(s: string)
    ensures !(EndsWithIgnoringCase(s, PdfSuffix) && EndsWithIgnoringCase(s, CsvSuffix))
  {
    assert |PdfSuffix| == |CsvSuffix| == 4;
    assert PdfSuffix[1] == 'p' && CsvSuffix[1] == 'c';
    if |s| >= 4 {
      var k := |s| - 3;
      assert k - (|s| - 4) == 1;
      assert EndsWithIgnoringCase(s, PdfSuffix) ==> LowerChar(s[k]) == 'p';
      assert EndsWithIgnoringCase(s, CsvSuffix) ==> LowerChar(s[k]) == 'c';
    }
  }

  /** The choice is total and exclusive: PDF exactly for a ".pdf" extension
      in any case, CSV exactly for a ".csv" extension in any case, text for
      every other path. */
  lemma ChooseLoaderSpec(path: string)
    ensures ChooseLoader(path) == PdfLoader <==> EndsWithIgnoringCase(path, PdfSuffix)
    ensures ChooseLoader(path) == CsvLoader <==> EndsWithIgnoringCase(path, CsvSuffix)
    ensures ChooseLoader(path) == TextLoader <==>
      !EndsWithIgnoringCase(path, PdfSuffix) && !EndsWithIgnoringCase(path, CsvSuffix)
  {
    EndsWithLower(path, PdfSuffix);
    EndsWithLower(path, CsvSuffix);
    ExtensionsExclusive(path);
  }

  /** Lower-casing twice is the same as lower-casing once. */
  lemma LowerIdempotent(s: string)
    ensures Lower(Lower(s)) == Lower(s)
  {
    var p := Lower(s);
    assert forall i :: 0 <= i < |p| ==> Lower(p)[i] == p[i] by {
      forall i | 0 <= i < |p| ensures Lower(p)[i] == p[i] {
        assert !('A' <= p[i] <= 'Z');
      }
    }
  }

  /** Lower-casing a path first does not change the choice. */
  lemma ChooseLoaderIgnoresCase(path: string)
    ensures ChooseLoader(Lower(path)) == ChooseLoader(path)
  {
    LowerIdempotent(path);
  }

  /** Whether a path ends with a suffix, ignoring case, depends only on its
      last `k` characters for any `k` at least the suffix's length. */
  lemma EndsWithIgnoringCaseTail(s: string, k: nat, suffix: string)
    requires |suffix| <= k <= |s|
    ensures EndsWithIgnoringCase(s, suffix) <==> EndsWithIgnoringCase(s[|s| - k..], suffix)
  {
    var t := s[|s| - k..];
    var d := |s| - k;
    assert forall i :: 0 <= i < k ==> t[i] == s[i + d];
    if EndsWithIgnoringCase(t, suffix) {
      forall i | |s| - |suffix| <= i < |s| ensures LowerChar(s[i]) == suffix[i - (|s| - |suffix|)] {
        assert s[i] == t[i - d];
      }
    }
  }

  /** Only the last four characters of a path decide its loader, and a path
      shorter than that is read as text. */
  lemma ChooseLoaderLastFour(path: string)
    ensures |path| < 4 ==> ChooseLoader(path) == TextLoader
    ensures |path| >= 4 ==> ChooseLoader(path) == ChooseLoader(path[|path| - 4..])
  {
    ChooseLoaderSpec(path);
    if |path| >= 4 {
      ChooseLoaderSpec(path[|path| - 4..]);
      EndsWithIgnoringCaseTail(path, 4, PdfSuffix);
      EndsWithIgnoringCaseTail(path, 4, CsvSuffix);
    }
  }

  /** A four-character extension decides the loader whatever precedes it. */
  lemma ExtensionDecides(stem: string, ext: string)
    requires |ext| == 4
    ensures ChooseLoader(stem + ext) == ChooseLoader(ext)
  {
    ChooseLoaderLastFour(stem + ext);
    assert (stem + ext)[|stem|..] == ext;
  }

  /** Upper-case extensions select the same loaders as lower-case ones. */
  lemma UpperCaseExtensions()
    ensures ChooseLoader(".PDF") == PdfLoader
    ensures ChooseLoader(".CSV") == CsvLoader
    ensures ChooseLoader(".TXT") == TextLoader
  {
    assert Lower(".PDF") == PdfSuffix by {
      assert LowerChar('P') == 'p' && LowerChar('D') == 'd' && LowerChar('F') == 'f';
    }
    assert Lower(".CSV") == CsvSuffix by {
      assert LowerChar('C') == 'c' && LowerChar('S') == 's' && LowerChar('V') == 'v';
    }
    assert Lower(".TXT") == ".txt" by {
      assert LowerChar('T') == 't' && LowerChar('X') == 'x';
    }
  }

  /** Hence a path with an upper-case ".PDF" extension gets the PDF loader,
      whatever comes before the extension. */
  lemma UpperCasePdf(stem: string)
    ensures ChooseLoader(stem + ".PDF") == PdfLoader
  {
    ExtensionDecides(stem, ".PDF");
    UpperCaseExtensions();
  }
}
