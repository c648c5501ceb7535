/**
 The small-chunk merge pass of the indexing script.

 The splitter hands over an ordered list of chunks. The pass walks that list
 once and builds a new one: a chunk whose text is shorter than the minimum
 size is glued, after a single space, onto the last chunk already kept; every
 other chunk (and the very first one, since nothing exists yet to glue onto)
 is kept as a new entry.

 The specification of the pass is a partition of the input into contiguous
 groups: each group is a head chunk that is long, or the first chunk, followed
 by the maximal run of short chunks after it. Each group becomes one output
 chunk: the group's texts joined by spaces, with the head's metadata.
 */
module ChunkMerge {

  /** A passage of text with the metadata of the document it came from.
      The metadata is opaque to the merge pass. */
  datatype Chunk<M> = Chunk(content: string, metadata: M)

  /** The threshold used by the indexing script. */
  const MinChunkSize: nat := 50

  /** The splitter's target size in the indexing script; the merge pass never
      looks at it. */
  const SplitterChunkSize: nat := 500

  predicate IsShort<M>(c: Chunk<M>, minSize: nat) {
    |c.content| < minSize
  }

  // ---------------------------------------------------------------------
  // Sequence helpers: texts of a chunk list, joining with spaces, flattening
  // ---------------------------------------------------------------------

  /** The texts of a list of chunks, in order. */
  function Contents<M>(cs: seq<Chunk<M>>): seq<string>
  {
    seq(|cs|, i requires 0 <= i < |cs| => cs[i].content)
  }

  /** Texts joined with a single space between neighbours, as `" ".join`. */
  function Join(ss: seq<string>): string
  {
    if |ss| == 0 then ""
    else if |ss| == 1 then ss[0]
    else Join(ss[..|ss| - 1]) + " " + ss[|ss| - 1]
  }

  /** Total number of characters in a list of texts. */
  function TotalLength(ss: seq<string>): nat
  {
    if ss == [] then 0 else TotalLength(ss[..|ss| - 1]) + |ss[|ss| - 1]|
  }

  /** Concatenation of a list of groups. */
  function Flatten<T>(gs: seq<seq<T>>): seq<T>
  {
    if gs == [] then [] else gs[0] + Flatten(gs[1..])
  }

  /** Number of chunks in a list that are at least the minimum size. */
  function CountLong<M>(cs: seq<Chunk<M>>, minSize: nat): nat
  {
    if cs == [] then 0
    else CountLong(cs[..|cs| - 1], minSize) + (if IsShort(cs[|cs| - 1], minSize) then 0 else 1)
  }

  lemma CountLongSnoc<M>(cs: seq<Chunk<M>>, c: Chunk<M>, minSize: nat)
    ensures CountLong(cs + [c], minSize) == CountLong(cs, minSize) + (if IsShort(c, minSize) then 0 else 1)
  {
    assert (cs + [c])[..|cs|] == cs;
  }

  lemma UpdateLast<T>(s: seq<T>, x: T)
    requires |s| > 0
    ensures s[|s| - 1 := x] == s[..|s| - 1] + [x]
  {
  }

  lemma ContentsSnoc<M>(cs: seq<Chunk<M>>, c: Chunk<M>)
    ensures Contents(cs + [c]) == Contents(cs) + [c.content]
  {
  }

  lemma JoinSnoc(ss: seq<string>, t: string)
    requires |ss| > 0
    ensures Join(ss + [t]) == Join(ss) + " " + t
  {
    assert (ss + [t])[..|ss|] == ss;
  }

  /** Appending " " + t to the last text appends " " + t to the joined text. */
  lemma JoinExtendLast(init: seq<string>, last: string, t: string)
    ensures Join(init + [last + " " + t]) == Join(init + [last]) + " " + t
  {
    if |init| > 0 {
      JoinSnoc(init, last + " " + t);
      JoinSnoc(init, last);
      var a := Join(init) + " ";
      assert a + (last + " " + t) == (a + last) + " " + t;
    } else {
      assert init + [last + " " + t] == [last + " " + t];
      assert init + [last] == [last];
    }
  }

  /** The joined text of a group is as long as its texts plus one space
      between each pair of neighbours. */
  lemma {:induction false} JoinLength(ss: seq<string>)
    requires |ss| > 0
    ensures |Join(ss)| == TotalLength(ss) + |ss| - 1
  {
    if |ss| > 1 {
      JoinLength(ss[..|ss| - 1]);
    }
  }

  /** The joined text starts with the first text. */
  lemma {:induction false} JoinStartsWithFirst(ss: seq<string>)
    requires |ss| > 0
    ensures ss[0] <= Join(ss)
  {
    if |ss| > 1 {
      var init := ss[..|ss| - 1];
      JoinStartsWithFirst(init);
      assert init[0] == ss[0];
    }
  }

  lemma {:induction false} FlattenSnoc<T>(gs: seq<seq<T>>, g: seq<T>)
    ensures Flatten(gs + [g]) == Flatten(gs) + g
  {
    if gs == [] {
      assert [g][1..] == [];
    } else {
      assert (gs + [g])[1..] == gs[1..] + [g];
      FlattenSnoc(gs[1..], g);
    }
  }

  // ---------------------------------------------------------------------
  // The grouping that specifies the pass
  // ---------------------------------------------------------------------

  /** A group: a head chunk followed only by short chunks. */
  predicate IsGroup<M>(g: seq<Chunk<M>>, minSize: nat) {
    |g| > 0 && forall k :: 1 <= k < |g| ==> IsShort(g[k], minSize)
  }

  /** `gs` cuts `cs` into contiguous groups, and every group but the first
      starts with a chunk of at least `minSize` characters. */
  ghost predicate IsGrouping<M>(gs: seq<seq<Chunk<M>>>, cs: seq<Chunk<M>>, minSize: nat)
  {
    && Flatten(gs) == cs
    && (forall j :: 0 <= j < |gs| ==> IsGroup(gs[j], minSize))
    && (forall j :: 0 < j < |gs| ==> !IsShort(gs[j][0], minSize))
  }

  /** Length of the run of short chunks at the front of `cs`. */
  function ShortRun<M>(cs: seq<Chunk<M>>, minSize: nat): (n: nat)
    ensures n <= |cs|
    ensures forall j :: 0 <= j < n ==> IsShort(cs[j], minSize)
    ensures n < |cs| ==> !IsShort(cs[n], minSize)
  {
    if cs == [] || !IsShort(cs[0], minSize) then 0 else 1 + ShortRun(cs[1..], minSize)
  }

  /** The groups of the pass: the first chunk with the short chunks after it,
      then the same for the rest. */
  function Groups<M>(cs: seq<Chunk<M>>, minSize: nat): (gs: seq<seq<Chunk<M>>>)
    ensures IsGrouping(gs, cs, minSize)
    ensures |gs| > 0 <==> |cs| > 0
    ensures |cs| > 0 ==> gs[0][0] == cs[0]
    decreases |cs|
  {
    if cs == [] then []
    else
      var k := 1 + ShortRun(cs[1..], minSize);
      assert forall i :: 1 <= i < k ==> cs[i] == cs[1..][i - 1];
      var rest := Groups(cs[k..], minSize);
      GroupingCons(cs, k, rest, minSize);
      [cs[..k]] + rest
  }

  /** A head chunk with the short run after it, followed by a grouping of
      the rest, is a grouping of the whole. */
  lemma GroupingCons<M>(cs: seq<Chunk<M>>, k: nat, rest: seq<seq<Chunk<M>>>, minSize: nat)
    requires 1 <= k <= |cs|
    requires forall i :: 1 <= i < k ==> IsShort(cs[i], minSize)
    requires k < |cs| ==> !IsShort(cs[k], minSize)
    requires IsGrouping(rest, cs[k..], minSize)
    ensures IsGrouping([cs[..k]] + rest, cs, minSize)
    ensures ([cs[..k]] + rest)[0][0] == cs[0]
  {
    var gs := [cs[..k]] + rest;
    assert Flatten(gs) == cs by {
      assert gs[1..] == rest;
      assert cs[..k] + cs[k..] == cs;
    }
    assert forall j :: 1 <= j < |gs| ==> gs[j] == rest[j - 1];
    assert IsGroup(cs[..k], minSize);
    if rest != [] {
      assert Flatten(rest) == rest[0] + Flatten(rest[1..]);
      assert IsGroup(rest[0], minSize);
      assert rest[0][0] == cs[k];
    }
  }

  /** The first group of a grouping is the first chunk plus the whole short
      run after it, and the other groups are a grouping of the rest. */
  lemma GroupingHead<M>(gs: seq<seq<Chunk<M>>>, cs: seq<Chunk<M>>, minSize: nat)
    requires IsGrouping(gs, cs, minSize) && gs != []
    ensures 1 <= |gs[0]| <= |cs|
    ensures gs[0] == cs[..|gs[0]|]
    ensures ShortRun(cs[1..], minSize) == |gs[0]| - 1
    ensures IsGrouping(gs[1..], cs[|gs[0]|..], minSize)
  {
    var g := gs[0];
    var rest := gs[1..];
    var n := |g|;
    assert IsGroup(g, minSize);
    assert cs == g + Flatten(rest);
    assert g == cs[..n];
    assert Flatten(rest) == cs[n..];
    assert ShortRun(cs[1..], minSize) == n - 1 by {
      forall j | 0 <= j < n - 1 ensures IsShort(cs[1..][j], minSize) {
        assert cs[1..][j] == g[j + 1];
      }
      if rest != [] {
        assert IsGroup(rest[0], minSize) && !IsShort(gs[1][0], minSize);
        assert Flatten(rest) == rest[0] + Flatten(rest[1..]);
        assert cs[n] == rest[0][0];
        assert !IsShort(cs[1..][n - 1], minSize);
      }
    }
    assert forall j :: 0 <= j < |rest| ==> rest[j] == gs[j + 1];
  }

  /** There is only one grouping with the shape of `IsGrouping`. */
  lemma {:induction false} GroupingUnique<M>(gs: seq<seq<Chunk<M>>>, cs: seq<Chunk<M>>, minSize: nat)
    requires IsGrouping(gs, cs, minSize)
    ensures gs == Groups(cs, minSize)
    decreases |cs|
  {
    if gs != [] {
      GroupingHead(gs, cs, minSize);
      GroupingUnique(gs[1..], cs[|gs[0]|..], minSize);
      assert gs == [gs[0]] + gs[1..];
    }
  }

  /** Adding a short chunk to the end of the last group keeps the shape. */
  lemma GroupingExtendLast<M>(gs: seq<seq<Chunk<M>>>, cs: seq<Chunk<M>>, c: Chunk<M>, minSize: nat)
    requires IsGrouping(gs, cs, minSize) && |gs| > 0 && IsShort(c, minSize)
    ensures IsGrouping(gs[..|gs| - 1] + [gs[|gs| - 1] + [c]], cs + [c], minSize)
  {
    var n := |gs|;
    var gs' := gs[..n - 1] + [gs[n - 1] + [c]];
    assert Flatten(gs') == cs + [c] by {
      assert gs == gs[..n - 1] + [gs[n - 1]];
      FlattenSnoc(gs[..n - 1], gs[n - 1]);
      FlattenSnoc(gs[..n - 1], gs[n - 1] + [c]);
    }
    assert forall j :: 0 <= j < n - 1 ==> gs'[j] == gs[j];
    assert IsGroup(gs'[n - 1], minSize) by {
      assert IsGroup(gs[n - 1], minSize);
    }
  }

  /** Adding a group of one chunk keeps the shape when it is the first group
      or its chunk is not short. */
  lemma GroupingAddGroup<M>(gs: seq<seq<Chunk<M>>>, cs: seq<Chunk<M>>, c: Chunk<M>, minSize: nat)
    requires IsGrouping(gs, cs, minSize) && (gs == [] || !IsShort(c, minSize))
    ensures IsGrouping(gs + [[c]], cs + [c], minSize)
  {
    FlattenSnoc(gs, [c]);
    assert forall j :: 0 <= j < |gs| ==> (gs + [[c]])[j] == gs[j];
  }

  /** A short chunk after at least one chunk joins the last group. */
  lemma GroupsAbsorb<M>(cs: seq<Chunk<M>>, c: Chunk<M>, minSize: nat)
    requires cs != [] && IsShort(c, minSize)
    ensures var gs := Groups(cs, minSize);
      Groups(cs + [c], minSize) == gs[..|gs| - 1] + [gs[|gs| - 1] + [c]]
  {
    var gs := Groups(cs, minSize);
    GroupingExtendLast(gs, cs, c, minSize);
    GroupingUnique(gs[..|gs| - 1] + [gs[|gs| - 1] + [c]], cs + [c], minSize);
  }

  /** The first chunk, or a chunk of at least `minSize` characters, opens a
      new group. */
  lemma GroupsOpen<M>(cs: seq<Chunk<M>>, c: Chunk<M>, minSize: nat)
    requires cs == [] || !IsShort(c, minSize)
    ensures Groups(cs + [c], minSize) == Groups(cs, minSize) + [[c]]
  {
    var gs := Groups(cs, minSize);
    GroupingAddGroup(gs, cs, c, minSize);
    GroupingUnique(gs + [[c]], cs + [c], minSize);
  }

  // ---------------------------------------------------------------------
  // The output of the pass
  // ---------------------------------------------------------------------

  /** One output chunk from a group: the texts joined by spaces, the head's
      metadata. */
  function Fuse<M>(g: seq<Chunk<M>>): Chunk<M>
    requires |g| > 0
  {
    Chunk(Join(Contents(g)), g[0].metadata)
  }

  /** One output chunk per group. */
  function FuseAll<M>(gs: seq<seq<Chunk<M>>>): (out: seq<Chunk<M>>)
    requires forall j :: 0 <= j < |gs| ==> |gs[j]| > 0
  {
    seq(|gs|, j requires 0 <= j < |gs| => Fuse(gs[j]))
  }

  /** The list the merge pass produces. */
  function Merged<M>(cs: seq<Chunk<M>>, minSize: nat): seq<Chunk<M>>
  {
    FuseAll(Groups(cs, minSize))
  }

  lemma MergedLength<M>(cs: seq<Chunk<M>>, minSize: nat)
    ensures |Merged(cs, minSize)| == |Groups(cs, minSize)|
    ensures |Merged(cs, minSize)| > 0 <==> cs != []
  {
  }

  lemma FuseSnoc<M>(g: seq<Chunk<M>>, c: Chunk<M>)
    requires |g| > 0
    ensures Fuse(g + [c]) == Fuse(g).(content := Fuse(g).content + " " + c.content)
  {
    ContentsSnoc(g, c);
    JoinSnoc(Contents(g), c.content);
  }

  lemma FuseAllAddGroup<M>(gs: seq<seq<Chunk<M>>>, g: seq<Chunk<M>>)
    requires forall j :: 0 <= j < |gs| ==> |gs[j]| > 0
    requires |g| > 0
    ensures FuseAll(gs + [g]) == FuseAll(gs) + [Fuse(g)]
  {
  }

  lemma FuseAllExtendLast<M>(gs: seq<seq<Chunk<M>>>, c: Chunk<M>)
    requires forall j :: 0 <= j < |gs| ==> |gs[j]| > 0
    requires |gs| > 0
    ensures var n := |gs|;
      var out := FuseAll(gs);
      FuseAll(gs[..n - 1] + [gs[n - 1] + [c]])
        == out[..n - 1] + [out[n - 1].(content := out[n - 1].content + " " + c.content)]
  {
    var n := |gs|;
    FuseSnoc(gs[n - 1], c);
    assert FuseAll(gs[..n - 1]) == FuseAll(gs)[..n - 1];
    FuseAllAddGroup(gs[..n - 1], gs[n - 1] + [c]);
  }

  /** Absorbing a short chunk changes only the last output entry, by
      appending a space and the chunk's text to its content. */
  lemma MergedAbsorb<M>(cs: seq<Chunk<M>>, c: Chunk<M>, minSize: nat)
    requires cs != [] && IsShort(c, minSize)
    ensures var out := Merged(cs, minSize);
      && |out| > 0
      && Merged(cs + [c], minSize) ==
           out[..|out| - 1] + [out[|out| - 1].(content := out[|out| - 1].content + " " + c.content)]
  {
    GroupsAbsorb(cs, c, minSize);
    FuseAllExtendLast(Groups(cs, minSize), c);
  }

  /** The first chunk, or a chunk of at least `minSize` characters, is
      appended as it is. */
  lemma MergedOpen<M>(cs: seq<Chunk<M>>, c: Chunk<M>, minSize: nat)
    requires cs == [] || !IsShort(c, minSize)
    ensures Merged(cs + [c], minSize) == Merged(cs, minSize) + [c]
  {
    GroupsOpen(cs, c, minSize);
    FuseAllAddGroup(Groups(cs, minSize), [c]);
    assert Contents([c]) == [c.content];
  }

  /** One loop step on the specification: a short chunk after at least one
      chunk changes only the last output entry, by appending a space and its
      text to that entry's content and keeping that entry's metadata; any
      other chunk is appended unchanged. */
  lemma MergedSnoc<M>(cs: seq<Chunk<M>>, c: Chunk<M>, minSize: nat)
    ensures |Merged(cs, minSize)| > 0 <==> cs != []
    ensures var out := Merged(cs, minSize);
      Merged(cs + [c], minSize) ==
        if cs != [] && IsShort(c, minSize) then
          out[..|out| - 1] + [out[|out| - 1].(content := out[|out| - 1].content + " " + c.content)]
        else out + [c]
  {
    MergedLength(cs, minSize);
    if cs != [] && IsShort(c, minSize) {
      MergedAbsorb(cs, c, minSize);
    } else {
      MergedOpen(cs, c, minSize);
    }
  }

  /** Extending the last chunk's content by " " + t extends the joined
      texts by " " + t. */
  lemma JoinContentsExtendLast<M>(out: seq<Chunk<M>>, t: string)
    requires |out| > 0
    ensures var n := |out|;
      Join(Contents(out[..n - 1] + [out[n - 1].(content := out[n - 1].content + " " + t)]))
        == Join(Contents(out)) + " " + t
  {
    var n := |out|;
    var init := out[..n - 1];
    var last := out[n - 1];
    assert out == init + [last];
    ContentsSnoc(init, last);
    ContentsSnoc(init, last.(content := last.content + " " + t));
    JoinExtendLast(Contents(init), last.content, t);
  }

  /** The pass keeps the text of every chunk in order: joining the output's
      texts with spaces gives the same string as joining the input's. */
  lemma {:induction false} MergedPreservesText<M>(cs: seq<Chunk<M>>, minSize: nat)
    ensures Join(Contents(Merged(cs, minSize))) == Join(Contents(cs))
    decreases |cs|
  {
    if cs != [] {
      var init := cs[..|cs| - 1];
      var c := cs[|cs| - 1];
      assert init + [c] == cs;
      MergedPreservesText(init, minSize);
      ContentsSnoc(init, c);
      var out := Merged(init, minSize);
      if init == [] {
        MergedOpen(init, c, minSize);
        assert Merged(cs, minSize) == [c];
        assert Contents(cs) == [c.content];
      } else {
        MergedLength(init, minSize);
        JoinSnoc(Contents(init), c.content);
        if IsShort(c, minSize) {
          MergedAbsorb(init, c, minSize);
          JoinContentsExtendLast(out, c.content);
        } else {
          MergedOpen(init, c, minSize);
          ContentsSnoc(out, c);
          JoinSnoc(Contents(out), c.content);
        }
      }
    }
  }

  /** Empty input gives empty output; otherwise there is one output entry for
      the first chunk and one for each later chunk of at least `minSize`
      characters. */
  lemma {:induction false} MergedCount<M>(cs: seq<Chunk<M>>, minSize: nat)
    ensures cs == [] ==> Merged(cs, minSize) == []
    ensures cs != [] ==> |Merged(cs, minSize)| == 1 + CountLong(cs[1..], minSize)
    decreases |cs|
  {
    if cs == [] {
      MergedLength(cs, minSize);
    } else if |cs| == 1 {
      MergedCountSingle(cs[0], minSize);
      assert cs == [cs[0]];
    } else {
      var init := cs[..|cs| - 1];
      var c := cs[|cs| - 1];
      assert init + [c] == cs;
      MergedCountStep(init, c, minSize);
      CountLongTailSnoc(init, c, minSize);
      MergedCount(init, minSize);
    }
  }

  lemma MergedCountSingle<M>(c: Chunk<M>, minSize: nat)
    ensures |Merged([c], minSize)| == 1 + CountLong([c][1..], minSize)
  {
    var none: seq<Chunk<M>> := [];
    MergedOpen(none, c, minSize);
    MergedLength(none, minSize);
    assert none + [c] == [c];
    assert [c][1..] == [];
  }

  /** One more chunk after at least one adds an output entry exactly when it
      is not short. */
  lemma MergedCountStep<M>(cs: seq<Chunk<M>>, c: Chunk<M>, minSize: nat)
    requires cs != []
    ensures |Merged(cs + [c], minSize)| == |Merged(cs, minSize)| + (if IsShort(c, minSize) then 0 else 1)
  {
    if IsShort(c, minSize) {
      MergedAbsorb(cs, c, minSize);
    } else {
      MergedOpen(cs, c, minSize);
    }
  }

  lemma CountLongTailSnoc<M>(cs: seq<Chunk<M>>, c: Chunk<M>, minSize: nat)
    requires cs != []
    ensures CountLong((cs + [c])[1..], minSize) == CountLong(cs[1..], minSize) + (if IsShort(c, minSize) then 0 else 1)
  {
    assert (cs + [c])[1..] == cs[1..] + [c];
    CountLongSnoc(cs[1..], c, minSize);
  }

  /** Each output entry is one group: its text is the group's texts joined by
      single spaces (so as long as their total plus one per space), it begins
      with the head chunk's text, and it carries the head chunk's metadata;
      the metadata of the absorbed short chunks is dropped. */
  lemma MergedEntry<M>(cs: seq<Chunk<M>>, minSize: nat, j: nat)
    requires j < |Merged(cs, minSize)|
    ensures var g := Groups(cs, minSize)[j];
      var out := Merged(cs, minSize)[j];
      && out.content == Join(Contents(g))
      && |out.content| == TotalLength(Contents(g)) + |g| - 1
      && g[0].content <= out.content
      && out.metadata == g[0].metadata
  {
    var g := Groups(cs, minSize)[j];
    JoinLength(Contents(g));
    JoinStartsWithFirst(Contents(g));
  }

  /** The first output entry starts from the first input chunk and keeps its
      metadata, even when that chunk is short. */
  lemma MergedFirst<M>(cs: seq<Chunk<M>>, minSize: nat)
    requires cs != []
    ensures |Merged(cs, minSize)| > 0
    ensures cs[0].content <= Merged(cs, minSize)[0].content
    ensures Merged(cs, minSize)[0].metadata == cs[0].metadata
  {
    MergedEntry(cs, minSize, 0);
  }

  /** After the pass, every output entry except the first has at least
      `minSize` characters. */
  lemma MergedLongAfterFirst<M>(cs: seq<Chunk<M>>, minSize: nat)
    ensures forall j :: 0 < j < |Merged(cs, minSize)| ==> |Merged(cs, minSize)[j].content| >= minSize
  {
    forall j | 0 < j < |Merged(cs, minSize)| ensures |Merged(cs, minSize)[j].content| >= minSize {
      MergedEntry(cs, minSize, j);
    }
  }

  /** The threshold is strict: a chunk of at least `minSize` characters opens
      a new output entry that starts as that chunk, and a short chunk after
      the first never does. */
  lemma ThresholdStrict<M>(cs: seq<Chunk<M>>, c: Chunk<M>, minSize: nat)
    requires cs != []
    ensures |Merged(cs + [c], minSize)| == |Merged(cs, minSize)| + 1 <==> |c.content| >= minSize
    ensures |c.content| >= minSize ==> Merged(cs + [c], minSize)[|Merged(cs, minSize)|] == c
  {
    MergedSnoc(cs, c, minSize);
  }

  // ---------------------------------------------------------------------
  // The loop
  // ---------------------------------------------------------------------

  lemma StepAbsorb<M>(done: seq<Chunk<M>>, chunk: Chunk<M>, minSize: nat, merged: seq<Chunk<M>>)
    requires merged == Merged(done, minSize) && |merged| > 0 && IsShort(chunk, minSize)
    ensures var last := |merged| - 1;
      merged[last := merged[last].(content := merged[last].content + " " + chunk.content)]
        == Merged(done + [chunk], minSize)
  {
    MergedLength(done, minSize);
    MergedAbsorb(done, chunk, minSize);
    var last := |merged| - 1;
    UpdateLast(merged, merged[last].(content := merged[last].content + " " + chunk.content));
  }

  lemma StepOpen<M>(done: seq<Chunk<M>>, chunk: Chunk<M>, minSize: nat, merged: seq<Chunk<M>>)
    requires merged == Merged(done, minSize) && (|merged| == 0 || !IsShort(chunk, minSize))
    ensures merged + [chunk] == Merged(done + [chunk], minSize)
  {
    MergedLength(done, minSize);
    MergedOpen(done, chunk, minSize);
  }

  /** The merge pass as the script runs it: one walk over the chunks, either
      extending the content of the last output entry or appending. */
  method Merge<M>(chunks: seq<Chunk<M>>, minSize: nat) returns (merged: seq<Chunk<M>>)
    ensures merged == Merged(chunks, minSize)
  {
    merged := [];
    for i := 0 to |chunks|
      invariant merged == Merged(chunks[..i], minSize)
    {
      var chunk := chunks[i];
      assert chunks[..i + 1] == chunks[..i] + [chunk];
      if |merged| > 0 && |chunk.content| < minSize {
        var last := |merged| - 1;
        StepAbsorb(chunks[..i], chunk, minSize, merged);
        merged := merged[last := merged[last].(content := merged[last].content + " " + chunk.content)];
      } else {
        StepOpen(chunks[..i], chunk, minSize, merged);
        merged := merged + [chunk];
      }
    }
    assert chunks[..|chunks|] == chunks;
  }

  /** The pass as the script calls it, with its literal threshold of 50. */
  method MergeSmallChunks<M>(chunks: seq<Chunk<M>>) returns (merged: seq<Chunk<M>>)
    ensures merged == Merged(chunks, MinChunkSize)
  {
    merged := Merge(chunks, MinChunkSize);
  }

  /** At the script's threshold, after at least one chunk, a chunk of exactly
      50 characters is kept as an entry of its own, while one of 49 characters
      is glued onto the last entry. */
  lemma ThresholdAtFifty<M>(cs: seq<Chunk<M>>, c: Chunk<M>)
    requires cs != []
    ensures |c.content| == 50 ==> Merged(cs + [c], MinChunkSize) == Merged(cs, MinChunkSize) + [c]
    ensures |c.content| == 49 ==>
      var out := Merged(cs, MinChunkSize);
      var last := |out| - 1;
      |out| > 0 && Merged(cs + [c], MinChunkSize) == out[last := out[last].(content := out[last].content + " " + c.content)]
  {
    MergedSnoc(cs, c, MinChunkSize);
  }

  // ---------------------------------------------------------------------
  // Concrete runs with the script's threshold
  // ---------------------------------------------------------------------

  function Filler(n: nat): (s: string)
    ensures |s| == n
  {
    seq(n, _ => 'a')
  }

  /** Chunks of 600, 30 and 500 characters: the 30-character chunk is glued
      onto the first, and the 500-character chunk stays on its own, giving
      entries of 631 and 500 characters. */
  lemma ExampleSixHundredThirtyFiveHundred<M>(m1: M, m2: M, m3: M)
    ensures var a := Chunk(Filler(600), m1);
      var b := Chunk(Filler(30), m2);
      var c := Chunk(Filler(500), m3);
      var out := Merged([a, b, c], MinChunkSize);
      && |out| == 2
      && out[0] == Chunk(a.content + " " + b.content, m1)
      && out[1] == c
      && |out[0].content| == 631 && |out[1].content| == 500
  {
    var a := Chunk(Filler(600), m1);
    var b := Chunk(Filler(30), m2);
    var c := Chunk(Filler(500), m3);
    var ab := Chunk(a.content + " " + b.content, m1);
    assert Merged([a], MinChunkSize) == [a] by {
      MergedOpen([], a, MinChunkSize);
      assert [] + [a] == [a];
    }
    assert Merged([a, b], MinChunkSize) == [ab] by {
      MergedAbsorb([a], b, MinChunkSize);
      assert [a] + [b] == [a, b];
    }
    assert Merged([a, b, c], MinChunkSize) == [ab, c] by {
      MergedOpen([a, b], c, MinChunkSize);
      assert [a, b] + [c] == [a, b, c];
    }
  }

  /** The pass does not re-check the splitter's size: two chunks within the
      splitter's 500 characters merge into one of 506. */
  lemma MergeMayExceedSplitterSize<M>(m: M)
    ensures var cs := [Chunk(Filler(SplitterChunkSize), m), Chunk(Filler(5), m)];
      && (forall i :: 0 <= i < |cs| ==> |cs[i].content| <= SplitterChunkSize)
      && |Merged(cs, MinChunkSize)| == 1
      && |Merged(cs, MinChunkSize)[0].content| == 506
  {
    var a := Chunk(Filler(SplitterChunkSize), m);
    var b := Chunk(Filler(5), m);
    assert Merged([a], MinChunkSize) == [a] by {
      MergedOpen([], a, MinChunkSize);
      assert [] + [a] == [a];
    }
    assert Merged([a, b], MinChunkSize) == [Chunk(a.content + " " + b.content, m)] by {
      MergedAbsorb([a], b, MinChunkSize);
      assert [a] + [b] == [a, b];
    }
  }
}
