# Small-chunk merge pass and loader choice of the Matsue Castle indexer

The indexing script `py/index2pinecore.py` loads local files with a loader
picked by file extension, splits the documents into chunks of about 500
characters, and then runs one pass of its own over the chunk list before
embedding: a chunk whose text is shorter than 50 characters is appended,
after a single space, to the last chunk already kept, and is dropped as an
entry of its own. Every other chunk, and always the first one, is kept as a
new entry.

This project models those two pieces of the script's own logic in Dafny:

- `chunk_merge.dfy`, module `ChunkMerge`: the merge pass.
  - `Chunk<M>` is a chunk's text plus its metadata. The metadata is a type
    parameter, so nothing looks inside it.
  - `Merge` is the loop as the script writes it. It keeps a list of output
    chunks and either appends a chunk or overwrites the last element with
    its content extended.
  - `Merge` is proved equal to `Merged`. `Merged` says the same thing without
    a loop. `Groups` cuts the input into contiguous groups: the first chunk,
    or any chunk of at least `minSize` characters, starts a group, and the
    short chunks right after it join that group. Each group becomes one
    output chunk, made of its texts joined by single spaces and the metadata
    of the group's first chunk.
  - `IsGrouping` describes the group shape without computing it, and
    `GroupingUnique` proves that only one grouping has that shape.
  - The lemmas show that the pass keeps all text in order, count its output,
    describe each output entry, and show what one loop step does. They are
    stated for any `minSize`. `MinChunkSize = 50` is the script's value, and
    the two concrete lemmas use it.
- `loader_dispatch.dfy`, module `LoaderDispatch`: the choice between the PDF,
  CSV and text loaders from the lower-cased path. `ChooseLoader` is the
  if/elif/else of the script. The lemmas describe its choice by case-blind
  suffix matching.

The merge pass does not look at the splitter's 500-character target again.
So a merged chunk can be longer than the splitter's target;
`MergeMayExceedSplitterSize` shows one such case. No upper bound on output
length is claimed.

Two points about the script that are easy to get wrong:
- A short chunk is merged into the chunk *before* it, and the threshold
  applies to the short chunk itself. For chunk lengths [600, 30, 500],
  merging each short chunk into the chunk after it would give [600, 531].
  The script gives [631, 500], and `ExampleSixHundredThirtyFiveHundred`
  proves that result.
- The script checks nothing about its settings. Nothing rejects a threshold
  at or above the splitter's 500-character target, or an empty separator
  list. The threshold 50 is a literal in the loop, and `MergeSmallChunks`
  is the pass run at that threshold.

## Model

| member | source | states |
|---|---|---|
| `ChunkMerge.Merge` | py/index2pinecore.py:72-78 | The loop, run over all chunks with in-place extension of the last output entry, returns exactly the list the group specification `Merged` gives. |
| `ChunkMerge.Groups` | py/index2pinecore.py:74-78 | Its result cuts the input into contiguous non-empty groups. Every group after the first starts with a chunk of at least `minSize` characters, and the rest of each group are short chunks. There is a group exactly when the input is non-empty, and the first group starts with the first input chunk. |
| `ChunkMerge.GroupingUnique` | py/index2pinecore.py:74-78 | Any grouping with that independently described shape equals `Groups`, so the group structure is fixed by the threshold alone. |
| `ChunkMerge.GroupsAbsorb` | py/index2pinecore.py:75-76 | A short chunk that comes after at least one chunk is added to the end of the last group. |
| `ChunkMerge.GroupsOpen` | py/index2pinecore.py:77-78 | The first chunk, or a chunk of at least `minSize` characters, opens a new group of its own. |
| `ChunkMerge.MergedAbsorb` | py/index2pinecore.py:75-76 | Absorbing a short chunk leaves the output length and every earlier entry unchanged, and changes only the last entry's content, to old content + " " + the chunk's text. That entry's metadata is kept, and the short chunk's metadata is dropped. |
| `ChunkMerge.MergedOpen` | py/index2pinecore.py:77-78 | The first chunk, or a chunk of at least `minSize` characters, is appended to the output unchanged. |
| `ChunkMerge.MergedSnoc` | py/index2pinecore.py:74-78 | One loop step on the specification: the output is empty exactly when no chunk has been seen yet. After that, a short chunk extends only the last entry, by appending, and any other chunk is appended as is. |
| `ChunkMerge.MergedPreservesText` | py/index2pinecore.py:76-78 | No text is lost and order is kept: the output's texts joined with " " equal the input's texts joined with " ". |
| `ChunkMerge.MergedCount` | py/index2pinecore.py:73-78 | Empty input gives empty output. Non-empty input gives 1 + (the number of chunks after the first with at least `minSize` characters) entries. |
| `ChunkMerge.MergedEntry` | py/index2pinecore.py:76 | Output entry j is the texts of group j joined by single spaces. Its length is the sum of the group's lengths plus one per separating space. It begins with the text of the group's first chunk and has that chunk's metadata. |
| `ChunkMerge.MergedFirst` | py/index2pinecore.py:75 | For non-empty input, the first output entry begins with the first input chunk's text and has its metadata, even when that chunk is short. |
| `ChunkMerge.MergedLongAfterFirst` | py/index2pinecore.py:75-78 | Every output entry except the first has at least `minSize` characters. |
| `ChunkMerge.ThresholdStrict` | py/index2pinecore.py:75 | After at least one chunk, a new chunk adds an output entry exactly when its length is at least `minSize`, so a chunk of exactly `minSize` characters opens an entry. That new entry is the chunk unchanged. |
| `ChunkMerge.MergeSmallChunks` | py/index2pinecore.py:72-78 | The pass at the script's threshold of 50 returns exactly `Merged` of the chunks at threshold 50. |
| `ChunkMerge.ThresholdAtFifty` | py/index2pinecore.py:75-78 | At threshold 50, after at least one chunk, a 50-character chunk is appended unchanged. A 49-character chunk changes only the last entry, whose content gains " " + its text. |
| `ChunkMerge.ExampleSixHundredThirtyFiveHundred` | py/index2pinecore.py:72-78 | With the threshold 50, chunks of 600, 30 and 500 characters become two entries: the first two texts joined (631 characters, with the first chunk's metadata), then the 500-character chunk. |
| `ChunkMerge.MergeMayExceedSplitterSize` | py/index2pinecore.py:63-78 | Two chunks within the splitter's 500 characters, the second shorter than 50, merge into one entry of 506 characters. The pass does not enforce the splitter's bound. |
| `LoaderDispatch.ChooseLoaderSpec` | py/index2pinecore.py:34-43 | The PDF loader is chosen exactly when the path ends in ".pdf", ignoring case, and the CSV loader exactly when it ends in ".csv", ignoring case. Every other path gets the text loader. |
| `LoaderDispatch.ExtensionsExclusive` | py/index2pinecore.py:34-38 | No path ends in both ".pdf" and ".csv", ignoring case, so at most one of the two tests can succeed. |
| `LoaderDispatch.EndsWithLower` | py/index2pinecore.py:34-38 | The script's test (the lower-cased path ends with the suffix) holds exactly when the path's last characters equal the suffix, compared one by one after lower-casing. |
| `LoaderDispatch.LowerIdempotent` | py/index2pinecore.py:34-38 | Lower-casing an already lower-cased path changes nothing. |
| `LoaderDispatch.ChooseLoaderIgnoresCase` | py/index2pinecore.py:34-38 | Lower-casing the path first never changes the chosen loader. |
| `LoaderDispatch.ChooseLoaderLastFour` | py/index2pinecore.py:34-43 | Only the last four characters of a path decide its loader. A path shorter than four characters gets the text loader. |
| `LoaderDispatch.ExtensionDecides` | py/index2pinecore.py:34-43 | Whatever comes before a four-character extension, the path gets the same loader as the extension alone. |
| `LoaderDispatch.UpperCaseExtensions` | py/index2pinecore.py:34-43 | The upper-case extensions ".PDF", ".CSV" and ".TXT" select the PDF, CSV and text loaders. |
| `LoaderDispatch.UpperCasePdf` | py/index2pinecore.py:34-37 | Any path ending in ".PDF" gets the PDF loader. |

## Left out

- The splitter (`RecursiveCharacterTextSplitter`, py/index2pinecore.py:63-70) is a third-party library whose code is not part of this model. The merge pass takes its output as any list of chunks, and nothing is claimed about chunk sizes or overlap before the merge.
- File discovery with `glob` (py/index2pinecore.py:25-28), the environment and dotenv reads (py/index2pinecore.py:17-22), and the loaders themselves (PDF, CSV, text, Wikipedia, URL; py/index2pinecore.py:36-58) are I/O. Only the choice of loader is modelled, not the loop that extends `docs` with what the loaders return.
- Deleting and creating the Pinecone index, the OpenAI embeddings and the upload (py/index2pinecore.py:89-115) are network calls. The progress and debug printing (py/index2pinecore.py:33, 45, 60, 80-86) is output. None of it is modelled.
- `py/pinecore_client.py` only queries the remote index and a language model and prints the answers. It is not part of this model.
- The script does no furigana/ruby normalisation and no configuration checks, so neither is modelled.
- Python object aliasing is not modelled: the chunk the script extends in place is also still held in `first_chunks`. The model tracks only the output list's own state.
- `LoaderDispatch.LowerChar`: lower-cases ASCII letters only, while Python's `str.lower` also folds other letters. No non-ASCII character lower-cases to one of `.`, `p`, `d`, `f`, `c`, `s`, `v`. The one character whose lower-case form is two characters (U+0130) ends in a combining mark. So the decision of which loader to use is the same with either lower-casing.
