# extractRepoContent in Dafny

This project models the path and string pipeline of `extractRepoContent.py`. The script bundles a project directory into one text file. It lists every file under a root directory. It drops any path with a segment that starts with `.` (a hidden directory or file). It drops any path whose final segment (the filename) is in a fixed exclusion list. It sorts what is left. Then it writes each file as one block: the path with the root removed, a blank line, the file's contents, and the line `-----------------` between newlines.

The model has four modules:

- `Seqs` (`seqs.dfy`) holds the order-preserving filter that a list comprehension `[x for x in s if f(x)]` computes (`Keep`). It also holds the subsequence relation and `Concat`. It proves that the filter keeps exactly the elements that satisfy the predicate, by count and in order. It also proves that filtering is idempotent, that two filters commute, and that two filters in a row equal one filter by the conjunction.
- `PyStr` (`pystr.dfy`) covers the Python builtins the script calls:
  - `str.split(sep)`, with `sep.join` as its inverse;
  - `str.replace(pat, "")`, which removes every non-overlapping occurrence, scanning left to right;
  - iterating over a text file line by line;
  - `sorted` on a list of strings, with Python's order on strings (by code point, a proper prefix first).
- `ExtractRepoContent` (`extract.dfy`) holds the script's functions, the writer (a method that appends to an output buffer in a loop, as the source does), and the composition in `__main__`.
- `Scenarios` (`scenarios.dfy`) holds concrete scenarios: lemmas over small, fixed inputs. One is a project whose files are `a.py`, `.git/ignored.py`, `README.md` and `sub/b.py`, with `README.md` excluded.

The separator is fixed to `/`. File contents are a `map<string, string>` from path to the text a text-mode read returns. A path missing from the map is a file that cannot be opened. The writer then stops with `ok == false`, and its output is the blocks it wrote before that file. The configuration constants (`rootDir`, `FILES_TO_EXCLUDE`) and the listing of the directory are parameters.

Two behaviours of the code that a reader might not expect. The model keeps both.

- Relativization is not a removal of the root *prefix*. The code is `absolutePath.replace(projectRoot, "")`, which removes every occurrence of the root, wherever it appears. `RemoveAll` keeps this. `PyStr.RemoveAllFirstOccurrence` removes the first occurrence wherever it stands and resumes scanning after it, so `"/p/a/p/b"` with root `"/p"` becomes `"/a/b"` (`PyStr.RemoveAllEveryOccurrence`). A path that is a non-empty root followed by a remainder becomes that remainder if and only if the root does not occur again in it (`ExtractRepoContent.RelativeToRoot`). The default root `''` leaves every path unchanged (`ExtractRepoContent.GetProjectRelativePath`).
- The hidden test has no exception for the root. It is applied to the absolute path, so every segment counts, the root's own segments included: a root under a dot-directory hides every file (`ExtractRepoContent.FilterFilesFromHiddenDir`; `ExtractRepoContent.ContainsHiddenDirIff`).

## Model

| member | source | states |
|---|---|---|
| Seqs.Keep | extractRepoContent.py:35 | A comprehension filter never grows its input. Everything kept is an input element that satisfies the predicate. Every input element that satisfies it is kept. |
| Seqs.KeepIsSubseq | extractRepoContent.py:35 | The filtered list is a subsequence of its input, so input order is preserved. |
| Seqs.KeepCount | extractRepoContent.py:38 | Each value occurs in the result exactly as often as in the input if it satisfies the predicate, and not at all otherwise. |
| Seqs.KeepIdempotent | extractRepoContent.py:35 | Filtering twice with the same predicate equals filtering once. |
| Seqs.KeepKeep | extractRepoContent.py:64 | Two filters applied one after the other equal a single filter by their conjunction. |
| Seqs.KeepCommute | extractRepoContent.py:64 | Two filters give the same result in either order. |
| Seqs.ConcatAppend | extractRepoContent.py:50-51 | Concatenating pieces distributes over appending lists of pieces. |
| PyStr.Split | extractRepoContent.py:32 | `split('/')` returns at least one piece. No piece contains the separator. Joining the pieces with the separator gives back the input. |
| PyStr.SplitJoin | extractRepoContent.py:32 | Splitting undoes joining separator-free pieces (the round trip in the other direction). |
| PyStr.SplitSingle | extractRepoContent.py:38 | The split has exactly one piece if and only if the separator does not occur. |
| PyStr.LastSegment | extractRepoContent.py:38 | `split('/')[-1]` is a suffix with no separator. It starts at the beginning of the string or right after a separator. |
| PyStr.RemoveAll | extractRepoContent.py:41 | `replace(pat, "")` never makes a string longer, and the empty pattern leaves it unchanged. For a non-empty pattern its value on every input is fixed by `RemoveAllAbsent` and `RemoveAllFirstOccurrence`. |
| PyStr.RemoveAllAbsent | extractRepoContent.py:41 | When the pattern occurs nowhere, the string is returned unchanged. |
| PyStr.RemoveAllLeading | extractRepoContent.py:41 | A leading occurrence of a non-empty pattern is removed, and scanning resumes right after it. |
| PyStr.RemoveAllShrinks | extractRepoContent.py:41 | A non-empty pattern that occurs is removed, so the result is strictly shorter than the input. |
| PyStr.RemoveAllFirstOccurrence | extractRepoContent.py:41 | For every string and non-empty pattern with a first occurrence at `i`: the text before `i` is kept, the occurrence is removed, and the scan resumes right after the occurrence. With `RemoveAllAbsent` this fixes the result for every non-empty pattern. |
| PyStr.RemoveAllEveryOccurrence | extractRepoContent.py:41 | Two fixed instances: `"/p/a/p/b"` becomes `"/a/b"` with pattern `"/p"` (a middle occurrence goes too), and `"aaa"` becomes `"a"` with pattern `"aa"` (overlaps are taken leftmost first). |
| PyStr.LineLength | extractRepoContent.py:50 | The first line of non-empty text has length at least 1 and at most the text's length. It contains no newline except as its last character, and it ends in a newline unless it reaches the end of the text. |
| PyStr.Lines | extractRepoContent.py:50 | The lines of a text file are non-empty. Every line but the last ends in `\n`. No line has a `\n` before its end. |
| PyStr.LinesConcat | extractRepoContent.py:50-51 | Concatenating the lines reproduces the contents exactly. |
| PyStr.LexLe | extractRepoContent.py:64 | Python's `<=` on strings, which `sorted` compares with, defined character by character (a definition, characterised by `LexLeFirstDifference`). |
| PyStr.LexLeFirstDifference | extractRepoContent.py:64 | `a <= b` holds if and only if `a` is a prefix of `b` or, at the first index where they differ, `a` has the smaller code point. |
| PyStr.LexLeTotal | extractRepoContent.py:64 | Python's order on strings is total. |
| PyStr.LexLeTrans | extractRepoContent.py:64 | Python's order on strings is transitive. |
| PyStr.LexLeAntisym | extractRepoContent.py:64 | Python's order on strings is antisymmetric. |
| PyStr.InsertSorted | extractRepoContent.py:64 | Inserting a string into an ordered list keeps it ordered and adds exactly that string. |
| PyStr.Sort | extractRepoContent.py:64 | `sorted(s)` is ordered and is a permutation of `s`. |
| PyStr.SortedUnique | extractRepoContent.py:64 | Two ordered lists with the same elements are equal. So every correct sort, Python's included, returns the list `Sort` returns. |
| ExtractRepoContent.ContainsHiddenDir | extractRepoContent.py:31-32 | The hidden test: some `/`-separated segment starts with `.` (a definition, characterised by `ContainsHiddenDirIff`). |
| ExtractRepoContent.ContainsHiddenDirIff | extractRepoContent.py:31-32 | A path has a segment starting with `.` if and only if a dot stands at the start of the path or right after a `/`. Empty segments never count. |
| ExtractRepoContent.FilterFilesFromHiddenDir | extractRepoContent.py:34-35 | A path is in the result if and only if it is in the input and has no hidden segment. The result is a subsequence of the input. |
| ExtractRepoContent.BaseName | extractRepoContent.py:38 | The final segment is the longest suffix without `/`. It starts at the beginning of the path or right after a `/`. |
| ExtractRepoContent.BaseNameAfterSlash | extractRepoContent.py:38 | When no `/` follows position `i` and `p[i]` is `/`, the final segment is everything after `i`. |
| ExtractRepoContent.BaseNameNoSlash | extractRepoContent.py:38 | A path without `/` is its own final segment. |
| ExtractRepoContent.EmptyBaseName | extractRepoContent.py:38 | The final segment is empty if and only if the path is empty or ends in `/`. So the `''` exclusion entry drops only such paths. |
| ExtractRepoContent.FilterExcludedFiles | extractRepoContent.py:37-38 | A path is in the result if and only if it is in the input and its final segment is not in the exclusion list. The result is a subsequence of the input. |
| ExtractRepoContent.FilterHiddenIdempotent | extractRepoContent.py:34-35 | Running the hidden filter twice equals running it once. |
| ExtractRepoContent.FilterExcludedIdempotent | extractRepoContent.py:37-38 | Running the exclusion filter twice equals running it once. |
| ExtractRepoContent.FiltersCommute | extractRepoContent.py:64 | The hidden filter and the exclusion filter give the same list in either order. |
| ExtractRepoContent.FiltersAsOne | extractRepoContent.py:64 | The two filters composed as in `__main__` equal one filter by "not hidden and final segment not excluded". |
| ExtractRepoContent.GetProjectRelativePath | extractRepoContent.py:40-41 | The relative path is never longer than the absolute one. It is unchanged when the root does not occur in it, and unchanged for the default root `''`. |
| ExtractRepoContent.RelativeToRoot | extractRepoContent.py:40-41 | A non-empty root followed by a remainder becomes exactly that remainder if and only if the root does not occur again in it. |
| ExtractRepoContent.Block | extractRepoContent.py:48-52 | One file's block: the relative path, `\n\n`, the contents, then the separator line (a definition, characterised by `BlockParts`). |
| ExtractRepoContent.BlockParts | extractRepoContent.py:48-52 | A block's length is the sum of its parts. The relative path, the blank line, the contents and the separator line can each be read back at fixed offsets. |
| ExtractRepoContent.Render | extractRepoContent.py:45-52 | The document for a list of paths is at least 21 characters per path long (the blank line and the separator line). |
| ExtractRepoContent.RenderStarts | extractRepoContent.py:46-48 | A non-empty document starts with the first file's relative path. |
| ExtractRepoContent.RenderEnds | extractRepoContent.py:52 | A non-empty document ends with the separator line. |
| ExtractRepoContent.RenderAppend | extractRepoContent.py:45-52 | The document for two lists of paths, one after the other, is the two documents concatenated. |
| ExtractRepoContent.RenderBlockAt | extractRepoContent.py:45-52 | The i-th file's block, holding its relative path and its contents verbatim, sits between the blocks of the files before it and the blocks of the files after it. |
| ExtractRepoContent.CopyLines | extractRepoContent.py:50-51 | Writing a file's lines one at a time appends exactly its contents. |
| ExtractRepoContent.WriteContentToFile | extractRepoContent.py:43-55 | The output starts empty (it is truncated). When every file opens, the output is the blocks of all paths in list order. Otherwise the writer stops at the first file that cannot be opened, and the output holds exactly the blocks of the paths before it. |
| ExtractRepoContent.FilteredFiles | extractRepoContent.py:64 | The list given to the writer is sorted. It holds exactly the enumerated paths that pass both filters, each as often as it was enumerated. |
| ExtractRepoContent.Run | extractRepoContent.py:63-65 | A run succeeds if and only if every retained file can be opened. On success the output is the rendering of the sorted retained paths. On failure it is the blocks written before the first unreadable one. |
| Scenarios.ExclusionMatchesFinalSegmentOnly | extractRepoContent.py:61 | With the entries `.github` and `''` excluded, a file under a `.github` directory is kept, and a path ending in `/` is dropped. |
| Scenarios.RelativePaths | extractRepoContent.py:41 | With root `/r`, `/r/a.py` becomes `/a.py` and `/r/sub/b.py` becomes `/sub/b.py`. |
| Scenarios.EndToEnd | extractRepoContent.py:63-65 | For a project with `a.py`, `.git/ignored.py`, `README.md` and `sub/b.py`, with `README.md` excluded, the document is exactly the block for `/a.py` followed by the block for `/sub/b.py`. |

## Left out

- `getFilesInDirRecursively` (extractRepoContent.py:23-29) enumerates the filesystem (`Path.rglob`, `resolve`, `isdir`, `isfile`). Its result is the `allFiles` parameter of `Run`, so the "missing root gives no files" rule is not modelled.
- Opening, reading and writing files, and the `print` progress line, are I/O. Contents are a map from path to text. The output is returned as a string instead of being written to `outputFilePath`, so `WriteContentToFile` has no such parameter.
- WriteContentToFile: a text-decoding failure is not modelled. In the source it happens after the header and possibly some lines are written. Only a file that cannot be opened is modelled, and that fails before the file's header is written.
- WriteContentToFile: text mode's newline translation (`\r\n` and `\r` read as `\n`) is not modelled. The map holds the text as already read.
- WriteContentToFile: the contents map does not depend on the output. When the output file (`test.txt`, relative to the working directory) is itself one of the enumerated paths, which happens when the script runs inside `rootDir` a second time, the source truncates it on open and then reads back its own partly flushed output. The model reads the map's contents for that path instead.
- WriteContentToFile: on failure, the output is taken to hold everything written so far. Buffering that was never flushed is not modelled.
- `os.sep` is fixed to `/`. Windows separators are not modelled.
- The hard-coded `rootDir` and `FILES_TO_EXCLUDE` are parameters of `Run`. The output path `test.txt` has no counterpart, since the output is returned as a string and `outputFilePath` is gone. `FILES_TO_EXCLUDE`'s use of `.github` and `''` appears only as the example in `Scenarios.ExclusionMatchesFinalSegmentOnly`.
- `str.replace` is modelled only with an empty replacement string, the only one the source uses.
- `sorted` is modelled as an insertion sort rather than Timsort. By `PyStr.SortedUnique`, both give the same list.
- Parsing the output back into blocks is not modelled. Contents are not escaped, so splitting on the separator line recovers the files only when no content contains that line, and the source makes no such promise.
