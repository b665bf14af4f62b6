# Utils.cpp string, path and file-search helpers in Dafny

This project models the deterministic core of `Utils.cpp`, the helper collection of a C++ engine, and proves properties of the model. It has four modules.

- `Strings` (strings.dfy) covers the string helpers:
  - `trimBeg`, `trimEnd` and `trim`;
  - both `replaceAll` overloads;
  - `stripQuotes`, `enquote`, `equals` and `beginsWith`.

  It also models the `std::string` primitives these helpers call, as functions with first-occurrence and last-occurrence contracts: `find`, `rfind` and `compare`.
- `Paths` (paths.dfy) covers the path helpers:
  - `formatPath` and `combinePath`;
  - the hand-written branch of `getFileNameFromPath`;
  - `getDirectoryNameFromPath`, `getExtensionPartOfFileName` and `getFilePartOfFileName`.
- `Tokenize` (split.dfy) covers `split`.
- `FileSearch` (filesearch.dfy) covers `getAllFilesOrDirs`, `getAllFiles`, `getAllDirs` and `findFile`.
  - The file system is an in-memory tree. An `Entry` is either a `File` with a name and a modification time, or a `Dir` with a name, a readable flag and its children in readdir order.
  - An unreadable directory stands for one that `opendir` fails on.
  - The `FileInfo` record is a class whose four fields `FindFile` updates in place.

The source's loops stay loops. The methods `TrimBeg`, `TrimEnd`, `ReplaceAllChar`, `ReplaceAllStr`, `Split`, `GetAllFilesOrDirs` and `FindFile` are each proved equal to a specification function. The lemmas then state the source's promises about those functions:

- `combinePath` joins with exactly one `/`;
- base name and directory name rebuild the path;
- a string replacement is left-to-right, does not overlap, and never rescans inserted text;
- `findFile` returns the first file with the searched base name in depth-first, readdir order, and searches a directory's own files before any of its subdirectories.

Two behaviours of the source are modelled as written:
- In `split`, a delimiter that arrives while the token buffer is empty is kept as token text. `SplitExample` shows that `"/a//b"` gives `"/a"` and `"/b"`.
- In `getFileNameFromPath`, the `substr` count reaches past the end of the string. `std::string::substr` clamps it, and `Substr` models that clamp.

## Model

| member | source | states |
|---|---|---|
| Strings.FindChar | src/Utils.cpp:444 | `find(c, x)`: the index found holds `c` and no earlier index from `x` does; no index is found exactly when no position from `x` holds `c` |
| Strings.FindStr | src/Utils.cpp:453 | `find(pat, x)`: the first occurrence of `pat` at or after `x`, or none when there is no occurrence from `x` on |
| Strings.RFindChar | src/Utils.cpp:404 | `rfind(c)`: the last index holding `c`; none exactly when `c` does not occur |
| Strings.RFindCharAt | src/Utils.cpp:404 | an index holding `c` with no `c` after it is what `rfind` returns |
| Strings.RFindStr | src/Utils.cpp:132 | `rfind(pat, pos)`: the last occurrence of `pat` starting at or before `pos` |
| Strings.Compare | src/Utils.cpp:128 | the model's `compare` returns -1, 0 or 1 (where `std::string::compare` returns any negative, zero or positive value), and 0 exactly when the strings are equal |
| Strings.Equals | src/Utils.cpp:127-130 | `equals` holds exactly when the strings are equal |
| Strings.BeginsWith | src/Utils.cpp:131-134 | `rfind(prefix, 0) == 0` holds exactly when `prefix` is a prefix of the string |
| Strings.Enquote | src/Utils.cpp:534-538 | the result is two characters longer, starts and ends with `"`, and holds the input between them |
| Strings.RemoveChar | src/Utils.cpp:147-148 | erase-remove drops every `c` and keeps the count of every other character |
| Strings.RemoveCharAppend | src/Utils.cpp:147-148 | erase-remove distributes over concatenation |
| Strings.RemoveCharAbsent | src/Utils.cpp:147-148 | erase-remove leaves a string without `c` unchanged |
| Strings.StripQuotes | src/Utils.cpp:145-150 | no `"` or `'` is left, and every other character keeps its count |
| Strings.StripQuotesAppend | src/Utils.cpp:145-150 | `stripQuotes` distributes over concatenation |
| Strings.StripQuotesIdempotent | src/Utils.cpp:145-150 | stripping twice is stripping once |
| Strings.StripQuotesOfEnquote | src/Utils.cpp:145-150 | stripping a quoted string is stripping the string |
| Strings.LeadingRunEndRun | src/Utils.cpp:522-524 | every character the trimBeg loop would skip is the trim character |
| Strings.TrailingRunStartRun | src/Utils.cpp:529-531 | every character the trimEnd loop would drop is the trim character |
| Strings.TrimmedBeg | src/Utils.cpp:520-526 | the result is a suffix of the input and does not start with `c` |
| Strings.TrimmedBegRemovesRun | src/Utils.cpp:520-526 | everything trimBeg removes is `c` |
| Strings.TrimBeg | src/Utils.cpp:520-526 | the loop computes `TrimmedBeg` |
| Strings.TrimmedEnd | src/Utils.cpp:527-533 | the result is a prefix of the input and does not end with `c` |
| Strings.TrimmedEndRemovesRun | src/Utils.cpp:527-533 | everything trimEnd removes is `c` |
| Strings.TrimEnd | src/Utils.cpp:527-533 | the loop computes `TrimmedEnd` |
| Strings.Trimmed | src/Utils.cpp:514-519 | the trim neither starts nor ends with `c` |
| Strings.TrimmedIsSlice | src/Utils.cpp:514-533 | the trim is a slice of the input with only `c` before and after it |
| Strings.TrimmedUnique | src/Utils.cpp:514-533 | any such slice that does not start or end with `c` is the trim |
| Strings.TrimmedNoop | src/Utils.cpp:514-533 | a string that neither starts nor ends with `c` is its own trim |
| Strings.TrimmedIdempotent | src/Utils.cpp:514-533 | trimming twice is trimming once |
| Strings.TrimmedExample | src/Utils.cpp:514-533 | `trim("//a//", '/') == "a"` |
| Strings.Trim | src/Utils.cpp:514-519 | trimBeg followed by trimEnd computes `Trimmed` |
| Strings.ReplacedChar | src/Utils.cpp:439-449 | the length is kept; each position holds the new character where the input held the old one, and is unchanged elsewhere |
| Strings.ReplaceAllChar | src/Utils.cpp:439-449 | the find/replace loop computes `ReplacedChar` |
| Strings.ReplacedStrOfChars | src/Utils.cpp:439-458 | on one-character strings the two `replaceAll` overloads agree |
| Strings.ReplacedStrNone | src/Utils.cpp:450-458 | without an occurrence of the pattern nothing changes |
| Strings.ReplacedStrFirst | src/Utils.cpp:450-458 | the text before the first occurrence is kept, that occurrence is replaced, and scanning resumes right after it in the original text |
| Strings.ReplacedStrExample | src/Utils.cpp:455 | inserted text is not rescanned: replacing `a` by `aa` in `aba` gives `aabaa` |
| Strings.ReplaceStep | src/Utils.cpp:453-456 | one loop iteration keeps the invariant linking `ret`, the resume index `x` and the original string |
| Strings.ReplaceDone | src/Utils.cpp:453 | when `find` reports nothing more, `ret` is the full replacement |
| Strings.ReplaceAllStr | src/Utils.cpp:450-458 | the find/replace loop computes `ReplacedStr`, the left-to-right non-overlapping replacement of the original string |
| Paths.Substr | src/Utils.cpp:407 | `substr(pos, count)` is the `count` characters from `pos` when that many are left, and the rest of the string from `pos` otherwise |
| Paths.FormatPath | src/Utils.cpp:436-438 | the length is kept, no `\` is left, and each `\` has become `/` |
| Paths.FormatPathIdempotent | src/Utils.cpp:436-438 | formatting twice is formatting once |
| Paths.FormatPathNoop | src/Utils.cpp:436-438 | a path without `\` is already formatted |
| Paths.FormatPathAppend | src/Utils.cpp:436-438 | formatting distributes over concatenation |
| Paths.CombinePathJoinsOnce | src/Utils.cpp:354-362 | with both sides non-empty, the result is two `\`-free parts without a `/` at their ends, joined by one `/`; each part is its side, formatted and trimmed of `/` |
| Paths.CombinePath | src/Utils.cpp:335-364 | when a side is empty the result is the other side, as `a + b` is; with both sides non-empty the result holds no `\` |
| Paths.CombinePlainNames | src/Utils.cpp:350-362 | two names without separators at their ends and without `\` are joined by one `/` |
| Paths.CombineWrappedNames | src/Utils.cpp:350-362 | separators around plain names are dropped |
| Paths.CombineDropsRoot | src/Utils.cpp:355-362 | a leading `/` of the directory side is dropped: `combinePath("/" + x, name)` is `x + "/" + name` for plain names |
| Paths.CombineAbsoluteRootExample | src/Utils.cpp:355-362 | `combinePath("/r", "f") == "r/f"` |
| Paths.CombinePathExample | src/Utils.cpp:350-362 | `combinePath("/a/", "/b") == "a/b"` |
| Paths.GetFileNameFromPath | src/Utils.cpp:389-414 | the file name holds neither `/` nor `\` |
| Paths.FileNameIsBaseName | src/Utils.cpp:399-411 | the file name is a suffix of the formatted path, and the input itself when there is no `/` |
| Paths.SplitAtLastSlash | src/Utils.cpp:399-435 | for `x + "/" + name`, with `x` free of `\` and `name` a plain name, the file name is `name` and the directory is `x` |
| Paths.GetFileNameExample | src/Utils.cpp:399-411 | `"dir/sub/file.txt"` gives `"file.txt"` |
| Paths.GetFileNameOfCombine | src/Utils.cpp:335-435 | the file name of `combinePath(dir, name)` is `name`, and its directory is the trimmed, formatted `dir` |
| Paths.GetDirectoryNameFromPath | src/Utils.cpp:416-435 | the directory name is a prefix of the formatted path |
| Paths.DirectoryAndFileNameRebuildPath | src/Utils.cpp:389-435 | when the formatted path has a `/`, directory + `/` + file name is the formatted path; otherwise the directory name is the formatted path |
| Paths.GetExtensionPartOfFileName | src/Utils.cpp:365-379 | `""` when the base name has no `.`; otherwise a suffix of the base name that starts with `.` and has no other `.` |
| Paths.GetExtensionExample | src/Utils.cpp:365-379 | `"dir/sub/file.txt"` gives `".txt"` |
| Paths.GetFilePartOfFileName | src/Utils.cpp:380-388 | fails exactly when there is no `.`; otherwise the part ends at the last `.`, and part + the rest from there is the input |
| Paths.FilePartAndExtensionRebuildName | src/Utils.cpp:365-388 | for a plain name with a `.`, file part + extension is the name |
| Tokenize.TokensNonEmpty | src/Utils.cpp:494-513 | every pushed token is non-empty |
| Tokenize.DelimitersOnlyFirst | src/Utils.cpp:494-513 | within a token only the first character can be a delimiter |
| Tokenize.NoDelimitersOneToken | src/Utils.cpp:494-513 | non-empty input without delimiters is one token equal to the input |
| Tokenize.SplitFromKeep | src/Utils.cpp:507-508 | a character that does not end a token is appended to the buffer |
| Tokenize.SplitFromCut | src/Utils.cpp:501-504 | a delimiter after a non-empty buffer pushes the buffer and empties it |
| Tokenize.SplitExample | src/Utils.cpp:494-513 | `"/a//b"` split on `/` gives `"/a"` and `"/b"` |
| Tokenize.Split | src/Utils.cpp:494-513 | the nested loops append `SplitTokens(input, dels)` to `ret` and leave the earlier entries untouched |
| FileSearch.ListingPrefix | src/Utils.cpp:308-320 | after `n` readdir entries, at most `n` paths are collected, each naming an entry of the requested kind |
| FileSearch.ListingMembers | src/Utils.cpp:308-320 | every listed entry is a child of the directory |
| FileSearch.ListingPaths | src/Utils.cpp:312 | each listed path is `combinePath(dir, name)` |
| FileSearch.ListingComplete | src/Utils.cpp:308-320 | every child of the requested kind, other than `.` and `..`, is listed |
| FileSearch.ListingSnoc | src/Utils.cpp:308-320 | one more readdir entry adds at most that entry at the end |
| FileSearch.ListEntry | src/Utils.cpp:309-319 | one loop body pushes the entry's path exactly when the entry is listable |
| FileSearch.GetAllFilesOrDirs | src/Utils.cpp:300-328 | the result is true exactly when the directory opens; the output is then the listing, and empty otherwise |
| FileSearch.GetAllDirs | src/Utils.cpp:329-331 | the directory listing |
| FileSearch.GetAllFiles | src/Utils.cpp:332-334 | the file listing |
| FileSearch.Hits | src/Utils.cpp:479-484 | each listed file paired with its modification time, in order |
| FileSearch.FirstHit | src/Utils.cpp:479-487 | none exactly when no file matches the base name; otherwise a matching one from the list |
| FileSearch.FirstHitAt | src/Utils.cpp:479-487 | the first matching position is what is found |
| FileSearch.FirstHitAppend | src/Utils.cpp:477-492 | searching a concatenation searches the first part first |
| FileSearch.FirstMatch | src/Utils.cpp:479-487 | the files loop returns the first file with the searched base name, with its time |
| FileSearch.Search | src/Utils.cpp:470-493 | a file the recursive search finds has the searched base name |
| FileSearch.SearchIsFirstHit | src/Utils.cpp:470-493 | the recursive search is the first match among all reachable files in depth-first, readdir order |
| FileSearch.SearchSoundAndComplete | src/Utils.cpp:470-493 | a found file is reachable and has the searched base name; nothing is found exactly when no reachable file has it |
| FileSearch.SearchFindsOnlyMatch | src/Utils.cpp:470-493 | a file that is the only match under the tree is found |
| FileSearch.FilesBeforeSubdirectories | src/Utils.cpp:477-492 | a directory's own files precede everything below it, and a match among them is the answer |
| FileSearch.ListedBaseName | src/Utils.cpp:312 | the base name of a listed path is the entry's name |
| FileSearch.SearchPastFiles | src/Utils.cpp:488-492 | when no file of a directory matches, the search continues in its subdirectories |
| FileSearch.TargetName | src/Utils.cpp:474-476 | the name looked for is `fileWithoutPath` when that is non-empty, and the base name of `path` otherwise |
| FileSearch.FindFile | src/Utils.cpp:470-493 | nothing changes once `found` is set; otherwise the name to look for is set, and the recorded found flag, path and time equal the search result; a failed search keeps `path` and `modified` |
| FileSearch.FindFileInDirs | src/Utils.cpp:490-492 | the subdirectory loop records the first hit of the subdirectories in order, and a call after the file is found changes nothing |
| FileSearch.SearchSingleFile | src/Utils.cpp:477-487 | a directory holding just the file finds it at `combinePath(dir, name)` |
| FileSearch.CombineSegments | src/Utils.cpp:350-362 | plain segments combine into the path with one `/` between them |
| FileSearch.SearchTwoSubdirectories | src/Utils.cpp:488-492 | with two subdirectories and no files, the first subdirectory is searched first |
| FileSearch.SearchFirstSubdirectoryFirst | src/Utils.cpp:470-493 | in `root/{a/{target}, b/{other}}` the search finds `root/a/target`, whatever `other` is called |

## Left out

- `Stopwatch`: it reads the wall clock and formats a `double`.
- `getDate` and the `log`, `logError`, `logWarn` and `logInfo` family: they read the clock, write to the console and check the thread. The `logError` call when `opendir` fails is not modelled either; the model keeps only the `false` result.
- `fileExists`, `directoryExists`, `isFile`, `isDir` and `getLastModifyTime` call `stat` or `opendir`.
  - The model looks entries up in the in-memory tree instead: an entry's kind stands for `isFile`/`isDir`, and its `mtime` stands for the modification time.
  - The listing takes an entry's kind as the answer of `isFile`/`isDir` on `combinePath(dir, name)`. That is right only when the combined path names that entry, from the working directory `stat` resolves it against. Two conditions are needed:
    - the name is non-empty and holds neither `/` nor `\`;
    - `Trimmed(FormatPath(dir), '/')` names the same directory as `dir`.
  - These conditions break in both directions:
    - On POSIX, `formatPath` rewrites a `\` to `/`, in a name or in the directory, so `stat` looks at a different path.
    - An empty name makes `combinePath` return `dir` itself.
    - `combinePath` also trims a leading `/`, so an absolute directory other than `/` becomes relative to the working directory. `CombineDropsRoot` and `CombineAbsoluteRootExample` show `combinePath("/r", "f") == "r/f"`. The source would then `stat` `r/f` against the working directory, and unless that is `/` it lists nothing under an absolute root.
    - In all these cases the model still lists and finds the entry, for example `b` in `root` holding a file named `a\b`, at `root/a/b`, or `f` under `/r`, at `r/f`.
  - `isFile` and `isDir` test the `S_IFREG` and `S_IFDIR` bits of `st_mode` rather than using `S_ISREG`/`S_ISDIR`. A socket passes both tests and a block device passes `isDir`. The two-kind `Entry` has no such entries.
  - `getLastModifyTime`'s exception is left out because only existing files are listed, so it cannot be reached from `findFile`.
- `executeReadOutput` (`popen`), `debugBreak` (signals) and `createDirectoryRecursive` (`std::filesystem` and helpers from other files) are operating-system operations.
- The `BR2_CPP17` branch of `getFileNameFromPath` wraps `std::filesystem::path`. Only the hand-written branch is modelled. The `std::filesystem` version of `combinePath` is commented out in the source.
- Symbolic links and cycles. The tree is a finite datatype, so the recursion of `findFile` terminates.
- Strings.Compare: `compare` is modelled with Dafny's `char` order rather than `char_traits<char>` byte order. Only `compare(...) == 0` is used, and equality does not depend on the order.
- Strings.ReplaceAllStr: it requires a non-empty `strToRemove`. With an empty pattern the source loop never ends: an empty pattern matches at every `x <= ret.size()`, and each round grows `ret` by as much as `x` advances, so `x` never passes the end of `ret`.
- Paths.GetFilePartOfFileName: the `off >= fileName.size()` half of the guard cannot hold once `rfind` has found an index. Only the missing `.` leads to the failure result, which stands for the exception.
- Paths.GetDirectoryNameFromPath: the unused call to `getFileNameFromPath` is not modelled.
- The `FileInfo` constructor is declared in `Utils.h`, which is not part of this model. `FileSearch.FileInfo.constructor` only sets the four fields.
- Some source loops are split into helpers so that each proof stays small. They do not exist in the source. The lists below say what each stands for.
  - Loop bodies and loops as helper methods:
    - `ListEntry`: the body of the readdir loop;
    - `FirstMatch`: the files loop of `findFile`;
    - `FindFileInDirs`: the subdirectories loop of `findFile`.
  - Steps of proofs as helper lemmas:
    - `ReplaceStep`, `ReplaceAt`, `FindStrShift`, `SpliceSlices`, `ReplaceStepEquation` and `ReplaceDone`: the replaceAll loop invariant;
    - `SearchPastFiles`: the step from the files loop to the subdirectories loop.
