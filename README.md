# Album locator and PDF packager of jm-mcp-server

This project models the part of `src/server.py` that turns a downloaded
comic album into a PDF. The Dafny 4 files are under `src/`.

- **Orderings.** `sorted_numeric_filenames` orders the image files of a
  directory by the number formed from all digits of the name without its
  extension. `sorted_numeric_subdirs` puts all-digit chapter directories
  first, by value, and the other names after them, as Python compares
  strings. Both are Python's stable `sorted`. Module `Ordering` has one
  stable insertion sort, `SortBy`, that serves both. It is proved to be a
  permutation, sorted and stable, and to be the only list with those three
  properties.
- **Parameter mapping.** `get_mapped_value` and the `PARAM_MAPPINGS` tables
  translate option words into the provider's constants (module
  `ParamMapping`). The provider's constants are distinct, opaque values.
- **The packager.** `convert_images_to_pdf` and `convert_album_to_pdf`
  (module `Packager`) run in the source's order:
  1. create the output directory;
  2. skip when `<stem>.pdf` already exists;
  3. check the input folder;
  4. discover the images, one level down in the chapter directories or
     directly in the folder;
  5. keep the images that open;
  6. save.

  `ConvertImagesToPdf` is the imperative version, with the loops that
  build `image_paths` and `valid_images`. It is proved equal to the
  function `PackSpec`, and the lemmas state the packager's promises about
  `PackSpec`.
- **The locator.** The two loops of `download_and_convert` look for the
  downloaded album directory (module `Locator`):
  - The first pass tries `base/title`. Failing that, it takes the first
    listed directory related to the title. Failing that, it takes the first
    listed directory that contains the album id or is recent, by
    `is_recent_directory(…, 30)`.
  - The fallback collects the directories whose creation time can be read,
    sorts them newest first, and takes the first one it accepts.
- **The worker and the tool.** Module `Pipeline` models the rest of the
  worker after the download: the existence check, the fallback, the
  conversion and the check for the PDF. It also models the
  `convert_album_to_pdf_tool` tool and its default directory.

The file system is a value (module `FileTree`): a tree of named files and
directories. A directory may be unlistable, and its creation time may be
unreadable. A file records whether an image decoder can open it. A path is
the sequence of its components, and `os.path.join(p, n)` is `p + [n]`.
`os.makedirs(…, exist_ok=True)` is `MakeDirs`, and writing the PDF is
`AddChild`. The clock is an integer number of seconds passed in by the
caller.

The worker sees the file system twice: the first pass runs on `fsFirst` at
time `now`, and everything from line 623 on runs on `fsLater` at time
`later`. `download_album` has returned (line 562) before the first pass
starts, so `fsFirst` already holds the downloaded album. The two snapshots
differ only when some concurrent writer, such as another worker thread or
another process, changes the download directory between the passes. The
lemma `FallbackFindsNothingNew` makes this precise. When nothing changed
and the clock did not go back, every directory the fallback accepts had
already been accepted by the first pass. So the fallback can find an album
only after the directory changed.

The model follows the code in these details:

- A file name without digits gets number 0 and so sorts *before* "1.jpg".
  It does not sort after the numbered names (`DigitlessNamesFirst`,
  `DigitlessExample`).
- The first pass's id-or-recent loop tests both rules on each entry in
  listing order. So an earlier recent directory wins over a later directory
  whose name contains the album id (`RecentBeforeIdMatch`). The download
  path never looks for `base/<album id>` first; only the tool defaults to
  it (`ToolDefaultDirectory`).
- A missing download directory ends the same way as "nothing found"
  (line 716). No separate outcome exists for it (`FallbackSpec`,
  `Outcome.AlbumNotFound`).
- An input folder with only non-image files fails at line 218, "no image
  files" (`NoImageFiles`). It does not fail as "no usable images".
- The PDF is named after the *stem* of the album directory's name
  (line 170). The check after a conversion looks for `<basename>.pdf`
  (lines 632 and 708). So for an album directory named like "Vol.1", the
  check reports the new PDF as missing (`DottedAlbumName`,
  `DottedNameReportedMissing`).

## Model

| member | source | states |
|---|---|---|
| Names.Splitext | src/server.py:135 | `os.path.splitext`: the parts concatenate to the name; a non-empty extension is a dot followed by no dot or separator, after a non-dot character of the last component; there is no extension only when no dot of the last component follows a non-dot character |
| Names.DigitsOf | src/server.py:136 | the digit filter keeps only ASCII digits, a sub-multiset of the name, and is empty exactly when the name has no digit |
| Names.DigitsOfChar | src/server.py:136 | the filter keeps a single digit and drops a single non-digit |
| Names.DigitsOfAppend | src/server.py:136 | the filter of a concatenation is the concatenation of the filters, so it keeps the name's digits in order and nothing else |
| Names.DigitsOfDigits | src/server.py:136 | filtering a string of digits keeps all of it |
| Names.LeadingZero | src/server.py:136 | `int` of digits ignores a leading zero |
| Names.Lower | src/server.py:113 | lower-casing keeps the length, leaves no ASCII upper-case letter, maps each upper-case letter to its lower-case letter and keeps every other character |
| Names.LowerIdempotent | src/server.py:113 | lower-casing twice is lower-casing once |
| Names.In | src/server.py:601 | Python's `in` on strings holds exactly when the needle occurs at some position of the haystack |
| Ordering.StrLeTotal | src/server.py:146-147 | Python's string order is total |
| Ordering.StrLeTransitive | src/server.py:146-147 | Python's string order is transitive |
| Ordering.StrLeAntisymmetric | src/server.py:146-147 | Python's string order is antisymmetric |
| Ordering.KeyLeTotal | src/server.py:142-147 | the order on `(0, int)` / `(1, str)` keys is total |
| Ordering.KeyLeTransitive | src/server.py:142-147 | the order on sort keys is transitive |
| Ordering.KeyLeAntisymmetric | src/server.py:142-147 | the order on sort keys is antisymmetric |
| Ordering.StrLe | src/server.py:146-147 | Python's comparison of two strings, character code by character code, a prefix first; its order properties are the `StrLe` lemmas |
| Ordering.SortBy | src/server.py:137 | Python's stable `sorted` by a key; `SortByPermutation`, `SortBySorted`, `SortByStable` and `SortByCharacterization` state what it returns |
| Ordering.SortByPermutation | src/server.py:137 | `sorted` returns a permutation of its input |
| Ordering.SortBySorted | src/server.py:137 | `sorted` returns keys in non-decreasing order |
| Ordering.SortByStable | src/server.py:137 | `sorted` keeps the input order of elements with equal keys |
| Ordering.SortByMembers | src/server.py:137 | `sorted` keeps the length and exactly the members of its input |
| Ordering.SortedStableUnique | src/server.py:137 | two sorted lists with the same elements per key, in the same order, are equal |
| Ordering.SortByCharacterization | src/server.py:137 | a list is the result of the stable sort exactly when it is a sorted, stable permutation of the input |
| Ordering.SortedStrictlyBefore | src/server.py:137 | in a sorted list an element with a strictly smaller key comes first |
| NumericSort.FileNumber | src/server.py:134-136 | `extract_number`: the digits of the stem read as one decimal number, 0 without digits; `JpgNumber` and `DigitlessNamesFirst` state its values |
| NumericSort.SortedNumericFilenames | src/server.py:132-137 | `sorted_numeric_filenames`, the stable sort by `FileNumber`; `SortedNumericFilenamesSpec` states what it returns |
| NumericSort.SubdirKey | src/server.py:142-146 | `sort_key`: `(0, int(x))` for an all-digit name, `(1, x)` otherwise; `TwoBeforeTen` and `LeadingZeroTies` state its consequences |
| NumericSort.SortedNumericSubdirs | src/server.py:140-147 | `sorted_numeric_subdirs`, the stable sort by `SubdirKey`; `SortedNumericSubdirsSpec` states what it returns |
| NumericSort.SortedNumericFilenamesSpec | src/server.py:132-137 | the filename sort is a permutation with non-decreasing numbers and equal numbers in input order, and it is the only such list |
| NumericSort.DigitlessNamesFirst | src/server.py:134-137 | a name without digits gets 0 and precedes every name with a positive number |
| NumericSort.DigitlessExample | src/server.py:132-137 | names numbered 10, 2, 0, 1 come out as 0, 1, 2, 10 |
| NumericSort.FourByKey | src/server.py:137 | the stable sort of four elements keyed 10, 2, 0, 1 puts them in the order 0, 1, 2, 10 |
| NumericSort.JpgNumber | src/server.py:134-136 | the number of `<base>.jpg` is the base's value when it is all digits and 0 when it has none |
| NumericSort.StemOfJpg | src/server.py:135 | the stem of `<base>.jpg` is `<base>` when the base has no dot or separator |
| NumericSort.SortedNumericSubdirsSpec | src/server.py:140-147 | the subdir sort is a permutation in which all-digit names come first, ascending by value, the others ascending as strings, and equal keys keep input order |
| NumericSort.TwoBeforeTen | src/server.py:143-144 | "2" precedes "10" among chapter directories, though "10" < "2" as strings |
| NumericSort.ChapterTenBeforeChapterTwo | src/server.py:145-146 | "chapter10" precedes "chapter2" |
| NumericSort.LeadingZeroTies | src/server.py:143-144 | "01" and "1" have the same key, so they keep their input order |
| ParamMapping.ParamMappings | src/server.py:71-96 | the three `PARAM_MAPPINGS` tables in their literal order, and no table for any other type; `KeysDistinct` states their keys are distinct and lower-case |
| ParamMapping.GetMappedValue | src/server.py:98-129 | `get_mapped_value`; `MappedValueSpec`, `CaseInsensitive`, `UnknownOrderIsLatest` and `UnknownTypeIsLatest` state its lookup chain |
| ParamMapping.Get | src/server.py:113 | `dict.get` finds a value exactly when the key is present, and the value found is paired with that key |
| ParamMapping.MappedValueSpec | src/server.py:110-124 | the lower-cased user word's value when present, else the default key's value when present, else the table's first value, and for a known type always one of its table's values |
| ParamMapping.KeysDistinct | src/server.py:71-96 | the keys of each table are distinct and already lower-case |
| ParamMapping.CaseInsensitive | src/server.py:113 | the user word is matched case-insensitively |
| ParamMapping.UnknownOrderIsLatest | src/server.py:118-124 | an unknown ordering word with the default key "all" gives the "latest" ordering |
| ParamMapping.UnknownTypeIsLatest | src/server.py:110-129 | a parameter type without a table always gives the "latest" ordering |
| FileTree.FindAppend | src/server.py:186-187 | looking up `join(p, n)` is looking up `n` among the children of the directory at `p` |
| FileTree.AddChild | src/server.py:253-260 | writing a new entry into the directory at a path, at the end of its listing; `AddChildWrites` and `AddChildKeeps` state its effect |
| FileTree.ListedNameExists | src/server.py:186-187 | every name a listing returns exists |
| FileTree.AddChildWrites | src/server.py:253-260 | saving into an existing directory creates the file at `output/<name>` and keeps the directory a directory |
| FileTree.AddChildKeeps | src/server.py:253-260 | saving a file changes no lookup of another name in that directory |
| FileTree.ParentIsDir | src/server.py:186-187 | whatever exists below a path makes that path a directory |
| FileTree.MakeDirs | src/server.py:167 | `os.makedirs(…, exist_ok=True)`: the result is a directory of the same name, or None when it raises; `MakeDirsExisting`, `MakeDirsMakes`, `MakeDirsFails` and `MakeDirsKeeps` state its effect |
| FileTree.MakeDirsExisting | src/server.py:167 | `makedirs(exist_ok=True)` on an existing directory changes nothing |
| FileTree.MakeDirsMakes | src/server.py:167 | after `makedirs` succeeds the path is a directory |
| FileTree.MakeDirsFails | src/server.py:167 | `makedirs` raises exactly when the path or one of its prefixes is a file |
| FileTree.MakeDirsKeeps | src/server.py:167 | `makedirs` only adds directories: every existing path still exists, a file is unchanged, and a directory keeps its name, creation time and permissions |
| Packager.ImageFiles | src/server.py:196-198 | exactly the files of a listing with an image extension, compared case-insensitively, in listing order |
| Packager.Subdirs | src/server.py:186-187 | exactly the directories of a listing, in listing order |
| Packager.JoinAll | src/server.py:200-201 | `join(dir, f)` for every file, in order |
| Packager.DirImages | src/server.py:195-203 | one directory's image paths in filename order, nothing when it cannot be listed; `DirImagesSpec` and `DirImagesOrder` state its contents and order |
| Packager.DiscoverImages | src/server.py:184-216 | `image_paths` after discovery, or None when the input folder cannot be listed; `ImageDiscovery` and `DiscoveryOrder` state its contents and order |
| Packager.Usable | src/server.py:239-243 | `valid_images`; `UsableSpec` states its contents and order |
| Packager.PackIn | src/server.py:172-268 | the conversion after `makedirs`: skip, input check, discovery, decoding, save; `PackSucceeds` and `PackEffects` state its endings |
| Packager.PackSpec | src/server.py:150-272 | `convert_images_to_pdf` as a function of the file system; `PackSucceeds`, `PackEffects`, `PackIdempotent` and `SkipWhenPdfExists` state its endings |
| Packager.AlbumSpec | src/server.py:286-322 | `convert_album_to_pdf`; `AlbumPdfBesideAlbum` states its endings |
| Packager.AppendJoined | src/server.py:200-201 | the append loop adds the joined paths of the files, in order, after what was there |
| Packager.AppendDirImages | src/server.py:195-203 | one directory's sorted image paths are appended, nothing when it cannot be listed |
| Packager.CollectChapterImages | src/server.py:206-216 | the chapter loop builds the images of the subdirectories one after the other |
| Packager.KeepUsable | src/server.py:239-243 | the loop keeps the images that open, in order |
| Packager.ConvertImagesToPdf | src/server.py:150-272 | the imperative conversion ends, leaves the file system and builds the pages exactly as `PackSpec` says |
| Packager.ConvertAlbumToPdf | src/server.py:286-322 | fails when the album directory is missing; otherwise converts into the given or the parent directory under the directory's base name |
| Packager.JoinAllMembers | src/server.py:200-201 | the joined paths are exactly the children of `dir` with a listed name |
| Packager.DirImagesSpec | src/server.py:195-201 | a directory's images are exactly its listed files with an image extension |
| Packager.ConcatMapAppend | src/server.py:206-214 | images of an earlier subdirectory come before those of a later one |
| Packager.ChapterImagesSnoc | src/server.py:206-214 | one more subdirectory adds its images at the end |
| Packager.ChapterImagesAppend | src/server.py:206-214 | the chapter images of two runs of subdirectories concatenate |
| Packager.UnlistableSubdirSkipped | src/server.py:208-216 | a subdirectory that cannot be listed contributes nothing, and the others keep their order |
| Packager.ChapterImagesSpec | src/server.py:206-214 | the chapter images are exactly the image files directly inside one of the subdirectories |
| Packager.ImageDiscovery | src/server.py:184-216 | with no subdirectory the images are the folder's own image files; with some, only image files one level down, never the folder's own |
| Packager.DirImagesOrder | src/server.py:195-201 | one directory's images lie directly in it and come in non-decreasing `extract_number` order |
| Packager.ChapterImagesOrder | src/server.py:206-214 | chapter images come chapter by chapter in the given order, and in non-decreasing `extract_number` order inside one chapter |
| Packager.DiscoveryOrder | src/server.py:184-216 | the discovered images are in filename order without subdirectories; with subdirectories they follow `sorted_numeric_subdirs`, by chapter key, and filename order inside each chapter |
| Packager.SubseqOfExtend | src/server.py:239-243 | appending the same path to both sides keeps a subsequence a subsequence |
| Packager.SubseqOfSnoc | src/server.py:186-187 | skipping an appended entry keeps a subsequence a subsequence |
| Packager.UsableSpec | src/server.py:222-247 | the pages are an in-order subsequence of the discovered images holding exactly those that open |
| Packager.SkipWhenPdfExists | src/server.py:166-175 | an existing `<stem>.pdf` in an existing output directory gives success and changes nothing, whatever the input |
| Packager.PackSucceeds | src/server.py:150-272 | success exactly when the PDF exists, or the input can be listed, some discovered image opens and the save succeeds |
| Packager.PackEffects | src/server.py:166-268 | only a save writes, and it writes the PDF under the stem's name with at least one page; the pages are the discovered images that open, in order; every other ending leaves only what `makedirs` created |
| Packager.PackAtAnotherTime | src/server.py:173-247 | a call that writes nothing ends the same way at any time |
| Packager.RerunAfterWrite | src/server.py:172-175 | a call after the one that wrote the PDF finds it and skips |
| Packager.RerunInOutputDir | src/server.py:166-272 | in an existing output directory, a second call changes nothing and repeats the first call's ending, or skips after a success |
| Packager.PackIdempotent | src/server.py:150-272 | a second call changes nothing, skips after a success, and fails the same way after a failure |
| Packager.AlbumPdfBesideAlbum | src/server.py:297-315 | a missing album fails and changes nothing; by default the PDF lands in the album's parent as `<stem of the album name>.pdf` |
| Packager.DottedAlbumName | src/server.py:170 | album "Vol.1" gives "Vol.pdf", not "Vol.1.pdf", the same name as "Vol.2" |
| Packager.UndottedName | src/server.py:170 | a name without dots gives `<name>.pdf` |
| Locator.IsRecentDirectory | src/server.py:275-283 | `is_recent_directory`; `RecentWithinSeconds` and `RecentEarlier` state when it holds |
| Locator.RecentWithinSeconds | src/server.py:275-283 | a directory is recent exactly when its creation time can be read and is at most the given minutes before now |
| Locator.RecentEarlier | src/server.py:275-283 | a directory recent at a later time was recent at every earlier time |
| Locator.FirstTitleIndex | src/server.py:590-605 | the first listed directory related to the title, none listed before it |
| Locator.FirstIdOrRecentIndex | src/server.py:609-621 | the first listed directory containing the id or recent, none listed before it |
| Locator.FirstPassSpec | src/server.py:571-621 | the first pass as a function: `base/title`, else the first related directory, else the first with the id or recent; `FirstPassChoice` and `RecentBeforeIdMatch` state its choice |
| Locator.FindByTitle | src/server.py:589-605 | the title loop stops at the first related directory and sets `found_by_title` exactly when there is one |
| Locator.FindByIdOrRecent | src/server.py:608-621 | the id-or-recent loop stops at the first directory with the id or recent, else keeps `album_dir` |
| Locator.FirstPass | src/server.py:571-621 | the imperative first pass returns what `FirstPassSpec` says, or None when a listing raises |
| Locator.FirstPassChoice | src/server.py:571-621 | the first pass settles on `base/title` or on a listed directory related to the title, containing the id, or recent |
| Locator.RecentBeforeIdMatch | src/server.py:609-621 | with no title match, an earlier recent directory wins over a later one containing the id |
| Locator.Candidates | src/server.py:645-658 | the candidates are exactly the listed directories whose creation time could be read, each with that time, in listing order |
| Locator.NewestFirstOrder | src/server.py:661 | the sorted candidates are a permutation in non-increasing creation time, ties in listing order |
| Locator.FallbackAccepts | src/server.py:667-700 | the fallback's four tests: the title, a related name, the id, or at most 30 minutes old with an image file inside; `FallbackAcceptsFirstPassCandidates` relates it to the first pass |
| Locator.FirstAccepted | src/server.py:664-700 | the first candidate the fallback accepts, none before it |
| Locator.CollectCandidates | src/server.py:645-658 | the collecting loop builds the candidates |
| Locator.FirstAcceptedCandidate | src/server.py:664-700 | the candidate loop stops at the first accepted candidate, else finds nothing |
| Locator.FallbackSpec | src/server.py:642-700 | the fallback as a function: nothing when the download directory is missing, else the first accepted candidate, newest first; `FallbackNewestMatch` and `FallbackFindsNothingNew` state its result |
| Locator.Fallback | src/server.py:642-700 | the imperative fallback returns what `FallbackSpec` says |
| Locator.FirstAcceptedIsNewest | src/server.py:661-700 | in a newest-first list, no candidate newer than the first accepted one is accepted |
| Locator.FallbackNewestMatch | src/server.py:642-700 | the fallback picks an accepted candidate with no newer accepted one; finding nothing means none is accepted |
| Locator.FallbackAcceptsFirstPassCandidates | src/server.py:664-700 | on the same tree, with the clock not going back, a candidate the fallback accepts was a first-pass candidate |
| Locator.FallbackFindsNothingNew | src/server.py:642-716 | when the first pass's directory is missing and nothing changed, the fallback finds nothing |
| Pipeline.ConvertFound | src/server.py:626-638 | `convert_album_to_pdf(dir, base)` followed by the check for `<basename>.pdf`; `CheckMissesDottedName` states its flaw |
| Pipeline.RunSpec | src/server.py:571-716 | the worker after the download as a function; `UnchangedTreeSkipsFallback`, `DecidedDirInBase` and `DottedNameReportedMissing` state its endings |
| Pipeline.ConvertAndCheck | src/server.py:626-638 | conversion of the found directory followed by the check for `<basename>.pdf` |
| Pipeline.DownloadAndConvert | src/server.py:571-716 | the imperative worker ends as `RunSpec` says |
| Pipeline.UnchangedTreeSkipsFallback | src/server.py:626-716 | on an unchanged tree the run converts the first pass's directory if it exists, and otherwise reports the album as not found |
| Pipeline.DecidedDirInBase | src/server.py:571-704 | every directory the run converts exists by then and lies directly in the download directory |
| Pipeline.CheckMissesDottedName | src/server.py:628-636 | converting a directory with an extension in its name reports the new PDF as missing |
| Pipeline.DottedNameReportedMissing | src/server.py:626-712 | a whole run that converts such a directory reports its PDF as missing |
| Pipeline.ConvertAlbumToPdfTool | src/server.py:753-777 | the imperative tool replies as `ToolSpec` says |
| Pipeline.ToolSpec | src/server.py:753-777 | the `convert_album_to_pdf_tool` tool as a function; `ToolDefaultDirectory` states its default |
| Pipeline.ToolDefaultDirectory | src/server.py:755-760 | without a directory the tool uses `base/<album id>`, replies that it is missing when absent, and on success writes `PdfFileName(albumId)`, the album id's stem followed by ".pdf", into the base |

## Left out

- Printing, logging and tracebacks: the model records how each call ends, not what it prints.
- The network calls, `download_album` and `get_album_detail`: the download has finished before the first pass, so its result is part of `fsFirst`, and the title is a parameter.
- Threads, the daemon thread and `run_in_executor`: concurrent writers appear only as the difference between the two snapshots.
- Image decoding, RGB conversion and PDF encoding: whether a file opens is a flag on the file, and the PDF's pages are the ordered list of accepted paths.
- Whether the save succeeds is a parameter. A failed save writes nothing, so a partial file that a failed save might leave behind is not modelled.
- Floating-point time: creation times and the clock are whole seconds, and the age compares `(now - ctime) / 60` as a real number.
- The clock is read once per pass. The source reads it per candidate in the fallback (line 655) and once per directory in `is_recent_directory`.
- `os.path.normpath`, and paths containing separators, ".", ".." or trailing slashes: paths are sequences of plain components.
- Symbolic links, and file kinds other than files and directories.
- `os.makedirs` failing for reasons other than a file in the way, such as permissions.
- Unicode: `str.isdigit` and `str.lower` are restricted to ASCII. What is lost: Python's `str.isdigit` also accepts non-ASCII digits such as "²", for which `int()` raises (lines 136 and 144). In the source, an image file named like that drops all images of its chapter (lines 208-216) or of the flat folder (lines 195-203), and a chapter directory named like that makes the conversion fail at lines 185-191. The model treats such characters as non-digits, so it never drops images or fails there.
- Listings do not fail on a second read. `listdir` of the input folder at lines 195-203 cannot fail once the read at 186 succeeded, and the warning branch at 202-203 is not modelled.
- The FastMCP tools `search_comic`, `get_album_details`, `get_ranking_list` and `filter_comics_by_category`, and the configuration and client setup: network calls and file I/O, outside the modelled part.
- Pipeline.ConvertAlbumToPdfTool: an exception from anything but `os.makedirs` (`ConversionRaised`) is not modelled, since no other modelled step raises.
