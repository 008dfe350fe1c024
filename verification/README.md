# CanvasEditor, modelled in Dafny

CanvasEditor takes the bulk download of a Canvas assignment and sorts the
submissions by student. A submission is a file named
`author_field_field_Original.java`. The program walks the submission folder,
creates an output folder next to the submissions, and creates one folder per
student key inside it. It then copies every submission into the folder of its
student, under the original file name with any `-copy` marker cut off.

The model follows `source/CanvasEditor.java`. Each module is one layer of it:

- `JavaStrings`: the `java.lang.String` operations the program uses, with
  Java's conventions written out.
  - `indexOf` answers -1 when it finds nothing, and a negative start counts
    as 0.
  - `lastIndexOf` has a character form and a string form.
  - `substring` throws unless its bounds are ordered and in range, shown here
    as `None`.
  - Also `contains`, and `replaceAll` of a single literal character.
- `NameDecoder`: `parseStudentsName`, `parseJavaSRCFileName`,
  `removeCopyIdentifierChars`, `lastIndexOfPathSep` and `getFileName`.
- `FanOut`: `makeOutDirStudents` and `makeSubFolders`, modelled as the plan of
  filesystem calls they make in order (`CreateDirectory`, `CopyFile`). The plan
  ends with an `aborted` flag when an exception from the name parsing (the
  `substring` calls of lines 80-82 and 144) stops the program. Exceptions of the
  filesystem calls themselves are found by playing the plan in `FileSystem`.
- `TreeWalker`: `listFiles`, the stack-based walk over a finite directory tree.
- `Arguments`: `parseArgs` and the defaults it falls back to.
- `Pipeline`: `main`, which runs argument parsing, the walk, `makeOutDir` and
  the two fan-out steps.
- `FileSystem`: plays a plan against the paths that already exist, after
  `Paths.get` has normalised every path of it. There, `Files.createDirectory`
  throws on an existing path, and `Files.copy` with `REPLACE_EXISTING`
  replaces what is there.

Behaviours of the code that the model keeps, and that the proofs make
explicit:

- **Names are parsed as full paths.** The program parses `p.toString()`, the
  whole path. The student part is therefore everything before the first `_`
  of the whole path, directory included.
  - Line 82 cuts it at the start of the last separator, so a student key
    starts with the separator. Line 139 cuts one character later and drops
    only the separator's first character.
  - An `_` in a directory name therefore shifts all the parsing.
- **Fewer than three underscores.** The three chained `indexOf('_', prev + 1)`
  searches restart from 0 once one of them fails.
  - With exactly two underscores, the stem is everything before the last `.`.
  - With one underscore, the stem is everything after it, up to the last `.`.
  - With none, the stem is the whole name up to the last `.`.
- **A dot before the third underscore.** When the last `.` comes before the
  third underscore, the bounds of `substring` cross. The call then throws
  rather than yielding an empty name.
- **Routing.** A file goes to the FIRST result directory whose path contains
  its key as a substring. A key that is a substring of an earlier student's
  directory is therefore captured by that directory.
- **A directory at the destination.** Line 146 creates a DIRECTORY at the
  destination before line 148 copies the file over it. Two submissions of one
  student that decode to the same stem therefore make the run throw
  `FileAlreadyExistsException` at the second one. An example is an original
  and its `-copy` re-submission.
- **A bare separator as student key.** A file whose first `_` follows a
  separator directly (`/s/_a_b_C.java`) has the separator alone as its key.
  Line 89 then asks for `OUT_PARENT` followed by two separators. `Paths.get`
  turns that back into `OUT_PARENT`, which line 71 has already created, so the
  run throws at line 91.
- **The walk.** The glob `*.{java}` filters every directory stream. Only
  directories whose own name matches it are descended into.
  - The depth limit counts directories READ (loop rounds), not tree depth.
  - -1 or 0 means no limit.

## Model

| member | source | states |
|---|---|---|
| JavaStrings.IndexOf | source/CanvasEditor.java:167 | the result is -1 or a position of `c` at or after the (clamped) start, and no earlier position from the start holds `c` |
| JavaStrings.LastIndexOf | source/CanvasEditor.java:190 | the result is -1 or a position holding `c`, and no later position holds `c` |
| JavaStrings.LastIndexOfString | source/CanvasEditor.java:259 | the result is -1 or the start of an occurrence of `t`, and no later start is an occurrence |
| JavaStrings.Contains | source/CanvasEditor.java:141 | true exactly when `t` occurs somewhere in `s` |
| JavaStrings.Substring | source/CanvasEditor.java:168 | succeeds exactly when `0 <= b <= e <= length`, giving `e - b` characters taken from position `b` |
| JavaStrings.RemoveAll | source/CanvasEditor.java:316 | the result holds no `c`, every other character as often as the input does, so it is shorter by the number of `c`s; an input without `c` is unchanged |
| JavaStrings.RemoveAllAppend | source/CanvasEditor.java:316 | removing a character distributes over concatenation |
| JavaStrings.RemoveAllIdempotent | source/CanvasEditor.java:316 | removing the quotes twice is removing them once |
| NameDecoder.ParseStudentsName | source/CanvasEditor.java:163-170 | succeeds exactly when the name has an `_`; the result is the prefix right before the first `_` and holds no `_` |
| NameDecoder.RemoveCopyIdentifierChars | source/CanvasEditor.java:204-211 | the result is a prefix without `-`; a name without `-` is unchanged; otherwise the cut is at a `-` |
| NameDecoder.RemoveCopyIdentifierCharsIdempotent | source/CanvasEditor.java:204-211 | cutting the copy marker twice is cutting it once |
| NameDecoder.RemoveCopyIdentifierCharsStripsMarker | source/CanvasEditor.java:204-211 | `stem-marker` decodes to `stem` for every marker when the stem has no `-` |
| NameDecoder.StemStart | source/CanvasEditor.java:187-189 | the stem starts inside the name, right after an `_` unless it starts at 0 |
| NameDecoder.PositionsComplete | source/CanvasEditor.java:187-189 | the list of underscore positions the searches run through misses none |
| NameDecoder.IndexOfIsFirstPosition | source/CanvasEditor.java:187-189 | a search from a start finds the first remaining underscore position, and a search just past it sees the rest |
| NameDecoder.StemStartByUnderscores | source/CanvasEditor.java:187-191 | the stem starts after the third `_` with three or more, after the only one with one, and at 0 with none or exactly two |
| NameDecoder.ParseJavaSrcFileName | source/CanvasEditor.java:182-194 | decoding throws exactly when the stem start lies after the last `.` (no `.` included) |
| NameDecoder.ParseJavaSrcFileNameWellFormed | source/CanvasEditor.java:187-192 | with three or more underscores and the last `.` after the third, the result is the text between them, copy marker cut |
| NameDecoder.ParseJavaSrcFileNameDotBeforeThirdUnderscore | source/CanvasEditor.java:190-191 | a last `.` before the third underscore makes decoding throw |
| NameDecoder.ParseJavaSrcFileNameTwoUnderscores | source/CanvasEditor.java:187-191 | with exactly two underscores, the stem is everything before the last `.` |
| NameDecoder.ParseJavaSrcFileNameNoDot | source/CanvasEditor.java:190-191 | a name without `.` makes decoding throw |
| NameDecoder.DecodeEncodedName | source/CanvasEditor.java:163-194 | round trip: `author_f1_f2_stem.ext` decodes to `author` and to `stem` less its copy marker, whatever the stem holds |
| NameDecoder.DecodeCopyOfSubmission | source/CanvasEditor.java:182-211 | a re-submitted copy `stem-marker` decodes to the same author and stem as the original |
| NameDecoder.LastIndexOfPathSep | source/CanvasEditor.java:255-261 | the start of the last separator occurrence, -1 exactly when there is none |
| NameDecoder.GetFileName | source/CanvasEditor.java:237-244 | a prefix of the path, empty exactly without a separator, otherwise ending with the first character of the last separator |
| FanOut.StudentKey | source/CanvasEditor.java:80-82 | a key exists exactly when the name has an `_` and its author prefix has a separator; the key starts with the separator and holds no `_` |
| FanOut.StudentKeyIsLastComponent | source/CanvasEditor.java:80-82 | the key is the suffix of the author prefix from its last separator on |
| FanOut.StudentKeys | source/CanvasEditor.java:79-82 | all keys in file order, or a throw exactly when some file has no key |
| FanOut.Dedup | source/CanvasEditor.java:83-85 | STUDENT_DIRS has no duplicates and holds exactly the keys that occur |
| FanOut.DedupFirstSeenOrder | source/CanvasEditor.java:79-86 | STUDENT_DIRS lists the keys in order of first appearance |
| FanOut.DedupStartsWithFirst | source/CanvasEditor.java:79-86 | the first file's key is the first student directory |
| FanOut.ResultDirs | source/CanvasEditor.java:87-90 | one path per key, `OUT_PARENT + sep + key`, in the same order |
| FanOut.ResultDirsDistinct | source/CanvasEditor.java:87-92 | distinct keys give distinct directories, so no creation repeats a path |
| FanOut.CreateAll | source/CanvasEditor.java:88-91 | one `createDirectory` per result directory, in the order of the list |
| FanOut.SearchKey | source/CanvasEditor.java:138-139 | a key exists exactly when the name has an `_`; it holds neither `_` nor the separator |
| FanOut.SearchKeyIsLastComponent | source/CanvasEditor.java:138-139 | the search key is the suffix of the author prefix after its last separator, the whole prefix when there is none |
| FanOut.StudentKeyKeepsSeparator | source/CanvasEditor.java:80-82 | the student key is the search key with the separator's first character in front |
| FanOut.Route | source/CanvasEditor.java:140-143 | the index of the first result directory whose path contains the key, and none exactly when no path contains it |
| FanOut.RouteAtMost | source/CanvasEditor.java:140-143 | the scan stops at the latest at any directory whose path contains the key |
| FanOut.Destination | source/CanvasEditor.java:144-145 | the destination is the student directory, the separator, the stem, then the five characters of `.java` |
| FanOut.CopyInto | source/CanvasEditor.java:146-148 | exactly two calls: a directory is created at the destination first, then the file is copied there, the round's one copy |
| FanOut.FileStep | source/CanvasEditor.java:138-150 | a round that completes copies at most once |
| FanOut.FileStepRouting | source/CanvasEditor.java:137-150 | a round's name parsing throws exactly without `_`, or with a match but no stem; the round does nothing exactly without a match; otherwise it creates then copies into the first match |
| FanOut.Rounds | source/CanvasEditor.java:137-151 | the loop aborts exactly when some round's name parsing throws |
| FanOut.RoundsStopAtFirstThrow | source/CanvasEditor.java:137-151 | once a round throws, nothing after it runs: the plan is that of the rounds before the first throwing file |
| FanOut.RoundsAround | source/CanvasEditor.java:137-151 | a completed loop is the rounds before file `k`, then round `k`, then the rounds after it |
| FanOut.RoundsSound | source/CanvasEditor.java:137-151 | every call in the plan comes from the round of some listed file |
| FanOut.RoundsComplete | source/CanvasEditor.java:137-151 | in a completed loop every call of every round is in the plan |
| FanOut.SubFolders | source/CanvasEditor.java:133-152 | the plan of `makeSubFolders` aborts exactly when some file's name parsing throws |
| FanOut.SubFoldersStopAtFirstThrow | source/CanvasEditor.java:137-151 | `makeSubFolders` makes the calls of the files before the first throwing round and none of the files after it |
| FanOut.SubFoldersCopyBound | source/CanvasEditor.java:137-151 | `makeSubFolders` copies at most once per listed file |
| FanOut.Run | source/CanvasEditor.java:48-55 | the output directory is created first; a missing key stops the run right after it |
| FanOut.RunCopyBound | source/CanvasEditor.java:52-54 | a run copies at most once per listed file, since the directory creations before `makeSubFolders` copy nothing |
| FanOut.RunCreatesOneDirectoryPerAuthor | source/CanvasEditor.java:74-93 | right after the output directory come the student directories, each created once, exactly one per key, starting with the first file's |
| FanOut.RunCreatesKeyDirectory | source/CanvasEditor.java:87-91 | the directory of each file's own student key is created, after the output directory |
| FanOut.RunRoutesEveryFile | source/CanvasEditor.java:137-143 | when every file has a key, every file finds a directory, at the latest its own author's |
| FanOut.RunAborts | source/CanvasEditor.java:48-55 | the plan aborts on an exception from the name parsing (lines 80-82, 144) exactly when some file has no key, or when all have keys and some file name has no stem; filesystem exceptions are found by `FileSystem.Perform` |
| FanOut.RunCopiesAreRouted | source/CanvasEditor.java:140-148 | every copy takes a listed file into the first directory containing its search key, under its decoded stem |
| FanOut.RunCopiesEveryFile | source/CanvasEditor.java:137-151 | a completed run copies each listed file into the first directory containing its search key |
| FanOut.RunCopiesEachFileOnce | source/CanvasEditor.java:137-151 | a completed run makes exactly one copy per listed file |
| FanOut.SameKeyAndStemSameTarget | source/CanvasEditor.java:138-148 | two files with the same search key and stem are copied to the same destination path |
| FanOut.RunPlanAround | source/CanvasEditor.java:137-151 | in a completed run, the round of a later file with the same key and stem creates a directory at a path an earlier copy already wrote |
| FanOut.RunFirstDirectoryCaptures | source/CanvasEditor.java:140-143 | a key contained in the first student's directory path is routed there, whoever the file's author is |
| TreeWalker.ListFiles | source/CanvasEditor.java:103-123 | throws exactly when the target is not a directory; otherwise collects matching regular files from the tree, all of them when no limit cuts the walk and exactly the target's own with limit 1, and reads `min(limit, directories)` directories |
| TreeWalker.FilesInSplit | source/CanvasEditor.java:112-117 | reading one directory collects its matching files and leaves the rest to the matching subdirectories it pushes |
| Arguments.DefaultConfig | source/CanvasEditor.java:33-36 | the target is the working directory, the walk has no round limit and the output folder is `AllStudents` |
| Arguments.ParseArgs | source/CanvasEditor.java:290-325 | usage exactly with more than three arguments or a non-number second one; otherwise each setting comes from its argument when given, the target without quotes |
| Arguments.ParseArgsUnquotes | source/CanvasEditor.java:316 | a target from the command line holds no `"`, and equals the argument when the argument had none |
| Arguments.ParseArgsDefaultDepth | source/CanvasEditor.java:290-320 | with at most one argument the walk has no round limit and the output folder is `AllStudents` |
| Pipeline.OutParent | source/CanvasEditor.java:62-67 | OUT_PARENT is the target, then the separator, then the output folder name |
| Pipeline.Execute | source/CanvasEditor.java:48-55 | usage exactly when parsing fails; the walk throws exactly when the target is not a directory; otherwise the collected files are some of the tree's matching files, all of them when the round limit does not cut the walk and exactly the target's own with limit 1, and the plan runs on them |
| FileSystem.NormalizeShape | source/CanvasEditor.java:89 | a path from `Paths.get` has no doubled separator, and no trailing one unless it is the root |
| FileSystem.CollapseSnoc | source/CanvasEditor.java:89 | one more character at the end of a path survives normalisation unless it and the path's last character are both the separator |
| FileSystem.NormalizeDoubledSeparator | source/CanvasEditor.java:89 | a non-empty path followed by two separators names the path itself |
| FileSystem.MadeBy | source/CanvasEditor.java:71-148 | a path is left behind exactly when some call made it |
| FileSystem.Perform | source/CanvasEditor.java:71-148 | the calls complete one by one, all of them unless one throws |
| FileSystem.PerformStopsAtFirstClash | source/CanvasEditor.java:91-146 | a plan throws exactly when some `createDirectory` meets an existing path, and it throws at the first such call |
| FileSystem.RecreateClashes | source/CanvasEditor.java:146-148 | creating a directory where an earlier call created a directory or copied a file throws |
| FileSystem.RunClashesOnSharedDestination | source/CanvasEditor.java:137-148 | a completed plan with two files of the same search key and stem throws when performed, whatever existed before |
| FileSystem.RunClashesOnBareSeparatorKey | source/CanvasEditor.java:71-91 | a file whose student key is the bare separator makes the performed plan throw, whatever existed before |

## Left out

- Real filesystem effects are left out. The program's calls are modelled as a plan (`FanOut.Action`) that `FileSystem.Perform` plays against a set of existing paths. I/O failures other than an existing path (permissions, a full disk) are not modelled.
- Glob matching of `*.{java}` is a parameter `matches`. Its semantics are not modelled.
- `Integer.valueOf` is a parameter `parseInt`. The system properties `user.dir` and `file.separator` are parameters too.
- `printUsage`, `printException` and their output are modelled only as the `Usage` outcome. `printUsage` ends the program, so no further step runs.
- The null checks (lines 58-60, 68-70, the null half of 75, 134-136, 164-166, 184-186, 238-240, 256-258, 300-306, 317-319) can never fire, because no caller passes null. The same holds for the `l != arr.length` test (line 293): `main` passes `args.length`. All of them are left out.
- Line 75 also fires when the walk collected no file. It prints `Target files list empty` and the program carries on; so does the model, where `FanOut.Run` on no files creates the output directory only. The message is left out.
- `Paths.get` is modelled as `FileSystem.Normalize` (runs of the separator collapse, a trailing one is dropped), applied where paths meet the filesystem (`FileSystem.ResolvePlan`). The plan in `FanOut` keeps the strings as the program writes them, with one exception: the program builds `OUT_PARENT` (line 67) from the target after `Paths.get`, while `Pipeline.OutParent` uses the target as given, so a target `/s/` gives `/s//AllStudents` here and `/s/AllStudents` in the program. That should change no outcome (this is not proved either), because `FileSystem.ResolvePlan` normalises every path before it is compared and a search key holds no separator. A result directory reads `OUT_PARENT + sep + key` with the doubled separator of line 89, and the destination of line 145 is built from that raw string where the program builds it from the already normalised `z.toString()`. The two destinations agree once normalised, because the part appended to the directory starts with the separator; this agreement is not proved. The containment test of line 141 is taken on that string rather than the normalised one; the search key holds no separator, so collapsing separators does not change whether it occurs.
- Windows path syntax (drive letters, UNC prefixes, `/` accepted next to `\`), the resolution of `.` and `..` (which `Paths.get` does not do either) and `InvalidPathException` are left out.
- A stem that holds a separator makes line 146 create a directory whose parent does not exist, and `Files.createDirectory` throws `NoSuchFileException`. `FileSystem.Perform` does not track parent directories and lets that call pass.
- `makeOutDir`'s `getParent` branch (line 65) is left out. `listFiles` has already thrown unless the target is a directory, so that branch is dead in `main`.
- `getPathName` (lines 221-227) is never called and is not modelled.
- Symbolic-link cycles are left out. The directory tree is a finite `TreeWalker.Entry`. Entries that are neither files nor directories (`Other`) are skipped, as `listFiles` skips them.
- The order of a directory stream is taken to be the order of the entries in the tree.
- The directory stream that is left unclosed is a resource leak, and it is not modelled.
- TreeWalker.ListFiles: the result is stated as a multiset of the tree's files. The stack (last-in, first-out) order of the walk is not stated.
- NameDecoder.ParseJavaSrcFileName: the function's own contract gives only when decoding throws. The decoded value is characterised by the lemmas `ParseJavaSrcFileNameWellFormed`, `ParseJavaSrcFileNameTwoUnderscores` and `DecodeEncodedName`.
- JavaStrings.RemoveAll: `replaceAll` takes a regular expression. Only the literal one-character pattern `"` that the program passes is modelled.
