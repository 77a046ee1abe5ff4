# fichiersDoublons in Dafny

A model of `main.py`, a Python script that reconciles two file trees by
content. It computes an MD5 signature and a five-byte hex fingerprint for
every file. It groups the files of one tree by signature (duplicate
detection). It adds up file sizes per category of extension. It lists the
files of a second tree whose signature also occurs in a first tree, and
deletes them. Finally it moves into the first tree the files of the second
tree that are new to it.

The file system is a map from path to file data (bytes and modification
time). The operations that only read it take it as a value. The two that
change it, `delete_duplicates` and `repatriate_files`, work on a
`FileSystem` object whose `files` field they update through `Remove` and
`Move`. Each method with a loop is proved against a recursive
specification function, and the properties the script promises are
proved as lemmas about those functions:

- a partition of sizes over five categories;
- an order-preserving selection;
- a last-write-wins index;
- exact removal;
- "nothing else changes".

Modules, in dependency order:

- `Common`: shapes and errors.
- `Text`: `split('.')[-1]`, ASCII `lower()`, Python's order on `str`.
- `Paths`: `basename`, `join`.
- `Hex`: hexadecimal rendering of bytes.
- `FileRecords`: the `File` class.
- `SignatureIndex`: records along a walk, selection by signature, the canonical index.
- `Duplicates`: `analyze_directory`.
- `Categories`: `sum_directory`.
- `FileSystems`: the mutable store.
- `Compare`: `compare_directories`.
- `Deletion`: `delete_duplicates`.
- `Repatriation`: `repatriate_files`, as written and as intended.

`repatriate_files` is meant to resolve a same-name conflict by recency. As
written it raises KeyError instead (see Findings). `RepatriateFiles`
follows the code. `RepatriateFilesFixed` models the intended behaviour and
compares modification times. The same applies to `analyze_directory`:
`AnalyzeDirectoryAsWritten` is the code, whose free name `defaultdict`
raises NameError, and `AnalyzeDirectory` is the behaviour `defaultdict(list)`
would give.

## Model

| member | source | states |
|---|---|---|
| Text.AfterLast | main.py:79 | `s.split(c)[-1]`: the result holds no `c` and is a suffix of `s`. It is preceded by `c` when shorter than `s`, and it is all of `s` when `c` does not occur |
| Text.AfterLastOfSuffix | main.py:79 | whatever precedes the last separator, the text after it is exactly what follows it |
| Text.StrLessIrreflexive | main.py:148 | Python's `<` on strings is irreflexive |
| Text.StrLessTransitive | main.py:148 | Python's `<` on strings is transitive |
| Text.StrLessTotal | main.py:148 | any two different strings are ordered one way or the other |
| Text.CtimeOrderNotChronological | main.py:148 | the `ctime` rendering of 3 Jan 2025 is a smaller string than that of 30 Dec 2024 |
| Paths.Basename | main.py:8 | the name of a file holds no separator |
| Paths.BasenameIsLastComponent | main.py:8 | the name is the suffix of the path after its last separator, or the whole path when there is none |
| Paths.Join | main.py:146 | `os.path.join(dir1, file)`: the path ends with the name, after a separator unless the directory is empty; BasenameOfJoin states that the name is recovered |
| Paths.BasenameOfJoin | main.py:146 | joining a file name onto a directory gives a path whose name is that file name |
| Hex.HexString | main.py:25 | two characters per byte, all lower-case hex digits |
| Hex.UnhexHexString | main.py:25 | the hex rendering reads back as the bytes it renders |
| FileRecords.ReadAt | main.py:18 | `f.read(n)` returns the bytes that follow, at most n and fewer only at end of file; a positive read is empty exactly at end of file, which is what stops the loop at line 18 |
| FileRecords.CalculateMd5 | main.py:14-20 | chunks of 1 to 4096 bytes are read until an empty read; together they are the whole content, and the digest is the MD5 of that content |
| FileRecords.FirstBytes | main.py:22-25 | 2·min(5, size) lower-case hex digits that read back as the first min(5, size) bytes |
| FileRecords.RecordOf | main.py:6-12 | the record `File(path)` holds; what it contains is stated by NewFile's ensures and IdenticalContentSameFile |
| FileRecords.NewFile | main.py:6-12 | the record holds the path, a name without separator, the size of the content and the signature of the content |
| FileRecords.IdenticalContentSameFile | main.py:27-29 | files with identical bytes are equal under `__eq__` and have the same fingerprint, whatever their path, name or date |
| SignatureIndex.RecordsAppend | main.py:41-44 | walking one part of a tree and then another gives the records of the first part followed by those of the second |
| SignatureIndex.Select | main.py:45 | the records whose signature is a key, in visit order; its properties are SelectStep, SelectMembers, SelectIsSubsequence, SelectAll and SelectNone |
| SignatureIndex.SelectStep | main.py:45 | selecting from one more record appends it exactly when its signature is a key |
| SignatureIndex.SelectMembers | main.py:111-112 | a record is selected if and only if it was visited and its signature is a key |
| SignatureIndex.SelectIsSubsequence | main.py:106-114 | the selection keeps the visited records in visit order |
| SignatureIndex.SelectAll | main.py:45 | when every record carries a key, all are selected |
| SignatureIndex.SelectNone | main.py:45 | when no record carries a key, none is selected |
| SignatureIndex.LastWith | main.py:104 | the position of the last record with a signature, or -1 when there is none |
| SignatureIndex.CanonicalIndex | main.py:99-104 | `files_dir1[sig] = file_obj` for each record in turn: every key maps to a file bearing that signature; CanonicalIndexLastWins gives its keys and values |
| SignatureIndex.CanonicalIndexLastWins | main.py:99-104 | the index's keys are exactly the signatures visited, each mapped to the last record visited with it |
| Duplicates.DuplicateGroupsMeaning | main.py:45-47 | a signature has a group if and only if more than one file has it; its group is exactly those files in visit order, all with that signature |
| Duplicates.KeptBucketsAreGroups | main.py:41-47 | appending each file to the bucket of its signature and keeping the buckets of more than one file gives the groups |
| Duplicates.AnalyzeDirectory | main.py:38-48 | the result is DuplicateGroups of the visited files: a signature is kept if and only if more than one file has it, and its group is exactly those files in visit order, all with that signature |
| Duplicates.AnalyzeDirectoryAsWritten | main.py:40 | `defaultdict` is neither imported at lines 1-3, nor defined in the file, nor a builtin, so every call raises NameError on it |
| Duplicates.OneGroupOfIdenticalFiles | main.py:45-47 | k > 1 identical files in a tree where every other signature occurs at most once form exactly one group, of those k files |
| Categories.InAllCategories | main.py:65-71 | every category is one of the five keys |
| Categories.Extension | main.py:79 | `file.split('.')[-1].lower()`; its properties are ExtensionHasNoDot, ExtensionAfterLastDot and ExtensionWithoutDot |
| Categories.ExtensionHasNoDot | main.py:79 | the extension holds no dot and is no longer than the name |
| Categories.ExtensionAfterLastDot | main.py:79 | the extension is the lower-cased text after the last dot |
| Categories.ExtensionWithoutDot | main.py:79 | a name without a dot is its own extension, lower-cased |
| Categories.FirstListing | main.py:81-82 | the first position from k on listing the extension, or the end of the table when none lists it |
| Categories.CategoryForFirstListing | main.py:81-87 | a file goes to the first category listing its extension, and to `autre` when none does |
| Categories.Classify | main.py:80-87 | the scan with `found` and `break` picks the category `CategoryFor` names |
| Categories.Sums | main.py:73 | the totals have exactly the five category keys |
| Categories.SumsOfCategory | main.py:73-89 | each total is the size of exactly the files of its category |
| Categories.SumsPartition | main.py:73-89 | the five totals add up to the size of all the files |
| Categories.SumDirectory | main.py:63-89 | the totals are those of the specification: five keys, each the size of its category's files, adding up to the size of the tree |
| FileSystems.Moved | main.py:149-151 | after a move the source path is gone, the destination holds the source's data, and every other path keeps its data |
| FileSystems.MovedCount | main.py:149-151 | a move keeps the number of files, except that replacing another file leaves one fewer |
| FileSystems.MovedSelf | main.py:151 | moving a file onto its own path changes nothing |
| FileSystems.MovedBack | main.py:151 | a move to a free path is undone by the move back |
| FileSystems.FileSystem.Exists | main.py:147 | `os.path.exists` on a regular file: the path is in the store; the methods of both repatriation loops test it before each move |
| FileSystems.FileSystem.Remove | main.py:127 | `os.remove` takes the path out of the store, or raises FileNotFoundError and leaves the store alone |
| FileSystems.FileSystem.Move | main.py:149-151 | `os.rename`/`os.replace` give the store after the move, or raise FileNotFoundError for a missing source and change nothing |
| Compare.BuildCanonicalIndex | main.py:99-104 | the dict is the last-write-wins index: its keys are the first tree's signatures, each with the last file visited with it |
| Compare.CompareDirectories | main.py:97-114 | the result is the second tree's files whose signature the first tree has, in visit order, and no other |
| Compare.IdenticalContentReported | main.py:111-112 | a file of the second tree with the same bytes as a file of the first is reported |
| Compare.UnmatchedNotReported | main.py:111-112 | a file whose signature no file of the first tree has is not reported |
| Deletion.DeleteAll | main.py:125-127 | removing the paths in turn: the only exception is FileNotFoundError, on a path with no file; DeleteAllSucceeds, DeleteAllRemovesListed and DeleteAllKeepsOthers give its outcome and store |
| Deletion.DeleteDuplicates | main.py:123-127 | the store and outcome are those of removing the listed paths in turn, stopping at the first missing one |
| Deletion.DeleteAllSucceeds | main.py:125-127 | the removals all succeed if and only if the paths are distinct files of the store |
| Deletion.DeleteAllRemovesListed | main.py:123-127 | a successful run removes exactly the listed paths |
| Deletion.DeleteAllKeepsOthers | main.py:123-127 | whatever the outcome, no file appears and every unlisted file keeps its data |
| Deletion.SelectKeepsPathsDistinct | main.py:106-114 | the reported files have distinct paths when the walk does |
| Deletion.CompareThenDelete | main.py:97-127 | deleting what the comparison reports never raises, and leaves the store minus exactly the reported paths |
| Repatriation.NewerAsWritten | main.py:148 | `file_obj.date > other.date` on `ctime` strings; CtimeComparisonNotChronological shows it is not the order in time |
| Repatriation.CtimeComparisonNotChronological | main.py:148 | the date test as written does not count a file of 3 Jan 2025 as newer than one of 30 Dec 2024 |
| Repatriation.RepatriateStep | main.py:141-151 | one pass as written: a pass that raises changes nothing, and no pass changes the number of files; CollisionRaisesKeyError, NewFileMoved, KnownFileStays and StepKeepsOthers give each branch |
| Repatriation.RepatriateAll | main.py:141-151 | the passes in visit order until one raises: the number of files never changes, so nothing is lost or overwritten |
| Repatriation.RepatriateFiles | main.py:132-152 | the store and outcome are those of the pass-by-pass specification over the second walk, with the index of the first |
| Repatriation.CollisionRaisesKeyError | main.py:145-149 | a file new to the first tree whose name is taken there always raises KeyError on its signature, since `files_dir1[key]` is read for a key just found missing |
| Repatriation.NewFileMoved | main.py:145-151 | a file new to the first tree whose name is free is moved there with its data, keeping its name and dropping its sub-directory |
| Repatriation.KnownFileStays | main.py:145 | a file whose signature the first tree has is left alone |
| Repatriation.StepKeepsOthers | main.py:141-151 | a pass changes no file but the one it visits |
| Repatriation.RepatriateKeepsUnvisited | main.py:141-151 | as written, no file the walk does not visit is removed or overwritten, whatever the outcome |
| Repatriation.RepatriateOne | main.py:141-151 | a walk of one file is that file's pass |
| Repatriation.RepatriateTwo | main.py:141-151 | a walk of two files is the first pass, then the second if the first did not raise |
| Repatriation.SecondSameNameRaises | main.py:134-151 | because the index is not updated after a move, a second new file with the same name raises KeyError after the first is moved |
| Repatriation.RepatriateStepFixed | main.py:141-151 | one corrected pass: a pass that raises changes nothing, and no pass adds a file; StepFixedCases and StepFixedKeepsOrRenews give each branch |
| Repatriation.RepatriateAllFixed | main.py:141-151 | the corrected passes in visit order: never more files than before |
| Repatriation.RepatriateTwoFixed | main.py:141-151 | a walk of two files is the first corrected pass, then the second if the first did not raise |
| Repatriation.FixedSecondSameNameStays | main.py:145-151 | as corrected, of two new copies with one name the first is moved and the second, not more recent, stays in the second tree |
| Repatriation.RepatriateFilesFixed | main.py:129-152 | the corrected loop's store and outcome are those of the corrected pass-by-pass specification |
| Repatriation.FixedRaisesOnlyFileNotFound | main.py:145-151 | the corrected loop never raises KeyError, only FileNotFoundError on a visited path |
| Repatriation.FixedCompletes | main.py:141-151 | over a walk of distinct existing files the corrected loop completes |
| Repatriation.StepFixedKeepsOrRenews | main.py:147-149 | a corrected pass leaves every other file alone, except the one at the destination, which it replaces only with a more recent file |
| Repatriation.FixedNeverReplacesWithOlder | main.py:147-149 | no file outside the second walk disappears or is replaced by an older one |
| Repatriation.StepFixedCases | main.py:145-151 | a new file is moved when its name is free (as in the written code), replaces an older file at its name, and stays when that file is as recent or more |
| Repatriation.CopiesNotReported | main.py:106-114 | two copies of a file whose signature the first tree lacks are not reported by a comparison |
| Repatriation.CopyReported | main.py:106-114 | a one-file walk of the second tree is reported when a walk of the first tree meets a file with the same bytes |
| Repatriation.FirstRunLeavesCopy | main.py:97-152 | a first run of compare, delete and repatriate over two same-named copies of a file new to the first tree: the comparison reports neither, repatriation moves the more recent one into the first tree and leaves the other, raising KeyError as written and passing as corrected |
| Repatriation.SecondRunStillDeletes | main.py:96-113 | after that first run, the copy left behind is still in the second tree, and the second run's comparison, over any walk of the first tree that meets the moved file, reports it |

## Left out

- Directory traversal: each `os.walk` is an input sequence of the file paths it yields, in visit order. The second walk of `repatriate_files` is fixed in advance; the model does not capture that `os.walk` lists a directory only when it reaches it.
- MD5 (`hashlib`) and `time.ctime` are foreign functions, passed in as the `Host` parameter. The MD5 object's state is modelled as the bytes fed to it so far.
- `os.path.getmtime` returns a float; the model uses whole seconds (`int`).
- Directories are not in the store: `os.path.exists` on a directory, and moves of directories, are not modelled.
- Paths use '/' as separator with POSIX `join`/`basename` for relative names; Windows separators and drive letters are not modelled.
- `os.rename` onto an existing file raises on Windows but replaces on POSIX. The script calls it only when the destination is free, so `Move` models both calls with POSIX semantics.
- OS errors other than a missing file (permissions, I/O failures) and the atomicity of `os.remove`, `os.rename` and `os.replace`.
- Text.Lower: ASCII case mapping only, not the full Unicode `str.lower()`.
- The `print_*` functions, `File.__repr__`, the console messages inside `delete_duplicates` and `repatriate_files`, and the `__main__` block: output and configuration only.
- The iteration order of the `sums` and `duplicates` dicts, which matters only for printing. Maps are unordered.
- FileRecords.SameFile (`__eq__`) is a predicate with no contract of its own. What it states is proved in `IdenticalContentSameFile`.
- Repatriation.RepatriateFiles: the date comparison and `os.replace` at lines 148-149 are modelled only as unreachable (`assert false`), because no input reaches them.
- Idempotence, meaning that a second run of compare, delete and repatriate on the resulting trees deletes and moves nothing, does not hold for the code as written nor for the corrected repatriation. Two same-named copies of a new file in different sub-directories of the second tree are the input: the first run moves one and leaves the other, and the second run's comparison reports the one left, as FirstRunLeavesCopy and SecondRunStillDeletes prove.

## Findings

| source | as written | input that shows it | evidently intended | confidence | as-written member | corrected member |
|---|---|---|---|---|---|---|
| main.py:40 | `defaultdict(list)` is used, but `collections` is never imported, so the name is undefined | any call of `analyze_directory`, even on an empty directory | `from collections import defaultdict`: grouping by signature | high; not executed | Duplicates.AnalyzeDirectoryAsWritten | Duplicates.AnalyzeDirectory |
| main.py:145-149 | after `file_obj.signature not in files_dir1`, the date test reads `files_dir1[file_obj.signature]` | a file of the second tree with a new signature and a name already present in the first tree | compare with the file at `new_path` and replace it when the incoming file is more recent | high; not executed | Repatriation.CollisionRaisesKeyError | Repatriation.FixedRaisesOnlyFileNotFound |
| main.py:148 | the dates compared are `time.ctime` strings, ordered character by character; the defect is latent, because as written `files_dir1[file_obj.signature]` raises KeyError before `>` is evaluated | "Fri Jan  3 00:00:00 2025" against "Mon Dec 30 00:00:00 2024" | compare the modification times as numbers | high; not executed | Repatriation.CtimeComparisonNotChronological | Repatriation.FixedNeverReplacesWithOlder |
