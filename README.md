# temp-dir in Dafny

A model of `TempDir`, the fluent PHP handle for a temporary directory from
hellomohsinhello/temp-dir, and of its `InvalidDirectoryName` exception. The
handle collects a location, a name and two flags through chainable setters.
It then creates, fills, empties and deletes the directory those name.

The project has five files:

- `php_string.dfy` (module `PhpString`) holds the PHP string built-ins the class relies on:
  - `rtrim`, `ltrim` and `trim`, with their default whitespace list;
  - `strpbrk` and `strrpos`, whose `false` results become `None`;
  - `str_replace` with an empty replacement;
  - `empty()` on a string, which holds for `""` and `"0"`;
  - the decimal rendering of an int.
- `exceptions.dfy` (module `Exceptions`) holds the `InvalidDirectoryName` message factory. It also defines the two errors (`InvalidDirectoryName`, `PathAlreadyExists`) and the `Result` type that carries them in place of thrown exceptions.
- `filesystem.dfy` (module `FileSystem`) is an abstract filesystem: a map from path string to `File`, `Dir` or `Link`, kept consistent by `WellFormed`, which says every parent is a directory. It has:
  - the class `FileSystem`, whose `unlink`, `rmdir` and `mkdir(…, 0777, true)` change that map in place;
  - the queries `file_exists`, `is_link` and `is_dir`;
  - the children that `FilesystemIterator` lists.

  The set `pinned` stands for every reason the operating system may refuse to remove an entry.
- `temp_dir_paths.dfy` (module `TempDirPaths`) holds the string logic of the class, one function per PHP expression:
  - `sanitizePath` and `sanitizeName`;
  - `isValidDirectoryName` and `getFullPath`;
  - the join done by `path()`;
  - `isFilePath` and `removeFilenameFromPath`;
  - `getSystemTemporaryDirectory`;
  - the generated default name.
- `temp_dir.dfy` (module `TempDirectory`) holds the class `TempDir`. Its four fields are reassigned by:
  - the constructor;
  - the setters `location`, `name`, `force` and `deleteWhenDestroyed`;
  - `create`.

  The same module holds the filesystem-changing operations `create`, `path`, `empty`, `delete` and `make`, the recursive `deleteDirectory`, and `__destruct` as an explicit `Dispose`.

What `create()` takes from its surroundings, `sys_get_temp_dir()`, `mt_rand()` and `microtime()`, is passed in as an `Environment` value. `DIRECTORY_SEPARATOR` is `'/'`.

Each operation is proved against a specification function.
- `deleteDirectory` succeeds exactly when no entry of the tree at the path is pinned. On success it leaves `RemoveTree` of the old filesystem: the tree is gone and nothing outside it changed.
- `create()` leaves `mkdir -p` of the full path applied to the filesystem with that tree removed. Two lemmas prove what that means:
  - `CreatedDirectoryIsEmpty`: an empty directory exists there and nothing else moved.
  - `MkdirAllProperties`: only directories were made.

## Model

| member | source | states |
|---|---|---|
| PhpString.RTrim | src/TempDir.php:63-65 | the result is a prefix of the input, every character dropped from its end is in the list, and its own last character is not |
| PhpString.LTrim | src/TempDir.php:130 | the result is a suffix of the input, every character dropped from its start is in the list, and its own first character is not |
| PhpString.PhpEmpty | src/TempDir.php:70-74 | empty() on a string: true for "" and "0" only. FullPathShape and GeneratedNameShape state what it decides for the full path and the default name |
| PhpString.Trim | src/TempDir.php:44 | the result occurs in the input at some index, everything before and after that occurrence is in the list, and neither end of the result is; an input with neither end in the list comes back unchanged |
| PhpString.TrimUnique | src/TempDir.php:44 | any piece of the input that has only listed characters before and after it, and no listed character at either end, is what trim returns, so Trim's contract determines its result |
| PhpString.LTrimAt | src/TempDir.php:130 | ltrim keeps everything from the first unlisted character on |
| PhpString.LTrimAllListed | src/TempDir.php:130 | ltrim of a string made only of listed characters is "" |
| PhpString.RTrimAt | src/TempDir.php:63-65 | rtrim keeps everything up to the last unlisted character |
| PhpString.TrimIdempotent | src/TempDir.php:44 | trimming a trimmed string changes nothing |
| PhpString.StrPBrk | src/TempDir.php:58 | false exactly when no character of the string is in the list; otherwise the tail starting at the first listed character |
| PhpString.StrRPos | src/TempDir.php:147 | false exactly when the character does not occur; otherwise the index of its last occurrence |
| PhpString.StrRPosOfJoin | src/TempDir.php:147 | the last separator of head + separator + tail, with none in tail, is the one between them |
| PhpString.RemoveChars | src/TempDir.php:75 | the result is no longer than the input and holds none of the removed characters |
| PhpString.RemoveCharsAppend | src/TempDir.php:75 | removing from a concatenation is removing from each part and concatenating |
| PhpString.RemoveCharsSingle | src/TempDir.php:75 | one character is dropped exactly when it is listed and kept otherwise; with RemoveCharsAppend this fixes the result on every string |
| PhpString.RemoveCharsKeepsUnlisted | src/TempDir.php:75 | a string with no listed character comes back unchanged |
| PhpString.RemoveCharsWithin | src/TempDir.php:75 | when the input is drawn from a set of characters, the result is drawn from that set minus the removed characters |
| PhpString.Decimal | src/TempDir.php:75 | the rendering of mt_rand() is non-empty, all digits, and has no leading zero |
| PhpString.DecimalRoundTrip | src/TempDir.php:75 | reading the digits back gives the number |
| PhpString.DecimalInjective | src/TempDir.php:75 | distinct numbers render differently |
| Exceptions.InvalidDirectoryNameMessage | src/Exceptions/InvalidDirectoryName.php:7-10 | the message is the fixed prefix, the name and the fixed suffix, at those positions and of that total length |
| Exceptions.MessageNameRoundTrip | src/Exceptions/InvalidDirectoryName.php:9 | the rejected name can be read back out of the message |
| Exceptions.MessageInjective | src/Exceptions/InvalidDirectoryName.php:9 | distinct names give distinct messages |
| Exceptions.MessageContainsName | src/Exceptions/InvalidDirectoryName.php:9 | the message contains the name as a contiguous substring |
| Exceptions.MessageForSlash | src/Exceptions/InvalidDirectoryName.php:9 | for the name "/" the message is exactly "The directory name \`/\` contains invalid characters." |
| FileSystem.FileSystem.FileExists | src/TempDir.php:78 | file_exists: the path has an entry of any kind. Create's contract states what it decides |
| FileSystem.FileSystem.IsLink | src/TempDir.php:94 | is_link: the path is a link. DeleteDirectory's contract states that such a path is unlinked and not followed |
| FileSystem.FileSystem.IsDir | src/TempDir.php:94 | is_dir: the path is a directory. DeleteDirectory's contract states that a file is unlinked and a directory emptied first |
| FileSystem.FileSystem.Children | src/TempDir.php:106 | the iterator lists exactly the existing entries whose parent is the path; in a consistent filesystem it lists nothing exactly when nothing lies beneath the path |
| FileSystem.FileSystem.Unlink | src/TempDir.php:94-96 | succeeds exactly on an existing non-directory that is not pinned, and then removes only that entry |
| FileSystem.FileSystem.Rmdir | src/TempDir.php:118 | succeeds exactly on an existing, childless, unpinned directory, and then removes only that entry |
| FileSystem.FileSystem.Mkdir | src/TempDir.php:86 | succeeds exactly when MkdirOk holds, leaving MkdirResult, and keeps the tree consistent |
| FileSystem.MkdirAllProperties | src/TempDir.php:134-136 | mkdir -p keeps the tree consistent, keeps every entry, leaves the path and all its ancestors directories, and adds only directories on the way to the path |
| FileSystem.RemoveTreeProperties | src/TempDir.php:91-122 | removing a tree keeps the rest consistent, removes every entry of the tree and keeps every entry outside it unchanged |
| FileSystem.NothingBeneathNonDirectory | src/TempDir.php:94-104 | a link, a file or a missing path has nothing beneath it, so unlinking it or doing nothing removes its whole tree |
| FileSystem.RemoveLeaf | src/TempDir.php:94-104 | removing an entry with nothing beneath it is removing that one key, which succeeds exactly when it is not pinned |
| FileSystem.ChildDeletionStep | src/TempDir.php:106-110 | deleting one child keeps every entry outside the directory and every pinned entry, shrinks the directory's tree, and a failed child makes the directory unremovable |
| FileSystem.EmptiedDirectoryRemoval | src/TempDir.php:116-118 | once a directory has nothing beneath it, rmdir succeeds exactly when the tree was removable, and leaves what removing the whole tree would |
| TempDirPaths.IsValidDirectoryName | src/TempDir.php:56-59 | true exactly when the name holds none of \ / ? % * : \| " < > |
| TempDirPaths.SanitizeName | src/TempDir.php:38-45 | fails with InvalidDirectoryName and that name's message exactly when the name is invalid; otherwise gives trim() of the name, which is valid, has no whitespace at either end and occurs in the input as a contiguous piece |
| TempDirPaths.SanitizePath | src/TempDir.php:61-66 | the result is a prefix of the input that does not end with a separator; only trailing whitespace and separators are dropped; an input ending in neither comes back unchanged |
| TempDirPaths.SanitizePathAbsorbsTrailing | src/TempDir.php:61-66 | a location with separators and then whitespace appended is stored the same as the bare location |
| TempDirPaths.SanitizePathNotIdempotent | src/TempDir.php:63-65 | "a / " becomes "a ", which would itself become "a" |
| TempDirPaths.FullPath | src/TempDir.php:165-168 | getFullPath on a location and a name; FullPathShape states its shape |
| TempDirPaths.FullPathShape | src/TempDir.php:165-168 | the full path never ends with a separator; it is the location when the name is empty(), and otherwise it starts with the location, its last separator follows the location and the name follows that separator |
| TempDirPaths.JoinPath | src/TempDir.php:124-130 | the path path() returns; JoinPathNoTrailingSeparator, JoinPathIgnoresOuterSeparators and DirectoryOfFilePath state its properties |
| TempDirPaths.JoinPathNoTrailingSeparator | src/TempDir.php:124-130 | what path() returns does not end with a separator when the argument is more than separators |
| TempDirPaths.JoinPathIgnoresOuterSeparators | src/TempDir.php:130 | separators added before or after the argument of path() do not change its result |
| TempDirPaths.TrimIgnoresOuterSeparators | src/TempDir.php:130 | trim(…, '/') does not see separators added at either end |
| TempDirPaths.IsFilePath | src/TempDir.php:150-153 | a period anywhere in the path; RemoveFilenameFromPath and PeriodInFullPathHidesSubdirectory state its effect |
| TempDirPaths.RemoveFilenameFromPath | src/TempDir.php:141-153 | a path without a period is returned unchanged; a path with one is cut at its last separator, or becomes "" when there is none |
| TempDirPaths.DirectoryOfJoinedPath | src/TempDir.php:130-147 | the directory path() makes sure of always starts with the full path |
| TempDirPaths.DirectoryOfFilePath | src/TempDir.php:130-147 | for "dirs/file.ext" path() returns fullPath/dirs/file.ext and the directory made sure of is fullPath/dirs |
| TempDirPaths.RemoveFilenameCutsLastSegment | src/TempDir.php:141-148 | a last segment holding a period is cut off |
| TempDirPaths.PeriodInFullPathHidesSubdirectory | src/TempDir.php:150-153 | a period anywhere in the full path makes path("sub") make sure of the full path only |
| TempDirPaths.SystemTemporaryDirectory | src/TempDir.php:155-158 | the result is the system directory minus trailing separators, and does not end with one |
| TempDirPaths.GeneratedName | src/TempDir.php:75 | the default name; GeneratedNameShape, GeneratedNameCharacters and GeneratedNameIsValid state its properties |
| TempDirPaths.GeneratedNameShape | src/TempDir.php:74-76 | a generated name is not empty(), holds no space and no period, and starts with the random number, which reads back from it, then a dash |
| TempDirPaths.GeneratedNameIsValid | src/TempDir.php:74-76 | a generated name passes isValidDirectoryName and has no whitespace at either end, so trim leaves it unchanged |
| TempDirPaths.GeneratedNameCharacters | src/TempDir.php:75 | a generated name is made of digits and dashes only |
| TempDirectory.TempDir.GetFullPath | src/TempDir.php:165-168 | FullPath of the handle's location and name; Valid keeps FullPathShape's hypotheses |
| TempDirectory.TempDir.Exists | src/TempDir.php:160-163 | exists(): the full path has an entry. Create's contract states that it is false exactly when a create without force succeeds, and that it is true after a successful create whose ancestors are directories |
| TempDirectory.TempDir.constructor | src/TempDir.php:19-22 | the location is sanitized, the name is "", and both flags are false |
| TempDirectory.TempDir.Location | src/TempDir.php:24-29 | stores the sanitized location, returns the same handle, changes no other field |
| TempDirectory.TempDir.Name | src/TempDir.php:31-36 | raises InvalidDirectoryName for an invalid name and changes nothing; otherwise stores the trimmed name and returns the same handle; other fields unchanged |
| TempDirectory.TempDir.Force | src/TempDir.php:182-187 | sets forceCreate only and returns the same handle |
| TempDirectory.TempDir.DeleteWhenDestroyed | src/TempDir.php:175-180 | sets the flag only and returns the same handle |
| TempDirectory.TempDir.Create | src/TempDir.php:68-89 | fills an empty() location and name with their defaults, so the name is no longer empty(). Without force, it fails with PathAlreadyExists exactly when the full path exists, leaving the filesystem unchanged. With force, it succeeds exactly when the old tree is removable. On failure only entries of the tree at the full path were removed, and no pinned entry. On success the state is mkdir -p of the full path after that tree is removed, it returns the same handle, and when the existing ancestors are directories exists() holds and the full path is an empty directory |
| TempDirectory.TempDir.DeleteDirectory | src/TempDir.php:91-122 | true exactly when no entry of the tree at the path is pinned. Then the filesystem is the old one minus that tree. Otherwise the path survives. Either way only entries of the tree are removed, and no pinned entry |
| TempDirectory.TempDir.Path | src/TempDir.php:124-139 | returns the joined path; an empty() argument changes nothing, any other leaves mkdir -p of the directory part of the result |
| TempDirectory.TempDir.Empty | src/TempDir.php:47-54 | when the tree is removable, the filesystem is mkdir of the full path after that tree is removed; otherwise the full path survives and nothing is added. Either way no entry outside the tree and no pinned entry is removed |
| TempDirectory.TempDir.Delete | src/TempDir.php:196-199 | true exactly when the tree at the full path is removable, and then it is gone and nothing else changed; false leaves the full path. Either way nothing is added, and no entry outside the tree and no pinned entry is removed |
| TempDirectory.TempDir.Dispose | src/TempDir.php:189-194 | deletes the tree only when deleteWhenDestroyed is set, and then completely when it is removable; otherwise the filesystem is unchanged. Nothing is added, and no entry outside the tree and no pinned entry is removed |
| TempDirectory.TempDir.Make | src/TempDir.php:170-173 | a fresh handle on the sanitized location (or the system directory) under the generated name; it fails with PathAlreadyExists on that path exactly when the path exists, changing nothing, and otherwise creates it |
| TempDirectory.CreatedDirectoryIsEmpty | src/TempDir.php:47-54 | after the removal and mkdir that empty() and a forced create() perform, the full path is a directory with nothing beneath it, entries outside it are unchanged, and only directories were added |
| TempDirectory.PathOfFileMakesItsDirectory | src/TempDir.php:124-139 | path("dirs/file.ext") leaves the directory fullPath/dirs, makes only directories on the way to it, and does not make the file |
| TempDirectory.MkdirBelowEntry | src/TempDir.php:134-136 | mkdir -p of a directory path makes it, adds only it and its ancestors, and never makes an entry beneath it |

## Left out

- Real filesystem I/O and the `0777` mode: the filesystem is an abstract map from path to kind, and permissions are not modelled.
- Links: PHP's `file_exists` and `is_dir` follow a link, and `mkdir` walks through one. Here a link is an entry that exists and is never a directory, so a dangling link counts as existing. Nothing is ever created beneath a link.
- Path normalisation: paths are raw strings, so `a//b`, `a/./b` and `a/` are distinct from `a/b` and `a`. `path("/")` therefore makes an entry spelled with a trailing separator.
- Why an `unlink` or `rmdir` fails, and the `Throwable` handler around `deleteDirectory`, are folded into the `pinned` set: a removal of a pinned path fails and returns false.
- `gc_collect_cycles()` has no effect in the model.
- The order in which `FilesystemIterator` lists children is left unspecified: `DeleteDirectory` picks any remaining child.
- TempDirectory.TempDir.DeleteDirectory: on failure it states only that the path survives and that nothing outside the tree and no pinned entry was removed. Which other entries were already removed depends on the listing order, which is not modelled.
- TempDirectory.TempDir.Empty: on a tree that cannot be fully removed, it states that the full path survives, that nothing was added, and that nothing outside the tree and no pinned entry was removed. Which entries of the tree were removed depends on the listing order, as for `DeleteDirectory`.
- TempDirectory.TempDir.Delete: on failure it states what `DeleteDirectory` states; which entries of the tree were removed depends on the listing order.
- TempDirectory.TempDir.Create: with force, a failure states that only entries of the tree at the full path were removed, and no pinned entry; which of them depends on the listing order.
- TempDirectory.TempDir.Dispose: when the tree cannot be fully removed, it states that only entries of the tree were removed, and no pinned entry; which of them depends on the listing order.
- A failing `mkdir` only raises a PHP warning. Here it leaves the filesystem unchanged, and `create()`, `empty()` and `path()` still return normally.
- `sys_get_temp_dir()`, `mt_rand()` and `microtime()` are parameters of `Create` and `Make`.
- The range of `mt_rand()` is not bounded: any natural number is accepted.
- `microtime()` is assumed to render digits, a period and a space only.
- The message text of `PathAlreadyExists` is not modelled: its source is not part of this model. The error carries the path.
- `__destruct` runs when PHP collects the object. Here it is the explicit call `Dispose`, and its timing is not modelled. The `deleteWhenDestroyed` property is never declared in the class, so the field starts as false, which is what reading the undeclared property yields.
- `exists()` is the function `TempDirectory.TempDir.Exists`. Its meaning, that the full path has an entry, appears in the contracts of `Create` and `Make`.
- `DIRECTORY_SEPARATOR` is fixed to `/`. Windows separators are not modelled.
- Two behaviours of the code are modelled as written, although a reader might expect otherwise:
  - `sanitizePath` strips only trailing whitespace, so leading whitespace of a location is kept.
  - `isFilePath` looks for a period anywhere in the joined path, not only in its last segment; see `PeriodInFullPathHidesSubdirectory`.
