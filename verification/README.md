# Resumable upload server, modelled in Dafny

This project models `src/upload.php`, the server side of the Resumable.js
chunked-upload protocol. A client cuts a file into parts and sends each part
in an HTTP request of its own. The script does three things:

- It stores every part as `TMP_DIR/<identifier>/<fileName>.part<chunkNumber>`.
- After each stored part it counts the entries of that directory whose name
  contains the file name. Once the count passes the test
  `count * chunkSize >= totalSize - chunkSize + 1`, it writes
  `UPLOAD_DIR/<fileName>` from `part1 .. part<count>`, in ascending order.
- It then removes the temporary directory with `rrmdir`. It first renames the
  directory to `<identifier>_UNUSED` and deletes the renamed tree. If the
  rename fails, it deletes the tree where it is.

## How the model is built

- **File system** (`filesystem.dfy`). The file system is a map from paths to
  entries. A path is a sequence of components. An entry is a file holding
  bytes, or a directory.
  - The class `FileSystem.Fs` holds that map.
  - It offers the PHP primitives the script calls: `is_dir`, `scandir`,
    `filetype`, `mkdir`, `move_uploaded_file`, `fopen` with mode `'w'`,
    `fwrite`, `file_get_contents`, `unlink`, `rmdir` and `rename`.
  - Each primitive is specified by its exact effect on the map, and keeps the
    tree well formed: every entry sits inside a directory.
- **Script procedures.** Each procedure of the script is an imperative method
  on `Fs`:
  - `rrmdir` (`rrmdir.dfy`)
  - `createFileFromChunks`, with its counting loop and its append loop
    (`assembly.dfy`)
  - the store step and the loop over `$_FILES` (`upload.dfy`)

  Each method is proved equal to a pure function of the old tree. The
  properties are then proved about those functions.
- **Strings** (`text.dfy`): `stripos` and the decimal rendering of the part
  index.
- **Whole upload** (`session.dfy`). A file cut as the comment at line 97
  describes is sent part by part, in any order, with retries. The model proves
  two things about that sequence of requests:
  - every request succeeds;
  - the request that brings the last missing part leaves the destination
    holding the parts in index order and removes the temporary directory.

  Both hold from either of two starting states. In the first, `TMP_DIR`
  exists, `TMP_DIR/<identifier>` is absent or empty, and no directory stands
  where the final file goes. In the second, a fresh install, `TMP_DIR` is
  absent and no file stands on the way to it. The first request's recursive
  `mkdir` then creates it. The file must not be named `tmp` in this case.

The paths come from the code:

- `TMP_DIR` is `UPLOAD_DIR/tmp`, as at line 27, and only the upload root is a
  parameter.
- The chunk number is used as the posted string when the part is stored
  (line 145).
- The assembly loop reads `.part<i>` with `i` written in decimal (line 103).
  So a part posted as `01` is stored and counted, but never read as part 1.
  The model keeps this.

Some behaviours of the code are easy to overlook, and a stricter upload
server would avoid them. The model keeps them as written:

- **No contiguity check.** Completion is decided by the substring count alone.
  A missing index in `1..count` adds no bytes, and the file is assembled
  anyway (`Assembly.AssembledIsPresentParts`).
- **Direct write to the destination.** The destination is opened with `'w'`
  and written directly, with no temporary file and no rename.
- **No locking, no sanitising.** Names are not sanitised, and nothing guards
  against concurrent requests.
- **Size of the last part.** The count test assumes the last part holds
  between `chunkSize` and `2*chunkSize` bytes, as the comment at line 97 says.
  If the last part were shorter than `chunkSize`, the test would pass one part
  early (`Assembly.ThresholdBeforeShortLastPart`).
- **Cleanup of `_UNUSED`.** After a completed assembly the temporary directory
  is always gone. A pre-existing `<identifier>_UNUSED` is gone only when the
  rename succeeded. When the rename failed, that tree stays as it was
  (`Assembly.CleanUpEffect`).

## Model

| member | source | states |
|---|---|---|
| `Text.Stripos` | src/upload.php:91 | the result is the first offset where the file name occurs, ignoring ASCII case; no occurrence before it; `None` (PHP `false`) exactly when it occurs nowhere |
| `Text.StriposOfExtension` | src/upload.php:91 | a name followed by any suffix contains the name at offset 0, so every part name is counted |
| `Text.Decimal` | src/upload.php:103 | the rendering of the index is a non-empty string of decimal digits, one digit exactly for indices below ten |
| `Text.DecimalRoundTrip` | src/upload.php:103 | reading the rendering back as a decimal number gives the index |
| `Text.DecimalInjective` | src/upload.php:103 | distinct indices have distinct renderings |
| `FileSystem.Mkdirs` | src/upload.php:148 | recursive `mkdir` keeps every existing entry and adds only directories on the way to the path |
| `FileSystem.MkdirsWellFormed` | src/upload.php:148 | recursive `mkdir` keeps the tree well formed |
| `FileSystem.MkdirsCreates` | src/upload.php:148 | when no file stands on the way, the path is a directory afterwards |
| `FileSystem.MkdirsExisting` | src/upload.php:148 | recursive `mkdir` of an existing directory changes nothing |
| `FileSystem.MoveTreeMember` | src/upload.php:115 | after `rename` an entry is either outside both trees and unchanged, or under the new name with the value it had under the old name, and nothing remains under the old name |
| `FileSystem.MoveTreeWellFormed` | src/upload.php:115 | a permitted `rename` keeps the tree well formed |
| `FileSystem.ListingMembers` | src/upload.php:63 | a listing names exactly the entries directly inside a directory, and nothing for anything else |
| `FileSystem.Fs.IsDir` | src/upload.php:147 | `is_dir` holds exactly where `filetype` reports a directory |
| `FileSystem.Fs.ScanDir` | src/upload.php:90 | the listing of a directory is exactly the names of the entries directly inside it; a non-directory lists nothing |
| `FileSystem.Fs.FileType` | src/upload.php:66 | no type exactly for a missing path; the file type exactly for a file entry |
| `FileSystem.Fs.FileGetContents` | src/upload.php:103 | yields bytes exactly for a file, and then the bytes that file holds |
| `FileSystem.Fs.Mkdir` | src/upload.php:147-149 | the new tree is the recursive `mkdir` of the old one |
| `FileSystem.Fs.MoveUploadedFile` | src/upload.php:156 | succeeds exactly when the parent is a directory and the target is not a directory; then the target holds the uploaded bytes and nothing else changes |
| `FileSystem.Fs.FOpenWrite` | src/upload.php:101 | mode `'w'` succeeds under the same condition and leaves the file empty, discarding old content |
| `FileSystem.Fs.FWrite` | src/upload.php:103 | appends the bytes to the open file |
| `FileSystem.Fs.Unlink` | src/upload.php:69 | removes a file and nothing else |
| `FileSystem.Fs.Rmdir` | src/upload.php:74 | removes a directory exactly when it is empty |
| `FileSystem.Fs.Rename` | src/upload.php:115 | succeeds exactly when the rename is permitted, and then moves the whole tree |
| `RecursiveDelete.RrmdirSpec` | src/upload.php:61-76 | on a non-directory nothing changes; on a directory nothing at or below it remains, every path outside it keeps its membership, and no entry changes value |
| `RecursiveDelete.RemoveTree` | src/upload.php:61-76 | the scan, recurse and unlink loop followed by `rmdir` leaves exactly `RrmdirSpec` of the old tree |
| `RecursiveDelete.UnlinkRemovesTree` | src/upload.php:68-70 | unlinking a file removes exactly the tree at that path |
| `RecursiveDelete.SweepStep` | src/upload.php:64-72 | removing one more listed child keeps the loop invariant: exactly the swept children's trees are gone |
| `RecursiveDelete.SweepDone` | src/upload.php:73-74 | after the loop the directory is empty, and removing it completes the deletion of its tree |
| `Assembly.CountParts` | src/upload.php:89-94 | the counter is the number of listed entries whose name contains the file name, ignoring ASCII case, each counted once |
| `Assembly.PartPathInjective` | src/upload.php:103 | distinct indices are read from distinct files |
| `Assembly.PartNamesCount` | src/upload.php:103 | the names of `k` distinct parts are `k` distinct names |
| `Assembly.CountOfExactParts` | src/upload.php:89-94 | a directory holding exactly the parts with a set of indices yields that many as the count |
| `Assembly.CountCoversStoredParts` | src/upload.php:89-94 | the count is at least the number of distinct chunk numbers stored |
| `Assembly.PartName` | src/upload.php:103 | every part name contains the file name at offset 0, so the counting test matches it |
| `Assembly.PartPath` | src/upload.php:103 | part `i` is read from an entry directly inside the temporary directory |
| `Assembly.ThresholdMet` | src/upload.php:98 | the completion test `count*chunkSize >= totalSize - chunkSize + 1`, over unbounded integers (a predicate; its meaning is in `Assembly.ThresholdMeaning`) |
| `Assembly.Destination` | src/upload.php:101 | the destination lies directly inside the upload directory, and inside `TMP_DIR` exactly when the file is named `tmp` |
| `Assembly.UnusedDir` | src/upload.php:115 | `<dir>_UNUSED` is a sibling of the temporary directory, distinct from it |
| `Assembly.ThresholdMeaning` | src/upload.php:96-98 | for a positive chunk size the test holds exactly when `(count+1)*chunkSize > totalSize`, and exactly when `count >= totalSize / chunkSize` |
| `Assembly.ThresholdAtLastPart` | src/upload.php:96-98 | for a file cut as the comment says, the test passes with all `n` parts and fails with `n-1` |
| `Assembly.ThresholdBeforeShortLastPart` | src/upload.php:96-98 | with a last part shorter than `chunkSize`, the test already passes with one part missing |
| `Assembly.AssembledReadsOnlyParts` | src/upload.php:101-106 | the content depends only on parts `1..n`: trees that agree on them give the same content |
| `Assembly.AssembledIsPresentParts` | src/upload.php:101-106 | the content is the present parts among `1..n` in ascending index order; a missing index adds no bytes |
| `Assembly.AssembledAllParts` | src/upload.php:101-106 | with every part `1..n` present, the content is the concatenation of the parts in index order |
| `Assembly.AssembledIgnoresOtherPaths` | src/upload.php:101 | writing any path that is not a part, the destination included, does not change the content, so the old destination content plays no part |
| `Assembly.TruncatedDestination` | src/upload.php:101-103 | truncating the destination with `fopen` does not change the content the loop then reads |
| `Assembly.AppendParts` | src/upload.php:102-105 | the append loop leaves the open file holding its old content followed by parts `1..n` as the assembly reads them, and changes nothing else |
| `Assembly.CleanUp` | src/upload.php:113-119 | renaming aside and deleting leaves exactly the specified cleanup of the old tree |
| `Assembly.UnusedDirUnrelated` | src/upload.php:115 | the `_UNUSED` sibling is neither inside nor above the temporary directory |
| `Assembly.CleanUpEffect` | src/upload.php:113-119 | the temporary directory is gone in both branches; `_UNUSED` is gone when the rename succeeded and untouched when it failed; every other path is untouched; the tree stays well formed |
| `Assembly.CreateFileFromChunks` | src/upload.php:87-122 | the counting loop, the test, the append loop and the cleanup produce exactly the specified tree and outcome |
| `Assembly.CreateFileOutcome` | src/upload.php:98-111 | nothing is written exactly when the test fails, or when the test passes and `fopen` cannot create the destination; in both cases the tree is unchanged |
| `Assembly.CreatedFileContent` | src/upload.php:98-120 | after an assembly the destination holds parts `1..count` of the tree it started from, the temporary directory is gone, and every path outside the destination, the temporary directory and `_UNUSED` is untouched |
| `UploadScript.StoreChunkSpec` | src/upload.php:136-158 | an upload error changes nothing and fails with its code; a stored part holds exactly the uploaded bytes |
| `UploadScript.ChunkPath` | src/upload.php:145 | a part is stored directly inside `TMP_DIR/<identifier>`, under a name the counting test matches |
| `UploadScript.EnsureDir` | src/upload.php:147-149 | an existing directory is left alone; otherwise every entry is kept and only directories on the way to the temporary directory are added |
| `UploadScript.StoreChunkFrame` | src/upload.php:144-156 | storing a part replaces only that entry; the only new entries are the part and directories on the way to the temporary directory; the tree stays well formed |
| `UploadScript.StoreChunk` | src/upload.php:136-158 | the `is_dir`/`mkdir`, permission and `move_uploaded_file` steps produce exactly the specified tree and failure |
| `UploadScript.HandleFile` | src/upload.php:133-163 | one iteration stores the part and, when that succeeds, runs `createFileFromChunks` |
| `UploadScript.HandleRequest` | src/upload.php:128-163 | the loop over the uploaded files stops at the first failure, and produces exactly the specified tree and response |
| `UploadScript.FilesSpecAppend` | src/upload.php:133-163 | running the loop over two runs of files is running it over the first and, unless that failed, continuing with the second |
| `UploadScript.FilesFrom` | src/upload.php:133-163 | after a successful run over the first `i` files the loop continues over the rest from the tree they left |
| `UploadScript.ErrorFirst` | src/upload.php:136-140 | a first file with an upload error ends the request before anything is stored |
| `UploadScript.UploadErrorEndsRequest` | src/upload.php:136-140 | a file with an upload error ends the request with its code; nothing of it or of later files is stored or assembled |
| `UploadScript.UploadErrorFailsRequest` | src/upload.php:136-140 | a request carrying any file with an upload error fails |
| `UploadSession.ThresholdIsPartTotal` | src/upload.php:96-98 | with a part stored, the test passes exactly when the count reaches the number of parts the client cuts |
| `UploadSession.TempDirReady` | src/upload.php:147-149 | in an upload in progress, the temporary directory exists after the `mkdir` step with the same children, and nothing else is new |
| `UploadSession.StoreSucceeds` | src/upload.php:155-156 | with the temporary directory in place, `move_uploaded_file` of part `k` succeeds and writes exactly that part |
| `UploadSession.StorePart` | src/upload.php:144-158 | storing part `k` succeeds, adds `k` to the held parts (a retry replaces it with the same bytes), and changes nothing outside the temporary directory |
| `UploadSession.AssemblePart` | src/upload.php:87-122 | with some parts held, assembly waits and changes nothing until all parts are held; then it writes the concatenation in index order and removes the temporary directory |
| `UploadSession.ArrivalStep` | src/upload.php:133-163 | a request bringing one part succeeds, and either the upload is finished or the part joins the held parts, with nothing else changed |
| `UploadSession.FreshHolding` | src/upload.php:147-148 | on a fresh install the recursive `mkdir` creates `TMP_DIR`, after which the server holds no part of the upload |
| `UploadSession.FreshEnsureDir` | src/upload.php:147-148 | on a fresh install the `is_dir`/`mkdir` step yields the same tree as once `TMP_DIR` exists |
| `UploadSession.FreshStore` | src/upload.php:133-163 | on a fresh install, a request for a part ends exactly as it does once `TMP_DIR` exists |
| `UploadSession.LastArrival` | src/upload.php:128-163 | from either starting state, the request bringing part `k` after earlier successful arrivals succeeds, and either finishes the upload or holds the parts that arrived |
| `UploadSession.SingleRequest` | src/upload.php:128-163 | a request carrying one file ends as that one loop iteration does |
| `UploadSession.ReplayHolds` | src/upload.php:128-163 | from either starting state (`TMP_DIR` in place with nothing of the upload held, or a fresh install), every request succeeds while a part is missing, and after the first request the server holds exactly the parts that arrived, in any order and with retries |
| `UploadSession.ReplayAssembles` | src/upload.php:97-163 | from either starting state, whatever the arrival order and however many retries, the request bringing the last missing part leaves the destination holding the parts in index order and the temporary directory removed |

## Left out

- HTTP: `$_FILES` and `$_POST` become parameters. `_error`, which sends
  status 500 and stops the script, becomes a failure result that ends the
  request. Response texts are not modelled.
- Logging (`_log`, lines 35-47, called at line 104) is left out. When
  `TMP_DIR/upload_log.txt` exists and is writable, the script appends a line
  to it for each part written. That file lies inside the modelled tree, so the
  "every other path is untouched" frames (`Assembly.CreatedFileContent`,
  `Assembly.CleanUpEffect`, `UploadScript.StoreChunkFrame`,
  `UploadSession.ArrivalStep`) hold of the script apart from that log file.
- The timezone setting and the path constants are left out; the upload root
  is a parameter.
- The `is_writable` checks (lines 128 and 151) are given booleans, not file
  system permissions. `mkdir` modes are ignored.
- Failures of `fopen`, `move_uploaded_file` and `rename` come only from the
  shape of the tree; I/O errors and disk-full conditions are not modelled.
- `move_uploaded_file` is modelled as "the uploaded bytes become this file";
  PHP's temporary upload file and its checks are not modelled.
- `scandir` returns a set of names. Its ordering and its `.` and `..` entries
  are not modelled, so the loops skip nothing.
- Path components are taken as given. Names containing `/`, empty names,
  `.` and `..` are not interpreted as the operating system would.
- `stripos` folds only ASCII letters; multibyte case folding is not modelled.
  An empty needle matches at offset 0, as `stripos` does from PHP 8.0 on;
  PHP 5 and 7 return `false` there. The case arises only for an empty file
  name.
- PHP's conversion of posted strings to numbers is not modelled. Chunk and
  total sizes are integers, and the threshold is unbounded integer arithmetic.
- `file_get_contents` on a missing part or on a directory yields no bytes, as
  `fwrite` of `false` writes nothing; PHP's warnings are not modelled.
- Concurrency between parallel requests, which the `_UNUSED` rename tries to
  dodge, is not modelled. Every request runs alone.
- `UploadSession.ReplayAssembles` assumes the client cuts the file as the
  comment at line 97 says and sends every part with error code 0. It does not
  cover an upload that keeps sending parts after its file is assembled.
- `UploadSession.ReplayHolds` and `UploadSession.ReplayAssembles` start from
  one of two states, described under "How the model is built":
  - `TMP_DIR` exists, `TMP_DIR/<identifier>` is absent or empty, and the
    destination is not a directory;
  - a fresh install, where `TMP_DIR` is absent, no file stands on the way to
    it, and the file is not named `tmp`.

  Other starts are not covered. Examples are a file at `TMP_DIR`, leftovers
  of another upload under the same identifier, and a directory where the
  final file goes.
