/**
 * The script itself (src/upload.php:128-163): check that the upload
 * directory is writable, then for every uploaded file of the request store
 * it as one part in the upload's temporary directory and try to assemble the
 * whole file. Any `_error` ends the request with HTTP 500.
 */
module UploadScript {
  import opened Common
  import opened Text
  import opened FileSystem
  import opened RecursiveDelete
  import opened Assembly

  /** The `$_POST` fields sent with every chunk. The chunk number is the raw posted string. */
  datatype ChunkRequest = ChunkRequest(
    identifier: string,
    fileName: string,
    chunkNumber: string,
    chunkSize: int,
    totalSize: int)

  /** One `$_FILES` entry: PHP's upload error code and the uploaded bytes. */
  datatype UploadedFile = UploadedFile(error: int, payload: Bytes)

  /** The answers of the `is_writable` checks, which the model takes as given. */
  datatype Permissions = Permissions(uploadDirWritable: bool, tmpDirWritable: bool)

  /** The reasons `_error` is called. */
  datatype Failure =
    | NoUploadPermission      // lines 128-130 and 151-153
    | UploadError(code: int)  // lines 136-140
    | ChunkNotSaved           // lines 156-158
    | DestinationNotCreated   // lines 107-111

  /** The end of a request: it ran through, or `_error` stopped it. */
  datatype Response = Success | Failed(failure: Failure)

  /** Where the chunk of this request is stored: `TMP_DIR/<identifier>/<fileName>.part<chunkNumber>`. */
  function ChunkPath(uploadDir: Path, req: ChunkRequest): (r: Path)
    ensures |r| == |uploadDir| + 3 && Parent(r) == ChunkDir(uploadDir, req.identifier)
    ensures Stripos(r[|r| - 1], req.fileName) == Some(0)
  {
    ChunkDir(uploadDir, req.identifier) + [PartName(req.fileName, req.chunkNumber)]
  }

  /**
   * Lines 147-149: `if (!is_dir($temp_dir)) mkdir($temp_dir, 0777, true);`
   * An existing directory is left alone; otherwise every entry is kept and
   * only directories on the way to `dir` are added.
   */
  function EnsureDir(m: Tree, dir: Path): (r: Tree)
    ensures DirAt(m, dir) ==> r == m
    ensures forall p :: p in m ==> p in r && r[p] == m[p]
    ensures forall p :: p in r && p !in m ==> r[p] == Dir && IsPrefix(p, dir)
  {
    if DirAt(m, dir) then m else Mkdirs(m, dir)
  }

  /**
   * Lines 136-158: the tree and the failure, if any, after storing one
   * uploaded file as a part. A file with an upload error changes nothing; a
   * stored part holds exactly the uploaded bytes.
   */
  function StoreChunkSpec(m: Tree, uploadDir: Path, perms: Permissions, req: ChunkRequest,
                          file: UploadedFile): (r: (Tree, Option<Failure>))
    ensures file.error != 0 ==> r == (m, Some(UploadError(file.error)))
    ensures r.1 == None ==> ChunkPath(uploadDir, req) in r.0 && r.0[ChunkPath(uploadDir, req)] == File(file.payload)
  {
    if file.error != 0 then (m, Some(UploadError(file.error)))
    else
      var m1 := EnsureDir(m, ChunkDir(uploadDir, req.identifier));
      if !perms.tmpDirWritable then (m1, Some(NoUploadPermission))
      else if !CanCreate(m1, ChunkPath(uploadDir, req)) then (m1, Some(ChunkNotSaved))
      else (m1[ChunkPath(uploadDir, req) := File(file.payload)], None)
  }

  /**
   * Storing a part replaces only that entry: everything that existed keeps
   * its content except the part, and the only new entries are the part and
   * the directories on the way to the temporary directory.
   */
  lemma StoreChunkFrame(m: Tree, uploadDir: Path, perms: Permissions, req: ChunkRequest, file: UploadedFile)
    ensures var r := StoreChunkSpec(m, uploadDir, perms, req, file).0;
      && (forall p :: p in m && p != ChunkPath(uploadDir, req) ==> p in r && r[p] == m[p])
      && (forall p :: p in r && p !in m ==>
            p == ChunkPath(uploadDir, req) || (r[p] == Dir && IsPrefix(p, ChunkDir(uploadDir, req.identifier))))
      && (WellFormed(m) ==> WellFormed(r))
  {
    var tempDir := ChunkDir(uploadDir, req.identifier);
    var m1 := EnsureDir(m, tempDir);
    if WellFormed(m) {
      MkdirsWellFormed(m, tempDir);
      assert WellFormed(m1);
      var destFile := ChunkPath(uploadDir, req);
      if CanCreate(m1, destFile) {
        var m2 := m1[destFile := File(file.payload)];
        forall p | p in m2 ensures ParentIsDir(m2, p) {
          if p != destFile {
            assert ParentIsDir(m1, p);
          }
        }
      }
    }
  }

  /** Lines 136-158: store one uploaded file as a part. */
  method StoreChunk(fs: Fs, uploadDir: Path, perms: Permissions, req: ChunkRequest, file: UploadedFile)
    returns (failure: Option<Failure>)
    requires fs.Valid()
    modifies fs
    ensures fs.Valid()
    ensures (fs.entries, failure) == StoreChunkSpec(old(fs.entries), uploadDir, perms, req, file)
  {
    if file.error != 0 {
      return Some(UploadError(file.error));
    }
    var tempDir := ChunkDir(uploadDir, req.identifier);
    var destFile := tempDir + [PartName(req.fileName, req.chunkNumber)];
    if !fs.IsDir(tempDir) {
      fs.Mkdir(tempDir);
    }
    if !perms.tmpDirWritable {
      return Some(NoUploadPermission);
    }
    var moved := fs.MoveUploadedFile(file.payload, destFile);
    if !moved {
      return Some(ChunkNotSaved);
    }
    return None;
  }

  /** One iteration of the loop over `$_FILES` (lines 133-163). */
  function FileStep(m: Tree, uploadDir: Path, perms: Permissions, req: ChunkRequest,
                    file: UploadedFile): (Tree, Option<Failure>)
  {
    var (m1, failure) := StoreChunkSpec(m, uploadDir, perms, req, file);
    if failure.Some? then (m1, failure)
    else
      var (m2, outcome) := CreateFileSpec(m1, uploadDir, req.identifier, req.fileName, req.chunkSize, req.totalSize);
      (m2, if outcome == CannotCreateDestination then Some(DestinationNotCreated) else None)
  }

  /** One iteration of the loop over `$_FILES`: store the part, then try to assemble. */
  method HandleFile(fs: Fs, uploadDir: Path, perms: Permissions, req: ChunkRequest, file: UploadedFile)
    returns (failure: Option<Failure>)
    requires fs.Valid()
    modifies fs
    ensures fs.Valid()
    ensures (fs.entries, failure) == FileStep(old(fs.entries), uploadDir, perms, req, file)
  {
    failure := StoreChunk(fs, uploadDir, perms, req, file);
    if failure.Some? {
      return;
    }
    var outcome := CreateFileFromChunks(fs, uploadDir, req.identifier, req.fileName, req.chunkSize, req.totalSize);
    if outcome == CannotCreateDestination {
      failure := Some(DestinationNotCreated);
    }
  }

  /** The loop over `$_FILES`, stopping at the first failure. */
  function FilesSpec(m: Tree, uploadDir: Path, perms: Permissions, req: ChunkRequest,
                     files: seq<UploadedFile>): (Tree, Response)
    decreases |files|
  {
    if files == [] then (m, Success)
    else
      var (m1, failure) := FileStep(m, uploadDir, perms, req, files[0]);
      if failure.Some? then (m1, Failed(failure.value))
      else FilesSpec(m1, uploadDir, perms, req, files[1..])
  }

  /** A whole request (lines 128-163). */
  function RequestSpec(m: Tree, uploadDir: Path, perms: Permissions, req: ChunkRequest,
                       files: seq<UploadedFile>): (Tree, Response)
  {
    if !perms.uploadDirWritable then (m, Failed(NoUploadPermission))
    else FilesSpec(m, uploadDir, perms, req, files)
  }

  /** The script, run once for a request carrying `req` and the uploaded `files`. */
  method HandleRequest(fs: Fs, uploadDir: Path, perms: Permissions, req: ChunkRequest,
                       files: seq<UploadedFile>) returns (response: Response)
    requires fs.Valid()
    modifies fs
    ensures fs.Valid()
    ensures (fs.entries, response) == RequestSpec(old(fs.entries), uploadDir, perms, req, files)
  {
    if !perms.uploadDirWritable {
      return Failed(NoUploadPermission);
    }
    ghost var m0 := fs.entries;
    var i := 0;
    while i < |files|
      invariant 0 <= i <= |files|
      invariant fs.Valid()
      invariant FilesSpec(m0, uploadDir, perms, req, files) == FilesSpec(fs.entries, uploadDir, perms, req, files[i..])
    {
      assert files[i..][1..] == files[i + 1..];
      var failure := HandleFile(fs, uploadDir, perms, req, files[i]);
      if failure.Some? {
        return Failed(failure.value);
      }
      i := i + 1;
    }
    return Success;
  }

  /** Running the loop over `done + rest` runs it over `done` and, unless that failed, over `rest` from where it left off. */
  lemma {:induction false} FilesSpecAppend(m: Tree, uploadDir: Path, perms: Permissions, req: ChunkRequest,
                                           done: seq<UploadedFile>, rest: seq<UploadedFile>)
    ensures FilesSpec(m, uploadDir, perms, req, done).1.Failed? ==>
      FilesSpec(m, uploadDir, perms, req, done + rest) == FilesSpec(m, uploadDir, perms, req, done)
    ensures FilesSpec(m, uploadDir, perms, req, done).1.Success? ==>
      FilesSpec(m, uploadDir, perms, req, done + rest) == FilesSpec(FilesSpec(m, uploadDir, perms, req, done).0, uploadDir, perms, req, rest)
    decreases |done|
  {
    if done != [] {
      assert (done + rest)[0] == done[0];
      assert (done + rest)[1..] == done[1..] + rest;
      var step := FileStep(m, uploadDir, perms, req, done[0]);
      if step.1.None? {
        FilesSpecAppend(step.0, uploadDir, perms, req, done[1..], rest);
      }
    } else {
      assert done + rest == rest;
    }
  }

  /**
   * Lines 136-140: a file with an upload error ends the request with that
   * error; the tree is what the files before it left, so nothing of that
   * file or of any file after it is stored.
   */
  lemma UploadErrorEndsRequest(m: Tree, uploadDir: Path, perms: Permissions, req: ChunkRequest,
                               files: seq<UploadedFile>, i: nat)
    requires i < |files| && files[i].error != 0 && perms.uploadDirWritable
    requires FilesSpec(m, uploadDir, perms, req, files[..i]).1 == Success
    ensures RequestSpec(m, uploadDir, perms, req, files) ==
      (FilesSpec(m, uploadDir, perms, req, files[..i]).0, Failed(UploadError(files[i].error)))
  {
    var m1 := FilesSpec(m, uploadDir, perms, req, files[..i]).0;
    FilesFrom(m, uploadDir, perms, req, files, i);
    ErrorFirst(m1, uploadDir, perms, req, files[i..]);
  }

  /** After a successful prefix `files[..i]` the loop goes on with `files[i..]` from the tree it left. */
  lemma FilesFrom(m: Tree, uploadDir: Path, perms: Permissions, req: ChunkRequest,
                  files: seq<UploadedFile>, i: nat)
    requires i <= |files| && FilesSpec(m, uploadDir, perms, req, files[..i]).1 == Success
    ensures FilesSpec(m, uploadDir, perms, req, files) ==
      FilesSpec(FilesSpec(m, uploadDir, perms, req, files[..i]).0, uploadDir, perms, req, files[i..])
  {
    assert files == files[..i] + files[i..];
    FilesSpecAppend(m, uploadDir, perms, req, files[..i], files[i..]);
  }

  /** Lines 136-140 on the first file: the loop stops before storing anything. */
  lemma ErrorFirst(m: Tree, uploadDir: Path, perms: Permissions, req: ChunkRequest, files: seq<UploadedFile>)
    requires files != [] && files[0].error != 0
    ensures FilesSpec(m, uploadDir, perms, req, files) == (m, Failed(UploadError(files[0].error)))
  {
    assert FileStep(m, uploadDir, perms, req, files[0]) == (m, Some(UploadError(files[0].error)));
  }

  /** A request that carries any file with an upload error does not succeed. */
  lemma UploadErrorFailsRequest(m: Tree, uploadDir: Path, perms: Permissions, req: ChunkRequest,
                                files: seq<UploadedFile>, i: nat)
    requires i < |files| && files[i].error != 0
    ensures RequestSpec(m, uploadDir, perms, req, files).1.Failed?
  {
    if perms.uploadDirWritable {
      var (m1, response) := FilesSpec(m, uploadDir, perms, req, files[..i]);
      assert files == files[..i] + files[i..];
      FilesSpecAppend(m, uploadDir, perms, req, files[..i], files[i..]);
      ErrorFirst(m1, uploadDir, perms, req, files[i..]);
    }
  }
}
