/**
 * A whole upload as the Resumable.js client drives the script
 * (src/upload.php:2-13, 97, 133-163): the file is cut into parts the way the
 * comment above the completion test describes, and every part is sent in a
 * request of its own, in any order and possibly more than once. Each request
 * stores its part; the request that brings the last missing part assembles
 * the file from the parts in index order and removes the temporary directory.
 */
module UploadSession {
  import opened Common
  import opened Text
  import opened FileSystem
  import opened RecursiveDelete
  import opened Assembly
  import opened UploadScript

  /** One upload: the fields every one of its requests carries, and its parts in index order. */
  datatype Upload = Upload(
    identifier: string,
    fileName: string,
    chunkSize: int,
    totalSize: int,
    chunks: seq<Bytes>)

  /**
   * How many parts the client cuts a file into: the total size divided by
   * the chunk size, rounded down, but at least one. The last part takes the
   * remainder, so it has between `chunkSize` and `2*chunkSize` bytes unless
   * the whole file is shorter than one chunk.
   */
  function PartTotal(chunkSize: int, totalSize: int): nat
    requires chunkSize > 0
  {
    if totalSize / chunkSize >= 1 then totalSize / chunkSize else 1
  }

  /** The upload is cut as the completion test expects. */
  predicate WellCut(u: Upload) {
    u.chunkSize > 0 && |u.chunks| == PartTotal(u.chunkSize, u.totalSize)
  }

  /** Once a part is stored, the completion test passes exactly when the count reaches `PartTotal`. */
  lemma ThresholdIsPartTotal(count: int, chunkSize: int, totalSize: int)
    requires chunkSize > 0 && count >= 1
    ensures ThresholdMet(count, chunkSize, totalSize) <==> count >= PartTotal(chunkSize, totalSize)
  {
    ThresholdMeaning(count, chunkSize, totalSize);
  }

  /** The `$_POST` fields of the request that sends part `k`. */
  function PartRequest(u: Upload, k: nat): ChunkRequest {
    ChunkRequest(u.identifier, u.fileName, Decimal(k), u.chunkSize, u.totalSize)
  }

  /** The `$_FILES` entry of that request: no error, the bytes of part `k`. */
  function PartFile(u: Upload, k: nat): UploadedFile
    requires 1 <= k <= |u.chunks|
  {
    UploadedFile(0, u.chunks[k - 1])
  }

  /** The indices `1..n`. */
  function Indices(n: nat): set<nat>
    decreases n
  {
    if n == 0 then {} else Indices(n - 1) + {n}
  }

  lemma {:induction false} IndicesMember(n: nat, i: nat)
    ensures i in Indices(n) <==> 1 <= i <= n
    decreases n
  {
    if n > 0 {
      IndicesMember(n - 1, i);
    }
  }

  lemma {:induction false} IndicesCount(n: nat)
    ensures |Indices(n)| == n
    decreases n
  {
    if n > 0 {
      IndicesCount(n - 1);
      IndicesMember(n - 1, n);
    }
  }

  /** A set of indices among `1..n` has at most `n` members, and `n` only when it is all of them. */
  lemma AllIndices(s: set<nat>, n: nat)
    requires forall i :: i in s ==> 1 <= i <= n
    ensures |s| <= n
    ensures |s| == n <==> s == Indices(n)
  {
    forall i | i in s ensures i in Indices(n) {
      IndicesMember(n, i);
    }
    IndicesCount(n);
    SubsetCard(s, Indices(n));
    if s != Indices(n) {
      assert Indices(n) - s != {};
      var x :| x in Indices(n) - s;
      SubsetCard(s, Indices(n) - {x});
    }
  }

  /**
   * The server midway through an upload: the parts in `held` are stored
   * with their bytes and are all the temporary directory of the upload
   * holds (that directory need not exist while nothing is held); the `tmp`
   * directory exists and no directory stands where the final file goes.
   */
  ghost predicate Holding(m: Tree, uploadDir: Path, u: Upload, held: set<nat>) {
    var dir := ChunkDir(uploadDir, u.identifier);
    && WellFormed(m)
    && DirAt(m, TmpDir(uploadDir))
    && !DirAt(m, Destination(uploadDir, u.fileName))
    && (forall i :: i in held ==> 1 <= i <= |u.chunks|)
    && (dir in m ==> DirAt(m, dir) && Children(m, dir) == PartNames(u.fileName, held))
    && (held != {} ==> dir in m)
    && PartsStored(m, dir, u, held)
  }

  /**
   * A fresh install: `TMP_DIR` does not exist yet and no file stands on the
   * way to it, so the recursive `mkdir` of the first request creates it. The
   * final file must not be named `tmp`, or `mkdir` would put a directory
   * where it goes.
   */
  ghost predicate Fresh(m: Tree, uploadDir: Path, u: Upload) {
    var tmp := TmpDir(uploadDir);
    && WellFormed(m)
    && (forall k :: 1 <= k <= |tmp| ==> !FileAt(m, tmp[..k]))
    && tmp !in m
    && u.fileName != "tmp"
    && !DirAt(m, Destination(uploadDir, u.fileName))
  }

  /** A state an upload can start from: nothing of it held yet, with or without `TMP_DIR`. */
  ghost predicate Ready(m: Tree, uploadDir: Path, u: Upload) {
    Holding(m, uploadDir, u, {}) || Fresh(m, uploadDir, u)
  }

  /** Every part in `held` is stored in `dir` with its bytes. */
  ghost predicate PartsStored(m: Tree, dir: Path, u: Upload, held: set<nat>)
    requires forall i :: i in held ==> 1 <= i <= |u.chunks|
  {
    forall i :: i in held ==>
      PartPath(dir, u.fileName, i) in m && m[PartPath(dir, u.fileName, i)] == File(u.chunks[i - 1])
  }

  /** Storing part `k` keeps the other stored parts and adds `k`. */
  lemma StorePartKeepsParts(m: Tree, e: Tree, dir: Path, u: Upload, held: set<nat>, k: nat)
    requires forall i :: i in held ==> 1 <= i <= |u.chunks|
    requires 1 <= k <= |u.chunks| && PartsStored(m, dir, u, held)
    requires forall p :: p in m ==> p in e && e[p] == m[p]
    ensures PartsStored(e[PartPath(dir, u.fileName, k) := File(u.chunks[k - 1])], dir, u, held + {k})
  {
    forall i | i in held && i != k ensures PartPath(dir, u.fileName, i) != PartPath(dir, u.fileName, k) {
      if PartPath(dir, u.fileName, i) == PartPath(dir, u.fileName, k) {
        PartPathInjective(dir, u.fileName, i, k);
      }
    }
  }

  /** The upload is over: the final file holds the parts in index order and the temporary directory is gone. */
  ghost predicate Finished(m: Tree, uploadDir: Path, u: Upload) {
    var dest := Destination(uploadDir, u.fileName);
    && WellFormed(m)
    && dest in m && m[dest] == File(Concat(u.chunks))
    && forall p :: IsPrefix(ChunkDir(uploadDir, u.identifier), p) ==> p !in m
  }

  /** `m1` agrees with `m0` on every path outside the tree at `d`. */
  ghost predicate SameOutside(m0: Tree, m1: Tree, d: Path) {
    forall p :: !IsPrefix(d, p) ==> (p in m1 <==> p in m0) && (p in m1 ==> m1[p] == m0[p])
  }

  /** Lines 147-149 in a holding state: the temporary directory exists afterwards, and nothing else is new. */
  lemma TempDirReady(m: Tree, uploadDir: Path, u: Upload, held: set<nat>)
    requires Holding(m, uploadDir, u, held)
    ensures var dir := ChunkDir(uploadDir, u.identifier);
      var e := EnsureDir(m, dir);
      && WellFormed(e)
      && DirAt(e, dir)
      && Children(e, dir) == PartNames(u.fileName, held)
      && (forall p :: p in m ==> p in e && e[p] == m[p])
      && (forall p :: p in e && p !in m ==> p == dir)
  {
    var dir := ChunkDir(uploadDir, u.identifier);
    var tmp := TmpDir(uploadDir);
    if !DirAt(m, dir) {
      assert dir !in m && held == {};
      forall k | 1 <= k < |dir| ensures DirAt(m, dir[..k]) {
        assert dir[..k] == tmp[..k];
        if k < |tmp| {
          AncestorIsDir(m, tmp, k);
        } else {
          assert tmp[..k] == tmp;
        }
      }
      assert dir[..|dir|] == dir;
      MkdirsCreates(m, dir);
      MkdirsWellFormed(m, dir);
      var e := Mkdirs(m, dir);
      forall p | p in e && p !in m ensures p == dir {
        assert p == dir[..|p|];
      }
      forall c ensures c !in Children(e, dir) {
        ChildrenMember(e, dir, c);
        assert Parent(dir + [c]) == dir;
      }
    }
  }

  /** The store step of a request bringing part `k`: it succeeds, and `k` joins the held parts. */
  lemma StorePart(m: Tree, uploadDir: Path, perms: Permissions, u: Upload, held: set<nat>, k: nat)
    requires Holding(m, uploadDir, u, held) && perms.tmpDirWritable && 1 <= k <= |u.chunks|
    ensures var (m1, failure) := StoreChunkSpec(m, uploadDir, perms, PartRequest(u, k), PartFile(u, k));
      && failure == None
      && Holding(m1, uploadDir, u, held + {k})
      && SameOutside(m, m1, ChunkDir(uploadDir, u.identifier))
  {
    var dir := ChunkDir(uploadDir, u.identifier);
    var part := PartPath(dir, u.fileName, k);
    TempDirReady(m, uploadDir, u, held);
    StoreSucceeds(m, uploadDir, perms, u, held, k);
    StoreChunkFrame(m, uploadDir, perms, PartRequest(u, k), PartFile(u, k));
    var e := EnsureDir(m, dir);
    HoldingAfterStore(m, e, e[part := File(u.chunks[k - 1])], uploadDir, u, held, k);
  }

  /** With the temporary directory in place, `move_uploaded_file` can create part `k`. */
  lemma StoreSucceeds(m: Tree, uploadDir: Path, perms: Permissions, u: Upload, held: set<nat>, k: nat)
    requires Holding(m, uploadDir, u, held) && perms.tmpDirWritable && 1 <= k <= |u.chunks|
    requires DirAt(EnsureDir(m, ChunkDir(uploadDir, u.identifier)), ChunkDir(uploadDir, u.identifier))
    requires Children(EnsureDir(m, ChunkDir(uploadDir, u.identifier)), ChunkDir(uploadDir, u.identifier)) == PartNames(u.fileName, held)
    ensures var dir := ChunkDir(uploadDir, u.identifier);
      StoreChunkSpec(m, uploadDir, perms, PartRequest(u, k), PartFile(u, k)) ==
        (EnsureDir(m, dir)[PartPath(dir, u.fileName, k) := File(u.chunks[k - 1])], None)
  {
    var dir := ChunkDir(uploadDir, u.identifier);
    var f := u.fileName;
    var name := PartName(f, Decimal(k));
    var part := PartPath(dir, f, k);
    assert ChunkPath(uploadDir, PartRequest(u, k)) == part;
    var e := EnsureDir(m, dir);
    assert Parent(part) == dir;
    if part in e {
      ChildrenMember(e, dir, name);
      var i :| i in held && PartName(f, Decimal(i)) == name;
      PartNameInjective(f, Decimal(i), Decimal(k));
      DecimalInjective(i, k);
    }
    assert CanCreate(e, part);
  }

  /** After part `k` is written into the ready temporary directory, the server holds `held + {k}`. */
  lemma HoldingAfterStore(m: Tree, e: Tree, m1: Tree, uploadDir: Path, u: Upload, held: set<nat>, k: nat)
    requires Holding(m, uploadDir, u, held) && 1 <= k <= |u.chunks|
    requires var dir := ChunkDir(uploadDir, u.identifier);
      && DirAt(e, dir)
      && Children(e, dir) == PartNames(u.fileName, held)
      && (forall p :: p in m ==> p in e && e[p] == m[p])
      && (forall p :: p in e && p !in m ==> p == dir)
      && m1 == e[PartPath(dir, u.fileName, k) := File(u.chunks[k - 1])]
    requires WellFormed(m1)
    ensures Holding(m1, uploadDir, u, held + {k})
    ensures SameOutside(m, m1, ChunkDir(uploadDir, u.identifier))
  {
    var dir := ChunkDir(uploadDir, u.identifier);
    var f := u.fileName;
    var name := PartName(f, Decimal(k));
    assert PartPath(dir, f, k) == dir + [name];
    assert PartNames(f, held + {k}) == PartNames(f, held) + {name};
    forall c ensures c in Children(m1, dir) <==> c in PartNames(f, held + {k}) {
      ChildrenMember(m1, dir, c);
      ChildrenMember(e, dir, c);
    }
    StorePartKeepsParts(m, e, dir, u, held, k);
  }

  /** The assembly step once the held parts include at least one: it waits, or it completes the upload. */
  lemma AssemblePart(m: Tree, uploadDir: Path, u: Upload, held: set<nat>)
    requires WellCut(u) && Holding(m, uploadDir, u, held) && held != {}
    ensures var (m1, outcome) := CreateFileSpec(m, uploadDir, u.identifier, u.fileName, u.chunkSize, u.totalSize);
      var dir := ChunkDir(uploadDir, u.identifier);
      && (held != Indices(|u.chunks|) ==> outcome == NotYetComplete && m1 == m)
      && (held == Indices(|u.chunks|) ==> outcome == FileCreated && Finished(m1, uploadDir, u))
      && (forall p :: p != Destination(uploadDir, u.fileName) && !IsPrefix(dir, p) && !IsPrefix(UnusedDir(dir), p) ==>
            (p in m1 <==> p in m) && (p in m1 ==> m1[p] == m[p]))
  {
    var dir := ChunkDir(uploadDir, u.identifier);
    var dest := Destination(uploadDir, u.fileName);
    var n := |u.chunks|;
    assert Listing(m, dir) == PartNames(u.fileName, held);
    CountOfExactParts(m, dir, u.fileName, held);
    AllIndices(held, n);
    ThresholdIsPartTotal(|held|, u.chunkSize, u.totalSize);
    if held == Indices(n) {
      var tmp := TmpDir(uploadDir);
      assert ParentIsDir(m, tmp);
      if |uploadDir| > 0 {
        assert Parent(tmp) == uploadDir && Parent(dest) == uploadDir;
      }
      assert CanCreate(m, dest);
      CreatedFileContent(m, uploadDir, u.identifier, u.fileName, u.chunkSize, u.totalSize);
      forall i | 1 <= i <= n
        ensures PartPath(dir, u.fileName, i) in m && m[PartPath(dir, u.fileName, i)] == File(u.chunks[i - 1])
      {
        IndicesMember(n, i);
      }
      AssembledAllParts(m, dir, u.fileName, u.chunks);
    }
  }

  /** After a request: the upload is finished once every part has arrived, and otherwise the arrived parts are held. */
  ghost predicate Progressed(m: Tree, uploadDir: Path, u: Upload, arrived: set<nat>) {
    && (arrived != Indices(|u.chunks|) ==> Holding(m, uploadDir, u, arrived))
    && (arrived == Indices(|u.chunks|) ==> Finished(m, uploadDir, u))
  }

  /**
   * One request bringing part `k` (lines 133-163, one file): it succeeds; if
   * `k` was the last missing part the upload is finished, otherwise `k` has
   * joined the held parts. Nothing outside the temporary directory, its
   * `_UNUSED` sibling and the final file changes.
   */
  lemma ArrivalStep(m: Tree, uploadDir: Path, perms: Permissions, u: Upload, held: set<nat>, k: nat)
    requires WellCut(u) && Holding(m, uploadDir, u, held) && perms.tmpDirWritable && 1 <= k <= |u.chunks|
    ensures var (m1, failure) := FileStep(m, uploadDir, perms, PartRequest(u, k), PartFile(u, k));
      var dir := ChunkDir(uploadDir, u.identifier);
      && failure == None
      && Progressed(m1, uploadDir, u, held + {k})
      && (forall p :: p != Destination(uploadDir, u.fileName) && !IsPrefix(dir, p) && !IsPrefix(UnusedDir(dir), p) ==>
            (p in m1 <==> p in m) && (p in m1 ==> m1[p] == m[p]))
  {
    StorePart(m, uploadDir, perms, u, held, k);
    var ms := StoreChunkSpec(m, uploadDir, perms, PartRequest(u, k), PartFile(u, k)).0;
    AssemblePart(ms, uploadDir, u, held + {k});
  }

  /** On a fresh install the first `mkdir` creates `TMP_DIR`, and the server then holds nothing. */
  lemma FreshHolding(m: Tree, uploadDir: Path, u: Upload)
    requires Fresh(m, uploadDir, u)
    ensures Holding(Mkdirs(m, TmpDir(uploadDir)), uploadDir, u, {})
  {
    var tmp := TmpDir(uploadDir);
    var dir := ChunkDir(uploadDir, u.identifier);
    var dest := Destination(uploadDir, u.fileName);
    var t := Mkdirs(m, tmp);
    MkdirsWellFormed(m, tmp);
    MkdirsCreates(m, tmp);
    if dir in t {
      assert ParentIsDir(m, dir) by { assert dir in m; }
      assert false;
    }
  }

  /** On a fresh install the recursive `mkdir` of line 148 makes what it makes once `TMP_DIR` exists. */
  lemma FreshEnsureDir(m: Tree, uploadDir: Path, u: Upload)
    requires Fresh(m, uploadDir, u)
    ensures var dir := ChunkDir(uploadDir, u.identifier);
      EnsureDir(m, dir) == EnsureDir(Mkdirs(m, TmpDir(uploadDir)), dir)
  {
    var tmp := TmpDir(uploadDir);
    var dir := ChunkDir(uploadDir, u.identifier);
    var t := Mkdirs(m, tmp);
    FreshHolding(m, uploadDir, u);
    assert Parent(dir) == tmp;
    MkdirsExisting(t, tmp);
  }

  /**
   * On a fresh install, a request for part `k` does what it does once
   * `TMP_DIR` exists: the recursive `mkdir` creates `TMP_DIR` on the way.
   */
  lemma FreshStore(m: Tree, uploadDir: Path, perms: Permissions, u: Upload, k: nat)
    requires Fresh(m, uploadDir, u) && 1 <= k <= |u.chunks|
    ensures FileStep(m, uploadDir, perms, PartRequest(u, k), PartFile(u, k)) ==
      FileStep(Mkdirs(m, TmpDir(uploadDir)), uploadDir, perms, PartRequest(u, k), PartFile(u, k))
  {
    FreshEnsureDir(m, uploadDir, u);
    var t := Mkdirs(m, TmpDir(uploadDir));
    assert StoreChunkSpec(m, uploadDir, perms, PartRequest(u, k), PartFile(u, k)) ==
      StoreChunkSpec(t, uploadDir, perms, PartRequest(u, k), PartFile(u, k));
  }

  /** The indices among `arrivals`. */
  function Arrived(arrivals: seq<nat>): set<nat>
    decreases |arrivals|
  {
    if arrivals == [] then {} else Arrived(arrivals[..|arrivals| - 1]) + {arrivals[|arrivals| - 1]}
  }

  /** Every arrival names a part of the upload. */
  predicate InRange(u: Upload, arrivals: seq<nat>) {
    forall j :: 0 <= j < |arrivals| ==> 1 <= arrivals[j] <= |u.chunks|
  }

  /** The tree and the last response after one request per arrival, in order, stopping at a failure. */
  function Replay(m: Tree, uploadDir: Path, perms: Permissions, u: Upload, arrivals: seq<nat>): (Tree, Response)
    requires InRange(u, arrivals)
    decreases |arrivals|
  {
    if arrivals == [] then (m, Success)
    else
      var previous := Replay(m, uploadDir, perms, u, arrivals[..|arrivals| - 1]);
      var k := arrivals[|arrivals| - 1];
      if previous.1.Failed? then previous
      else RequestSpec(previous.0, uploadDir, perms, PartRequest(u, k), [PartFile(u, k)])
  }

  /** A request carrying only part `k` ends as the one loop iteration does. */
  lemma SingleRequest(m: Tree, uploadDir: Path, perms: Permissions, u: Upload, k: nat)
    requires perms.uploadDirWritable && 1 <= k <= |u.chunks|
    ensures var (m1, failure) := FileStep(m, uploadDir, perms, PartRequest(u, k), PartFile(u, k));
      RequestSpec(m, uploadDir, perms, PartRequest(u, k), [PartFile(u, k)]) ==
        (m1, if failure.Some? then Failed(failure.value) else Success)
  {
    var (m1, failure) := FileStep(m, uploadDir, perms, PartRequest(u, k), PartFile(u, k));
    assert [PartFile(u, k)][1..] == [];
    assert FilesSpec(m1, uploadDir, perms, PartRequest(u, k), []) == (m1, Success);
  }

  /**
   * While a part is still missing, every request succeeds and the server
   * holds exactly the parts that arrived. On a fresh install that holds from
   * the first request on; the state before it has no `TMP_DIR` yet.
   */
  lemma {:induction false} ReplayHolds(m: Tree, uploadDir: Path, perms: Permissions, u: Upload, arrivals: seq<nat>)
    requires WellCut(u) && Ready(m, uploadDir, u) && perms == Permissions(true, true)
    requires InRange(u, arrivals) && Arrived(arrivals) != Indices(|u.chunks|)
    ensures Replay(m, uploadDir, perms, u, arrivals).1 == Success
    ensures Holding(m, uploadDir, u, {}) || arrivals != [] ==>
      Holding(Replay(m, uploadDir, perms, u, arrivals).0, uploadDir, u, Arrived(arrivals))
    decreases |arrivals|
  {
    if arrivals != [] {
      var before := arrivals[..|arrivals| - 1];
      var k := arrivals[|arrivals| - 1];
      assert InRange(u, before);
      IndicesMember(|u.chunks|, k);
      assert Arrived(before) != Indices(|u.chunks|);
      ReplayHolds(m, uploadDir, perms, u, before);
      LastArrival(m, uploadDir, perms, u, before, k);
    }
  }

  /** The request for part `k` after the arrivals `before`, from a start the upload can begin from. */
  lemma LastArrival(m: Tree, uploadDir: Path, perms: Permissions, u: Upload, before: seq<nat>, k: nat)
    requires WellCut(u) && Ready(m, uploadDir, u) && perms == Permissions(true, true)
    requires InRange(u, before) && 1 <= k <= |u.chunks|
    requires Replay(m, uploadDir, perms, u, before).1 == Success
    requires Holding(m, uploadDir, u, {}) || before != [] ==>
      Holding(Replay(m, uploadDir, perms, u, before).0, uploadDir, u, Arrived(before))
    ensures var previous := Replay(m, uploadDir, perms, u, before).0;
      var (m1, failure) := FileStep(previous, uploadDir, perms, PartRequest(u, k), PartFile(u, k));
      && RequestSpec(previous, uploadDir, perms, PartRequest(u, k), [PartFile(u, k)]) == (m1, Success)
      && Progressed(m1, uploadDir, u, Arrived(before) + {k})
  {
    var previous := Replay(m, uploadDir, perms, u, before).0;
    SingleRequest(previous, uploadDir, perms, u, k);
    if Holding(m, uploadDir, u, {}) || before != [] {
      ArrivalStep(previous, uploadDir, perms, u, Arrived(before), k);
    } else {
      var t := Mkdirs(m, TmpDir(uploadDir));
      FreshHolding(m, uploadDir, u);
      FreshStore(m, uploadDir, perms, u, k);
      ArrivalStep(t, uploadDir, perms, u, {}, k);
    }
  }

  /**
   * Whatever the order of arrival and however many times a part is sent
   * again, the request that brings the last missing part leaves the final
   * file holding the parts in index order, and removes the temporary
   * directory; every request up to it succeeds.
   */
  lemma ReplayAssembles(m: Tree, uploadDir: Path, perms: Permissions, u: Upload, arrivals: seq<nat>)
    requires WellCut(u) && Ready(m, uploadDir, u) && perms == Permissions(true, true)
    requires InRange(u, arrivals) && arrivals != []
    requires Arrived(arrivals) == Indices(|u.chunks|)
    requires Arrived(arrivals[..|arrivals| - 1]) != Indices(|u.chunks|)
    ensures Replay(m, uploadDir, perms, u, arrivals).1 == Success
    ensures Finished(Replay(m, uploadDir, perms, u, arrivals).0, uploadDir, u)
  {
    var before := arrivals[..|arrivals| - 1];
    var k := arrivals[|arrivals| - 1];
    assert InRange(u, before);
    ReplayHolds(m, uploadDir, perms, u, before);
    LastArrival(m, uploadDir, perms, u, before, k);
  }
}
