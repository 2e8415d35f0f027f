/**
 * `createFileFromChunks` (src/upload.php:87-122): count the parts of a file
 * in its temporary directory, decide from the count whether the upload is
 * complete, and if so write the destination file from parts 1..n in
 * ascending order and remove the temporary directory.
 */
module Assembly {
  import opened Common
  import opened Text
  import opened FileSystem
  import opened RecursiveDelete

  /** `TMP_DIR`, the directory `tmp` inside the upload directory. */
  function TmpDir(uploadDir: Path): Path {
    uploadDir + ["tmp"]
  }

  /** The temporary directory of one upload: `TMP_DIR/<identifier>`. */
  function ChunkDir(uploadDir: Path, identifier: string): Path {
    TmpDir(uploadDir) + [identifier]
  }

  /** The name a part is stored under: `<fileName>.part<chunkNumber>`. */
  function PartName(fileName: string, chunkNumber: string): (r: string)
    ensures Stripos(r, fileName) == Some(0)
  {
    StriposOfExtension(fileName, ".part" + chunkNumber);
    fileName + ".part" + chunkNumber
  }

  /** Where the assembly loop looks for part `i`: the index rendered in decimal. */
  function PartPath(dir: Path, fileName: string, i: nat): (r: Path)
    ensures |r| == |dir| + 1 && Parent(r) == dir
  {
    dir + [PartName(fileName, Decimal(i))]
  }

  /** The final file: `UPLOAD_DIR/<fileName>`. */
  function Destination(uploadDir: Path, fileName: string): (r: Path)
    ensures |r| == |uploadDir| + 1 && Parent(r) == uploadDir
    ensures fileName != "tmp" <==> !IsPrefix(TmpDir(uploadDir), r)
  {
    var r := uploadDir + [fileName];
    assert r[..|r|] == r;
    assert IsPrefix(TmpDir(uploadDir), r) ==> r[|uploadDir|] == TmpDir(uploadDir)[|uploadDir|];
    r
  }

  /** `$temp_dir.'_UNUSED'`: the sibling the temporary directory is renamed to before deletion. */
  function UnusedDir(tempDir: Path): (r: Path)
    requires |tempDir| > 0
    ensures |r| == |tempDir| && Parent(r) == Parent(tempDir) && r != tempDir
  {
    var r := Parent(tempDir) + [tempDir[|tempDir| - 1] + "_UNUSED"];
    assert |r[|r| - 1]| != |tempDir[|tempDir| - 1]|;
    r
  }

  lemma PartNameInjective(fileName: string, a: string, b: string)
    requires PartName(fileName, a) == PartName(fileName, b)
    ensures a == b
  {
    var n := |fileName + ".part"|;
    assert a == PartName(fileName, a)[n..];
    assert b == PartName(fileName, b)[n..];
  }

  /** Distinct indices are read from distinct files. */
  lemma PartPathInjective(dir: Path, fileName: string, i: nat, j: nat)
    requires PartPath(dir, fileName, i) == PartPath(dir, fileName, j)
    ensures i == j
  {
    assert PartName(fileName, Decimal(i)) == PartPath(dir, fileName, i)[|dir|];
    PartNameInjective(fileName, Decimal(i), Decimal(j));
    DecimalInjective(i, j);
  }

  // ---------------------------------------------------------------------
  // Counting the parts (lines 89-94)
  // ---------------------------------------------------------------------

  /** The listed names that contain `fileName`, ignoring ASCII case (`stripos(...) !== false`). */
  function Matching(names: set<string>, fileName: string): set<string> {
    set c | c in names && Stripos(c, fileName).Some?
  }

  /** `$total_files` after the counting loop. */
  function PartCount(m: Tree, dir: Path, fileName: string): nat {
    |Matching(Listing(m, dir), fileName)|
  }

  /** The counting loop: one increment per listed entry whose name contains `fileName`. */
  method CountParts(fs: Fs, dir: Path, fileName: string) returns (totalFiles: nat)
    ensures totalFiles == |set c | c in Listing(fs.entries, dir) && Stripos(c, fileName).Some?|
  {
    var listing := fs.ScanDir(dir);
    totalFiles := 0;
    var rest := listing;
    while rest != {}
      invariant rest <= listing
      invariant totalFiles == |Matching(listing - rest, fileName)|
      decreases rest
    {
      var file :| file in rest;
      ghost var before := Matching(listing - rest, fileName);
      if Stripos(file, fileName).Some? {
        assert Matching(listing - (rest - {file}), fileName) == before + {file};
        totalFiles := totalFiles + 1;
      } else {
        assert Matching(listing - (rest - {file}), fileName) == before;
      }
      rest := rest - {file};
    }
    assert listing - rest == listing;
  }

  /** The names of parts `1..n` of a file, as the assembly loop spells them. */
  function PartNames(fileName: string, indices: set<nat>): set<string> {
    set i | i in indices :: PartName(fileName, Decimal(i))
  }

  /** Distinct indices give distinct part names, so `|indices|` parts are `|indices|` entries. */
  lemma {:induction false} PartNamesCount(fileName: string, indices: set<nat>)
    ensures |PartNames(fileName, indices)| == |indices|
    decreases indices
  {
    if indices != {} {
      var i :| i in indices;
      PartNamesCount(fileName, indices - {i});
      var name := PartName(fileName, Decimal(i));
      assert PartNames(fileName, indices) == PartNames(fileName, indices - {i}) + {name};
      if name in PartNames(fileName, indices - {i}) {
        var j :| j in indices - {i} && PartName(fileName, Decimal(j)) == name;
        PartNameInjective(fileName, Decimal(i), Decimal(j));
        DecimalInjective(i, j);
      }
    }
  }

  /** Every part name of a file contains the file name, so `stripos` counts it. */
  lemma PartNamesMatch(fileName: string, indices: set<nat>)
    ensures Matching(PartNames(fileName, indices), fileName) == PartNames(fileName, indices)
  {
    forall name | name in PartNames(fileName, indices) ensures Stripos(name, fileName).Some? {
      var i :| i in indices && name == PartName(fileName, Decimal(i));
    }
  }

  /** A directory holding exactly the parts `indices` of `fileName` makes the count `|indices|`. */
  lemma CountOfExactParts(m: Tree, dir: Path, fileName: string, indices: set<nat>)
    requires Listing(m, dir) == PartNames(fileName, indices)
    ensures PartCount(m, dir, fileName) == |indices|
  {
    PartNamesCount(fileName, indices);
    PartNamesMatch(fileName, indices);
  }

  /** The count never misses a stored part: it is at least the number of chunk numbers stored. */
  lemma CountCoversStoredParts(m: Tree, dir: Path, fileName: string, chunkNumbers: set<string>)
    requires DirAt(m, dir)
    requires forall k :: k in chunkNumbers ==> dir + [PartName(fileName, k)] in m
    ensures PartCount(m, dir, fileName) >= |chunkNumbers|
  {
    var names := set k | k in chunkNumbers :: PartName(fileName, k);
    forall name | name in names ensures name in Matching(Listing(m, dir), fileName) {
      var k :| k in chunkNumbers && PartName(fileName, k) == name;
      ChildrenMember(m, dir, name);
    }
    SubsetCard(names, Matching(Listing(m, dir), fileName));
    NamesOfChunkNumbers(fileName, chunkNumbers);
  }

  lemma {:induction false} NamesOfChunkNumbers(fileName: string, chunkNumbers: set<string>)
    ensures |set k | k in chunkNumbers :: PartName(fileName, k)| == |chunkNumbers|
    decreases chunkNumbers
  {
    if chunkNumbers != {} {
      var k :| k in chunkNumbers;
      NamesOfChunkNumbers(fileName, chunkNumbers - {k});
      var rest := set k' | k' in chunkNumbers - {k} :: PartName(fileName, k');
      assert (set k' | k' in chunkNumbers :: PartName(fileName, k')) == rest + {PartName(fileName, k)};
      if PartName(fileName, k) in rest {
        var k' :| k' in chunkNumbers - {k} && PartName(fileName, k') == PartName(fileName, k);
        PartNameInjective(fileName, k, k');
      }
    }
  }

  // ---------------------------------------------------------------------
  // The completion test (line 98)
  // ---------------------------------------------------------------------

  /** `$total_files * $chunkSize >= ($totalSize - $chunkSize + 1)` */
  predicate ThresholdMet(totalFiles: int, chunkSize: int, totalSize: int) {
    totalFiles * chunkSize >= totalSize - chunkSize + 1
  }

  /**
   * For a positive chunk size the test says that one more chunk would
   * overshoot the total size, that is, the count has reached the total size
   * divided by the chunk size, rounded down.
   */
  lemma ThresholdMeaning(totalFiles: int, chunkSize: int, totalSize: int)
    requires chunkSize > 0
    ensures ThresholdMet(totalFiles, chunkSize, totalSize) <==> (totalFiles + 1) * chunkSize > totalSize
    ensures ThresholdMet(totalFiles, chunkSize, totalSize) <==> totalFiles >= totalSize / chunkSize
  {
    NextMultiple(totalFiles, chunkSize);
    var q := totalSize / chunkSize;
    DivBounds(totalSize, chunkSize);
    if totalFiles >= q {
      MulMonotone(q + 1, totalFiles + 1, chunkSize);
      NextMultiple(q, chunkSize);
    } else {
      MulMonotone(totalFiles + 1, q, chunkSize);
    }
  }

  lemma NextMultiple(n: int, c: int)
    ensures (n + 1) * c == n * c + c
  {
  }

  /** `q*c <= t < (q+1)*c` for the quotient `q` of `t` by a positive `c`. */
  lemma DivBounds(t: int, c: int)
    requires c > 0
    ensures (t / c) * c <= t < (t / c) * c + c
  {
    assert t == (t / c) * c + t % c;
  }

  lemma MulMonotone(a: int, b: int, c: int)
    requires a <= b && c > 0
    ensures a * c <= b * c
  {
    assert b * c - a * c == (b - a) * c;
  }

  /**
   * The comment above the test: every part has `chunkSize` bytes except the
   * last, which has between `chunkSize` and `2*chunkSize`. For a file cut that
   * way into `n` parts the test passes once all `n` are counted and not before.
   */
  lemma ThresholdAtLastPart(n: nat, chunkSize: int, lastSize: int)
    requires n >= 1 && chunkSize > 0 && chunkSize <= lastSize < 2 * chunkSize
    ensures ThresholdMet(n, chunkSize, (n - 1) * chunkSize + lastSize)
    ensures !ThresholdMet(n - 1, chunkSize, (n - 1) * chunkSize + lastSize)
  {
    var totalSize := (n - 1) * chunkSize + lastSize;
    assert n * chunkSize == (n - 1) * chunkSize + chunkSize;
    ThresholdMeaning(n, chunkSize, totalSize);
    ThresholdMeaning(n - 1, chunkSize, totalSize);
  }

  /**
   * The test relies on that cut: were the last part shorter than
   * `chunkSize`, the test would already pass with one part still missing.
   */
  lemma ThresholdBeforeShortLastPart(n: nat, chunkSize: int, lastSize: int)
    requires n >= 2 && 0 < lastSize < chunkSize
    ensures ThresholdMet(n - 1, chunkSize, (n - 1) * chunkSize + lastSize)
  {
  }

  // ---------------------------------------------------------------------
  // The assembled content (lines 101-106)
  // ---------------------------------------------------------------------

  /** What `fwrite($fp, file_get_contents(<part i>))` appends: the part's bytes, or nothing when it is missing. */
  function PartBytes(m: Tree, dir: Path, fileName: string, i: nat): Bytes {
    if FileAt(m, PartPath(dir, fileName, i)) then m[PartPath(dir, fileName, i)].bytes else []
  }

  /** The destination's content after appending parts `1..n` in ascending order. */
  function Assembled(m: Tree, dir: Path, fileName: string, n: nat): Bytes
    decreases n
  {
    if n == 0 then [] else Assembled(m, dir, fileName, n - 1) + PartBytes(m, dir, fileName, n)
  }

  /** The concatenation of the chunks that are present among indices `1..n`, in ascending index order. */
  function ConcatPresent(chunks: map<nat, Bytes>, n: nat): Bytes
    decreases n
  {
    if n == 0 then [] else ConcatPresent(chunks, n - 1) + (if n in chunks then chunks[n] else [])
  }

  /** The concatenation of a sequence of byte strings. */
  function Concat(chunks: seq<Bytes>): Bytes
    decreases |chunks|
  {
    if chunks == [] then [] else Concat(chunks[..|chunks| - 1]) + chunks[|chunks| - 1]
  }

  /** The assembly reads parts `1..n` and nothing else: two trees that agree on them give the same content. */
  lemma {:induction false} AssembledReadsOnlyParts(m1: Tree, m2: Tree, dir: Path, fileName: string, n: nat)
    requires forall i :: 1 <= i <= n ==> PartBytes(m1, dir, fileName, i) == PartBytes(m2, dir, fileName, i)
    ensures Assembled(m1, dir, fileName, n) == Assembled(m2, dir, fileName, n)
    decreases n
  {
    if n > 0 {
      AssembledReadsOnlyParts(m1, m2, dir, fileName, n - 1);
    }
  }

  /**
   * The content is the present parts among `1..n` in ascending index order:
   * a missing index contributes no bytes, and parts above `n` are not read.
   */
  lemma {:induction false} AssembledIsPresentParts(m: Tree, dir: Path, fileName: string, n: nat, chunks: map<nat, Bytes>)
    requires forall i :: 1 <= i <= n ==> (i in chunks <==> FileAt(m, PartPath(dir, fileName, i)))
    requires forall i :: 1 <= i <= n && i in chunks ==> PartBytes(m, dir, fileName, i) == chunks[i]
    ensures Assembled(m, dir, fileName, n) == ConcatPresent(chunks, n)
    decreases n
  {
    if n > 0 {
      AssembledIsPresentParts(m, dir, fileName, n - 1, chunks);
    }
  }

  /** With every part `1..|chunks|` present, the content is the chunks concatenated in index order. */
  lemma {:induction false} AssembledAllParts(m: Tree, dir: Path, fileName: string, chunks: seq<Bytes>)
    requires forall i :: 1 <= i <= |chunks| ==> PartPath(dir, fileName, i) in m && m[PartPath(dir, fileName, i)] == File(chunks[i - 1])
    ensures Assembled(m, dir, fileName, |chunks|) == Concat(chunks)
    decreases |chunks|
  {
    if chunks != [] {
      AssembledAllParts(m, dir, fileName, chunks[..|chunks| - 1]);
    }
  }

  /** Writing any path other than a part leaves the content unchanged; in particular the destination's old content plays no part. */
  lemma AssembledIgnoresOtherPaths(m: Tree, dir: Path, fileName: string, n: nat, p: Path, e: Entry)
    requires forall i :: 1 <= i <= n ==> p != PartPath(dir, fileName, i)
    ensures Assembled(m[p := e], dir, fileName, n) == Assembled(m, dir, fileName, n)
  {
    AssembledReadsOnlyParts(m[p := e], m, dir, fileName, n);
  }

  // ---------------------------------------------------------------------
  // Cleanup (lines 113-119)
  // ---------------------------------------------------------------------

  /** Rename the temporary directory aside and delete it there, or delete it in place if the rename fails. */
  function CleanUpSpec(m: Tree, tempDir: Path): Tree
    requires |tempDir| > 0
  {
    var unused := UnusedDir(tempDir);
    if CanRename(m, tempDir, unused) then RrmdirSpec(MoveTree(m, tempDir, unused), unused)
    else RrmdirSpec(m, tempDir)
  }

  lemma UnusedDirUnrelated(tempDir: Path)
    requires |tempDir| > 0
    ensures !IsPrefix(tempDir, UnusedDir(tempDir)) && !IsPrefix(UnusedDir(tempDir), tempDir)
  {
    var last := |tempDir| - 1;
    var unused := UnusedDir(tempDir);
    assert |unused| == |tempDir| && unused[..|tempDir|] == unused;
    assert unused[last] == tempDir[last] + "_UNUSED";
    assert |unused[last]| > |tempDir[last]|;
  }

  /**
   * After the cleanup the temporary directory is gone whichever branch was
   * taken; the `_UNUSED` sibling is gone when the rename succeeded and
   * untouched when it failed; every other path is untouched.
   */
  lemma CleanUpEffect(m: Tree, tempDir: Path)
    requires WellFormed(m) && |tempDir| > 0 && DirAt(m, tempDir)
    ensures var r := CleanUpSpec(m, tempDir);
      var unused := UnusedDir(tempDir);
      && WellFormed(r)
      && (forall p :: IsPrefix(tempDir, p) ==> p !in r)
      && (CanRename(m, tempDir, unused) ==> forall p :: IsPrefix(unused, p) ==> p !in r)
      && (!CanRename(m, tempDir, unused) ==> forall p :: IsPrefix(unused, p) ==> (p in r <==> p in m))
      && (forall p :: !IsPrefix(tempDir, p) && !IsPrefix(unused, p) ==> (p in r <==> p in m))
      && (forall p :: p in r ==> p in m && r[p] == m[p])
  {
    var unused := UnusedDir(tempDir);
    var r := CleanUpSpec(m, tempDir);
    UnusedDirUnrelated(tempDir);
    if CanRename(m, tempDir, unused) {
      var moved := MoveTree(m, tempDir, unused);
      MoveTreeWellFormed(m, tempDir, unused);
      MoveTreeMember(m, tempDir, unused, unused);
      assert tempDir + unused[|unused|..] == tempDir;
      assert DirAt(moved, unused);
      WithoutTreeWellFormed(moved, unused);
      forall p | IsPrefix(tempDir, p) ensures p !in r {
        MoveTreeMember(m, tempDir, unused, p);
        if IsPrefix(unused, p) {
          PrefixesComparable(tempDir, unused, p);
        }
      }
      forall p | p in r ensures p in m && r[p] == m[p] {
        MoveTreeMember(m, tempDir, unused, p);
      }
      forall p | !IsPrefix(tempDir, p) && !IsPrefix(unused, p) ensures p in r <==> p in m {
        MoveTreeMember(m, tempDir, unused, p);
      }
    } else {
      WithoutTreeWellFormed(m, tempDir);
      forall p | IsPrefix(unused, p) ensures p in r <==> p in m {
        if IsPrefix(tempDir, p) {
          PrefixesComparable(tempDir, unused, p);
        }
      }
    }
  }

  // ---------------------------------------------------------------------
  // The whole function
  // ---------------------------------------------------------------------

  /** How `createFileFromChunks` ends. */
  datatype CreateOutcome =
    | NotYetComplete            // the count test failed: nothing written
    | FileCreated               // the destination was written and the parts removed
    | CannotCreateDestination   // `fopen` failed: `_error` ends the request

  /** The tree and outcome `createFileFromChunks` produces from tree `m`. */
  function CreateFileSpec(m: Tree, uploadDir: Path, identifier: string, fileName: string,
                          chunkSize: int, totalSize: int): (Tree, CreateOutcome)
  {
    var tempDir := ChunkDir(uploadDir, identifier);
    var totalFiles := PartCount(m, tempDir, fileName);
    var dest := Destination(uploadDir, fileName);
    if !ThresholdMet(totalFiles, chunkSize, totalSize) then (m, NotYetComplete)
    else if !CanCreate(m, dest) then (m, CannotCreateDestination)
    else (CleanUpSpec(m[dest := File(Assembled(m, tempDir, fileName, totalFiles))], tempDir), FileCreated)
  }

  /** Truncating the destination, which is never a part, leaves the content to assemble as it was. */
  lemma TruncatedDestination(m: Tree, uploadDir: Path, identifier: string, fileName: string, n: nat)
    ensures Assembled(m[Destination(uploadDir, fileName) := File([])], ChunkDir(uploadDir, identifier), fileName, n)
         == Assembled(m, ChunkDir(uploadDir, identifier), fileName, n)
  {
    var dir := ChunkDir(uploadDir, identifier);
    forall i | 1 <= i <= n ensures Destination(uploadDir, fileName) != PartPath(dir, fileName, i) {
      assert |PartPath(dir, fileName, i)| == |uploadDir| + 3;
    }
    AssembledIgnoresOtherPaths(m, dir, fileName, n, Destination(uploadDir, fileName), File([]));
  }

  /**
   * `createFileFromChunks($temp_dir, $fileName, $chunkSize, $totalSize)`,
   * called with `$temp_dir` = `TMP_DIR/<identifier>`.
   */
  method CreateFileFromChunks(fs: Fs, uploadDir: Path, identifier: string, fileName: string,
                              chunkSize: int, totalSize: int) returns (outcome: CreateOutcome)
    requires fs.Valid()
    modifies fs
    ensures fs.Valid()
    ensures (fs.entries, outcome) == CreateFileSpec(old(fs.entries), uploadDir, identifier, fileName, chunkSize, totalSize)
  {
    var tempDir := ChunkDir(uploadDir, identifier);
    var totalFiles := CountParts(fs, tempDir, fileName);
    if !ThresholdMet(totalFiles, chunkSize, totalSize) {
      return NotYetComplete;
    }
    var dest := Destination(uploadDir, fileName);
    ghost var m0 := fs.entries;
    var isOpen := fs.FOpenWrite(dest);
    if !isOpen {
      return CannotCreateDestination;
    }
    ghost var truncated := fs.entries;
    AppendParts(fs, dest, tempDir, fileName, totalFiles);
    TruncatedDestination(m0, uploadDir, identifier, fileName, totalFiles);
    ghost var content := Assembled(m0, tempDir, fileName, totalFiles);
    assert truncated[dest].bytes + content == content;
    ghost var written := m0[dest := File(content)];
    assert fs.entries == written;
    CleanUp(fs, tempDir);
    outcome := FileCreated;
  }

  /** Lines 102-105: append parts `1..n` in ascending order to the file open on `dest`. */
  method AppendParts(fs: Fs, dest: Path, dir: Path, fileName: string, n: nat)
    requires fs.Valid() && FileAt(fs.entries, dest) && |dest| != |dir| + 1
    modifies fs
    ensures fs.Valid()
    ensures fs.entries == old(fs.entries)[dest := File(old(fs.entries)[dest].bytes + Assembled(old(fs.entries), dir, fileName, n))]
  {
    ghost var m0 := fs.entries;
    ghost var start := m0[dest].bytes;
    assert m0[dest := File(start + [])] == m0 by {
      assert start + [] == start && m0[dest] == File(start);
    }
    var i := 1;
    while i <= n
      invariant 1 <= i <= n + 1
      invariant fs.Valid()
      invariant fs.entries == m0[dest := File(start + Assembled(m0, dir, fileName, i - 1))]
    {
      ghost var written := start + Assembled(m0, dir, fileName, i - 1);
      var contents := fs.FileGetContents(PartPath(dir, fileName, i));
      assert contents.GetOr([]) == PartBytes(m0, dir, fileName, i);
      fs.FWrite(dest, contents.GetOr([]));
      UpdateTwice(m0, dest, File(written), File(written + contents.GetOr([])));
      assert written + contents.GetOr([]) == start + Assembled(m0, dir, fileName, i);
      i := i + 1;
    }
  }

  lemma UpdateTwice(m: Tree, p: Path, e1: Entry, e2: Entry)
    ensures m[p := e1][p := e2] == m[p := e2]
  {
  }

  /** Lines 113-119: rename the temporary directory aside, then delete it wherever it is. */
  method CleanUp(fs: Fs, tempDir: Path)
    requires fs.Valid() && |tempDir| > 0
    modifies fs
    ensures fs.Valid()
    ensures fs.entries == CleanUpSpec(old(fs.entries), tempDir)
  {
    var unused := UnusedDir(tempDir);
    var renamed := fs.Rename(tempDir, unused);
    if renamed {
      RemoveTree(fs, unused);
    } else {
      RemoveTree(fs, tempDir);
    }
  }

  /**
   * Lines 98 and 101-111: the count test decides whether anything happens,
   * and then `fopen` decides whether the destination is written; when
   * nothing is written the tree is unchanged.
   */
  lemma CreateFileOutcome(m: Tree, uploadDir: Path, identifier: string, fileName: string,
                          chunkSize: int, totalSize: int)
    ensures var (r, outcome) := CreateFileSpec(m, uploadDir, identifier, fileName, chunkSize, totalSize);
      var n := PartCount(m, ChunkDir(uploadDir, identifier), fileName);
      && (outcome == NotYetComplete <==> !ThresholdMet(n, chunkSize, totalSize))
      && (outcome == CannotCreateDestination <==>
            ThresholdMet(n, chunkSize, totalSize) && !CanCreate(m, Destination(uploadDir, fileName)))
      && (outcome != FileCreated ==> r == m)
  {
  }

  /**
   * After a completed assembly the destination holds exactly the parts
   * `1..n` of the tree it started from, the temporary directory is gone, and
   * every path outside the destination, the temporary directory and its
   * `_UNUSED` sibling is untouched.
   */
  lemma CreatedFileContent(m: Tree, uploadDir: Path, identifier: string, fileName: string,
                           chunkSize: int, totalSize: int)
    requires WellFormed(m) && DirAt(m, ChunkDir(uploadDir, identifier))
    requires CreateFileSpec(m, uploadDir, identifier, fileName, chunkSize, totalSize).1 == FileCreated
    ensures var r := CreateFileSpec(m, uploadDir, identifier, fileName, chunkSize, totalSize).0;
      var tempDir := ChunkDir(uploadDir, identifier);
      var dest := Destination(uploadDir, fileName);
      && WellFormed(r)
      && dest in r && r[dest] == File(Assembled(m, tempDir, fileName, PartCount(m, tempDir, fileName)))
      && (forall p :: IsPrefix(tempDir, p) ==> p !in r)
      && (forall p :: p != dest && !IsPrefix(tempDir, p) && !IsPrefix(UnusedDir(tempDir), p) ==>
            (p in r <==> p in m) && (p in r ==> r[p] == m[p]))
  {
    var tempDir := ChunkDir(uploadDir, identifier);
    var dest := Destination(uploadDir, fileName);
    var n := PartCount(m, tempDir, fileName);
    var m1 := m[dest := File(Assembled(m, tempDir, fileName, n))];
    assert !IsPrefix(tempDir, dest) && !IsPrefix(UnusedDir(tempDir), dest);
    assert tempDir != dest;
    assert WellFormed(m1) by {
      forall p | p in m1 ensures ParentIsDir(m1, p) {
        if p != dest {
          assert ParentIsDir(m, p);
        }
      }
    }
    CleanUpEffect(m1, tempDir);
  }
}
