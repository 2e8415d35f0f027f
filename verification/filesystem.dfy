/**
 * The file system the upload script works on, abstracted as a map from paths
 * to entries. A path is the sequence of its components (`uploads/tmp/abc` is
 * `["uploads", "tmp", "abc"]`); the root `[]` is implicit and is never an
 * entry. An entry is a file holding bytes or a directory.
 *
 * The class `Fs` holds the map and offers the PHP file primitives the script
 * calls (`is_dir`, `scandir`, `filetype`, `mkdir`, `move_uploaded_file`,
 * `file_get_contents`, `fopen` with mode 'w', `fwrite`, `unlink`, `rmdir`,
 * `rename`), each specified by its effect on the map.
 */
module FileSystem {
  import opened Common

  newtype byte = x: int | 0 <= x < 256
  type Bytes = seq<byte>
  type Path = seq<string>

  datatype Entry = File(bytes: Bytes) | Dir
  /** What `filetype` reports: "file" or "dir". */
  datatype Kind = FileKind | DirKind

  type Tree = map<Path, Entry>

  /** `a` is `p` or one of its ancestors. */
  predicate IsPrefix(a: Path, p: Path) {
    |a| <= |p| && p[..|a|] == a
  }

  function Parent(p: Path): Path
    requires |p| > 0
  {
    p[..|p| - 1]
  }

  predicate DirAt(m: Tree, p: Path) {
    p in m && m[p].Dir?
  }

  predicate FileAt(m: Tree, p: Path) {
    p in m && m[p].File?
  }

  /** The directory that would hold `p` exists (the root always does). */
  predicate ParentIsDir(m: Tree, p: Path) {
    |p| == 1 || (|p| > 1 && DirAt(m, Parent(p)))
  }

  /** Every entry sits in a directory: files have no children and no entry is orphaned. */
  ghost predicate WellFormed(m: Tree) {
    [] !in m && forall p :: p in m ==> ParentIsDir(m, p)
  }

  /** The names `scandir` lists for directory `d` (without "." and ".."). */
  function Children(m: Tree, d: Path): set<string> {
    set p | p in m && |p| == |d| + 1 && IsPrefix(d, p) :: p[|d|]
  }

  lemma ChildrenMember(m: Tree, d: Path, c: string)
    ensures c in Children(m, d) <==> d + [c] in m
  {
    if c in Children(m, d) {
      var p :| p in m && |p| == |d| + 1 && IsPrefix(d, p) && p[|d|] == c;
      assert p == d + [c];
    }
    if d + [c] in m {
      assert (d + [c])[..|d|] == d;
    }
  }

  /** What `scandir` yields: the children of a directory; a missing directory yields nothing to iterate. */
  function Listing(m: Tree, d: Path): set<string> {
    if DirAt(m, d) then Children(m, d) else {}
  }

  /** A listing names exactly the entries directly inside a directory, and nothing for a non-directory. */
  lemma ListingMembers(m: Tree, d: Path)
    ensures forall c :: c in Listing(m, d) <==> DirAt(m, d) && d + [c] in m
  {
    forall c ensures c in Listing(m, d) <==> DirAt(m, d) && d + [c] in m {
      ChildrenMember(m, d, c);
    }
  }

  /**
   * `fopen($p, 'w')` and `move_uploaded_file(…, $p)` can create or replace
   * `p`: its directory exists and `p` is not itself a directory.
   */
  predicate CanCreate(m: Tree, p: Path) {
    ParentIsDir(m, p) && !DirAt(m, p)
  }

  /**
   * The effect of `mkdir($p, 0777, true)`: each missing ancestor of `p`, and
   * `p`, becomes a directory, stopping where a file stands in the way.
   */
  function Mkdirs(m: Tree, p: Path): (r: Tree)
    ensures forall q :: q in m ==> q in r && r[q] == m[q]
    ensures forall q :: q in r && q !in m ==> r[q] == Dir && 1 <= |q| && IsPrefix(q, p)
    decreases |p|
  {
    if |p| == 0 then m
    else
      var m1 := Mkdirs(m, Parent(p));
      if p in m1 || !ParentIsDir(m1, p) then m1 else m1[p := Dir]
  }

  /** `mkdir` only ever places a directory inside a directory. */
  lemma {:induction false} MkdirsWellFormed(m: Tree, p: Path)
    requires WellFormed(m)
    ensures WellFormed(Mkdirs(m, p))
    decreases |p|
  {
    if |p| > 0 {
      MkdirsWellFormed(m, Parent(p));
    }
  }

  /** When no file stands on the way, `mkdir` leaves `p` a directory. */
  lemma {:induction false} MkdirsCreates(m: Tree, p: Path)
    requires 1 <= |p|
    requires forall k :: 1 <= k <= |p| ==> !FileAt(m, p[..k])
    ensures DirAt(Mkdirs(m, p), p)
    decreases |p|
  {
    assert p[..|p|] == p;
    if |p| > 1 {
      forall k | 1 <= k <= |Parent(p)| ensures !FileAt(m, Parent(p)[..k]) {
        assert Parent(p)[..k] == p[..k];
      }
      MkdirsCreates(m, Parent(p));
    }
  }

  /** `mkdir` of an existing directory changes nothing. */
  lemma {:induction false} MkdirsExisting(m: Tree, p: Path)
    requires WellFormed(m) && DirAt(m, p)
    ensures Mkdirs(m, p) == m
    decreases |p|
  {
    assert ParentIsDir(m, p);
    if |p| > 1 {
      MkdirsExisting(m, Parent(p));
    }
  }

  /** Everything at or below `d` removed: the effect of deleting the tree `d`. */
  function WithoutTree(m: Tree, d: Path): Tree {
    map p | p in m && !IsPrefix(d, p) :: m[p]
  }

  lemma PrefixOfParent(d: Path, p: Path)
    requires |p| > 0 && IsPrefix(d, Parent(p))
    ensures IsPrefix(d, p)
  {
    assert p[..|d|] == Parent(p)[..|d|];
  }

  /** Removing a whole tree keeps every remaining entry inside a directory. */
  lemma WithoutTreeWellFormed(m: Tree, d: Path)
    requires WellFormed(m)
    ensures WellFormed(WithoutTree(m, d))
  {
    var r := WithoutTree(m, d);
    forall p | p in r ensures ParentIsDir(r, p) {
      if |p| > 1 && IsPrefix(d, Parent(p)) {
        PrefixOfParent(d, p);
      }
    }
  }

  /** Two ancestors of one path are ancestors of each other. */
  lemma PrefixesComparable(a: Path, b: Path, p: Path)
    requires IsPrefix(a, p) && IsPrefix(b, p)
    ensures IsPrefix(a, b) || IsPrefix(b, a)
  {
    if |a| <= |b| {
      assert b[..|a|] == p[..|a|];
    } else {
      assert a[..|b|] == p[..|b|];
    }
  }

  /**
   * When `rename($src, $dst)` succeeds, as rename(2) decides it: the source
   * exists, the target's directory exists, neither lies inside the other,
   * and the target is absent, an empty directory replaced by a directory, or
   * a file replaced by a file.
   */
  predicate CanRename(m: Tree, src: Path, dst: Path) {
    src in m && ParentIsDir(m, dst) && !IsPrefix(src, dst) && !IsPrefix(dst, src) &&
    (dst !in m ||
     (m[src].Dir? && m[dst].Dir? && Children(m, dst) == {}) ||
     (m[src].File? && m[dst].File?))
  }

  /** Where the entry at `q`, inside `src`, lands when `src` is renamed to `dst`. */
  function Rebase(q: Path, src: Path, dst: Path): Path
    requires IsPrefix(src, q)
  {
    dst + q[|src|..]
  }

  lemma RebaseInjective(src: Path, dst: Path)
    ensures forall q1, q2 ::
      IsPrefix(src, q1) && IsPrefix(src, q2) && Rebase(q1, src, dst) == Rebase(q2, src, dst) ==> q1 == q2
  {
    forall q1, q2 | IsPrefix(src, q1) && IsPrefix(src, q2) && Rebase(q1, src, dst) == Rebase(q2, src, dst)
      ensures q1 == q2
    {
      assert q1[|src|..] == Rebase(q1, src, dst)[|dst|..];
      assert q1 == src + q1[|src|..];
      assert q2 == src + q2[|src|..];
    }
  }

  /** The effect of a successful `rename($src, $dst)`: the tree at `src` now stands at `dst`. */
  function MoveTree(m: Tree, src: Path, dst: Path): Tree {
    var kept := map p | p in m && !IsPrefix(src, p) && !IsPrefix(dst, p) :: m[p];
    RebaseInjective(src, dst);
    var moved := map q | q in m && IsPrefix(src, q) :: Rebase(q, src, dst) := m[q];
    kept + moved
  }

  /** After a rename, every entry is either untouched or the image of an entry of `src`. */
  lemma MoveTreeMember(m: Tree, src: Path, dst: Path, p: Path)
    requires !IsPrefix(src, dst) && !IsPrefix(dst, src)
    ensures p in MoveTree(m, src, dst) && !IsPrefix(dst, p) ==> p in m && !IsPrefix(src, p) && MoveTree(m, src, dst)[p] == m[p]
    ensures p in MoveTree(m, src, dst) && IsPrefix(dst, p) ==> src + p[|dst|..] in m && MoveTree(m, src, dst)[p] == m[src + p[|dst|..]]
    ensures p in m && !IsPrefix(src, p) && !IsPrefix(dst, p) ==> p in MoveTree(m, src, dst)
    ensures IsPrefix(dst, p) && src + p[|dst|..] in m ==> p in MoveTree(m, src, dst)
  {
    var r := MoveTree(m, src, dst);
    RebaseInjective(src, dst);
    if IsPrefix(dst, p) {
      var q := src + p[|dst|..];
      assert IsPrefix(src, q) && Rebase(q, src, dst) == p;
      if q in m {
        assert p in r;
      }
      if p in r {
        var q' :| q' in m && IsPrefix(src, q') && Rebase(q', src, dst) == p;
        assert q' == src + q'[|src|..];
        assert q'[|src|..] == p[|dst|..];
      }
    }
  }

  /** A rename that rename(2) allows keeps every entry inside a directory. */
  lemma MoveTreeWellFormed(m: Tree, src: Path, dst: Path)
    requires WellFormed(m) && CanRename(m, src, dst)
    ensures WellFormed(MoveTree(m, src, dst))
  {
    var r := MoveTree(m, src, dst);
    MoveTreeMember(m, src, dst, []);
    forall p | p in r ensures ParentIsDir(r, p) {
      MoveTreeParent(m, src, dst, p);
    }
  }

  lemma MoveTreeParent(m: Tree, src: Path, dst: Path, p: Path)
    requires WellFormed(m) && CanRename(m, src, dst)
    requires p in MoveTree(m, src, dst)
    ensures ParentIsDir(MoveTree(m, src, dst), p)
  {
    MoveTreeMember(m, src, dst, p);
    if !IsPrefix(dst, p) {
      assert ParentIsDir(m, p);
      if |p| > 1 {
        var pp := Parent(p);
        if IsPrefix(src, pp) { PrefixOfParent(src, p); }
        if IsPrefix(dst, pp) { PrefixOfParent(dst, p); }
        MoveTreeMember(m, src, dst, pp);
      }
    } else if |p| == |dst| {
      assert p == dst;
      if |dst| > 1 {
        var pp := Parent(dst);
        if IsPrefix(src, pp) { PrefixOfParent(src, dst); }
        MoveTreeMember(m, src, dst, pp);
      }
    } else {
      MovedParent(m, src, dst, p);
    }
  }

  lemma MovedParent(m: Tree, src: Path, dst: Path, p: Path)
    requires WellFormed(m) && !IsPrefix(src, dst) && !IsPrefix(dst, src)
    requires IsPrefix(dst, p) && |p| > |dst| && src + p[|dst|..] in m
    ensures DirAt(MoveTree(m, src, dst), Parent(p))
  {
    var q := src + p[|dst|..];
    assert ParentIsDir(m, q);
    var pp := Parent(p);
    assert IsPrefix(dst, pp);
    assert Parent(q) == src + pp[|dst|..];
    MoveTreeMember(m, src, dst, pp);
  }

  lemma RemoveLeafWellFormed(m: Tree, p: Path)
    requires WellFormed(m) && p in m
    requires m[p].File? || Children(m, p) == {}
    ensures WellFormed(m - {p})
  {
    var r := m - {p};
    forall q | q in r ensures ParentIsDir(r, q) {
      if |q| > 1 && Parent(q) == p {
        assert q == p + [q[|q| - 1]];
        ChildrenMember(m, p, q[|q| - 1]);
      }
    }
  }

  /** The file system: one map, changed in place by the PHP primitives. */
  class Fs {
    var entries: Tree

    ghost predicate Valid()
      reads this
    {
      WellFormed(entries)
    }

    constructor (initial: Tree)
      requires WellFormed(initial)
      ensures Valid() && entries == initial
    {
      entries := initial;
    }

    /** `is_dir($p)` */
    function IsDir(p: Path): (r: bool)
      reads this
      ensures r <==> FileType(p) == Some(DirKind)
    {
      DirAt(entries, p)
    }

    /** `scandir($p)` as a set of names; a missing directory lists nothing. */
    function ScanDir(p: Path): (r: set<string>)
      reads this
      ensures forall name :: name in r <==> IsDir(p) && p + [name] in entries
    {
      ListingMembers(entries, p);
      Listing(entries, p)
    }

    /** `filetype($p)`: `None` where PHP returns `false`. */
    function FileType(p: Path): (r: Option<Kind>)
      reads this
      ensures r == None <==> p !in entries
      ensures r == Some(FileKind) <==> FileAt(entries, p)
    {
      if p !in entries then None
      else if entries[p].Dir? then Some(DirKind)
      else Some(FileKind)
    }

    /** `file_get_contents($p)`: `None` unless `p` is a file. */
    function FileGetContents(p: Path): (r: Option<Bytes>)
      reads this
      ensures r.Some? <==> FileType(p) == Some(FileKind)
      ensures r.Some? ==> entries[p] == File(r.value)
    {
      if FileAt(entries, p) then Some(entries[p].bytes) else None
    }

    /** `mkdir($p, 0777, true)` */
    method Mkdir(p: Path)
      requires Valid()
      modifies this
      ensures Valid()
      ensures entries == Mkdirs(old(entries), p)
    {
      MkdirsWellFormed(entries, p);
      entries := Mkdirs(entries, p);
    }

    /** `move_uploaded_file(…, $dest)`: the uploaded bytes become the file `dest`. */
    method MoveUploadedFile(payload: Bytes, dest: Path) returns (ok: bool)
      requires Valid()
      modifies this
      ensures Valid()
      ensures ok == CanCreate(old(entries), dest)
      ensures entries == if ok then old(entries)[dest := File(payload)] else old(entries)
    {
      ok := CanCreate(entries, dest);
      if ok {
        entries := entries[dest := File(payload)];
      }
    }

    /** `fopen($p, 'w')`: creates `p` or truncates it to empty. */
    method FOpenWrite(p: Path) returns (ok: bool)
      requires Valid()
      modifies this
      ensures Valid()
      ensures ok == CanCreate(old(entries), p)
      ensures entries == if ok then old(entries)[p := File([])] else old(entries)
    {
      ok := CanCreate(entries, p);
      if ok {
        entries := entries[p := File([])];
      }
    }

    /** `fwrite($fp, $data)` on the handle open on file `p`: appends. */
    method FWrite(p: Path, data: Bytes)
      requires Valid() && FileAt(entries, p)
      modifies this
      ensures Valid()
      ensures entries == old(entries)[p := File(old(entries)[p].bytes + data)]
    {
      entries := entries[p := File(entries[p].bytes + data)];
    }

    /** `unlink($p)`: removes a file. */
    method Unlink(p: Path) returns (ok: bool)
      requires Valid()
      modifies this
      ensures Valid()
      ensures ok == FileAt(old(entries), p)
      ensures entries == if ok then old(entries) - {p} else old(entries)
    {
      ok := FileAt(entries, p);
      if ok {
        RemoveLeafWellFormed(entries, p);
        entries := entries - {p};
      }
    }

    /** `rmdir($p)`: removes an empty directory. */
    method Rmdir(p: Path) returns (ok: bool)
      requires Valid()
      modifies this
      ensures Valid()
      ensures ok == (DirAt(old(entries), p) && Children(old(entries), p) == {})
      ensures entries == if ok then old(entries) - {p} else old(entries)
    {
      ok := DirAt(entries, p) && Children(entries, p) == {};
      if ok {
        RemoveLeafWellFormed(entries, p);
        entries := entries - {p};
      }
    }

    /** `rename($src, $dst)` */
    method Rename(src: Path, dst: Path) returns (ok: bool)
      requires Valid()
      modifies this
      ensures Valid()
      ensures ok == CanRename(old(entries), src, dst)
      ensures entries == if ok then MoveTree(old(entries), src, dst) else old(entries)
    {
      ok := CanRename(entries, src, dst);
      if ok {
        MoveTreeWellFormed(entries, src, dst);
        entries := MoveTree(entries, src, dst);
      }
    }
  }
}
