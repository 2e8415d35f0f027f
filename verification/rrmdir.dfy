/**
 * `rrmdir($dir)` (src/upload.php:61-76): delete a directory and everything
 * below it, one `scandir` listing at a time, recursing into sub-directories,
 * unlinking files, and finally removing the emptied directory.
 */
module RecursiveDelete {
  import opened Common
  import opened FileSystem

  /**
   * What `rrmdir` leaves behind: when `dir` is a directory, it and every
   * entry below it are gone and nothing else changes; otherwise nothing
   * changes at all.
   */
  function RrmdirSpec(m: Tree, dir: Path): (r: Tree)
    ensures !DirAt(m, dir) ==> r == m
    ensures DirAt(m, dir) ==> forall p :: IsPrefix(dir, p) ==> p !in r
    ensures forall p :: !IsPrefix(dir, p) ==> (p in r <==> p in m)
    ensures forall p :: p in r ==> p in m && r[p] == m[p]
  {
    if DirAt(m, dir) then WithoutTree(m, dir) else m
  }

  /** The entries at or below `d`. */
  ghost function Subtree(m: Tree, d: Path): set<Path> {
    set p | p in m && IsPrefix(d, p)
  }

  /** `p` lies below `dir`, inside one of the children named in `done`. */
  predicate Swept(dir: Path, done: set<string>, p: Path) {
    |p| > |dir| && IsPrefix(dir, p) && p[|dir|] in done
  }

  lemma ChildPrefix(dir: Path, o: string, p: Path)
    ensures IsPrefix(dir + [o], p) <==> |p| > |dir| && IsPrefix(dir, p) && p[|dir|] == o
  {
    if |p| > |dir| && IsPrefix(dir, p) && p[|dir|] == o {
      assert p[..|dir| + 1] == p[..|dir|] + [p[|dir|]];
    }
    if IsPrefix(dir + [o], p) {
      assert p[..|dir|] == (dir + [o])[..|dir|];
    }
  }

  /** In a well-formed tree every proper ancestor of an entry is a directory entry. */
  lemma {:induction false} AncestorIsDir(m: Tree, p: Path, k: nat)
    requires WellFormed(m) && p in m && 1 <= k < |p|
    ensures DirAt(m, p[..k])
    decreases |p|
  {
    var pp := Parent(p);
    assert ParentIsDir(m, p);
    assert pp[..k] == p[..k];
    if k < |pp| {
      AncestorIsDir(m, pp, k);
    }
  }

  lemma {:induction false} SubsetCard<T>(a: set<T>, b: set<T>)
    requires a <= b
    ensures |a| <= |b|
    decreases a
  {
    if a != {} {
      var x :| x in a;
      SubsetCard(a - {x}, b - {x});
    }
  }

  /** The measure of the recursion shrinks: a child's subtree misses at least the parent itself. */
  lemma ChildSubtreeSmaller(m0: Tree, m: Tree, dir: Path, child: Path)
    requires m.Keys <= m0.Keys && dir in m0
    requires |child| == |dir| + 1 && IsPrefix(dir, child)
    ensures |Subtree(m, child)| < |Subtree(m0, dir)|
  {
    forall p | p in Subtree(m, child) ensures p in Subtree(m0, dir) - {dir} {
      assert p[..|dir|] == child[..|dir|];
    }
    SubsetCard(Subtree(m, child), Subtree(m0, dir) - {dir});
  }

  /** Once every child has been swept, only `dir` itself is left of its tree. */
  lemma SweptAll(m0: Tree, dir: Path, p: Path)
    requires WellFormed(m0) && p in m0 && IsPrefix(dir, p) && |p| > |dir|
    ensures Swept(dir, Children(m0, dir), p)
  {
    if |dir| + 1 < |p| {
      AncestorIsDir(m0, p, |dir| + 1);
    } else {
      assert p[..|dir| + 1] == p;
    }
    assert p[..|dir| + 1] == dir + [p[|dir|]];
    ChildrenMember(m0, dir, p[|dir|]);
  }

  /** Midway through the loop: exactly the children named in `done` have been swept away. */
  ghost predicate SweptState(m0: Tree, m: Tree, dir: Path, done: set<string>) {
    (forall p :: p in m <==> p in m0 && !Swept(dir, done, p)) &&
    (forall p :: p in m ==> m[p] == m0[p])
  }

  /** Unlinking a file removes exactly the tree at that path. */
  lemma UnlinkRemovesTree(m: Tree, path: Path)
    requires WellFormed(m) && FileAt(m, path)
    ensures m - {path} == WithoutTree(m, path)
  {
    forall p | p in m && IsPrefix(path, p) ensures p == path {
      if |p| > |path| {
        AncestorIsDir(m, p, |path|);
      }
    }
  }

  /** Sweeping one more child keeps the loop invariant. */
  lemma SweepStep(m0: Tree, m1: Tree, dir: Path, done: set<string>, name: string)
    requires SweptState(m0, m1, dir, done)
    ensures SweptState(m0, WithoutTree(m1, dir + [name]), dir, done + {name})
  {
    forall p ensures Swept(dir, done + {name}, p) <==> Swept(dir, done, p) || IsPrefix(dir + [name], p) {
      ChildPrefix(dir, name, p);
    }
  }

  /** After the loop the directory is empty, and removing it completes the deletion of its tree. */
  lemma SweepDone(m0: Tree, m: Tree, dir: Path)
    requires WellFormed(m0) && DirAt(m0, dir)
    requires SweptState(m0, m, dir, Children(m0, dir))
    ensures DirAt(m, dir) && Children(m, dir) == {}
    ensures m - {dir} == WithoutTree(m0, dir)
  {
    assert !Swept(dir, Children(m0, dir), dir);
    SweepDoneEmpty(m0, m, dir);
    var r := WithoutTree(m0, dir);
    forall p ensures p in m - {dir} <==> p in r {
      if p in m0 && IsPrefix(dir, p) && p != dir {
        SweptAll(m0, dir, p);
      }
    }
  }

  lemma SweepDoneEmpty(m0: Tree, m: Tree, dir: Path)
    requires SweptState(m0, m, dir, Children(m0, dir))
    ensures Children(m, dir) == {}
  {
    forall c | c in Children(m, dir) ensures false {
      ChildrenMember(m, dir, c);
      ChildPrefix(dir, c, dir + [c]);
      ChildrenMember(m0, dir, c);
    }
  }

  /** `rrmdir($dir)` */
  method RemoveTree(fs: Fs, dir: Path)
    requires fs.Valid()
    modifies fs
    ensures fs.Valid()
    ensures fs.entries == RrmdirSpec(old(fs.entries), dir)
    decreases |Subtree(fs.entries, dir)|
  {
    if fs.IsDir(dir) {
      var objects := fs.ScanDir(dir);
      ghost var m0 := fs.entries;
      var rest := objects;
      while rest != {}
        invariant rest <= objects
        invariant fs.Valid()
        invariant SweptState(m0, fs.entries, dir, objects - rest)
        decreases rest
      {
        var name :| name in rest;
        var path := dir + [name];
        ghost var m1 := fs.entries;
        ChildrenMember(m0, dir, name);
        ChildPrefix(dir, name, path);
        assert path in m1 && m1[path] == m0[path];
        if fs.FileType(path) == Some(DirKind) {
          ChildSubtreeSmaller(m0, fs.entries, dir, path);
          RemoveTree(fs, path);
        } else {
          UnlinkRemovesTree(m1, path);
          var unlinked := fs.Unlink(path);
        }
        SweepStep(m0, m1, dir, objects - rest, name);
        assert objects - (rest - {name}) == (objects - rest) + {name};
        rest := rest - {name};
      }
      SweepDone(m0, fs.entries, dir);
      var removed := fs.Rmdir(dir);
    }
  }
}
