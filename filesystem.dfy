/** An abstract filesystem standing in for the PHP functions TempDir.php
    calls: file_exists, is_link, is_dir, unlink, rmdir, mkdir(…, true) and
    FilesystemIterator. The filesystem is a map from path string to the kind
    of entry found there; a path's parent is the text before its last
    separator. Removal of the paths in `pinned` is refused, which stands for
    every reason the operating system may refuse an unlink or rmdir. */
module FileSystem {
  import opened PhpString

  type Path = string

  /** DIRECTORY_SEPARATOR, fixed to the POSIX one. */
  const Separator: char := '/'

  datatype Kind = File | Dir | Link

  /** A path has a parent when it has a separator after its first
      character. */
  predicate HasParent(k: Path)
  {
    var i := StrRPos(k, Separator); i.Some? && i.value > 0
  }

  /** The text before the last separator. */
  function Parent(k: Path): (p: Path)
    requires HasParent(k)
    ensures 0 < |p| < |k| && p == k[..|p|] && k[|p|] == Separator
    ensures forall i :: |p| < i < |k| ==> k[i] != Separator
  {
    k[..StrRPos(k, Separator).value]
  }

  /** k names an entry strictly inside the directory p. */
  predicate Beneath(p: Path, k: Path)
  {
    0 < |p| < |k| && k[..|p|] == p && k[|p|] == Separator
  }

  /** k is p itself or lies beneath it. */
  predicate InTree(p: Path, k: Path)
  {
    k == p || Beneath(p, k)
  }

  predicate IsChild(p: Path, k: Path)
  {
    HasParent(k) && Parent(k) == p
  }

  /** The directories mkdir(…, true) must find or create before p itself. */
  function Ancestors(p: Path): set<Path>
  {
    set i | 0 < i < |p| && p[i] == Separator :: p[..i]
  }

  /** A consistent tree: there is no entry named "", and the parent of every
      entry is a directory. */
  ghost predicate WellFormed(nodes: map<Path, Kind>)
  {
    && "" !in nodes
    && forall k :: k in nodes && HasParent(k) ==> Parent(k) in nodes && nodes[Parent(k)] == Dir
  }

  /** Every entry of a is in b, with the same kind. */
  ghost predicate SubMap(a: map<Path, Kind>, b: map<Path, Kind>)
  {
    forall k :: k in a ==> k in b && a[k] == b[k]
  }

  /** The filesystem after the entry at p and everything beneath it is gone. */
  function RemoveTree(nodes: map<Path, Kind>, p: Path): map<Path, Kind>
  {
    if p !in nodes then nodes else map k | k in nodes && !InTree(p, k) :: nodes[k]
  }

  /** The entries of the tree at p. */
  ghost function TreeEntries(nodes: map<Path, Kind>, p: Path): set<Path>
  {
    set k | k in nodes && InTree(p, k)
  }

  /** No entry of the tree at p is pinned, so every removal in it succeeds. */
  predicate Removable(nodes: map<Path, Kind>, pinned: set<Path>, p: Path)
  {
    p !in nodes || forall k :: k in nodes && InTree(p, k) ==> k !in pinned
  }

  /** mkdir($p, 0777, true) succeeds: p is not "", nothing is at p yet, and
      every existing ancestor of p is a directory. */
  predicate MkdirOk(nodes: map<Path, Kind>, p: Path)
  {
    && p != ""
    && p !in nodes
    && forall a :: a in Ancestors(p) && a in nodes ==> nodes[a] == Dir
  }

  /** The filesystem after p and its missing ancestors are created. */
  function MkdirAll(nodes: map<Path, Kind>, p: Path): map<Path, Kind>
  {
    map k | k in nodes.Keys + Ancestors(p) + {p} :: if k in nodes then nodes[k] else Dir
  }

  /** What mkdir($p, 0777, true) leaves behind: on failure PHP only warns, so
      nothing changes. */
  function MkdirResult(nodes: map<Path, Kind>, p: Path): map<Path, Kind>
  {
    if MkdirOk(nodes, p) then MkdirAll(nodes, p) else nodes
  }

  lemma AncestorIsBeneath(a: Path, p: Path)
    ensures a in Ancestors(p) <==> Beneath(a, p)
  {
    if Beneath(a, p) {
      assert p[..|a|] in Ancestors(p);
    }
  }

  /** An entry named inside the directory d lies beneath d. */
  lemma EntryBeneathJoin(d: Path, name: string)
    requires d != ""
    ensures Beneath(d, d + [Separator] + name)
  {
    assert (d + [Separator] + name)[..|d|] == d;
  }

  lemma BeneathTransitive(p: Path, c: Path, k: Path)
    requires Beneath(p, c) && Beneath(c, k)
    ensures Beneath(p, k)
  {
    assert k[..|p|] == k[..|c|][..|p|];
    assert k[|p|] == c[|p|];
  }

  /** Going up from an entry beneath p reaches p. */
  lemma ParentStep(p: Path, k: Path)
    requires Beneath(p, k)
    ensures HasParent(k)
    ensures Parent(k) == p || Beneath(p, Parent(k))
  {
    assert k[|p|] == Separator;
    var j := StrRPos(k, Separator);
    assert j.Some? && j.value >= |p|;
    var q := Parent(k);
    if |q| > |p| {
      assert q[..|p|] == k[..|p|];
    }
  }

  /** In a consistent tree, whatever lies beneath p shows that p is a
      directory with at least one child. */
  lemma {:induction false} BeneathHasChild(nodes: map<Path, Kind>, p: Path, k: Path)
    requires WellFormed(nodes)
    requires k in nodes && Beneath(p, k)
    ensures p in nodes && nodes[p] == Dir
    ensures exists c :: c in nodes && IsChild(p, c) && InTree(c, k)
    decreases |k|
  {
    ParentStep(p, k);
    var q := Parent(k);
    if q == p {
      assert IsChild(p, k) && InTree(k, k);
    } else {
      BeneathHasChild(nodes, p, q);
      var c :| c in nodes && IsChild(p, c) && InTree(c, q);
      if c != q {
        BeneathTransitive(c, q, k);
      }
      assert InTree(c, k);
    }
  }

  /** Nothing lies beneath an entry that is not a directory, nor beneath a
      path that has no entry. */
  lemma NothingBeneathNonDirectory(nodes: map<Path, Kind>, p: Path)
    requires WellFormed(nodes)
    requires p !in nodes || nodes[p] != Dir
    ensures forall k :: k in nodes ==> !Beneath(p, k)
  {
    forall k | k in nodes && Beneath(p, k)
      ensures false
    {
      BeneathHasChild(nodes, p, k);
    }
  }

  /** A directory with no children has nothing beneath it. */
  lemma NothingBeneathChildless(nodes: map<Path, Kind>, p: Path)
    requires WellFormed(nodes)
    requires forall c :: c in nodes ==> !IsChild(p, c)
    ensures forall k :: k in nodes ==> !Beneath(p, k)
  {
    forall k | k in nodes && Beneath(p, k)
      ensures false
    {
      BeneathHasChild(nodes, p, k);
    }
  }

  /** Every ancestor of an existing entry exists as a directory. */
  lemma AncestorsOfEntryAreDirectories(nodes: map<Path, Kind>, k: Path)
    requires WellFormed(nodes) && k in nodes
    ensures forall a :: a in Ancestors(k) ==> a in nodes && nodes[a] == Dir
  {
    forall a | a in Ancestors(k)
      ensures a in nodes && nodes[a] == Dir
    {
      AncestorIsBeneath(a, k);
      BeneathHasChild(nodes, a, k);
    }
  }

  /** mkdir -p keeps the tree consistent, adds only directories, and leaves
      p a directory with all of its ancestors. */
  lemma {:induction false} MkdirAllProperties(nodes: map<Path, Kind>, p: Path)
    requires WellFormed(nodes) && MkdirOk(nodes, p)
    ensures var after := MkdirAll(nodes, p);
      && WellFormed(after)
      && SubMap(nodes, after)
      && p in after && after[p] == Dir
      && (forall a :: a in Ancestors(p) ==> a in after && after[a] == Dir)
      && (forall k :: k in after && k !in nodes ==> after[k] == Dir && (k == p || Beneath(k, p)))
  {
    var after := MkdirAll(nodes, p);
    forall k | k in after && HasParent(k)
      ensures Parent(k) in after && after[Parent(k)] == Dir
    {
      if k !in nodes {
        var q := Parent(k);
        assert k == p || k in Ancestors(p);
        if k != p {
          AncestorIsBeneath(k, p);
          assert p[..|k|] == k;
        }
        assert q == p[..|q|] by {
          assert k == p[..|k|];
        }
        assert p[|q|] == Separator;
        assert q in Ancestors(p);
      }
    }
    forall k | k in after && k !in nodes
      ensures k == p || Beneath(k, p)
    {
      if k != p {
        AncestorIsBeneath(k, p);
      }
    }
  }

  /** Removing a tree keeps the filesystem consistent and touches nothing
      outside the tree. */
  lemma RemoveTreeProperties(nodes: map<Path, Kind>, p: Path)
    requires WellFormed(nodes)
    ensures var after := RemoveTree(nodes, p);
      && WellFormed(after)
      && SubMap(after, nodes)
      && (forall k :: k in after ==> !InTree(p, k))
      && (forall k :: k in nodes && !InTree(p, k) ==> k in after)
  {
    if p !in nodes {
      NothingBeneathNonDirectory(nodes, p);
    } else {
      var after := RemoveTree(nodes, p);
      forall k | k in after && HasParent(k)
        ensures Parent(k) in after
      {
        var q := Parent(k);
        if InTree(p, q) {
          assert Beneath(q, k);
          if q != p {
            BeneathTransitive(p, q, k);
          }
        }
      }
    }
  }

  /** The tree at a child of p, in a filesystem that has only lost entries,
      is strictly smaller than the tree at p. */
  lemma SubtreeOfChildIsSmaller(before: map<Path, Kind>, now: map<Path, Kind>, p: Path, c: Path)
    requires SubMap(now, before)
    requires p in before && IsChild(p, c)
    ensures forall k :: InTree(c, k) ==> InTree(p, k)
    ensures TreeEntries(now, c) < TreeEntries(before, p)
  {
    forall k | Beneath(c, k)
      ensures Beneath(p, k)
    {
      BeneathTransitive(p, c, k);
    }
    assert p in TreeEntries(before, p) && p !in TreeEntries(now, c);
  }

  /** Removing an entry with nothing beneath it is removing that one key,
      and it succeeds exactly when that key is not pinned. */
  lemma RemoveLeaf(nodes: map<Path, Kind>, pinned: set<Path>, p: Path)
    requires p in nodes && forall k :: k in nodes ==> !Beneath(p, k)
    ensures RemoveTree(nodes, p) == nodes - {p}
    ensures Removable(nodes, pinned, p) <==> p !in pinned
  {
  }

  /** The bookkeeping of one step of a recursive delete. Entries outside the
      tree at p, and pinned entries, survived up to now (`before` to `prev`);
      the child c of p was then deleted (`prev` to `now`), which kept
      everything outside its own tree and every pinned entry. Then those
      entries are still all kept, and when c could not be deleted, neither
      can p. */
  lemma ChildDeletionStep(before: map<Path, Kind>, prev: map<Path, Kind>, now: map<Path, Kind>,
                          pinned: set<Path>, p: Path, c: Path)
    requires SubMap(prev, before) && SubMap(now, prev)
    requires forall k :: k in before && (!InTree(p, k) || k in pinned) ==> k in prev
    requires forall k :: k in prev && (!InTree(c, k) || k in pinned) ==> k in now
    requires p in before && IsChild(p, c)
    ensures SubMap(now, before)
    ensures forall k :: k in before && (!InTree(p, k) || k in pinned) ==> k in now
    ensures !Removable(prev, pinned, c) ==> !Removable(before, pinned, p)
    ensures c in prev && c !in now ==> TreeEntries(now, p) < TreeEntries(prev, p)
  {
    SubtreeOfChildIsSmaller(before, prev, p, c);
    if c in prev && c !in now {
      assert TreeEntries(now, p) <= TreeEntries(prev, p);
      assert c in TreeEntries(prev, p) - TreeEntries(now, p);
    }
  }

  /** The last step of a recursive delete: p is left with nothing beneath
      it, and everything outside its tree and every pinned entry was kept.
      Then p can be removed exactly when it is not pinned, and removing it
      leaves what removing the whole original tree would. */
  lemma EmptiedDirectoryRemoval(before: map<Path, Kind>, now: map<Path, Kind>, pinned: set<Path>, p: Path)
    requires SubMap(now, before)
    requires forall k :: k in before && (!InTree(p, k) || k in pinned) ==> k in now
    requires p in now && forall k :: k in now ==> !Beneath(p, k)
    ensures Removable(before, pinned, p) <==> p !in pinned
    ensures now - {p} == RemoveTree(before, p)
  {
  }

  /** The filesystem the PHP process sees, changed in place by unlink, rmdir
      and mkdir. */
  class FileSystem {
    var nodes: map<Path, Kind>
    /** Paths whose removal the operating system refuses. */
    const pinned: set<Path>

    ghost predicate Valid()
      reads this
    {
      WellFormed(nodes)
    }

    constructor (nodes: map<Path, Kind>, pinned: set<Path>)
      requires WellFormed(nodes)
      ensures Valid() && this.nodes == nodes && this.pinned == pinned
    {
      this.nodes := nodes;
      this.pinned := pinned;
    }

    /** file_exists($p). */
    function FileExists(p: Path): bool
      reads this
    {
      p in nodes
    }

    /** is_link($p). */
    function IsLink(p: Path): bool
      reads this
    {
      p in nodes && nodes[p] == Link
    }

    /** is_dir($p). */
    function IsDir(p: Path): bool
      reads this
    {
      p in nodes && nodes[p] == Dir
    }

    /** The entries new FilesystemIterator($p) lists, in no specified order. */
    function Children(p: Path): (cs: set<Path>)
      reads this
      ensures forall c :: c in cs <==> c in nodes && IsChild(p, c)
      ensures WellFormed(nodes) ==> (cs == {} <==> forall k :: k in nodes ==> !Beneath(p, k))
    {
      var cs := set k | k in nodes && IsChild(p, k);
      assert WellFormed(nodes) && cs == {} ==> forall k :: k in nodes ==> !Beneath(p, k) by {
        if WellFormed(nodes) && cs == {} {
          forall c | c in nodes ensures !IsChild(p, c) {
            assert c !in cs;
          }
          NothingBeneathChildless(nodes, p);
        }
      }
      cs
    }

    /** unlink($p): removes a file or a link, never a directory. */
    method Unlink(p: Path) returns (ok: bool)
      requires Valid()
      modifies this
      ensures Valid()
      ensures ok <==> p in old(nodes) && old(nodes)[p] != Dir && p !in pinned
      ensures nodes == if ok then old(nodes) - {p} else old(nodes)
    {
      ok := p in nodes && nodes[p] != Dir && p !in pinned;
      if ok {
        nodes := nodes - {p};
      }
    }

    /** rmdir($p): removes an empty directory. */
    method Rmdir(p: Path) returns (ok: bool)
      requires Valid()
      modifies this
      ensures Valid()
      ensures ok <==> p in old(nodes) && old(nodes)[p] == Dir && old(Children(p)) == {} && p !in pinned
      ensures nodes == if ok then old(nodes) - {p} else old(nodes)
    {
      ok := p in nodes && nodes[p] == Dir && Children(p) == {} && p !in pinned;
      if ok {
        nodes := nodes - {p};
      }
    }

    /** mkdir($p, 0777, true). */
    method Mkdir(p: Path) returns (ok: bool)
      requires Valid()
      modifies this
      ensures Valid()
      ensures ok == MkdirOk(old(nodes), p)
      ensures nodes == MkdirResult(old(nodes), p)
    {
      ok := MkdirOk(nodes, p);
      if ok {
        MkdirAllProperties(nodes, p);
        nodes := MkdirAll(nodes, p);
      }
    }
  }
}
