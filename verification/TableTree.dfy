/** The radix tree of table frames, and what one store into it does to the walks. */
module TableTree {
  import opened Common
  import opened PageTables

  /** Physical frames that hold tables, by frame number. */
  type Ram = map<nat, seq<nat>>

  /** Frame of the table reached by each path prefix; the empty prefix is the pml4. */
  type Tree = map<seq<nat>, nat>

  function Read(m: Ram, f: nat, i: nat): nat {
    if f in m && i < |m[f]| then m[f][i] else 0
  }

  // ---------------------------------------------------------------- the hardware walk

  datatype Translation = Translation(
    frame: nat, writable: bool, user: bool, writeThrough: bool, cacheDisabled: bool)

  /** Address translation and access rights: a page is writable, or accessible to user
      mode, only if every entry on the walk says so. */
  function Walk(m: Ram, f: nat, path: seq<nat>): Option<Translation>
    requires 0 < |path|
    decreases |path|
  {
    var e := Read(m, f, path[0]);
    if !Present(e) then None
    else if |path| == 1 then Some(Translation(Frame(e), Writable(e), User(e), WriteThrough(e), CacheDisabled(e)))
    else match Walk(m, Frame(e), path[1..])
      case None => None
      case Some(t) => Some(t.(writable := Writable(e) && t.writable, user := User(e) && t.user))
  }

  function Translate(m: Ram, root: nat, virt: nat): Option<Translation> {
    Walk(m, root, Path(virt))
  }

  /** Every table entry present on the way to the page table has the write bit. */
  predicate OpenPath(m: Ram, f: nat, path: seq<nat>)
    requires 0 < |path|
    decreases |path|
  {
    var e := Read(m, f, path[0]);
    |path| == 1 || !Present(e) || (Writable(e) && OpenPath(m, Frame(e), path[1..]))
  }

  // ---------------------------------------------------------------- the invariant

  ghost predicate Node(m: Ram, at: Tree, p: seq<nat>)
    requires p in at
  {
    && |p| <= 3
    && at[p] in m && |m[at[p]]| == ENTRIES && at[p] < W40
    && (0 < |p| ==> p[..|p| - 1] in at && p[|p| - 1] < ENTRIES)
  }

  /** An upper entry is present exactly when the tree has that child, and then points to it;
      none maps a large page, so the walk needs no case for them. */
  ghost predicate Link(m: Ram, at: Tree, p: seq<nat>, i: nat)
    requires p in at
  {
    var e := Read(m, at[p], i);
    && (Present(e) <==> p + [i] in at)
    && (Present(e) ==> Frame(e) == at[p + [i]] && User(e) && !PageSize(e))
  }

  ghost predicate Apart(at: Tree, p: seq<nat>, q: seq<nat>)
    requires p in at && q in at
  {
    p != q ==> at[p] != at[q]
  }

  /** Table frames are pairwise distinct and hold exactly the links of the tree, so each
      table but the pml4 is reached by exactly one entry. */
  ghost predicate Wellformed(m: Ram, at: Tree, root: nat) {
    && [] in at && at[[]] == root
    && (forall p {:trigger Node(m, at, p)} :: p in at ==> Node(m, at, p))
    && (forall p, i: nat {:trigger Link(m, at, p, i)} :: p in at && |p| < 3 && i < ENTRIES ==> Link(m, at, p, i))
    && (forall p, q {:trigger Apart(at, p, q)} :: p in at && q in at ==> Apart(at, p, q))
  }

  predicate PointsTo(m: Ram, f: nat, i: nat, target: nat) {
    Present(Read(m, f, i)) && Frame(Read(m, f, i)) == target
  }

  /** What Wellformed means: a table below the pml4 is the target of one entry and no other. */
  lemma OneParent(m: Ram, at: Tree, root: nat, p: seq<nat>)
    requires Wellformed(m, at, root) && p in at && p != []
    ensures var parent, i := p[..|p| - 1], p[|p| - 1];
      && parent in at && i < ENTRIES
      && PointsTo(m, at[parent], i, at[p])
      && (forall q, j: nat ::
           q in at && |q| < 3 && j < ENTRIES && PointsTo(m, at[q], j, at[p]) ==> q == parent && j == i)
  {
    assert Node(m, at, p);
    var parent, i := p[..|p| - 1], p[|p| - 1];
    assert parent + [i] == p;
    assert Link(m, at, parent, i);
    forall q, j: nat | q in at && |q| < 3 && j < ENTRIES && PointsTo(m, at[q], j, at[p])
      ensures q == parent && j == i
    {
      assert Link(m, at, q, j);
      assert Apart(at, q + [j], p);
      assert q == (q + [j])[..|q|];
    }
  }

  // ---------------------------------------------------------------- adding a table

  function Zeroed(): seq<nat> { seq(ENTRIES, _ => 0) }

  /** A zeroed frame f is linked at index i of the table for prefix p. */
  function AddTable(m: Ram, at: Tree, p: seq<nat>, i: nat, f: nat, rw: bool): Ram
    requires p in at && at[p] in m && i < |m[at[p]]|
  {
    var table: seq<nat> := m[at[p]][i := DirEntry(rw, f * PAGE)];
    m[f := Zeroed()][at[p] := table]
  }

  ghost predicate CanAdd(m: Ram, at: Tree, root: nat, p: seq<nat>, i: nat, f: nat) {
    && Wellformed(m, at, root)
    && p in at && |p| < 3 && i < ENTRIES && p + [i] !in at
    && f < W40 && (forall q :: q in at ==> at[q] != f)
  }

  lemma AddTableReads(m: Ram, at: Tree, root: nat, p: seq<nat>, i: nat, f: nat, rw: bool, q: seq<nat>, j: nat)
    requires CanAdd(m, at, root, p, i, f) && q in at && j < ENTRIES
    ensures at[p] in m && |m[at[p]]| == ENTRIES
    ensures var m1 := AddTable(m, at, p, i, f, rw);
      && Read(m1, at[q], j) == (if q == p && j == i then DirEntry(rw, f * PAGE) else Read(m, at[q], j))
      && Read(m1, f, j) == 0
  {
    assert Node(m, at, p) && Node(m, at, q) && Apart(at, p, q);
  }

  lemma NoOrphans(m: Ram, at: Tree, root: nat, q: seq<nat>, j: nat)
    requires Wellformed(m, at, root) && q !in at
    ensures q + [j] !in at
  {
    assert (q + [j])[..|q|] == q;
    assert q + [j] in at ==> Node(m, at, q + [j]);
  }

  lemma AddTableLink(m: Ram, at: Tree, root: nat, p: seq<nat>, i: nat, f: nat, rw: bool, q: seq<nat>, j: nat)
    requires CanAdd(m, at, root, p, i, f) && (q in at || q == p + [i]) && |q| < 3 && j < ENTRIES
    ensures at[p] in m && |m[at[p]]| == ENTRIES
    ensures Link(AddTable(m, at, p, i, f, rw), at[p + [i] := f], q, j)
  {
    DirEntryFields(rw, f * PAGE);
    var c := p + [i];
    AddTableReads(m, at, root, p, i, f, rw, if q == c then p else q, j);
    assert (q + [j])[..|q|] == q && c[..|p|] == p && c[|p|] == i && (q + [j])[|q|] == j;
    if q == c {
      NoOrphans(m, at, root, c, j);
    } else {
      assert Link(m, at, q, j);
    }
  }

  lemma AddTableWellformed(m: Ram, at: Tree, root: nat, p: seq<nat>, i: nat, f: nat, rw: bool)
    requires CanAdd(m, at, root, p, i, f)
    ensures at[p] in m && |m[at[p]]| == ENTRIES
    ensures Wellformed(AddTable(m, at, p, i, f, rw), at[p + [i] := f], root)
  {
    assert Node(m, at, p);
    var m1, at1, c := AddTable(m, at, p, i, f, rw), at[p + [i] := f], p + [i];
    forall q | q in at1
      ensures Node(m1, at1, q)
    {
      if q == c {
        assert q[..|q| - 1] == p;
      } else {
        assert Node(m, at, q);
      }
    }
    forall q, j: nat | q in at1 && |q| < 3 && j < ENTRIES
      ensures Link(m1, at1, q, j)
    {
      AddTableLink(m, at, root, p, i, f, rw, q, j);
    }
    forall q, r | q in at1 && r in at1
      ensures Apart(at1, q, r)
    {
      if q != c && r != c { assert Apart(at, q, r); }
    }
  }

  /** Linking an empty table changes no translation. */
  lemma {:induction false} AddTableWalk(
    m: Ram, at: Tree, root: nat, p: seq<nat>, i: nat, f: nat, rw: bool, q: seq<nat>, path: seq<nat>)
    requires CanAdd(m, at, root, p, i, f)
    requires q in at && |q| + |path| == 4 && 0 < |path| && forall k :: 0 <= k < |path| ==> path[k] < ENTRIES
    ensures at[p] in m && |m[at[p]]| == ENTRIES
    ensures Walk(AddTable(m, at, p, i, f, rw), at[q], path) == Walk(m, at[q], path)
    decreases |path|
  {
    assert Node(m, at, p);
    var m1 := AddTable(m, at, p, i, f, rw);
    AddTableReads(m, at, root, p, i, f, rw, q, path[0]);
    assert |q| < 3 ==> Link(m, at, q, path[0]);
    if q == p && path[0] == i {
      DirEntryFields(rw, f * PAGE);
      AddTableReads(m, at, root, p, i, f, rw, q, path[1]);
      assert Walk(m1, f, path[1..]).None?;
    } else if |path| > 1 && Present(Read(m, at[q], path[0])) {
      AddTableWalk(m, at, root, p, i, f, rw, q + [path[0]], path[1..]);
    }
  }

  /** The new entry closes exactly the paths through it, unless it has the write bit. */
  lemma {:induction false} AddTableOpen(
    m: Ram, at: Tree, root: nat, p: seq<nat>, i: nat, f: nat, rw: bool, q: seq<nat>, path: seq<nat>)
    requires CanAdd(m, at, root, p, i, f)
    requires q in at && |q| + |path| == 4 && 0 < |path| && forall k :: 0 <= k < |path| ==> path[k] < ENTRIES
    ensures at[p] in m && |m[at[p]]| == ENTRIES
    ensures OpenPath(AddTable(m, at, p, i, f, rw), at[q], path) <==>
      OpenPath(m, at[q], path) && (rw || |q| > |p| || (q + path)[..|p| + 1] != p + [i])
    decreases |path|
  {
    assert Node(m, at, p);
    var m1, c := AddTable(m, at, p, i, f, rw), p + [i];
    AddTableReads(m, at, root, p, i, f, rw, q, path[0]);
    assert |q| < 3 ==> Link(m, at, q, path[0]);
    assert |q| <= |p| ==> (q + path)[..|p| + 1][..|q|] == q && c[..|p|] == p && c[|p|] == i;
    assert |q| == |p| ==> (q + path)[..|p| + 1][|p|] == path[0];
    if q == p && path[0] == i {
      DirEntryFields(rw, f * PAGE);
      AddTableReads(m, at, root, p, i, f, rw, q, path[1]);
      assert OpenPath(m1, f, path[1..]);
      assert (q + path)[..|p| + 1] == c;
    } else if |path| > 1 && Present(Read(m, at[q], path[0])) {
      assert q + [path[0]] + path[1..] == q + path;
      AddTableOpen(m, at, root, p, i, f, rw, q + [path[0]], path[1..]);
    } else if |q| < |p| {
      PrefixIn(m, at, root, p, |q| + 1);
      var n := |q| + 1;
      assert (q + path)[..n] == q + [path[0]] && c[..n] == p[..n];
      PrefixesDiffer(q + path, c, n, |p| + 1);
    }
  }

  lemma PrefixesDiffer(a: seq<nat>, b: seq<nat>, n: nat, m: nat)
    requires n <= m <= |a| && m <= |b| && a[..n] != b[..n]
    ensures a[..m] != b[..m]
  {
    assert a[..n] == a[..m][..n] && b[..n] == b[..m][..n];
  }

  /** A zeroed pml4 alone is a well-formed tree under which nothing is mapped. */
  lemma EmptyTree(m: Ram, f: nat)
    requires f < W40 && f in m && m[f] == Zeroed()
    ensures Wellformed(m, map[[] := f], f)
    ensures forall v :: Translate(m, f, v).None? && OpenPath(m, f, Path(v))
  {
    assert forall i: nat :: i < ENTRIES ==> Link(m, map[[] := f], [], i);
  }

  // ---------------------------------------------------------------- setting a leaf

  function SetLeaf(m: Ram, at: Tree, p: seq<nat>, i: nat, e: nat): Ram
    requires p in at && at[p] in m && i < |m[at[p]]|
  {
    var table: seq<nat> := m[at[p]][i := e];
    m[at[p] := table]
  }

  ghost predicate CanSet(m: Ram, at: Tree, root: nat, p: seq<nat>, i: nat) {
    Wellformed(m, at, root) && p in at && |p| == 3 && i < ENTRIES
  }

  lemma SetLeafReads(m: Ram, at: Tree, root: nat, p: seq<nat>, i: nat, e: nat, q: seq<nat>, j: nat)
    requires CanSet(m, at, root, p, i) && q in at && j < ENTRIES
    ensures at[p] in m && |m[at[p]]| == ENTRIES
    ensures Read(SetLeaf(m, at, p, i, e), at[q], j) == if q == p && j == i then e else Read(m, at[q], j)
  {
    assert Node(m, at, p) && Node(m, at, q) && Apart(at, p, q);
  }

  lemma SetLeafWellformed(m: Ram, at: Tree, root: nat, p: seq<nat>, i: nat, e: nat)
    requires CanSet(m, at, root, p, i)
    ensures at[p] in m && |m[at[p]]| == ENTRIES
    ensures Wellformed(SetLeaf(m, at, p, i, e), at, root)
  {
    assert Node(m, at, p);
    var m1 := SetLeaf(m, at, p, i, e);
    forall q | q in at
      ensures Node(m1, at, q)
    {
      assert Node(m, at, q);
    }
    forall q, j: nat | q in at && |q| < 3 && j < ENTRIES
      ensures Link(m1, at, q, j)
    {
      SetLeafReads(m, at, root, p, i, e, q, j);
      assert Link(m, at, q, j);
    }
  }

  /** Writing a leaf changes the translation of that one path and of no other. */
  lemma {:induction false} SetLeafWalk(
    m: Ram, at: Tree, root: nat, p: seq<nat>, i: nat, e: nat, q: seq<nat>, path: seq<nat>)
    requires CanSet(m, at, root, p, i)
    requires q in at && |q| + |path| == 4 && 0 < |path| && forall k :: 0 <= k < |path| ==> path[k] < ENTRIES
    requires q + path != p + [i]
    ensures at[p] in m && |m[at[p]]| == ENTRIES
    ensures Walk(SetLeaf(m, at, p, i, e), at[q], path) == Walk(m, at[q], path)
    decreases |path|
  {
    SetLeafReads(m, at, root, p, i, e, q, path[0]);
    if |path| == 1 {
      assert path == [path[0]];
    } else {
      assert Link(m, at, q, path[0]);
      if Present(Read(m, at[q], path[0])) {
        assert q + [path[0]] + path[1..] == q + path;
        SetLeafWalk(m, at, root, p, i, e, q + [path[0]], path[1..]);
      }
    }
  }

  /** Leaves are not on the way to a page table. */
  lemma {:induction false} SetLeafOpen(
    m: Ram, at: Tree, root: nat, p: seq<nat>, i: nat, e: nat, q: seq<nat>, path: seq<nat>)
    requires CanSet(m, at, root, p, i)
    requires q in at && |q| + |path| == 4 && 0 < |path| && forall k :: 0 <= k < |path| ==> path[k] < ENTRIES
    ensures at[p] in m && |m[at[p]]| == ENTRIES
    ensures OpenPath(SetLeaf(m, at, p, i, e), at[q], path) == OpenPath(m, at[q], path)
    decreases |path|
  {
    SetLeafReads(m, at, root, p, i, e, q, path[0]);
    if |path| > 1 {
      assert Link(m, at, q, path[0]);
      if Present(Read(m, at[q], path[0])) {
        SetLeafOpen(m, at, root, p, i, e, q + [path[0]], path[1..]);
      }
    }
  }

  /** Walking to the leaf just written finds it, with the rights of the whole path. */
  lemma {:induction false} SetLeafFound(
    m: Ram, at: Tree, root: nat, p: seq<nat>, i: nat, e: nat, q: seq<nat>, path: seq<nat>)
    requires CanSet(m, at, root, p, i) && Present(e)
    requires q in at && |q| + |path| == 4 && 0 < |path| && q + path == p + [i]
    ensures at[p] in m && |m[at[p]]| == ENTRIES
    ensures Walk(SetLeaf(m, at, p, i, e), at[q], path) ==
      Some(Translation(Frame(e), OpenPath(m, at[q], path) && Writable(e), User(e), WriteThrough(e), CacheDisabled(e)))
    decreases |path|
  {
    assert path[0] == (p + [i])[|q|];
    assert q == (p + [i])[..|q|];
    if |path| == 1 {
      assert q == p;
      SetLeafReads(m, at, root, p, i, e, q, path[0]);
    } else {
      PrefixIn(m, at, root, p, |q| + 1);
      assert p[..|q| + 1] == q + [path[0]];
      assert Node(m, at, q + [path[0]]);
      SetLeafReads(m, at, root, p, i, e, q, path[0]);
      assert Link(m, at, q, path[0]);
      assert q + [path[0]] + path[1..] == q + path;
      SetLeafFound(m, at, root, p, i, e, q + [path[0]], path[1..]);
    }
  }

  lemma {:induction false} PrefixIn(m: Ram, at: Tree, root: nat, p: seq<nat>, n: nat)
    requires Wellformed(m, at, root) && p in at && n <= |p|
    ensures p[..n] in at
    decreases |p|
  {
    if n < |p| {
      assert Node(m, at, p);
      PrefixIn(m, at, root, p[..|p| - 1], n);
      assert p[..|p| - 1][..n] == p[..n];
    } else {
      assert p[..n] == p;
    }
  }
}
