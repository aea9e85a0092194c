/** Slab headers in memory, and the pointer surgery on them, against the list moves. */
module SlabMemory {
  import opened Slabs

  datatype Header = Header(
    next: nat, previous: nat, size: nat, isFree: bool, isReadonly: bool, isExecutable: bool)

  type Headers = map<nat, Header>

  function SetNext(m: Headers, a: nat, next: nat): Headers
    requires a in m
  {
    m[a := m[a].(next := next)]
  }

  function SetPrevious(m: Headers, a: nat, previous: nat): Headers
    requires a in m
  {
    m[a := m[a].(previous := previous)]
  }

  function SetSize(m: Headers, a: nat, size: nat): Headers
    requires a in m
  {
    m[a := m[a].(size := size)]
  }

  function SetFree(m: Headers, a: nat, isFree: bool): Headers
    requires a in m
  {
    m[a := m[a].(isFree := isFree)]
  }

  // ---------------------------------------------------------------- the ring

  function Next(s: seq<Slab>, i: nat): nat
    requires i < |s|
  {
    if i + 1 < |s| then s[i + 1].addr else s[0].addr
  }

  function Previous(s: seq<Slab>, i: nat): nat
    requires i < |s|
  {
    if 0 < i then s[i - 1].addr else s[|s| - 1].addr
  }

  function HeaderOf(s: seq<Slab>, i: nat): Header
    requires i < |s|
  {
    Header(Next(s, i), Previous(s, i), s[i].size, s[i].free, false, false)
  }

  function Successor(s: seq<Slab>, i: nat): (j: nat)
    requires i < |s|
    ensures j < |s| && s[j].addr == Next(s, i)
  {
    if i + 1 < |s| then i + 1 else 0
  }

  ghost predicate HeaderAt(m: Headers, s: seq<Slab>, i: nat)
    requires i < |s|
  {
    s[i].addr in m && m[s[i].addr] == HeaderOf(s, i)
  }

  /** Memory holds exactly the circular doubly linked list s: every slab's header is
      at its address, next and previous are the neighbours on the ring. */
  ghost predicate Linked(m: Headers, s: seq<Slab>) {
    forall i :: 0 <= i < |s| ==> HeaderAt(m, s, i)
  }

  ghost predicate Distinct(s: seq<Slab>) {
    forall i, j :: 0 <= i < j < |s| ==> s[i].addr != s[j].addr
  }

  ghost predicate Unused(s: seq<Slab>, a: nat) {
    forall i :: 0 <= i < |s| ==> s[i].addr != a
  }

  /** next and previous are mutual inverses on the ring. */
  lemma LinksInverse(m: Headers, s: seq<Slab>, i: nat)
    requires Linked(m, s) && i < |s|
    ensures var a := s[i].addr;
      && a in m
      && m[a].next in m && m[m[a].next].previous == a
      && m[a].previous in m && m[m[a].previous].next == a
  {
    assert HeaderAt(m, s, i);
    assert HeaderAt(m, s, if i + 1 < |s| then i + 1 else 0);
    assert HeaderAt(m, s, if 0 < i then i - 1 else |s| - 1);
  }

  lemma MarkLinked(m: Headers, s: seq<Slab>, k: nat, isFree: bool)
    requires Linked(m, s) && Distinct(s) && k < |s|
    ensures s[k].addr in m && Linked(SetFree(m, s[k].addr, isFree), Mark(s, k, isFree))
  {
    assert HeaderAt(m, s, k);
    var m1, r := SetFree(m, s[k].addr, isFree), Mark(s, k, isFree);
    forall i | 0 <= i < |r|
      ensures HeaderAt(m1, r, i)
    {
      assert HeaderAt(m, s, i);
    }
  }

  /** The stores of create_new_pages: the new slab goes between the tail and the head. */
  function LinkPages(m: Headers, head: nat, tail: nat, base: nat, size: nat): Headers
    requires head in m && tail in m
  {
    var m1 := m[base := Header(base, base, size, true, false, false)];
    var m2 := SetNext(m1, tail, base);
    var m3 := SetPrevious(m2, base, tail);
    var m4 := SetNext(m3, base, head);
    SetPrevious(m4, head, base)
  }

  lemma GrowLinked(m: Headers, s: seq<Slab>, base: nat, size: nat)
    requires Linked(m, s) && Distinct(s) && 0 < |s| && Unused(s, base)
    ensures s[0].addr in m && Last(s).addr in m
    ensures Linked(LinkPages(m, s[0].addr, Last(s).addr, base, size), s + [Slab(base, size, true)])
  {
    assert HeaderAt(m, s, 0) && HeaderAt(m, s, |s| - 1);
    var r := s + [Slab(base, size, true)];
    var m1 := LinkPages(m, s[0].addr, Last(s).addr, base, size);
    forall i | 0 <= i < |r|
      ensures HeaderAt(m1, r, i)
    {
      if i < |s| {
        assert r[i] == s[i] && HeaderAt(m, s, i);
      }
    }
  }

  /** The stores of the bifurcation in kallocate. */
  function LinkSplit(m: Headers, a: nat, b: nat, n: nat, rest: nat): Headers
    requires a in m && m[a].next in m
  {
    var m1 := SetSize(m, a, n);
    var m2 := m1[b := Header(m1[a].next, a, rest, true, m1[a].isReadonly, m1[a].isExecutable)];
    var m3 := SetPrevious(m2, m[a].next, b);
    SetNext(m3, a, b)
  }

  /** The same four stores with the last two exchanged, as in the aligned path. */
  function LinkSplitFirst(m: Headers, a: nat, b: nat, n: nat, rest: nat): Headers
    requires a in m && m[a].next in m
  {
    var next := m[a].next;
    var m1 := SetSize(m, a, n);
    var m2 := m1[b := Header(next, a, rest, true, m1[a].isReadonly, m1[a].isExecutable)];
    var m3 := SetNext(m2, a, b);
    SetPrevious(m3, next, b)
  }

  lemma SplitOrder(m: Headers, a: nat, b: nat, n: nat, rest: nat)
    requires a in m && m[a].next in m && b != a && b != m[a].next
    ensures LinkSplitFirst(m, a, b, n, rest) == LinkSplit(m, a, b, n, rest)
  {
  }

  /** r is s with slab k split, said element by element. */
  ghost predicate SplitShape(s: seq<Slab>, r: seq<Slab>, k: nat, n: nat) {
    && k < |s| && |r| == |s| + 1
    && (forall i {:trigger r[i]} :: 0 <= i < k ==> r[i] == s[i])
    && r[k] == Slab(s[k].addr, n, s[k].free)
    && r[k + 1] == Slab(s[k].addr + HEADER + n, r[k + 1].size, true)
    && (forall i {:trigger r[i]} :: k + 1 < i < |r| ==> r[i] == s[i - 1])
  }

  /** Only slab k and its ring successor see the new slab. */
  lemma SplitHeaders(s: seq<Slab>, r: seq<Slab>, k: nat, n: nat, j: nat)
    requires SplitShape(s, r, k, n) && j < |s|
    ensures var b := r[k + 1].addr;
      var h := if j == k then HeaderOf(s, j).(size := n, next := b) else HeaderOf(s, j);
      && HeaderOf(r, if j <= k then j else j + 1) == (if j == Successor(s, k) then h.(previous := b) else h)
      && HeaderOf(r, k + 1) == Header(Next(s, k), s[k].addr, r[k + 1].size, true, false, false)
  {
  }

  lemma LinkSplitAt(m: Headers, a: nat, b: nat, n: nat, rest: nat, x: nat)
    requires a in m && m[a].next in m && b != a && b != m[a].next
    ensures var m1 := LinkSplit(m, a, b, n, rest);
      && b in m1 && m1[b] == Header(m[a].next, a, rest, true, m[a].isReadonly, m[a].isExecutable)
      && (x in m && x != b ==>
        var h := if x == a then m[x].(size := n, next := b) else m[x];
        x in m1 && m1[x] == (if x == m[a].next then h.(previous := b) else h))
  {
  }

  lemma SplitLinkedAt(m: Headers, s: seq<Slab>, r: seq<Slab>, k: nat, n: nat, j: nat)
    requires Linked(m, s) && Distinct(s) && SplitShape(s, r, k, n) && j < |s|
    requires Unused(s, r[k + 1].addr)
    ensures var a, b := s[k].addr, r[k + 1].addr;
      && a in m && m[a].next in m
      && var m1 := LinkSplit(m, a, b, n, r[k + 1].size);
      && s[j].addr in m1 && m1[s[j].addr] == HeaderOf(r, if j <= k then j else j + 1)
      && b in m1 && m1[b] == HeaderOf(r, k + 1)
  {
    assert HeaderAt(m, s, k) && HeaderAt(m, s, j) && HeaderAt(m, s, Successor(s, k));
    LinkSplitAt(m, s[k].addr, r[k + 1].addr, n, r[k + 1].size, s[j].addr);
    SplitHeaders(s, r, k, n, j);
  }

  lemma SplitLinked(m: Headers, s: seq<Slab>, r: seq<Slab>, k: nat, n: nat)
    requires Linked(m, s) && Distinct(s) && SplitShape(s, r, k, n)
    requires Unused(s, r[k + 1].addr)
    ensures var a, b := s[k].addr, r[k + 1].addr;
      && a in m && m[a].next in m
      && Linked(LinkSplit(m, a, b, n, r[k + 1].size), r)
  {
    SplitLinkedAt(m, s, r, k, n, k);
    var m1 := LinkSplit(m, s[k].addr, r[k + 1].addr, n, r[k + 1].size);
    forall i | 0 <= i < |r|
      ensures HeaderAt(m1, r, i)
    {
      SplitLinkedAt(m, s, r, k, n, if i <= k then i else i - 1);
    }
  }

  /** The stores of kfree that join a with its list successor. */
  function LinkMergeNext(m: Headers, a: nat, size: nat): Headers
    requires a in m && m[a].next in m && m[m[a].next].next in m
  {
    var gone := m[a].next;
    var m1 := SetNext(m, a, m[gone].next);
    var m2 := SetPrevious(m1, m1[a].next, a);
    SetSize(m2, a, size)
  }

  /** The stores of kfree that join a with its list predecessor. */
  function LinkMergePrevious(m: Headers, a: nat, size: nat): Headers
    requires a in m && m[a].next in m && m[a].previous in m
  {
    var rhs, lhs := m[a].next, m[a].previous;
    var m1 := SetPrevious(m, rhs, lhs);
    var m2 := SetNext(m1, lhs, rhs);
    SetSize(m2, lhs, size)
  }

  /** r is s with slab k + 1 swallowed by slab k, said element by element. */
  ghost predicate MergeShape(s: seq<Slab>, r: seq<Slab>, k: nat) {
    && k + 1 < |s|
    && |r| == |s| - 1
    && (forall i {:trigger r[i]} :: 0 <= i < k ==> r[i] == s[i])
    && r[k] == Slab(s[k].addr, r[k].size, true)
    && (forall i {:trigger r[i]} :: k < i < |r| ==> r[i] == s[i + 1])
  }

  /** Only slab k and the ring successor of the swallowed slab change. */
  lemma MergeHeaders(s: seq<Slab>, r: seq<Slab>, k: nat, j: nat)
    requires MergeShape(s, r, k) && j < |s| && j != k + 1
    ensures
      var h := if j == k then HeaderOf(s, j).(size := r[k].size, next := Next(s, k + 1), isFree := true)
               else HeaderOf(s, j);
      HeaderOf(r, if j <= k then j else j - 1)
      == (if j == Successor(s, k + 1) then h.(previous := s[k].addr) else h)
  {
  }

  /** Both orders of stores give the same memory. */
  lemma LinkMergeAt(m: Headers, a: nat, gone: nat, size: nat, x: nat)
    requires a in m && gone in m && a != gone && m[gone].next in m && m[gone].next != gone
    requires m[a].next == gone && m[gone].previous == a && x in m
    ensures
      var h := if x == a then m[x].(size := size, next := m[gone].next) else m[x];
      var h' := if x == m[gone].next then h.(previous := a) else h;
      && x in LinkMergeNext(m, a, size) && LinkMergeNext(m, a, size)[x] == h'
      && x in LinkMergePrevious(m, gone, size) && LinkMergePrevious(m, gone, size)[x] == h'
  {
  }

  lemma MergeLinkedAt(m: Headers, s: seq<Slab>, r: seq<Slab>, k: nat, j: nat)
    requires Linked(m, s) && Distinct(s) && MergeShape(s, r, k) && s[k].free && j < |s| && j != k + 1
    ensures var a, gone := s[k].addr, s[k + 1].addr;
      && a in m && m[a].next == gone && gone in m && m[gone].previous == a && m[gone].next in m
      && var m1, m2 := LinkMergeNext(m, a, r[k].size), LinkMergePrevious(m, gone, r[k].size);
      && s[j].addr in m1 && m1[s[j].addr] == HeaderOf(r, if j <= k then j else j - 1)
      && s[j].addr in m2 && m2[s[j].addr] == HeaderOf(r, if j <= k then j else j - 1)
  {
    var c := Successor(s, k + 1);
    assert HeaderAt(m, s, k) && HeaderAt(m, s, k + 1) && HeaderAt(m, s, j) && HeaderAt(m, s, c);
    LinkMergeAt(m, s[k].addr, s[k + 1].addr, r[k].size, s[j].addr);
    MergeHeaders(s, r, k, j);
  }

  lemma MergeLinked(m: Headers, s: seq<Slab>, r: seq<Slab>, k: nat)
    requires Linked(m, s) && Distinct(s) && MergeShape(s, r, k) && s[k].free
    ensures var a, gone := s[k].addr, s[k + 1].addr;
      && a in m && m[a].next == gone && gone in m && m[gone].previous == a && m[gone].next in m
      && Linked(LinkMergeNext(m, a, r[k].size), r)
      && Linked(LinkMergePrevious(m, gone, r[k].size), r)
  {
    MergeLinkedAt(m, s, r, k, k);
    var m1, m2 := LinkMergeNext(m, s[k].addr, r[k].size), LinkMergePrevious(m, s[k + 1].addr, r[k].size);
    forall i | 0 <= i < |r|
      ensures HeaderAt(m1, r, i) && HeaderAt(m2, r, i)
    {
      MergeLinkedAt(m, s, r, k, if i <= k then i else i + 1);
    }
    assert Linked(m1, r);
    assert Linked(m2, r) by {
      forall i | 0 <= i < |r|
        ensures HeaderAt(m2, r, i)
      {
        assert HeaderAt(m1, r, i);
      }
    }
  }
}
