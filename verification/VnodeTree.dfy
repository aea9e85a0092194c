/** The tree of vnodes and the path lookup in it. */
module VnodeTree {
  import opened Common
  import opened Paths

  class Vnode {
    const name: string
    const inodeNum: nat
    const isDir: bool
    // of its inode
    const size: nat
    var children: seq<Vnode>

    constructor (n: string, i: nat, dir: bool, s: nat)
      ensures name == n && inodeNum == i && isDir == dir && size == s && children == []
    {
      name := n;
      inodeNum := i;
      isDir := dir;
      size := s;
      children := [];
    }

    method AddChild(c: Vnode)
      modifies this`children
      ensures children == old(children) + [c]
    {
      children := children + [c];
    }
  }

  /** Position of the first child with the name, the number of children when there is none. */
  function FirstNamed(cs: seq<Vnode>, name: string): (i: nat)
    ensures i <= |cs| && (i < |cs| ==> cs[i].name == name) && forall j :: 0 <= j < i ==> cs[j].name != name
  {
    FirstBy(cs, (c: Vnode) => c.name, name)
  }

  ghost predicate ChildrenIn(v: Vnode, all: set<Vnode>)
    reads v
  {
    forall c :: c in v.children ==> c in all
  }

  ghost predicate Closed(all: set<Vnode>)
    reads all
  {
    forall v {:trigger ChildrenIn(v, all)} :: v in all ==> ChildrenIn(v, all)
  }

  /** Follow the names downwards, taking the first child of each name; null when one is missing. */
  ghost function Resolve(cur: Vnode, names: seq<string>, all: set<Vnode>): Vnode?
    requires cur in all && Closed(all)
    reads all
    decreases |names|
  {
    if |names| == 0 then cur
    else
      var i := FirstNamed(cur.children, names[0]);
      if i < |cur.children| then
        assert ChildrenIn(cur, all);
        Resolve(cur.children[i], names[1..], all)
      else null
  }

  lemma SlashOnly()
    ensures Components("/") == []
  {
    assert "/"[1..] == "";
  }

  /** VFS::find. A failed lookup falls off the end of the source; it is null here. */
  method Find(root: Vnode, path: CString, ghost all: set<Vnode>) returns (r: Vnode?)
    requires root in all && Closed(all)
    ensures r == if At(path, 0) != '/' then null else Resolve(root, Components(path), all)
  {
    if At(path, 0) != '/' {
      return null;
    }
    var spath := SplitPath(path);
    var cur := root;
    if path == "/" {
      SlashOnly();
      return cur;
    }
    var d := 0;
    while d < |spath|
      invariant d <= |spath| && cur in all
      invariant Resolve(cur, spath[d..], all) == Resolve(root, spath, all)
    {
      var child: Vnode? := null;
      var i := 0;
      while i < |cur.children|
        invariant i <= |cur.children|
        invariant forall j :: 0 <= j < i ==> cur.children[j].name != spath[d]
      {
        if cur.children[i].name == spath[d] {
          child := cur.children[i];
          break;
        }
        i := i + 1;
      }
      assert i == FirstNamed(cur.children, spath[d]);
      if i == |cur.children| {
        return null;
      }
      assert spath[d..][1..] == spath[d + 1..];
      assert ChildrenIn(cur, all);
      cur := child;
      d := d + 1;
    }
    return cur;
  }

  // ---------------------------------------------------------------- a tree built from keys

  type Key = seq<string>

  lemma FirstIs(keys: seq<Key>, key: Key, i: nat)
    requires i < |keys| && keys[i] == key && forall j :: 0 <= j < i ==> keys[j] != key
    ensures First(keys, key) == i
  {
  }

  /** A later key changes no earlier answer. */
  lemma FirstStays(keys: seq<Key>, more: Key, key: Key)
    ensures First(keys + [more], key) ==
      if First(keys, key) < |keys| then First(keys, key) else if key == more then |keys| else |keys| + 1
  {
    var i := First(keys, key);
    if i < |keys| {
      FirstIs(keys + [more], key, i);
    } else if key == more {
      FirstIs(keys + [more], key, |keys|);
    }
  }

  predicate Under(key: Key, parent: Key) {
    |key| > 0 && key[..|key| - 1] == parent
  }

  /** The nodes registered directly under a parent key, in order. */
  function Kids(nodes: seq<Vnode>, keys: seq<Key>, parent: Key): seq<Vnode>
    requires |nodes| == |keys|
  {
    if |keys| == 0 then []
    else
      var n := |keys| - 1;
      Kids(nodes[..n], keys[..n], parent) + if Under(keys[n], parent) then [nodes[n]] else []
  }

  /** Every key but the first is non-empty, names its node, and has its parent before it. */
  ghost predicate Listed(nodes: seq<Vnode>, keys: seq<Key>, k: nat)
    requires |nodes| == |keys| && k < |keys|
  {
    if k == 0 then keys[0] == []
    else |keys[k]| > 0 && nodes[k].name == keys[k][|keys[k]| - 1] && First(keys, keys[k][..|keys[k]| - 1]) < k
  }

  ghost predicate Placed(nodes: seq<Vnode>, keys: seq<Key>, k: nat)
    requires |nodes| == |keys| && k < |keys|
    reads nodes
  {
    nodes[k].children == if First(keys, keys[k]) == k then Kids(nodes, keys, keys[k]) else []
  }

  ghost predicate DistinctNodes(nodes: seq<Vnode>) {
    forall i, j :: 0 <= i < j < |nodes| ==> nodes[i] != nodes[j]
  }

  ghost predicate AllListed(nodes: seq<Vnode>, keys: seq<Key>) {
    && |nodes| == |keys| && 0 < |keys|
    && DistinctNodes(nodes)
    && (forall k {:trigger Listed(nodes, keys, k)} :: 0 <= k < |keys| ==> Listed(nodes, keys, k))
  }

  /** nodes[k] was registered at keys[k]: its children are the nodes registered under it, if
      it is the first with its key. */
  ghost predicate Registered(nodes: seq<Vnode>, keys: seq<Key>)
    reads nodes
  {
    && AllListed(nodes, keys)
    && (forall k {:trigger Placed(nodes, keys, k)} :: 0 <= k < |keys| ==> Placed(nodes, keys, k))
  }

  lemma {:induction false} KidsIn(nodes: seq<Vnode>, keys: seq<Key>, parent: Key)
    requires |nodes| == |keys|
    ensures forall c :: c in Kids(nodes, keys, parent) ==> c in nodes
    decreases |keys|
  {
    if |keys| != 0 {
      KidsIn(nodes[..|keys| - 1], keys[..|keys| - 1], parent);
    }
  }

  lemma RegisteredClosed(nodes: seq<Vnode>, keys: seq<Key>)
    requires Registered(nodes, keys)
    ensures Closed(set v | v in nodes)
  {
    var all := set v | v in nodes;
    forall v | v in all
      ensures ChildrenIn(v, all)
    {
      var k :| 0 <= k < |nodes| && nodes[k] == v;
      assert Placed(nodes, keys, k);
      KidsIn(nodes, keys, keys[k]);
    }
  }

  lemma FirstNamedSnoc(cs: seq<Vnode>, c: Vnode, name: string)
    ensures FirstNamed(cs + [c], name) ==
      if FirstNamed(cs, name) < |cs| then FirstNamed(cs, name) else if c.name == name then |cs| else |cs| + 1
  {
    var i, r := FirstNamed(cs, name), cs + [c];
    var j := FirstNamed(r, name);
    assert forall k :: 0 <= k < |cs| ==> r[k] == cs[k];
    assert r[|cs|] == c;
  }

  /** Looking a name up among the children of a key is looking the longer key up in the list. */
  lemma {:induction false} KidsFirst(nodes: seq<Vnode>, keys: seq<Key>, parent: Key, name: string)
    requires |nodes| == |keys|
    requires forall k :: 0 <= k < |keys| && |keys[k]| > 0 ==> nodes[k].name == keys[k][|keys[k]| - 1]
    ensures var cs, j := Kids(nodes, keys, parent), First(keys, parent + [name]);
      var i := FirstNamed(cs, name);
      (i < |cs| <==> j < |keys|) && (i < |cs| ==> cs[i] == nodes[j])
    decreases |keys|
  {
    if |keys| != 0 {
      var n := |keys| - 1;
      var nodes0, keys0, last := nodes[..n], keys[..n], keys[n];
      KidsFirst(nodes0, keys0, parent, name);
      assert keys == keys0 + [last];
      FirstStays(keys0, last, parent + [name]);
      UnderExactly(last, parent, name);
      var cs0 := Kids(nodes0, keys0, parent);
      if Under(last, parent) {
        FirstNamedSnoc(cs0, nodes[n], name);
      } else {
        assert cs0 + [] == cs0;
      }
    }
  }

  lemma UnderExactly(key: Key, parent: Key, name: string)
    ensures key == parent + [name] <==> Under(key, parent) && key[|key| - 1] == name
  {
    assert (parent + [name])[..|parent|] == parent;
    if Under(key, parent) {
      assert key == key[..|key| - 1] + [key[|key| - 1]];
    }
  }
}
