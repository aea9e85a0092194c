/** initrd_driver::mount: one vnode per archive header, attached under its parent path. */
module Mount {
  import opened Common
  import opened Paths
  import opened VnodeTree

  // ---------------------------------------------------------------- lookups in a registered tree

  lemma {:induction false} PrefixListed(nodes: seq<Vnode>, keys: seq<Key>, key: Key, n: nat)
    requires AllListed(nodes, keys) && First(keys, key) < |keys| && n <= |key|
    ensures First(keys, key[..n]) < |keys|
    decreases |key|
  {
    if n < |key| {
      var k := First(keys, key);
      assert Listed(nodes, keys, k);
      PrefixListed(nodes, keys, key[..|key| - 1], n);
      assert key[..|key| - 1][..n] == key[..n];
    } else {
      assert key[..n] == key;
    }
  }

  lemma ListedNames(nodes: seq<Vnode>, keys: seq<Key>)
    requires AllListed(nodes, keys)
    ensures forall i :: 0 <= i < |keys| && |keys[i]| > 0 ==> nodes[i].name == keys[i][|keys[i]| - 1]
  {
    forall i | 0 <= i < |keys| && |keys[i]| > 0
      ensures nodes[i].name == keys[i][|keys[i]| - 1]
    {
      assert Listed(nodes, keys, i) && Listed(nodes, keys, 0);
    }
  }

  /** One name: the child found is the first node registered at the longer key. */
  lemma ChildFirst(nodes: seq<Vnode>, keys: seq<Key>, k: nat, name: string)
    requires Registered(nodes, keys) && k < |keys| && First(keys, keys[k]) == k
    ensures var cs, j := nodes[k].children, First(keys, keys[k] + [name]);
      var i := FirstNamed(cs, name);
      (i < |cs| <==> j < |keys|) && (i < |cs| ==> cs[i] == nodes[j] && First(keys, keys[j]) == j)
  {
    assert Placed(nodes, keys, k);
    ListedNames(nodes, keys);
    KidsFirst(nodes, keys, keys[k], name);
  }

  /** Resolving names from a node finds the first node registered at the longer key, and
      nothing when there is none. */
  lemma {:induction false} ResolveFirst(nodes: seq<Vnode>, keys: seq<Key>, all: set<Vnode>, k: nat, rest: seq<string>)
    requires Registered(nodes, keys) && all == (set v | v in nodes) && Closed(all)
    requires k < |keys| && First(keys, keys[k]) == k
    ensures var j := First(keys, keys[k] + rest);
      Resolve(nodes[k], rest, all) == if j < |keys| then nodes[j] else null
    decreases |rest|
  {
    if |rest| == 0 {
      assert keys[k] + rest == keys[k];
    } else {
      ChildFirst(nodes, keys, k, rest[0]);
      var longer, whole := keys[k] + [rest[0]], keys[k] + rest;
      var j := First(keys, longer);
      assert longer + rest[1..] == whole && whole[..|longer|] == longer;
      if j < |keys| {
        ResolveFirst(nodes, keys, all, j, rest[1..]);
      } else if First(keys, whole) < |keys| {
        PrefixListed(nodes, keys, whole, |longer|);
      }
    }
  }

  /** The path lookup in a registered tree: the first node whose key is the path's component list. */
  method FindRegistered(root: Vnode, path: CString, ghost nodes: seq<Vnode>, ghost keys: seq<Key>) returns (r: Vnode?)
    requires Registered(nodes, keys) && root == nodes[0]
    ensures At(path, 0) != '/' ==> r == null
    ensures At(path, 0) == '/' ==>
      var j := First(keys, Components(path));
      r == if j < |keys| then nodes[j] else null
  {
    ghost var all := set v | v in nodes;
    RegisteredClosed(nodes, keys);
    assert Listed(nodes, keys, 0);
    r := Find(root, path, all);
    FirstIs(keys, [], 0);
    ResolveFirst(nodes, keys, all, 0, Components(path));
    assert [] + Components(path) == Components(path);
  }

  // ---------------------------------------------------------------- attaching one node

  lemma {:induction false} NoKids(nodes: seq<Vnode>, keys: seq<Key>, parent: Key)
    requires |nodes| == |keys| && forall j :: 0 <= j < |keys| ==> !Under(keys[j], parent)
    ensures Kids(nodes, keys, parent) == []
    decreases |keys|
  {
    if |keys| != 0 {
      NoKids(nodes[..|keys| - 1], keys[..|keys| - 1], parent);
    }
  }

  lemma KidsSnoc(nodes: seq<Vnode>, keys: seq<Key>, v: Vnode, key: Key, parent: Key)
    requires |nodes| == |keys|
    ensures Kids(nodes + [v], keys + [key], parent) ==
      Kids(nodes, keys, parent) + (if Under(key, parent) then [v] else [])
  {
    assert (nodes + [v])[..|nodes|] == nodes && (keys + [key])[..|keys|] == keys;
  }

  lemma FreshKeyHasNoKids(nodes: seq<Vnode>, keys: seq<Key>, v: Vnode, key: Key)
    requires AllListed(nodes, keys) && First(keys, key) == |keys| && |key| > 0
    ensures Kids(nodes + [v], keys + [key], key) == []
  {
    forall j | 0 <= j < |keys|
      ensures !Under(keys[j], key)
    {
      assert Listed(nodes, keys, j);
    }
    NoKids(nodes, keys, key);
    KidsSnoc(nodes, keys, v, key, key);
  }

  lemma ListedSnoc(nodes: seq<Vnode>, keys: seq<Key>, v: Vnode, key: Key)
    requires AllListed(nodes, keys) && v !in nodes
    requires |key| > 0 && First(keys, key[..|key| - 1]) < |keys| && v.name == key[|key| - 1]
    ensures AllListed(nodes + [v], keys + [key])
  {
    var nodes1, keys1 := nodes + [v], keys + [key];
    FirstStays(keys, key, key[..|key| - 1]);
    forall k | 0 <= k < |keys1|
      ensures Listed(nodes1, keys1, k)
    {
      if k < |keys| {
        assert Listed(nodes, keys, k);
        if k > 0 { FirstStays(keys, key, keys[k][..|keys[k]| - 1]); }
      }
    }
  }

  /** The children that node k must have once (v, key) is registered too. */
  lemma PlacedSnoc(nodes: seq<Vnode>, keys: seq<Key>, v: Vnode, key: Key, k: nat)
    requires AllListed(nodes, keys) && |key| > 0 && First(keys, key[..|key| - 1]) < |keys|
    ensures k < |keys| ==> (First(keys + [key], keys[k]) == k <==> First(keys, keys[k]) == k)
    ensures k < |keys| && First(keys, keys[k]) == k ==>
      var more := if k == First(keys, key[..|key| - 1]) then [v] else [];
      Kids(nodes + [v], keys + [key], keys[k]) == Kids(nodes, keys, keys[k]) + more
    ensures First(keys + [key], key) == |keys| ==> Kids(nodes + [v], keys + [key], key) == []
  {
    if k < |keys| {
      FirstStays(keys, key, keys[k]);
      KidsSnoc(nodes, keys, v, key, keys[k]);
    }
    FirstStays(keys, key, key);
    if First(keys, key) == |keys| { FreshKeyHasNoKids(nodes, keys, v, key); }
  }

  method Attach(parent: Vnode, v: Vnode, ghost nodes: seq<Vnode>, ghost keys: seq<Key>, ghost key: Key)
    requires Registered(nodes, keys) && |key| > 0 && First(keys, key[..|key| - 1]) < |keys|
    requires parent == nodes[First(keys, key[..|key| - 1])]
    requires v !in nodes && v.children == [] && v.name == key[|key| - 1]
    modifies parent`children
    ensures Registered(nodes + [v], keys + [key])
  {
    parent.AddChild(v);
    ListedSnoc(nodes, keys, v, key);
    forall k | 0 <= k < |keys + [key]|
      ensures Placed(nodes + [v], keys + [key], k)
    {
      PlacedSnoc(nodes, keys, v, key, k);
      if k < |keys| {
        assert old(Placed(nodes, keys, k));
        assert nodes[k] == parent <==> k == First(keys, key[..|key| - 1]);
      }
    }
  }

  // ---------------------------------------------------------------- archive names

  class Header {
    var name: CString
    const size: nat
    var inodeNum: nat
    var driverAllocated: bool

    constructor (n: CString, s: nat)
      ensures name == n && size == s
    {
      name, size, inodeNum, driverAllocated := n, s, 0, false;
    }
  }

  /** The path that mount uses for a header: a header of size 0 is taken for a directory and
      loses its last character. */
  function FullPath(name: string, size: nat): string {
    if size > 0 || |name| == 0 then name else name[..|name| - 1]
  }

  /** Position of the last slash, 0 when there is none. */
  function LastSlash(s: string): (i: nat)
    ensures i <= |s| && (i > 0 ==> i < |s| && s[i] == '/') && forall k :: i < k < |s| ==> s[k] != '/'
  {
    if |s| <= 1 then 0 else if s[|s| - 1] == '/' then |s| - 1 else LastSlash(s[..|s| - 1])
  }

  function ParentKey(full: string): Key { Components(full[..LastSlash(full)]) }

  /** Where mount registers a header: its last component, under the part before the last slash. */
  function RegisteredKey(full: string): Key
    requires |Components(full)| > 0
  {
    ParentKey(full) + [Components(full)[|Components(full)| - 1]]
  }

  lemma AbsoluteComponents(s: string)
    ensures Components("/" + s) == Components(s)
  {
    assert ("/" + s)[1..] == s;
  }

  /** A header is registered at its own path exactly when that does not end with a slash. */
  lemma RegisteredExactly(full: string)
    requires |Components(full)| > 0
    ensures RegisteredKey(full) == Components(full) <==> full[|full| - 1] != '/'
  {
    var i := LastSlash(full);
    var parent, tail := full[..i], full[i..];
    assert full == parent + tail;
    if i > 0 || full[0] == '/' {
      SplitConcat(parent, tail, '/');
      assert tail[1..] == full[i + 1..];
      if i + 1 < |full| {
        var last := full[i + 1..];
        assert forall k {:trigger last[k]} :: 0 <= k < |last| ==> last[k] == full[i + 1 + k];
        SplitName(last, '/');
      } else {
        assert tail[1..] == "";
      }
    } else {
      assert forall k :: 0 <= k < |full| ==> full[k] != '/';
      SplitName(full, '/');
    }
  }

  /** Cutting the last character keeps the path exactly when that was a slash. */
  lemma CutExactly(name: string)
    requires |name| > 0
    ensures Components(name[..|name| - 1]) == Components(name) <==> name[|name| - 1] == '/'
  {
    var n := |name| - 1;
    assert name == name[..n] + [name[n]];
    if name[n] == '/' {
      SplitConcat(name[..n], [name[n]], '/');
      assert [name[n]][1..] == [];
    } else {
      SplitLetters(name, '/');
      SplitLetters(name[..n], '/');
      LettersConcat(name[..n], [name[n]], '/');
      assert [name[n]][1..] == [];
    }
  }

  // ---------------------------------------------------------------- the loop of mount

  ghost function FullPaths(headers: seq<Header>): (r: seq<string>)
    reads headers
    ensures |r| == |headers|
    ensures forall k :: 0 <= k < |r| ==> r[k] == FullPath(headers[k].name, headers[k].size)
  {
    if |headers| == 0 then [] else [FullPath(headers[0].name, headers[0].size)] + FullPaths(headers[1..])
  }

  /** The k-th path has a name, and its parent is the root or was registered before it. */
  ghost predicate Placeable(fulls: seq<string>, k: nat)
    requires k < |fulls|
  {
    && |Components(fulls[k])| > 0
    && (ParentKey(fulls[k]) == [] ||
        exists j :: 0 <= j < k && |Components(fulls[j])| > 0 && RegisteredKey(fulls[j]) == ParentKey(fulls[k]))
  }

  ghost predicate AllPlaceable(fulls: seq<string>) {
    forall k :: 0 <= k < |fulls| ==> Placeable(fulls, k)
  }

  /** The key list after the first n paths. */
  ghost predicate KeysOf(fulls: seq<string>, keys: seq<Key>, n: nat) {
    && n <= |fulls| && |keys| == n + 1 && keys[0] == []
    && forall k {:trigger KeyAt(fulls, keys, k)} :: 0 <= k < n ==> KeyAt(fulls, keys, k)
  }

  ghost predicate KeyAt(fulls: seq<string>, keys: seq<Key>, k: nat)
    requires k < |fulls| && k + 1 < |keys|
  {
    |Components(fulls[k])| > 0 && keys[k + 1] == RegisteredKey(fulls[k])
  }

  lemma KeysOfSnoc(fulls: seq<string>, keys: seq<Key>, k: nat)
    requires k < |fulls| && KeysOf(fulls, keys, k) && |Components(fulls[k])| > 0
    ensures KeysOf(fulls, keys + [RegisteredKey(fulls[k])], k + 1)
  {
    forall i | 0 <= i < k
      ensures KeyAt(fulls, keys + [RegisteredKey(fulls[k])], i)
    {
      assert KeyAt(fulls, keys, i);
    }
  }

  lemma PlaceableExactly(fulls: seq<string>, keys: seq<Key>, k: nat)
    requires k < |fulls| && KeysOf(fulls, keys, k) && |Components(fulls[k])| > 0
    ensures Placeable(fulls, k) <==> First(keys, ParentKey(fulls[k])) < |keys|
  {
    var parent := ParentKey(fulls[k]);
    var i := First(keys, parent);
    if 0 < i < |keys| { assert KeyAt(fulls, keys, i - 1); }
    if Placeable(fulls, k) && parent != [] {
      var j :| 0 <= j < k && |Components(fulls[j])| > 0 && RegisteredKey(fulls[j]) == parent;
      assert KeyAt(fulls, keys, j);
    }
  }

  method ParentPath(full: CString) returns (parent: CString)
    ensures parent == full[..LastSlash(full)]
  {
    var idx, lastFoundSlashIdx := 0, 0;
    while At(full, idx) != '\0'
      invariant idx <= |full| && lastFoundSlashIdx == LastSlash(full[..idx])
      decreases |full| - idx
    {
      assert full[..idx + 1][..idx] == full[..idx];
      if full[idx] == '/' { lastFoundSlashIdx := idx; }
      idx := idx + 1;
    }
    assert full[..idx] == full;
    parent := full[..lastFoundSlashIdx];
  }

  method FindParent(full: CString, root: Vnode, ghost nodes: seq<Vnode>, ghost keys: seq<Key>) returns (parent: Vnode?)
    requires Registered(nodes, keys) && root == nodes[0]
    ensures var p := First(keys, ParentKey(full));
      parent == if p < |keys| then nodes[p] else null
  {
    var parentPath := ParentPath(full);
    var truncatedParentPath: CString := "/" + parentPath;
    AbsoluteComponents(parentPath);
    parent := FindRegistered(root, truncatedParentPath, nodes, keys);
  }

  /** One header; false where the source would dereference nothing. */
  method MountHeader(header: Header, inodeNum: nat, root: Vnode,
                     ghost nodes: seq<Vnode>, ghost keys: seq<Key>, ghost tree: set<Vnode>)
    returns (ok: bool, ghost v: Vnode, ghost full: string)
    requires Registered(nodes, keys) && root == nodes[0] && |header.name| > 0
    requires forall n :: n in nodes ==> n in tree
    modifies header, tree`children
    ensures full == FullPath(old(header.name), header.size)
    ensures ok <==> |Components(full)| > 0 && First(keys, ParentKey(full)) < |keys|
    ensures ok ==> fresh(v) && v.inodeNum == inodeNum == header.inodeNum
    ensures ok ==> (v.isDir <==> header.size == 0) && v.size == header.size
    ensures ok ==> header.name == full && Registered(nodes + [v], keys + [RegisteredKey(full)])
  {
    v := root;
    var isdir := if header.size > 0 then false else true;
    var fullPath: CString := header.name;
    if isdir {
      fullPath := fullPath[..|fullPath| - 1];
      header.name := fullPath;
    }
    full := fullPath;
    var splitName := SplitPath(fullPath);
    if |splitName| == 0 {
      return false, v, full;
    }
    var vnodeName := splitName[|splitName| - 1];
    header.inodeNum := inodeNum;
    header.driverAllocated := false;
    var vn := new Vnode(vnodeName, inodeNum, isdir, header.size);
    var parent := FindParent(fullPath, root, nodes, keys);
    if parent == null {
      return false, v, full;
    }
    ghost var key := RegisteredKey(full);
    assert key[..|key| - 1] == ParentKey(full);
    Attach(parent, vn, nodes, keys, key);
    return true, vn, full;
  }

  /** Header k and its vnode carry inode number k + 1; the vnode has the header's size, and is a
      directory exactly when that is 0. */
  ghost predicate Numbered(nodes: seq<Vnode>, headers: seq<Header>, k: nat)
    requires k < |headers|
    reads headers
  {
    && k + 1 < |nodes| && nodes[k + 1].inodeNum == k + 1 == headers[k].inodeNum
    && nodes[k + 1].size == headers[k].size && (nodes[k + 1].isDir <==> headers[k].size == 0)
  }

  /** The headers from k on are as they were when their paths were noted. */
  ghost predicate Pending(headers: seq<Header>, fulls: seq<string>, k: nat)
    reads headers
  {
    |fulls| == |headers| && forall i :: k <= i < |headers| ==>
      |headers[i].name| > 0 && fulls[i] == FullPath(headers[i].name, headers[i].size)
  }

  /** The first k headers have been mounted. */
  ghost predicate Mounted(
    headers: seq<Header>, fulls: seq<string>, root: Vnode, nodes: seq<Vnode>, keys: seq<Key>, k: nat)
    requires k <= |headers|
    reads headers, nodes
  {
    && Registered(nodes, keys) && KeysOf(fulls, keys, k) && nodes[0] == root
    && forall i {:trigger Numbered(nodes, headers, i)} :: 0 <= i < k ==> Numbered(nodes, headers, i)
  }

  ghost predicate DistinctHeaders(headers: seq<Header>) {
    forall i, j :: 0 <= i < j < |headers| ==> headers[i] != headers[j]
  }

  /** One turn of the loop of mount. */
  method MountNext(headers: seq<Header>, k: nat, root: Vnode, ghost fulls: seq<string>,
                   ghost nodes: seq<Vnode>, ghost keys: seq<Key>, ghost tree: set<Vnode>)
    returns (ok: bool, ghost v: Vnode)
    requires k < |headers| && DistinctHeaders(headers) && Pending(headers, fulls, k)
    requires Mounted(headers, fulls, root, nodes, keys, k) && forall n :: n in nodes ==> n in tree
    modifies headers[k], tree`children
    ensures ok <==> Placeable(fulls, k)
    ensures ok ==> fresh(v) && |Components(fulls[k])| > 0
    ensures ok ==> Mounted(headers, fulls, root, nodes + [v], keys + [RegisteredKey(fulls[k])], k + 1)
    ensures Pending(headers, fulls, k + 1)
  {
    ghost var full;
    ok, v, full := MountHeader(headers[k], k + 1, root, nodes, keys, tree);
    if |Components(full)| > 0 {
      PlaceableExactly(fulls, keys, k);
      KeysOfSnoc(fulls, keys, k);
    }
    if ok {
      forall i | 0 <= i < k + 1
        ensures Numbered(nodes + [v], headers, i)
      {
        if i < k {
          assert old(Numbered(nodes, headers, i)) && headers[i] != headers[k];
        }
      }
    }
  }

  /** The loop of mount. It succeeds exactly when every header is placeable; then header k has
      inode number k + 1 and its vnode is registered at its key. */
  method MountHeaders(headers: seq<Header>, root: Vnode)
    returns (ok: bool, ghost nodes: seq<Vnode>, ghost keys: seq<Key>)
    requires root.children == [] && forall i :: 0 <= i < |headers| ==> |headers[i].name| > 0
    requires DistinctHeaders(headers)
    modifies headers, root`children
    ensures ok <==> AllPlaceable(old(FullPaths(headers)))
    ensures ok ==> Mounted(headers, old(FullPaths(headers)), root, nodes, keys, |headers|)
  {
    ghost var fulls, tree := FullPaths(headers), {root};
    nodes, keys := [root], [[]];
    RootRegistered(root);
    for k := 0 to |headers|
      invariant Mounted(headers, fulls, root, nodes, keys, k) && Pending(headers, fulls, k)
      invariant fresh(tree - {root}) && forall n :: n in nodes ==> n in tree
      invariant forall i :: 0 <= i < k ==> Placeable(fulls, i)
    {
      ghost var v;
      ok, v := MountNext(headers, k, root, fulls, nodes, keys, tree);
      if !ok {
        return;
      }
      nodes, keys, tree := nodes + [v], keys + [RegisteredKey(fulls[k])], tree + {v};
    }
    return true, nodes, keys;
  }

  lemma RootRegistered(root: Vnode)
    requires root.children == []
    ensures Registered([root], [[]])
  {
    assert Kids([root], [[]], []) == [];
    assert Listed([root], [[]], 0) && Placed([root], [[]], 0);
  }

  /** mount registers a header at the path its name spells: a file whose name does not end with a
      slash, a directory whose name ends with exactly one, or an empty file "…c/c" whose cut name
      ends with the directory of the one letter that was cut. */
  predicate OwnPath(name: string, size: nat) {
    && |name| > 0
    && var last := name[|name| - 1];
       if size > 0 then last != '/'
       else if last == '/' then |name| > 1 && name[|name| - 2] != '/'
       else
         var cut := name[..|name| - 1];
         |cut| > 0 && cut[|cut| - 1] == '/' && |Components(cut)| > 0 && Components(cut)[|Components(cut)| - 1] == [last]
  }

  /** A path that ends with a slash is registered under itself, once more its last component. */
  lemma RegisteredSlash(full: string)
    requires |Components(full)| > 0 && full[|full| - 1] == '/'
    ensures RegisteredKey(full) == Components(full) + [Components(full)[|Components(full)| - 1]]
  {
    var i := LastSlash(full);
    if |full| == 1 {
      assert full == "/";
      SlashOnly();
    }
    assert i == |full| - 1;
    CutExactly(full);
  }

  lemma OwnPathExactly(name: string, size: nat)
    requires |Components(FullPath(name, size))| > 0
    ensures RegisteredKey(FullPath(name, size)) == Components(name) <==> OwnPath(name, size)
  {
    var full := FullPath(name, size);
    if size > 0 || |name| == 0 {
      RegisteredExactly(full);
    } else {
      var last := name[|name| - 1];
      CutExactly(name);
      RegisteredExactly(full);
      if last != '/' && full[|full| - 1] == '/' {
        RegisteredSlash(full);
        assert name == full[..|full| - 1] + (['/'] + [last]);
        SplitConcat(full[..|full| - 1], ['/'] + [last], '/');
        SplitName([last], '/');
        CutExactly(full);
        SnocEqual(Components(full), Components(full)[|Components(full)| - 1], [last]);
      }
    }
  }

  lemma SnocEqual(a: seq<string>, x: string, y: string)
    ensures a + [x] == a + [y] <==> x == y
  {
    assert (a + [x])[|a|] == x && (a + [y])[|a|] == y;
  }

  /** A name whose cut form has a component has one itself. */
  lemma NameHasComponents(name: string, size: nat)
    requires |Components(FullPath(name, size))| > 0
    ensures |Components(name)| > 0
  {
    if size == 0 && |name| > 0 {
      var n := |name| - 1;
      assert name == name[..n] + [name[n]];
      SplitLetters(name, '/');
      SplitLetters(name[..n], '/');
      LettersConcat(name[..n], [name[n]], '/');
      SplitNames(name[..n], '/');
      assert |Components(name[..n])[0]| > 0;
    }
  }

  /** No earlier header claims the path. */
  ghost predicate Unclaimed(fulls: seq<string>, k: nat, path: Key)
    requires k <= |fulls|
  {
    forall j :: 0 <= j < k && |Components(fulls[j])| > 0 ==> RegisteredKey(fulls[j]) != path
  }

  /** The first node registered at a header's name is its own exactly when it was registered
      there and no earlier header was. */
  lemma MountedPath(name: string, size: nat, keys: seq<Key>, fulls: seq<string>, k: nat)
    requires KeysOf(fulls, keys, |fulls|) && k < |fulls| && fulls[k] == FullPath(name, size)
    ensures First(keys, Components("/" + name)) == k + 1 <==>
      OwnPath(name, size) && Unclaimed(fulls, k, Components(name))
  {
    assert KeyAt(fulls, keys, k);
    AbsoluteComponents(name);
    OwnPathExactly(name, size);
    NameHasComponents(name, size);
    var path := Components(name);
    if OwnPath(name, size) && Unclaimed(fulls, k, path) {
      forall j | 0 <= j < k + 1
        ensures keys[j] != path
      {
        if j > 0 { assert KeyAt(fulls, keys, j - 1); }
      }
      FirstIs(keys, path, k + 1);
    }
    if First(keys, path) == k + 1 {
      forall j | 0 <= j < k && |Components(fulls[j])| > 0
        ensures RegisteredKey(fulls[j]) != path
      {
        assert KeyAt(fulls, keys, j) && keys[j + 1] != path;
      }
    }
  }

  lemma FirstNumbered(nodes: seq<Vnode>, headers: seq<Header>, j: nat, k: nat)
    requires j < |nodes| == |headers| + 1 && k < |headers| && nodes[0].inodeNum == 0
    requires forall i {:trigger Numbered(nodes, headers, i)} :: 0 <= i < |headers| ==> Numbered(nodes, headers, i)
    ensures nodes[j].inodeNum == k + 1 <==> j == k + 1
    ensures var v := nodes[k + 1]; v.size == headers[k].size && (v.isDir <==> headers[k].size == 0)
  {
    if j > 0 { assert Numbered(nodes, headers, j - 1); }
    assert Numbered(nodes, headers, k);
  }

  /** Mount, then find "/" and the name of header k. The vnode with inode number k + 1 is found
      exactly when the header is registered at its own path and no earlier one is. */
  method MountThenFind(headers: seq<Header>, root: Vnode, k: nat) returns (ok: bool, found: Vnode?)
    requires root.children == [] && root.inodeNum == 0
    requires forall i :: 0 <= i < |headers| ==> |headers[i].name| > 0
    requires DistinctHeaders(headers) && k < |headers|
    modifies headers, root`children
    ensures ok <==> AllPlaceable(old(FullPaths(headers)))
    ensures ok ==>
      (found != null && found.inodeNum == k + 1 <==>
       old(OwnPath(headers[k].name, headers[k].size) && Unclaimed(FullPaths(headers), k, Components(headers[k].name))))
    ensures ok && found != null && found.inodeNum == k + 1 ==>
      found.size == headers[k].size && (found.isDir <==> headers[k].size == 0)
  {
    var name := headers[k].name;
    var path: CString := "/" + name;
    ghost var fulls := FullPaths(headers);
    ghost var nodes, keys;
    ok, nodes, keys := MountHeaders(headers, root);
    found := null;
    if ok {
      found := FindRegistered(root, path, nodes, keys);
      MountedPath(name, headers[k].size, keys, fulls, k);
      if found != null {
        FirstNumbered(nodes, headers, First(keys, Components(path)), k);
      }
    }
  }

  // ---------------------------------------------------------------- archives in good order

  datatype Entry = Entry(name: string, size: nat)

  /** A directory's name ends with exactly one slash, a file is not empty and its name ends with none. */
  predicate GoodName(e: Entry) {
    && |e.name| > 0
    && if e.size > 0 then e.name[|e.name| - 1] != '/'
       else e.name[|e.name| - 1] == '/' && |e.name| > 1 && e.name[|e.name| - 2] != '/'
  }

  /** The entry's directory is the root or listed before it. */
  ghost predicate ParentListed(es: seq<Entry>, k: nat)
    requires k < |es|
  {
    var path := Components(es[k].name);
    |path| > 0 && (|path| == 1 || exists j :: 0 <= j < k && Components(es[j].name) == path[..|path| - 1])
  }

  /** Good names, each directory before its children, and no path twice. */
  ghost predicate GoodArchive(es: seq<Entry>) {
    && (forall k :: 0 <= k < |es| ==> GoodName(es[k]))
    && (forall k {:trigger ParentListed(es, k)} :: 0 <= k < |es| ==> ParentListed(es, k))
    && (forall j, k :: 0 <= j < k < |es| ==> Components(es[j].name) != Components(es[k].name))
  }

  /** Such an entry is registered at the path that its name spells. */
  lemma GoodNameKey(e: Entry)
    requires GoodName(e) && |Components(e.name)| > 0
    ensures var full := FullPath(e.name, e.size);
      && Components(full) == Components(e.name) && RegisteredKey(full) == Components(e.name)
      && ParentKey(full) == Components(e.name)[..|Components(e.name)| - 1]
      && OwnPath(e.name, e.size)
  {
    var full := FullPath(e.name, e.size);
    if e.size == 0 { CutExactly(e.name); }
    RegisteredExactly(full);
    assert RegisteredKey(full)[..|RegisteredKey(full)| - 1] == ParentKey(full);
  }

  /** All of an archive in good order is mounted, each entry at its own path and nobody else's. */
  lemma GoodArchiveMounts(es: seq<Entry>, fulls: seq<string>)
    requires GoodArchive(es) && |fulls| == |es|
    requires forall k :: 0 <= k < |es| ==> fulls[k] == FullPath(es[k].name, es[k].size)
    ensures AllPlaceable(fulls)
    ensures forall k :: 0 <= k < |es| ==> OwnPath(es[k].name, es[k].size) && Unclaimed(fulls, k, Components(es[k].name))
  {
    forall k | 0 <= k < |es|
      ensures |Components(fulls[k])| > 0 && RegisteredKey(fulls[k]) == Components(es[k].name)
      ensures OwnPath(es[k].name, es[k].size)
      ensures ParentKey(fulls[k]) == Components(es[k].name)[..|Components(es[k].name)| - 1]
    {
      assert ParentListed(es, k);
      GoodNameKey(es[k]);
    }
    forall k | 0 <= k < |es|
      ensures Placeable(fulls, k)
    {
      assert ParentListed(es, k);
    }
  }

  ghost function Entries(headers: seq<Header>): (r: seq<Entry>)
    reads headers
    ensures |r| == |headers|
    ensures forall k :: 0 <= k < |r| ==> r[k] == Entry(headers[k].name, headers[k].size)
  {
    if |headers| == 0 then [] else [Entry(headers[0].name, headers[0].size)] + Entries(headers[1..])
  }

  /** For an archive in good order mount succeeds, and find returns the vnode of any header. */
  method MountGoodArchive(headers: seq<Header>, root: Vnode, k: nat) returns (found: Vnode?)
    requires root.children == [] && root.inodeNum == 0 && DistinctHeaders(headers) && k < |headers|
    requires GoodArchive(Entries(headers))
    modifies headers, root`children
    ensures found != null && found.inodeNum == k + 1
    ensures found.size == headers[k].size && (found.isDir <==> headers[k].size == 0)
  {
    GoodArchiveMounts(Entries(headers), FullPaths(headers));
    assert forall i :: 0 <= i < |headers| ==> GoodName(Entries(headers)[i]);
    assert GoodName(Entries(headers)[k]);
    var ok;
    ok, found := MountThenFind(headers, root, k);
  }
}
