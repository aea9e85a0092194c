/** Open file descriptors over the initial ramdisk: ids, positions and file sizes. */
module FileTable {
  import opened Common
  import opened Words
  import Pigeonhole
  import Tar

  const INT_MAX: nat := 0x7FFF_FFFF

  datatype Whence = SEEK_SET | SEEK_CUR | SEEK_END | OTHER

  // ---------------------------------------------------------------- positions

  /** file_descriptor_t::seek: the sum is a 64-bit one, and a sum past the end stops there. */
  function Advance(pos: U64, size: U64, bytes: U64): U64 {
    var p := (pos + bytes) % W64;
    if p > size then size else p
  }

  /** The position after VFS::seek; None where it returns -1 and moves nothing. */
  function SeekTo(pos: U64, size: U64, offset: U64, whence: Whence): Option<U64> {
    match whence
    case SEEK_SET => if offset > size then None else Some(offset)
    case SEEK_CUR => if (offset + pos) % W64 > size then None else Some(Advance(pos, size, offset))
    case SEEK_END => if (offset + size) % W64 > size then None else Some((size + offset) % W64)
    case OTHER => None
  }

  /** With sizes below 2^63, a relative seek succeeds exactly when the signed target lies in
      the file, and then goes there, although every sum is unsigned and may wrap. */
  lemma SeekExactly(pos: U64, size: U64, offset: U64, whence: Whence)
    requires pos <= size < W63
    ensures var target := match whence
        case SEEK_SET => offset
        case SEEK_CUR => pos + Signed(offset)
        case SEEK_END => size + Signed(offset)
        case OTHER => -1;
      SeekTo(pos, size, offset, whence) == if 0 <= target <= size then Some(target) else None
  {
  }

  /** Whatever wraps, no seek leaves the file. */
  lemma SeekInside(pos: U64, size: U64, offset: U64, whence: Whence)
    requires pos <= size
    ensures Advance(pos, size, offset) <= size
    ensures SeekTo(pos, size, offset, whence).Some? ==> SeekTo(pos, size, offset, whence).value <= size
  {
  }

  /** The size of the file after the driver wrote bytes at offset: 64-bit sums again. */
  function SizeAfterWrite(size: U64, offset: U64, bytes: U64): U64 {
    if bytes > (size - offset) % W64 then (bytes + offset) % W64 else size
  }

  lemma PastEnd(size: U64, offset: U64, bytes: U64)
    requires offset <= size
    ensures bytes > (size - offset) % W64 <==> offset + bytes > size
    ensures SizeAfterWrite(size, offset, bytes) == if offset + bytes <= size then size else (offset + bytes) % W64
  {
  }

  /** A write inside the file keeps its size, one past its end moves the end exactly to where
      the write stops, and the file shrinks exactly when that place does not fit 64 bits. */
  lemma WriteSize(size: U64, offset: U64, bytes: U64)
    requires offset <= size
    ensures offset + bytes < W64 ==>
      SizeAfterWrite(size, offset, bytes) == if offset + bytes > size then offset + bytes else size
    ensures SizeAfterWrite(size, offset, bytes) < size <==> offset + bytes >= W64
  {
  }

  /** The descriptor that wrote stands behind the bytes written; even a wrapped write leaves
      it inside the file. */
  lemma WritePosition(size: U64, offset: U64, bytes: U64)
    requires offset <= size
    ensures Advance(offset, SizeAfterWrite(size, offset, bytes), bytes) == (offset + bytes) % W64
  {
  }

  /** The driver answers -1 for a file without a header; the position then moves back by one
      byte, or from the start of the file to its end. */
  lemma FailedWritePosition(size: U64, offset: U64)
    requires offset <= size
    ensures Advance(offset, size, W64 - 1) == if offset == 0 then size else offset - 1
  {
  }

  // ---------------------------------------------------------------- descriptors and files

  class Inode {
    const num: nat
    const isDir: bool
    var size: U64

    constructor (n: nat, dir: bool, s: U64)
      ensures num == n && isDir == dir && size == s
    {
      num, isDir, size := n, dir, s;
    }
  }

  class Descriptor {
    const id: nat
    const inode: Inode
    var position: U64

    constructor (i: nat, ino: Inode)
      ensures id == i && inode == ino && position == 0
    {
      id, inode, position := i, ino, 0;
    }

    method Seek(bytes: U64)
      modifies this`position
      ensures position == Advance(old(position), inode.size, bytes)
    {
      if (position + bytes) % W64 > inode.size {
        position := inode.size;
        return;
      }
      position := (position + bytes) % W64;
    }
  }

  /** A tracked archive header; size is what parse_size reads from its size field. */
  datatype Header = Header(name: string, inodeNum: nat, size: U64)

  /** First header with the inode number, the number of headers when there is none. */
  function HeaderOf(hs: seq<Header>, num: nat): (i: nat)
    ensures i <= |hs| && (i < |hs| ==> hs[i].inodeNum == num) && forall j :: 0 <= j < i ==> hs[j].inodeNum != num
  {
    FirstBy(hs, (h: Header) => h.inodeNum, num)
  }

  /** A read of count bytes ends where the header says the file does. */
  function ReadCount(h: Header, count: U64): U64 { if count > h.size then h.size else count }

  /** The headers without the first one of that name. */
  function Removed(hs: seq<Header>, name: string): seq<Header> {
    if |hs| == 0 then [] else if hs[0].name == name then hs[1..] else [hs[0]] + Removed(hs[1..], name)
  }

  /** What parse_size reads in the size field that create writes for a size. */
  function SizeRead(size: nat): U64 { Tar.Value(Tar.SizeField(size), 11) % W64 }

  function Created(name: string, num: nat, size: nat): Header {
    Header(name, num, SizeRead(size))
  }

  lemma {:induction false} RemovedNothing(hs: seq<Header>, name: string)
    requires forall j :: 0 <= j < |hs| ==> hs[j].name != name
    ensures Removed(hs, name) == hs
  {
    if |hs| > 0 {
      RemovedNothing(hs[1..], name);
    }
  }

  /** A write past the end replaces the file's header by a new one at the end of the list. */
  function HeadersAfterWrite(hs: seq<Header>, num: nat, size: U64, offset: U64, bytes: U64): seq<Header>
    requires HeaderOf(hs, num) < |hs|
  {
    if bytes > (size - offset) % W64 then
      var name := hs[HeaderOf(hs, num)].name;
      Removed(hs, name) + [Created(name, num, SizeAfterWrite(size, offset, bytes))]
    else hs
  }

  /** The header at j is the one that stood there or, behind h, the next. */
  ghost predicate Kept(hs: seq<Header>, now: seq<Header>, h: nat, j: nat)
    requires j + 1 < |hs| == |now|
  {
    now[j] == hs[if j < h then j else j + 1]
  }

  /** Header h was taken out and one with its name, its inode number and the size field that create
      writes for the size put at the end. */
  ghost predicate Replaced(hs: seq<Header>, now: seq<Header>, h: nat, size: U64) {
    && h < |hs| == |now|
    && (forall j {:trigger Kept(hs, now, h, j)} :: 0 <= j < |hs| - 1 ==> Kept(hs, now, h, j))
    && now[|hs| - 1] == Header(hs[h].name, hs[h].inodeNum, SizeRead(size))
  }

  /** Names differ, and so do inode numbers. */
  ghost predicate DistinctHeaders(hs: seq<Header>) {
    forall i, j :: 0 <= i < j < |hs| ==> Differ(hs[i], hs[j])
  }

  predicate Differ(a: Header, b: Header) { a.name != b.name && a.inodeNum != b.inodeNum }

  /** The last header is the only one with that inode number, so the lookup finds it. */
  ghost predicate OnlyLast(hs: seq<Header>, num: nat) {
    0 < |hs| && HeaderOf(hs, num) == |hs| - 1 && forall j :: 0 <= j < |hs| - 1 ==> hs[j].inodeNum != num
  }

  /** The header list after a write of bytes at offset to the file of that inode number and old size: a
      write past the end moves the file's header to the end of the list, and it is then the only one
      of that number; any other write leaves the list. */
  ghost predicate HeadersMove(hs: seq<Header>, now: seq<Header>, num: nat, size: U64, offset: U64, bytes: U64) {
    DistinctHeaders(hs) && HeaderOf(hs, num) < |hs| && offset <= size ==>
      if offset + bytes <= size then now == hs
      else
        && Replaced(hs, now, HeaderOf(hs, num), (offset + bytes) % W64)
        && DistinctHeaders(now) && OnlyLast(now, num)
  }

  lemma ReplacedAtEnd(hs: seq<Header>, h: nat, size: U64)
    requires DistinctHeaders(hs) && h < |hs|
    ensures Replaced(hs, Removed(hs, hs[h].name) + [Created(hs[h].name, hs[h].inodeNum, size)], h, size)
  {
    assert forall j :: 0 <= j < h ==> Differ(hs[j], hs[h]);
    RemovedShape(hs, h);
    MovedAtEnd(hs, h, size);
  }

  lemma MovedAtEnd(hs: seq<Header>, h: nat, size: U64)
    requires h < |hs|
    ensures Replaced(hs, hs[..h] + hs[h + 1..] + [Created(hs[h].name, hs[h].inodeNum, size)], h, size)
  {
  }

  lemma ReplacedDistinct(hs: seq<Header>, now: seq<Header>, h: nat, size: U64)
    requires DistinctHeaders(hs) && Replaced(hs, now, h, size)
    ensures DistinctHeaders(now)
  {
    var place := (j: nat) => if j < h then j else if j < |hs| - 1 then j + 1 else h;
    forall i, j | 0 <= i < j < |now|
      ensures Differ(now[i], now[j])
    {
      assert Kept(hs, now, h, i);
      assert j < |hs| - 1 ==> Kept(hs, now, h, j);
      var a, b := place(i), place(j);
      assert if a < b then Differ(hs[a], hs[b]) else Differ(hs[b], hs[a]);
    }
  }

  lemma LastOfNumber(hs: seq<Header>)
    requires DistinctHeaders(hs) && 0 < |hs|
    ensures OnlyLast(hs, hs[|hs| - 1].inodeNum)
  {
    assert forall j :: 0 <= j < |hs| - 1 ==> Differ(hs[j], hs[|hs| - 1]);
  }

  lemma HeadersMoved(hs: seq<Header>, num: nat, size: U64, offset: U64, bytes: U64)
    requires HeaderOf(hs, num) < |hs|
    ensures HeadersMove(hs, HeadersAfterWrite(hs, num, size, offset, bytes), num, size, offset, bytes)
  {
    if DistinctHeaders(hs) && offset <= size { PastEnd(size, offset, bytes); }
    if DistinctHeaders(hs) && offset <= size < offset + bytes {
      var h, now, end := HeaderOf(hs, num), HeadersAfterWrite(hs, num, size, offset, bytes), (offset + bytes) % W64;
      ReplacedAtEnd(hs, h, end);
      ReplacedDistinct(hs, now, h, end);
      LastOfNumber(now);
    }
  }

  /** After a growing write the driver looks the file up in its new header; the size it reads
      there is the file's own exactly for sizes of eleven octal digits. */
  lemma GrownReread(hs: seq<Header>, h: nat, size: U64)
    requires h < |hs|
    requires forall j :: 0 <= j < |hs| && j != h ==> hs[j].name != hs[h].name && hs[j].inodeNum != hs[h].inodeNum
    ensures var now := Removed(hs, hs[h].name) + [Created(hs[h].name, hs[h].inodeNum, size)];
      HeaderOf(now, hs[h].inodeNum) == |hs| - 1 &&
      |now| == |hs| &&
      (now[|hs| - 1].size == size <==> Tar.Pow8(10) <= size < Tar.Pow8(11))
  {
    RemovedShape(hs, h);
    var now := Removed(hs, hs[h].name) + [Created(hs[h].name, hs[h].inodeNum, size)];
    assert now[|hs| - 1].inodeNum == hs[h].inodeNum;
    assert forall j :: 0 <= j < |hs| - 1 ==> now[j] == hs[if j < h then j else j + 1];
    Tar.SizeFieldExactly(size);
  }

  /** Taking away the header of that name leaves the others in their order. */
  lemma {:induction false} RemovedShape(hs: seq<Header>, h: nat)
    requires h < |hs|
    requires forall j :: 0 <= j < h ==> hs[j].name != hs[h].name
    ensures Removed(hs, hs[h].name) == hs[..h] + hs[h + 1..]
  {
    if h > 0 {
      RemovedShape(hs[1..], h - 1);
    }
  }

  datatype Op =
    | Open(inode: Inode?)
    | Close(id: int)
    | Seek(id: int, offset: U64, whence: Whence)
    | Read(id: int, count: U64)
    | Write(id: int, count: U64)

  class Vfs {
    var openFds: seq<Descriptor>
    var headers: seq<Header>

    ghost predicate Inside(i: nat)
      requires i < |openFds|
      reads this, openFds, set d <- openFds :: d.inode
    {
      openFds[i].position <= openFds[i].inode.size
    }

    ghost predicate DistinctIds()
      reads this
    {
      forall i, j :: 0 <= i < j < |openFds| ==> openFds[i].id != openFds[j].id
    }

    /** Ids are distinct and every position lies in its file. */
    ghost predicate Valid()
      reads this, openFds, set d <- openFds :: d.inode
    {
      DistinctIds() && forall i {:trigger Inside(i)} :: 0 <= i < |openFds| ==> Inside(i)
    }

    constructor (hs: seq<Header>)
      ensures Valid() && openFds == [] && headers == hs
    {
      openFds, headers := [], hs;
    }

    ghost function IndexOf(id: int): (i: nat)
      reads this
      ensures i <= |openFds| && (i < |openFds| ==> openFds[i].id == id)
      ensures forall j :: 0 <= j < i ==> openFds[j].id != id
    {
      Position(openFds, id)
    }

    static ghost function Position(fds: seq<Descriptor>, id: int): (i: nat)
      ensures i <= |fds| && (i < |fds| ==> fds[i].id == id) && forall j :: 0 <= j < i ==> fds[j].id != id
    {
      FirstBy(fds, (d: Descriptor) => d.id as int, id)
    }

    method GetFd(id: int) returns (d: Descriptor?)
      ensures d == if IndexOf(id) < |openFds| then openFds[IndexOf(id)] else null
    {
      var i := 0;
      while i < |openFds|
        invariant i <= IndexOf(id)
      {
        if openFds[i].id == id {
          return openFds[i];
        }
        i := i + 1;
      }
      return null;
    }

    /** The least unused id. There are at most as many smaller ones as open descriptors, so
        the loop ends after that many turns. */
    method FindFreeFd() returns (id: int)
      ensures id == -1 ==> INT_MAX <= |openFds|
      ensures id != -1 ==> 0 <= id <= |openFds| && id < INT_MAX && IndexOf(id) == |openFds|
      ensures id != -1 ==> forall v :: 0 <= v < id ==> Position(openFds, v) < |openFds|
    {
      var i := 0;
      while i < INT_MAX
        invariant 0 <= i <= INT_MAX
        invariant forall v :: 0 <= v < i ==> Position(openFds, v) < |openFds|
      {
        UsedIdsBound(i);
        var d := GetFd(i);
        if d == null {
          return i;
        }
        i := i + 1;
      }
      UsedIdsBound(i);
      return -1;
    }

    lemma UsedIdsBound(n: nat)
      requires forall v :: 0 <= v < n ==> Position(openFds, v) < |openFds|
      ensures n <= |openFds|
    {
      var ids := seq(|openFds|, i requires 0 <= i < |openFds| reads this => openFds[i].id);
      forall v: nat | v < n
        ensures v in ids
      {
        assert ids[Position(openFds, v)] == v;
      }
      Pigeonhole.AllBelow(ids, n);
    }

    // -------------------------------------------------------------- operations

    /** inode is what stat finds for the path, null when there is none. halted: no id is left
        and the kernel stops. */
    method Open(inode: Inode?) returns (r: int, halted: bool)
      requires Valid()
      modifies this`openFds
      ensures Valid()
      ensures halted ==> openFds == old(openFds) && INT_MAX <= |openFds|
      ensures inode == null ==> r == -1 && !halted && openFds == old(openFds)
      ensures inode != null && !halted ==> |openFds| == |old(openFds)| + 1 && openFds[..|old(openFds)|] == old(openFds)
      ensures inode != null && !halted ==> Opened(openFds[|old(openFds)|], r, inode) && fresh(openFds[|old(openFds)|])
      ensures inode != null && !halted ==> 0 <= r <= |old(openFds)| && old(IndexOf(r)) == |old(openFds)|
      ensures inode != null && !halted ==> forall v :: 0 <= v < r ==> Position(old(openFds), v) < |old(openFds)|
    {
      if inode == null { return -1, false; }
      r := FindFreeFd();
      if r == -1 { return -1, true; }
      var d := new Descriptor(r, inode);
      openFds := openFds + [d];
      halted := false;
      assert forall i {:trigger Inside(i)} :: 0 <= i < |old(openFds)| ==>
        old(Inside(i)) && openFds[i] == old(openFds)[i];
    }

    static ghost predicate Opened(d: Descriptor, id: int, inode: Inode)
      reads d
    {
      d.id == id && d.inode == inode && d.position == 0
    }

    /** The descriptor of that id goes, and no other. */
    method Close(id: int) returns (r: int)
      requires Valid()
      modifies this`openFds
      ensures Valid()
      ensures r == if old(IndexOf(id)) < |old(openFds)| then 0 else -1
      ensures r == 0 ==> openFds == old(openFds[..IndexOf(id)] + openFds[IndexOf(id) + 1..]) && IndexOf(id) == |openFds|
      ensures r == -1 ==> openFds == old(openFds)
    {
      var d := GetFd(id);
      if d == null { return -1; }
      var i := 0;
      while openFds[i] != d
        invariant 0 <= i <= IndexOf(id) < |openFds|
        decreases |openFds| - i
      {
        i := i + 1;
      }
      ghost var before := openFds;
      openFds := openFds[..i] + openFds[i + 1..];
      assert forall j {:trigger Inside(j)} :: 0 <= j < |openFds| ==>
        var k := if j < i then j else j + 1; old(Inside(k)) && openFds[j] == before[k];
      return 0;
    }

    /** The descriptor of that id, and nothing else, moves as SeekTo says. */
    method Seek(id: int, offset: U64, whence: Whence) returns (r: int)
      requires Valid()
      modifies (set d <- openFds | d.id == id)`position
      ensures Valid()
      ensures old(IndexOf(id)) == |openFds| ==> r == -1
      ensures old(IndexOf(id)) < |openFds| ==>
        var d := openFds[old(IndexOf(id))];
        var to := SeekTo(old(d.position), d.inode.size, offset, whence);
        r == (if to.Some? then to.value else -1) && d.position == if to.Some? then to.value else old(d.position)
    {
      var d := GetFd(id);
      if d == null { return -1; }
      ghost var i := IndexOf(id);
      assert Inside(i);
      SeekInside(d.position, d.inode.size, offset, whence);
      match whence {
      case SEEK_SET =>
        if offset > d.inode.size { return -1; }
        d.position := offset;
      case SEEK_CUR =>
        if (offset + d.position) % W64 > d.inode.size { return -1; }
        d.Seek(offset);
      case SEEK_END =>
        if (offset + d.inode.size) % W64 > d.inode.size { return -1; }
        d.position := (d.inode.size + offset) % W64;
      case OTHER =>
        return -1;
      }
      OthersInside(i);
      r := d.position;
    }

    /** Moving one descriptor inside its file leaves the rest as it was. */
    twostate lemma OthersInside(i: nat)
      requires openFds == old(openFds) && i < |openFds| && old(Valid()) && Inside(i)
      requires forall k :: 0 <= k < |openFds| && k != i ==> openFds[k].position == old(openFds[k].position)
      requires forall k :: 0 <= k < |openFds| ==> openFds[k].inode.size == old(openFds[k].inode.size)
      ensures Valid()
    {
      forall k {:trigger Inside(k)} | 0 <= k < |openFds|
        ensures Inside(k)
      {
        assert old(Inside(k));
      }
    }

    // -------------------------------------------------------------- the driver

    method GetHeader(num: nat) returns (i: nat)
      ensures i == HeaderOf(headers, num)
    {
      i := 0;
      while i < |headers| && headers[i].inodeNum != num
        invariant i <= HeaderOf(headers, num)
      {
        i := i + 1;
      }
    }

    method RemoveHeader(name: string)
      modifies this`headers
      ensures headers == Removed(old(headers), name)
    {
      var i := 0;
      while i < |headers|
        invariant i <= |headers| && headers == old(headers)
        invariant forall j :: 0 <= j < i ==> headers[j].name != name
      {
        if headers[i].name == name {
          RemovedShape(headers, i);
          headers := headers[..i] + headers[i + 1..];
          return;
        }
        i := i + 1;
      }
      RemovedNothing(headers, name);
    }

    method DriverWrite(ino: Inode, offset: U64, bytes: U64) returns (ret: U64)
      modifies this`headers, ino`size
      ensures old(HeaderOf(headers, ino.num)) == |old(headers)| ==> ret == W64 - 1 && unchanged(this`headers, ino)
      ensures old(HeaderOf(headers, ino.num)) < |old(headers)| ==>
        ret == bytes && ino.size == SizeAfterWrite(old(ino.size), offset, bytes) &&
        headers == HeadersAfterWrite(old(headers), ino.num, old(ino.size), offset, bytes)
      ensures HeadersMove(old(headers), headers, ino.num, old(ino.size), offset, bytes)
    {
      var h := GetHeader(ino.num);
      if h == |headers| { return W64 - 1; }
      HeadersMoved(headers, ino.num, ino.size, offset, bytes);
      var name := headers[h].name;
      if bytes > (ino.size - offset) % W64 {
        RemoveHeader(name);
        ino.size := (bytes + offset) % W64;
        headers := headers + [Created(name, ino.num, ino.size)];
      }
      return bytes;
    }

    method DriverRead(ino: Inode, count: U64) returns (ret: U64)
      ensures var h := HeaderOf(headers, ino.num);
        ret == if h == |headers| then 0 else ReadCount(headers[h], count)
      ensures var h := HeaderOf(headers, ino.num);
        h < |headers| ==> ret <= count && ret <= headers[h].size && (ret == count || ret == headers[h].size)
    {
      var h := GetHeader(ino.num);
      if h == |headers| { return 0; }
      ret := count;
      if ret > headers[h].size {
        ret := headers[h].size;
      }
    }

    // -------------------------------------------------------------- read and write

    /** The position moves behind the bytes read and stays in the file; sizes and the other
        positions are untouched. */
    method Read(id: int, count: U64) returns (ret: U64)
      requires Valid()
      modifies (set d <- openFds | d.id == id)`position
      ensures Valid()
      ensures ret <= count
      ensures old(IndexOf(id)) == |openFds| ==> ret == 0
      ensures old(IndexOf(id)) < |openFds| ==>
        var d := openFds[old(IndexOf(id))];
        var h := HeaderOf(headers, d.inode.num);
        ret == (if d.inode.isDir || h == |headers| then 0 else ReadCount(headers[h], count)) &&
        d.position == if d.inode.isDir then old(d.position) else Advance(old(d.position), d.inode.size, ret)
      ensures old(IndexOf(id)) < |openFds| ==>
        var d := openFds[old(IndexOf(id))];
        old(d.position) + ret < W64 ==>
          d.position == if old(d.position) + ret <= d.inode.size then old(d.position) + ret else d.inode.size
      ensures old(IndexOf(id)) < |openFds| ==>
        var d := openFds[old(IndexOf(id))];
        var h := HeaderOf(headers, d.inode.num);
        !d.inode.isDir && h < |headers| ==>
          ret <= count && ret <= headers[h].size && (ret == count || ret == headers[h].size)
    {
      var d := GetFd(id);
      if d == null { return 0; }
      assert Inside(IndexOf(id));
      if d.inode.isDir { return 0; }
      ret := DriverRead(d.inode, count);
      ghost var i := IndexOf(id);
      assert Inside(i);
      SeekInside(d.position, d.inode.size, ret, SEEK_CUR);
      d.Seek(ret);
      OthersInside(i);
    }

    /** Whether the bytes written end within 64 bits. */
    ghost predicate Ends(id: int, count: U64)
      reads this, openFds
    {
      IndexOf(id) < |openFds| ==> openFds[IndexOf(id)].position + count < W64
    }

    ghost predicate Before(k: nat, i: nat, end: int)
      requires k < |openFds| && i < |openFds|
      reads this, openFds
    {
      k != i && openFds[k].inode == openFds[i].inode ==> openFds[k].position <= end
    }

    /** Every other descriptor of the i-th one's file stands at most at end. */
    ghost predicate OthersBefore(i: nat, end: int)
      requires i < |openFds|
      reads this, openFds
    {
      forall k {:trigger Before(k, i, end)} :: 0 <= k < |openFds| ==> Before(k, i, end)
    }

    /** Whether a write that does not end within 64 bits still leaves every position in its file:
        nothing is written, or the file's other positions are at most at the wrapped end. */
    ghost predicate Spared(id: int, count: U64)
      reads this, openFds, set d <- openFds :: d.inode
    {
      var i := IndexOf(id);
      i < |openFds| && !openFds[i].inode.isDir && HeaderOf(headers, openFds[i].inode.num) < |headers| ==>
        OthersBefore(i, openFds[i].position + count - W64)
    }

    /** A write that ends within 64 bits keeps every position in its file and shrinks none.
        One that wraps does the first exactly when the file's other positions are small. */
    method Write(id: int, count: U64) returns (ret: U64)
      requires Valid()
      modifies this`headers, (set d <- openFds | d.id == id)`position, (set d <- openFds | d.id == id :: d.inode)`size
      ensures old(IndexOf(id)) == |openFds| ==> ret == W64 - 1 && headers == old(headers)
      ensures old(IndexOf(id)) < |openFds| ==> Written(openFds[old(IndexOf(id))], count, ret)
      ensures Valid() <==> old(Ends(id, count)) || old(Spared(id, count))
      ensures old(Ends(id, count)) ==> forall d <- openFds :: old(d.inode.size) <= d.inode.size
    {
      var d := GetFd(id);
      if d == null { return W64 - 1; }
      if d.inode.isDir { return 0; }
      ret := WriteThrough(d, id, count);
    }

    method WriteThrough(d: Descriptor, ghost id: int, count: U64) returns (ret: U64)
      requires Valid() && IndexOf(id) < |openFds| && openFds[IndexOf(id)] == d && !d.inode.isDir
      modifies this`headers, d`position, d.inode`size
      ensures Written(d, count, ret)
      ensures Valid() ==> old(Ends(id, count)) || old(Spared(id, count))
      ensures old(Ends(id, count)) || old(Spared(id, count)) ==> Valid()
      ensures old(Ends(id, count)) ==> old(d.inode.size) <= d.inode.size
    {
      ghost var i, end := IndexOf(id), d.position + count - W64;
      ghost var kept := Ends(id, count) || Spared(id, count);
      assert Inside(i) && kept == (end < 0 || HeaderOf(headers, d.inode.num) == |headers| || OthersBefore(i, end));
      ret := DriveAndSeek(d, count);
      if d.inode.size >= old(d.inode.size) {
        GrownInside(d);
      } else {
        ShrunkInside(i);
      }
    }

    method DriveAndSeek(d: Descriptor, count: U64) returns (ret: U64)
      requires d.position <= d.inode.size && !d.inode.isDir
      modifies this`headers, d`position, d.inode`size
      ensures Written(d, count, ret) && d.position <= d.inode.size
      ensures d.inode.size < old(d.inode.size) <==>
        old(HeaderOf(headers, d.inode.num) < |headers|) && old(d.position) + count >= W64
      ensures d.inode.size < old(d.inode.size) ==> d.inode.size == old(d.position) + count - W64
    {
      WriteSize(d.inode.size, d.position, count);
      PastEnd(d.inode.size, d.position, count);
      WritePosition(d.inode.size, d.position, count);
      ret := DriverWrite(d.inode, d.position, count);
      d.Seek(ret);
    }

    /** What one write does to a descriptor's position, its file and the tracked headers. */
    twostate predicate Written(d: Descriptor, count: U64, ret: U64)
      reads this, d, d.inode
    {
      if d.inode.isDir then
        ret == 0 && unchanged(d, d.inode, this`headers)
      else if HeaderOf(old(headers), d.inode.num) == |old(headers)| then
        ret == W64 - 1 && unchanged(d.inode, this`headers) &&
        d.position == Advance(old(d.position), d.inode.size, ret)
      else
        var size, end := old(d.inode.size), old(d.position) + count;
        && ret == count && d.position == end % W64
        && d.inode.size == (if end <= size then size else end % W64)
        && headers == HeadersAfterWrite(old(headers), d.inode.num, size, old(d.position), count)
        && HeadersMove(old(headers), headers, d.inode.num, size, old(d.position), count)
    }

    /** Files that grew, and one descriptor moved inside its own, leave the table valid. */
    twostate lemma GrownInside(d: Descriptor)
      requires openFds == old(openFds) && old(Valid())
      requires forall k :: 0 <= k < |openFds| ==> openFds[k].inode.size >= old(openFds[k].inode.size)
      requires forall k :: 0 <= k < |openFds| && openFds[k] != d ==> openFds[k].position == old(openFds[k].position)
      requires d.position <= d.inode.size
      ensures Valid()
    {
      forall k {:trigger Inside(k)} | 0 <= k < |openFds|
        ensures Inside(k)
      {
        assert old(Inside(k));
      }
    }

    /** After one file shrank, the table is valid exactly when the other descriptors of
        that file stand at most at its new end. */
    twostate lemma ShrunkInside(i: nat)
      requires openFds == old(openFds) && old(Valid()) && i < |openFds| && Inside(i)
      requires forall k :: 0 <= k < |openFds| && openFds[k].inode != openFds[i].inode ==>
        openFds[k].inode.size == old(openFds[k].inode.size)
      requires forall k :: 0 <= k < |openFds| && k != i ==> openFds[k].position == old(openFds[k].position)
      ensures var end := openFds[i].inode.size; Valid() ==> old(OthersBefore(i, end))
      ensures var end := openFds[i].inode.size; old(OthersBefore(i, end)) ==> Valid()
    {
      var end := openFds[i].inode.size;
      if old(OthersBefore(i, end)) {
        forall k {:trigger Inside(k)} | 0 <= k < |openFds|
          ensures Inside(k)
        {
          assert old(Inside(k)) && old(Before(k, i, end));
        }
      }
      if Valid() {
        forall k {:trigger old(Before(k, i, end))} | 0 <= k < |openFds|
          ensures old(Before(k, i, end))
        {
          assert Inside(k);
        }
      }
    }

    // -------------------------------------------------------------- runs

    /** The two calls a run stops at: a write whose end does not fit 64 bits and an open
        without a free id. */
    ghost predicate Stops(op: Op)
      reads this, openFds
    {
      (op.Write? && !Ends(op.id, op.count)) || (op.Open? && INT_MAX <= |openFds|)
    }

    method Perform(op: Op) returns (ran: bool)
      requires Valid()
      modifies this, (set d <- openFds)`position, (set d <- openFds :: d.inode)`size
      ensures Valid()
      ensures !ran ==> Stops(op)
      ensures forall d <- openFds :: d in old(openFds) || (fresh(d) && op.Open? && op.inode == d.inode)
      ensures forall f <- old(set d <- openFds :: d.inode) :: old(f.size) <= f.size
    {
      match op {
      case Open(inode) =>
        var _, halted := Open(inode);
        return !halted;
      case Close(id) =>
        var _ := Close(id);
      case Seek(id, offset, whence) =>
        var _ := Seek(id, offset, whence);
      case Read(id, count) =>
        var _ := Read(id, count);
      case Write(id, count) =>
        var d := GetFd(id);
        if d != null && d.position + count >= W64 { return false; }
        var _ := Write(id, count);
      }
      return true;
    }

    /** Any interleaving of opens, closes, seeks, reads and writes keeps ids distinct and every
        position in its file, and no file shrinks. */
    method Interleave(ops: seq<Op>, ghost files: set<Inode>) returns (done: nat)
      requires Valid()
      requires forall d <- openFds :: d.inode in files
      requires forall op <- ops :: op.Open? && op.inode != null ==> op.inode in files
      modifies this, (set d <- openFds)`position, files`size
      ensures Valid()
      ensures forall f <- files :: old(f.size) <= f.size
      ensures done == |ops| || (done < |ops| && Stops(ops[done]))
    {
      done := 0;
      while done < |ops|
        invariant Valid() && done <= |ops|
        invariant forall d <- openFds :: d.inode in files && (d in old(openFds) || fresh(d))
        invariant forall f <- files :: old(f.size) <= f.size
      {
        label Before:
        var ran := Perform(ops[done]);
        forall f <- files
          ensures old(f.size) <= f.size
        {
          assert old@Before(f.size) <= f.size;
        }
        if !ran { return; }
        done := done + 1;
      }
    }
  }
}
