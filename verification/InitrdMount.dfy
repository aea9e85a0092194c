/** initrd_driver::mount from the blocks of the archive to the vnode tree. */
module InitrdMount {
  import opened VnodeTree
  import opened Mount
  import Tar

  /** What an archive lists. */
  function Listing(files: seq<Tar.Member>): (r: seq<Entry>)
    ensures |r| == |files|
    ensures forall i :: 0 <= i < |r| ==> r[i] == Entry(files[i].header.name, Tar.Size(files[i].header))
  {
    seq(|files|, i requires 0 <= i < |files| => Entry(files[i].header.name, Tar.Size(files[i].header)))
  }

  lemma BlocksWritten(a: Tar.Archive, files: seq<Tar.Member>, places: seq<nat>)
    requires Tar.Written(a, files) && |places| == |files|
    requires forall i :: 0 <= i < |files| ==> places[i] == |Tar.Image(files[..i])|
    ensures forall i :: 0 <= i < |files| ==> places[i] < |a| && a[places[i]] == files[i].header
  {
    forall i | 0 <= i < |files|
      ensures places[i] < |a| && a[places[i]] == files[i].header
    {
      Tar.WalkMeetsHeaders(a, files, i);
    }
  }

  ghost predicate Tracks(h: Header, b: Tar.Block)
    reads h
  {
    h.name == b.name && h.size == Tar.Size(b)
  }

  ghost predicate AllTracked(hs: seq<Header>, files: seq<Tar.Member>)
    reads hs
  {
    |hs| <= |files| && forall j :: 0 <= j < |hs| ==> Tracks(hs[j], files[j].header)
  }

  lemma TrackedSnoc(hs: seq<Header>, h: Header, files: seq<Tar.Member>)
    requires AllTracked(hs, files) && |hs| < |files| && Tracks(h, files[|hs|].header)
    ensures AllTracked(hs + [h], files)
  {
  }

  lemma DistinctSnoc(hs: seq<Header>, h: Header)
    requires DistinctHeaders(hs) && h !in hs
    ensures DistinctHeaders(hs + [h])
  {
  }

  lemma TrackedListing(hs: seq<Header>, files: seq<Tar.Member>)
    requires AllTracked(hs, files) && |hs| == |files|
    ensures Entries(hs) == Listing(files)
  {
    forall i | 0 <= i < |hs|
      ensures Entries(hs)[i] == Listing(files)[i]
    {
      assert Tracks(hs[i], files[i].header);
    }
  }

  /** The first loop of mount: the headers of an archive, tracked in the order of its files. */
  method TrackHeaders(a: Tar.Archive, ghost files: seq<Tar.Member>) returns (headers: seq<Header>)
    requires Tar.Written(a, files)
    ensures fresh(headers) && DistinctHeaders(headers) && Entries(headers) == Listing(files)
  {
    Tar.WrittenTerminated(a, files);
    var places := Tar.CollectHeaders(a, |files|);
    BlocksWritten(a, files, places);
    headers := [];
    for i := 0 to |places|
      invariant |headers| == i && fresh(headers) && DistinctHeaders(headers)
      invariant AllTracked(headers, files)
    {
      var h := TrackHeader(a[places[i]]);
      DistinctSnoc(headers, h);
      TrackedSnoc(headers, h, files);
      headers := headers + [h];
    }
    TrackedListing(headers, files);
  }

  method TrackHeader(block: Tar.Block) returns (h: Header)
    ensures fresh(h) && Tracks(h, block)
  {
    var size := Tar.ParseSize(block.sizeField);
    h := new Header(block.name, size);
  }

  /** mount of an archive in good order, and then find: "/" and the name of file k lead to the vnode with
      number k + 1, the file's size, and the kind that goes with it. */
  method MountImage(a: Tar.Archive, root: Vnode, k: nat, ghost files: seq<Tar.Member>) returns (found: Vnode?)
    requires Tar.Written(a, files) && GoodArchive(Listing(files)) && k < |files|
    requires root.children == [] && root.inodeNum == 0
    modifies root`children
    ensures found != null && found.inodeNum == k + 1
    ensures var size := Tar.Size(files[k].header); found.size == size && (found.isDir <==> size == 0)
  {
    var headers := TrackHeaders(a, files);
    assert Entries(headers)[k] == Listing(files)[k];
    found := MountGoodArchive(headers, root, k);
  }
}
