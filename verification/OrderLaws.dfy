// In which order the files of a tree are listed.
module OrderLaws {
  import opened Bytes
  import opened FsFormat
  import opened DiskIndex
  import opened VaSpec

  // The files of a tree are those of its nodes, in the same order.
  ghost predicate SameOrder(fs: seq<File>, ns: seq<Dir>) {
    |fs| == |ns| && forall i :: 0 <= i < |fs| ==> fs[i] == ns[i].file
  }

  lemma {:induction false} FilesInOrder(d: Dir)
    requires Proper(d)
    ensures SameOrder(Files(d), Nodes(d))
    decreases d, 0
  {
    assert d in Nodes(d);
    assert forall m :: m in NodesAll(d.kids) ==> m in Nodes(d);
    assert d.kids[0..] == d.kids;
    FilesFromInOrder(d.kids, 0);
  }

  lemma {:induction false} FilesFromInOrder(ds: seq<Dir>, i: nat)
    requires i <= |ds|
    requires forall m :: m in NodesAll(ds[i..]) && !IsFolder(m.file.kind) ==> m.kids == []
    ensures SameOrder(FilesFrom(ds, i), NodesAll(ds[i..]))
    decreases ds, |ds| - i
  {
    if i < |ds| {
      assert ds[i..][0] == ds[i] && ds[i..][1..] == ds[i + 1..];
      assert forall m :: m in Nodes(ds[i]) ==> m in NodesAll(ds[i..]);
      assert forall m :: m in NodesAll(ds[i + 1..]) ==> m in NodesAll(ds[i..]);
      FilesInOrder(ds[i]);
      FilesFromInOrder(ds, i + 1);
    }
  }

  // The files of a tree are listed by their offsets: the last of several is the one furthest
  // behind.
  lemma FilesAscend(buf: bytes)
    requires ReadTree(buf).Some?
    ensures var fs := Files(ReadTree(buf).value);
      forall i, j :: 0 <= i < j < |fs| ==> fs[i].trel < fs[j].trel
  {
    TreeProper(buf);
    FilesInOrder(ReadTree(buf).value);
    NodesAscend(HeadersOf(buf), 0, 0, |buf|);
    TwoAscend(Files(ReadTree(buf).value), Nodes(ReadTree(buf).value));
  }

  lemma TwoAscend(fs: seq<File>, ns: seq<Dir>)
    requires SameOrder(fs, ns) && Ascend(ns)
    ensures forall i, j :: 0 <= i < j < |fs| ==> fs[i].trel < fs[j].trel
  {}

  // A file is the file of one node only.
  lemma NodesDiffer(buf: bytes, m: Dir, n: Dir)
    requires ReadTree(buf).Some? && m in Nodes(ReadTree(buf).value) && n in Nodes(ReadTree(buf).value)
    ensures m.file == n.file ==> m == n
  {
    NodesAscend(HeadersOf(buf), 0, 0, |buf|);
    OnceOnly(Nodes(ReadTree(buf).value), m, n);
  }

  lemma OnceOnly(ns: seq<Dir>, m: Dir, n: Dir)
    requires Ascend(ns) && m in ns && n in ns
    ensures m.file == n.file ==> m == n
  {
    var i :| 0 <= i < |ns| && ns[i] == m;
    var j :| 0 <= j < |ns| && ns[j] == n;
    if i != j {
      assert ns[if i < j then i else j].file.trel < ns[if i < j then j else i].file.trel;
    }
  }
}
