// From the items a disk is made from to a card that is ready for commands.
module Startup {
  import opened Bytes
  import opened FsFormat
  import opened DiskItems
  import opened Lut
  import opened DiskIndex
  import opened Disk
  import opened DiskFile
  import opened VaSpec
  import opened FileSys
  import opened ApduRc
  import opened ApduhSpec
  import opened Apduh
  import opened CardLaws

  // An MF followed by ADFs, each small enough for 32 bit offsets.
  ghost predicate MakesDisk(its: seq<Item>) {
    && 1 <= |its| <= 256
    && forall i :: 0 <= i < |its| ==>
      && Valid(its[i]) && Nested(its[i]) && IsRoot(its[i]) && (its[i].kind.Mf? <==> i == 0)
      && |Ser(its[i], 0)| < UINT32_MAX
  }

  function SerAll(its: seq<Item>): (r: seq<bytes>)
    ensures |r| == |its| && forall i :: 0 <= i < |its| ==> r[i] == Ser(its[i], 0)
  {
    seq(|its|, i requires 0 <= i < |its| => Ser(its[i], 0))
  }

  // Serialised items are a well-formed disk, of exactly the files they describe.
  lemma ItemsMakeDisk(its: seq<Item>)
    requires MakesDisk(its)
    ensures GoodForest(SerAll(its))
    ensures forall i :: 0 <= i < |its| ==> ReadTree(SerAll(its)[i]) == Some(DirOf(its[i], 0, 0))
  {
    forall i | 0 <= i < |its|
      ensures GoodTree(SerAll(its)[i], i) && ReadTree(SerAll(its)[i]) == Some(DirOf(its[i], 0, 0))
    {
      TreeReadBack(its[i], SerAll(its)[i]);
    }
  }

  // An ID can be selected on a mounted disk exactly when some file has it.
  lemma IdSelectable(ds: seq<Dir>, id: u16)
    ensures ById(ds, id).Some? <==> id != 0 && exists i, f: File :: 0 <= i < |ds| && f in Files(ds[i]) && f.id == id
  {
    var fss := FilesOfAll(ds);
    LastIdSound(fss, |ds|, id);
    if ById(ds, id).Some? {
      var (t, f) := ById(ds, id).value;
      assert f in Files(ds[t]) && f.id == id;
    } else if id != 0 {
      assert forall i, f: File :: 0 <= i < |ds| && f in fss[i] ==> f.id != id;
    }
  }

  // The tables are built and the MF is selected.
  method Start(trees: seq<array<byte>>) returns (ret: Ret, fs: FileSystem)
    requires forall i, j :: 0 <= i < j < |trees| ==> trees[i] != trees[j]
    requires GoodForest(Contents(trees))
    ensures fs.Valid() && fs.Bufs() == Contents(trees) && fs.trees == trees
    ensures Outcome(ret, fs.va) == Select(fs.ds, NOTHING, ById(fs.ds, MF_ID))
    ensures Good(Mount(fs.ds, fs.sids, fs.ids), Card(fs.Bufs(), fs.va, EMPTY))
  {
    var bufs := Contents(trees);
    var sids, ids;
    ret, sids, ids := BuildTables(bufs);
    ghost var ds := Dirs(bufs);
    ForestIsGood(ds, bufs);
    fs := new FileSystem(trees, sids, ids, ds);
    ret := fs.Reset();
  }

  function Contents(trees: seq<array<byte>>): (r: seq<bytes>)
    reads trees
    ensures |r| == |trees| && forall i :: 0 <= i < |trees| ==> r[i] == trees[i][..]
  {
    seq(|trees|, i requires 0 <= i < |trees| reads trees => trees[i][..])
  }

  ghost function Dirs(bufs: seq<bytes>): (ds: seq<Dir>)
    requires GoodForest(bufs)
    ensures |ds| == |bufs| && forall i :: 0 <= i < |bufs| ==> ReadTree(bufs[i]) == Some(ds[i])
  {
    assert forall i :: 0 <= i < |bufs| ==> GoodTree(bufs[i], i);
    seq(|bufs|, i requires 0 <= i < |bufs| && GoodTree(bufs[i], i) => ReadTree(bufs[i]).value)
  }
}
