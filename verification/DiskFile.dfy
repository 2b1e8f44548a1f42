// The file a disk is saved to and loaded from.  The file is a byte sequence here.
module DiskFile {
  import opened Bytes
  import opened FsFormat
  import opened Lut
  import opened DiskWalk
  import opened DiskIndex
  import opened Disk

  const ITEM_HDR_LEN: nat := 10

  // The signature of a little-endian disk file.
  const MAGIC: bytes :=
    [0x00, 0x73, 0x77, 0x49, 0x43, 0x43, 0x91, 0xCC, 0x2E, 0x2E, 0x2E, 0x2E, 0x46, 0x53, 0xF0, 0x0F]

  function Concat(bufs: seq<bytes>, i: nat): bytes
    requires i <= |bufs|
    decreases |bufs| - i
  {
    if i == |bufs| then [] else bufs[i] + Concat(bufs, i + 1)
  }

  function SaveBytes(bufs: seq<bytes>): bytes { MAGIC + Concat(bufs, 0) }

  // The trees in the rest of a file, the first of which has index `idx` (one byte wide).
  function ParseTrees(rest: bytes, idx: byte): Option<seq<bytes>>
    decreases |rest|
  {
    if rest == [] then Some([])
    else if |rest| < ITEM_HDR_LEN then None
    else
      var size := Le32At(rest, 0);
      if rest[8] != KindByte(if idx == 0 then Mf else Adf) then None
      else if size <= ITEM_HDR_LEN || size > |rest| then None
      else
        match ParseTrees(rest[size..], (idx + 1) as int % 256)
        case None => None
        case Some(bufs) => Some([rest[..size]] + bufs)
  }

  function Parse(f: bytes): Option<seq<bytes>> {
    if |f| > UINT32_MAX || |f| < |MAGIC| || f[..|MAGIC|] != MAGIC || |f| == |MAGIC| then None
    else ParseTrees(f[|MAGIC|..], 0)
  }

  method Save(bufs: seq<bytes>) returns (ret: Ret, f: bytes)
    ensures ret == if bufs != [] && [] !in bufs then Success else Error
    ensures ret == Success ==> f == SaveBytes(bufs)
  {
    ret, f := Error, MAGIC;
    var i := 0;
    assert f + Concat(bufs, 0) == SaveBytes(bufs);
    while i < |bufs|
      invariant 0 <= i <= |bufs| && [] !in bufs[..i]
      invariant ret == if i > 0 then Success else Error
      invariant f + Concat(bufs, i) == SaveBytes(bufs)
    {
      if bufs[i] == [] {
        return Error, f; // Writing an item of no bytes is reported as a failure.
      }
      Assoc(f, bufs[i], Concat(bufs, i + 1));
      f := f + bufs[i];
      ret := Success;
      i := i + 1;
    }
    assert bufs[..i] == bufs && f + [] == f;
  }

  // The trees still to come, put behind those already read.
  function Behind(bufs: seq<bytes>, more: Option<seq<bytes>>): Option<seq<bytes>> {
    if more == None then None else Some(bufs + more.value)
  }

  lemma BehindOne(bufs: seq<bytes>, buf: bytes, more: Option<seq<bytes>>)
    ensures Behind(bufs, Behind([buf], more)) == Behind(bufs + [buf], more)
  {
    if more.Some? {
      Assoc(bufs, [buf], more.value);
    }
  }

  lemma ParseStep(rest: bytes, idx: byte, size: nat)
    requires |rest| >= ITEM_HDR_LEN && size == Le32At(rest, 0) && ITEM_HDR_LEN < size <= |rest|
    requires rest[8] == KindByte(if idx == 0 then Mf else Adf)
    ensures ParseTrees(rest, idx) == Behind([rest[..size]], ParseTrees(rest[size..], (idx + 1) as int % 256))
  {}

  // One tree of the file, or nothing when it is not what is expected.
  method LoadTree(f: bytes, dataIdx: nat, treeIdx: byte, ghost rest: bytes) returns (buf: bytes)
    requires dataIdx < |f| && rest == f[dataIdx..]
    ensures buf == [] ==> ParseTrees(rest, treeIdx) == None
    ensures buf != [] ==>
      && |buf| <= |rest| && rest[|buf|..] == f[dataIdx + |buf|..]
      && ParseTrees(rest, treeIdx) == Behind([buf], ParseTrees(rest[|buf|..], (treeIdx + 1) as int % 256))
  {
    if |f| - dataIdx < ITEM_HDR_LEN {
      return [];
    }
    var size := Le32At(f, dataIdx);
    var typ := f[dataIdx + 8];
    assert size == Le32At(rest, 0) && typ == rest[8];
    if (treeIdx == 0 && typ != KindByte(Mf)) || (treeIdx != 0 && typ != KindByte(Adf)) {
      return [];
    }
    // What is left of the item is read as one block, which must not be empty.
    if size <= ITEM_HDR_LEN || size > |f| - dataIdx {
      return [];
    }
    SliceOfRest(f, dataIdx, 0, size);
    ParseStep(rest, treeIdx, size);
    buf := f[dataIdx..dataIdx + size];
  }

  method Load(f: bytes) returns (ret: Ret, bufs: seq<bytes>)
    ensures ret == if Parse(f).Some? then Success else Error
    ensures ret == Success ==> Parse(f) == Some(bufs)
  {
    bufs := [];
    if |f| > UINT32_MAX || |f| < |MAGIC| || f[..|MAGIC|] != MAGIC {
      return Error, bufs;
    }
    var dataIdx, treeIdx := |MAGIC|, 0;
    ghost var rest := f[|MAGIC|..];
    ghost var all := ParseTrees(rest, 0);
    if all.Some? {
      assert [] + all.value == all.value;
    }
    while dataIdx < |f|
      invariant |MAGIC| <= dataIdx <= |f| && 0 <= treeIdx < 256
      invariant rest == f[dataIdx..] && all == Behind(bufs, ParseTrees(rest, treeIdx))
      invariant dataIdx > |MAGIC| <==> bufs != []
    {
      var buf := LoadTree(f, dataIdx, treeIdx, rest);
      if buf == [] {
        return Error, bufs;
      }
      BehindOne(bufs, buf, ParseTrees(rest[|buf|..], (treeIdx + 1) % 256));
      bufs := bufs + [buf];
      dataIdx := dataIdx + |buf|;
      treeIdx := (treeIdx + 1) % 256;
      rest := rest[|buf|..];
    }
    if bufs == [] {
      return Error, bufs; // No tree to index.
    }
    assert rest == [] && bufs + [] == bufs;
    ret := Success;
  }

  lemma Suffix(bufs: seq<bytes>, i: nat)
    requires i <= |bufs|
    ensures if i < |bufs| then [bufs[i]] + bufs[i + 1..] == bufs[i..] else bufs[i..] == []
  {}

  // A tree of a disk file: its first octets say how long it is, and its type is that of an MF for
  // the first and of an ADF for all others.  (The count of trees is one octet.)
  predicate Framed(buf: bytes, j: nat) {
    && |buf| > 10
    && buf[0] as int + 0x100 * buf[1] as int + 0x1_0000 * buf[2] as int + 0x100_0000 * buf[3] as int == |buf|
    && buf[8] == (if j % 0x100 == 0 then 1 else 2)
  }

  ghost predicate AllFramed(bufs: seq<bytes>, i: nat) { forall j :: i <= j < |bufs| ==> Framed(bufs[j], j) }

  lemma OneTree(rest: bytes, i: nat, buf: bytes, more: bytes)
    requires Framed(buf, i) && rest == buf + more
    ensures ParseTrees(rest, i % 256) == Behind([buf], ParseTrees(more, (i + 1) % 256))
  {
    Parts(buf, more);
    assert forall k :: 0 <= k < 9 ==> rest[k] == buf[k];
    assert (i % 256 + 1) % 256 == (i + 1) % 256;
    ParseStep(rest, i % 256, |buf|);
  }

  // The first tree of a file that loads.
  lemma HeadTree(rest: bytes, i: nat) returns (buf: bytes)
    requires rest != [] && ParseTrees(rest, i % 256).Some?
    ensures Framed(buf, i) && |buf| <= |rest| && rest == buf + rest[|buf|..]
  {
    buf := rest[..Le32At(rest, 0)];
  }

  lemma {:induction false} TreesExactly(rest: bytes, bufs: seq<bytes>, i: nat)
    requires i <= |bufs|
    ensures ParseTrees(rest, i % 256) == Some(bufs[i..]) <==> rest == Concat(bufs, i) && AllFramed(bufs, i)
    decreases |bufs| - i
  {
    Suffix(bufs, i);
    if i < |bufs| {
      if ParseTrees(rest, i % 256) == Some(bufs[i..]) {
        var buf := HeadTree(rest, i);
        OneTree(rest, i, buf, rest[|buf|..]);
        SameHead(buf, ParseTrees(rest[|buf|..], (i + 1) % 256), bufs, i);
        TreesExactly(rest[|buf|..], bufs, i + 1);
      }
      if rest == Concat(bufs, i) && AllFramed(bufs, i) {
        OneTree(rest, i, bufs[i], Concat(bufs, i + 1));
        TreesExactly(Concat(bufs, i + 1), bufs, i + 1);
      }
    }
  }

  lemma SameHead(buf: bytes, more: Option<seq<bytes>>, bufs: seq<bytes>, i: nat)
    requires i < |bufs| && Behind([buf], more) == Some(bufs[i..])
    ensures buf == bufs[i] && more == Some(bufs[i + 1..])
  {
    var all := [buf] + more.value;
    assert all[0] == buf && all[1..] == more.value && bufs[i..][1..] == bufs[i + 1..];
  }

  // A file loads as these trees exactly when it is the signature and the trees one after the
  // other, each of which is as long as it says and of the type for its place.
  lemma ParseExactly(f: bytes, bufs: seq<bytes>)
    ensures Parse(f) == Some(bufs) <==>
      && |f| <= 0xFFFF_FFFF && bufs != [] && AllFramed(bufs, 0)
      && f == [0x00, 0x73, 0x77, 0x49, 0x43, 0x43, 0x91, 0xCC, 0x2E, 0x2E, 0x2E, 0x2E, 0x46, 0x53, 0xF0, 0x0F]
              + Concat(bufs, 0)
  {
    if |f| >= |MAGIC| && f[..|MAGIC|] == MAGIC {
      var rest := f[|MAGIC|..];
      assert f == MAGIC + rest;
      TreesExactly(rest, bufs, 0);
      assert bufs[0..] == bufs;
    }
    Parts(MAGIC, Concat(bufs, 0));
    if bufs != [] && AllFramed(bufs, 0) {
      assert Framed(bufs[0], 0);
      assert Concat(bufs, 0) != [];
    }
  }

  // Loading what was saved gives the same trees back, exactly when the file is short enough
  // for its length to fit 32 bits.
  lemma LoadSaved(bufs: seq<bytes>)
    requires GoodForest(bufs)
    ensures Parse(SaveBytes(bufs)) == if |SaveBytes(bufs)| <= UINT32_MAX then Some(bufs) else None
  {
    forall j | 0 <= j < |bufs|
      ensures Framed(bufs[j], j)
    {
      assert GoodTree(bufs[j], j);
      TreeFramed(bufs[j], j);
    }
    ParseExactly(SaveBytes(bufs), bufs);
  }

  lemma TreeFramed(buf: bytes, i: nat)
    requires GoodTree(buf, i) && i < 256
    ensures Framed(buf, i)
  {
    var d := ReadTree(buf).value;
    assert HeadersOf(buf)(0) == FilePrs(buf, 0) == Some(d.file);
  }

  // The tables of a loaded disk.
  method BuildTables(bufs: seq<bytes>) returns (ret: Ret, sids: seq<seq<Entry>>, ids: seq<Entry>)
    requires GoodForest(bufs)
    ensures ret == Success && |sids| == |bufs|
    ensures forall i :: 0 <= i < |bufs| ==> SidAgree(sids[i], ReadTree(bufs[i]).value)
    ensures IdAgree(ids, Forest(bufs), |bufs|)
  {
    sids := BuildSids(bufs);
    var table;
    ret, table := LutIdRebuild(bufs);
    ids := table.Copy();
  }

  method BuildSids(bufs: seq<bytes>) returns (sids: seq<seq<Entry>>)
    requires GoodForest(bufs)
    ensures |sids| == |bufs|
    ensures forall i :: 0 <= i < |bufs| ==> SidAgree(sids[i], ReadTree(bufs[i]).value)
  {
    sids := [];
    var i := 0;
    while i < |bufs|
      invariant 0 <= i <= |bufs| && |sids| == i
      invariant forall j :: 0 <= j < i ==> SidAgree(sids[j], ReadTree(bufs[j]).value)
    {
      var es := BuildSid(bufs[i], i);
      sids := sids + [es];
      i := i + 1;
    }
  }

  method BuildSid(buf: bytes, ghost i: nat) returns (es: seq<Entry>)
    requires GoodTree(buf, i)
    ensures SidAgree(es, ReadTree(buf).value)
  {
    var ret, table := LutSidRebuild(buf);
    es := table.Copy();
  }

  // Saving a well-formed disk and loading it again: the same trees, and tables that answer
  // every query as the tables of the saved disk did.
  method SaveAndLoad(bufs: seq<bytes>, ghost sids: seq<seq<Entry>>, ghost ids: seq<Entry>)
    returns (ret: Ret, bufs': seq<bytes>, sids': seq<seq<Entry>>, ids': seq<Entry>)
    requires GoodForest(bufs) && |SaveBytes(bufs)| <= UINT32_MAX && |sids| == |bufs|
    requires forall i :: 0 <= i < |bufs| ==> SidAgree(sids[i], ReadTree(bufs[i]).value)
    requires IdAgree(ids, Forest(bufs), |bufs|)
    ensures ret == Success && bufs' == bufs && |sids'| == |bufs|
    ensures forall id: u16 :: IdLookup(bufs', ids', id) == IdLookup(bufs, ids, id)
    ensures forall i, sid: byte :: 0 <= i < |bufs| ==>
        SidLookup(bufs'[i], sids'[i], sid) == SidLookup(bufs[i], sids[i], sid)
  {
    forall i | 0 <= i < |bufs|
      ensures bufs[i] != []
    {
      assert GoodTree(bufs[i], i);
    }
    var f;
    ret, f := Save(bufs);
    LoadSaved(bufs);
    ret, bufs' := Load(f);
    ret, sids', ids' := BuildTables(bufs');
    forall id: u16
      ensures IdLookup(bufs', ids', id) == IdLookup(bufs, ids, id)
    {
      IdLookupExact(bufs, ids, id);
      IdLookupExact(bufs, ids', id);
    }
    forall i, sid: byte | 0 <= i < |bufs|
      ensures SidLookup(bufs'[i], sids'[i], sid) == SidLookup(bufs[i], sids[i], sid)
    {
      assert GoodTree(bufs[i], i);
      SidLookupExact(bufs[i], sids[i], sid);
      SidLookupExact(bufs[i], sids'[i], sid);
    }
  }
}
