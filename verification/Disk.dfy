// The forest of trees that makes a disk: rebuilding the lookup tables, looking files up
// through them, and the file format a disk is saved in.
module Disk {
  import opened Bytes
  import opened FsFormat
  import opened Lut
  import opened DiskWalk
  import opened DiskIndex

  datatype Result<+T> = Ok(value: T) | Fail(ret: Ret)

  // An MF tree first, then ADF trees, as many as a tree index of one byte can tell apart.
  ghost predicate GoodForest(bufs: seq<bytes>) {
    && 1 <= |bufs| <= 256
    && forall i :: 0 <= i < |bufs| ==> GoodTree(bufs[i], i)
  }

  ghost predicate GoodTree(buf: bytes, i: nat) {
    ReadTree(buf).Some? && (ReadTree(buf).value.file.kind.Mf? <==> i == 0)
  }

  // ----- The files that identifiers stand for -----

  function LastSid(d: Dir, sid: byte): Option<File> {
    if sid == 0 then None else Last(Files(d), HasSid(sid))
  }

  function FilesOf(buf: bytes): seq<File> {
    match ReadTree(buf) case None => [] case Some(d) => Files(d)
  }

  // The files of every tree.
  function Forest(bufs: seq<bytes>): (fss: seq<seq<File>>)
    ensures |fss| == |bufs| && forall i :: 0 <= i < |bufs| ==> fss[i] == FilesOf(bufs[i])
  {
    seq(|bufs|, i requires 0 <= i < |bufs| => FilesOf(bufs[i]))
  }

  // The last file with the ID in the first `n` trees, and its tree.
  function LastId(fss: seq<seq<File>>, n: nat, id: u16): (r: Option<(nat, File)>)
    requires n <= |fss|
    ensures r.Some? ==> r.value.0 < n
  {
    if n == 0 || id == 0 then None
    else
      match Last(fss[n - 1], HasId(id))
      case None => LastId(fss, n - 1, id)
      case Some(f) => Some((n - 1, f))
  }

  ghost predicate SidAgree(es: seq<Entry>, d: Dir) {
    forall sid: byte :: FirstMatch(es, [sid]) == SidAnswer(LastSid(d, sid))
  }

  function ForestAnswer(r: Option<(nat, File)>): Option<bytes>
    requires r.Some? ==> r.value.0 < 256
  {
    if r.Some? then Some(IdVal(r.value.1.trel, r.value.0)) else None
  }

  ghost predicate IdAgree(es: seq<Entry>, fss: seq<seq<File>>, n: nat)
    requires n <= |fss| && n <= 256
  {
    forall id: u16 :: FirstMatch(es, IdKey(id)) == ForestAnswer(LastId(fss, n, id))
  }

  // ----- Rebuilding the tables -----

  // `swicc_disk_tree_file_root`.
  function TreeRoot(buf: bytes): Result<File> {
    match FilePrs(buf, 0)
    case None => Fail(Error)
    case Some(f) => if f.kind.Adf? || f.kind.Mf? then Ok(f) else Fail(Error)
  }

  method LutSidRebuild(buf: bytes) returns (ret: Ret, table: Table)
    requires ReadTree(buf).Some?
    ensures ret == Success && fresh(table.Frame()) && table.Valid()
    ensures SidAgree(table.es, ReadTree(buf).value)
  {
    ghost var d := ReadTree(buf).value;
    table := new Table(1);
    var root := TreeRoot(buf);
    if root.Fail? {
      return Error, table;
    }
    var v := new Visitor(PutSid, table);
    ghost var st := v.Now();
    ret := FileForeach(buf, root.value, v, true, d, 0, |buf|);
    forall sid: byte
      ensures FirstMatch(v.Now().es, [sid]) == SidAnswer(LastSid(d, sid)) && ret == Success
    {
      RunPutSid(st, Visits(d, true), sid);
      VisitsAgree(d, HasSid(sid));
    }
    assert ret == Success by {
      RunPutSid(st, Visits(d, true), 0);
    }
  }

  // One tree of the forest after another, each with its index.
  method LutIdRebuild(bufs: seq<bytes>) returns (ret: Ret, table: Table)
    requires GoodForest(bufs)
    ensures ret == Success && fresh(table.Frame()) && table.Valid()
    ensures IdAgree(table.es, Forest(bufs), |bufs|)
  {
    table := new Table(2);
    ret := Error;
    ghost var fss := Forest(bufs);
    var i := 0;
    while i < |bufs|
      invariant 0 <= i <= |bufs| && fresh(table.Frame()) && table.Valid() && table.keySize == 2
      invariant i > 0 ==> ret == Success
      invariant IdAgree(table.es, fss, i)
    {
      assert GoodTree(bufs[i], i) && fss[i] == FilesOf(bufs[i]);
      ret := LutIdAddTree(bufs[i], i, table, fss);
      if ret != Success {
        return;
      }
      i := i + 1;
    }
  }

  method LutIdAddTree(buf: bytes, i: nat, table: Table, ghost fss: seq<seq<File>>) returns (ret: Ret)
    requires i < |fss| && i < 256 && GoodTree(buf, i) && fss[i] == FilesOf(buf)
    requires table.Valid() && table.keySize == 2 && IdAgree(table.es, fss, i)
    modifies table.Frame()
    ensures ret == Success && table.Valid() && fresh(table.Frame() - old(table.Frame()))
    ensures IdAgree(table.es, fss, i + 1)
  {
    ghost var d := ReadTree(buf).value;
    var root := TreeRoot(buf);
    if root.Fail? {
      return Error;
    }
    var v := new Visitor(PutId(i), table);
    ghost var st := v.Now();
    ret := FileForeach(buf, root.value, v, true, d, 0, |buf|);
    forall id: u16
      ensures FirstMatch(v.Now().es, IdKey(id)) == ForestAnswer(LastId(fss, i + 1, id))
    {
      RunPutId(i, st, Visits(d, true), id);
      VisitsAgree(d, HasId(id));
      assert FirstMatch(st.es, IdKey(id)) == ForestAnswer(LastId(fss, i, id));
    }
    assert ret == Success by {
      RunPutId(i, st, Visits(d, true), 0);
    }
  }

  // ----- Looking files up -----

  function SidLookup(buf: bytes, es: seq<Entry>, sid: byte): Result<File> {
    match FirstMatch(es, [sid])
    case None => Fail(FsNotFound)
    case Some(v) => if |v| != 4 then Fail(Error) else FileAt(buf, Le32At(v, 0))
  }

  function FileAt(buf: bytes, off: nat): Result<File> {
    if off >= |buf| then Fail(Error)
    else
      match FilePrs(buf, off)
      case None => Fail(Error)
      case Some(f) => Ok(f)
  }

  method LutSidLookup(buf: bytes, es: seq<Entry>, sid: byte) returns (r: Result<File>)
    ensures r == SidLookup(buf, es, sid)
  {
    var idx := Scan(es, [sid]);
    if idx >= |es| {
      return Fail(FsNotFound);
    }
    var v := es[idx].val;
    if |v| != 4 {
      return Fail(Error);
    }
    r := FileAt(buf, Le32At(v, 0));
  }

  function IdLookup(bufs: seq<bytes>, es: seq<Entry>, id: u16): Result<(nat, File)> {
    match FirstMatch(es, IdKey(id))
    case None => Fail(FsNotFound)
    case Some(v) =>
      if |v| != 5 || v[4] >= |bufs| then Fail(Error)
      else
        match FileAt(bufs[v[4]], Le32At(v, 0))
        case Ok(f) => Ok((v[4] as nat, f))
        case Fail(ret) => Fail(ret)
  }

  method LutIdLookup(bufs: seq<bytes>, es: seq<Entry>, id: u16) returns (r: Result<(nat, File)>)
    ensures r == IdLookup(bufs, es, id)
  {
    var idx := Scan(es, IdKey(id));
    if idx >= |es| {
      return Fail(FsNotFound);
    }
    var v := es[idx].val;
    if |v| != 5 {
      return Fail(Error);
    }
    var off, treeIdx := Le32At(v, 0), v[4];
    // The tree iterator, moved on to the index.
    var tree := 0;
    while tree != treeIdx
      invariant tree <= treeIdx && (tree == 0 || tree < |bufs|)
    {
      if tree + 1 >= |bufs| {
        return Fail(Error);
      }
      tree := tree + 1;
    }
    if tree >= |bufs| {
      return Fail(Error); // No tree at all.
    }
    var f := FileAt(bufs[tree], off);
    r := match f case Ok(file) => Ok((tree as nat, file)) case Fail(ret) => Fail(ret);
  }

  // A file of a well-formed tree is found at its own offset.
  lemma FileFound(buf: bytes, f: File)
    requires ReadTree(buf).Some? && f in Files(ReadTree(buf).value)
    ensures FilePrs(buf, f.trel) == Some(f) && f.trel + HdrSize(f.kind) <= f.trel + f.size <= |buf| < UINT32_MAX
    ensures FileAt(buf, f.trel) == Ok(f)
    ensures f.DataSize() == f.size - HdrSize(f.kind) && f.lcs <= 2
    ensures HasRecords(f.kind) ==> |f.spec| == 1 && f.spec[0] > 0
  {
    var n := FileNode(ReadTree(buf).value, f);
    NodesSound(HeadersOf(buf), 0, 0, |buf|, n);
    DataSizeIs(f);
  }

  lemma Le32Prefix(n: nat, rest: bytes)
    requires n <= UINT32_MAX
    ensures Le32At(Le(n, 4) + rest, 0) == n
  {
    Le32Inverse(n);
  }

  // A SID is found exactly when some file of the tree has it, and leads to the last one.
  lemma SidLookupExact(buf: bytes, es: seq<Entry>, sid: byte)
    requires ReadTree(buf).Some? && SidAgree(es, ReadTree(buf).value)
    ensures SidLookup(buf, es, sid) ==
      match LastSid(ReadTree(buf).value, sid) case None => Fail(FsNotFound) case Some(f) => Ok(f)
    ensures SidLookup(buf, es, sid) == Fail(FsNotFound) <==>
      sid == 0 || forall f :: f in Files(ReadTree(buf).value) ==> f.sid != sid
  {
    var d := ReadTree(buf).value;
    LastIsMatch(Files(d), HasSid(sid));
    assert FirstMatch(es, [sid]) == SidAnswer(LastSid(d, sid));
    if LastSid(d, sid).Some? {
      var f := LastSid(d, sid).value;
      FileFound(buf, f);
      Le32Prefix(f.trel, []);
      assert Le(f.trel, 4) + [] == Le(f.trel, 4);
    }
  }

  // No file of the first `n` trees has the ID.
  ghost predicate NoId(fss: seq<seq<File>>, n: nat, id: u16)
    requires n <= |fss|
  {
    forall t, f :: 0 <= t < n && f in fss[t] ==> f.id != id
  }

  lemma {:induction false} LastIdSound(fss: seq<seq<File>>, n: nat, id: u16)
    requires n <= |fss|
    ensures LastId(fss, n, id).Some? ==> var (t, f) := LastId(fss, n, id).value; f in fss[t] && f.id == id
    ensures LastId(fss, n, id).None? && id != 0 ==> NoId(fss, n, id)
  {
    if n > 0 && id != 0 {
      LastIdSound(fss, n - 1, id);
      LastIsMatch(fss[n - 1], HasId(id));
      if Last(fss[n - 1], HasId(id)).None? {
        assert forall f :: f in fss[n - 1] ==> !HasId(id)(f);
      }
    }
  }

  // An ID is found exactly when some file of the forest has it, and leads to the last one.
  lemma IdLookupExact(bufs: seq<bytes>, es: seq<Entry>, id: u16)
    requires GoodForest(bufs) && IdAgree(es, Forest(bufs), |bufs|)
    ensures IdLookup(bufs, es, id) ==
      match LastId(Forest(bufs), |bufs|, id) case None => Fail(FsNotFound) case Some(r) => Ok(r)
    ensures IdLookup(bufs, es, id) == Fail(FsNotFound) <==> id == 0 || NoId(Forest(bufs), |bufs|, id)
  {
    var fss := Forest(bufs);
    LastIdSound(fss, |bufs|, id);
    assert FirstMatch(es, IdKey(id)) == ForestAnswer(LastId(fss, |bufs|, id));
    if LastId(fss, |bufs|, id).Some? {
      var (t, f) := LastId(fss, |bufs|, id).value;
      assert GoodTree(bufs[t], t) && f in FilesOf(bufs[t]);
      FileFound(bufs[t], f);
      Le32Prefix(f.trel, [t]);
    }
  }
}
