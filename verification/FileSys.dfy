// The file system of a mounted disk and its validity area: each way to select a file or a
// record, on the bytes and lookup tables the card holds, does what `VaSpec` says about the
// trees they stand for.
module FileSys {
  import opened Bytes
  import opened Memory
  import opened FsFormat
  import opened Lut
  import opened DiskWalk
  import opened DiskIndex
  import opened Disk
  import opened VaSpec
  import opened PathBytes

  const NO_FILE: File := File(Mf, 0, 0, 0, 0, 0, 0, [])

  // The buffers hold the trees `ds`, and the tables answer for them.
  ghost predicate Mounted(ds: seq<Dir>, bufs: seq<bytes>, sids: seq<seq<Entry>>, ids: seq<Entry>) {
    && |ds| == |sids| == |bufs| && GoodForest(bufs)
    && (forall i :: 0 <= i < |bufs| ==> ReadTree(bufs[i]) == Some(ds[i]))
    && (forall i :: 0 <= i < |bufs| ==> SidAgree(sids[i], ds[i]))
    && IdAgree(ids, FilesOfAll(ds), |ds|)
  }

  lemma MountedById(ds: seq<Dir>, bufs: seq<bytes>, sids: seq<seq<Entry>>, ids: seq<Entry>, id: u16)
    requires Mounted(ds, bufs, sids, ids)
    ensures IdLookup(bufs, ids, id) == match ById(ds, id) case None => Fail(FsNotFound) case Some(r) => Ok(r)
    ensures ById(ds, id).Some? ==> ById(ds, id).value.1 in Files(ds[ById(ds, id).value.0])
    ensures GoodDirs(ds)
  {
    ForestIsGood(ds, bufs);
    IdLookupExact(bufs, ids, id);
    ByIdFound(ds, id);
  }

  lemma MountedFile(ds: seq<Dir>, bufs: seq<bytes>, sids: seq<seq<Entry>>, ids: seq<Entry>, t: nat, f: File)
    requires Mounted(ds, bufs, sids, ids) && t < |ds| && f in Files(ds[t])
    ensures TreeRoot(bufs[t]) == Ok(ds[t].file)
    ensures f.prel <= f.trel && f.trel < UINT32_MAX
    ensures f == ds[t].file ==> FilePrs(bufs[t], f.trel - f.prel) == Some(f)
    ensures f != ds[t].file ==>
      && !f.kind.Mf? && !f.kind.Adf?
      && ParentFile(ds[t], f).Some? && FilePrs(bufs[t], f.trel - f.prel) == ParentFile(ds[t], f)
  {
    assert GoodTree(bufs[t], t) && ReadTree(bufs[t]) == Some(ds[t]);
    FileFound(bufs[t], f);
    if f != ds[t].file {
      TreeParent(bufs[t], f);
    }
  }

  // Writing into the data of an EF changes no header, so the same files are found through
  // the same tables.
  lemma MountedAfterWrite(ds: seq<Dir>, bufs: seq<bytes>, sids: seq<seq<Entry>>, ids: seq<Entry>, t: nat, f: File,
      at: nat, data: bytes)
    requires Mounted(ds, bufs, sids, ids) && t < |ds| && f in Files(ds[t]) && !IsFolder(f.kind)
    requires f.DataAt() <= at && at + |data| <= f.DataAt() + f.DataSize() <= |bufs[t]|
    ensures Mounted(ds, bufs[t := Splice(bufs[t], at, data)], sids, ids)
  {
    var a, b := bufs[t], Splice(bufs[t], at, data);
    assert ReadTree(a) == Some(ds[t]) && GoodTree(a, t);
    var m := FileNode(ds[t], f);
    FileFound(a, f);
    SpliceUntouched(a, at, data);
    DataFrame(a, b, m, at, at + |data|);
    var bufs' := bufs[t := b];
    forall i | 0 <= i < |bufs'|
      ensures GoodTree(bufs'[i], i) && ReadTree(bufs'[i]) == Some(ds[i])
    {
      assert GoodTree(bufs[i], i);
    }
  }

  // The record that becomes current: of a cyclic EF, counted from the one that was.
  method RcrdOf(va: Va, idx: byte) returns (ret: Ret, rcrd: byte)
    requires va.ef.Some? ==> va.ef.value.kind.Cyclic? ==> RcrdCnt(va.ef.value) > 0
    ensures Outcome(ret, va.(rcrd := rcrd)) == SelectRcrd(va, idx)
  {
    if va.ef.None? || !HasRecords(va.ef.value.kind) {
      return Error, va.rcrd;
    }
    ret := Success;
    rcrd := AbsIdx(va.ef.value, va.rcrd, idx);
  }

  class FileSystem {
    const trees: seq<array<byte>>
    const sids: seq<seq<Entry>>
    const ids: seq<Entry>
    ghost const ds: seq<Dir>
    var va: Va

    function Bufs(): (r: seq<bytes>)
      reads trees
      ensures |r| == |trees| && forall i :: 0 <= i < |trees| ==> r[i] == trees[i][..]
    {
      seq(|trees|, i requires 0 <= i < |trees| reads trees => trees[i][..])
    }

    // Nothing here depends on what is selected.
    ghost predicate DiskOk()
      reads trees
    {
      && (forall i, j :: 0 <= i < j < |trees| ==> trees[i] != trees[j])
      && Mounted(ds, Bufs(), sids, ids)
    }

    ghost predicate Valid()
      reads this, trees
    {
      DiskOk() && VaOk(ds, va)
    }

    constructor (trees: seq<array<byte>>, sids: seq<seq<Entry>>, ids: seq<Entry>, ghost ds: seq<Dir>)
      requires forall i, j :: 0 <= i < j < |trees| ==> trees[i] != trees[j]
      requires Mounted(ds, seq(|trees|, i requires 0 <= i < |trees| reads trees => trees[i][..]), sids, ids)
      ensures Valid() && va == NOTHING
      ensures this.trees == trees && this.sids == sids && this.ids == ids && this.ds == ds
    {
      this.trees, this.sids, this.ids, this.ds := trees, sids, ids, ds;
      va := NOTHING;
      new;
      assert Bufs() == seq(|trees|, i requires 0 <= i < |trees| reads trees => trees[i][..]);
    }

    // `va_select_file` on any header in a tree.
    method SelectAny(t: nat, f: File) returns (ret: Ret)
      requires DiskOk() && t < |trees| && SelectHeader(Bufs()[t], va, t, f).Some?
      modifies this`va
      ensures DiskOk() && Some(Outcome(ret, va)) == SelectHeader(Bufs()[t], old(va), t, f)
    {
      var buf := trees[t][..];
      var root := TreeRoot(buf);
      if root.Fail? {
        return Error;
      }
      var parent := FilePrs(buf, ParentAt(f));
      if parent.None? {
        return Error;
      }
      va := Rewritten(va, t, f, root.value, parent.value);
      ret := Success;
    }

    // On a file of the tree.
    method SelectFile(t: nat, f: File) returns (ret: Ret)
      requires Valid() && t < |trees| && f in Files(ds[t])
      modifies this`va
      ensures Valid() && ret == Success && va == Selected(old(va), ds[t], t, f)
    {
      SelectedKeeps(t, f);
      ret := SelectAny(t, f);
    }

    lemma SelectedKeeps(t: nat, f: File)
      requires Valid() && t < |trees| && f in Files(ds[t])
      ensures VaOk(ds, Selected(va, ds[t], t, f))
      ensures SelectHeader(Bufs()[t], va, t, f) == Some(Outcome(Success, Selected(va, ds[t], t, f)))
    {
      ForestIsGood(ds, Bufs());
      SelectedOk(ds, va, t, f);
      HeaderAgrees(Bufs()[t], ds[t], va, t, f);
    }

    // `swicc_va_select_file_id`.
    method SelectId(id: u16) returns (ret: Ret)
      requires Valid()
      modifies this`va
      ensures Valid() && Outcome(ret, va) == Select(ds, old(va), ById(ds, id))
    {
      MountedById(ds, Bufs(), sids, ids, id);
      var r := LutIdLookup(Bufs(), ids, id);
      if r.Fail? {
        return r.ret;
      }
      ret := SelectFile(r.value.0, r.value.1);
    }

    // `swicc_disk_lutsid_lookup` on the current tree.
    method LookupSid(sid: byte) returns (r: Result<File>)
      requires Valid()
      ensures r == if va.tree.None? then Fail(ParamBad)
                   else match BySid(ds, va, sid) case None => Fail(FsNotFound) case Some(f) => Ok(f.1)
    {
      if va.tree.None? {
        return Fail(ParamBad);
      }
      var t := va.tree.value;
      assert ReadTree(Bufs()[t]) == Some(ds[t]);
      SidLookupExact(trees[t][..], sids[t], sid);
      r := LutSidLookup(trees[t][..], sids[t], sid);
    }

    // `swicc_va_select_file_sid`.
    method SelectSid(sid: byte) returns (ret: Ret)
      requires Valid()
      modifies this`va
      ensures Valid()
      ensures Outcome(ret, va) == if old(va).tree.None? then Outcome(ParamBad, old(va))
                                  else Select(ds, old(va), BySid(ds, old(va), sid))
    {
      var r := LookupSid(sid);
      if r.Fail? {
        return r.ret;
      }
      BySidFound(ds, va, sid);
      ret := SelectFile(va.tree.value, r.value);
    }

    // `swicc_va_select_adf`.
    method SelectAdf(aid: bytes) returns (ret: Ret)
      requires Valid() && 5 <= |aid| <= NAME_LEN
      modifies this`va
      ensures Valid() && Outcome(ret, va) == Select(ds, old(va), ByAid(ds, 1, aid))
    {
      assert GoodDirs(ds) by { ForestIsGood(ds, Bufs()); }
      var i := 1;
      while i < |trees|
        invariant 1 <= i <= |trees| && va == old(va) && ByAid(ds, 1, aid) == ByAid(ds, i, aid)
      {
        MountedFile(ds, Bufs(), sids, ids, i, ds[i].file);
        assert GoodDir(ds[i]) && ds[i].file.kind.Adf?;
        var root := TreeRoot(trees[i][..]);
        if root.Fail? {
          return Error;
        }
        if !root.value.kind.Adf? {
          return Error;
        }
        if aid <= root.value.spec {
          ret := SelectFile(i, root.value);
          return;
        }
        i := i + 1;
      }
      ret := FsNotFound;
    }

    // `swicc_va_select_file_dfname`.
    method SelectDfName(name: bytes) returns (ret: Ret)
      requires Valid() && 1 <= |name| <= NAME_LEN
      modifies this`va
      ensures Valid() && Outcome(ret, va) == Select(ds, old(va), ByName(ds, name))
    {
      if |trees| < 2 {
        return FsNotFound; // The iterator moves on to the second tree first.
      }
      MountedFile(ds, Bufs(), sids, ids, 1, ds[1].file);
      assert ReadTree(Bufs()[1]) == Some(ds[1]);
      var buf := trees[1][..];
      var root := TreeRoot(buf);
      if root.Fail? {
        return Error;
      }
      var found, hit := SearchTree(buf, root.value, FindName(SearchedName(name)), true, ds[1], 0, |buf|);
      RunFindName(SearchedName(name), State([], None), Visits(ds[1], true));
      VisitsAgree(ds[1], HasName(SearchedName(name)));
      if found == Success || hit.None? {
        return FsNotFound;
      }
      ByNameFound(ds, name);
      ret := SelectFile(1, hit.value);
    }

    // Following a path from a file of tree `t`.
    method FollowPath(t: nat, start: File, path: seq<u16>) returns (ret: Ret, hit: File)
      requires t < |trees| && FoldSeen(Bufs()[t], start, path) != Undefined
      ensures match FoldSeen(Bufs()[t], start, path)
        case Hit(f) => ret == Success && hit == f
        case Miss => ret == FsNotFound
        case Broken => ret == Error
        case Undefined => false
    {
      ghost var buf := Bufs()[t];
      hit := start;
      assert path[0..] == path;
      var i := 0;
      while i < |path|
        invariant 0 <= i <= |path| && FoldSeen(buf, start, path) == FoldSeen(buf, hit, path[i..])
      {
        assert path[i..][0] == path[i] && path[i..][1..] == path[i + 1..];
        var found: Option<File>;
        ret, found := SearchFile(trees[t][..], hit, path[i]);
        if ret == Error && found.Some? {
          hit := found.value;
        } else if ret == Success {
          return FsNotFound, hit;
        } else {
          return;
        }
        i := i + 1;
      }
      assert path[i..] == [];
      ret := Success;
    }

    // Where the path starts: a file, its tree and the IDs to follow, unless `ret` says why not.
    method FindStart(from: PathFrom, path: seq<u16>) returns (ret: Ret, t: nat, root: File, rest: seq<u16>)
      requires Valid() && path != []
      ensures match StartOf(ds, va, from, path)
        case NoStart(e) => ret == e && e != Success
        case Start(st, n, ids) => ret == Success && t == st && root == n.file && rest == ids && n in Nodes(ds[t])
    {
      t, rest, root, ret := 0, path, NO_FILE, Success;
      if from.FromDf? {
        if va.tree.None? || va.df.None? {
          ret := ParamBad;
          return;
        }
        StartFound(ds, va.tree.value, va.df.value, path);
        t, root := va.tree.value, va.df.value;
        return;
      }
      var id := MF_ID;
      if path[0] == CUR_APP_ID {
        if va.adf.None? || va.treeAdf.None? {
          ret := FsNotFound;
          return;
        }
        id := va.adf.value.id;
        rest := [id] + path[1..];
      }
      MountedById(ds, Bufs(), sids, ids, id);
      var r := LutIdLookup(Bufs(), ids, id);
      if r.Fail? {
        ret := r.ret;
        return;
      }
      StartFound(ds, r.value.0, r.value.1, rest);
      t, root := r.value.0, r.value.1;
    }

    // `swicc_va_select_file_path`.  Through folders it does what `VaSpec` says; else it may
    // select bytes that are no file.
    method SelectByPath(from: PathFrom, path: seq<u16>) returns (ret: Ret)
      requires Valid() && path != [] && CodePath(ds, Bufs(), va, from, path).Some?
      modifies this`va
      ensures DiskOk() && Some(Outcome(ret, va)) == CodePath(ds, Bufs(), old(va), from, path)
      ensures Valid() <==> !Planted(ds, Bufs(), old(va), from, path)
      ensures PathDefined(ds, old(va), from, path) ==>
        Valid() && Outcome(ret, va) == SelectPath(ds, old(va), from, path)
    {
      PathKeepsExactly(ds, Bufs(), va, from, path);
      PathOnTree(from, path);
      ret := SelectEnd(from, path);
    }

    // Finds the start, follows the path from there and selects what is at its end.
    method SelectEnd(from: PathFrom, path: seq<u16>) returns (ret: Ret)
      requires Valid() && path != [] && CodePath(ds, Bufs(), va, from, path).Some?
      modifies this`va
      ensures Some(Outcome(ret, va)) == CodePath(ds, Bufs(), old(va), from, path)
    {
      var t, root, rest;
      ret, t, root, rest := FindStart(from, path);
      if ret != Success {
        return;
      }
      ret := SelectFrom(t, root, rest, StartOf(ds, va, from, path).node);
    }

    method SelectFrom(t: nat, root: File, rest: seq<u16>, ghost n: Dir) returns (ret: Ret)
      requires Valid() && t < |trees| && n.file == root && CodeFrom(Bufs(), va, Start(t, n, rest)).Some?
      modifies this`va
      ensures Some(Outcome(ret, va)) == CodeFrom(Bufs(), old(va), Start(t, n, rest))
    {
      var hit;
      ret, hit := FollowPath(t, root, rest);
      if ret != Success {
        return;
      }
      ret := SelectAny(t, hit);
    }

    lemma PathOnTree(from: PathFrom, path: seq<u16>)
      requires Valid() && path != []
      ensures PathDefined(ds, va, from, path) ==>
        && CodePath(ds, Bufs(), va, from, path) == Some(SelectPath(ds, va, from, path))
        && !Planted(ds, Bufs(), va, from, path)
    {
      if PathDefined(ds, va, from, path) {
        PathAgrees(ds, Bufs(), va, from, path);
        FoldersKeep(ds, Bufs(), va, from, path);
      }
    }

    // `swicc_va_select_record_idx`.  With a cyclic EF that has no records the code divides by
    // zero.
    method SelectRcrdIdx(idx: byte) returns (ret: Ret)
      requires Valid() && (va.ef.Some? ==> va.ef.value.kind.Cyclic? ==> RcrdCnt(va.ef.value) > 0)
      modifies this`va
      ensures DiskOk() && Outcome(ret, va) == SelectRcrd(old(va), idx)
      ensures va.ef.Some? && idx as nat < RcrdCnt(va.ef.value) ==> Valid()
    {
      if va.ef.Some? && idx as nat < RcrdCnt(va.ef.value) {
        SelectRcrdOk(ds, va, idx);
      }
      var rcrd;
      ret, rcrd := RcrdOf(va, idx);
      va := va.(rcrd := rcrd);
    }

    // A write into the data of an EF.
    method WriteData(t: nat, f: File, at: nat, data: bytes)
      requires Valid() && t < |trees| && f in Files(ds[t]) && !IsFolder(f.kind)
      requires f.DataAt() <= at && at + |data| <= f.DataAt() + f.DataSize() <= trees[t].Length
      modifies trees[t]
      ensures Valid() && Bufs() == old(Bufs())[t := Splice(old(Bufs())[t], at, data)]
    {
      ghost var bufs := Bufs();
      MountedAfterWrite(ds, bufs, sids, ids, t, f, at, data);
      CopyInto(trees[t], at, data);
      assert Bufs() == bufs[t := Splice(bufs[t], at, data)];
    }

    // `swicc_va_reset`.
    method Reset() returns (ret: Ret)
      requires Valid()
      modifies this`va
      ensures Valid() && Outcome(ret, va) == Select(ds, NOTHING, ById(ds, MF_ID))
    {
      va := NOTHING;
      ret := SelectId(MF_ID);
    }
  }

  // Clears the validity area and sets the fields the kind of file asks for.
  method Rewritten(va: Va, t: nat, f: File, root: File, parent: File) returns (w: Va)
    ensures w == SelectedAs(va, t, f, root, parent)
  {
    w := NOTHING.(tree := Some(t), adf := va.adf, treeAdf := va.treeAdf, file := Some(f));
    match f.kind {
      case Mf =>
        w := w.(df := Some(f));
      case Adf =>
        w := w.(adf := Some(f), treeAdf := Some(t), df := Some(f));
      case Df =>
        if root.kind.Adf? {
          w := w.(adf := Some(root), treeAdf := Some(t));
        }
        w := w.(df := Some(f));
      case _ =>
        if root.kind.Adf? {
          w := w.(adf := Some(root), treeAdf := Some(t));
        }
        w := w.(df := Some(parent), ef := Some(f));
    }
  }

  // `swicc_disk_file_rcrd_cnt` on a file with records.
  method CountRcrds(f: File) returns (cnt: nat)
    requires HasRecords(f.kind) && |f.spec| == 1 && f.spec[0] > 0
    ensures cnt == RcrdCnt(f)
  {
    QuotIs(f.DataSize(), f.spec[0]);
    cnt := f.DataSize() / f.spec[0];
  }

  // Where a record index leads from the current record.
  method AbsIdx(f: File, cur: byte, idx: byte) returns (abs: byte)
    requires f.kind.Cyclic? ==> RcrdCnt(f) > 0
    ensures abs == if f.kind.Cyclic? then Wrapped(cur as nat + idx as nat, RcrdCnt(f)) else idx
  {
    abs := idx;
    if f.kind.Cyclic? {
      var cnt := CountRcrds(f);
      abs := (cur as nat + idx as nat) % cnt % 256;
    }
  }

  lemma StartFound(ds: seq<Dir>, t: nat, f: File, path: seq<u16>)
    requires t < |ds| && f in Files(ds[t]) && path != []
    ensures var s := StartAt(ds, Some((t, f)), path);
      s.Start? && s == Start(t, s.node, path) && s.node in Nodes(ds[t]) && s.node.file == f
  {
    var n := FileNode(ds[t], f);
  }

  // A walk that looks for a file; it is stopped when it finds one.
  method SearchTree(buf: bytes, root: File, rule: Rule, recurse: bool, ghost d: Dir, ghost par: nat, ghost end: nat)
    returns (ret: Ret, hit: Option<File>)
    requires rule.FindId? || rule.FindName?
    requires d.file == root && Read(HeadersOf(buf), root.trel, par, end) == Some(d)
    requires IsFolder(root.kind) || !Apply(rule, State([], None), root).1
    ensures var (st, go) := Run(rule, State([], None), Visits(d, recurse));
      hit == st.hit && (ret == if go then Success else Error)
  {
    var table := new Table(0);
    var v := new Visitor(rule, table);
    ret := FileForeach(buf, root, v, recurse, d, par, end);
    hit := v.hit;
  }

  // What a walk that stops at a header reports.
  ghost predicate Reports(s: Seen, ret: Ret, hit: Option<File>) {
    match s
    case Hit(f) => ret == Error && hit == Some(f)
    case Miss => ret == Success && hit == None
    case Broken => ret == Error && hit == None
    case Undefined => false
  }

  // The walk over one file that looks for an ID, on whatever bytes the file has.
  method SearchFile(buf: bytes, cur: File, id: u16) returns (ret: Ret, hit: Option<File>)
    requires StepSeen(buf, cur, id) != Undefined
    ensures Reports(StepSeen(buf, cur, id), ret, hit)
  {
    if cur.id == id {
      return Error, Some(cur);
    }
    var offset: nat := HdrSize(cur.kind);
    ghost var fuel: nat, s := Fuel(buf), StepSeen(buf, cur, id);
    while offset < cur.size
      invariant WalkOn(ParsesOf(buf), cur, offset, id, fuel) == s
      decreases fuel
    {
      var end;
      end, ret, hit, offset, fuel := SearchNext(buf, cur, id, offset, fuel, s);
      if end {
        return;
      }
    }
    ret, hit := Success, None;
  }

  method SearchNext(buf: bytes, cur: File, id: u16, offset: nat, ghost fuel: nat, ghost s: Seen)
    returns (end: bool, ret: Ret, hit: Option<File>, next: nat, ghost left: nat)
    requires offset < cur.size && s == WalkOn(ParsesOf(buf), cur, offset, id, fuel) && s != Undefined
    ensures left < fuel && (end ==> Reports(s, ret, hit))
    ensures !end ==> s == WalkOn(ParsesOf(buf), cur, next, id, left)
  {
    var at := Wrapped32(cur.trel + offset);
    left := WalkOnce(ParsesOf(buf), cur, offset, id, fuel, at, s);
    next := offset;
    var f := NextHeader(buf, at);
    if f.None? {
      return true, Error, None, next, left;
    }
    if f.value.id == id {
      return true, Error, f, next, left;
    }
    end, ret, hit, next := false, Success, None, Wrapped32(offset + f.value.size);
  }

  method NextHeader(buf: bytes, at: nat) returns (f: Option<File>)
    requires ParsesOf(buf)(at).Some?
    ensures Some(f) == ParsesOf(buf)(at)
  {
    f := FilePrs(buf, at);
  }
}
