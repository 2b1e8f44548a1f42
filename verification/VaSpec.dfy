// The validity area: what is currently selected, and what each selection makes of it
// (ISO/IEC 7816-4:2020 clause 7.2.2).  Selections are stated here on the trees of files a disk
// was read as; `FileSys` proves that the code, which works on bytes and tables, does the same.
module VaSpec {
  import opened Bytes
  import opened FsFormat
  import opened DiskWalk
  import opened DiskIndex
  import opened Disk

  // A cleared file structure has the invalid type; that is None here.
  datatype Va = Va(
    tree: Option<nat>,      // The tree of the current DF and EF.
    treeAdf: Option<nat>,   // The tree of the current ADF.
    adf: Option<File>,
    df: Option<File>,
    ef: Option<File>,
    file: Option<File>,
    rcrd: byte)

  const NOTHING: Va := Va(None, None, None, None, None, None, 0)

  function AtOffset(off: int): File -> bool { (f: File) => f.trel == off }

  // The folder a file's header leads back to.
  function ParentFile(d: Dir, f: File): Option<File> { First(Files(d), AtOffset(f.trel - f.prel)) }

  // How many times `b` fits into `a`.
  function Quot(a: nat, b: nat): nat
    requires b > 0
  {
    if a < b then 0 else 1 + Quot(a - b, b)
  }

  lemma {:induction false} QuotIs(a: nat, b: nat)
    requires b > 0
    ensures Quot(a, b) == a / b
  {
    if a >= b {
      QuotIs(a - b, b);
      assert a / b == (a - b) / b + 1 by {
        QuotStep(a, b);
      }
    }
  }

  lemma QuotStep(a: nat, b: nat)
    requires 0 < b <= a
    ensures a / b == (a - b) / b + 1
  {
    var d := a / b - (a - b) / b - 1;
    assert d * b == (a - b) % b - a % b;
    assert d >= 1 ==> d * b >= b;
    assert d <= -1 ==> d * b + b <= 0;
  }

  // The piece with index `i` lies inside.
  lemma {:induction false} QuotFits(a: nat, b: nat, i: nat)
    requires b > 0
    ensures i < Quot(a, b) <==> (i + 1) * b <= a
  {
    if a < b {
      assert (i + 1) * b >= b;
    } else if i > 0 {
      QuotFits(a - b, b, i - 1);
      assert (i + 1) * b == i * b + b;
    }
  }

  // Files without records have none.
  function RcrdCnt(f: File): nat {
    if HasRecords(f.kind) && |f.spec| == 1 && f.spec[0] > 0 then Quot(f.DataSize(), f.spec[0]) else 0
  }

  // ----- Selecting -----

  // The validity area once `f` of tree `t`, which is `d`, is selected: an MF or DF keeps the
  // current application unless its tree is one, an EF brings its folder along.
  function Selected(va: Va, d: Dir, t: nat, f: File): Va {
    var inAdf := f.kind.Adf? || (!f.kind.Mf? && d.file.kind.Adf?);
    var adf := if f.kind.Adf? then f else d.file;
    Va(Some(t),
       if inAdf then Some(t) else va.treeAdf,
       if inAdf then Some(adf) else va.adf,
       if IsFolder(f.kind) then Some(f) else ParentFile(d, f),
       if IsFolder(f.kind) then None else Some(f),
       Some(f), 0)
  }

  datatype Outcome = Outcome(ret: Ret, va: Va)

  function Select(ds: seq<Dir>, va: Va, r: Option<(nat, File)>): Outcome
    requires r.Some? ==> r.value.0 < |ds|
  {
    if r.None? then Outcome(FsNotFound, va)
    else Outcome(Success, Selected(va, ds[r.value.0], r.value.0, r.value.1))
  }

  function FilesOfAll(ds: seq<Dir>): (fss: seq<seq<File>>)
    ensures |fss| == |ds| && forall i :: 0 <= i < |ds| ==> fss[i] == Files(ds[i])
  {
    seq(|ds|, i requires 0 <= i < |ds| => Files(ds[i]))
  }

  function ById(ds: seq<Dir>, id: u16): (r: Option<(nat, File)>)
    ensures r.Some? ==> r.value.0 < |ds|
  {
    LastId(FilesOfAll(ds), |ds|, id)
  }

  function BySid(ds: seq<Dir>, va: Va, sid: byte): (r: Option<(nat, File)>)
    requires va.tree.Some? && va.tree.value < |ds|
    ensures r.Some? ==> r.value.0 < |ds|
  {
    var f := LastSid(ds[va.tree.value], sid);
    if f.None? then None else Some((va.tree.value, f.value))
  }

  predicate AidMatches(f: File, aid: bytes) { aid <= f.spec }

  // The first ADF from tree `i` on whose AID starts with `aid`.
  function ByAid(ds: seq<Dir>, i: nat, aid: bytes): (r: Option<(nat, File)>)
    ensures r.Some? ==> r.value.0 < |ds|
    decreases |ds| - i
  {
    if i >= |ds| then None
    else if AidMatches(ds[i].file, aid) then Some((i, ds[i].file))
    else ByAid(ds, i + 1, aid)
  }

  // The search for a DF name looks at the second tree only, and compares with the first byte
  // of the name followed by zeros.
  function SearchedName(name: bytes): bytes
    requires name != []
  {
    [name[0]] + seq(|name| - 1, _ => 0)
  }

  function ByName(ds: seq<Dir>, name: bytes): (r: Option<(nat, File)>)
    requires name != []
    ensures r.Some? ==> r.value.0 < |ds|
  {
    if |ds| < 2 then None
    else
      var f := First(Files(ds[1]), HasName(SearchedName(name)));
      if f.None? then None else Some((1, f.value))
  }

  // ----- Paths -----

  // The first file directly in a folder, from index `i` on, with the ID.
  function FirstKid(kids: seq<Dir>, i: nat, id: u16): (r: Option<Dir>)
    requires i <= |kids|
    ensures r.Some? ==> r.value in kids && r.value.file.id == id
    decreases |kids| - i
  {
    if i == |kids| then None else if kids[i].file.id == id then Some(kids[i]) else FirstKid(kids, i + 1, id)
  }

  // One step: stay where the ID is the folder's own, else go to the first child with it.
  function PathStep(n: Dir, id: u16): Option<Dir> {
    if n.file.id == id then Some(n) else FirstKid(n.kids, 0, id)
  }

  // Where a path leads from `n`.
  function PathFold(n: Dir, path: seq<u16>): Option<Dir>
    decreases |path|
  {
    if path == [] then Some(n)
    else
      match PathStep(n, path[0])
      case None => None
      case Some(m) => PathFold(m, path[1..])
  }

  // The path only leads through folders: a step on from any other file would read its data as
  // files.
  ghost predicate ThroughFolders(n: Dir, path: seq<u16>)
    decreases |path|
  {
    path == [] || ((IsFolder(n.file.kind) || n.file.id == path[0]) &&
                   (PathStep(n, path[0]).Some? ==> ThroughFolders(PathStep(n, path[0]).value, path[1..])))
  }

  function NodeAt(d: Dir, f: File): Option<Dir> { FirstNode(Nodes(d), f) }

  function FirstNode(ns: seq<Dir>, f: File): (r: Option<Dir>)
    ensures r.Some? ==> r.value in ns && r.value.file == f
    ensures r.None? ==> forall n :: n in ns ==> n.file != f
  {
    if ns == [] then None else if ns[0].file == f then Some(ns[0]) else FirstNode(ns[1..], f)
  }

  const MF_ID: u16 := 0x3F00
  const CUR_APP_ID: u16 := 0x7FFF

  datatype PathFrom = FromMf | FromDf

  // Where a path starts: tree, node and the IDs to follow; or why it cannot.
  datatype PathStart = Start(tree: nat, node: Dir, path: seq<u16>) | NoStart(ret: Ret)

  function StartOf(ds: seq<Dir>, va: Va, from: PathFrom, path: seq<u16>): (r: PathStart)
    requires path != []
    ensures r.Start? ==> r.tree < |ds| && r.path != []
  {
    match from
    case FromMf =>
      if path[0] == CUR_APP_ID then
        if va.adf.None? || va.treeAdf.None? then NoStart(FsNotFound)
        else StartAt(ds, ById(ds, va.adf.value.id), [va.adf.value.id] + path[1..])
      else StartAt(ds, ById(ds, MF_ID), path)
    case FromDf =>
      if va.tree.None? || va.df.None? || va.tree.value >= |ds| then NoStart(ParamBad)
      else StartAt(ds, Some((va.tree.value, va.df.value)), path)
  }

  function StartAt(ds: seq<Dir>, r: Option<(nat, File)>, path: seq<u16>): (s: PathStart)
    requires path != [] && (r.Some? ==> r.value.0 < |ds|)
    ensures s.Start? ==> s.tree < |ds| && s.path != []
  {
    if r.None? then NoStart(FsNotFound)
    else
      match NodeAt(ds[r.value.0], r.value.1)
      case None => NoStart(FsNotFound)
      case Some(n) => Start(r.value.0, n, path)
  }

  function SelectPath(ds: seq<Dir>, va: Va, from: PathFrom, path: seq<u16>): Outcome
    requires path != []
  {
    match StartOf(ds, va, from, path)
    case NoStart(ret) => Outcome(ret, va)
    case Start(t, n, ids) =>
      var m := PathFold(n, ids);
      Select(ds, va, if m.None? then None else Some((t, m.value.file)))
  }

  ghost predicate PathDefined(ds: seq<Dir>, va: Va, from: PathFrom, path: seq<u16>)
    requires path != []
  {
    var s := StartOf(ds, va, from, path); s.Start? ==> ThroughFolders(s.node, s.path)
  }

  // ----- Records -----

  function Wrapped(sum: nat, cnt: nat): (r: byte)
    requires cnt > 0
    ensures r as nat < cnt
  {
    Truncated(sum % cnt)
  }

  function Truncated(n: nat): (r: byte)
    ensures r <= n && (n < 256 ==> r == n) && (256 <= n < 512 ==> r == n - 256)
  {
    n % 256
  }

  // Records of a cyclic EF are numbered from the current one.  A record count of zero would
  // divide by zero there; records are selected only after they were found.
  function SelectRcrd(va: Va, idx: byte): Outcome {
    if va.ef.None? || !HasRecords(va.ef.value.kind) then Outcome(Error, va)
    else if va.ef.value.kind.Cyclic? && RcrdCnt(va.ef.value) > 0 then
      Outcome(Success, va.(rcrd := Wrapped(va.rcrd as nat + idx as nat, RcrdCnt(va.ef.value))))
    else Outcome(Success, va.(rcrd := idx))
  }

  // ----- What every run keeps -----

  ghost predicate GoodDirs(ds: seq<Dir>) {
    && ds != []
    && forall i :: 0 <= i < |ds| ==>
      GoodDir(ds[i]) && Proper(ds[i]) && (ds[i].file.kind.Mf? <==> i == 0) && (ds[i].file.kind.Adf? <==> i > 0)
  }

  // What is known of the files of a well-formed tree: below the root there are only DFs and
  // EFs, each led back to the folder it is in; record sizes are not zero.
  ghost predicate GoodDir(d: Dir) {
    forall f :: f in Files(d) ==> GoodFile(d, f)
  }

  ghost predicate GoodFile(d: Dir, f: File) {
    && (f != d.file ==> !f.kind.Mf? && !f.kind.Adf? && ParentFile(d, f).Some? && InFolder(d, ParentFile(d, f).value, f))
    && (HasRecords(f.kind) ==> |f.spec| == 1 && f.spec[0] > 0)
  }

  // `f` is directly in the folder `p`.
  ghost predicate InFolder(d: Dir, p: File, f: File) {
    && IsFolder(p.kind) && p in Files(d)
    && exists n, k :: n in Nodes(d) && n.file == p && k in n.kids && k.file == f
  }

  ghost predicate VaOk(ds: seq<Dir>, va: Va) {
    && (va.adf.Some? <==> va.treeAdf.Some?)
    && (va.adf.Some? ==>
          va.treeAdf.value < |ds| && va.adf.value == ds[va.treeAdf.value].file && va.adf.value.kind.Adf?)
    && (va.tree.None? ==> va == NOTHING)
    && (va.tree.Some? ==>
          && va.tree.value < |ds|
          && CurOk(ds[va.tree.value], va)
          && (ds[va.tree.value].file.kind.Adf? ==> va.treeAdf == va.tree))
  }

  // The current file is the EF if one is selected, else the DF; the DF is a folder of the
  // current tree, and the one the EF is in; the current record exists.
  ghost predicate CurOk(d: Dir, va: Va) {
    && va.df.Some? && IsFolder(va.df.value.kind) && va.df.value in Files(d)
    && va.file == (if va.ef.Some? then va.ef else va.df)
    && (va.ef.Some? ==>
          !IsFolder(va.ef.value.kind) && va.ef.value in Files(d) && InFolder(d, va.df.value, va.ef.value))
    && (va.rcrd != 0 ==> va.ef.Some? && va.rcrd as nat < RcrdCnt(va.ef.value))
  }

  // Selecting any file of any tree keeps the validity area consistent.
  lemma SelectedOk(ds: seq<Dir>, va: Va, t: nat, f: File)
    requires GoodDirs(ds) && VaOk(ds, va) && t < |ds| && f in Files(ds[t])
    ensures VaOk(ds, Selected(va, ds[t], t, f))
  {
    var d := ds[t];
    assert GoodFile(d, f);
    assert d.file in Files(d);
    if f != d.file && !IsFolder(f.kind) {
      FirstIsMatch(Files(d), AtOffset(f.trel - f.prel));
    }
  }

  lemma SelectOk(ds: seq<Dir>, va: Va, r: Option<(nat, File)>)
    requires GoodDirs(ds) && VaOk(ds, va)
    requires r.Some? ==> r.value.0 < |ds| && r.value.1 in Files(ds[r.value.0])
    ensures VaOk(ds, Select(ds, va, r).va)
    ensures Select(ds, va, r).ret != Success ==> Select(ds, va, r).va == va
  {
    if r.Some? {
      SelectedOk(ds, va, r.value.0, r.value.1);
    }
  }

  lemma ByIdFound(ds: seq<Dir>, id: u16)
    ensures ById(ds, id).Some? ==> ById(ds, id).value.1 in Files(ds[ById(ds, id).value.0])
  {
    LastIdSound(FilesOfAll(ds), |ds|, id);
  }

  lemma BySidFound(ds: seq<Dir>, va: Va, sid: byte)
    requires va.tree.Some? && va.tree.value < |ds|
    ensures BySid(ds, va, sid).Some? ==> BySid(ds, va, sid).value.1 in Files(ds[va.tree.value])
  {
    LastIsMatch(Files(ds[va.tree.value]), HasSid(sid));
  }

  lemma {:induction false} ByAidFound(ds: seq<Dir>, i: nat, aid: bytes)
    ensures ByAid(ds, i, aid).Some? ==> ByAid(ds, i, aid).value.1 in Files(ds[ByAid(ds, i, aid).value.0])
    decreases |ds| - i
  {
    if i < |ds| && !AidMatches(ds[i].file, aid) {
      ByAidFound(ds, i + 1, aid);
    }
  }

  lemma ByNameFound(ds: seq<Dir>, name: bytes)
    requires name != []
    ensures ByName(ds, name).Some? ==> ByName(ds, name).value.1 in Files(ds[1])
  {
    if |ds| >= 2 {
      FirstIsMatch(Files(ds[1]), HasName(SearchedName(name)));
    }
  }

  // Files that can be found by a DF name.
  predicate Named(f: File, name: bytes) { HasName(name)(f) }

  // The search for a DF name succeeds exactly when a file of the second tree has a name that
  // begins with the first byte of it and zeros after that.  What it finds has the name that was
  // searched for exactly when that has only zeros after its first byte.
  lemma ByNameExactly(ds: seq<Dir>, name: bytes)
    requires name != []
    ensures ByName(ds, name).Some? <==> |ds| >= 2 && exists f :: f in Files(ds[1]) && Named(f, SearchedName(name))
    ensures ByName(ds, name).Some? ==>
      (Named(ByName(ds, name).value.1, name) <==> forall i :: 1 <= i < |name| ==> name[i] == 0)
  {
    if |ds| >= 2 {
      var p := HasName(SearchedName(name));
      FirstIsMatch(Files(ds[1]), p);
      if ByName(ds, name).Some? {
        var f := ByName(ds, name).value.1;
        assert Named(f, SearchedName(name));
        SameLengthPrefix(name, SearchedName(name), f.spec);
        assert name == SearchedName(name) <==> forall i :: 1 <= i < |name| ==> name[i] == 0;
      } else {
        assert forall f :: f in Files(ds[1]) ==> !p(f);
      }
    }
  }

  lemma SameLengthPrefix(a: bytes, b: bytes, s: bytes)
    requires |a| == |b| && b <= s
    ensures a <= s <==> a == b
  {}

  // Selecting a record that exists leaves the current record below the record count.  It is
  // the record asked for unless the EF is cyclic and another record was current.
  lemma SelectRcrdOk(ds: seq<Dir>, va: Va, idx: byte)
    requires VaOk(ds, va) && va.ef.Some? && idx as nat < RcrdCnt(va.ef.value)
    ensures var o := SelectRcrd(va, idx);
      && o.ret == Success && VaOk(ds, o.va) && o.va == va.(rcrd := o.va.rcrd)
      && o.va.rcrd as nat < RcrdCnt(va.ef.value)
      && (o.va.rcrd == idx <==> va.ef.value.kind.LinearFixed? || va.rcrd == 0)
  {
    var cnt := RcrdCnt(va.ef.value);
    RcrdSet(ds, va, SelectRcrd(va, idx).va.rcrd);
    if va.ef.value.kind.Cyclic? {
      SumWraps(va.rcrd, idx, cnt);
    }
  }

  lemma SumWraps(a: byte, b: byte, cnt: nat)
    requires (a as nat < cnt || a == 0) && b as nat < cnt
    ensures Wrapped(a as nat + b as nat, cnt) == b <==> a == 0
  {
    var sum := a as nat + b as nat;
    ModIs(sum, cnt, if sum < cnt then 0 else 1);
  }

  lemma ModIs(a: nat, c: nat, q: nat)
    requires c > 0 && q * c <= a < (q + 1) * c
    ensures a % c == a - q * c
  {
    var d := a / c - q;
    assert d * c == a - q * c - a % c;
    assert d >= 1 ==> d * c >= c;
    assert d <= -1 ==> d * c + c <= 0;
  }

  lemma RcrdSet(ds: seq<Dir>, va: Va, idx: byte)
    requires VaOk(ds, va) && va.ef.Some? && idx as nat < RcrdCnt(va.ef.value)
    ensures VaOk(ds, va.(rcrd := idx))
  {}

  // ----- Paths stay in their tree -----

  ghost predicate Proper(d: Dir) {
    forall n :: n in Nodes(d) && !IsFolder(n.file.kind) ==> n.kids == []
  }

  lemma {:induction false} KidInNodes(d: Dir, n: Dir, k: Dir)
    requires n in Nodes(d) && k in n.kids
    ensures k in Nodes(d)
    decreases d, 0
  {
    if n == d {
      KidInAll(d.kids, k);
    } else {
      KidInNodesAll(d.kids, n, k);
    }
  }

  lemma {:induction false} KidInAll(ds: seq<Dir>, k: Dir)
    requires k in ds
    ensures k in NodesAll(ds)
  {
    if k != ds[0] {
      KidInAll(ds[1..], k);
    }
  }

  lemma {:induction false} KidInNodesAll(ds: seq<Dir>, n: Dir, k: Dir)
    requires n in NodesAll(ds) && k in n.kids
    ensures k in NodesAll(ds)
    decreases ds, 1
  {
    if n in Nodes(ds[0]) {
      KidInNodes(ds[0], n, k);
    } else {
      KidInNodesAll(ds[1..], n, k);
    }
  }

  lemma {:induction false} NodeFile(d: Dir, n: Dir)
    requires Proper(d) && n in Nodes(d)
    ensures n.file in Files(d)
    decreases d, 0
  {
    if n != d {
      assert d in Nodes(d);
      assert forall m :: m in NodesAll(d.kids) ==> m in Nodes(d);
      NodeFileFrom(d.kids, 0, n);
      assert d.kids[0..] == d.kids;
    }
  }

  lemma {:induction false} NodeFileFrom(ds: seq<Dir>, i: nat, n: Dir)
    requires i <= |ds| && n in NodesAll(ds[i..])
    requires forall m :: m in NodesAll(ds[i..]) && !IsFolder(m.file.kind) ==> m.kids == []
    ensures n.file in FilesFrom(ds, i)
    decreases ds, |ds| - i
  {
    assert ds[i..][0] == ds[i] && ds[i..][1..] == ds[i + 1..];
    assert forall m :: m in Nodes(ds[i]) ==> m in NodesAll(ds[i..]);
    assert forall m :: m in NodesAll(ds[i + 1..]) ==> m in NodesAll(ds[i..]);
    if n in Nodes(ds[i]) {
      NodeFile(ds[i], n);
    } else {
      NodeFileFrom(ds, i + 1, n);
    }
  }

  lemma {:induction false} PathFoldFound(d: Dir, n: Dir, path: seq<u16>)
    requires Proper(d) && n in Nodes(d)
    ensures PathFold(n, path).Some? ==>
      PathFold(n, path).value in Nodes(d) && PathFold(n, path).value.file in Files(d)
    decreases |path|
  {
    if path == [] {
      NodeFile(d, n);
    } else if PathStep(n, path[0]).Some? {
      var m := PathStep(n, path[0]).value;
      if m != n {
        KidInNodes(d, n, m);
      }
      PathFoldFound(d, m, path[1..]);
    }
  }

  lemma SelectPathOk(ds: seq<Dir>, va: Va, from: PathFrom, path: seq<u16>)
    requires GoodDirs(ds) && VaOk(ds, va) && path != []
    ensures var o := SelectPath(ds, va, from, path); VaOk(ds, o.va) && (o.ret != Success ==> o.va == va)
  {
    var s := StartOf(ds, va, from, path);
    if s.Start? {
      var d := ds[s.tree];
      assert s.node in Nodes(d);
      PathFoldFound(d, s.node, s.path);
      var m := PathFold(s.node, s.path);
      SelectOk(ds, va, if m.None? then None else Some((s.tree, m.value.file)));
    }
  }

  // ----- A disk that was read is a good one -----

  lemma TreeProper(buf: bytes)
    requires ReadTree(buf).Some?
    ensures Proper(ReadTree(buf).value)
  {
    forall n | n in Nodes(ReadTree(buf).value) && !IsFolder(n.file.kind)
      ensures n.kids == []
    {
      NodesSound(HeadersOf(buf), 0, 0, |buf|, n);
    }
  }

  // The header of a file leads back to the folder it is in.
  lemma TreeFolder(buf: bytes, f: File) returns (p: Dir)
    requires ReadTree(buf).Some? && f in Files(ReadTree(buf).value) && f != ReadTree(buf).value.file
    ensures p.file in Files(ReadTree(buf).value)
    ensures InFolder(ReadTree(buf).value, p.file, f)
    ensures f.prel <= f.trel && p.file.trel == f.trel - f.prel
    ensures !f.kind.Mf? && !f.kind.Adf?
  {
    var d, h := ReadTree(buf).value, HeadersOf(buf);
    var n := FileNode(d, f);
    KidsSound(h, d.file.DataAt(), 0, d.file.size, n);
    p := NodeParent(h, 0, 0, |buf|, n);
    TreeProper(buf);
    NodeFile(d, p);
  }

  lemma TreeParent(buf: bytes, f: File)
    requires ReadTree(buf).Some? && f in Files(ReadTree(buf).value) && f != ReadTree(buf).value.file
    ensures GoodFile(ReadTree(buf).value, f)
    ensures f.prel <= f.trel && FilePrs(buf, f.trel - f.prel) == ParentFile(ReadTree(buf).value, f)
  {
    var n := TreeFolder(buf, f);
    var d, p := ReadTree(buf).value, n.file;
    FileAtOffset(buf, p);
    FileFound(buf, p);
    FileFound(buf, f);
    ParentIs(d, f, p);
  }

  lemma ParentIs(d: Dir, f: File, p: File)
    requires First(Files(d), AtOffset(p.trel)) == Some(p) && p.trel == f.trel - f.prel
    requires InFolder(d, p, f) && !f.kind.Mf? && !f.kind.Adf?
    requires HasRecords(f.kind) ==> |f.spec| == 1 && f.spec[0] > 0
    ensures ParentFile(d, f) == Some(p) && GoodFile(d, f)
  {}

  // No two files start at the same offset.
  lemma FileAtOffset(buf: bytes, g: File)
    requires ReadTree(buf).Some? && g in Files(ReadTree(buf).value)
    ensures First(Files(ReadTree(buf).value), AtOffset(g.trel)) == Some(g)
  {
    var fs := Files(ReadTree(buf).value);
    FirstIsMatch(fs, AtOffset(g.trel));
    assert AtOffset(g.trel)(g);
    FileFound(buf, g);
    FileFound(buf, First(fs, AtOffset(g.trel)).value);
  }

  // The trees of a good forest are good.
  lemma ForestIsGood(ds: seq<Dir>, bufs: seq<bytes>)
    requires GoodForest(bufs) && |ds| == |bufs|
    requires forall i :: 0 <= i < |bufs| ==> ReadTree(bufs[i]) == Some(ds[i])
    ensures GoodDirs(ds) && FilesOfAll(ds) == Forest(bufs)
  {
    forall i | 0 <= i < |ds|
      ensures GoodDir(ds[i]) && Proper(ds[i]) && (ds[i].file.kind.Mf? <==> i == 0) && (ds[i].file.kind.Adf? <==> i > 0)
    {
      assert GoodTree(bufs[i], i);
      TreeProper(bufs[i]);
      TreeIsGood(bufs[i]);
    }
    assert FilesOfAll(ds) == Forest(bufs);
  }

  lemma TreeIsGood(buf: bytes)
    requires ReadTree(buf).Some?
    ensures GoodDir(ReadTree(buf).value)
  {
    var d := ReadTree(buf).value;
    forall f | f in Files(d)
      ensures GoodFile(d, f)
    {
      if f != d.file {
        TreeParent(buf, f);
      } else {
        FileFound(buf, f);
      }
    }
  }

  // ----- A step of a path is a walk over one folder -----

  lemma {:induction false} FirstKidVisit(kids: seq<Dir>, i: nat, id: u16)
    requires i <= |kids|
    ensures First(VisitsFrom(kids, i, false), HasId(id)) ==
      match FirstKid(kids, i, id) case None => None case Some(k) => Some(k.file)
    decreases |kids| - i
  {
    if i < |kids| {
      FirstKidVisit(kids, i + 1, id);
      assert VisitsFrom(kids, i, false) == [kids[i].file] + VisitsFrom(kids, i + 1, false);
    }
  }

  lemma PathStepVisit(n: Dir, id: u16)
    ensures First(Visits(n, false), HasId(id)) ==
      match PathStep(n, id) case None => None case Some(m) => Some(m.file)
  {
    FirstKidVisit(n.kids, 0, id);
    assert Visits(n, false)[1..] == VisitsFrom(n.kids, 0, false);
  }

  // Every node was read from where it is.
  lemma {:induction false} NodeRead(h: Headers, off: nat, par: nat, end: nat, n: Dir) returns (p: nat, e: nat)
    requires Read(h, off, par, end).Some? && n in Nodes(Read(h, off, par, end).value)
    ensures Read(h, n.file.trel, p, e) == Some(n)
    decreases end - off, 0
  {
    var d := Read(h, off, par, end).value;
    if n == d {
      p, e := par, end;
    } else {
      p, e := KidRead(h, d.file.DataAt(), off, off + d.file.size, n);
    }
  }

  lemma {:induction false} KidRead(h: Headers, off: nat, par: nat, end: nat, n: Dir) returns (p: nat, e: nat)
    requires ReadKids(h, off, par, end).Some? && n in NodesAll(ReadKids(h, off, par, end).value)
    ensures Read(h, n.file.trel, p, e) == Some(n)
    decreases end - off, 1
  {
    var d := Read(h, off, par, end).value;
    assert ReadKids(h, off, par, end).value[1..] == ReadKids(h, off + d.file.size, par, end).value;
    if n in Nodes(d) {
      p, e := NodeRead(h, off, par, end, n);
    } else {
      p, e := KidRead(h, off + d.file.size, par, end, n);
    }
  }
}
