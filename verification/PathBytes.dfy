// What following a path does on the bytes of a tree.  The code walks over the data of whatever
// file a step starts from, so a step on from an EF reads the EF's data as headers; `VaSpec`
// states paths on the tree, and the lemmas here say when the two agree.
module PathBytes {
  import opened Bytes
  import opened FsFormat
  import opened DiskWalk
  import opened DiskIndex
  import opened Disk
  import opened VaSpec

  // What a walk over one file finds: a header with the ID, the end of the file, or bytes that
  // are no header.  It has no defined outcome when it reads outside the buffer or never ends.
  datatype Seen = Hit(file: File) | Miss | Broken | Undefined

  const WRAP: int := 0x1_0000_0000 // Offsets are 32 bits wide.

  // Parsing at `at` reads bytes behind the end of the buffer.
  predicate Outside(buf: bytes, at: nat) {
    at + FILE_HDR_LEN < UINT32_MAX
    && (at + FILE_HDR_LEN > |buf|
        || (ByteKind(buf[at + 8]).Some? && at + HdrSize(ByteKind(buf[at + 8]).value) > |buf|))
  }

  // What parsing at each offset gives; None outside the buffer.  As in `FsFormat`, the walk is
  // stated for any such function.
  type Parses = nat -> Option<Option<File>>

  function ParsesOf(buf: bytes): Parses {
    (at: nat) => if Outside(buf, at) then None else Some(FilePrs(buf, at))
  }

  // A number as 32 bits hold it.
  function Wrapped32(n: int): (r: nat)
    ensures 0 <= n < WRAP ==> r == n
    ensures r < WRAP
    decreases if n < 0 then WRAP - n else n
  {
    if n < 0 then Wrapped32(n + WRAP) else if n < WRAP then n else Wrapped32(n - WRAP)
  }

  // The walk over what is in `cur`, from `offset` on.  An offset that comes up again makes it
  // go on for ever, so `fuel` for every offset there is bounds the walks that end.
  function WalkOn(h: Parses, cur: File, offset: nat, id: u16, fuel: nat): Seen
    decreases fuel
  {
    if offset >= cur.size then Miss
    else if fuel == 0 then Undefined
    else
      match h(Wrapped32(cur.trel + offset))
      case None => Undefined
      case Some(None) => Broken
      case Some(Some(f)) =>
        if f.id == id then Hit(f) else WalkOn(h, cur, Wrapped32(offset + f.size), id, fuel - 1)
  }

  // More than there are offsets.
  function Fuel(buf: bytes): nat { WRAP + |buf| }

  // One header on, in a walk with an outcome: it was found at `at`.
  lemma WalkOnce(h: Parses, cur: File, offset: nat, id: u16, fuel: nat, at: nat, s: Seen) returns (left: nat)
    requires offset < cur.size && s == WalkOn(h, cur, offset, id, fuel) && s != Undefined
    requires at == Wrapped32(cur.trel + offset)
    ensures left < fuel && h(at).Some?
    ensures h(at).value.None? ==> s == Broken
    ensures h(at).value.Some? && h(at).value.value.id == id ==> s == Hit(h(at).value.value)
    ensures h(at).value.Some? && h(at).value.value.id != id ==>
      s == WalkOn(h, cur, Wrapped32(offset + h(at).value.value.size), id, left)
  {
    assert fuel > 0;
    left := fuel - 1;
  }

  function StepSeen(buf: bytes, cur: File, id: u16): Seen {
    if cur.id == id then Hit(cur) else WalkOn(ParsesOf(buf), cur, HdrSize(cur.kind), id, Fuel(buf))
  }

  function FoldSeen(buf: bytes, cur: File, path: seq<u16>): Seen
    decreases |path|
  {
    if path == [] then Hit(cur)
    else
      match StepSeen(buf, cur, path[0])
      case Hit(f) => FoldSeen(buf, f, path[1..])
      case s => s
  }

  // ----- What a walk comes by -----

  lemma {:induction false} WrapsTo(n: nat)
    ensures Wrapped32(n) == n % 0x1_0000_0000
    decreases n
  {
    if n >= WRAP {
      WrapsTo(n - WRAP);
    }
  }

  // Within `cur`, a header at one offset from its start, and the offset behind that file.
  ghost predicate Leads(p: Parses, cur: File, o: nat, f: File, next: nat) {
    o < cur.size && p(Wrapped32(cur.trel + o)) == Some(Some(f)) && next == Wrapped32(o + f.size)
  }

  // Headers that lead from one to the next; the last is the first with the ID.
  ghost predicate Chain(p: Parses, cur: File, fs: seq<File>, os: seq<nat>, id: u16) {
    && |os| == |fs| + 1 >= 2
    && (forall i :: 0 <= i < |fs| ==> Leads(p, cur, os[i], fs[i], os[i + 1]))
    && fs[|fs| - 1].id == id && forall i :: 0 <= i < |fs| - 1 ==> fs[i].id != id
  }

  ghost predicate Reached(p: Parses, cur: File, offset: nat, id: u16, fuel: nat, f: File) {
    exists fs, os :: Chain(p, cur, fs, os, id) && os[0] == offset && |fs| <= fuel && fs[|fs| - 1] == f
  }

  // What a walk hits is exactly the end of such a chain.
  lemma {:induction false} WalkHits(p: Parses, cur: File, offset: nat, id: u16, fuel: nat, f: File)
    ensures WalkOn(p, cur, offset, id, fuel) == Hit(f) <==> Reached(p, cur, offset, id, fuel, f)
    decreases fuel
  {
    var r := p(Wrapped32(cur.trel + offset));
    if Reached(p, cur, offset, id, fuel, f) {
      var fs: seq<File>, os :| Chain(p, cur, fs, os, id) && os[0] == offset && |fs| <= fuel && fs[|fs| - 1] == f;
      assert Leads(p, cur, os[0], fs[0], os[1]);
      assert fs[0].id == id ==> |fs| == 1;
    }
    if offset < cur.size && fuel > 0 && r.Some? && r.value.Some? {
      var g := r.value.value;
      var next := Wrapped32(offset + g.size);
      if g.id == id {
        assert Chain(p, cur, [g], [offset, next], id);
      } else {
        WalkHits(p, cur, next, id, fuel - 1, f);
        OneMoreHeader(p, cur, offset, id, fuel, f, g, next);
      }
    }
  }

  lemma OneMoreHeader(p: Parses, cur: File, offset: nat, id: u16, fuel: nat, f: File, g: File, next: nat)
    requires Leads(p, cur, offset, g, next) && g.id != id && fuel > 0
    ensures Reached(p, cur, offset, id, fuel, f) <==> Reached(p, cur, next, id, fuel - 1, f)
  {
    if Reached(p, cur, next, id, fuel - 1, f) {
      var fs, os :| Chain(p, cur, fs, os, id) && os[0] == next && |fs| <= fuel - 1 && fs[|fs| - 1] == f;
      InFront(p, cur, id, fs, os, g, offset);
    }
    if Reached(p, cur, offset, id, fuel, f) {
      var fs: seq<File>, os :| Chain(p, cur, fs, os, id) && os[0] == offset && |fs| <= fuel && fs[|fs| - 1] == f;
      assert Leads(p, cur, os[0], fs[0], os[1]);
      Dropped(p, cur, id, fs, os);
    }
  }

  lemma InFront(p: Parses, cur: File, id: u16, fs: seq<File>, os: seq<nat>, g: File, offset: nat)
    requires Chain(p, cur, fs, os, id) && g.id != id && Leads(p, cur, offset, g, os[0])
    ensures Chain(p, cur, [g] + fs, [offset] + os, id)
    ensures ([offset] + os)[0] == offset && ([g] + fs)[|[g] + fs| - 1] == fs[|fs| - 1]
  {
    var gs, ps := [g] + fs, [offset] + os;
    forall i | 0 <= i < |gs|
      ensures Leads(p, cur, ps[i], gs[i], ps[i + 1])
    {
      assert i > 0 ==> Leads(p, cur, os[i - 1], fs[i - 1], os[i]);
    }
  }

  lemma Dropped(p: Parses, cur: File, id: u16, fs: seq<File>, os: seq<nat>)
    requires Chain(p, cur, fs, os, id) && fs[0].id != id
    ensures Chain(p, cur, fs[1..], os[1..], id) && |fs[1..]| == |fs| - 1
    ensures os[1..][0] == os[1] && fs[1..][|fs| - 2] == fs[|fs| - 1]
  {
    var gs, ps := fs[1..], os[1..];
    forall i | 0 <= i < |gs|
      ensures Leads(p, cur, ps[i], gs[i], ps[i + 1])
    {
      assert Leads(p, cur, os[i + 1], fs[i + 1], os[i + 2]);
    }
  }

  // ----- Selecting what was reached -----

  // Where a file's header says its parent is.
  function ParentAt(f: File): nat { Wrapped32(f.trel - f.prel) }

  // The validity area as the code rewrites it, given the root of the tree and the parent.
  function SelectedAs(va: Va, t: nat, f: File, root: File, parent: File): Va {
    var inAdf := f.kind.Adf? || (!f.kind.Mf? && root.kind.Adf?);
    Va(Some(t),
       if inAdf then Some(t) else va.treeAdf,
       if inAdf then Some(if f.kind.Adf? then f else root) else va.adf,
       if IsFolder(f.kind) then Some(f) else Some(parent),
       if IsFolder(f.kind) then None else Some(f),
       Some(f), 0)
  }

  // What that is for any header: the header is the current file; of an EF, with what parses at its
  // parent's offset as the folder; and the application changes for an ADF, or in the tree of one
  // for all but an MF.
  lemma SelectedAsSays(va: Va, t: nat, f: File, root: File, parent: File)
    ensures var v := SelectedAs(va, t, f, root, parent);
      && (v.tree, v.file, v.rcrd) == (Some(t), Some(f), 0)
      && (v.df, v.ef) == (if IsFolder(f.kind) then (Some(f), None) else (Some(parent), Some(f)))
      && (f.kind.Adf? ==> (v.adf, v.treeAdf) == (Some(f), Some(t)))
      && (!f.kind.Adf? && !f.kind.Mf? && root.kind.Adf? ==> (v.adf, v.treeAdf) == (Some(root), Some(t)))
      && (f.kind.Mf? || (!f.kind.Adf? && !root.kind.Adf?) ==> (v.adf, v.treeAdf) == (va.adf, va.treeAdf))
  {}

  // `va_select_file` on any header.  None: it reads outside the buffer.
  function SelectHeader(buf: bytes, va: Va, t: nat, f: File): Option<Outcome> {
    SelectParsed(va, t, f, TreeRoot(buf), ParsesOf(buf)(ParentAt(f)))
  }

  function SelectParsed(va: Va, t: nat, f: File, root: Result<File>, parent: Option<Option<File>>): Option<Outcome> {
    if root.Fail? then Some(Outcome(Error, va))
    else
      match parent
      case None => None
      case Some(None) => Some(Outcome(Error, va))
      case Some(Some(p)) => Some(Outcome(Success, SelectedAs(va, t, f, root.value, p)))
  }

  // `swicc_va_select_file_path`.  None: no defined outcome.
  function CodePath(ds: seq<Dir>, bufs: seq<bytes>, va: Va, from: PathFrom, path: seq<u16>): Option<Outcome>
    requires path != [] && |bufs| == |ds|
  {
    CodeFrom(bufs, va, StartOf(ds, va, from, path))
  }

  function CodeFrom(bufs: seq<bytes>, va: Va, s: PathStart): Option<Outcome>
    requires s.Start? ==> s.tree < |bufs|
  {
    match s
    case NoStart(ret) => Some(Outcome(ret, va))
    case Start(t, n, ids) =>
      match FoldSeen(bufs[t], n.file, ids)
      case Hit(f) => SelectHeader(bufs[t], va, t, f)
      case Miss => Some(Outcome(FsNotFound, va))
      case Broken => Some(Outcome(Error, va))
      case Undefined => None
  }

  // ----- Through folders the bytes say what the tree says -----

  function SeenOf(n: Option<Dir>): Seen { match n case None => Miss case Some(m) => Hit(m.file) }

  lemma InsideHeader(buf: bytes, off: nat)
    requires FilePrs(buf, off).Some?
    ensures ParsesOf(buf)(off) == Some(FilePrs(buf, off)) && !Outside(buf, off)
  {}

  // `p` finds the headers that `h` does.
  ghost predicate Finds(p: Parses, h: Headers) { forall off: nat :: h(off).Some? ==> p(off) == Some(h(off)) }

  lemma BufferFinds(buf: bytes)
    ensures Finds(ParsesOf(buf), HeadersOf(buf))
  {
    forall off: nat | HeadersOf(buf)(off).Some?
      ensures ParsesOf(buf)(off) == Some(HeadersOf(buf)(off))
    {
      InsideHeader(buf, off);
    }
  }

  // The files of a folder from index `i` on, which begin at `offset`.
  lemma {:induction false} ScanKids(p: Parses, h: Headers, cur: File, kids: seq<Dir>, i: nat, offset: nat, end: nat,
      id: u16, fuel: nat)
    requires Finds(p, h) && i <= |kids| && end == cur.trel + cur.size < UINT32_MAX
    requires offset <= cur.size && cur.size - offset <= fuel
    requires ReadKids(h, cur.trel + offset, cur.trel, end) == Some(kids[i..])
    ensures WalkOn(p, cur, offset, id, fuel) == SeenOf(FirstKid(kids, i, id))
    decreases |kids| - i
  {
    if offset < cur.size {
      KidsHead(h, cur.trel + offset, cur.trel, end, kids, i);
      var f := kids[i].file;
      NextSize(h, cur.trel + offset, cur.trel, end, kids[i]);
      ScanNext(p, cur, offset, id, fuel, f);
      if f.id != id {
        ScanKids(p, h, cur, kids, i + 1, offset + f.size, end, id, fuel - 1);
      }
    } else {
      assert kids[i..] == [];
    }
  }

  lemma ScanNext(p: Parses, cur: File, offset: nat, id: u16, fuel: nat, f: File)
    requires offset < cur.size && fuel > 0 && cur.trel + offset < WRAP && offset + f.size < WRAP
    requires p(cur.trel + offset) == Some(Some(f))
    ensures WalkOn(p, cur, offset, id, fuel) ==
      if f.id == id then Hit(f) else WalkOn(p, cur, offset + f.size, id, fuel - 1)
  {}

  lemma NextSize(h: Headers, off: nat, par: nat, end: nat, d: Dir)
    requires Read(h, off, par, end) == Some(d)
    ensures d.file.trel == off && h(off) == Some(d.file) && 0 < d.file.size && off + d.file.size <= end
  {}

  // One step from a folder, or from a file whose own ID it is.
  lemma StepAgrees(buf: bytes, d: Dir, n: Dir, id: u16)
    requires ReadTree(buf) == Some(d) && n in Nodes(d) && (IsFolder(n.file.kind) || n.file.id == id)
    ensures StepSeen(buf, n.file, id) == SeenOf(PathStep(n, id))
    ensures PathStep(n, id).Some? ==> PathStep(n, id).value in Nodes(d)
  {
    if n.file.id != id {
      FolderScan(buf, d, n, id);
      if PathStep(n, id).Some? {
        KidInNodes(d, n, PathStep(n, id).value);
      }
    }
  }

  lemma FolderScan(buf: bytes, d: Dir, n: Dir, id: u16)
    requires ReadTree(buf) == Some(d) && n in Nodes(d) && IsFolder(n.file.kind)
    ensures WalkOn(ParsesOf(buf), n.file, HdrSize(n.file.kind), id, Fuel(buf)) == SeenOf(FirstKid(n.kids, 0, id))
  {
    var h := HeadersOf(buf);
    var par, e := NodeRead(h, 0, 0, |buf|, n);
    NodesSound(h, 0, 0, |buf|, n);
    BufferFinds(buf);
    FolderScanOf(ParsesOf(buf), h, n, par, e, id, Fuel(buf));
  }

  lemma FolderScanOf(p: Parses, h: Headers, n: Dir, par: nat, e: nat, id: u16, fuel: nat)
    requires Finds(p, h) && Read(h, n.file.trel, par, e) == Some(n) && IsFolder(n.file.kind)
    requires HdrSize(n.file.kind) <= n.file.size && n.file.trel + n.file.size < UINT32_MAX <= fuel
    ensures WalkOn(p, n.file, HdrSize(n.file.kind), id, fuel) == SeenOf(FirstKid(n.kids, 0, id))
  {
    FolderKids(h, par, e, n);
    ScanKids(p, h, n.file, n.kids, 0, HdrSize(n.file.kind), n.file.trel + n.file.size, id, fuel);
  }

  lemma FolderKids(h: Headers, par: nat, e: nat, n: Dir)
    requires Read(h, n.file.trel, par, e) == Some(n) && IsFolder(n.file.kind)
    ensures ReadKids(h, n.file.DataAt(), n.file.trel, n.file.trel + n.file.size) == Some(n.kids[0..])
  {
    assert n.kids[0..] == n.kids;
  }

  lemma {:induction false} FoldAgrees(buf: bytes, d: Dir, n: Dir, path: seq<u16>)
    requires ReadTree(buf) == Some(d) && n in Nodes(d) && ThroughFolders(n, path)
    ensures FoldSeen(buf, n.file, path) == SeenOf(PathFold(n, path))
    decreases |path|
  {
    if path != [] {
      StepAgrees(buf, d, n, path[0]);
      if PathStep(n, path[0]).Some? {
        FoldAgrees(buf, d, PathStep(n, path[0]).value, path[1..]);
      }
    }
  }

  // A file of the tree is selected as `VaSpec` says.
  lemma HeaderAgrees(buf: bytes, d: Dir, va: Va, t: nat, f: File)
    requires ReadTree(buf) == Some(d) && f in Files(d)
    ensures SelectHeader(buf, va, t, f) == Some(Outcome(Success, Selected(va, d, t, f)))
  {
    RootOffset(buf);
    FileFound(buf, f);
    var parent := FileParent(buf, d, f);
    ParentParsed(buf, f, parent);
    SelectedAgrees(va, d, t, f, parent);
  }

  lemma ParentParsed(buf: bytes, f: File, parent: File)
    requires 0 <= f.trel - f.prel < WRAP && FilePrs(buf, f.trel - f.prel) == Some(parent)
    ensures ParsesOf(buf)(ParentAt(f)) == Some(Some(parent))
  {
    InsideHeader(buf, f.trel - f.prel);
  }

  // The parent of a root is the root itself.
  lemma FileParent(buf: bytes, d: Dir, f: File) returns (parent: File)
    requires ReadTree(buf) == Some(d) && f in Files(d)
    ensures f.prel <= f.trel && FilePrs(buf, f.trel - f.prel) == Some(parent)
    ensures f != d.file ==> ParentFile(d, f) == Some(parent) && !f.kind.Mf? && !f.kind.Adf?
    ensures f == d.file ==> IsFolder(f.kind)
  {
    if f == d.file {
      RootOffset(buf);
      parent := f;
    } else {
      TreeParent(buf, f);
      parent := ParentFile(d, f).value;
    }
  }

  lemma RootOffset(buf: bytes)
    requires ReadTree(buf).Some?
    ensures var f := ReadTree(buf).value.file;
      f.trel == 0 && f.prel == 0 && FilePrs(buf, 0) == Some(f) && (f.kind.Mf? || f.kind.Adf?) && TreeRoot(buf) == Ok(f)
  {
    assert HeadersOf(buf)(0) == FilePrs(buf, 0);
  }

  lemma SelectedAgrees(va: Va, d: Dir, t: nat, f: File, parent: File)
    requires f != d.file ==> ParentFile(d, f) == Some(parent) && !f.kind.Mf? && !f.kind.Adf?
    requires f == d.file ==> IsFolder(f.kind)
    ensures SelectedAs(va, t, f, d.file, parent) == Selected(va, d, t, f)
  {}

  // Along a path through folders the code follows the left fold.
  lemma PathAgrees(ds: seq<Dir>, bufs: seq<bytes>, va: Va, from: PathFrom, path: seq<u16>)
    requires path != [] && |bufs| == |ds| && GoodForest(bufs)
    requires forall i :: 0 <= i < |bufs| ==> ReadTree(bufs[i]) == Some(ds[i])
    requires PathDefined(ds, va, from, path)
    ensures CodePath(ds, bufs, va, from, path) == Some(SelectPath(ds, va, from, path))
  {
    var s := StartOf(ds, va, from, path);
    if s.Start? {
      FoldAgrees(bufs[s.tree], ds[s.tree], s.node, s.path);
      var m := PathFold(s.node, s.path);
      if m.Some? {
        ForestIsGood(ds, bufs);
        PathFoldFound(ds[s.tree], s.node, s.path);
        HeaderAgrees(bufs[s.tree], ds[s.tree], va, s.tree, m.value.file);
      }
    }
  }

  // ----- Off the tree -----

  // The path ends at bytes that parse as a header but are no file of the tree, and they are
  // selected.
  ghost predicate Planted(ds: seq<Dir>, bufs: seq<bytes>, va: Va, from: PathFrom, path: seq<u16>)
    requires path != [] && |bufs| == |ds|
  {
    PlantedFrom(ds, bufs, va, StartOf(ds, va, from, path))
  }

  ghost predicate PlantedFrom(ds: seq<Dir>, bufs: seq<bytes>, va: Va, s: PathStart)
    requires |bufs| == |ds| && (s.Start? ==> s.tree < |bufs|)
  {
    match s
    case NoStart(_) => false
    case Start(t, n, ids) =>
      match FoldSeen(bufs[t], n.file, ids)
      case Hit(f) =>
        && f !in Files(ds[t]) && SelectHeader(bufs[t], va, t, f).Some?
        && SelectHeader(bufs[t], va, t, f).value.ret == Success
      case _ => false
  }

  // Selecting by path keeps the validity area consistent exactly when it does not end there.
  lemma PathKeepsExactly(ds: seq<Dir>, bufs: seq<bytes>, va: Va, from: PathFrom, path: seq<u16>)
    requires path != [] && |bufs| == |ds| && GoodForest(bufs) && VaOk(ds, va)
    requires forall i :: 0 <= i < |bufs| ==> ReadTree(bufs[i]) == Some(ds[i])
    requires CodePath(ds, bufs, va, from, path).Some?
    ensures var o := CodePath(ds, bufs, va, from, path).value;
      && (VaOk(ds, o.va) <==> !Planted(ds, bufs, va, from, path))
      && (o.ret != Success ==> o.va == va) && (o.ret == Success ==> o.va.file.Some? && o.va.tree.Some?)
  {
    FromKeepsExactly(ds, bufs, va, StartOf(ds, va, from, path));
  }

  lemma FromKeepsExactly(ds: seq<Dir>, bufs: seq<bytes>, va: Va, s: PathStart)
    requires |bufs| == |ds| && GoodForest(bufs) && VaOk(ds, va) && (s.Start? ==> s.tree < |bufs|)
    requires forall i :: 0 <= i < |bufs| ==> ReadTree(bufs[i]) == Some(ds[i])
    requires CodeFrom(bufs, va, s).Some? && (s.NoStart? ==> s.ret != Success)
    ensures var o := CodeFrom(bufs, va, s).value;
      && (VaOk(ds, o.va) <==> !PlantedFrom(ds, bufs, va, s))
      && (o.ret != Success ==> o.va == va) && (o.ret == Success ==> o.va.file.Some? && o.va.tree.Some?)
  {
    if s.Start? && FoldSeen(bufs[s.tree], s.node.file, s.path).Hit? {
      HeaderKeepsExactly(ds, bufs, va, s.tree, FoldSeen(bufs[s.tree], s.node.file, s.path).file);
    }
  }

  lemma HeaderKeepsExactly(ds: seq<Dir>, bufs: seq<bytes>, va: Va, t: nat, f: File)
    requires |bufs| == |ds| && GoodForest(bufs) && VaOk(ds, va) && t < |ds|
    requires forall i :: 0 <= i < |bufs| ==> ReadTree(bufs[i]) == Some(ds[i])
    requires SelectHeader(bufs[t], va, t, f).Some?
    ensures var o := SelectHeader(bufs[t], va, t, f).value;
      && (VaOk(ds, o.va) <==> o.ret != Success || f in Files(ds[t]))
      && (o.ret != Success ==> o.va == va) && (o.ret == Success ==> o.va.file.Some? && o.va.tree.Some?)
  {
    var o := SelectHeader(bufs[t], va, t, f).value;
    if f in Files(ds[t]) {
      HeaderAgrees(bufs[t], ds[t], va, t, f);
      ForestIsGood(ds, bufs);
      SelectedOk(ds, va, t, f);
    } else if o.ret == Success {
      OffTree(ds, va, t, f, TreeRoot(bufs[t]).value, ParsesOf(bufs[t])(ParentAt(f)).value.value);
    }
  }

  // What is no file of the tree leaves no consistent validity area.
  lemma OffTree(ds: seq<Dir>, va: Va, t: nat, f: File, root: File, parent: File)
    requires t < |ds| && f !in Files(ds[t])
    ensures !VaOk(ds, SelectedAs(va, t, f, root, parent))
  {}

  // Through folders it never ends there.
  lemma FoldersKeep(ds: seq<Dir>, bufs: seq<bytes>, va: Va, from: PathFrom, path: seq<u16>)
    requires path != [] && |bufs| == |ds| && GoodForest(bufs) && VaOk(ds, va)
    requires forall i :: 0 <= i < |bufs| ==> ReadTree(bufs[i]) == Some(ds[i])
    requires PathDefined(ds, va, from, path)
    ensures !Planted(ds, bufs, va, from, path)
  {
    PathAgrees(ds, bufs, va, from, path);
    ForestIsGood(ds, bufs);
    SelectPathOk(ds, va, from, path);
    PathKeepsExactly(ds, bufs, va, from, path);
  }

  // ----- A step on from an EF -----

  // A header is where it was found.
  ghost predicate InPlace(p: Parses) {
    forall at: nat :: p(at).Some? && p(at).value.Some? ==> p(at).value.value.trel == at
  }

  // Whatever the walk hits parses where it is, somewhere in the file it walks over.
  lemma {:induction false} ScanHits(p: Parses, cur: File, offset: nat, id: u16, fuel: nat)
    requires InPlace(p) && cur.trel + cur.size < WRAP
    ensures var s := WalkOn(p, cur, offset, id, fuel);
      s.Hit? ==> s.file.id == id && cur.trel <= s.file.trel < cur.trel + cur.size
    decreases fuel
  {
    if offset < cur.size && fuel > 0 {
      var r := p(cur.trel + offset);
      if r.Some? && r.value.Some? && r.value.value.id != id {
        ScanHits(p, cur, Wrapped32(offset + r.value.value.size), id, fuel - 1);
      }
    }
  }

  // No other file of the tree begins inside an EF.
  lemma EfAlone(buf: bytes, d: Dir, m: Dir, g: File)
    requires ReadTree(buf) == Some(d) && m in Nodes(d) && !IsFolder(m.file.kind)
    requires g in Files(d) && m.file.trel <= g.trel < m.file.trel + m.file.size
    ensures g == m.file
  {
    var n := FileNode(d, g);
    NodesApart(HeadersOf(buf), 0, 0, |buf|, m, n);
    NodesSound(HeadersOf(buf), 0, 0, |buf|, n);
  }

  lemma BufferInPlace(buf: bytes)
    ensures InPlace(ParsesOf(buf))
  {}

  // A step on from an EF never leads to a file of the tree: on the tree it leads nowhere.
  lemma StepFromEf(buf: bytes, d: Dir, m: Dir, id: u16)
    requires ReadTree(buf) == Some(d) && m in Nodes(d) && !IsFolder(m.file.kind) && m.file.id != id
    ensures PathStep(m, id) == None
    ensures StepSeen(buf, m.file, id).Hit? ==> StepSeen(buf, m.file, id).file !in Files(d)
  {
    NodesSound(HeadersOf(buf), 0, 0, |buf|, m);
    BufferInPlace(buf);
    ScanHits(ParsesOf(buf), m.file, HdrSize(m.file.kind), id, Fuel(buf));
    var s := StepSeen(buf, m.file, id);
    if s.Hit? && s.file in Files(d) {
      EfAlone(buf, d, m, s.file);
    }
  }

  // So it keeps the validity area consistent exactly when it selects nothing.
  lemma StepFromEfExactly(ds: seq<Dir>, bufs: seq<bytes>, va: Va, t: nat, m: Dir, id: u16)
    requires |bufs| == |ds| && GoodForest(bufs) && VaOk(ds, va) && t < |ds|
    requires forall i :: 0 <= i < |bufs| ==> ReadTree(bufs[i]) == Some(ds[i])
    requires m in Nodes(ds[t]) && !IsFolder(m.file.kind) && m.file.id != id
    requires CodeFrom(bufs, va, Start(t, m, [id])).Some?
    ensures var o := CodeFrom(bufs, va, Start(t, m, [id])).value; VaOk(ds, o.va) <==> o.ret != Success
  {
    OneStep(bufs[t], m.file, id);
    StepFromEf(bufs[t], ds[t], m, id);
    FromKeepsExactly(ds, bufs, va, Start(t, m, [id]));
    OffTreePlanted(ds, bufs, va, Start(t, m, [id]));
  }

  lemma OneStep(buf: bytes, cur: File, id: u16)
    ensures FoldSeen(buf, cur, [id]) == StepSeen(buf, cur, id)
  {
    assert [id][1..] == [];
  }

  lemma OffTreePlanted(ds: seq<Dir>, bufs: seq<bytes>, va: Va, s: PathStart)
    requires |bufs| == |ds| && s.Start? && s.tree < |bufs| && CodeFrom(bufs, va, s).Some?
    requires var r := FoldSeen(bufs[s.tree], s.node.file, s.path); r.Hit? ==> r.file !in Files(ds[s.tree])
    ensures PlantedFrom(ds, bufs, va, s) <==> CodeFrom(bufs, va, s).value.ret == Success
  {}

  // Bytes of an EF that spell a header are taken for one.
  lemma PlantedHeader(buf: bytes, d: Dir, m: Dir, g: File)
    requires ReadTree(buf) == Some(d) && m in Nodes(d) && !IsFolder(m.file.kind) && g.id != m.file.id
    requires g.trel == m.file.DataAt() && g.DataAt() <= m.file.trel + m.file.size
    requires g.size <= UINT32_MAX && g.prel <= UINT32_MAX && |g.spec| == HdrSize(g.kind) - FILE_HDR_LEN
    requires g.DataAt() <= |buf| < UINT32_MAX && buf[g.trel..g.DataAt()] == HdrBytes(g)
    ensures FilePrs(buf, g.trel) == Some(g) && StepSeen(buf, m.file, g.id) == Hit(g) && g !in Files(d)
  {
    HdrParses(g, buf);
    InsideHeader(buf, g.trel);
    ScanFirst(ParsesOf(buf), m.file, HdrSize(m.file.kind), g, Fuel(buf));
    StepFromEf(buf, d, m, g.id);
  }

  lemma ScanFirst(p: Parses, cur: File, offset: nat, g: File, fuel: nat)
    requires fuel > 0 && offset < cur.size && cur.trel + offset < WRAP && p(cur.trel + offset) == Some(Some(g))
    ensures WalkOn(p, cur, offset, g.id, fuel) == Hit(g)
  {}
}
