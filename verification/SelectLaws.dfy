// Which file SELECT means, written out for every method, what selecting it does, and what is
// answered.
module SelectLaws {
  import opened Bytes
  import opened BerTlv
  import opened FsFormat
  import opened DiskIndex
  import opened Disk
  import opened VaSpec
  import opened OrderLaws
  import opened PathBytes
  import opened FileSys
  import opened ApduRc
  import opened Apdu
  import opened Fci
  import opened TlvBytes
  import opened ApduhSpec
  import opened AddressLaws
  import opened Apduh
  import opened CardLaws
  import opened RecordLaws
  import opened AnswerLaws
  import opened ResponseLaws

  // ----- By identifier -----

  // The last file of the last tree that has one with the ID.
  ghost predicate ByIdIs(ds: seq<Dir>, id: u16, t: nat, f: File) {
    && t < |ds| && id != 0 && f.id == id
    && (exists i :: 0 <= i < |Files(ds[t])| && Files(ds[t])[i] == f
          && forall j :: i < j < |Files(ds[t])| ==> Files(ds[t])[j].id != id)
    && (forall u, g :: t < u < |ds| && g in Files(ds[u]) ==> g.id != id)
  }

  ghost predicate NoneHasId(ds: seq<Dir>, id: u16) {
    id == 0 || forall u, g :: 0 <= u < |ds| && g in Files(ds[u]) ==> g.id != id
  }

  ghost predicate LastIdIs(fss: seq<seq<File>>, n: nat, id: u16, t: nat, f: File)
    requires n <= |fss|
  {
    && t < n && id != 0 && LastAt(fss[t], HasId(id), f)
    && forall u, g :: t < u < n && g in fss[u] ==> g.id != id
  }

  lemma {:induction false} LastIdExactly(fss: seq<seq<File>>, n: nat, id: u16, t: nat, f: File)
    requires n <= |fss|
    ensures LastId(fss, n, id) == Some((t, f)) <==> LastIdIs(fss, n, id, t, f)
  {
    if n > 0 && id != 0 {
      LastIdExactly(fss, n - 1, id, t, f);
      LastIsMatch(fss[n - 1], HasId(id));
      assert forall g :: HasId(id)(g) <==> g.id == id;
      if t == n - 1 {
        LastExactly(fss[t], HasId(id), f);
      }
    }
  }

  lemma ByIdExactly(ds: seq<Dir>, id: u16, t: nat, f: File)
    ensures ById(ds, id) == Some((t, f)) <==> ByIdIs(ds, id, t, f)
    ensures ById(ds, id) == None <==> NoneHasId(ds, id)
  {
    var fss := FilesOfAll(ds);
    LastIdExactly(fss, |ds|, id, t, f);
    LastIdSound(fss, |ds|, id);
  }

  // ----- By AID -----

  // The AID of a file begins with these bytes.
  predicate AidBegins(f: File, aid: bytes) {
    |aid| <= |f.spec| && forall j :: 0 <= j < |aid| ==> f.spec[j] == aid[j]
  }

  // The first application, in the order of the trees, whose AID does.
  ghost predicate ByAidIs(ds: seq<Dir>, aid: bytes, t: nat, f: File) {
    && 1 <= t < |ds| && f == ds[t].file && AidBegins(f, aid)
    && forall u :: 1 <= u < t ==> !AidBegins(ds[u].file, aid)
  }

  ghost predicate NoAid(ds: seq<Dir>, aid: bytes) { forall u :: 1 <= u < |ds| ==> !AidBegins(ds[u].file, aid) }

  lemma {:induction false} ByAidFrom(ds: seq<Dir>, i: nat, aid: bytes, t: nat, f: File)
    ensures ByAid(ds, i, aid) == Some((t, f)) <==>
      && i <= t < |ds| && f == ds[t].file && AidBegins(f, aid)
      && forall u :: i <= u < t ==> !AidBegins(ds[u].file, aid)
    ensures ByAid(ds, i, aid) == None <==> forall u :: i <= u < |ds| ==> !AidBegins(ds[u].file, aid)
    decreases |ds| - i
  {
    if i < |ds| {
      PrefixIs(ds[i].file, aid);
      ByAidFrom(ds, i + 1, aid, t, f);
    }
  }

  lemma PrefixIs(f: File, aid: bytes)
    ensures AidMatches(f, aid) <==> AidBegins(f, aid)
  {}

  lemma ByAidExactly(ds: seq<Dir>, aid: bytes, t: nat, f: File)
    ensures ByAid(ds, 1, aid) == Some((t, f)) <==> ByAidIs(ds, aid, t, f)
    ensures ByAid(ds, 1, aid) == None <==> NoAid(ds, aid)
  {
    ByAidFrom(ds, 1, aid, t, f);
  }

  // ----- By name -----

  // The name of an MF or DF begins with the first byte given and zeros for the others.
  predicate NameBegins(f: File, name: bytes) {
    && (f.kind.Mf? || f.kind.Df?) && 1 <= |name| <= |f.spec| && f.spec[0] == name[0]
    && forall j :: 1 <= j < |name| ==> f.spec[j] == 0
  }

  ghost predicate ByNameIs(ds: seq<Dir>, name: bytes, t: nat, f: File) {
    && t == 1 < |ds| && NameBegins(f, name)
    && exists i :: 0 <= i < |Files(ds[1])| && Files(ds[1])[i] == f
         && forall j :: 0 <= j < i ==> !NameBegins(Files(ds[1])[j], name)
  }

  ghost predicate NoName(ds: seq<Dir>, name: bytes) {
    |ds| < 2 || forall f :: f in Files(ds[1]) ==> !NameBegins(f, name)
  }

  ghost predicate FirstAt(fs: seq<File>, p: File -> bool, f: File) {
    p(f) && exists i :: 0 <= i < |fs| && fs[i] == f && forall j :: 0 <= j < i ==> !p(fs[j])
  }

  lemma {:induction false} FirstExactly(fs: seq<File>, p: File -> bool, f: File)
    ensures First(fs, p) == Some(f) <==> FirstAt(fs, p, f)
  {
    if fs != [] {
      if p(fs[0]) {
        assert FirstAt(fs, p, fs[0]);
      } else {
        FirstExactly(fs[1..], p, f);
        FirstLonger(fs, p, f);
      }
    }
  }

  lemma FirstLonger(fs: seq<File>, p: File -> bool, f: File)
    requires fs != [] && !p(fs[0])
    ensures FirstAt(fs[1..], p, f) <==> FirstAt(fs, p, f)
  {
    var rest := fs[1..];
    if FirstAt(rest, p, f) {
      var i :| 0 <= i < |rest| && rest[i] == f && forall j :: 0 <= j < i ==> !p(rest[j]);
      assert fs[i + 1] == f;
      forall j | 0 <= j < i + 1
        ensures !p(fs[j])
      {
        assert j > 0 ==> fs[j] == rest[j - 1];
      }
    }
    if FirstAt(fs, p, f) {
      var i :| 0 <= i < |fs| && fs[i] == f && forall j :: 0 <= j < i ==> !p(fs[j]);
      assert i > 0 && rest[i - 1] == f;
      forall j | 0 <= j < i - 1
        ensures !p(rest[j])
      {
        assert rest[j] == fs[j + 1];
      }
    }
  }

  lemma NameIs(f: File, name: bytes)
    requires name != []
    ensures HasName(SearchedName(name))(f) <==> NameBegins(f, name)
  {
    var s := SearchedName(name);
    if s <= f.spec {
      assert s == f.spec[..|s|];
      assert forall j :: 1 <= j < |name| ==> f.spec[j] == s[j];
    }
    if NameBegins(f, name) {
      assert s == f.spec[..|s|];
    }
  }

  lemma ByNameIsExactly(ds: seq<Dir>, name: bytes, t: nat, f: File)
    requires name != []
    ensures ByName(ds, name) == Some((t, f)) <==> ByNameIs(ds, name, t, f)
    ensures ByName(ds, name) == None <==> NoName(ds, name)
  {
    if |ds| >= 2 {
      var p := HasName(SearchedName(name));
      forall g: File
        ensures p(g) <==> NameBegins(g, name)
      {
        NameIs(g, name);
      }
      FirstExactly(Files(ds[1]), p, f);
      FirstIsMatch(Files(ds[1]), p);
    }
  }

  // ----- By path -----

  // One step: a folder's own ID leads nowhere else, another one to the first file directly in
  // it that has it.
  ghost predicate StepsTo(n: Dir, id: u16, m: Dir) {
    if n.file.id == id then m == n
    else exists i :: 0 <= i < |n.kids| && n.kids[i] == m && m.file.id == id
           && forall j :: 0 <= j < i ==> n.kids[j].file.id != id
  }

  lemma {:induction false} FirstKidExactly(kids: seq<Dir>, i: nat, id: u16, m: Dir)
    requires i <= |kids|
    ensures FirstKid(kids, i, id) == Some(m) <==>
      exists k :: i <= k < |kids| && kids[k] == m && m.file.id == id && forall j :: i <= j < k ==> kids[j].file.id != id
    decreases |kids| - i
  {
    if i < |kids| {
      FirstKidExactly(kids, i + 1, id, m);
      if kids[i].file.id != id {
        assert FirstKid(kids, i, id) == FirstKid(kids, i + 1, id);
      }
    }
  }

  lemma StepExactly(n: Dir, id: u16, m: Dir)
    ensures PathStep(n, id) == Some(m) <==> StepsTo(n, id, m)
  {
    FirstKidExactly(n.kids, 0, id, m);
  }

  // The folders and the file that a path leads through.
  ghost predicate Route(ns: seq<Dir>, path: seq<u16>) {
    |ns| == |path| + 1 && forall i :: 0 <= i < |path| ==> StepsTo(ns[i], path[i], ns[i + 1])
  }

  ghost predicate LeadsTo(n: Dir, path: seq<u16>, m: Dir) {
    exists ns :: Route(ns, path) && ns[0] == n && ns[|path|] == m
  }

  lemma {:induction false} FoldExactly(n: Dir, path: seq<u16>, m: Dir)
    ensures PathFold(n, path) == Some(m) <==> LeadsTo(n, path, m)
    decreases |path|
  {
    if path == [] {
      assert Route([n], path) && [n][0] == n;
    } else {
      if PathFold(n, path) == Some(m) {
        var o := PathStep(n, path[0]).value;
        StepExactly(n, path[0], o);
        FoldExactly(o, path[1..], m);
        var ns :| Route(ns, path[1..]) && ns[0] == o && ns[|path| - 1] == m;
        LongerRoute(n, path, ns);
      }
      if LeadsTo(n, path, m) {
        var ns :| Route(ns, path) && ns[0] == n && ns[|path|] == m;
        StepExactly(n, path[0], ns[1]);
        ShorterRoute(path, ns);
        assert LeadsTo(ns[1], path[1..], m);
        FoldExactly(ns[1], path[1..], m);
      }
    }
  }

  lemma LongerRoute(n: Dir, path: seq<u16>, ns: seq<Dir>)
    requires path != [] && Route(ns, path[1..]) && StepsTo(n, path[0], ns[0])
    ensures Route([n] + ns, path) && ([n] + ns)[0] == n && ([n] + ns)[|path|] == ns[|path| - 1]
  {
    var all := [n] + ns;
    forall i | 0 <= i < |path|
      ensures StepsTo(all[i], path[i], all[i + 1])
    {
      if i > 0 {
        assert all[i] == ns[i - 1] && all[i + 1] == ns[i] && path[i] == path[1..][i - 1];
      }
    }
  }

  lemma ShorterRoute(path: seq<u16>, ns: seq<Dir>)
    requires path != [] && Route(ns, path)
    ensures Route(ns[1..], path[1..]) && StepsTo(ns[0], path[0], ns[1])
    ensures ns[1..][0] == ns[1] && ns[1..][|path| - 1] == ns[|path|]
  {
    var rest := ns[1..];
    forall i | 0 <= i < |path[1..]|
      ensures StepsTo(rest[i], path[1..][i], rest[i + 1])
    {
      assert StepsTo(ns[i + 1], path[i + 1], ns[i + 2]);
    }
  }

  // The IDs in the data of a command, two bytes each, high byte first.
  lemma {:induction false} IdsAre(data: bytes, i: nat)
    requires 2 * i + 1 < |data|
    ensures i < |Ids(data)| == |data| / 2 && Ids(data)[i] == 0x100 * data[2 * i] as int + data[2 * i + 1] as int
    decreases i
  {
    if i > 0 {
      IdsAre(data[2..], i - 1);
      assert data[2..][2 * (i - 1)] == data[2 * i] && data[2..][2 * (i - 1) + 1] == data[2 * i + 1];
    }
  }

  // Where a path starts: at the MF with P1 = 08, or at the current application if the path begins
  // with 7FFF; at the current DF with P1 = 09.
  ghost predicate StartsAt(ds: seq<Dir>, va: Va, p1: byte, ids: seq<u16>, t: nat, n: Dir, path: seq<u16>)
    requires ids != []
  {
    && t < |ds| && n in Nodes(ds[t])
    && (if p1 == 0x09 then va.tree == Some(t) && va.df == Some(n.file) && path == ids
        else if ids[0] == 0x7FFF then
          va.adf.Some? && ByIdIs(ds, va.adf.value.id, t, n.file) && path == [va.adf.value.id] + ids[1..]
        else ByIdIs(ds, 0x3F00, t, n.file) && path == ids)
  }

  ghost predicate PathIs(ds: seq<Dir>, va: Va, p1: byte, ids: seq<u16>, t: nat, f: File)
    requires ids != []
  {
    exists n, path, m :: StartsAt(ds, va, p1, ids, t, n, path) && LeadsTo(n, path, m) && m.file == f
  }

  // A file of a tree is the file of one node.
  ghost predicate OneNode(ds: seq<Dir>) {
    forall t, m, n :: 0 <= t < |ds| && m in Nodes(ds[t]) && n in Nodes(ds[t]) && m.file == n.file ==> m == n
  }

  lemma MountedOneNode(k: Mount, c: Card)
    requires Good(k, c)
    ensures OneNode(k.ds)
  {
    forall t | 0 <= t < |k.ds|
      ensures forall m, n :: m in Nodes(k.ds[t]) && n in Nodes(k.ds[t]) && m.file == n.file ==> m == n
    {
      assert ReadTree(c.bufs[t]) == Some(k.ds[t]);
      forall m, n | m in Nodes(k.ds[t]) && n in Nodes(k.ds[t])
        ensures m.file == n.file ==> m == n
      {
        NodesDiffer(c.bufs[t], m, n);
      }
    }
  }

  lemma StartAtExactly(ds: seq<Dir>, r: Option<(nat, File)>, ids: seq<u16>, t: nat, n: Dir, path: seq<u16>)
    requires ids != [] && OneNode(ds) && (r.Some? ==> r.value.0 < |ds|)
    ensures StartAt(ds, r, ids) == Start(t, n, path) <==>
      r == Some((t, n.file)) && t < |ds| && n in Nodes(ds[t]) && path == ids
  {}

  lemma StartExactly(ds: seq<Dir>, va: Va, p1: byte, ids: seq<u16>, t: nat, n: Dir, path: seq<u16>)
    requires ids != [] && VaOk(ds, va) && OneNode(ds) && (p1 == 8 || p1 == 9)
    ensures StartOf(ds, va, FromOf(p1), ids) == Start(t, n, path) <==> StartsAt(ds, va, p1, ids, t, n, path)
  {
    if p1 == 9 {
      if va.tree.Some? {
        StartAtExactly(ds, Some((va.tree.value, va.df.value)), ids, t, n, path);
      }
    } else {
      var id := if ids[0] != 0x7FFF then 0x3F00 else if va.adf.Some? then va.adf.value.id else 0;
      StartAtExactly(ds, ById(ds, id), if ids[0] != 0x7FFF then ids else [id] + ids[1..], t, n, path);
      ByIdExactly(ds, id, t, n.file);
    }
  }

  // Where a path ends.
  ghost function PathEnd(s: PathStart): Option<(nat, File)> {
    if s.NoStart? || PathFold(s.node, s.path).None? then None
    else Some((s.tree, PathFold(s.node, s.path).value.file))
  }

  lemma PathExactly(ds: seq<Dir>, va: Va, p1: byte, ids: seq<u16>, t: nat, f: File)
    requires ids != [] && VaOk(ds, va) && OneNode(ds) && (p1 == 8 || p1 == 9)
    ensures PathEnd(StartOf(ds, va, FromOf(p1), ids)) == Some((t, f)) <==> PathIs(ds, va, p1, ids, t, f)
  {
    var s := StartOf(ds, va, FromOf(p1), ids);
    if PathEnd(s) == Some((t, f)) {
      var m := PathFold(s.node, s.path).value;
      StartExactly(ds, va, p1, ids, t, s.node, s.path);
      FoldExactly(s.node, s.path, m);
    }
    if PathIs(ds, va, p1, ids, t, f) {
      var n, path, m :| StartsAt(ds, va, p1, ids, t, n, path) && LeadsTo(n, path, m) && m.file == f;
      StartExactly(ds, va, p1, ids, t, n, path);
      FoldExactly(n, path, m);
    }
  }

  // ----- What the parameters and the data mean -----

  // A file of a tree, or the status that says why none.
  datatype Choice = Chosen(t: nat, f: File) | Refused(sw1: byte, sw2: byte)

  predicate WholePath(p2: byte, data: bytes) { |data| >= 2 && |data| % 2 == 0 && p2 % 4 == 0 }

  // The occurrence in P2 is the first or only one.
  predicate WholeName(p2: byte, data: bytes) { 5 <= |data| <= 16 && p2 % 4 == 0 }

  ghost predicate Means(ds: seq<Dir>, va: Va, p1: byte, p2: byte, data: bytes, t: nat, f: File) {
    || (p1 == 0x00 && |data| == 2 && ByIdIs(ds, 0x100 * data[0] as int + data[1] as int, t, f))
    || (p1 == 0x04 && WholeName(p2, data)
        && (ByAidIs(ds, data, t, f) || (NoAid(ds, data) && ByNameIs(ds, data, t, f))))
    || ((p1 == 0x08 || p1 == 0x09) && WholePath(p2, data) && PathIs(ds, va, p1, Ids(data), t, f))
  }

  // What cannot mean any file, whatever is on the disk.
  predicate Malformed(va: Va, p1: byte, p2: byte, data: bytes) {
    || (p1 == 0x00 && |data| != 2)
    || (p1 == 0x04 && !WholeName(p2, data))
    || ((p1 == 0x08 || p1 == 0x09) && !WholePath(p2, data))
    || (p1 == 0x09 && va.tree.None?)
  }

  ghost predicate Chooses(ds: seq<Dir>, va: Va, p1: byte, p2: byte, data: bytes, ch: Choice) {
    match ch
    case Chosen(t, f) => Means(ds, va, p1, p2, data, t, f)
    case Refused(sw1, sw2) =>
      if Malformed(va, p1, p2, data) then (sw1, sw2) == (0x6F, 0x00)
      else (sw1, sw2) == (0x6A, 0x82) && forall t, f :: !Means(ds, va, p1, p2, data, t, f)
  }

  // The file a selection finds.
  ghost function FoundBy(ds: seq<Dir>, va: Va, p1: byte, p2: byte, data: bytes): Option<(nat, File)> {
    if Malformed(va, p1, p2, data) then None
    else if p1 == 0 then ById(ds, 0x100 * data[0] as int + data[1] as int)
    else if p1 == 4 then (if ByAid(ds, 1, data).Some? then ByAid(ds, 1, data) else ByName(ds, data))
    else if p1 == 8 || p1 == 9 then PathEnd(StartOf(ds, va, FromOf(p1), Ids(data)))
    else None
  }

  lemma FoundExactly(ds: seq<Dir>, va: Va, p1: byte, p2: byte, data: bytes, t: nat, f: File)
    requires VaOk(ds, va) && OneNode(ds) && Supported(p1)
    ensures FoundBy(ds, va, p1, p2, data) == Some((t, f)) <==> Means(ds, va, p1, p2, data, t, f)
  {
    if p1 == 0 {
      if |data| == 2 {
        ByIdExactly(ds, 0x100 * data[0] as int + data[1] as int, t, f);
      }
    } else if p1 == 4 {
      if WholeName(p2, data) {
        ByAidExactly(ds, data, t, f);
        ByNameIsExactly(ds, data, t, f);
      }
    } else if WholePath(p2, data) {
      PathExactly(ds, va, p1, Ids(data), t, f);
    }
  }

  // On the tree, the selection is of that file, or there is none.
  lemma SelectIs(k: Mount, c: Card, cmd: Cmd)
    requires Good(k, c) && Supported(cmd.p1) && CmdOk(k.ds, c.va, cmd)
    ensures var o, r := Selection(k.ds, c, cmd), FoundBy(k.ds, c.va, cmd.p1, cmd.p2, cmd.data);
      if Malformed(c.va, cmd.p1, cmd.p2, cmd.data) then o.va == c.va && o.ret != Success && o.ret != FsNotFound
      else (r.Some? ==> r.value.0 < |k.ds|) && o == Select(k.ds, c.va, r)
  {
    if PathCmd(cmd.p1, cmd.p2, cmd.data) {
      PathAgrees(k.ds, c.bufs, c.va, FromOf(cmd.p1), Ids(cmd.data));
      PathSelects(k.ds, c.va, FromOf(cmd.p1), Ids(cmd.data));
    }
  }

  lemma PathSelects(ds: seq<Dir>, va: Va, from: PathFrom, ids: seq<u16>)
    requires VaOk(ds, va) && ids != []
    ensures var s, o := StartOf(ds, va, from, ids), SelectPath(ds, va, from, ids);
      if from.FromDf? && va.tree.None? then o == Outcome(ParamBad, va)
      else (PathEnd(s).Some? ==> PathEnd(s).value.0 < |ds|) && o == Select(ds, va, PathEnd(s))
  {}

  // ----- What is answered -----

  // The template that P2 asks for; FCI, FCP or FMD.
  function Asked(p2: byte, f: File): bytes
    requires Selectable(f) && Describable(f)
  {
    var p := ParamOctets(f);
    match p2 / 4 % 4
    case 0 => TemplateOctets(f); [0x6F, |p| + 4, 0x64, 0x00, 0x62, |p|] + p
    case 1 => TemplateOctets(f); [0x62, |p|] + p
    case _ => [0x64, 0x00]
  }

  // What is answered once a file was selected, and what can be fetched then.
  ghost predicate Told(r: Reply, p2: byte, f: File) {
    if p2 / 4 % 4 == 3 then StatusOf(r.res) == Says(0x90, 0x00, 0) && r.card.rc == EMPTY
    else if RcrdCnt(f) > 255 then StatusOf(r.res) == Says(0x6F, 0x00, 0) && r.card.rc == EMPTY
    else
      && Selectable(f) && Describable(f)
      && StatusOf(r.res) == Says(0x61, |Asked(p2, f)| % 0x100, 0) && |Asked(p2, f)| <= 44
      && r.card.rc == Queue(Asked(p2, f), 0)
  }

  lemma TemplateIs(f: File, p2: byte)
    requires Selectable(f) && Describable(f) && RequestOf(p2) != Absent
    ensures Encode(Template(f, Descr(f), RequestOf(p2))) == Asked(p2, f) && |Asked(p2, f)| <= 44
  {
    TemplateOctets(f);
  }

  lemma ReplyTold(k: Mount, c: Card, cmd: Cmd, b: bytes)
    requires Meaningful(k, c, cmd) && c.rc == EMPTY && |b| == DATA_MAX && Selection(k.ds, c, cmd).ret == Success
    ensures var o := Selection(k.ds, c, cmd);
      o.va.file.Some? && Told(SelectReply(c.(va := o.va), o.ret, RequestOf(cmd.p2), b), cmd.p2, o.va.file.value)
  {
    var f := Selection(k.ds, c, cmd).va.file;
    SelectReplies(k, c, cmd, b);
    SelectionSelectable(k, c, cmd);
    if RequestOf(cmd.p2) != Absent {
      TellExact(c.(va := Selection(k.ds, c, cmd).va), f.value, RequestOf(cmd.p2), b);
      if Describable(f.value) {
        TemplateIs(f.value, cmd.p2);
      }
    }
  }

  // The answers before anything is looked for: no such P2, data that was not asked for or is not
  // there yet, data of another length than announced, no such P1.
  function Early(cmd: Cmd, pc: nat): Option<Said> {
    if cmd.p2 >= 0x10 then Some(Says(0x6A, 0x86, 0))
    else if pc == 0 && cmd.data != [] then Some(Says(0x6F, 0x00, 0))
    else if pc == 0 && cmd.p3 > 0 then Some(Says(0xFF, 0x00, cmd.p3))
    else if pc > 0 && |cmd.data| != cmd.p3 as nat then Some(Says(0x67, 0x02, 0))
    else if cmd.p1 !in {0x00, 0x04, 0x08, 0x09} then Some(Says(0x6B, 0x00, 0))
    else None
  }

  // The answer and what is selected, given what the parameters and the data mean.
  ghost predicate Answered(ds: seq<Dir>, c: Card, cmd: Cmd, ch: Choice, r: Reply) {
    match ch
    case Refused(sw1, sw2) => StatusOf(r.res) == Says(sw1, sw2, 0) && r.card == c.(rc := EMPTY)
    case Chosen(t, f) => r.card.bufs == c.bufs && Made(ds, c.va, r.card.va, t, f) && Told(r, cmd.p2, f)
  }

  lemma SelectAnswers(k: Mount, c: Card, cmd: Cmd, pc: nat, b: bytes, ch: Choice)
    requires Good(k, c) && Does(cmd, 0xA4) && CmdOk(k.ds, c.va, cmd) && |b| == 0x100
    requires Early(cmd, pc).None? ==> Chooses(k.ds, c.va, cmd.p1, cmd.p2, cmd.data, ch)
    ensures var r := Demux(k.ds, c, cmd, pc, b);
      if Early(cmd, pc).Some? then StatusOf(r.res) == Early(cmd, pc).value && r.card == c.(rc := EMPTY)
      else Answered(k.ds, c, cmd, ch, r)
  {
    assert cmd.p2 / 16 == 0 <==> cmd.p2 < 0x10;
    if Early(cmd, pc).None? {
      FoldersDoNotStray(k, c, cmd, pc);
      StaysMeaningful(k, c, cmd, pc);
      ChoiceAnswered(k, c.(rc := EMPTY), cmd, b, ch);
    }
  }

  lemma ChoiceAnswered(k: Mount, c: Card, cmd: Cmd, b: bytes, ch: Choice)
    requires Meaningful(k, c, cmd) && c.rc == EMPTY && CmdOk(k.ds, c.va, cmd) && |b| == 0x100
    requires Chooses(k.ds, c.va, cmd.p1, cmd.p2, cmd.data, ch)
    ensures var o := Selection(k.ds, c, cmd);
      Answered(k.ds, c, cmd, ch, SelectReply(c.(va := o.va), o.ret, RequestOf(cmd.p2), b))
  {
    match ch
    case Chosen(t, f) =>
      MeansFound(k, c, cmd, t, f);
      ReplyTold(k, c, cmd, b);
      SelectReplies(k, c, cmd, b);
    case Refused(sw1, sw2) =>
      RefusedWith(k, c, cmd, sw1, sw2);
      SelectFails(c, Selection(k.ds, c, cmd).ret, RequestOf(cmd.p2), b);
  }

  lemma RefusedWith(k: Mount, c: Card, cmd: Cmd, sw1: byte, sw2: byte)
    requires Good(k, c) && Supported(cmd.p1) && CmdOk(k.ds, c.va, cmd)
    requires Chooses(k.ds, c.va, cmd.p1, cmd.p2, cmd.data, Refused(sw1, sw2))
    ensures var o := Selection(k.ds, c, cmd);
      o.ret != Success && o.va == c.va && (sw1, sw2) == (if o.ret == FsNotFound then (0x6A, 0x82) else (0x6F, 0x00))
  {
    SelectIs(k, c, cmd);
    if !Malformed(c.va, cmd.p1, cmd.p2, cmd.data) {
      NoneFound(k, c, cmd);
    }
  }

  lemma SelectFails(c: Card, ret: Ret, req: Request, b: bytes)
    requires ret != Success
    ensures var r := SelectReply(c, ret, req, b);
      StatusOf(r.res) == (if ret == FsNotFound then Says(0x6A, 0x82, 0) else Says(0x6F, 0x00, 0)) && r.card == c
  {}

  lemma MeansFound(k: Mount, c: Card, cmd: Cmd, t: nat, f: File)
    requires Meaningful(k, c, cmd) && CmdOk(k.ds, c.va, cmd)
    requires Means(k.ds, c.va, cmd.p1, cmd.p2, cmd.data, t, f)
    ensures var o := Selection(k.ds, c, cmd);
      o.ret == Success && o.va.file == Some(f) && Made(k.ds, c.va, o.va, t, f)
  {
    MountedOneNode(k, c);
    FoundExactly(k.ds, c.va, cmd.p1, cmd.p2, cmd.data, t, f);
    SelectIs(k, c, cmd);
    StaysOk(k, c, cmd);
    ForestIsGood(k.ds, c.bufs);
    SelectedMade(k.ds, c.va, t, f);
  }

  // On the tree a selection keeps the validity area consistent.
  lemma StaysOk(k: Mount, c: Card, cmd: Cmd)
    requires Good(k, c) && Supported(cmd.p1) && CmdOk(k.ds, c.va, cmd)
    ensures VaOk(k.ds, Selection(k.ds, c, cmd).va)
  {
    SelectByExactly(k, c, cmd.p1, cmd.p2, cmd.data);
    if PathCmd(cmd.p1, cmd.p2, cmd.data) {
      FoldersKeep(k.ds, c.bufs, c.va, FromOf(cmd.p1), Ids(cmd.data));
    }
  }

  lemma NoneFound(k: Mount, c: Card, cmd: Cmd)
    requires Good(k, c) && Supported(cmd.p1)
    requires forall t, f :: !Means(k.ds, c.va, cmd.p1, cmd.p2, cmd.data, t, f)
    ensures FoundBy(k.ds, c.va, cmd.p1, cmd.p2, cmd.data) == None
  {
    var r := FoundBy(k.ds, c.va, cmd.p1, cmd.p2, cmd.data);
    if r.Some? {
      MountedOneNode(k, c);
      FoundExactly(k.ds, c.va, cmd.p1, cmd.p2, cmd.data, r.value.0, r.value.1);
    }
  }

  // The parameters and the data always mean something.
  lemma SomeChoice(k: Mount, c: Card, cmd: Cmd) returns (ch: Choice)
    requires Good(k, c) && Supported(cmd.p1)
    ensures Chooses(k.ds, c.va, cmd.p1, cmd.p2, cmd.data, ch)
  {
    var r := FoundBy(k.ds, c.va, cmd.p1, cmd.p2, cmd.data);
    MountedOneNode(k, c);
    if Malformed(c.va, cmd.p1, cmd.p2, cmd.data) {
      ch := Refused(0x6F, 0x00);
    } else if r.Some? {
      ch := Chosen(r.value.0, r.value.1);
      FoundExactly(k.ds, c.va, cmd.p1, cmd.p2, cmd.data, r.value.0, r.value.1);
    } else {
      ch := Refused(0x6A, 0x82);
      forall t, f
        ensures !Means(k.ds, c.va, cmd.p1, cmd.p2, cmd.data, t, f)
      {
        FoundExactly(k.ds, c.va, cmd.p1, cmd.p2, cmd.data, t, f);
      }
    }
  }

  // ----- After a reset -----

  // The last file with the ID of the MF is selected on a cleared validity area, if there is one.
  lemma ResetSelects(k: Mount, c: Card)
    requires Good(k, c)
    ensures var o := Select(k.ds, NOTHING, ById(k.ds, MF_ID));
      && (o.ret == Success <==> exists t, f :: ByIdIs(k.ds, 0x3F00, t, f))
      && (forall t, f :: ByIdIs(k.ds, 0x3F00, t, f) ==> Made(k.ds, NOTHING, o.va, t, f))
      && (o.ret != Success ==> o.va == NOTHING)
  {
    ForestIsGood(k.ds, c.bufs);
    ByIdFound(k.ds, 0x3F00);
    var r := ById(k.ds, 0x3F00);
    forall t: nat, f
      ensures ById(k.ds, 0x3F00) == Some((t, f)) <==> ByIdIs(k.ds, 0x3F00, t, f)
    {
      ByIdExactly(k.ds, 0x3F00, t, f);
    }
    if r.Some? {
      SelectedMade(k.ds, NOTHING, r.value.0, r.value.1);
      assert ByIdIs(k.ds, 0x3F00, r.value.0, r.value.1);
    }
  }
}
