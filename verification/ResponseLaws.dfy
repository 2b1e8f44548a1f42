// What SELECT answers, and how the answer is fetched: in consecutive pieces, completely, and
// not after another command.
module ResponseLaws {
  import opened Bytes
  import opened Memory
  import opened BerTlv
  import Dec = BerTlvDecoder
  import opened FsFormat
  import opened Lut
  import opened DiskIndex
  import opened Disk
  import opened VaSpec
  import opened PathBytes
  import opened FileSys
  import opened ApduRc
  import opened Apdu
  import opened Fci
  import opened ApduhSpec
  import opened Apduh
  import opened CardLaws
  import opened RecordLaws

  // ----- SELECT -----

  // The selection a SELECT command makes, if it gets that far.
  function Selection(ds: seq<Dir>, c: Card, cmd: Cmd): Outcome
    requires |c.bufs| == |ds|
  {
    SelectBy(ds, c.bufs, c.va, cmd.p1, cmd.p2, cmd.data)
  }

  // A SELECT whose selection the code gives a meaning; off the tree as well as on it.
  ghost predicate Meaningful(k: Mount, c: Card, cmd: Cmd) {
    Good(k, c) && Supported(cmd.p1) && CmdDefined(k.ds, c, cmd)
  }

  lemma SelectionSelectable(k: Mount, c: Card, cmd: Cmd)
    requires Meaningful(k, c, cmd) && Selection(k.ds, c, cmd).ret == Success
    ensures var va := Selection(k.ds, c, cmd).va;
      va.file.Some? && (RequestOf(cmd.p2) != Absent ==> Selectable(va.file.value))
  {
    var va := Selection(k.ds, c, cmd).va;
    SelectedSomething(k.ds, c.bufs, c.va, cmd.p1, cmd.p2, cmd.data);
    if !PathCmd(cmd.p1, cmd.p2, cmd.data) {
      SelectByOk(k, c, cmd.p1, cmd.p2, cmd.data);
      FileInside(k.ds, c.bufs, k.sids, k.ids, va.tree.value, va.file.value);
    }
  }

  // On the tree it always has one.
  lemma StaysMeaningful(k: Mount, c: Card, cmd: Cmd, pc: nat)
    requires Good(k, c) && Does(cmd, 0xA4) && SelectRefused(cmd, pc).None? && !Strays(k.ds, c, cmd, pc)
    ensures Meaningful(k, c, cmd)
  {
    if PathCmd(cmd.p1, cmd.p2, cmd.data) {
      var o := CodePath(k.ds, c.bufs, c.va, FromOf(cmd.p1), Ids(cmd.data)).value;
      PathKeepsExactly(k.ds, c.bufs, c.va, FromOf(cmd.p1), Ids(cmd.data));
      if o.ret == Success {
        FileInside(k.ds, c.bufs, k.sids, k.ids, o.va.tree.value, o.va.file.value);
      }
    }
  }

  // The template is never too long: only the number of records can be.
  lemma TellExact(c: Card, f: File, req: Request, b: bytes)
    requires c.rc == EMPTY && Selectable(f) && req != Absent && |b| == DATA_MAX
    ensures var r := TellFile(c, f, req, b);
      if Describable(f) then
        var t := Encode(Template(f, Descr(f), req));
        && r.card == c.(rc := Queue(t, 0)) && r.res.sw1 == 0x61
        && r.res.sw2 as nat == |t| <= 44 && r.res.len == 0
      else r.card == c && r.res == Unknown(b)
  {
    if Describable(f) {
      TemplateSize(f, Descr(f), req);
      var t := Encode(Template(f, Descr(f), req));
      assert [] + t == t;
    }
  }

  // Where a selection that is made leads: it is not undone when the file cannot be described,
  // which is exactly when it has more records than the descriptor can count.
  lemma SelectExact(k: Mount, c: Card, cmd: Cmd, pc: nat, b: bytes)
    requires Meaningful(k, c, cmd) && Does(cmd, 0xA4) && SelectRefused(cmd, pc).None? && |b| == DATA_MAX
    ensures var r, o, req := Demux(k.ds, c, cmd, pc, b), Selection(k.ds, c, cmd), RequestOf(cmd.p2);
      && r.card.va == o.va && r.card.bufs == c.bufs
      && (o.ret != Success ==> o.va == c.va && r.res.sw1 != 0x90 && r.res.sw1 != 0x61)
      && (o.ret == Success ==>
            && o.va.file.Some?
            && (r.res.sw1 == 0x90 <==> req == Absent)
            && (r.res.sw1 == 0x61 <==> req != Absent && RcrdCnt(o.va.file.value) <= 255)
            && (r.res.sw1 == 0x6F <==> req != Absent && RcrdCnt(o.va.file.value) > 255))
  {
    var c' := c.(rc := EMPTY);
    SelectByExactly(k, c', cmd.p1, cmd.p2, cmd.data);
    SelectReplies(k, c', cmd, b);
  }

  // The answer that announces a template.
  ghost predicate Tells(r: Reply, f: File, req: Request) {
    && req != Absent && Selectable(f) && Describable(f)
    && r.card.rc == Queue(Encode(Template(f, Descr(f), req)), 0)
    && r.res.sw1 == 0x61 && r.res.sw2 as nat == |r.card.rc.data|
  }

  lemma SelectReplies(k: Mount, c: Card, cmd: Cmd, b: bytes)
    requires Meaningful(k, c, cmd) && c.rc == EMPTY && |b| == DATA_MAX
    ensures var o, req := Selection(k.ds, c, cmd), RequestOf(cmd.p2);
      var r := SelectReply(c.(va := o.va), o.ret, req, b);
      && r.card.va == o.va && r.card.bufs == c.bufs
      && (o.ret != Success ==> r.res.sw1 != 0x90 && r.res.sw1 != 0x61 && r.card.rc == EMPTY)
      && (o.ret == Success ==>
            && o.va.file.Some?
            && (req != Absent && Describable(o.va.file.value) ==> Tells(r, o.va.file.value, req))
            && (req != Absent && !Describable(o.va.file.value) ==> r.res == Unknown(b) && r.card.rc == EMPTY)
            && (req == Absent ==> r.res == Sw(0x90, 0, b) && r.card.rc == EMPTY))
  {
    var o, req := Selection(k.ds, c, cmd), RequestOf(cmd.p2);
    if o.ret == Success {
      SelectionSelectable(k, c, cmd);
      if req != Absent {
        TellExact(c.(va := o.va), o.va.file.value, req, b);
      }
    }
  }

  predicate NotFound(res: Res) { res.sw1 == 0x6A && res.sw2 == 0x82 }

  // The outcome of a selection by `id`: not found exactly when no file has it; else that file,
  // or the last of several, is the current one.
  ghost predicate ByIdOnly(ds: seq<Dir>, r: Reply, id: u16) {
    var last := LastId(FilesOfAll(ds), |ds|, id);
    && (NotFound(r.res) <==> id == 0 || NoId(FilesOfAll(ds), |ds|, id))
    && (NotFound(r.res) <==> last == None)
    && (last != None ==>
          && r.card.va.tree == Some(last.value.0) && r.card.va.file == Some(last.value.1)
          && last.value.1 in FilesOfAll(ds)[last.value.0] && last.value.1.id == id)
  }

  // SELECT by file identifier.
  lemma SelectIdExact(k: Mount, c: Card, cmd: Cmd, b: bytes)
    requires Good(k, c) && Does(cmd, 0xA4) && cmd.p1 == 0 && cmd.p2 / 16 == 0 && |b| == DATA_MAX
    requires |cmd.data| == 2 && cmd.p3 == 2
    ensures ByIdOnly(k.ds, Demux(k.ds, c, cmd, 1, b), 256 * cmd.data[0] as int + cmd.data[1] as int)
  {
    SelectIdReply(k, c.(rc := EMPTY), cmd, b);
  }

  lemma SelectIdReply(k: Mount, c: Card, cmd: Cmd, b: bytes)
    requires Good(k, c) && c.rc == EMPTY && cmd.p1 == 0 && cmd.p2 / 16 == 0 && |b| == DATA_MAX
    requires |cmd.data| == 2 && cmd.p3 == 2
    ensures ByIdOnly(k.ds, SelectCmd(k.ds, c, cmd, 1, b), 256 * cmd.data[0] as int + cmd.data[1] as int)
  {
    ByIdReply(k, c, cmd, b, 256 * cmd.data[0] as int + cmd.data[1] as int);
    assert SelectRefused(cmd, 1) == None;
  }

  lemma ByIdReply(k: Mount, c: Card, cmd: Cmd, b: bytes, id: u16)
    requires Meaningful(k, c, cmd) && c.rc == EMPTY && |b| == DATA_MAX
    requires Selection(k.ds, c, cmd) == Select(k.ds, c.va, ById(k.ds, id))
    ensures var o := Selection(k.ds, c, cmd);
      ByIdOnly(k.ds, SelectReply(c.(va := o.va), o.ret, RequestOf(cmd.p2), b), id)
  {
    LastIdSound(FilesOfAll(k.ds), |k.ds|, id);
    SelectReplies(k, c, cmd, b);
    NotFoundOnly(k, c, cmd, b);
  }

  lemma NotFoundOnly(k: Mount, c: Card, cmd: Cmd, b: bytes)
    requires Meaningful(k, c, cmd) && c.rc == EMPTY && |b| == DATA_MAX
    ensures var o := Selection(k.ds, c, cmd);
      NotFound(SelectReply(c.(va := o.va), o.ret, RequestOf(cmd.p2), b).res) <==> o.ret == FsNotFound
  {
    SelectReplies(k, c, cmd, b);
  }

  // A SELECT that finds a file and can describe it as requested.
  ghost predicate Announces(k: Mount, c: Card, cmd: Cmd, pc: nat) {
    && Meaningful(k, c, cmd) && Does(cmd, 0xA4) && SelectRefused(cmd, pc).None?
    && RequestOf(cmd.p2) != Absent && Selection(k.ds, c, cmd).ret == Success
    && Selection(k.ds, c, cmd).va.file.Some? && Describable(Selection(k.ds, c, cmd).va.file.value)
  }

  // What can be fetched after it is the template of the file that is now current.
  lemma SelectQueues(k: Mount, c: Card, cmd: Cmd, pc: nat, b: bytes)
    requires Announces(k, c, cmd, pc) && |b| == DATA_MAX
    ensures var r := Demux(k.ds, c, cmd, pc, b);
      && r.card.va == Selection(k.ds, c, cmd).va && r.card.va.file.Some?
      && Tells(r, r.card.va.file.value, RequestOf(cmd.p2))
  {
    SelectReplies(k, c.(rc := EMPTY), cmd, b);
  }

  // ----- GET RESPONSE -----

  predicate Gets(cmd: Cmd) { Does(cmd, 0xC0) }

  // One that asks for data as it should.
  predicate Fetch(cmd: Cmd) { Gets(cmd) && cmd.p1 == 0 && cmd.p2 == 0 && cmd.p3 > 0 && cmd.data == [] }

  // The data an answer hands out; a procedure byte hands out none.
  function Handed(res: Res): bytes { if Sends1(res.sw1) then [] else Slice(res.b, 0, res.len) }

  // One piece: the next bytes and how many are left after them, or nothing at all when more
  // is asked for than there is.
  lemma FetchExact(k: Mount, c: Card, cmd: Cmd, pc: nat, b: bytes)
    requires Good(k, c) && Fetch(cmd) && pc > 0 && |b| == DATA_MAX
    ensures var r, left := Demux(k.ds, c, cmd, pc, b), c.rc.Left();
      if cmd.p3 as nat <= |left| then
        && r.card == c.(rc := c.rc.(taken := c.rc.taken + cmd.p3 as nat))
        && Handed(r.res) == left[..cmd.p3] && r.card.rc.Left() == left[cmd.p3..]
        && (r.res.sw1, r.res.sw2) ==
             if |left| == cmd.p3 as nat then (0x90, 0) else (0x61, |left| - cmd.p3 as nat)
      else r.card == c && r.res == Sw(0x62, 0x82, b)
  {
    if cmd.p3 as nat <= |c.rc.Left()| {
      SpliceReads(b, 0, c.rc.Left()[..cmd.p3]);
    }
  }

  // Any other GET RESPONSE, whatever its parameters, hands out nothing and changes nothing.
  lemma NoFetch(k: Mount, c: Card, cmd: Cmd, pc: nat, b: bytes)
    requires Good(k, c) && Gets(cmd) && !(Fetch(cmd) && pc > 0)
    ensures var r := Demux(k.ds, c, cmd, pc, b);
      && r.card == c && r.res.len == 0 && Handed(r.res) == []
      && (r.res.sw1, r.res.sw2) ==
           (if pc == 0 then (0xFF, 0x00)
            else if cmd.data != [] then (0x67, 0x01)
            else if cmd.p1 != 0 || cmd.p2 != 0 then (0x6A, 0x86)
            else (0x90, 0x00))
      && (r.res.sw1 == 0x90 <==> pc > 0 && cmd.data == [] && cmd.p1 == 0 && cmd.p2 == 0 && cmd.p3 == 0)
      && r.res.sw1 != 0x61
  {}

  // Of any GET RESPONSE: what is handed out and what is left are what was left before, and a
  // status that announces bytes announces exactly what is left.
  lemma GetExact(k: Mount, c: Card, cmd: Cmd, pc: nat, b: bytes)
    requires Good(k, c) && Gets(cmd) && |b| == DATA_MAX
    ensures var r := Demux(k.ds, c, cmd, pc, b);
      && r.card.rc.Ok() && r.card == c.(rc := r.card.rc) && r.card.rc.data == c.rc.data
      && Handed(r.res) + r.card.rc.Left() == c.rc.Left()
      && (r.res.sw1 == 0x61 ==> r.res.sw2 as nat == |r.card.rc.Left()| > 0)
  {
    Pieces(c.rc.Left(), cmd.p3);
    if Fetch(cmd) && pc > 0 {
      FetchExact(k, c, cmd, pc, b);
    } else {
      NoFetch(k, c, cmd, pc, b);
    }
  }

  // 9000 is answered when exactly everything was fetched, and when nothing was asked for; so it
  // tells that nothing is left exactly when something was asked for or nothing was there.
  lemma NormalTells(k: Mount, c: Card, cmd: Cmd, pc: nat, b: bytes)
    requires Good(k, c) && Gets(cmd) && |b| == DATA_MAX
    ensures var r := Demux(k.ds, c, cmd, pc, b);
      && (r.res.sw1 == 0x90 <==>
            pc > 0 && cmd.data == [] && cmd.p1 == 0 && cmd.p2 == 0 && (cmd.p3 == 0 || cmd.p3 as nat == |c.rc.Left()|))
      && r.card.rc.Ok()
      && (r.res.sw1 == 0x90 ==> (r.card.rc.Left() == [] <==> cmd.p3 > 0 || c.rc.Left() == []))
  {
    if Fetch(cmd) && pc > 0 {
      FetchExact(k, c, cmd, pc, b);
    } else {
      NoFetch(k, c, cmd, pc, b);
    }
  }

  // What a run of them returns, piece after piece, and what it leaves.
  ghost function Fetched(k: Mount, c: Card, calls: seq<Call>): (r: (bytes, Card))
    requires Good(k, c) && AllGet(calls)
    ensures Good(k, r.1)
    decreases |calls|
  {
    if calls == [] then ([], c)
    else
      CommandKeeps(k, c, calls[0].cmd, calls[0].pc, calls[0].b);
      var d := Demux(k.ds, c, calls[0].cmd, calls[0].pc, calls[0].b);
      var (rest, end) := Fetched(k, d.card, calls[1..]);
      (Handed(d.res) + rest, end)
  }

  predicate AllGet(calls: seq<Call>) {
    forall i :: 0 <= i < |calls| ==> Gets(calls[i].cmd) && |calls[i].b| == DATA_MAX
  }

  // The pieces follow each other: with what is left they make up what there was.
  lemma {:induction false} FetchedAll(k: Mount, c: Card, calls: seq<Call>)
    requires Good(k, c) && AllGet(calls)
    ensures var (got, end) := Fetched(k, c, calls);
      && end == c.(rc := end.rc) && end.rc.data == c.rc.data && got + end.rc.Left() == c.rc.Left()
    decreases |calls|
  {
    if calls == [] {
      Pieces(c.rc.Left(), 0);
    } else {
      var x := calls[0];
      CommandKeeps(k, c, x.cmd, x.pc, x.b);
      var d := Demux(k.ds, c, x.cmd, x.pc, x.b);
      GetExact(k, c, x.cmd, x.pc, x.b);
      FetchedAll(k, d.card, calls[1..]);
      var (rest, end) := Fetched(k, d.card, calls[1..]);
      Assoc(Handed(d.res), rest, end.rc.Left());
    }
  }

  lemma Pieces(s: bytes, n: nat)
    ensures n <= |s| ==> s[..n] + s[n..] == s
    ensures [] + s == s
  {}

  // SELECT and any GET RESPONSE commands after it, whatever their parameters: what was fetched
  // is a beginning of the template, and once nothing is left it is all of it, which the decoder
  // reads back.
  lemma SelectThenFetch(k: Mount, c: Card, cmd: Cmd, pc: nat, b: bytes, calls: seq<Call>)
    requires Announces(k, c, cmd, pc) && !Strays(k.ds, c, cmd, pc) && |b| == DATA_MAX && AllGet(calls)
    ensures var d := Demux(k.ds, c, cmd, pc, b).card;
      && Good(k, d) && d.va.file.Some? && Selectable(d.va.file.value) && Describable(d.va.file.value)
      && var (got, end) := Fetched(k, d, calls);
         var t := Template(d.va.file.value, Descr(d.va.file.value), RequestOf(cmd.p2));
         && got <= Encode(t) && got + end.rc.Left() == Encode(t)
         && (end.rc.Left() == [] ==> Dec.Walk(got) == Some([t]))
  {
    CommandKeeps(k, c, cmd, pc, b);
    SelectQueues(k, c, cmd, pc, b);
    var d := Demux(k.ds, c, cmd, pc, b).card;
    FetchedTemplate(k, d, d.va.file.value, RequestOf(cmd.p2), calls);
  }

  lemma FetchedTemplate(k: Mount, d: Card, f: File, req: Request, calls: seq<Call>)
    requires Good(k, d) && AllGet(calls)
    requires Selectable(f) && Describable(f) && req != Absent && d.rc == Queue(Encode(Template(f, Descr(f), req)), 0)
    ensures var (got, end) := Fetched(k, d, calls);
      && got <= Encode(Template(f, Descr(f), req)) && got + end.rc.Left() == Encode(Template(f, Descr(f), req))
      && (end.rc.Left() == [] ==> Dec.Walk(got) == Some([Template(f, Descr(f), req)]))
  {
    var t := Encode(Template(f, Descr(f), req));
    FetchedAll(k, d, calls);
    var (got, end) := Fetched(k, d, calls);
    assert d.rc.Left() == t && got + end.rc.Left() == t;
    TemplateReadBack(f, Descr(f), req);
    if end.rc.Left() == [] {
      assert got + [] == got;
    }
  }

  // ----- Resuming -----

  // How many bytes can be fetched after a command that is no GET RESPONSE: those it announces,
  // or else none, except that commands of other classes leave what there was.
  function Resumable(c: Card, cmd: Cmd, res: Res): nat
    requires c.rc.Ok()
  {
    if ClaParse(cmd.cla).typ != Interindustry then |c.rc.Left()|
    else if res.sw1 == 0x61 then res.sw2
    else 0
  }

  lemma LeftAfter(k: Mount, c: Card, cmd: Cmd, pc: nat, b: bytes)
    requires Good(k, c) && !Gets(cmd) && !Strays(k.ds, c, cmd, pc) && |b| == DATA_MAX
    ensures var r := Demux(k.ds, c, cmd, pc, b);
      && r.card.rc.Ok() && |r.card.rc.Left()| == Resumable(c, cmd, r.res)
      && (ClaParse(cmd.cla).typ != Interindustry ==> r.card == c)
  {
    CommandKeeps(k, c, cmd, pc, b);
    if ClaParse(cmd.cla).typ == Interindustry {
      if cmd.ins == 0xA4 {
        SelectLeaves(k, c, cmd, pc, b);
      } else {
        OthersLeave(k, c.(rc := EMPTY), cmd, pc, b);
      }
    }
  }

  lemma SelectLeaves(k: Mount, c: Card, cmd: Cmd, pc: nat, b: bytes)
    requires Good(k, c) && Does(cmd, 0xA4) && !Strays(k.ds, c, cmd, pc) && |b| == DATA_MAX
    ensures var r := SelectCmd(k.ds, c.(rc := EMPTY), cmd, pc, b);
      && r.card.rc.taken == 0
      && |r.card.rc.data| == (if r.res.sw1 == 0x61 then r.res.sw2 as nat else 0)
  {
    if SelectRefused(cmd, pc).None? {
      StaysMeaningful(k, c, cmd, pc);
      SelectReplies(k, c.(rc := EMPTY), cmd, b);
    }
  }

  lemma OthersLeave(k: Mount, c: Card, cmd: Cmd, pc: nat, b: bytes)
    requires Good(k, c) && cmd.ins != 0xA4
    ensures Leaves(c, Handle(k.ds, c, cmd, pc, b))
  {
    if cmd.ins <= 0xB1 {
      BinaryLeaves(k, c, cmd, pc, b);
    } else if cmd.ins <= 0xB3 {
      RcrdLeaves(k, c, cmd, pc, b);
    } else {
      UpdateLeaves(k, c, cmd, pc, b);
    }
  }

  predicate Leaves(c: Card, r: Reply) { r.card.rc == c.rc && r.res.sw1 != 0x61 }

  lemma BinaryLeaves(k: Mount, c: Card, cmd: Cmd, pc: nat, b: bytes)
    requires Good(k, c)
    ensures Leaves(c, ReadBinary(k.ds, c, cmd, pc, b))
  {}

  lemma RcrdLeaves(k: Mount, c: Card, cmd: Cmd, pc: nat, b: bytes)
    requires Good(k, c)
    ensures Leaves(c, ReadRecord(k.ds, c, cmd, pc, b))
  {}

  lemma UpdateLeaves(k: Mount, c: Card, cmd: Cmd, pc: nat, b: bytes)
    requires Good(k, c)
    ensures Leaves(c, UpdateRecord(k.ds, c, cmd, pc, b))
  {}

  // A fetch right after a command fails, changing nothing, exactly when it asks for more.
  lemma ResumeExactly(k: Mount, c: Card, cmd: Cmd, pc: nat, b: bytes, get: Cmd, b': bytes)
    requires Good(k, c) && !Gets(cmd) && !Strays(k.ds, c, cmd, pc) && Fetch(get) && |b| == DATA_MAX && |b'| == DATA_MAX
    ensures var r := Demux(k.ds, c, cmd, pc, b);
      && Good(k, r.card)
      && (Demux(k.ds, r.card, get, 1, b') == Reply(r.card, Sw(0x62, 0x82, b')) <==>
            get.p3 as nat > Resumable(c, cmd, r.res))
  {
    CommandKeeps(k, c, cmd, pc, b);
    LeftAfter(k, c, cmd, pc, b);
    FetchExact(k, Demux(k.ds, c, cmd, pc, b).card, get, 1, b');
  }

  // After any other interindustry command, unless it is a SELECT that announces a response,
  // nothing can be fetched, and trying changes nothing.
  lemma NothingToResume(k: Mount, c: Card, cmd: Cmd, pc: nat, b: bytes, get: Cmd, b': bytes)
    requires Good(k, c) && ClaParse(cmd.cla).typ == Interindustry && cmd.ins != 0xC0 && !Strays(k.ds, c, cmd, pc)
    requires Fetch(get) && |b| == DATA_MAX && |b'| == DATA_MAX
    ensures var r := Demux(k.ds, c, cmd, pc, b);
      && Good(k, r.card)
      && (r.res.sw1 != 0x61 ==>
            Demux(k.ds, r.card, get, 1, b') == Reply(r.card, Sw(0x62, 0x82, b')))
  {
    ResumeExactly(k, c, cmd, pc, b, get, b');
  }

  // ----- Every answer can be sent -----

  // An answer that can be sent in 258 bytes, and that does not ask for more data again.
  predicate Fine(res: Res, pc: nat) {
    res.Ok() && DeparseRet(DATA_MAX + 2, res) == Success && (pc > 0 ==> !Sends1(res.sw1))
  }

  // Every built-in answer can be sent, and once data was asked for none asks again.
  lemma AnswersSend(k: Mount, c: Card, cmd: Cmd, pc: nat, b: bytes)
    requires Good(k, c) && |b| == DATA_MAX
    ensures var r := Demux(k.ds, c, cmd, pc, b).res;
      r.Ok() && DeparseRet(DATA_MAX + 2, r) == Success && (pc > 0 ==> !Sends1(r.sw1))
  {
    HandleSends(k.ds, c.(rc := EMPTY), cmd, pc, b);
    FetchSends(c, cmd, pc, b);
  }

  lemma HandleSends(ds: seq<Dir>, c: Card, cmd: Cmd, pc: nat, b: bytes)
    requires CardOk(ds, c) && |b| == DATA_MAX
    ensures Fine(Handle(ds, c, cmd, pc, b).res, pc)
  {
    if cmd.ins == 0xA4 {
      SelectSends(ds, c, cmd, pc, b);
    } else if cmd.ins <= 0xB1 {
      BinarySends(ds, c, cmd, pc, b);
    } else if cmd.ins <= 0xB3 {
      RcrdSends(ds, c, cmd, pc, b);
    } else {
      UpdateSends(ds, c, cmd, pc, b);
    }
  }

  lemma SelectSends(ds: seq<Dir>, c: Card, cmd: Cmd, pc: nat, b: bytes)
    requires |c.bufs| == |ds| && |b| == DATA_MAX
    ensures Fine(SelectCmd(ds, c, cmd, pc, b).res, pc)
  {}

  lemma BinarySends(ds: seq<Dir>, c: Card, cmd: Cmd, pc: nat, b: bytes)
    requires CardOk(ds, c) && |b| == DATA_MAX
    ensures Fine(ReadBinary(ds, c, cmd, pc, b).res, pc)
  {}

  lemma RcrdSends(ds: seq<Dir>, c: Card, cmd: Cmd, pc: nat, b: bytes)
    requires CardOk(ds, c) && |b| == DATA_MAX
    ensures Fine(ReadRecord(ds, c, cmd, pc, b).res, pc)
  {}

  lemma UpdateSends(ds: seq<Dir>, c: Card, cmd: Cmd, pc: nat, b: bytes)
    requires CardOk(ds, c) && |b| == DATA_MAX
    ensures Fine(UpdateRecord(ds, c, cmd, pc, b).res, pc)
  {}

  lemma FetchSends(c: Card, cmd: Cmd, pc: nat, b: bytes)
    requires c.rc.Ok() && |b| == DATA_MAX
    ensures Fine(GetResponse(c, cmd, pc, b).res, pc)
  {}
}
