// The state machine with the built-in command handlers: what a terminal sees of the whole card.
module CardMachine {
  import opened Bytes
  import opened Memory
  import opened FsFormat
  import opened Lut
  import opened DiskIndex
  import opened Disk
  import opened BerTlv
  import Dec = BerTlvDecoder
  import opened VaSpec
  import opened FileSys
  import opened ApduRc
  import opened Apdu
  import opened Fci
  import opened ApduhSpec
  import opened Apduh
  import opened CardLaws
  import opened RecordLaws
  import opened ResponseLaws
  import opened FsmSpec
  import opened FsmLaws
  import opened FeedLaws

  // The built-in handlers on a consistent card; `junk` is what is in a new response buffer.
  ghost function Answered(k: Mount, c: Card, cmd: Cmd, pc: nat, junk: bytes): Handled<Card>
    requires |junk| == DATA_MAX
  {
    if !Good(k, c) then Handled(false, c, Res(0, 0, 0, junk))
    else
      AnswersSend(k, c, cmd, pc, junk);
      var r := Demux(k.ds, c, cmd, pc, junk);
      Handled(true, r.card, r.res)
  }

  // `swicc_reset` on everything but the state machine.
  ghost function Restarted(k: Mount, c: Card): (bool, Card) {
    var o := Select(k.ds, NOTHING, ById(k.ds, MF_ID));
    (o.ret == Success, if o.ret == Success then c.(va := o.va, rc := EMPTY) else c.(va := o.va))
  }

  ghost function BuiltIn(k: Mount, atr: bytes, junk: bytes): Machine<Card>
    requires |junk| == DATA_MAX
  {
    Machine(atr, (c, cmd, pc) => Answered(k, c, cmd, pc, junk), c => Restarted(k, c))
  }

  // ----- Every run -----

  lemma RestartKeeps(k: Mount, c: Card)
    requires Good(k, c)
    ensures Good(k, Restarted(k, c).1)
  {
    ForestIsGood(k.ds, c.bufs);
    ByIdFound(k.ds, MF_ID);
    SelectOk(k.ds, NOTHING, ById(k.ds, MF_ID));
  }

  // A call that hands a straying SELECT to the handlers.
  ghost predicate StepStrays(k: Mount, f: Fsm, c: Card, x: Input)
    requires |c.bufs| == |k.ds|
  {
    f.st == CmdProcedure && x.cont == READY && Strays(k.ds, c, f.cmd, f.procs)
  }

  lemma StepKeeps(k: Mount, atr: bytes, junk: bytes, f: Fsm, c: Card, x: Input)
    requires Good(k, c) && |junk| == DATA_MAX && !StepStrays(k, f, c, x)
    ensures Good(k, Step(BuiltIn(k, atr, junk), f, c, x.cont, x.rx, x.cap).s)
  {
    RestartKeeps(k, c);
    StepState(BuiltIn(k, atr, junk), f, c, x);
    if f.st == CmdProcedure && x.cont == READY {
      CommandKeeps(k, c, f.cmd, f.procs, junk);
      assert Good(k, Answered(k, c, f.cmd, f.procs, junk).s);
    }
  }

  // What a call can do to the rest of the card.
  lemma StepState<S>(m: Machine<S>, f: Fsm, s: S, x: Input)
    ensures var t := Step(m, f, s, x.cont, x.rx, x.cap).s;
      && (f.st != ResetWarm && !(f.st == CmdProcedure && x.cont == READY) ==> t == s)
      && (f.st == CmdProcedure && x.cont == READY ==> t == m.handle(s, f.cmd, f.procs).s)
      && (f.st == ResetWarm ==> t == m.reset(s).1)
  {}

  // One call breaks the card exactly when it hands on a SELECT that strays to bytes the code
  // gives a meaning.
  lemma StepKeepsExactly(k: Mount, atr: bytes, junk: bytes, f: Fsm, c: Card, x: Input)
    requires Good(k, c) && |junk| == DATA_MAX && (f.cmd.ins == 0xA4 ==> CmdDefined(k.ds, c, f.cmd))
    ensures Good(k, Step(BuiltIn(k, atr, junk), f, c, x.cont, x.rx, x.cap).s) <==> !StepStrays(k, f, c, x)
  {
    if StepStrays(k, f, c, x) {
      StepState(BuiltIn(k, atr, junk), f, c, x);
      CommandKeepsExactly(k, c, f.cmd, f.procs, junk);
      assert !Good(k, Answered(k, c, f.cmd, f.procs, junk).s);
    } else {
      StepKeeps(k, atr, junk, f, c, x);
    }
  }

  // No call of a run does.
  ghost predicate RunStays(k: Mount, m: Machine<Card>, n: Next<Card>, ins: seq<Input>)
    decreases |ins|
  {
    ins == [] ||
    (|n.s.bufs| == |k.ds| && !StepStrays(k, n.f, n.s, ins[0])
     && RunStays(k, m, Step(m, n.f, n.s, ins[0].cont, ins[0].rx, ins[0].cap), ins[1..]))
  }

  // Whatever else the interface does, the disk stays mounted and what is selected consistent.
  lemma {:induction false} RunKeeps(k: Mount, atr: bytes, junk: bytes, n: Next<Card>, ins: seq<Input>)
    requires Good(k, n.s) && |junk| == DATA_MAX && RunStays(k, BuiltIn(k, atr, junk), n, ins)
    ensures Good(k, RunAll(BuiltIn(k, atr, junk), n, ins).s)
    decreases |ins|
  {
    if ins != [] {
      StepKeeps(k, atr, junk, n.f, n.s, ins[0]);
      RunKeeps(k, atr, junk, Step(BuiltIn(k, atr, junk), n.f, n.s, ins[0].cont, ins[0].rx, ins[0].cap), ins[1..]);
    }
  }

  // ----- One command -----

  // Room for any answer.
  const ROOM: nat := DATA_MAX + 2

  // Ready for a command of which nothing was received.
  predicate Idle(f: Fsm) { f.st == CmdWait && Bounded(f) && (f.processed || (f.hdr == [] && f.procs == 0)) }

  // A command as a terminal sends it: the header in pieces, then the data if it is asked for.
  function Exchanged<S>(m: Machine<S>, f: Fsm, s: S, chunks: seq<bytes>, data: bytes): Next<S>
    requires chunks != []
  {
    var a := FeedWait(f, s, chunks);
    var b := StepProcedure(m, a.f, a.s, READY, [], ROOM);
    if b.f.st != CmdData then b
    else
      var c := StepData(b.f, b.s, READY, data);
      StepProcedure(m, c.f, c.s, READY, [], ROOM)
  }

  // The pieces of a header: nothing is sent before or after it.
  predicate Splits(chunks: seq<bytes>, h: bytes) {
    |h| == 5 && chunks != [] && Flat(chunks) == h && |Flat(chunks[..|chunks| - 1])| < 5
  }

  // Asking for data changes neither the disk nor what is selected.
  lemma AckKeeps(k: Mount, c: Card, cmd: Cmd, pc: nat, b: bytes)
    requires Good(k, c)
    ensures var r := Demux(k.ds, c, cmd, pc, b); r.res.Acks() ==> r.card.va == c.va && r.card.bufs == c.bufs
  {
    if ClaParse(cmd.cla).typ == Interindustry && cmd.ins == 0xA4 {
      SelectAsks(k.ds, c.(rc := EMPTY), cmd, pc, b);
    }
  }

  lemma SelectAsks(ds: seq<Dir>, c: Card, cmd: Cmd, pc: nat, b: bytes)
    requires |c.bufs| == |ds|
    ensures var r := SelectCmd(ds, c, cmd, pc, b); r.res.Acks() ==> r.card == c
  {}

  // What a command does to the card, and what is answered in the end.
  ghost function Served(k: Mount, c: Card, h: bytes, data: bytes, junk: bytes): (r: Reply)
    requires Good(k, c) && |h| == 5 && |junk| == DATA_MAX && !Strays(k.ds, c, HdrCmd(h).(data := data), 1)
    ensures Good(k, r.card)
  {
    var cmd := HdrCmd(h);
    CommandKeeps(k, c, cmd, 0, junk);
    AckKeeps(k, c, cmd, 0, junk);
    var r := Demux(k.ds, c, cmd, 0, junk);
    if !r.res.Acks() then r
    else
      CommandKeeps(k, r.card, cmd.(data := data), 1, junk);
      Demux(k.ds, r.card, cmd.(data := data), 1, junk)
  }

  lemma HeaderTaken(f: Fsm, c: Card, chunks: seq<bytes>, h: bytes)
    requires Idle(f) && Splits(chunks, h)
    ensures var a := FeedWait(f, c, chunks);
      a.s == c && a.f.st == CmdProcedure && a.f.cmd == HdrCmd(h) && a.f.procs == 0 && Bounded(a.f)
  {
    HeaderInPieces(f, c, chunks);
    assert [] + h == h;
  }

  // One call of the handlers, sent as it is.
  lemma Asks(k: Mount, atr: bytes, junk: bytes, f: Fsm, c: Card)
    requires Good(k, c) && |junk| == DATA_MAX && Bounded(f) && f.procs <= 1
    ensures var r := Demux(k.ds, c, f.cmd, f.procs, junk);
      var n := StepProcedure(BuiltIn(k, atr, junk), f, c, READY, [], ROOM);
      && r.res.Ok() && n.s == r.card && n.tx == Wire(f.cmd.ins, r.res)
      && (if r.res.Acks() then f.procs == 0 && n.f == f.(st := CmdData, procs := 1) && n.ask == r.res.len
          else n.f == Done(f))
  {
    AnswersSend(k, c, f.cmd, f.procs, junk);
  }

  // However the header is split up, the card answers the command in at most three calls after
  // it: it asks for data once at most, and what it sends in the end is the answer of the
  // handlers to header and data.
  lemma CommandServed(k: Mount, atr: bytes, junk: bytes, f: Fsm, c: Card, chunks: seq<bytes>, h: bytes, data: bytes)
    requires Good(k, c) && |junk| == DATA_MAX && Idle(f) && Splits(chunks, h) && |data| <= DATA_MAX
    requires !Strays(k.ds, c, HdrCmd(h).(data := data), 1)
    ensures var n, r := Exchanged(BuiltIn(k, atr, junk), f, c, chunks, data), Served(k, c, h, data, junk);
      n.s == r.card && r.res.Ok() && n.tx == Wire(h[1], r.res) && Idle(n.f)
  {
    HeaderTaken(f, c, chunks, h);
    var m := BuiltIn(k, atr, junk);
    var a := FeedWait(f, c, chunks);
    Asks(k, atr, junk, a.f, c);
    var b := StepProcedure(m, a.f, c, READY, [], ROOM);
    var r := Demux(k.ds, c, a.f.cmd, 0, junk);
    if r.res.Acks() {
      CommandKeeps(k, c, a.f.cmd, 0, junk);
      AckKeeps(k, c, a.f.cmd, 0, junk);
      DataTaken(b.f, b.s, h, data);
      var d := StepData(b.f, b.s, READY, data);
      Asks(k, atr, junk, d.f, d.s);
    }
  }

  lemma DataTaken(f: Fsm, c: Card, h: bytes, data: bytes)
    requires |h| == 5 && f.cmd == HdrCmd(h) && Bounded(f) && |data| <= DATA_MAX
    ensures var d := StepData(f, c, READY, data);
      d.s == c && Bounded(d.f) && d.f.procs == f.procs && d.f.cmd == HdrCmd(h).(data := data)
  {
    assert [] + data == data;
  }

  // ----- What was written is what is read -----

  // An UPDATE RECORD that is answered with success, then a READ RECORD with the same P1, P2
  // and length, sent in whatever pieces: the terminal gets back the bytes it sent.
  lemma WrittenIsRead(k: Mount, atr: bytes, junk: bytes, f: Fsm, c: Card,
                      up: seq<bytes>, h: bytes, data: bytes, re: seq<bytes>, g: bytes)
    requires Good(k, c) && |junk| == DATA_MAX && Idle(f) && Splits(up, h) && Splits(re, g) && |data| <= DATA_MAX
    requires Does(HdrCmd(h), 0xDC) && Does(HdrCmd(g), 0xB2) && g[2..] == h[2..]
    requires Exchanged(BuiltIn(k, atr, junk), f, c, up, data).tx == [0x90, 0]
    ensures var n := Exchanged(BuiltIn(k, atr, junk), f, c, up, data);
      Exchanged(BuiltIn(k, atr, junk), n.f, n.s, re, []).tx == data + [0x90, 0]
  {
    var m := BuiltIn(k, atr, junk);
    var n := Exchanged(m, f, c, up, data);
    CommandServed(k, atr, junk, f, c, up, h, data);
    UpdateServed(k, c, h, data, junk);
    CommandServed(k, atr, junk, n.f, n.s, re, g, []);
    assert g[2] == h[2] && g[3] == h[3] && g[4] == h[4] by {
      assert g[2..][0] == h[2..][0] && g[2..][1] == h[2..][1] && g[2..][2] == h[2..][2];
    }
    ReadServed(k, c, h, data, g, junk);
  }

  lemma UpdateServed(k: Mount, c: Card, h: bytes, data: bytes, junk: bytes)
    requires Good(k, c) && |h| == 5 && |junk| == DATA_MAX && Does(HdrCmd(h), 0xDC)
    requires Served(k, c, h, data, junk).res.Ok() && Wire(h[1], Served(k, c, h, data, junk).res) == [0x90, 0]
    ensures Good(k, c.(rc := EMPTY))
    ensures var r := Demux(k.ds, c.(rc := EMPTY), HdrCmd(h).(data := data), 1, junk);
      Served(k, c, h, data, junk) == r
          && Updates(k.ds, c.va, HdrCmd(h).(data := data), 1, RcrdTarget(k.ds, c.va, h[2], h[3]))
  {
    var r := Served(k, c, h, data, junk).res;
    assert !Sends1(r.sw1) ==> Wire(h[1], r)[|Wire(h[1], r)| - 2] == r.sw1;
    AllOrNothing(k, c, HdrCmd(h), 0, junk);
    AskedOnly(k, c, h, junk);
    UpdateSucceeds(k, c.(rc := EMPTY), HdrCmd(h).(data := data), 1, junk);
  }

  // The first call of UPDATE RECORD or READ RECORD leaves all but the chaining buffer alone.
  lemma AskedOnly(k: Mount, c: Card, h: bytes, junk: bytes)
    requires Good(k, c) && |h| == 5 && |junk| == DATA_MAX && (Does(HdrCmd(h), 0xDC) || Does(HdrCmd(h), 0xB2))
    ensures Demux(k.ds, c, HdrCmd(h), 0, junk).card == c.(rc := EMPTY)
  {}

  lemma ReadServed(k: Mount, c: Card, h: bytes, data: bytes, g: bytes, junk: bytes)
    requires Good(k, c) && |h| == 5 && |g| == 5 && |junk| == DATA_MAX
    requires Does(HdrCmd(h), 0xDC) && Does(HdrCmd(g), 0xB2) && g[2] == h[2] && g[3] == h[3] && g[4] == h[4]
    requires Good(k, c.(rc := EMPTY))
        && Served(k, c, h, data, junk) == Demux(k.ds, c.(rc := EMPTY), HdrCmd(h).(data := data), 1, junk)
    requires Updates(k.ds, c.va, HdrCmd(h).(data := data), 1, RcrdTarget(k.ds, c.va, h[2], h[3]))
    ensures var r := Served(k, Served(k, c, h, data, junk).card, g, [], junk).res;
      r.Ok() ==> Wire(g[1], r) == data + [0x90, 0]
  {
    var d := Served(k, c, h, data, junk).card;
    AskedOnly(k, d, g, junk);
    UpdateSucceeds(k, c.(rc := EMPTY), HdrCmd(h).(data := data), 1, junk);
    assert d.rc == EMPTY;
    assert d.(rc := EMPTY) == d;
    assert HdrCmd(g).(data := []) == HdrCmd(g);
    assert Demux(k.ds, d, HdrCmd(g), 0, junk).res == Ack(0, junk);
    UpdateThenRead(k, c.(rc := EMPTY), HdrCmd(h).(data := data), 1, junk, HdrCmd(g), junk);
  }

  // ----- Data in pieces -----

  // The data of a SELECT or UPDATE RECORD has to come in one piece, because only one is asked
  // for: a first piece of another length is refused and changes nothing, and a whole one is
  // never refused for its length.
  lemma DataWhole(k: Mount, c: Card, cmd: Cmd, junk: bytes)
    requires Good(k, c) && |junk| == DATA_MAX && (Does(cmd, 0xA4) || Does(cmd, 0xDC))
    requires Demux(k.ds, c, cmd.(data := []), 0, junk).res.Acks()
    ensures var want, r := Demux(k.ds, c, cmd.(data := []), 0, junk).res.len, Demux(k.ds, c, cmd, 1, junk);
      && (r.res.sw1 == 0x67 <==> |cmd.data| != want)
      && (r.res.sw1 == 0x67 ==> r.res.sw2 == 0x02 && r.card == c.(rc := EMPTY))
  {
    if cmd.ins == 0xA4 {
      SelectWhole(k, c.(rc := EMPTY), cmd, junk);
    } else {
      UpdateWanted(k, c.(rc := EMPTY), cmd, junk);
    }
  }

  // Exactly data of another length is refused, and nothing is changed then.
  ghost predicate RefusedFor(r: Reply, c: Card, data: bytes, want: nat) {
    && (r.res.sw1 == 0x67 <==> |data| != want)
    && (r.res.sw1 == 0x67 ==> r.res.sw2 == 0x02 && r.card == c)
  }

  lemma UpdateWanted(k: Mount, c: Card, cmd: Cmd, junk: bytes)
    requires Good(k, c) && UpdateRecord(k.ds, c, cmd.(data := []), 0, junk).res.Acks()
    ensures RefusedFor(UpdateRecord(k.ds, c, cmd, 1, junk), c, cmd.data,
                       UpdateRecord(k.ds, c, cmd.(data := []), 0, junk).res.len)
  {}

  lemma SelectWhole(k: Mount, c: Card, cmd: Cmd, junk: bytes)
    requires Good(k, c) && c.rc == EMPTY && |junk| == DATA_MAX
    requires SelectCmd(k.ds, c, cmd.(data := []), 0, junk).res.Acks()
    ensures RefusedFor(SelectCmd(k.ds, c, cmd, 1, junk), c, cmd.data,
                       SelectCmd(k.ds, c, cmd.(data := []), 0, junk).res.len)
  {
    var o, p := Selection(k.ds, c, cmd), Selection(k.ds, c, cmd.(data := []));
    SelectStatus(c.(va := o.va), o.ret, RequestOf(cmd.p2), junk);
    SelectStatus(c.(va := p.va), p.ret, RequestOf(cmd.p2), junk);
  }

  lemma SelectStatus(c: Card, ret: Ret, req: Request, b: bytes)
    ensures var r := SelectReply(c, ret, req, b).res; r.sw1 != 0x67 && !r.Acks()
  {}

  // ----- SELECT and GET RESPONSE -----

  // What a terminal reads in front of the status.
  function DataIn(tx: bytes): bytes { if |tx| < 2 then [] else tx[..|tx| - 2] }

  // The commands of a terminal that fetches, each header in its pieces, and what it reads.
  function WireFetched<S>(m: Machine<S>, f: Fsm, s: S, gets: seq<seq<bytes>>): (bytes, Next<S>)
    requires forall i :: 0 <= i < |gets| ==> gets[i] != []
    decreases |gets|
  {
    if gets == [] then ([], Quiet(f, s))
    else
      var n := Exchanged(m, f, s, gets[0], []);
      var (rest, end) := WireFetched(m, n.f, n.s, gets[1..]);
      (DataIn(n.tx) + rest, end)
  }

  // The headers of GET RESPONSE commands, whatever their parameters, and their pieces.
  predicate SplitGets(gets: seq<seq<bytes>>, hs: seq<bytes>) {
    |gets| == |hs| && forall i :: 0 <= i < |hs| ==> Splits(gets[i], hs[i]) && Gets(HdrCmd(hs[i]))
  }

  function CallsOf(hs: seq<bytes>, junk: bytes): (r: seq<Call>)
    requires forall i :: 0 <= i < |hs| ==> |hs[i]| == 5
    ensures |r| == |hs| && forall i :: 0 <= i < |hs| ==> r[i] == Call(HdrCmd(hs[i]), 1, junk)
  {
    seq(|hs|, i requires 0 <= i < |hs| => Call(HdrCmd(hs[i]), 1, junk))
  }

  lemma GetServed(k: Mount, c: Card, h: bytes, junk: bytes)
    requires Good(k, c) && |h| == 5 && Gets(HdrCmd(h)) && |junk| == DATA_MAX
    ensures var r := Served(k, c, h, [], junk);
      && r == Demux(k.ds, c, HdrCmd(h), 1, junk) && r.res.Ok() && DataIn(Wire(h[1], r.res)) == Handed(r.res)
  {
    AnswersSend(k, c, HdrCmd(h), 1, junk);
    var r := Demux(k.ds, c, HdrCmd(h), 1, junk).res;
    Parts(r.b[..r.len], [r.sw1, r.sw2]);
    assert HdrCmd(h).(data := []) == HdrCmd(h);
  }

  // Over the wire it is fetched as by the handlers.
  lemma {:induction false} WireFetches(k: Mount, atr: bytes, junk: bytes, f: Fsm, c: Card, gets: seq<seq<bytes>>,
      hs: seq<bytes>)
    requires Good(k, c) && |junk| == DATA_MAX && Idle(f) && SplitGets(gets, hs)
    ensures AllGet(CallsOf(hs, junk))
    ensures var (got, end) := WireFetched(BuiltIn(k, atr, junk), f, c, gets);
      (got, end.s) == Fetched(k, c, CallsOf(hs, junk)) && Idle(end.f)
    decreases |gets|
  {
    if gets != [] {
      var m, x := BuiltIn(k, atr, junk), CallsOf(hs, junk)[0];
      CommandServed(k, atr, junk, f, c, gets[0], hs[0], []);
      GetServed(k, c, hs[0], junk);
      var n := Exchanged(m, f, c, gets[0], []);
      WireFetches(k, atr, junk, n.f, n.s, gets[1..], hs[1..]);
      assert CallsOf(hs, junk)[1..] == CallsOf(hs[1..], junk);
    }
  }

  // A SELECT that announces a template, then GET RESPONSE commands in whatever pieces and with
  // whatever parameters: the terminal reads a beginning of the template of the file selected,
  // and all of it once nothing is left.
  lemma SelectedIsFetched(k: Mount, atr: bytes, junk: bytes, f: Fsm, c: Card,
                          sel: seq<bytes>, h: bytes, data: bytes, gets: seq<seq<bytes>>, hs: seq<bytes>)
    requires Good(k, c) && |junk| == DATA_MAX && Idle(f) && Splits(sel, h) && SplitGets(gets, hs) && |data| <= DATA_MAX
    requires Announces(k, c, HdrCmd(h).(data := data), 1) && data != [] && !Strays(k.ds, c, HdrCmd(h).(data := data), 1)
    ensures var m := BuiltIn(k, atr, junk);
      var n := Exchanged(m, f, c, sel, data);
      var (got, end) := WireFetched(m, n.f, n.s, gets);
      Told(n, RequestOf(h[3]), got, end.s.rc)
  {
    SelectSent(k, atr, junk, f, c, sel, h, data);
    var n := Exchanged(BuiltIn(k, atr, junk), f, c, sel, data);
    QueueFetched(k, atr, junk, n, Served(k, c, h, data, junk), RequestOf(h[3]), gets, hs);
  }

  // The card waits for commands, with the template of the current file announced and queued.
  ghost predicate Queued(k: Mount, n: Next<Card>, r: Reply, req: Request) {
    && Good(k, n.s) && Idle(n.f) && n.s == r.card && n.tx == [r.res.sw1, r.res.sw2]
    && r.card.va.file.Some? && Tells(r, r.card.va.file.value, req)
  }

  lemma SelectSent(k: Mount, atr: bytes, junk: bytes, f: Fsm, c: Card, sel: seq<bytes>, h: bytes, data: bytes)
    requires Good(k, c) && |junk| == DATA_MAX && Idle(f) && Splits(sel, h) && |data| <= DATA_MAX
    requires Announces(k, c, HdrCmd(h).(data := data), 1) && data != [] && !Strays(k.ds, c, HdrCmd(h).(data := data), 1)
    ensures Queued(k, Exchanged(BuiltIn(k, atr, junk), f, c, sel, data), Served(k, c, h, data, junk), RequestOf(h[3]))
  {
    CommandServed(k, atr, junk, f, c, sel, h, data);
    SelectServed(k, c, h, data, junk);
  }

  lemma QueueFetched(k: Mount, atr: bytes, junk: bytes, n: Next<Card>, r: Reply, req: Request, gets: seq<seq<bytes>>,
      hs: seq<bytes>)
    requires Queued(k, n, r, req) && |junk| == DATA_MAX && SplitGets(gets, hs)
    ensures var (got, end) := WireFetched(BuiltIn(k, atr, junk), n.f, n.s, gets); Told(n, req, got, end.s.rc)
  {
    TemplateFetched(k, atr, junk, n.f, n.s, n.s.va.file.value, req, gets, hs);
  }

  // A SELECT was answered with the length of the template of the current file, and that was read.
  ghost predicate Told(n: Next<Card>, req: Request, got: bytes, rc: Queue) {
    && req != Absent && n.s.va.file.Some?
    && var f := n.s.va.file.value;
       && Selectable(f) && Describable(f)
       && |n.tx| == 2 && n.tx[0] == 0x61 && n.tx[1] as nat == |Encode(Template(f, Descr(f), req))|
       && ReadOf(got, rc, Template(f, Descr(f), req))
  }

  // The template `t` was read so far, or whole.
  ghost predicate ReadOf(got: bytes, rc: Queue, t: Tlv) {
    rc.Ok() && got + rc.Left() == Encode(t) && (rc.Left() == [] ==> Dec.Walk(got) == Some([t]))
  }

  lemma TemplateFetched(k: Mount, atr: bytes, junk: bytes, f: Fsm, d: Card, g: File, req: Request,
      gets: seq<seq<bytes>>, hs: seq<bytes>)
    requires Good(k, d) && |junk| == DATA_MAX && Idle(f) && SplitGets(gets, hs)
    requires Selectable(g) && Describable(g) && req != Absent && d.rc == Queue(Encode(Template(g, Descr(g), req)), 0)
    ensures var (got, end) := WireFetched(BuiltIn(k, atr, junk), f, d, gets);
      ReadOf(got, end.s.rc, Template(g, Descr(g), req))
  {
    WireFetches(k, atr, junk, f, d, gets, hs);
    FetchedTemplate(k, d, g, req, CallsOf(hs, junk));
  }

  lemma SelectServed(k: Mount, c: Card, h: bytes, data: bytes, junk: bytes)
    requires Good(k, c) && |h| == 5 && |junk| == DATA_MAX && !Strays(k.ds, c, HdrCmd(h).(data := data), 1)
    requires Announces(k, c, HdrCmd(h).(data := data), 1) && data != []
    ensures var r := Served(k, c, h, data, junk);
      && r.card.va.file.Some? && Tells(r, r.card.va.file.value, RequestOf(h[3]))
      && r.res.Ok() && Wire(h[1], r.res) == [r.res.sw1, r.res.sw2]
  {
    ServedTwice(k, c, h, data, junk);
    SelectQueues(k, c.(rc := EMPTY), HdrCmd(h).(data := data), 1, junk);
    AnnouncesBarely(k, c.(rc := EMPTY), HdrCmd(h).(data := data), 1, junk);
  }

  lemma ServedTwice(k: Mount, c: Card, h: bytes, data: bytes, junk: bytes)
    requires Good(k, c) && |h| == 5 && |junk| == DATA_MAX && !Strays(k.ds, c, HdrCmd(h).(data := data), 1)
    requires Does(HdrCmd(h), 0xA4) && data != [] && SelectRefused(HdrCmd(h).(data := data), 1).None?
    ensures Served(k, c, h, data, junk) == Demux(k.ds, c.(rc := EMPTY), HdrCmd(h).(data := data), 1, junk)
  {
    AskedFirst(k, c, h, data, junk);
  }

  lemma AnnouncesBarely(k: Mount, c: Card, cmd: Cmd, pc: nat, junk: bytes)
    requires Announces(k, c, cmd, pc) && pc > 0 && |junk| == DATA_MAX
    ensures var r := Demux(k.ds, c, cmd, pc, junk).res;
      r.Ok() && r.len == 0 && (!Sends1(r.sw1) ==> Wire(cmd.ins, r) == [r.sw1, r.sw2])
  {
    AnswersSend(k, c, cmd, pc, junk);
    NoData(k.ds, c.(rc := EMPTY), cmd, pc, junk);
  }

  lemma AskedFirst(k: Mount, c: Card, h: bytes, data: bytes, junk: bytes)
    requires Good(k, c) && |h| == 5 && Does(HdrCmd(h), 0xA4) && data != []
    requires SelectRefused(HdrCmd(h).(data := data), 1).None?
    ensures Demux(k.ds, c, HdrCmd(h), 0, junk) == Reply(c.(rc := EMPTY), Ack(h[4], junk))
  {}

  lemma NoData(ds: seq<Dir>, c: Card, cmd: Cmd, pc: nat, b: bytes)
    requires |c.bufs| == |ds| && SelectRefused(cmd, pc).None?
    ensures SelectCmd(ds, c, cmd, pc, b).res.len == 0
  {}

  // ----- An interface that sends what it is asked for -----

  // The answer was sent, the next header is asked for, and `rest` was not taken.
  ghost predicate Replied(t: (Next<Card>, bytes), ins: byte, r: Reply, rest: bytes) {
    && r.res.Ok() && t.0.tx == Wire(ins, r.res) && t.0.s == r.card && t.0.ask == 5
    && Idle(t.0.f) && Asked(t.0) && t.1 == rest
  }

  // The calls lead to `a` with `rest` still to send, or to an answer with `left` still to send.
  ghost predicate Reaches(m: Machine<Card>, n: Next<Card>, bs: bytes, calls: nat, a: Next<Card>, rest: bytes) {
    Fed(m, n, bs, ROOM, calls) == (a, rest)
  }

  ghost predicate EndsWith(m: Machine<Card>, n: Next<Card>, bs: bytes, calls: nat, r: Reply, ins: byte, left: bytes) {
    exists t :: t == Fed(m, n, bs, ROOM, calls) && Replied(t, ins, r, left)
  }

  // The last call of a command.
  lemma LastCall(k: Mount, atr: bytes, junk: bytes, n: Next<Card>, rest: bytes, r: Reply)
    requires Good(k, n.s) && |junk| == DATA_MAX && n.f.st == CmdProcedure
    requires Bounded(n.f) && n.f.procs <= 1 && n.ask == 0
    requires r == Demux(k.ds, n.s, n.f.cmd, n.f.procs, junk) && !r.res.Acks()
    ensures EndsWith(BuiltIn(k, atr, junk), n, rest, 1, r, n.f.cmd.ins, rest)
  {
    HandleIs(k, atr, junk, n.s, n.f.cmd, n.f.procs, r);
    AnswersSend(k, n.s, n.f.cmd, n.f.procs, junk);
    LastReaches(BuiltIn(k, atr, junk), n, rest, r);
  }

  lemma LastReaches(m: Machine<Card>, n: Next<Card>, rest: bytes, r: Reply)
    requires n.f.st == CmdProcedure && n.ask == 0 && Bounded(n.f)
    requires r.res.Ok() && m.handle(n.s, n.f.cmd, n.f.procs) == Handled(true, r.card, r.res)
    requires DeparseRet(ROOM, r.res) == Success && !r.res.Acks()
    ensures EndsWith(m, n, rest, 1, r, n.f.cmd.ins, rest)
  {
    assert rest[..0] == [] && rest[0..] == rest;
    FedLast(m, n, rest, ROOM);
    AnswerAsks(m, n.f, n.s, [], ROOM);
    StepBounded(m, n.f, n.s, READY, [], ROOM);
    var t := (Step(m, n.f, n.s, READY, [], ROOM), rest);
    assert Replied(t, n.f.cmd.ins, r, rest);
  }

  lemma HandleIs(k: Mount, atr: bytes, junk: bytes, c: Card, cmd: Cmd, pc: nat, r: Reply)
    requires Good(k, c) && |junk| == DATA_MAX && r == Demux(k.ds, c, cmd, pc, junk)
    ensures r.res.Ok() && BuiltIn(k, atr, junk).handle(c, cmd, pc) == Handled(true, r.card, r.res)
  {
    AnswersSend(k, c, cmd, pc, junk);
  }

  // The data that is asked for after a header: the next bytes, as many as the procedure says.
  ghost function DataAsked(k: Mount, c: Card, h: bytes, junk: bytes): nat
    requires Good(k, c) && |h| == 5
  {
    var r := Demux(k.ds, c, HdrCmd(h), 0, junk).res; if r.Acks() then r.len else 0
  }

  // A header was received, and `rest` comes after it.
  ghost predicate AfterHeader(k: Mount, n: Next<Card>, h: bytes, rest: bytes, junk: bytes) {
    && Good(k, n.s) && |junk| == DATA_MAX && |h| == 5 && n.f.st == CmdProcedure && Bounded(n.f)
    && n.ask == 0 && n.f.procs == 0 && n.f.cmd == HdrCmd(h) && |rest| >= DataAsked(k, n.s, h, junk)
    && !Strays(k.ds, n.s, HdrCmd(h).(data := rest[..DataAsked(k, n.s, h, junk)]), 1)
  }

  // The data that was asked for is handed on.
  lemma DataCalls(k: Mount, atr: bytes, junk: bytes, n: Next<Card>, h: bytes, rest: bytes, r: Reply)
    returns (a: Next<Card>)
    requires AfterHeader(k, n, h, rest, junk) && r == Demux(k.ds, n.s, HdrCmd(h), 0, junk) && r.res.Acks()
    ensures r.res.Ok() && Good(k, r.card) && r.card.va == n.s.va && r.card.bufs == n.s.bufs && r.res.len <= |rest|
    ensures a == HandedOn(n.f, r, rest) && Reaches(BuiltIn(k, atr, junk), n, rest, 2, a, rest[r.res.len..])
  {
    AsksKeep(k, n.s, h, junk, r);
    HandleIs(k, atr, junk, n.s, HdrCmd(h), 0, r);
    a := DataReaches(BuiltIn(k, atr, junk), n, rest, r);
  }

  function HandedOn(f: Fsm, r: Reply, rest: bytes): Next<Card>
    requires r.res.len <= |rest|
  {
    Next(f.(procs := f.procs + 1, processed := true, cmd := f.cmd.(data := rest[..r.res.len])), r.card, 0, [])
  }

  lemma DataReaches(m: Machine<Card>, n: Next<Card>, rest: bytes, r: Reply) returns (a: Next<Card>)
    requires n.f.st == CmdProcedure && n.ask == 0 && n.f.procs == 0 && n.f.cmd.data == []
    requires r.res.Ok() && m.handle(n.s, n.f.cmd, n.f.procs) == Handled(true, r.card, r.res)
    requires DeparseRet(ROOM, r.res) == Success && r.res.Acks() && r.res.len <= |rest|
    ensures a == HandedOn(n.f, r, rest) && Reaches(m, n, rest, 2, a, rest[r.res.len..])
  {
    a := DataFed(m, n, rest, ROOM, Handled(true, r.card, r.res));
  }

  lemma AsksKeep(k: Mount, c: Card, h: bytes, junk: bytes, r: Reply)
    requires Good(k, c) && |h| == 5 && |junk| == DATA_MAX && r == Demux(k.ds, c, HdrCmd(h), 0, junk) && r.res.Acks()
    ensures r.res.Ok() && DeparseRet(ROOM, r.res) == Success
    ensures Good(k, r.card) && r.card.va == c.va && r.card.bufs == c.bufs
  {
    AnswersSend(k, c, HdrCmd(h), 0, junk);
    CommandKeeps(k, c, HdrCmd(h), 0, junk);
    AckKeeps(k, c, HdrCmd(h), 0, junk);
  }

  lemma ServedIs(k: Mount, c: Card, h: bytes, data: bytes, junk: bytes, r: Reply)
    requires Good(k, c) && |h| == 5 && |junk| == DATA_MAX && !Strays(k.ds, c, HdrCmd(h).(data := data), 1)
    requires r == Demux(k.ds, c, HdrCmd(h), 0, junk)
    ensures !r.res.Acks() ==> Served(k, c, h, data, junk) == r
    ensures r.res.Acks() ==>
      Good(k, r.card) && Served(k, c, h, data, junk) == Demux(k.ds, r.card, HdrCmd(h).(data := data), 1, junk)
  {
    CommandKeeps(k, c, HdrCmd(h), 0, junk);
  }

  lemma AnsweredFed(k: Mount, atr: bytes, junk: bytes, n: Next<Card>, h: bytes, rest: bytes)
    returns (calls: nat, w: Reply)
    requires AfterHeader(k, n, h, rest, junk)
    ensures 1 <= calls <= 3 && w == Served(k, n.s, h, rest[..DataAsked(k, n.s, h, junk)], junk)
    ensures EndsWith(BuiltIn(k, atr, junk), n, rest, calls, w, h[1], rest[DataAsked(k, n.s, h, junk)..])
  {
    var r := Demux(k.ds, n.s, HdrCmd(h), 0, junk);
    var l := DataAsked(k, n.s, h, junk);
    w := Served(k, n.s, h, rest[..l], junk);
    ServedIs(k, n.s, h, rest[..l], junk, r);
    if r.res.Acks() {
      assert l == r.res.len;
      calls := AnsweredLater(k, atr, junk, n, h, rest, r, w);
    } else {
      calls := AnsweredAtOnce(k, atr, junk, n, h, rest, r, l);
    }
  }

  lemma AnsweredAtOnce(k: Mount, atr: bytes, junk: bytes, n: Next<Card>, h: bytes, rest: bytes, r: Reply, l: nat)
    returns (calls: nat)
    requires AfterHeader(k, n, h, rest, junk) && r == Demux(k.ds, n.s, HdrCmd(h), 0, junk) && !r.res.Acks() && l == 0
    ensures calls == 1 && EndsWith(BuiltIn(k, atr, junk), n, rest, calls, r, h[1], rest[l..])
  {
    calls := 1;
    assert rest[l..] == rest;
    LastCall(k, atr, junk, n, rest, r);
  }

  lemma AnsweredLater(k: Mount, atr: bytes, junk: bytes, n: Next<Card>, h: bytes, rest: bytes, r: Reply, w: Reply)
    returns (calls: nat)
    requires AfterHeader(k, n, h, rest, junk) && r == Demux(k.ds, n.s, HdrCmd(h), 0, junk) && r.res.Acks()
    requires Good(k, r.card) && r.res.len <= |rest|
    requires w == Demux(k.ds, r.card, HdrCmd(h).(data := rest[..r.res.len]), 1, junk)
    ensures calls == 3 && EndsWith(BuiltIn(k, atr, junk), n, rest, calls, w, h[1], rest[r.res.len..])
  {
    var a := DataCalls(k, atr, junk, n, h, rest, r);
    calls := LastOfThree(k, atr, junk, n, rest, a, rest[r.res.len..], w);
  }

  lemma LastOfThree(k: Mount, atr: bytes, junk: bytes, n: Next<Card>, rest: bytes, a: Next<Card>, left: bytes, w: Reply)
    returns (calls: nat)
    requires Good(k, a.s) && |junk| == DATA_MAX && a.f.st == CmdProcedure && Bounded(a.f)
    requires a.f.procs == 1 && a.ask == 0
    requires Reaches(BuiltIn(k, atr, junk), n, rest, 2, a, left) && w == Demux(k.ds, a.s, a.f.cmd, 1, junk)
    ensures calls == 3 && EndsWith(BuiltIn(k, atr, junk), n, rest, calls, w, a.f.cmd.ins, left)
  {
    AnswersSend(k, a.s, a.f.cmd, 1, junk);
    LastCall(k, atr, junk, a, left, w);
    calls := Joined(BuiltIn(k, atr, junk), n, rest, a, left, 2, 1, w, a.f.cmd.ins, left);
  }

  // A whole command is on its way: a header and the data that will be asked for.
  ghost predicate Coming(k: Mount, n: Next<Card>, bs: bytes, junk: bytes) {
    && Good(k, n.s) && |junk| == DATA_MAX && Idle(n.f) && Asked(n) && |bs| >= 5
    && var l := DataAsked(k, n.s, bs[..5], junk);
       |bs[5..]| >= l && !Strays(k.ds, n.s, HdrCmd(bs[..5]).(data := bs[5..][..l]), 1)
  }

  lemma HeaderComes(k: Mount, atr: bytes, junk: bytes, n: Next<Card>, bs: bytes) returns (a: Next<Card>)
    requires Coming(k, n, bs, junk)
    ensures Reaches(BuiltIn(k, atr, junk), n, bs, CallsTo(n), a, bs[5..])
    ensures a.s == n.s && AfterHeader(k, a, bs[..5], bs[5..], junk)
  {
    HeaderFed(BuiltIn(k, atr, junk), n, bs, ROOM);
    FedBounded(BuiltIn(k, atr, junk), n, bs, ROOM, CallsTo(n));
    assert [] + bs[..5] == bs[..5];
    a := Fed(BuiltIn(k, atr, junk), n, bs, ROOM, CallsTo(n)).0;
  }

  // What the handlers answer to it, and what comes after it.
  ghost function AnswerTo(k: Mount, n: Next<Card>, bs: bytes, junk: bytes): (Reply, bytes)
    requires Coming(k, n, bs, junk)
  {
    var l := DataAsked(k, n.s, bs[..5], junk);
    (Served(k, n.s, bs[..5], bs[5..][..l], junk), bs[5..][l..])
  }

  lemma AnswerComes(k: Mount, atr: bytes, junk: bytes, n: Next<Card>, bs: bytes, a: Next<Card>)
    returns (calls: nat, w: (Reply, bytes))
    requires Coming(k, n, bs, junk) && a.s == n.s && AfterHeader(k, a, bs[..5], bs[5..], junk)
    ensures 1 <= calls <= 3 && w == AnswerTo(k, n, bs, junk)
    ensures EndsWith(BuiltIn(k, atr, junk), a, bs[5..], calls, w.0, bs[1], w.1)
  {
    w := AnswerTo(k, n, bs, junk);
    var r;
    calls, r := AnsweredFed(k, atr, junk, a, bs[..5], bs[5..]);
  }

  // After at most five calls the card has sent the handlers' answer to header and data, taken no
  // byte of the next command, and asks for that.
  lemma CommandFed(k: Mount, atr: bytes, junk: bytes, n: Next<Card>, bs: bytes)
    returns (calls: nat, w: (Reply, bytes))
    requires Coming(k, n, bs, junk)
    ensures 2 <= calls <= 5 && w == AnswerTo(k, n, bs, junk)
    ensures EndsWith(BuiltIn(k, atr, junk), n, bs, calls, w.0, bs[1], w.1)
  {
    var a := HeaderComes(k, atr, junk, n, bs);
    calls, w := AnswerComes(k, atr, junk, n, bs, a);
    calls := Joined(BuiltIn(k, atr, junk), n, bs, a, bs[5..], CallsTo(n), calls, w.0, bs[1], w.1);
  }

  lemma Joined(m: Machine<Card>, n: Next<Card>, bs: bytes, a: Next<Card>, rest: bytes, i: nat, j: nat,
               r: Reply, ins: byte, left: bytes) returns (calls: nat)
    requires Reaches(m, n, bs, i, a, rest) && EndsWith(m, a, rest, j, r, ins, left)
    ensures calls == i + j && EndsWith(m, n, bs, calls, r, ins, left)
  {
    calls := i + j;
    FedMore(m, n, bs, ROOM, i, j);
  }
}
