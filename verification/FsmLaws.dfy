// What holds of the state machine for any handler: bounds in every run, bytes put together
// the same way however they arrive, and commands that always come to an end.
module FsmLaws {
  import opened Bytes
  import opened ApduRc
  import opened Apdu
  import opened Pps
  import opened FsmSpec

  // ----- Runs -----

  // What a call of the card gets.
  datatype Input = Input(cont: nat, rx: bytes, cap: nat)

  function RunAll<S>(m: Machine<S>, n: Next<S>, ins: seq<Input>): Next<S>
    decreases |ins|
  {
    if ins == [] then n else RunAll(m, Step(m, n.f, n.s, ins[0].cont, ins[0].rx, ins[0].cap), ins[1..])
  }

  // No more is received than was asked for.
  predicate Obeys<S>(m: Machine<S>, n: Next<S>, ins: seq<Input>)
    decreases |ins|
  {
    ins == [] ||
    (|ins[0].rx| <= n.ask && Obeys(m, Step(m, n.f, n.s, ins[0].cont, ins[0].rx, ins[0].cap), ins[1..]))
  }

  // ----- Bounds -----

  // How much the card holds in its fixed-size fields.
  predicate Bounded(f: Fsm) {
    |f.pps| <= PPS_LEN_MAX && |f.hdr| <= 5 && f.procs <= MAX_PROCS && |f.cmd.data| <= DATA_MAX
  }

  // Whatever is received, in any state, the fields keep their bounds; and what is sent fits,
  // except where a status word is sent with no room for it or a PPS response with room for
  // all but its check byte.
  lemma StepBounded<S>(m: Machine<S>, f: Fsm, s: S, cont: nat, rx: bytes, cap: nat)
    requires Bounded(f)
    ensures var n := Step(m, f, s, cont, rx, cap);
      && Bounded(n.f)
      && (|n.tx| > cap ==>
            || (f.st == CmdProcedure && cap < 2 && n.tx == [CHER_UNK, 0])
            || (f.st == PpsReq && |n.tx| == cap + 1))
  {
    if f.st == PpsReq && |f.pps + rx| <= PPS_LEN_MAX {
      ExchangeRoom(f.pps + rx, cap);
    }
    if f.st == CmdProcedure {
      var x := m.handle(s, f.cmd, f.procs);
      AnswerRoom(f, x.s, x.res, |rx|, cap);
    }
  }

  lemma ExchangeRoom(rx: bytes, cap: nat)
    ensures |Exchange(rx, DEFAULTS, cap).1| <= cap + 1
  {}

  lemma AnswerRoom<S>(f: Fsm, s: S, res: Answer, rxLen: nat, cap: nat)
    ensures var n := StepAnswer(f, s, res, rxLen, cap);
      |n.tx| <= cap || (cap < 2 && n.tx == [CHER_UNK, 0])
  {}

  lemma {:induction false} RunBounded<S>(m: Machine<S>, n: Next<S>, ins: seq<Input>)
    requires Bounded(n.f)
    ensures Bounded(RunAll(m, n, ins).f)
    decreases |ins|
  {
    if ins != [] {
      StepBounded(m, n.f, n.s, ins[0].cont, ins[0].rx, ins[0].cap);
      RunBounded(m, Step(m, n.f, n.s, ins[0].cont, ins[0].rx, ins[0].cap), ins[1..]);
    }
  }

  // ----- Room for what is sent -----

  // How long the response to a PPS request is without its check byte.
  function BodyLen(p: bytes): nat
    requires |p| >= 3
  {
    LenOf(p[1]) - (if Bit(p[1], 16) && p[2] == 0x11 then 2 else 1)
  }

  // A PPS request that is answered when there is room for all of the answer but its check byte.
  predicate PpsTight(p: bytes, cap: nat) {
    WellFormed(p) && |p| >= 3 && |p| >= LenOf(p[1]) && cap == BodyLen(p)
  }

  // An answer that becomes a status word for which there is no room.
  predicate StatusTight<S>(h: Handled<S>, cap: nat) {
    && h.ok
    && (cap == 0 || (cap == 1 && !(Sends1(h.res.sw1) && h.res.len == 0 && h.res.sw2 == 0)))
  }

  predicate Tight<S>(m: Machine<S>, f: Fsm, s: S, x: Input) {
    && x.cont == READY
    && ((f.st == PpsReq && PpsTight(f.pps + x.rx, x.cap))
        || (f.st == CmdProcedure && StatusTight(m.handle(s, f.cmd, f.procs), x.cap)))
  }

  lemma ExchangeFits(p: bytes, cap: nat)
    ensures WellFormed(p) ==> |p| >= 3
    ensures |Exchange(p, DEFAULTS, cap).1| > cap <==> WellFormed(p) && |p| >= 3 && cap == BodyLen(p)
  {
    ExchangeIs(p, cap);
    if WellFormed(p) {
      ThreeBytes(p);
      ProposedSize(p);
    }
  }

  // Two bytes cannot check: the first is FF and the second begins with a zero bit.
  lemma ThreeBytes(p: bytes)
    requires WellFormed(p)
    ensures |p| >= 3
  {
    CkOfTwo(p);
  }

  lemma CkOfTwo(p: bytes)
    ensures |p| == 2 ==> (Ck(p) == 0 <==> p[0] == p[1])
  {
    if |p| == 2 {
      XorZero(p[0]);
      var one := p[..1];
      assert one[..0] == [] && one[0] == p[0];
      assert Ck(one) == XorByte(Ck([]), p[0]);
      assert XorByte(0, p[0]) == Xor(0, p[0]);
      assert Ck(p) == XorByte(Ck(one), p[1]);
    }
  }

  lemma ProposedSize(p: bytes)
    requires WellFormed(p) && |p| >= 3
    ensures |Body(Proposed(p), p[1])| == BodyLen(p)
  {
    if Bit(p[1], 16) {
      assert p[2] as int == 16 * (p[2] / 16) as int + (p[2] % 16) as int;
    }
  }

  // More is sent than there is room for exactly then.
  lemma StepFitsExactly<S>(m: Machine<S>, f: Fsm, s: S, x: Input)
    ensures |Step(m, f, s, x.cont, x.rx, x.cap).tx| > x.cap <==> Tight(m, f, s, x)
  {
    if f.st == PpsReq {
      ExchangeFits(f.pps + x.rx, x.cap);
    }
    if f.st == CmdProcedure {
      var h := m.handle(s, f.cmd, f.procs);
      AnswerFits(f, h.s, h.res, |x.rx|, x.cap);
    }
  }

  lemma AnswerFits<S>(f: Fsm, s: S, res: Answer, rxLen: nat, cap: nat)
    ensures |StepAnswer(f, s, res, rxLen, cap).tx| > cap <==> StatusTight(Handled(true, s, res), cap)
  {}

  // What is sent fits in every call of a run.
  predicate Fits<S>(m: Machine<S>, n: Next<S>, ins: seq<Input>)
    decreases |ins|
  {
    ins == [] ||
    (var t := Step(m, n.f, n.s, ins[0].cont, ins[0].rx, ins[0].cap); |t.tx| <= ins[0].cap && Fits(m, t, ins[1..]))
  }

  predicate NoneTight<S>(m: Machine<S>, n: Next<S>, ins: seq<Input>)
    decreases |ins|
  {
    ins == [] ||
    (!Tight(m, n.f, n.s, ins[0])
     && NoneTight(m, Step(m, n.f, n.s, ins[0].cont, ins[0].rx, ins[0].cap), ins[1..]))
  }

  // So it does exactly in the runs without such a call.
  lemma {:induction false} RunFitsExactly<S>(m: Machine<S>, n: Next<S>, ins: seq<Input>)
    ensures Fits(m, n, ins) <==> NoneTight(m, n, ins)
    decreases |ins|
  {
    if ins != [] {
      StepFitsExactly(m, n.f, n.s, ins[0]);
      RunFitsExactly(m, Step(m, n.f, n.s, ins[0].cont, ins[0].rx, ins[0].cap), ins[1..]);
    }
  }

  // With room for any PPS response there is none.
  lemma {:induction false} RunRoomy<S>(m: Machine<S>, n: Next<S>, ins: seq<Input>)
    requires forall i :: 0 <= i < |ins| ==> ins[i].cap >= PPS_LEN_MAX
    ensures Fits(m, n, ins)
    decreases |ins|
  {
    if ins != [] {
      assert ins[0].cap >= PPS_LEN_MAX;
      StepFitsExactly(m, n.f, n.s, ins[0]);
      RunRoomy(m, Step(m, n.f, n.s, ins[0].cont, ins[0].rx, ins[0].cap), ins[1..]);
    }
  }

  // A plain 9000 with room for one byte: two are sent, and not those.
  lemma StatusOverruns<S>(f: Fsm, s: S, res: Answer)
    requires res.sw1 == NORM_NONE && res.sw2 == 0 && res.len == 0
    ensures StepAnswer(f, s, res, 0, 1).tx == [CHER_UNK, 0]
  {}

  // The shortest request, with room for two bytes: three are sent.
  lemma PpsOverruns<S>(f: Fsm, s: S)
    requires f.st == PpsReq && f.pps == [PPSS]
    ensures StepPps(f, s, READY, [0x00, 0xFF], 2).tx == [0xFF, 0x00, 0xFF]
  {
    var p := [0xFF, 0x00, 0xFF];
    assert f.pps + [0x00, 0xFF] == p;
    ShortestChecks();
    ExchangeExactly(p, 2);
  }

  lemma ShortestChecks()
    ensures Ck([0xFF, 0x00, 0xFF]) == 0 && LenOf(0x00) == 3
  {
    XorZero(0xFF);
    assert [0xFF, 0x00][..1] == [0xFF] && [0xFF, 0x00, 0xFF][..2] == [0xFF, 0x00];
    assert Ck([0xFF]) == Xor(0, 0xFF) == 0xFF && Ck([0xFF, 0x00]) == Xor(0xFF, 0x00) == 0xFF;
  }

  // ----- Asking for no more than is wanted -----

  // A PPS request that is not complete, and an interface that was asked for no more of it
  // than is missing; a header likewise.
  predicate Asked<S>(n: Next<S>) {
    && Bounded(n.f)
    && (n.f.st == PpsReq ==> n.f.pps != [] && n.f.pps[0] == PPSS && n.ask <= PpsWants(n.f.pps) && PpsWants(n.f.pps) > 0)
    && (n.f.st == CmdWait ==> n.ask <= 5 - |Fresh(n.f).hdr|)
    && (n.f.st == CmdProcedure ==> n.ask == 0)
  }

  // One call of an interface that obeys: the undefined branch is not reached.
  lemma StepAsked<S>(m: Machine<S>, n: Next<S>, x: Input)
    requires Asked(n) && |x.rx| <= n.ask
    ensures Defined(n.f, x.cont, x.rx)
    ensures Asked(Step(m, n.f, n.s, x.cont, x.rx, x.cap))
  {
    StepBounded(m, n.f, n.s, x.cont, x.rx, x.cap);
    if n.f.st == PpsReq {
      PpsNeeds(n.f.pps, x.rx);
      PpsAsked(n, x);
    } else if n.f.st == CmdProcedure {
      AnswerAsked(m, n, x);
    }
  }

  lemma PpsAsked<S>(n: Next<S>, x: Input)
    requires Asked(n) && n.f.st == PpsReq && |x.rx| <= n.ask
    requires Bounded(StepPps(n.f, n.s, x.cont, x.rx, x.cap).f)
    ensures Asked(StepPps(n.f, n.s, x.cont, x.rx, x.cap))
  {
    PpsNeeds(n.f.pps, x.rx);
    if x.cont == READY {
      WholeLeads(n.f.(pps := n.f.pps + x.rx), n.s, x.cap);
    }
  }

  lemma WholeLeads<S>(f: Fsm, s: S, cap: nat)
    requires f.st == PpsReq
    ensures var n := StepPpsWhole(f, s, cap);
      && (n.f.st.Off? || n.f.st.AtrRes? || (n.f.st.CmdWait? && n.ask == 0 && n.f.hdr == f.hdr && !n.f.processed))
  {}

  lemma AnswerAsked<S>(m: Machine<S>, n: Next<S>, x: Input)
    requires Asked(n) && n.f.st == CmdProcedure && |x.rx| <= n.ask
    requires Bounded(StepProcedure(m, n.f, n.s, x.cont, x.rx, x.cap).f)
    ensures Asked(StepProcedure(m, n.f, n.s, x.cont, x.rx, x.cap))
  {}

  lemma PpsNeeds(pps: bytes, rx: bytes)
    requires pps != [] && |rx| <= PpsWants(pps)
    ensures |pps + rx| >= 2 ==> PpsWants(pps + rx) >= 0
    ensures |pps + rx| <= PPS_LEN_MAX && (pps + rx)[0] == pps[0]
  {
    if |pps| >= 2 {
      assert (pps + rx)[1] == pps[1];
    }
  }

  // All calls of a run are defined.
  predicate RunDefined<S>(m: Machine<S>, n: Next<S>, ins: seq<Input>)
    decreases |ins|
  {
    ins == [] ||
    (Defined(n.f, ins[0].cont, ins[0].rx)
     && RunDefined(m, Step(m, n.f, n.s, ins[0].cont, ins[0].rx, ins[0].cap), ins[1..]))
  }

  // Under an interface that never sends more than was asked for, no run reaches the undefined
  // branch.
  lemma {:induction false} RunAsked<S>(m: Machine<S>, n: Next<S>, ins: seq<Input>)
    requires Asked(n) && Obeys(m, n, ins)
    ensures RunDefined(m, n, ins) && Asked(RunAll(m, n, ins))
    decreases |ins|
  {
    if ins != [] {
      StepAsked(m, n, ins[0]);
      RunAsked(m, Step(m, n.f, n.s, ins[0].cont, ins[0].rx, ins[0].cap), ins[1..]);
    }
  }

  // ----- A header in pieces -----

  function Flat(chunks: seq<bytes>): bytes {
    if chunks == [] then [] else chunks[0] + Flat(chunks[1..])
  }

  // A header that arrives in pieces.
  function FeedWait<S>(f: Fsm, s: S, chunks: seq<bytes>): Next<S>
    requires chunks != []
    decreases |chunks|
  {
    var n := StepWait(f, s, READY, chunks[0]);
    if |chunks| == 1 then n else FeedWait(n.f, n.s, chunks[1..])
  }

  lemma FlatFront(chunks: seq<bytes>)
    requires |chunks| > 1
    ensures Flat(chunks) == chunks[0] + Flat(chunks[1..])
    ensures Flat(chunks[..|chunks| - 1]) == chunks[0] + Flat(chunks[1..][..|chunks| - 2])
  {
    var front := chunks[..|chunks| - 1];
    assert front[0] == chunks[0] && front[1..] == chunks[1..][..|chunks| - 2];
  }

  // However the bytes of a header are split up, as long as it is complete at the last piece
  // at the earliest, the card ends up just as if they had come at once.
  lemma {:induction false} HeaderInPieces<S>(f: Fsm, s: S, chunks: seq<bytes>)
    requires chunks != [] && |Fresh(f).hdr| + |Flat(chunks[..|chunks| - 1])| < 5
    requires |Fresh(f).hdr| + |Flat(chunks)| <= 5
    ensures FeedWait(f, s, chunks) == StepWait(f, s, READY, Flat(chunks))
    decreases |chunks|
  {
    var c := chunks[0];
    if |chunks| == 1 {
      assert Flat(chunks) == c + Flat([]) == c;
    } else {
      var n := StepWait(f, s, READY, c);
      var h := Fresh(f).hdr;
      FlatFront(chunks);
      Assoc(h, c, Flat(chunks[1..]));
      assert n.f == Fresh(f).(hdr := h + c);
      HeaderInPieces(n.f, n.s, chunks[1..]);
    }
  }

  // The first header of a session: its first byte comes right after the answer to reset.  It
  // is kept exactly when no command was processed since the card was last reset.
  lemma FirstByte<S>(f: Fsm, s: S, b: byte, rest: bytes)
    requires b != PPSS && |rest| <= 4
    ensures var n := StepAtrRes(f, s, READY, [b]);
      && n.f.st == CmdWait
      && (if |rest| == 4 && !f.processed then StepWait(n.f, s, READY, rest).f.cmd == HdrCmd([b] + rest)
          else StepWait(n.f, s, READY, rest).f.st == CmdWait)
      && (StepWait(n.f, s, READY, rest).f.hdr == [b] + rest <==> !f.processed)
  {}

  predicate BeforeCommands(st: St) {
    st.Off? || st.Activation? || st.ResetCold? || st.AtrReq? || st.AtrRes? || st.PpsReq?
  }

  // From a reset until a command was received, nothing is left over.
  predicate Clean(f: Fsm) { BeforeCommands(f.st) ==> !f.processed && f.hdr == [] && f.procs == 0 }

  lemma PpsClean<S>(f: Fsm, s: S, cont: nat, rx: bytes, cap: nat)
    requires f.st == PpsReq
    ensures var n := StepPps(f, s, cont, rx, cap);
      && n.f.hdr == f.hdr && n.f.procs == f.procs && (n.f.processed ==> f.processed) && !n.f.st.ResetWarm?
  {}

  lemma AnswerLeads<S>(m: Machine<S>, f: Fsm, s: S, cont: nat, rx: bytes, cap: nat)
    ensures var n := StepProcedure(m, f, s, cont, rx, cap);
      if cont != READY then n.f.st == Off else n.f.st == CmdWait || n.f.st == CmdData
  {}

  // That lasts until the card falls back to being off out of a command.  A warm reset is never
  // entered.
  lemma CleanLasts<S>(m: Machine<S>, f: Fsm, s: S, cont: nat, rx: bytes, cap: nat)
    requires Clean(f) && f.st != ResetWarm
    ensures var n := Step(m, f, s, cont, rx, cap);
      n.f.st != ResetWarm && (n.f.st != Off || BeforeCommands(f.st) ==> Clean(n.f))
    ensures Clean(RESET)
  {
    if f.st == PpsReq {
      PpsClean(f, s, cont, rx, cap);
    } else if f.st == CmdProcedure {
      AnswerLeads(m, f, s, cont, rx, cap);
    }
  }

  // ----- A PPS request in pieces -----

  function FeedPps<S>(f: Fsm, s: S, chunks: seq<bytes>, cap: nat): Next<S>
    requires chunks != []
    decreases |chunks|
  {
    var n := StepPps(f, s, READY, chunks[0], cap);
    if |chunks| == 1 then n else FeedPps(n.f, n.s, chunks[1..], cap)
  }

  // Each piece is no longer than what is missing, and only the last may complete the request.
  predicate PpsPieces(pps: bytes, chunks: seq<bytes>)
    decreases |chunks|
  {
    && chunks != [] && |chunks[0]| <= PpsWants(pps)
    && (|chunks| > 1 ==> PpsWants(pps + chunks[0]) > 0 && PpsPieces(pps + chunks[0], chunks[1..]))
  }

  lemma PpsStep<S>(f: Fsm, s: S, rx: bytes, cap: nat)
    requires f.st == PpsReq && f.pps != [] && f.pps[0] == PPSS && |rx| <= PpsWants(f.pps)
    ensures StepPps(f, s, READY, rx, cap) == StepPpsMore(f.(pps := f.pps + rx), s, cap)
    ensures (f.pps + rx)[0] == PPSS && |f.pps + rx| <= PPS_LEN_MAX
    ensures PpsWants(f.pps + rx) > 0 ==>
      StepPps(f, s, READY, rx, cap) == Next(f.(pps := f.pps + rx), s, PpsWants(f.pps + rx), [])
  {
    PpsNeeds(f.pps, rx);
  }

  // However it is split up, the request is collected whole, and then answered as a whole.
  lemma {:induction false} PpsInPieces<S>(f: Fsm, s: S, chunks: seq<bytes>, cap: nat)
    requires f.st == PpsReq && f.pps != [] && f.pps[0] == PPSS && PpsPieces(f.pps, chunks)
    ensures |f.pps + Flat(chunks)| <= PPS_LEN_MAX
    ensures FeedPps(f, s, chunks, cap) == StepPpsMore(f.(pps := f.pps + Flat(chunks)), s, cap)
    decreases |chunks|
  {
    var c := chunks[0];
    PpsStep(f, s, c, cap);
    if |chunks| == 1 {
      assert Flat(chunks) == c + Flat([]) == c;
    } else {
      Assoc(f.pps, c, Flat(chunks[1..]));
      var g := f.(pps := f.pps + c);
      PpsInPieces(g, s, chunks[1..], cap);
      assert g.(pps := g.pps + Flat(chunks[1..])) == f.(pps := f.pps + Flat(chunks));
    }
  }

  // Commands can follow exactly when a whole, acceptable request was collected (its exclusive
  // or is zero) and sent back byte for byte; nothing but a whole request is answered at all.
  lemma PpsAgreed<S>(f: Fsm, s: S, rx: bytes, cap: nat)
    requires f.st == PpsReq && f.pps != [] && f.pps[0] == PPSS && |rx| <= PpsWants(f.pps)
    ensures var n, p := StepPps(f, s, READY, rx, cap), f.pps + rx;
      && (n.f.st == CmdWait <==> Acceptable(p) && |p| <= cap + 1)
      && (n.f.st == CmdWait ==> n.tx == p && Ck(p) == 0 && PpsLen(p) == Some(|p|))
      && (n.f.st == PpsReq <==> |p| < 2 || PpsWants(p) > 0)
      && (n.f.st == PpsReq ==> n.ask == PpsWants(p) && n.tx == [])
  {
    var p := f.pps + rx;
    PpsNeeds(f.pps, rx);
    ExchangeExactly(p, cap);
    ExchangeRets(p, cap);
  }

  lemma ExchangeRets(rx: bytes, cap: nat)
    ensures Exchange(rx, DEFAULTS, cap).0 in {Success, PpsFailed, PpsInvalid, BufferTooShort}
  {}

  // ----- A command comes to an end -----

  // How many calls a command can take at most from here.
  function CallsLeft(f: Fsm): nat
    requires Bounded(f)
  {
    match f.st
    case CmdProcedure => 2 * (MAX_PROCS - f.procs) + 1
    case CmdData => 2 * (MAX_PROCS - f.procs) + 2
    case _ => 0
  }

  // Each call with good contacts ends the command or brings its end nearer.
  lemma Progress<S>(m: Machine<S>, f: Fsm, s: S, rx: bytes, cap: nat)
    requires Bounded(f) && f.st in {CmdProcedure, CmdData}
    ensures var n := Step(m, f, s, READY, rx, cap);
      && Bounded(n.f)
      && (n.f.st == CmdWait || (n.f.st in {CmdProcedure, CmdData} && CallsLeft(n.f) < CallsLeft(f)))
  {
    StepBounded(m, f, s, READY, rx, cap);
  }

  predicate AllReady(ins: seq<Input>) { forall i :: 0 <= i < |ins| ==> ins[i].cont == READY }

  // Whatever the handler does and whatever is received, the card waits for a command again
  // after at most nine calls.
  lemma {:induction false} CommandEnds<S>(m: Machine<S>, n: Next<S>, ins: seq<Input>) returns (k: nat)
    requires Bounded(n.f) && n.f.st in {CmdProcedure, CmdData} && AllReady(ins) && |ins| >= CallsLeft(n.f)
    ensures 1 <= k <= CallsLeft(n.f) && k <= |ins| && RunAll(m, n, ins[..k]).f.st == CmdWait
    ensures n.f.st == CmdProcedure ==> k <= 9
    decreases CallsLeft(n.f)
  {
    var x := ins[0];
    var t := Step(m, n.f, n.s, x.cont, x.rx, x.cap);
    Progress(m, n.f, n.s, x.rx, x.cap);
    if t.f.st == CmdWait {
      k := 1;
      assert ins[..1][0] == x && ins[..1][1..] == [];
      assert RunAll(m, t, []) == t;
    } else {
      var j := CommandEnds(m, t, ins[1..]);
      k := j + 1;
      assert ins[..k][0] == x && ins[..k][1..] == ins[1..][..j];
    }
  }

  // ----- Command data in pieces -----

  // One procedure and the data received for it.
  function Round<S>(m: Machine<S>, f: Fsm, s: S, data: bytes, cap: nat): Next<S> {
    var n := StepProcedure(m, f, s, READY, [], cap);
    if n.f.st == CmdData then StepData(n.f, n.s, READY, data) else n
  }

  function Rounds<S>(m: Machine<S>, f: Fsm, s: S, chunks: seq<bytes>, cap: nat): Next<S>
    decreases |chunks|
  {
    if chunks == [] || f.st != CmdProcedure then Quiet(f, s)
    else
      var n := Round(m, f, s, chunks[0], cap);
      Rounds(m, n.f, n.s, chunks[1..], cap)
  }

  // As long as the handler keeps asking, it is called with the same header and all the data
  // so far, in order, and told how often it has asked.
  lemma {:induction false} DataInPieces<S>(m: Machine<S>, f: Fsm, s: S, chunks: seq<bytes>, cap: nat)
    requires Bounded(f) && f.st == CmdProcedure && Rounds(m, f, s, chunks, cap).f.st == CmdProcedure
    ensures var n := Rounds(m, f, s, chunks, cap);
      && n.f.cmd == f.cmd.(data := f.cmd.data + Flat(chunks))
      && n.f.procs == f.procs + |chunks| <= MAX_PROCS && n.f.hdr == f.hdr
    decreases |chunks|
  {
    if chunks == [] {
      assert f.cmd.data + [] == f.cmd.data;
    } else {
      var n := Round(m, f, s, chunks[0], cap);
      if n.f.st == CmdProcedure {
        Assoc(f.cmd.data, chunks[0], Flat(chunks[1..]));
        DataInPieces(m, n.f, n.s, chunks[1..], cap);
      }
    }
  }
}
