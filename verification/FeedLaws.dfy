// How much the card asks for, and how an interface that sends exactly that gets a session
// through: from contacts to the answer to reset, a PPS request, and commands.
module FeedLaws {
  import opened Bytes
  import opened ApduRc
  import opened Apdu
  import opened Pps
  import opened FsmSpec
  import opened FsmLaws

  // ----- Contacts -----

  // With the supply, the clock and the reset line applied one after the other the card sends its
  // answer to reset and asks for one byte.
  lemma ColdStart<S>(m: Machine<S>, s: S, caps: seq<nat>)
    requires |caps| == 4 && caps[3] >= |m.atr|
    ensures var on := [Input(0x5056, [], caps[0]), Input(0x7076, [], caps[1]), Input(0x707E, [], caps[2])];
      var n := RunAll(m, Quiet(RESET, s), on);
      && n.f == RESET.(st := AtrReq) && n.s == s
      && Step(m, n.f, n.s, 0x707E, [], caps[3]) == Next(RESET.(st := AtrRes), s, 1, m.atr)
  {
    var on := [Input(0x5056, [], caps[0]), Input(0x7076, [], caps[1]), Input(0x707E, [], caps[2])];
    var a := Quiet(RESET.(st := Activation), s);
    var b := Quiet(RESET.(st := ResetCold), s);
    assert on[1..][0] == on[1] && on[1..][1..] == on[2..] && on[2..][0] == on[2] && on[2..][1..] == [];
    assert Step(m, RESET, s, 0x5056, [], caps[0]) == a;
    assert Step(m, a.f, s, 0x7076, [], caps[1]) == b;
    assert RunAll(m, b, on[2..]) == RunAll(m, Step(m, b.f, s, 0x707E, [], caps[2]), []);
  }

  // Where other contacts lead: nothing is sent or asked for, and in a session the card is off.
  lemma OtherContacts<S>(m: Machine<S>, f: Fsm, s: S, cont: nat, rx: bytes, cap: nat)
    requires f.st != ResetWarm
    ensures var n := Step(m, f, s, cont, rx, cap);
      && (f.st == Off ==> n == Next(f.(st := if cont == 0x5056 then Activation else Off), s, 0, []))
      && (f.st == Activation ==> n == Next(f.(st := if cont == 0x7076 then ResetCold
                                                    else if cont / 2 % 4 != 0 then Activation else Off), s, 0, []))
      && (f.st == ResetCold ==> n == Next(f.(st := if cont == 0x707E then AtrReq
                                                   else if cont == 0x7076 then ResetCold else Off), s, 0, []))
      && (f.st !in {Off, Activation, ResetCold} && cont != 0x707E ==> n == Next(f.(st := Off), s, 0, []))
  {}

  // With good contacts: an answer to reset that does not fit and a first byte that is not alone
  // put the card off, and so do more bytes than a PPS request can have.
  lemma SessionEnds<S>(m: Machine<S>, f: Fsm, s: S, rx: bytes, cap: nat)
    ensures var n := Step(m, f, s, 0x707E, rx, cap);
      && (f.st == AtrReq ==>
            n == if cap >= |m.atr| then Next(f.(st := AtrRes), s, 1, m.atr) else Next(f.(st := Off), s, 0, []))
      && (f.st == AtrRes && |rx| != 1 ==> n == Next(f.(st := Off), s, 0, []))
      && (f.st == AtrRes && |rx| == 1 ==>
            n == Next(if rx[0] == 0xFF then f.(st := PpsReq, pps := rx) else f.(st := CmdWait, hdr := rx), s, 0, []))
      && (f.st == PpsReq && |f.pps| + |rx| > 6 ==> n == Next(f.(st := Off), s, 0, []))
  {}

  // Data goes behind what was received of it; more than 256 bytes end the command.
  lemma DataTaken<S>(f: Fsm, s: S, rx: bytes)
    ensures StepData(f, s, 0x707E, rx) ==
      if |f.cmd.data| + |rx| <= 0x100 then
        Next(f.(cmd := f.cmd.(data := f.cmd.data + rx), processed := true, st := CmdProcedure), s, 0, [])
      else Next(f.(processed := true, st := CmdWait), s, 5, [])
  {}

  // ----- What is asked for -----

  // While it waits for a header the card asks for exactly what is missing of it; a header that
  // would be longer is dropped, and a whole one is asked for again.
  lemma HeaderAsks<S>(f: Fsm, s: S, rx: bytes)
    requires f.st == CmdWait
    ensures var n, h := StepWait(f, s, 0x707E, rx), (if f.processed then [] else f.hdr) + rx;
      && n.s == s && n.tx == []
      && (|h| < 5 ==> n.f.st == CmdWait && n.f.hdr == h && !n.f.processed && n.ask == 5 - |h|)
      && (|h| == 5 ==>
            n.f.st == CmdProcedure && n.f.hdr == h && n.ask == 0 && n.f.cmd == Cmd(h[0], h[1], h[2], h[3], h[4], []))
      && (|h| > 5 ==> n.f.st == CmdWait && n.f.processed && n.ask == 5)
  {}

  // After an answer: for a header if the command is over, for the data that a procedure byte
  // announces, and for nothing new if the answer could not be sent.
  lemma AnswerAsks<S>(m: Machine<S>, f: Fsm, s: S, rx: bytes, cap: nat)
    requires f.st == CmdProcedure
    ensures var n, x := StepProcedure(m, f, s, 0x707E, rx, cap), m.handle(s, f.cmd, f.procs);
      && n.s == x.s
      && (!x.ok ==> n.f.st == CmdWait && n.ask == 5 && n.tx == [])
      && (x.ok && DeparseRet(cap, x.res) != Success ==> n.f.st == CmdWait && n.ask == |rx| && n.tx == [0x6F, 0x00])
      && (x.ok && DeparseRet(cap, x.res) == Success && x.res.sw1 !in {0xFE, 0xFF} ==>
            n.f.st == CmdWait && n.ask == 5 && n.tx == Wire(f.cmd.ins, x.res))
      && (x.ok && DeparseRet(cap, x.res) == Success && x.res.sw1 in {0xFE, 0xFF} ==>
            if f.procs < 4 then n.f.st == CmdData && n.ask == x.res.len && n.tx == Wire(f.cmd.ins, x.res)
            else n.f.st == CmdWait && n.ask == 5 && n.tx == [])
      && (n.f.st == CmdWait ==> n.f.processed) && (n.f.st == CmdData ==> n.f.procs == f.procs + 1 && n.f.cmd == f.cmd)
  {}

  // ----- An interface that sends exactly what it is asked for -----

  // `calls` calls with good contacts, each with as many of the next bytes as were asked for, as
  // long as there are that many; and what is left of them.
  function Fed<S>(m: Machine<S>, n: Next<S>, bs: bytes, cap: nat, calls: nat): (Next<S>, bytes)
    decreases calls
  {
    if calls == 0 || n.ask > |bs| then (n, bs)
    else Fed(m, Step(m, n.f, n.s, 0x707E, bs[..n.ask], cap), bs[n.ask..], cap, calls - 1)
  }

  lemma FedOnce<S>(m: Machine<S>, n: Next<S>, bs: bytes, cap: nat, calls: nat)
    requires calls > 0 && n.ask <= |bs|
    ensures Fed(m, n, bs, cap, calls) ==
      Fed(m, Step(m, n.f, n.s, 0x707E, bs[..n.ask], cap), bs[n.ask..], cap, calls - 1)
  {}

  lemma FedLast<S>(m: Machine<S>, n: Next<S>, bs: bytes, cap: nat)
    requires n.ask <= |bs|
    ensures Fed(m, n, bs, cap, 1) == (Step(m, n.f, n.s, 0x707E, bs[..n.ask], cap), bs[n.ask..])
  {
    FedOnce(m, n, bs, cap, 1);
  }

  lemma {:induction false} FedMore<S>(m: Machine<S>, n: Next<S>, bs: bytes, cap: nat, a: nat, b: nat)
    ensures var r := Fed(m, n, bs, cap, a); Fed(m, n, bs, cap, a + b) == Fed(m, r.0, r.1, cap, b)
    decreases a
  {
    if a > 0 && n.ask <= |bs| {
      FedMore(m, Step(m, n.f, n.s, 0x707E, bs[..n.ask], cap), bs[n.ask..], cap, a - 1, b);
    }
  }

  lemma {:induction false} FedBounded<S>(m: Machine<S>, n: Next<S>, bs: bytes, cap: nat, calls: nat)
    requires Bounded(n.f)
    ensures Bounded(Fed(m, n, bs, cap, calls).0.f)
    decreases calls
  {
    if calls > 0 && n.ask <= |bs| {
      StepBounded(m, n.f, n.s, 0x707E, bs[..n.ask], cap);
      FedBounded(m, Step(m, n.f, n.s, 0x707E, bs[..n.ask], cap), bs[n.ask..], cap, calls - 1);
    }
  }

  // A whole header was received, and nothing beyond it.
  ghost predicate Headed<S>(r: (Next<S>, bytes), s: S, h: bytes, rest: bytes) {
    && r.0.f.st == CmdProcedure && r.0.s == s && r.0.ask == 0 && r.0.f.procs == 0
    && |h| == 5 && r.0.f.hdr == h && r.0.f.cmd == Cmd(h[0], h[1], h[2], h[3], h[4], [])
    && r.1 == rest
  }

  // How many calls that takes while the card waits for a header.
  function CallsTo<S>(n: Next<S>): nat { if n.ask == 5 - |Fresh(n.f).hdr| then 1 else 2 }

  lemma HeaderFed<S>(m: Machine<S>, n: Next<S>, bs: bytes, cap: nat)
    requires n.f.st == CmdWait && Asked(n) && |Fresh(n.f).hdr| < 5 && Fresh(n.f).procs == 0
    requires |Fresh(n.f).hdr| + |bs| >= 5
    ensures var w := 5 - |Fresh(n.f).hdr|;
      Headed(Fed(m, n, bs, cap, CallsTo(n)), n.s, Fresh(n.f).hdr + bs[..w], bs[w..])
  {
    var w := 5 - |Fresh(n.f).hdr|;
    FedOnce(m, n, bs, cap, CallsTo(n));
    HeaderAsks(n.f, n.s, bs[..n.ask]);
    if n.ask < w {
      var t := Step(m, n.f, n.s, 0x707E, bs[..n.ask], cap);
      var rest := bs[n.ask..];
      FedOnce(m, t, rest, cap, 1);
      HeaderAsks(t.f, t.s, rest[..t.ask]);
      assert t.ask == w - n.ask;
      Cut(bs, n.ask, w);
      Assoc(Fresh(n.f).hdr, bs[..n.ask], rest[..t.ask]);
      assert bs[..n.ask] + rest[..t.ask] == bs[..w] && rest[t.ask..] == bs[w..];
    }
  }

  // Right after the answer to reset it takes three calls.
  lemma FirstFed<S>(m: Machine<S>, n: Next<S>, bs: bytes, cap: nat)
    requires n.f.st == AtrRes && n.ask == 1 && Clean(n.f) && Bounded(n.f) && |bs| >= 5 && bs[0] != 0xFF
    ensures Headed(Fed(m, n, bs, cap, 3), n.s, bs[..5], bs[5..])
  {
    FedOnce(m, n, bs, cap, 3);
    var t := Step(m, n.f, n.s, 0x707E, bs[..1], cap);
    assert t == Next(n.f.(st := CmdWait, hdr := bs[..1]), n.s, 0, []);
    HeaderFed(m, t, bs[1..], cap);
    assert bs[..1] + bs[1..][..4] == bs[..5] && bs[1..][4..] == bs[5..];
  }

  // ----- A PPS request -----

  // How long a request with this PPS0 is.
  function Long(pps0: byte): nat { 3 + pps0 / 0x10 % 2 + pps0 / 0x20 % 2 + pps0 / 0x40 % 2 }

  // Two bytes are collected first, and then as many as PPS0 says.
  lemma PpsAsks<S>(f: Fsm, s: S, rx: bytes, cap: nat)
    requires f.st == PpsReq && f.pps != [] && f.pps[0] == 0xFF && |f.pps + rx| <= 6
    ensures var n, p := StepPps(f, s, 0x707E, rx, cap), f.pps + rx;
      && (|p| < 2 ==> n == Next(f.(pps := p), s, 2 - |p|, []))
      && (|p| >= 2 && |p| < Long(p[1]) ==> n == Next(f.(pps := p), s, Long(p[1]) - |p|, []))
  {}

  // What a request has to look like to be answered at all.
  ghost predicate Answerable(p: bytes) {
    && 3 <= |p| <= 6 && p[0] == 0xFF && p[1] < 0x80 && |p| >= Long(p[1]) - 1
    && (p[1] / 0x40 % 2 == 1 ==> p[Long(p[1]) - 2] == 0x00) && Even(p)
  }

  // It is answered with its own bytes, but for a PPS1 of 11, which is left out.
  function Repeated(p: bytes): bytes
    requires 3 <= |p| && Long(p[1]) - 1 <= |p|
  {
    if p[1] / 0x10 % 2 == 1 && p[2] == 0x11 then [0xFF, p[1] - 0x10] + p[3..Long(p[1]) - 1] else p[..Long(p[1]) - 1]
  }

  lemma AnswerableExactly(p: bytes)
    ensures WellFormed(p) <==> Answerable(p)
  {
    CkZero(p);
    if WellFormed(p) {
      ThreeBytes(p);
    }
  }

  lemma BodyIs(p: bytes)
    requires Answerable(p)
    ensures WellFormed(p) && Body(Proposed(p), p[1]) == Repeated(p)
  {
    AnswerableExactly(p);
    BodyRepeats(p);
  }

  lemma Checks(b: bytes)
    ensures Even(b + [Ck(b)])
  {
    CkExactly(b, Ck(b));
    CkZero(b + [Ck(b)]);
  }

  lemma ExchangeAnswers(p: bytes, cap: nat)
    requires Answerable(p)
    ensures var e, a := Exchange(p, DEFAULTS, cap), Repeated(p) + [Ck(Repeated(p))];
      && Even(a)
      && e == if |Repeated(p)| > cap then (BufferTooShort, []) else (if a == p then Success else PpsFailed, a)
  {
    BodyIs(p);
    ExchangeIs(p, cap);
    Checks(Repeated(p));
  }

  lemma Unanswered(p: bytes, cap: nat)
    requires !Answerable(p)
    ensures Exchange(p, DEFAULTS, cap) == (PpsInvalid, [])
  {
    ExchangeIs(p, cap);
    AnswerableExactly(p);
  }

  // Any request that is whole: a byte is asked for again if it is not answerable, the card is off if
  // there is no room; else the answer is sent, and if it is the request commands follow.
  lemma PpsAnswered<S>(f: Fsm, s: S, rx: bytes, cap: nat)
    requires f.st == PpsReq && f.pps != [] && f.pps[0] == 0xFF
    requires 2 <= |f.pps + rx| <= 6 && |f.pps + rx| >= Long((f.pps + rx)[1])
    ensures var n, p := StepPps(f, s, 0x707E, rx, cap), f.pps + rx;
      if !Answerable(p) then n == Next(f.(pps := p, st := AtrRes), s, 1, [])
      else if |Repeated(p)| > cap then n == Next(f.(pps := p, st := Off), s, 0, [])
      else
        && n.tx == Repeated(p) + [Ck(Repeated(p))] && Even(n.tx)
        && n == if n.tx == p then Next(f.(pps := p, st := CmdWait, processed := false), s, 0, n.tx)
                else Next(f.(pps := p, st := AtrRes), s, 1, n.tx)
  {
    var p := f.pps + rx;
    if Answerable(p) {
      ExchangeAnswers(p, cap);
    } else {
      Unanswered(p, cap);
    }
    assert StepPps(f, s, 0x707E, rx, cap) == PpsAnswer(f.(pps := p), s, Exchange(p, DEFAULTS, cap));
  }

  // Once whole it is answered: commands follow exactly when it is agreeable and there is room.
  ghost predicate Answers<S>(n: Next<S>, f: Fsm, s: S, p: bytes, cap: nat) {
    && n.s == s && n.f.hdr == f.hdr && n.f.procs == f.procs
    && (n.f.st == CmdWait <==> Agreeable(p) && |p| <= cap + 1)
    && (n.f.st == CmdWait ==> n.tx == p && n.ask == 0 && !n.f.processed)
    && (n.f.st != CmdWait ==> n.f.st == Off || (n.f.st == AtrRes && n.ask == 1))
  }

  lemma WholeAnswers<S>(f: Fsm, s: S, rx: bytes, cap: nat)
    requires f.st == PpsReq && f.pps != [] && f.pps[0] == 0xFF
    requires 2 <= |f.pps + rx| <= 6 && |f.pps + rx| == Long((f.pps + rx)[1])
    ensures Answers(StepPps(f, s, 0x707E, rx, cap), f, s, f.pps + rx, cap)
  {
    var p := f.pps + rx;
    ExchangeExactly(p, cap);
    ExchangeRets(p, cap);
    AcceptableExactly(p);
  }

  // From the answer to reset it takes four calls.
  lemma PpsFed<S>(m: Machine<S>, n: Next<S>, bs: bytes, cap: nat)
    requires n.f.st == AtrRes && n.ask == 1 && |bs| >= 2 && bs[0] == 0xFF && |bs| >= Long(bs[1])
    ensures var r, l := Fed(m, n, bs, cap, 4), Long(bs[1]); Answers(r.0, n.f, n.s, bs[..l], cap) && r.1 == bs[l..]
  {
    var b := PpsBegins(m, n, bs, cap);
    FedMore(m, n, bs, cap, 2, 2);
    PpsGoesOn(m, b, bs, cap);
    assert b.f.hdr == n.f.hdr && b.f.procs == n.f.procs;
  }

  lemma PpsBegins<S>(m: Machine<S>, n: Next<S>, bs: bytes, cap: nat) returns (b: Next<S>)
    requires n.f.st == AtrRes && n.ask == 1 && |bs| >= 2 && bs[0] == 0xFF
    ensures b == Next(n.f.(st := PpsReq, pps := bs[..1]), n.s, 1, []) && Fed(m, n, bs, cap, 2) == (b, bs[1..])
  {
    b := Next(n.f.(st := PpsReq, pps := bs[..1]), n.s, 1, []);
    var a := Next(b.f, n.s, 0, []);
    FedOnce(m, n, bs, cap, 2);
    assert Step(m, n.f, n.s, 0x707E, bs[..1], cap) == a;
    FedOnce(m, a, bs[1..], cap, 1);
    assert bs[..1] + [] == bs[..1];
    PpsAsks(a.f, a.s, [], cap);
    assert bs[1..][..0] == [] && bs[1..][0..] == bs[1..];
  }

  lemma PpsGoesOn<S>(m: Machine<S>, b: Next<S>, bs: bytes, cap: nat)
    requires b.f.st == PpsReq && b.ask == 1 && |bs| >= 2 && bs[0] == 0xFF && b.f.pps == bs[..1] && |bs| >= Long(bs[1])
    ensures var r, l := Fed(m, b, bs[1..], cap, 2), Long(bs[1]); Answers(r.0, b.f, b.s, bs[..l], cap) && r.1 == bs[l..]
  {
    var c := PpsTells(m, b, bs, cap);
    FedMore(m, b, bs[1..], cap, 1, 1);
    PpsEnds(m, c, bs, cap, Long(bs[1]));
  }

  lemma PpsTells<S>(m: Machine<S>, b: Next<S>, bs: bytes, cap: nat) returns (c: Next<S>)
    requires b.f.st == PpsReq && b.ask == 1 && |bs| >= 2 && bs[0] == 0xFF && b.f.pps == bs[..1]
    ensures c == Next(b.f.(pps := bs[..2]), b.s, Long(bs[1]) - 2, []) && Fed(m, b, bs[1..], cap, 1) == (c, bs[2..])
  {
    c := Next(b.f.(pps := bs[..2]), b.s, Long(bs[1]) - 2, []);
    FedOnce(m, b, bs[1..], cap, 1);
    assert bs[..1] + bs[1..][..1] == bs[..2] && bs[1..][1..] == bs[2..];
    PpsAsks(b.f, b.s, bs[1..][..1], cap);
  }

  lemma PpsEnds<S>(m: Machine<S>, c: Next<S>, bs: bytes, cap: nat, l: nat)
    requires c.f.st == PpsReq && 2 <= l <= |bs| && l == Long(bs[1]) && bs[0] == 0xFF
    requires c.f.pps == bs[..2] && c.ask == l - 2
    ensures var r := Fed(m, c, bs[2..], cap, 1); Answers(r.0, c.f, c.s, bs[..l], cap) && r.1 == bs[l..]
  {
    FedLast(m, c, bs[2..], cap);
    var p := bs[2..][..l - 2];
    assert bs[..2] + p == bs[..l] && bs[2..][l - 2..] == bs[l..];
    WholeAnswers(c.f, c.s, p, cap);
  }

  // ----- A command with data -----

  // If the handler asks for data it is called again with exactly as much as it asked for.
  lemma DataFed<S>(m: Machine<S>, n: Next<S>, bs: bytes, cap: nat, x: Handled<S>) returns (a: Next<S>)
    requires n.f.st == CmdProcedure && n.ask == 0 && n.f.procs < 4 && n.f.cmd.data == []
    requires x == m.handle(n.s, n.f.cmd, n.f.procs)
    requires x.ok && DeparseRet(cap, x.res) == Success && x.res.sw1 in {0xFE, 0xFF} && x.res.len <= |bs|
    ensures Fed(m, n, bs, cap, 2) == (a, bs[x.res.len..]) && a.s == x.s && a.ask == 0
    ensures a.f == n.f.(procs := n.f.procs + 1, processed := true, cmd := n.f.cmd.(data := bs[..x.res.len]))
  {
    var b := Step(m, n.f, n.s, 0x707E, [], cap);
    AnswerAsks(m, n.f, n.s, [], cap);
    assert bs[..0] == [] && bs[0..] == bs;
    FedOnce(m, n, bs, cap, 2);
    DataTaken(b.f, b.s, bs[..b.ask]);
    assert [] + bs[..b.ask] == bs[..b.ask];
    a := Step(m, b.f, b.s, 0x707E, bs[..b.ask], cap);
    FedOnce(m, b, bs, cap, 1);
  }
}
