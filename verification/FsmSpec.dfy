// The card state machine (ISO/IEC 7816-3:2006 clause 6), over any command handler: what one
// call with new contact states and received bytes does to the card, what it sends and how
// much it asks for next.
module FsmSpec {
  import opened Bytes
  import opened ApduRc
  import opened Apdu
  import opened Pps

  datatype St = Off | Activation | ResetCold | AtrReq | AtrRes | ResetWarm | PpsReq | CmdWait | CmdProcedure | CmdData

  // What the card holds between calls: the bytes of an unfinished PPS request or header, the
  // command in progress, and how many procedures were sent for it.
  datatype Fsm = Fsm(st: St, pps: bytes, hdr: bytes, processed: bool, procs: nat, cmd: Cmd)

  const NO_CMD: Cmd := Cmd(0, 0, 0, 0, 0, [])
  const RESET: Fsm := Fsm(Off, [], [], false, 0, NO_CMD)

  // A response object has room for 256 bytes.
  type Answer = r: Res | |r.b| == DATA_MAX witness Res(0, 0, 0, seq(DATA_MAX, _ => 0))

  datatype Handled<S> = Handled(ok: bool, s: S, res: Answer)

  // What is not the state machine's own: the answer to reset, the handler (given the command
  // so far and the number of procedures sent for it), and the reset of the rest of the card.
  datatype Machine<!S> = Machine(atr: bytes, handle: (S, Cmd, nat) -> Handled<S>, reset: S -> (bool, S))

  // The new state, the number of bytes to receive next and the bytes to send.
  datatype Next<S> = Next(f: Fsm, s: S, ask: nat, tx: bytes)

  // ----- Contact states -----

  const VCC: nat := 0x0002
  const RST: nat := 0x0008
  const CLK: nat := 0x0020
  const IO: nat := 0x2000
  const VALID_ALL: nat := 0x0004 + 0x0010 + 0x0040 + 0x1000 + 0x4000
  const READY: nat := RST + VCC + IO + CLK + VALID_ALL

  predicate VccSeen(cont: nat) { cont / 2 % 4 != 0 }

  // ----- One state at a time -----

  function Quiet<S>(f: Fsm, s: S): Next<S> { Next(f, s, 0, []) }

  function PowerOff<S>(f: Fsm, s: S): Next<S> { Quiet(f.(st := Off), s) }

  function StepOff<S>(f: Fsm, s: S, cont: nat): Next<S> {
    Quiet(if cont == VCC + VALID_ALL then f.(st := Activation) else f, s)
  }

  function StepActivation<S>(f: Fsm, s: S, cont: nat): Next<S> {
    if cont == READY - RST then Quiet(f.(st := ResetCold), s)
    else if VccSeen(cont) then Quiet(f, s)
    else PowerOff(f, s)
  }

  function StepResetCold<S>(f: Fsm, s: S, cont: nat): Next<S> {
    if cont == READY then Quiet(f.(st := AtrReq), s)
    else if cont == READY - RST then Quiet(f, s)
    else PowerOff(f, s)
  }

  function StepAtrReq<S>(m: Machine<S>, f: Fsm, s: S, cont: nat, cap: nat): Next<S> {
    if cont == READY && cap >= |m.atr| then Next(f.(st := AtrRes), s, 1, m.atr) else PowerOff(f, s)
  }

  // The first byte tells a PPS request from a command.
  function StepAtrRes<S>(f: Fsm, s: S, cont: nat, rx: bytes): Next<S> {
    if cont == READY && |rx| == 1 then
      Quiet(if rx[0] == PPSS then f.(st := PpsReq, pps := rx) else f.(st := CmdWait, hdr := rx), s)
    else PowerOff(f, s)
  }

  // A reset of everything ends in the state that is numbered zero.
  function StepResetWarm<S>(m: Machine<S>, f: Fsm, s: S): Next<S> {
    var (ok, t) := m.reset(s);
    if ok then Quiet(RESET, t) else PowerOff(f, t)
  }

  // How many more bytes a PPS request needs; two are enough to tell.
  function PpsWants(pps: bytes): int {
    if |pps| < 2 then 2 - |pps| else LenOf(pps[1]) - |pps|
  }

  function StepPps<S>(f: Fsm, s: S, cont: nat, rx: bytes, cap: nat): Next<S> {
    if cont != READY || |f.pps| + |rx| > PPS_LEN_MAX then PowerOff(f, s)
    else StepPpsMore(f.(pps := f.pps + rx), s, cap)
  }

  function StepPpsMore<S>(f: Fsm, s: S, cap: nat): Next<S> {
    if |f.pps| < 2 || (f.pps[0] == PPSS && PpsWants(f.pps) > 0) then Next(f, s, PpsWants(f.pps), [])
    else if f.pps[0] != PPSS then PowerOff(f, s)
    else StepPpsWhole(f, s, cap)
  }

  function StepPpsWhole<S>(f: Fsm, s: S, cap: nat): Next<S> {
    PpsAnswer(f, s, Exchange(f.pps, DEFAULTS, cap))
  }

  // What an exchange leads to: commands, another request, or nothing more.
  function PpsAnswer<S>(f: Fsm, s: S, e: (Ret, bytes)): Next<S> {
    if e.0 == Success then Next(f.(st := CmdWait, processed := false), s, 0, e.1)
    else if e.0 == PpsFailed || e.0 == PpsInvalid then Next(f.(st := AtrRes), s, 1, e.1)
    else PowerOff(f, s)
  }

  // The branch for a request that is longer than it says cannot be defined: the compiler is
  // told that it is not reached.
  predicate Defined(f: Fsm, cont: nat, rx: bytes) {
    f.st == PpsReq && cont == READY && 2 <= |f.pps + rx| <= PPS_LEN_MAX && (f.pps + rx)[0] == PPSS ==>
      PpsWants(f.pps + rx) >= 0
  }

  // What was left of the previous command is dropped first.
  function Fresh(f: Fsm): Fsm {
    if f.processed then f.(cmd := NO_CMD, hdr := [], procs := 0, processed := false) else f
  }

  function HdrCmd(h: bytes): Cmd
    requires |h| == 5
  {
    Cmd(h[0], h[1], h[2], h[3], h[4], [])
  }

  function StepWait<S>(f: Fsm, s: S, cont: nat, rx: bytes): Next<S> {
    if cont != READY then PowerOff(f, s) else StepHeader(Fresh(f), s, rx)
  }

  function StepHeader<S>(f: Fsm, s: S, rx: bytes): Next<S> {
    var h := f.hdr + rx;
    if |h| > 5 then Next(f.(processed := true), s, 5, [])
    else if |h| < 5 then Next(f.(hdr := h), s, 5 - |h|, [])
    else Quiet(f.(hdr := h, cmd := HdrCmd(h), st := CmdProcedure), s)
  }

  const MAX_PROCS: nat := 4

  function Done(f: Fsm): Fsm { f.(processed := true, st := CmdWait) }

  function StepProcedure<S>(m: Machine<S>, f: Fsm, s: S, cont: nat, rx: bytes, cap: nat): Next<S> {
    if cont != READY then PowerOff(f, s)
    else
      var x := m.handle(s, f.cmd, f.procs);
      if !x.ok then Next(Done(f), x.s, 5, []) else StepAnswer(f, x.s, x.res, |rx|, cap)
  }

  // An answer that cannot be sent becomes a status word; the number of bytes to receive is
  // left as it was then.
  function StepAnswer<S>(f: Fsm, s: S, res: Answer, rxLen: nat, cap: nat): Next<S> {
    if DeparseRet(cap, res) != Success then Next(Done(f), s, rxLen, [CHER_UNK, 0])
    else if !res.Acks() then Next(Done(f), s, 5, Wire(f.cmd.ins, res))
    else if f.procs + 1 <= MAX_PROCS then
      Next(f.(st := CmdData, procs := f.procs + 1), s, res.len, Wire(f.cmd.ins, res))
    else Next(Done(f), s, 5, [])
  }

  function StepData<S>(f: Fsm, s: S, cont: nat, rx: bytes): Next<S> {
    if cont != READY then PowerOff(f, s)
    else if |f.cmd.data| + |rx| <= DATA_MAX then
      Quiet(f.(cmd := f.cmd.(data := f.cmd.data + rx), processed := true, st := CmdProcedure), s)
    else Next(Done(f), s, 5, [])
  }

  function Step<S>(m: Machine<S>, f: Fsm, s: S, cont: nat, rx: bytes, cap: nat): Next<S> {
    match f.st
    case Off => StepOff(f, s, cont)
    case Activation => StepActivation(f, s, cont)
    case ResetCold => StepResetCold(f, s, cont)
    case AtrReq => StepAtrReq(m, f, s, cont, cap)
    case AtrRes => StepAtrRes(f, s, cont, rx)
    case ResetWarm => StepResetWarm(m, f, s)
    case PpsReq => StepPps(f, s, cont, rx, cap)
    case CmdWait => StepWait(f, s, cont, rx)
    case CmdProcedure => StepProcedure(m, f, s, cont, rx, cap)
    case CmdData => StepData(f, s, cont, rx)
  }
}
