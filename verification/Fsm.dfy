// The card's state machine in place: its fields, its fixed-size buffers and the buffers it
// shares with the interface.  Every call does what `FsmSpec.Step` says.
module Fsm {
  import opened Bytes
  import opened Memory
  import opened ApduRc
  import opened Apdu
  import opened Pps
  import opened FsmSpec
  import opened FsmLaws

  class Icc<!S> {
    const m: Machine<S>
    var s: S // Everything that is not the state machine's own.
    var st: St
    const pps: array<byte>
    var ppsLen: nat
    const hdr: array<byte>
    var hdrLen: nat
    var processed: bool
    var procs: nat
    var cur: Cmd // The current command without its data, which is in `data`.
    const data: array<byte>
    var dataLen: nat
    // The lengths hold what was received and how much can be sent before a call, and what to
    // receive next and what to send after it.
    const rx: array<byte>
    var rxLen: nat
    const tx: array<byte>
    var txLen: nat

    ghost predicate Valid()
      reads this
    {
      && pps.Length == PPS_LEN_MAX && hdr.Length == 5 && data.Length == DATA_MAX && PPS_LEN_MAX <= tx.Length
      && pps != hdr && pps != data && pps != rx && pps != tx && hdr != data && hdr != rx && hdr != tx
      && data != rx && data != tx && rx != tx
      && ppsLen <= PPS_LEN_MAX && hdrLen <= 5 && dataLen <= DATA_MAX && procs <= MAX_PROCS
      && cur.data == [] && txLen <= tx.Length
    }

    ghost function Now(): Fsm
      reads this, pps, hdr, data
      requires Valid()
    {
      Fsm(st, pps[..ppsLen], hdr[..hdrLen], processed, procs, cur.(data := data[..dataLen]))
    }

    ghost function Out(): Next<S>
      reads this, pps, hdr, data, tx
      requires Valid()
    {
      Next(Now(), s, rxLen, tx[..txLen])
    }

    // What was received.
    ghost function In(): bytes
      reads this, rx
    {
      if rxLen <= rx.Length then rx[..rxLen] else []
    }

    constructor (m: Machine<S>, s: S, rx: array<byte>, tx: array<byte>)
      requires rx != tx && PPS_LEN_MAX <= tx.Length
      ensures Valid() && Now() == RESET && this.s == s && this.m == m && this.rx == rx && this.tx == tx
      ensures fresh(pps) && fresh(hdr) && fresh(data)
    {
      this.m, this.s, this.rx, this.tx := m, s, rx, tx;
      st, ppsLen, hdrLen, processed, procs, cur, dataLen := St.Off, 0, 0, false, 0, NO_CMD, 0;
      rxLen, txLen := 0, 0;
      pps := new byte[PPS_LEN_MAX](_ => 0);
      hdr := new byte[5](_ => 0);
      data := new byte[DATA_MAX](_ => 0);
    }

    method Go(next: St)
      requires Valid()
      modifies this`st, this`rxLen, this`txLen
      ensures Valid() && Out() == Quiet(old(Now()).(st := next), s)
    {
      st, rxLen, txLen := next, 0, 0;
    }

    method HandleOff(cont: nat)
      requires Valid()
      modifies this`st, this`rxLen, this`txLen
      ensures Valid() && Out() == StepOff(old(Now()), s, cont)
    {
      Go(if cont == VCC + VALID_ALL then Activation else st);
    }

    method HandleActivation(cont: nat)
      requires Valid()
      modifies this`st, this`rxLen, this`txLen
      ensures Valid() && Out() == StepActivation(old(Now()), s, cont)
    {
      if cont == VCC + IO + CLK + VALID_ALL {
        Go(ResetCold);
      } else if VccSeen(cont) {
        Go(st);
      } else {
        Go(St.Off);
      }
    }

    method HandleResetCold(cont: nat)
      requires Valid()
      modifies this`st, this`rxLen, this`txLen
      ensures Valid() && Out() == StepResetCold(old(Now()), s, cont)
    {
      if cont == READY {
        Go(AtrReq);
      } else if cont == READY - RST {
        Go(st);
      } else {
        Go(St.Off);
      }
    }

    method HandleAtrReq(cont: nat)
      requires Valid()
      modifies this`st, this`rxLen, this`txLen, tx
      ensures Valid() && Out() == StepAtrReq(m, old(Now()), s, cont, old(txLen))
    {
      if cont == READY && txLen >= |m.atr| {
        CopyInto(tx, 0, m.atr);
        SpliceReads(old(tx[..]), 0, m.atr);
        rxLen, txLen, st := 1, |m.atr|, AtrRes;
        return;
      }
      Go(St.Off);
    }

    method HandleAtrRes(cont: nat)
      requires Valid() && rxLen <= rx.Length
      modifies this`st, this`rxLen, this`txLen, this`ppsLen, this`hdrLen, pps, hdr
      ensures Valid() && Out() == StepAtrRes(old(Now()), s, cont, old(In()))
    {
      if cont == READY && rxLen == 1 {
        if rx[0] == PPSS {
          pps[0] := rx[0];
          ppsLen := 1;
          Go(PpsReq);
        } else {
          hdr[0] := rx[0];
          hdrLen := 1;
          Go(CmdWait);
        }
        return;
      }
      Go(St.Off);
    }

    method HandleResetWarm()
      requires Valid()
      modifies this
      ensures Valid() && Out() == StepResetWarm(m, old(Now()), old(s))
    {
      var r := m.reset(s);
      s := r.1;
      if r.0 {
        st, ppsLen, hdrLen, processed, procs, cur, dataLen := St.Off, 0, 0, false, 0, NO_CMD, 0;
        rxLen, txLen := 0, 0;
        return;
      }
      Go(St.Off);
    }

    // Received bytes go behind what there is already.
    method Append(a: array<byte>, n: nat) returns (k: nat)
      requires Valid() && rxLen <= rx.Length && a != rx && n + rxLen <= a.Length
      modifies a
      ensures k == n + rxLen && a[..k] == old(a[..n]) + In()
    {
      k := n + rxLen;
      CopyInto(a, n, rx[..rxLen]);
      SpliceIs(old(a[..]), n, rx[..rxLen]);
    }

    method HandlePpsReq(cont: nat)
      requires Valid() && rxLen <= rx.Length && st == PpsReq && Defined(Now(), cont, In())
      modifies this`st, this`rxLen, this`txLen, this`ppsLen, this`processed, pps, tx
      ensures Valid() && Out() == StepPps(old(Now()), s, cont, old(In()), old(txLen))
    {
      if cont == READY && ppsLen + rxLen <= PPS_LEN_MAX {
        ppsLen := Append(pps, ppsLen);
        TakePps();
        return;
      }
      Go(St.Off);
    }

    // What to do with the PPS request as far as it was received.
    method TakePps()
      requires Valid() && (|Now().pps| >= 2 && Now().pps[0] == PPSS ==> PpsWants(Now().pps) >= 0)
      modifies this`st, this`rxLen, this`txLen, this`processed, tx
      ensures Valid() && Out() == StepPpsMore(old(Now()), s, old(txLen))
    {
      if ppsLen < 2 {
        rxLen, txLen := 2 - ppsLen, 0;
        return;
      }
      var exp := PpsLen(pps[..ppsLen]);
      if exp.Some? {
        if ppsLen < exp.value {
          rxLen, txLen := exp.value - ppsLen, 0;
          return;
        }
        AnswerPps();
        return;
      }
      Go(St.Off);
    }

    method AnswerPps()
      requires Valid()
      modifies this`st, this`rxLen, this`txLen, this`processed, tx
      ensures Valid() && Out() == StepPpsWhole(old(Now()), s, old(txLen))
    {
      var ret, params, n, e := Negotiate(DEFAULTS, pps[..ppsLen], tx, txLen);
      TakeAnswer(ret, n, e);
    }

    method TakeAnswer(ret: Ret, n: nat, ghost e: (Ret, bytes))
      requires Valid() && n <= tx.Length && ret == e.0
      requires ret == Success || ret == PpsFailed ==> tx[..n] == e.1
      requires ret == PpsInvalid ==> e.1 == []
      modifies this`st, this`rxLen, this`txLen, this`processed
      ensures Valid() && Out() == PpsAnswer(old(Now()), s, e)
    {
      if ret == Success {
        st, processed, rxLen, txLen := CmdWait, false, 0, n;
      } else if ret == PpsFailed {
        // Another request may come.
        st, rxLen, txLen := AtrRes, 1, n;
      } else if ret == PpsInvalid {
        st, rxLen, txLen := AtrRes, 1, 0;
      } else {
        Go(St.Off);
      }
    }

    method HandleCmdWait(cont: nat)
      requires Valid() && rxLen <= rx.Length
      modifies this, hdr
      ensures Valid() && s == old(s) && Out() == StepWait(old(Now()), s, cont, old(In()))
    {
      if cont == READY {
        if processed {
          // What the previous command left.
          cur, dataLen, hdrLen, procs, processed := NO_CMD, 0, 0, 0, false;
        }
        TakeHeader();
        return;
      }
      Go(St.Off);
    }

    method TakeHeader()
      requires Valid() && rxLen <= rx.Length
      modifies this, hdr
      ensures Valid() && s == old(s) && Out() == StepHeader(old(Now()), s, old(In()))
    {
      if hdrLen + rxLen <= 5 {
        hdrLen := Append(hdr, hdrLen);
        if hdrLen == 5 {
          cur, dataLen := Cmd(hdr[0], hdr[1], hdr[2], hdr[3], hdr[4], []), 0;
          Go(CmdProcedure);
        } else {
          rxLen, txLen := 5 - hdrLen, 0;
        }
        return;
      }
      processed, txLen, rxLen := true, 0, 5;
    }

    method Finish()
      requires Valid()
      modifies this`st, this`rxLen, this`txLen, this`processed
      ensures Valid() && Out() == Next(Done(old(Now())), s, 5, [])
    {
      processed, st, txLen, rxLen := true, CmdWait, 0, 5;
    }

    method HandleCmdProcedure(cont: nat)
      requires Valid() && rxLen <= rx.Length
      modifies this, tx
      ensures Valid() && Out() == StepProcedure(m, old(Now()), old(s), cont, old(In()), old(txLen))
    {
      if cont == READY {
        var x := m.handle(s, cur.(data := data[..dataLen]), procs);
        s := x.s;
        if x.ok {
          AnswerCmd(x.res);
          return;
        }
        Finish();
        return;
      }
      Go(St.Off);
    }

    method AnswerCmd(res: Answer)
      requires Valid() && rxLen <= rx.Length
      modifies this`st, this`rxLen, this`txLen, this`processed, this`procs, tx
      ensures Valid() && Out() == StepAnswer(old(Now()), s, res, old(rxLen), old(txLen))
    {
      var ret, n := Apdu.Deparse(tx, txLen, cur.ins, res);
      txLen := n;
      if ret != Success {
        // There must be room for a status word.
        processed, st, txLen := true, CmdWait, 2;
        tx[0], tx[1] := CHER_UNK, 0x00;
        return;
      }
      if res.Acks() {
        if procs + 1 <= MAX_PROCS {
          procs, st, rxLen := procs + 1, CmdData, res.len;
          return;
        }
        Finish();
        return;
      }
      processed, st, rxLen := true, CmdWait, 5;
    }

    method HandleCmdData(cont: nat)
      requires Valid() && rxLen <= rx.Length
      modifies this`st, this`rxLen, this`txLen, this`processed, this`dataLen, data
      ensures Valid() && Out() == StepData(old(Now()), s, cont, old(In()))
    {
      if cont == READY {
        if dataLen + rxLen <= DATA_MAX {
          dataLen := Append(data, dataLen);
          processed := true;
          Go(CmdProcedure);
          return;
        }
        Finish();
        return;
      }
      Go(St.Off);
    }

    // `swicc_fsm`.
    method Call(cont: nat)
      requires Valid() && rxLen <= rx.Length && Defined(Now(), cont, In())
      modifies this, pps, hdr, data, tx
      ensures Valid() && Out() == Step(m, old(Now()), old(s), cont, old(In()), old(txLen))
    {
      match st
      case Off => HandleOff(cont);
      case Activation => HandleActivation(cont);
      case ResetCold => HandleResetCold(cont);
      case AtrReq => HandleAtrReq(cont);
      case AtrRes => HandleAtrRes(cont);
      case ResetWarm => HandleResetWarm();
      case PpsReq => HandlePpsReq(cont);
      case CmdWait => HandleCmdWait(cont);
      case CmdProcedure => HandleCmdProcedure(cont);
      case CmdData => HandleCmdData(cont);
    }
  }
}
