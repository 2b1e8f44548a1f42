// Commands and responses, the class byte, and how a response becomes bytes to send.
module Apdu {
  import opened Bytes
  import opened Memory
  import opened ApduRc

  const NORM_NONE: byte := 0x90
  const NORM_BYTES_AVAILABLE: byte := 0x61
  const WARN_NVM_CHGN: byte := 0x62
  const CHER_LEN: byte := 0x67
  const CHER_CMD: byte := 0x69
  const CHER_P1P2_INFO: byte := 0x6A
  const CHER_P1P2: byte := 0x6B
  const CHER_LE: byte := 0x6C
  const CHER_INS: byte := 0x6D
  const CHER_CLA: byte := 0x6E
  const CHER_UNK: byte := 0x6F
  const PROC_NULL: byte := 0x60
  const PROC_ACK_ONE: byte := 0xFE
  const PROC_ACK_ALL: byte := 0xFF

  // A command as a handler sees it: header, P3 and the data received so far.
  datatype Cmd = Cmd(cla: byte, ins: byte, p1: byte, p2: byte, p3: byte, data: bytes)

  // What a handler answers.  With a procedure byte, `len` is how much data is expected; else
  // it is how much of the buffer `b` is sent.
  datatype Res = Res(sw1: byte, sw2: byte, len: nat, b: bytes) {
    predicate Ok() { |b| == DATA_MAX && len <= DATA_MAX }

    predicate Acks() { sw1 == PROC_ACK_ONE || sw1 == PROC_ACK_ALL }
  }

  // ----- The class byte (ISO/IEC 7816-4:2020 clause 5.4.1) -----

  datatype ClaType = Interindustry | Proprietary | Rfu
  datatype Sm = SmInvalid | SmNo | SmProprietary | SmHdrSkip | SmHdrAuth
  datatype Cla = Cla(raw: byte, more: bool, sm: Sm, typ: ClaType, lchan: nat)

  function ClaParse(raw: byte): Cla {
    if raw / 32 == 0 then
      Cla(raw, raw / 16 % 2 == 1, [SmNo, SmProprietary, SmHdrSkip, SmHdrAuth][raw / 4 % 4], Interindustry, raw % 4)
    else if raw / 64 == 1 then
      Cla(raw, raw / 16 % 2 == 1, if raw / 32 % 2 == 0 then SmNo else SmHdrSkip, Interindustry, raw % 16 + 4)
    else if raw / 32 == 1 then Cla(raw, false, SmInvalid, Rfu, 0)
    else Cla(raw, false, SmInvalid, Proprietary, 0)
  }

  // The class bytes there are for a channel, chaining and secure messaging.
  function ClaBuild(lchan: nat, more: bool, sm: Sm): Option<byte> {
    var m := if more then 16 else 0;
    if lchan < 4 then
      match sm
      case SmInvalid => None
      case SmNo => Some(m + lchan)
      case SmProprietary => Some(m + 4 + lchan)
      case SmHdrSkip => Some(m + 8 + lchan)
      case SmHdrAuth => Some(m + 12 + lchan)
    else if lchan < 20 then
      match sm
      case SmNo => Some(64 + m + (lchan - 4))
      case SmHdrSkip => Some(96 + m + (lchan - 4))
      case _ => None
    else None
  }

  // An interindustry class byte means exactly one channel, chaining and secure messaging.
  lemma ClaExactly(raw: byte, lchan: nat, more: bool, sm: Sm)
    ensures ClaParse(raw) == Cla(raw, more, sm, Interindustry, lchan) <==> ClaBuild(lchan, more, sm) == Some(raw)
    ensures ClaParse(raw).typ == Interindustry <==> raw < 0x20 || 0x40 <= raw < 0x80
    ensures ClaParse(raw).typ == Rfu <==> 0x20 <= raw < 0x40
  {
    if raw < 0x20 {
      assert raw == 16 * (raw / 16) + 4 * (raw / 4 % 4) + raw % 4;
    }
  }

  // Bit by bit: the first interindustry form has b5 for chaining, b4 and b3 for secure messaging,
  // and four channels; the second has b6 for secure messaging and the channels from 4 on.
  lemma ClaFirst(raw: byte)
    requires raw < 0x20
    ensures var c := ClaParse(raw);
      && (c.more <==> raw >= 0x10) && c.lchan == raw % 4
      && c.sm == (if raw % 0x10 < 0x04 then SmNo else if raw % 0x10 < 0x08 then SmProprietary
                  else if raw % 0x10 < 0x0C then SmHdrSkip else SmHdrAuth)
  {}

  lemma ClaSecond(raw: byte)
    requires 0x40 <= raw < 0x80
    ensures var c := ClaParse(raw);
      && (c.more <==> raw % 0x20 >= 0x10) && c.lchan == raw % 0x10 + 4
      && c.sm == if raw < 0x60 then SmNo else SmHdrSkip
  {}

  // ----- From a response to bytes -----

  predicate Sends1(sw1: byte) { sw1 == PROC_NULL || sw1 == PROC_ACK_ONE || sw1 == PROC_ACK_ALL }

  // The status bytes that say everything without a second byte.
  predicate Sw2Zero(sw1: byte) {
    sw1 == NORM_NONE || sw1 == CHER_P1P2 || sw1 == CHER_INS || sw1 == CHER_CLA || sw1 == CHER_UNK
  }

  function DeparseRet(cap: nat, res: Res): Ret {
    if cap < res.len + (if Sends1(res.sw1) then 1 else 2) then BufferTooShort
    else if res.len > DATA_MAX then Error
    else if res.sw2 != 0 && (Sw2Zero(res.sw1) || Sends1(res.sw1)) then ApduResInvalid
    else if res.sw1 == PROC_NULL && res.len != 0 then ApduResInvalid
    else Success
  }

  // What is sent: a procedure byte alone, or data and the two status bytes.
  function Wire(ins: byte, res: Res): bytes
    requires res.Ok()
  {
    if res.sw1 == PROC_ACK_ALL then [ins]
    else if res.sw1 == PROC_ACK_ONE then [255 - ins] // All bits inverted.
    else if res.sw1 == PROC_NULL then [PROC_NULL]
    else res.b[..res.len] + [res.sw1, res.sw2]
  }

  // `swicc_apdu_res_deparse`; `cap` is the room in the TX buffer.
  method Deparse(tx: array<byte>, cap: nat, ins: byte, res: Res) returns (ret: Ret, n: nat)
    requires cap <= tx.Length && |res.b| == DATA_MAX
    modifies tx
    ensures ret == DeparseRet(cap, res) && n <= cap
    ensures ret == Success ==> res.Ok() && tx[..n] == Wire(ins, res)
  {
    n := cap;
    if cap < res.len + (if Sends1(res.sw1) then 1 else 2) {
      return BufferTooShort, n;
    }
    if res.len > DATA_MAX {
      return Error, n;
    }
    n := res.len;
    CopyInto(tx, 0, res.b[..res.len]);
    SpliceReads(old(tx[..]), 0, res.b[..res.len]);
    if res.sw1 == PROC_NULL {
      if res.len != 0 || res.sw2 != 0 {
        return ApduResInvalid, n;
      }
      tx[0] := PROC_NULL;
      n := 1;
    } else if res.Acks() {
      if res.sw2 != 0 {
        return ApduResInvalid, n;
      }
      tx[0] := if res.sw1 == PROC_ACK_ONE then 255 - ins else ins;
      n := 1;
    } else {
      if Sw2Zero(res.sw1) && res.sw2 != 0 {
        return ApduResInvalid, n;
      }
      tx[n], tx[n + 1] := res.sw1, res.sw2;
      n := n + 2;
    }
    ret := Success;
  }

  // What is sent, by the first status byte; and when nothing can be: no room, too much data, a
  // second status byte that must be zero, or data with the null procedure.
  lemma SentExactly(cap: nat, ins: byte, res: Res)
    requires |res.b| == 0x100
    ensures res.Ok() ==>
      Wire(ins, res) == (if res.sw1 == 0x60 then [0x60]
                         else if res.sw1 == 0xFF then [ins]
                         else if res.sw1 == 0xFE then [0xFF - ins]
                         else res.b[..res.len] + [res.sw1, res.sw2])
    ensures DeparseRet(cap, res) == Success <==>
      && res.len <= 0x100 && cap >= res.len + (if res.sw1 in {0x60, 0xFE, 0xFF} then 1 else 2)
      && (res.sw1 in {0x60, 0xFE, 0xFF, 0x90, 0x6B, 0x6D, 0x6E, 0x6F} ==> res.sw2 == 0)
      && (res.sw1 == 0x60 ==> res.len == 0)
  {}

  // How a terminal reads what it is sent: the data and status, or the procedure.
  datatype Sent = NullByte | AckByte(all: bool) | Status(data: bytes, sw1: byte, sw2: byte) | Garbled

  function ReadWire(ins: byte, w: bytes): Sent {
    if |w| == 1 then
      if w[0] == PROC_NULL then NullByte
      else if w[0] == ins then AckByte(true)
      else if w[0] == 255 - ins then AckByte(false)
      else Garbled
    else if |w| >= 2 then Status(w[..|w| - 2], w[|w| - 2], w[|w| - 1])
    else Garbled
  }

  // A terminal can tell what a handler answered, unless the instruction is taken for another
  // procedure byte: 60 or its inverse.
  lemma WireRead(ins: byte, res: Res)
    requires res.Ok()
    ensures ReadWire(ins, Wire(ins, res)) ==
      (if res.sw1 == PROC_NULL then NullByte
       else if res.Acks() then (if (if res.sw1 == PROC_ACK_ALL then ins else 255 - ins) == PROC_NULL then NullByte
                                else AckByte(res.sw1 == PROC_ACK_ALL))
       else Status(res.b[..res.len], res.sw1, res.sw2))
  {
    var w := Wire(ins, res);
    if !Sends1(res.sw1) {
      Parts(res.b[..res.len], [res.sw1, res.sw2]);
    }
  }
}
