// What each built-in command answers and leaves behind, stated on the card's contents: the
// bytes of its trees, its validity area and its response chaining buffer.
module ApduhSpec {
  import opened Bytes
  import opened Memory
  import opened BerTlv
  import opened FsFormat
  import opened DiskIndex
  import opened Disk
  import opened VaSpec
  import opened PathBytes
  import opened ApduRc
  import opened Apdu
  import opened Fci

  datatype Card = Card(bufs: seq<bytes>, va: Va, rc: Queue)
  datatype Reply = Reply(card: Card, res: Res)

  ghost predicate CardOk(ds: seq<Dir>, c: Card) { VaOk(ds, c.va) && |c.bufs| == |ds| && c.rc.Ok() }

  // A status without data, or a procedure byte that asks for `n` bytes.
  function Sw(sw1: byte, sw2: byte, b: bytes): Res { Res(sw1, sw2, 0, b) }
  function Ack(n: nat, b: bytes): Res { Res(PROC_ACK_ALL, 0, n, b) }

  function Unknown(b: bytes): Res { Sw(CHER_UNK, 0, b) }

  // `n` bytes of a buffer, and a buffer with bytes written over it.  Neither is used outside
  // the buffer on a well-formed disk.
  function Slice(s: bytes, at: nat, n: nat): bytes { if at + n <= |s| then s[at..at + n] else [] }
  function Over(s: bytes, at: nat, d: bytes): (r: bytes)
    ensures |r| == |s|
  {
    if at + |d| <= |s| then Splice(s, at, d) else s
  }

  // A short file identifier in the current tree.
  function BySidNow(ds: seq<Dir>, va: Va, sid: byte): Result<File>
    requires VaOk(ds, va)
  {
    if va.tree.None? then Fail(ParamBad)
    else match BySid(ds, va, sid) case None => Fail(FsNotFound) case Some(f) => Ok(f.1)
  }

  // What a command addresses: a position in a file (offset or record number), or the status
  // that says why not.
  datatype Target = Deny(sw1: byte, sw2: byte) | Found(f: File, at: nat, bySid: bool)

  // What a handler decides to do: answer at once and change nothing, or go on.
  datatype Verdict = Answer(sw1: byte, sw2: byte, len: nat) | Go(t: Target)

  // A file named by its short identifier becomes the current one.
  function Addressed(ds: seq<Dir>, va: Va, t: Target): Va
    requires VaOk(ds, va) && t.Found?
  {
    if t.bySid && va.tree.Some? then Selected(va, ds[va.tree.value], va.tree.value, t.f) else va
  }

  // The bytes of the current tree.
  function CurBuf(ds: seq<Dir>, c: Card): bytes
    requires CardOk(ds, c)
  {
    if c.va.tree.None? then [] else c.bufs[c.va.tree.value]
  }

  function SidTarget(ds: seq<Dir>, va: Va, sid: byte, at: nat): Target
    requires VaOk(ds, va)
  {
    match BySidNow(ds, va, sid)
    case Fail(ret) => if ret == FsNotFound then Deny(CHER_P1P2_INFO, 0x82) else Deny(CHER_UNK, 0)
    case Ok(f) => Found(f, at, true)
  }

  // ----- READ BINARY -----

  function BinaryTarget(ds: seq<Dir>, va: Va, p1: byte, p2: byte): Target
    requires VaOk(ds, va)
  {
    if p1 < 128 then
      if va.ef.None? then Deny(CHER_CMD, 0x86) else Found(va.ef.value, 256 * p1 as nat + p2 as nat, false)
    else if p1 / 32 % 4 != 0 then Deny(CHER_P1P2_INFO, 0x86)
    else SidTarget(ds, va, p1 % 32, p2)
  }

  // Only what lies inside a transparent EF is read.
  function BinaryVerdict(ds: seq<Dir>, va: Va, cmd: Cmd, pc: nat): Verdict
    requires VaOk(ds, va)
  {
    if cmd.ins != 0xB0 then Answer(CHER_INS, 0, 0)
    else if pc == 0 then Answer(PROC_ACK_ALL, 0, 0)
    else if cmd.data != [] then Answer(CHER_LEN, 0x02, 0)
    else
      match BinaryTarget(ds, va, cmd.p1, cmd.p2)
      case Deny(sw1, sw2) => Answer(sw1, sw2, 0)
      case Found(f, at, bySid) =>
        if !f.kind.Transparent? then Answer(CHER_CMD, 0x81, 0)
        else if at >= f.DataSize() then Answer(CHER_P1P2, 0, 0)
        else if at + cmd.p3 as nat > f.DataSize() then Answer(CHER_LE, (f.DataSize() - at) % 256, 0)
        else Go(Found(f, at, bySid))
  }

  function ReadBinary(ds: seq<Dir>, c: Card, cmd: Cmd, pc: nat, b: bytes): Reply
    requires CardOk(ds, c)
  {
    match BinaryVerdict(ds, c.va, cmd, pc)
    case Answer(sw1, sw2, len) => Reply(c, Res(sw1, sw2, len, b))
    case Go(t) => BinaryReply(ds, c, t, cmd.p3, b)
  }

  function EfAt(f: File, at: nat): nat { f.DataAt() + at }

  function BinaryReply(ds: seq<Dir>, c: Card, t: Target, n: byte, b: bytes): Reply
    requires CardOk(ds, c) && t.Found?
  {
    Reply(c.(va := Addressed(ds, c.va, t)),
          Res(NORM_NONE, 0, n, Over(b, 0, Slice(CurBuf(ds, c), EfAt(t.f, t.at), n))))
  }

  // ----- Records -----

  // Only a single record of one EF, by its number, can be addressed.
  function RcrdRefused(p1: byte, p2: byte): Option<(byte, byte)> {
    if p2 / 8 == 31 || p2 / 4 % 2 == 0 then Some((CHER_P1P2_INFO, 0x81))
    else if p2 % 4 == 3 || p1 == 0 || p1 == 255 then Some((CHER_P1P2_INFO, 0x86))
    else None
  }

  // The EF with a short identifier, or the current one.
  function EfTarget(ds: seq<Dir>, va: Va, sid: byte, at: nat): Target
    requires VaOk(ds, va)
  {
    if sid != 0 then SidTarget(ds, va, sid, at)
    else if va.ef.None? then Deny(CHER_UNK, 0)
    else Found(va.ef.value, at, false)
  }

  function RcrdTarget(ds: seq<Dir>, va: Va, p1: byte, p2: byte): Target
    requires VaOk(ds, va)
  {
    match RcrdRefused(p1, p2)
    case Some(sw) => Deny(sw.0, sw.1)
    case None =>
      match EfTarget(ds, va, p2 / 8, if p1 > 0 then p1 as nat - 1 else 0)
      case Deny(sw1, sw2) => Deny(sw1, sw2)
      case Found(f, at, bySid) => RcrdIn(f, at, bySid)
  }

  function RcrdIn(f: File, idx: nat, bySid: bool): Target {
    if !HasRecords(f.kind) then Deny(CHER_UNK, 0)
    else if idx >= RcrdCnt(f) then Deny(CHER_P1P2_INFO, 0x83)
    else Found(f, idx, bySid)
  }

  function RcrdLen(f: File): byte { if |f.spec| == 1 then f.spec[0] else 0 }

  function RcrdAt(f: File, idx: nat): nat { f.DataAt() + idx * RcrdLen(f) }

  // The record addressed becomes the current one.
  function AddressedRcrd(ds: seq<Dir>, va: Va, t: Target): Va
    requires VaOk(ds, va) && t.Found?
  {
    SelectRcrd(Addressed(ds, va, t), t.at % 256).va
  }

  function ReadVerdict(ds: seq<Dir>, va: Va, cmd: Cmd, pc: nat): Verdict
    requires VaOk(ds, va)
  {
    if cmd.ins != 0xB2 then Answer(CHER_INS, 0, 0)
    else if pc == 0 then Answer(PROC_ACK_ALL, 0, 0)
    else if cmd.data != [] then Answer(CHER_LEN, 0x02, 0)
    else
      match RcrdTarget(ds, va, cmd.p1, cmd.p2)
      case Deny(sw1, sw2) => Answer(sw1, sw2, 0)
      case Found(f, at, bySid) =>
        if cmd.p3 != RcrdLen(f) then Answer(CHER_LE, RcrdLen(f), 0) else Go(Found(f, at, bySid))
  }

  function ReadRecord(ds: seq<Dir>, c: Card, cmd: Cmd, pc: nat, b: bytes): Reply
    requires CardOk(ds, c)
  {
    match ReadVerdict(ds, c.va, cmd, pc)
    case Answer(sw1, sw2, len) => Reply(c, Res(sw1, sw2, len, b))
    case Go(t) => RcrdReply(ds, c, t, b)
  }

  function RcrdReply(ds: seq<Dir>, c: Card, t: Target, b: bytes): Reply
    requires CardOk(ds, c) && t.Found?
  {
    Reply(c.(va := AddressedRcrd(ds, c.va, t)),
          Res(NORM_NONE, 0, RcrdLen(t.f), Over(b, 0, Slice(CurBuf(ds, c), RcrdAt(t.f, t.at), RcrdLen(t.f)))))
  }

  // The answer to data of the wrong length claims as many bytes as the record has and so
  // sends what happens to be in the response buffer.
  function UpdateVerdict(ds: seq<Dir>, va: Va, cmd: Cmd, pc: nat): Verdict
    requires VaOk(ds, va)
  {
    if cmd.ins != 0xDC then Answer(CHER_INS, 0, 0)
    else
      match RcrdTarget(ds, va, cmd.p1, cmd.p2)
      case Deny(sw1, sw2) => Answer(sw1, sw2, 0)
      case Found(f, at, bySid) =>
        if pc == 0 then Answer(PROC_ACK_ALL, 0, RcrdLen(f))
        else if |cmd.data| != RcrdLen(f) then Answer(CHER_LEN, 0x02, RcrdLen(f))
        else if cmd.p3 != RcrdLen(f) then Answer(CHER_LE, RcrdLen(f), 0)
        else Go(Found(f, at, bySid))
  }

  // The trees with bytes of the current one written over.
  function Written(ds: seq<Dir>, c: Card, at: nat, data: bytes): (r: seq<bytes>)
    requires CardOk(ds, c)
    ensures |r| == |c.bufs|
  {
    if c.va.tree.None? then c.bufs else c.bufs[c.va.tree.value := Over(CurBuf(ds, c), at, data)]
  }

  function UpdateRecord(ds: seq<Dir>, c: Card, cmd: Cmd, pc: nat, b: bytes): Reply
    requires CardOk(ds, c)
  {
    match UpdateVerdict(ds, c.va, cmd, pc)
    case Answer(sw1, sw2, len) => Reply(c, Res(sw1, sw2, len, b))
    case Go(t) =>
      Reply(c.(va := AddressedRcrd(ds, c.va, t), bufs := Written(ds, c, RcrdAt(t.f, t.at), cmd.data)),
            Res(NORM_NONE, 0, 0, b))
  }

  // ----- GET RESPONSE -----

  function GetResponse(c: Card, cmd: Cmd, pc: nat, b: bytes): Reply
    requires c.rc.Ok()
  {
    if pc == 0 then Reply(c, Ack(0, b))
    else if cmd.data != [] then Reply(c, Sw(CHER_LEN, 0x01, b))
    else if cmd.p1 != 0 || cmd.p2 != 0 then Reply(c, Sw(CHER_P1P2_INFO, 0x86, b))
    else if cmd.p3 == 0 then Reply(c, Sw(NORM_NONE, 0, b))
    else
      var (ret, q) := Deq(c.rc, cmd.p3);
      if ret != Success then Reply(c, Sw(WARN_NVM_CHGN, 0x82, b))
      else
        var rem := |q.Left()|;
        Reply(c.(rc := q), Res(if rem > 0 then NORM_BYTES_AVAILABLE else NORM_NONE, if rem > 255 then 255 else rem,
                               cmd.p3, Over(b, 0, c.rc.Left()[..cmd.p3])))
  }

  // ----- SELECT -----

  function Ids(data: bytes): (r: seq<u16>)
    ensures |r| == |data| / 2
    decreases |data|
  {
    if |data| < 2 then [] else [256 * data[0] as int + data[1] as int] + Ids(data[2..])
  }

  predicate GoodPath(p2: byte, data: bytes) { |data| >= 2 && |data| % 2 == 0 && p2 % 4 == 0 }

  // The selection itself, by the method in P1.
  function SelectBy(ds: seq<Dir>, bufs: seq<bytes>, va: Va, p1: byte, p2: byte, data: bytes): Outcome
    requires |bufs| == |ds|
  {
    if p1 == 0 then
      if |data| != 2 then Outcome(Error, va)
      else Select(ds, va, ById(ds, 256 * data[0] as int + data[1] as int))
    else if p1 == 4 then
      if |data| > NAME_LEN || |data| < 5 || p2 % 4 != 0 then Outcome(Error, va)
      else if ByAid(ds, 1, data).Some? then Select(ds, va, ByAid(ds, 1, data))
      else Select(ds, va, ByName(ds, data))
    else if GoodPath(p2, data) then
      var o := CodePath(ds, bufs, va, FromOf(p1), Ids(data));
      if o.Some? then o.value else Outcome(Error, va) // None: nothing can be said; see `CmdDefined`.
    else Outcome(Error, va)
  }

  predicate Supported(p1: byte) { p1 == 0 || p1 == 4 || p1 == 8 || p1 == 9 }

  function RequestOf(p2: byte): Request { [Fci, Fcp, Fmd, Absent][p2 / 4 % 4] }

  // What can be told about a file; nothing when its descriptor has no room for it.
  function InfoOf(f: File, req: Request): Option<bytes>
    requires req != Absent
  {
    if (HasRecords(f.kind) && |f.spec| != 1) || !Describable(f) then None
    else Some(Encode(Template(f, Descr(f), req)))
  }

  // The answer to a selection that succeeded: how much can be fetched.
  function TellFile(c: Card, f: File, req: Request, b: bytes): Reply {
    if req == Absent then Reply(c, Sw(NORM_NONE, 0, b))
    else
      match InfoOf(f, req)
      case None => Reply(c, Unknown(b))
      case Some(t) =>
        var (ret, q) := Enq(c.rc, t);
        Reply(c.(rc := q),
              if ret == Success then Sw(NORM_BYTES_AVAILABLE, |t| % 256, Over(b, 0, t)) else Unknown(Over(b, 0, t)))
  }

  // The answer where nothing is selected.
  function SelectRefused(cmd: Cmd, pc: nat): Option<(byte, byte, nat)> {
    if cmd.p2 / 16 != 0 then Some((CHER_P1P2_INFO, 0x86, 0))
    else if pc == 0 && cmd.data != [] then Some((CHER_UNK, 0, 0))
    else if pc == 0 && cmd.p3 > 0 then Some((PROC_ACK_ALL, 0, cmd.p3))
    else if pc >= 1 && |cmd.data| != cmd.p3 then Some((CHER_LEN, 0x02, 0))
    else if !Supported(cmd.p1) then Some((CHER_P1P2, 0, 0))
    else None
  }

  function SelectCmd(ds: seq<Dir>, c: Card, cmd: Cmd, pc: nat, b: bytes): Reply
    requires |c.bufs| == |ds|
  {
    match SelectRefused(cmd, pc)
    case Some(a) => Reply(c, Res(a.0, a.1, a.2, b))
    case None =>
      var o := SelectBy(ds, c.bufs, c.va, cmd.p1, cmd.p2, cmd.data);
      SelectReply(c.(va := o.va), o.ret, RequestOf(cmd.p2), b)
  }

  function SelectReply(c: Card, ret: Ret, req: Request, b: bytes): Reply {
    if ret == FsNotFound then Reply(c, Sw(CHER_P1P2_INFO, 0x82, b))
    else if ret != Success || c.va.file.None? then Reply(c, Unknown(b))
    else TellFile(c, c.va.file.value, req, b)
  }

  predicate PathCmd(p1: byte, p2: byte, data: bytes) { (p1 == 8 || p1 == 9) && GoodPath(p2, data) }

  function FromOf(p1: byte): PathFrom { if p1 == 8 then FromMf else FromDf }

  // A SELECT by a path that leads through folders.
  ghost predicate CmdOk(ds: seq<Dir>, va: Va, cmd: Cmd) {
    PathCmd(cmd.p1, cmd.p2, cmd.data) ==> PathDefined(ds, va, FromOf(cmd.p1), Ids(cmd.data))
  }

  // A SELECT that the code gives a meaning: following a path ends and reads no bytes outside
  // the tree, and what is then described has a life cycle status and a record size.
  ghost predicate CmdDefined(ds: seq<Dir>, c: Card, cmd: Cmd)
    requires |c.bufs| == |ds|
  {
    PathCmd(cmd.p1, cmd.p2, cmd.data) ==>
      var o := CodePath(ds, c.bufs, c.va, FromOf(cmd.p1), Ids(cmd.data));
      && o.Some?
      && (o.value.ret == Success && RequestOf(cmd.p2) != Absent && o.value.va.file.Some? ==>
          Selectable(o.value.va.file.value))
  }

  // A SELECT by a path that leads off the tree: to bytes that are taken for a header but are
  // no file's, or to no defined outcome.
  ghost predicate Strays(ds: seq<Dir>, c: Card, cmd: Cmd, pc: nat)
    requires |c.bufs| == |ds|
  {
    && ClaParse(cmd.cla).typ == Interindustry && cmd.ins == 0xA4
    && SelectRefused(cmd, pc).None? && PathCmd(cmd.p1, cmd.p2, cmd.data)
    && (CodePath(ds, c.bufs, c.va, FromOf(cmd.p1), Ids(cmd.data)).None?
        || Planted(ds, c.bufs, c.va, FromOf(cmd.p1), Ids(cmd.data)))
  }

  // ----- All of them -----

  // The commands other than GET RESPONSE.
  function Handle(ds: seq<Dir>, c: Card, cmd: Cmd, pc: nat, b: bytes): Reply
    requires CardOk(ds, c)
  {
    if cmd.ins == 0xA4 then SelectCmd(ds, c, cmd, pc, b)
    else if cmd.ins == 0xB0 || cmd.ins == 0xB1 then ReadBinary(ds, c, cmd, pc, b)
    else if cmd.ins == 0xB2 || cmd.ins == 0xB3 then ReadRecord(ds, c, cmd, pc, b)
    else if cmd.ins == 0xDC || cmd.ins == 0xDD then UpdateRecord(ds, c, cmd, pc, b)
    else Reply(c, Sw(CHER_INS, 0, b))
  }

  // `swicc_apduh_demux` without handlers of one's own.  All but GET RESPONSE leave nothing to
  // resume.
  function Demux(ds: seq<Dir>, c: Card, cmd: Cmd, pc: nat, b: bytes): Reply
    requires CardOk(ds, c)
  {
    match ClaParse(cmd.cla).typ
    case Rfu => Reply(c, Sw(CHER_CLA, 0, b))
    case Proprietary => Reply(c, Sw(CHER_INS, 0, b))
    case Interindustry =>
      if cmd.ins == 0xC0 then GetResponse(c, cmd, pc, b) else Handle(ds, c.(rc := EMPTY), cmd, pc, b)
  }
}
