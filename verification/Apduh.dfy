// The command handlers as the card runs them, on its file system and its response chaining
// buffer.  Each one does what `ApduhSpec` says; the branches the repository comments as
// something weird going on are never taken.  The response buffer a handler is given is not
// initialised: `b` is what happens to be in it.
module Apduh {
  import opened Bytes
  import opened Memory
  import opened BerTlv
  import opened FsFormat
  import opened Lut
  import opened DiskIndex
  import opened Disk
  import opened VaSpec
  import opened PathBytes
  import opened FileSys
  import opened ApduRc
  import opened Apdu
  import opened Fci
  import FciBuild
  import opened ApduhSpec

  class Handlers {
    const fs: FileSystem
    const rc: Buffer

    constructor (fs: FileSystem)
      requires fs.Valid()
      ensures Valid() && this.fs == fs && fresh(rc) && fresh(rc.b)
      ensures Now() == Card(fs.Bufs(), fs.va, EMPTY)
    {
      this.fs := fs;
      rc := new Buffer();
    }

    // Nothing here depends on what is selected.
    ghost predicate Sound()
      reads fs.trees, rc
    {
      fs.DiskOk() && rc.Valid() && rc.b !in fs.trees
    }

    ghost predicate Valid()
      reads fs, fs.trees, rc
    {
      Sound() && fs.Valid()
    }

    ghost function Now(): Card
      reads fs, fs.trees, rc, rc.b
      requires Sound()
    {
      Card(fs.Bufs(), fs.va, rc.Now())
    }

    // The file addressed becomes the current one.
    method Address(t: Target)
      requires Valid() && Addressable(fs.ds, fs.va, t)
      modifies fs`va
      ensures Valid() && fs.va == Addressed(fs.ds, old(fs.va), t)
    {
      if t.bySid {
        var ret := fs.SelectSid(t.f.sid);
      }
    }

    // Bytes of a file in the current tree.
    method CopyOut(f: File, at: nat, n: byte, b: bytes) returns (r: bytes)
      requires Valid() && fs.va.tree.Some? && f in Files(fs.ds[fs.va.tree.value])
      requires f.DataAt() <= at && at + n as nat <= f.DataAt() + f.DataSize()
      ensures r == Over(b, 0, Slice(CurBuf(fs.ds, Now()), at, n))
    {
      var t := fs.va.tree.value;
      FileInside(fs.ds, fs.Bufs(), fs.sids, fs.ids, t, f);
      r := Over(b, 0, fs.trees[t][at..at + n as nat]);
    }

    // ----- READ BINARY -----

    // The file and the offset of READ BINARY.
    method FindEf(p1: byte, p2: byte) returns (t: Target)
      requires Valid()
      ensures t == BinaryTarget(fs.ds, fs.va, p1, p2)
    {
      if p1 >= 128 {
        if p1 / 32 % 4 != 0 {
          return Deny(CHER_P1P2_INFO, 0x86);
        }
        t := FindSid(p1 % 32, p2);
        return;
      }
      if fs.va.ef.None? {
        return Deny(CHER_CMD, 0x86);
      }
      t := Found(fs.va.ef.value, 256 * p1 as nat + p2 as nat, false);
    }

    method FindSid(sid: byte, at: nat) returns (t: Target)
      requires Valid()
      ensures t == SidTarget(fs.ds, fs.va, sid, at)
    {
      var r := fs.LookupSid(sid);
      if r == Fail(FsNotFound) {
        return Deny(CHER_P1P2_INFO, 0x82);
      }
      if r.Fail? {
        return Deny(CHER_UNK, 0);
      }
      t := Found(r.value, at, true);
    }

    method JudgeBinary(cmd: Cmd, pc: nat) returns (v: Verdict)
      requires Valid()
      ensures v == BinaryVerdict(fs.ds, fs.va, cmd, pc)
    {
      if cmd.ins != 0xB0 {
        return Answer(CHER_INS, 0, 0);
      }
      if pc == 0 {
        return Answer(PROC_ACK_ALL, 0, 0);
      }
      if cmd.data != [] {
        return Answer(CHER_LEN, 0x02, 0);
      }
      var t := FindEf(cmd.p1, cmd.p2);
      if t.Deny? {
        return Answer(t.sw1, t.sw2, 0);
      }
      var f, at := t.f, t.at;
      if !f.kind.Transparent? {
        return Answer(CHER_CMD, 0x81, 0);
      }
      if at >= f.DataSize() {
        return Answer(CHER_P1P2, 0, 0);
      }
      if at + cmd.p3 as nat > f.DataSize() {
        return Answer(CHER_LE, (f.DataSize() - at) % 256, 0);
      }
      v := Go(t);
    }

    method BinRead(cmd: Cmd, pc: nat, b: bytes) returns (res: Res)
      requires Valid()
      modifies fs`va
      ensures Valid() && Reply(Now(), res) == ReadBinary(fs.ds, old(Now()), cmd, pc, b)
    {
      var v := JudgeBinary(cmd, pc);
      if v.Answer? {
        return Res(v.sw1, v.sw2, v.len, b);
      }
      BinaryFound(fs.ds, fs.va, cmd, pc);
      res := ReadEf(v.t, cmd.p3, b);
    }

    method ReadEf(t: Target, n: byte, b: bytes) returns (res: Res)
      requires Valid() && InEf(fs.ds, fs.va, t, n)
      modifies fs`va
      ensures Valid() && Reply(Now(), res) == BinaryReply(fs.ds, old(Now()), t, n, b)
    {
      EfInside(t.f, t.at, n);
      var data := CopyOut(t.f, EfAt(t.f, t.at), n, b);
      Address(t);
      res := Res(NORM_NONE, 0, n, data);
    }

    // ----- Records -----

    // What READ RECORD and UPDATE RECORD do alike: find the record.
    method FindRcrd(p1: byte, p2: byte) returns (t: Target)
      requires Valid()
      ensures t == RcrdTarget(fs.ds, fs.va, p1, p2)
    {
      var many, byNum := p2 / 8 == 31, p2 / 4 % 2 == 1;
      if many || !byNum {
        return Deny(CHER_P1P2_INFO, 0x81);
      }
      if p2 % 4 == 3 || p1 == 0x00 || p1 == 0xFF {
        return Deny(CHER_P1P2_INFO, 0x86);
      }
      if p2 / 8 != 0 {
        t := FindSid(p2 / 8, p1 as nat - 1);
      } else if fs.va.ef.None? {
        t := Deny(CHER_UNK, 0);
      } else {
        t := Found(fs.va.ef.value, p1 as nat - 1, false);
      }
      if t.Deny? {
        return;
      }
      SidFound(fs.ds, fs.va, p2 / 8);
      FileInside(fs.ds, fs.Bufs(), fs.sids, fs.ids, fs.va.tree.value, t.f);
      var ret := LocateRcrd(t.f, p1 - 1);
      if ret == FsNotFound {
        return Deny(CHER_P1P2_INFO, 0x83);
      }
      if ret != Success {
        return Deny(CHER_UNK, 0);
      }
    }

    // `swicc_disk_file_rcrd`.
    method LocateRcrd(f: File, idx: byte) returns (ret: Ret)
      requires HasRecords(f.kind) ==> |f.spec| == 1 && f.spec[0] > 0
      ensures ret == if !HasRecords(f.kind) then Error else if idx as nat >= RcrdCnt(f) then FsNotFound else Success
    {
      if !HasRecords(f.kind) {
        return Error;
      }
      var cnt := CountRcrds(f);
      if idx as nat >= cnt {
        return FsNotFound;
      }
      RcrdInside(f, idx);
      if f.spec[0] as nat * idx as nat >= f.DataSize() {
        return Error; // Never, for a record that was counted.
      }
      ret := Success;
    }
  
    method JudgeRead(cmd: Cmd, pc: nat) returns (v: Verdict)
      requires Valid()
      ensures v == ReadVerdict(fs.ds, fs.va, cmd, pc)
    {
      if cmd.ins != 0xB2 {
        return Answer(CHER_INS, 0, 0);
      }
      if pc == 0 {
        return Answer(PROC_ACK_ALL, 0, 0);
      }
      if cmd.data != [] {
        return Answer(CHER_LEN, 0x02, 0);
      }
      var t := FindRcrd(cmd.p1, cmd.p2);
      if t.Deny? {
        return Answer(t.sw1, t.sw2, 0);
      }
      if cmd.p3 != RcrdLen(t.f) {
        return Answer(CHER_LE, RcrdLen(t.f), 0);
      }
      v := Go(t);
    }

    // The record addressed becomes the current one.
    method AddressRcrd(t: Target) returns (ret: Ret)
      requires Valid() && RcrdFound(fs.ds, fs.va, t)
      modifies fs`va
      ensures Valid() && ret == Success && fs.va == AddressedRcrd(fs.ds, old(fs.va), t)
    {
      AddressedIs(fs.ds, fs.va, t);
      Address(t);
      ret := fs.SelectRcrdIdx(t.at);
    }

    method RcrdRead(cmd: Cmd, pc: nat, b: bytes) returns (res: Res)
      requires Valid()
      modifies fs`va
      ensures Valid() && Reply(Now(), res) == ReadRecord(fs.ds, old(Now()), cmd, pc, b)
    {
      var v := JudgeRead(cmd, pc);
      if v.Answer? {
        return Res(v.sw1, v.sw2, v.len, b);
      }
      RcrdTargetFound(fs.ds, fs.va, cmd.p1, cmd.p2);
      res := ReadRcrd(v.t, b);
    }

    method ReadRcrd(t: Target, b: bytes) returns (res: Res)
      requires Valid() && RcrdFound(fs.ds, fs.va, t)
      modifies fs`va
      ensures Valid() && Reply(Now(), res) == RcrdReply(fs.ds, old(Now()), t, b)
    {
      RcrdInside(t.f, t.at);
      var data := CopyOut(t.f, RcrdAt(t.f, t.at), RcrdLen(t.f), b);
      var ret := AddressRcrd(t);
      if ret != Success {
        return Unknown(b);
      }
      res := Res(NORM_NONE, 0, RcrdLen(t.f), data);
    }

    method JudgeUpdate(cmd: Cmd, pc: nat) returns (v: Verdict)
      requires Valid()
      ensures v == UpdateVerdict(fs.ds, fs.va, cmd, pc)
    {
      if cmd.ins != 0xDC {
        return Answer(CHER_INS, 0, 0);
      }
      var t := FindRcrd(cmd.p1, cmd.p2);
      if t.Deny? {
        return Answer(t.sw1, t.sw2, 0);
      }
      if pc == 0 {
        return Answer(PROC_ACK_ALL, 0, RcrdLen(t.f));
      }
      if |cmd.data| != RcrdLen(t.f) {
        return Answer(CHER_LEN, 0x02, RcrdLen(t.f));
      }
      if cmd.p3 != RcrdLen(t.f) {
        return Answer(CHER_LE, RcrdLen(t.f), 0);
      }
      v := Go(t);
    }

    method RcrdUpdate(cmd: Cmd, pc: nat, b: bytes) returns (res: Res)
      requires Valid()
      modifies fs`va, fs.trees
      ensures Valid() && Reply(Now(), res) == UpdateRecord(fs.ds, old(Now()), cmd, pc, b)
    {
      var v := JudgeUpdate(cmd, pc);
      if v.Answer? {
        return Res(v.sw1, v.sw2, v.len, b);
      }
      RcrdTargetFound(fs.ds, fs.va, cmd.p1, cmd.p2);
      var t := fs.va.tree.value;
      var ret := AddressRcrd(v.t);
      if ret != Success {
        return Unknown(b);
      }
      PutRcrd(t, v.t.f, v.t.at, cmd.data);
      res := Res(NORM_NONE, 0, 0, b);
    }

    // The record's bytes, in place.
    method PutRcrd(t: nat, f: File, idx: nat, data: bytes)
      requires Valid() && t < |fs.trees| && f in Files(fs.ds[t]) && idx < RcrdCnt(f) && |data| == RcrdLen(f)
      modifies fs.trees[t]
      ensures Valid() && fs.Bufs() == old(fs.Bufs())[t := Over(old(fs.Bufs())[t], RcrdAt(f, idx), data)]
      ensures rc.Now() == old(rc.Now())
    {
      FileInside(fs.ds, fs.Bufs(), fs.sids, fs.ids, t, f);
      RcrdInside(f, idx);
      fs.WriteData(t, f, RcrdAt(f, idx), data);
    }

    // ----- GET RESPONSE -----

    method ResGet(cmd: Cmd, pc: nat, b: bytes) returns (res: Res)
      requires Valid() && |b| == DATA_MAX
      modifies rc`offset
      ensures Valid() && Reply(Now(), res) == GetResponse(old(Now()), cmd, pc, b)
    {
      if pc == 0 {
        return Res(PROC_ACK_ALL, 0, 0, b);
      }
      if cmd.data != [] {
        return Res(CHER_LEN, 0x01, 0, b);
      }
      if cmd.p1 != 0 || cmd.p2 != 0 {
        return Res(CHER_P1P2_INFO, 0x86, 0, b);
      }
      if cmd.p3 == 0 {
        return Res(NORM_NONE, 0, 0, b);
      }
      var buf := new byte[DATA_MAX](i requires 0 <= i < DATA_MAX => b[i]);
      assert buf[..] == b;
      var ret, n := rc.Dequeue(buf, cmd.p3);
      if ret != Success {
        return Res(WARN_NVM_CHGN, 0x82, 0, b);
      }
      var rem := rc.LenRem();
      if rem > 0 {
        return Res(NORM_BYTES_AVAILABLE, if rem > 255 then 0xFF else rem, cmd.p3, buf[..]);
      }
      res := Res(NORM_NONE, 0, cmd.p3, buf[..]);
    }
  
    // ----- SELECT -----

    method SelectMethod(p1: byte, p2: byte, data: bytes) returns (ret: Ret)
      requires Valid() && Supported(p1)
      requires PathCmd(p1, p2, data) ==> CodePath(fs.ds, fs.Bufs(), fs.va, FromOf(p1), Ids(data)).Some?
      modifies fs`va
      ensures Sound() && Outcome(ret, fs.va) == SelectBy(fs.ds, fs.Bufs(), old(fs.va), p1, p2, data)
      ensures !PathCmd(p1, p2, data) ==> Valid()
    {
      if p1 == 0 {
        if |data| != 2 {
          return Error;
        }
        ret := fs.SelectId(256 * data[0] as int + data[1] as int);
      } else if p1 == 4 {
        if |data| > NAME_LEN || |data| < 5 || p2 % 4 != 0 {
          return Error;
        }
        ret := SelectName(data);
      } else {
        if |data| < 2 || p2 % 4 != 0 || |data| % 2 != 0 {
          return Error;
        }
        var path := HostPath(data);
        ret := fs.SelectByPath(if p1 == 8 then FromMf else FromDf, path);
      }
    }

    // By the name of an ADF, else of a DF.
    method SelectName(name: bytes) returns (ret: Ret)
      requires Valid() && 5 <= |name| <= NAME_LEN
      modifies fs`va
      ensures Valid()
      ensures Outcome(ret, fs.va) ==
        Select(fs.ds, old(fs.va), if ByAid(fs.ds, 1, name).Some? then ByAid(fs.ds, 1, name) else ByName(fs.ds, name))
    {
      ret := fs.SelectAdf(name);
      if ret == FsNotFound {
        ret := fs.SelectDfName(name);
      }
    }

    // The template of the current file goes to the response chaining buffer.
    method Tell(req: Request, b: bytes) returns (res: Res)
      requires Sound() && fs.va.file.Some? && |b| == DATA_MAX && (req != Absent ==> Selectable(fs.va.file.value))
      modifies rc`len, rc.b
      ensures Sound() && Reply(Now(), res) == TellFile(old(Now()), fs.va.file.value, req, b)
    {
      if req == Absent {
        return Res(NORM_NONE, 0, 0, b);
      }
      var built, buf, n := BuildInfo(fs.va.file.value, req, b);
      if !built {
        return Unknown(b);
      }
      res := Announce(buf, n);
    }

    lemma CurSelectable()
      requires Valid() && fs.va.file.Some?
      ensures Selectable(fs.va.file.value)
    {
      var t := fs.va.tree.value;
      FileInside(fs.ds, fs.Bufs(), fs.sids, fs.ids, t, fs.va.file.value);
    }

    // What was built is queued.
    method Announce(b: bytes, n: nat) returns (res: Res)
      requires Sound() && n <= |b| == DATA_MAX
      modifies rc`len, rc.b
      ensures Sound() && fs.Bufs() == old(fs.Bufs())
      ensures var (ret, q) := Enq(old(rc.Now()), b[..n]);
        rc.Now() == q && res == if ret == Success then Res(NORM_BYTES_AVAILABLE, n % 256, 0, b) else Unknown(b)
    {
      var ret := rc.Enqueue(b[..n]);
      if ret != Success {
        return Unknown(b);
      }
      res := Res(NORM_BYTES_AVAILABLE, n % 256, 0, b);
    }

    method SelectFile(cmd: Cmd, pc: nat, b: bytes) returns (res: Res)
      requires Valid() && |b| == DATA_MAX && CmdDefined(fs.ds, Now(), cmd)
      modifies fs`va, rc`len, rc.b
      ensures Sound() && Reply(Now(), res) == SelectCmd(fs.ds, old(Now()), cmd, pc, b)
    {
      var refused := JudgeSelect(cmd, pc);
      if refused.Some? {
        return Res(refused.value.0, refused.value.1, refused.value.2, b);
      }
      SelectedSomething(fs.ds, fs.Bufs(), fs.va, cmd.p1, cmd.p2, cmd.data);
      var ret := SelectMethod(cmd.p1, cmd.p2, cmd.data);
      if ret == Success && !PathCmd(cmd.p1, cmd.p2, cmd.data) {
        CurSelectable();
      }
      res := AnswerSelect(ret, RequestOf(cmd.p2), b);
    }

    method AnswerSelect(ret: Ret, req: Request, b: bytes) returns (res: Res)
      requires Sound() && |b| == DATA_MAX
      requires ret == Success ==> fs.va.file.Some? && (req != Absent ==> Selectable(fs.va.file.value))
      modifies rc`len, rc.b
      ensures Sound() && Reply(Now(), res) == SelectReply(old(Now()), ret, req, b)
    {
      if ret == FsNotFound {
        return Res(CHER_P1P2_INFO, 0x82, 0, b);
      }
      if ret != Success {
        return Unknown(b);
      }
      res := Tell(req, b);
    }

    // ----- All of them -----

    // `swicc_apduh_demux`.
    method Dispatch(cmd: Cmd, pc: nat, b: bytes) returns (res: Res)
      requires Valid() && |b| == DATA_MAX && (cmd.ins == 0xA4 ==> CmdDefined(fs.ds, Now(), cmd))
      modifies fs`va, fs.trees, rc, rc.b
      ensures Sound() && Reply(Now(), res) == Demux(fs.ds, old(Now()), cmd, pc, b)
    {
      var typ := ClaParse(cmd.cla).typ;
      if typ == Rfu {
        return Res(CHER_CLA, 0, 0, b);
      }
      if typ == Proprietary {
        return Res(CHER_INS, 0, 0, b); // No handler takes it.
      }
      if cmd.ins == 0xC0 {
        res := ResGet(cmd, pc, b);
        return;
      }
      rc.Reset();
      match cmd.ins
      case 0xA4 => res := SelectFile(cmd, pc, b);
      case 0xB0 => res := BinRead(cmd, pc, b);
      case 0xB1 => res := BinRead(cmd, pc, b);
      case 0xB2 => res := RcrdRead(cmd, pc, b);
      case 0xB3 => res := RcrdRead(cmd, pc, b);
      case 0xDC => res := RcrdUpdate(cmd, pc, b);
      case 0xDD => res := RcrdUpdate(cmd, pc, b);
      case _ => res := Res(CHER_INS, 0, 0, b);
    }
  }

  method JudgeSelect(cmd: Cmd, pc: nat) returns (a: Option<(byte, byte, nat)>)
    ensures a == SelectRefused(cmd, pc)
  {
    if cmd.p2 / 16 != 0 {
      return Some((CHER_P1P2_INFO, 0x86, 0));
    }
    if pc == 0 {
      if cmd.data != [] {
        return Some((CHER_UNK, 0, 0));
      }
      if cmd.p3 > 0 {
        return Some((PROC_ACK_ALL, 0, cmd.p3));
      }
    }
    if |cmd.data| != cmd.p3 && pc >= 1 {
      return Some((CHER_LEN, 0x02, 0));
    }
    if !Supported(cmd.p1) {
      return Some((CHER_P1P2, 0, 0));
    }
    a := None;
  }

  // The template of a file, in the response buffer.
  method BuildInfo(f: File, req: Request, b: bytes) returns (built: bool, r: bytes, n: nat)
    requires Selectable(f) && req != Absent && |b| == DATA_MAX
    ensures match InfoOf(f, req)
      case None => !built
      case Some(t) => built && n == |t| <= |r| == DATA_MAX && r == Over(b, 0, t) && r[..n] == t
  {
    r, n := b, 0;
    var descr := FileDescr(f);
    if descr.None? {
      return false, r, n;
    }
    var buf := new byte[DATA_MAX](i requires 0 <= i < DATA_MAX => b[i]);
    assert buf[..] == b;
    built, n := FciBuild.Build(f, descr.value, req, buf);
    r := buf[..];
    SpliceReads(b, 0, Encode(Template(f, Descr(f), req)));
  }

  // The IDs of a path, in the byte order of the host.
  method HostPath(data: bytes) returns (path: seq<u16>)
    ensures path == Ids(data)
  {
    path := [];
    var i := 0;
    ghost var rest := data;
    while i < |data| / 2
      invariant 0 <= i <= |data| / 2 && |rest| == |data| - 2 * i && rest == data[2 * i..]
      invariant path + Ids(rest) == Ids(data)
    {
      var id: u16 := 256 * data[2 * i] as int + data[2 * i + 1] as int;
      assert rest[0] == data[2 * i] && rest[1] == data[2 * i + 1];
      assert Ids(rest) == [id] + Ids(rest[2..]);
      Assoc(path, [id], Ids(rest[2..]));
      path, rest := path + [id], rest[2..];
      i := i + 1;
    }
    assert path + [] == path;
  }

  // A file of the current tree that its own short identifier leads to, if that was used.
  ghost predicate Addressable(ds: seq<Dir>, va: Va, t: Target) {
    && VaOk(ds, va) && va.tree.Some? && t.Found?
    && t.f in Files(ds[va.tree.value])
    && (t.bySid ==> BySidNow(ds, va, t.f.sid) == Ok(t.f))
  }

  // Bytes of such a file.
  ghost predicate InEf(ds: seq<Dir>, va: Va, t: Target, n: byte) {
    Addressable(ds, va, t) && Inside(t.f, t.at, n)
  }

  ghost predicate Inside(f: File, at: nat, n: byte) { at + n as nat <= f.DataSize() }

  lemma EfInside(f: File, at: nat, n: byte)
    requires Inside(f, at, n)
    ensures f.DataAt() <= EfAt(f, at) && EfAt(f, at) + n as nat <= f.DataAt() + f.DataSize()
  {}

  // A record of such a file, which is the current EF unless it was found otherwise.
  ghost predicate RcrdFound(ds: seq<Dir>, va: Va, t: Target) {
    Addressable(ds, va, t) && t.at < 256 && t.at < RcrdCnt(t.f) && (!t.bySid ==> va.ef == Some(t.f))
  }

  lemma AddressedIs(ds: seq<Dir>, va: Va, t: Target)
    requires RcrdFound(ds, va, t)
    ensures Addressed(ds, va, t).ef == Some(t.f) && HasRecords(t.f.kind)
    ensures AddressedRcrd(ds, va, t) == SelectRcrd(Addressed(ds, va, t), t.at).va
    ensures SelectRcrd(Addressed(ds, va, t), t.at).ret == Success
  {}

  lemma RcrdTargetFound(ds: seq<Dir>, va: Va, p1: byte, p2: byte)
    requires VaOk(ds, va)
    ensures var t := RcrdTarget(ds, va, p1, p2); t.Found? ==> RcrdFound(ds, va, t) && t.at == p1 as nat - 1
  {
    SidFound(ds, va, p2 / 8);
  }

  lemma BinaryFound(ds: seq<Dir>, va: Va, cmd: Cmd, pc: nat)
    requires VaOk(ds, va)
    ensures var v := BinaryVerdict(ds, va, cmd, pc);
      v.Go? ==> InEf(ds, va, v.t, cmd.p3)
  {
    if cmd.p1 >= 128 {
      SidFound(ds, va, cmd.p1 % 32);
    }
  }

  // A successful selection leaves a current file.
  lemma SelectedSomething(ds: seq<Dir>, bufs: seq<bytes>, va: Va, p1: byte, p2: byte, data: bytes)
    requires |bufs| == |ds|
    ensures var o := SelectBy(ds, bufs, va, p1, p2, data);
      o.ret == Success ==> o.va.file.Some?
  {}

  lemma SidFound(ds: seq<Dir>, va: Va, sid: byte)
    requires VaOk(ds, va)
    ensures var r := BySidNow(ds, va, sid);
      r.Ok? ==> va.tree.Some? && r.value.sid == sid && r.value in Files(ds[va.tree.value])
  {
    if va.tree.Some? {
      LastIsMatch(Files(ds[va.tree.value]), HasSid(sid));
    }
  }

  // The data of a file lies inside its tree.
  lemma FileInside(ds: seq<Dir>, bufs: seq<bytes>, sids: seq<seq<Entry>>, ids: seq<Entry>, t: nat, f: File)
    requires Mounted(ds, bufs, sids, ids) && t < |ds| && f in Files(ds[t])
    ensures f.DataAt() + f.DataSize() <= |bufs[t]|
    ensures HasRecords(f.kind) ==> |f.spec| == 1 && f.spec[0] > 0
    ensures Selectable(f)
  {
    assert ReadTree(bufs[t]) == Some(ds[t]);
    FileFound(bufs[t], f);
  }

  lemma RcrdInside(f: File, idx: nat)
    requires idx < RcrdCnt(f)
    ensures |f.spec| == 1 && RcrdLen(f) > 0
    ensures f.DataAt() <= RcrdAt(f, idx) && RcrdAt(f, idx) + RcrdLen(f) as nat <= f.DataAt() + f.DataSize()
  {
    QuotFits(f.DataSize(), f.spec[0], idx);
    assert (idx + 1) * f.spec[0] as nat == idx * f.spec[0] as nat + f.spec[0] as nat;
  }
}
