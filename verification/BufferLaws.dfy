// A response buffer is not initialised.  What is sent of it does not depend on what happened
// to be in it, but for one answer.
module BufferLaws {
  import opened Bytes
  import opened Memory
  import opened FsFormat
  import opened Lut
  import opened DiskIndex
  import opened Disk
  import opened VaSpec
  import opened FileSys
  import opened ApduRc
  import opened Apdu
  import opened Fci
  import opened ApduhSpec
  import opened Apduh
  import opened CardLaws
  import opened RecordLaws
  import opened ResponseLaws

  // Two answers that look the same from outside.
  predicate SameSent(ins: byte, r: Res, s: Res) {
    && r.Ok() && s.Ok() && Wire(ins, r) == Wire(ins, s)
    && r.sw1 == s.sw1 && r.sw2 == s.sw2 && r.len == s.len
  }

  // Two replies that look the same from outside and leave the same card.
  predicate SameReply(ins: byte, r: Reply, s: Reply) { r.card == s.card && SameSent(ins, r.res, s.res) }

  // An UPDATE RECORD of a record that exists, with data of another length.
  ghost predicate Leaks(ds: seq<Dir>, va: Va, cmd: Cmd, pc: nat) {
    && VaOk(ds, va) && pc > 0
    && RcrdTarget(ds, va, cmd.p1, cmd.p2).Found?
    && |cmd.data| != RcrdLen(RcrdTarget(ds, va, cmd.p1, cmd.p2).f)
  }

  lemma UpdateLeaks(ds: seq<Dir>, c: Card, cmd: Cmd, pc: nat, b: bytes)
    requires CardOk(ds, c) && cmd.ins == 0xDC && Leaks(ds, c.va, cmd, pc)
    ensures UpdateRecord(ds, c, cmd, pc, b) ==
      Reply(c, Res(0x67, 0x02, RcrdLen(RcrdTarget(ds, c.va, cmd.p1, cmd.p2).f), b))
  {}

  lemma UpdateServed(k: Mount, c: Card, cmd: Cmd, pc: nat, b: bytes)
    requires Good(k, c) && Does(cmd, 0xDC)
    ensures Demux(k.ds, c, cmd, pc, b) == UpdateRecord(k.ds, c.(rc := EMPTY), cmd, pc, b)
  {}

  lemma TargetHolds(ds: seq<Dir>, va: Va, p1: byte, p2: byte)
    requires VaOk(ds, va) && RcrdTarget(ds, va, p1, p2).Found?
    ensures RcrdLen(RcrdTarget(ds, va, p1, p2).f) > 0
  {
    RcrdTargetFound(ds, va, p1, p2);
    RcrdInside(RcrdTarget(ds, va, p1, p2).f, RcrdTarget(ds, va, p1, p2).at);
  }

  lemma LeakSent(ins: byte, n: byte, b: bytes)
    requires 0 < n && |b| == DATA_MAX
    ensures var r := Res(0x67, 0x02, n, b); r.Ok() && Wire(ins, r) == b[..n] + [0x67, 0x02]
  {}

  // It is answered with the uninitialised beginning of the response buffer, as long as the
  // record, in front of the status.
  lemma BufferLeaks(k: Mount, c: Card, cmd: Cmd, pc: nat, b: bytes)
    requires Good(k, c) && Does(cmd, 0xDC) && Leaks(k.ds, c.va, cmd, pc) && |b| == DATA_MAX
    ensures var r, n := Demux(k.ds, c, cmd, pc, b), RcrdLen(RcrdTarget(k.ds, c.va, cmd.p1, cmd.p2).f);
      && 0 < n && r.card == c.(rc := EMPTY)
      && r.res.Ok() && Wire(cmd.ins, r.res) == b[..n] + [0x67, 0x02]
  {
    TargetHolds(k.ds, c.va, cmd.p1, cmd.p2);
    UpdateServed(k, c, cmd, pc, b);
    UpdateLeaks(k.ds, c.(rc := EMPTY), cmd, pc, b);
    LeakSent(cmd.ins, RcrdLen(RcrdTarget(k.ds, c.va, cmd.p1, cmd.p2).f), b);
  }

  // ----- Everything else -----

  // Without data, or with a procedure byte, nothing of the buffer is sent.
  predicate Quiet(v: Verdict) { v.Answer? ==> v.len <= DATA_MAX && (v.len == 0 || Sends1(v.sw1)) }

  lemma QuietSame(ins: byte, sw1: byte, sw2: byte, len: nat, b: bytes, b': bytes)
    requires |b| == DATA_MAX && |b'| == DATA_MAX && len <= DATA_MAX && (len == 0 || Sends1(sw1))
    ensures SameSent(ins, Res(sw1, sw2, len, b), Res(sw1, sw2, len, b'))
  {
    assert b[..0] == b'[..0];
  }

  // Data written over the beginning of the buffer hides it.
  lemma OverSame(ins: byte, sw1: byte, sw2: byte, b: bytes, b': bytes, d: bytes)
    requires |b| == DATA_MAX && |b'| == DATA_MAX && |d| <= DATA_MAX
    ensures SameSent(ins, Res(sw1, sw2, |d|, Over(b, 0, d)), Res(sw1, sw2, |d|, Over(b', 0, d)))
  {
    SpliceReads(b, 0, d);
    SpliceReads(b', 0, d);
  }

  lemma GetHidden(k: Mount, c: Card, cmd: Cmd, pc: nat, b: bytes, b': bytes)
    requires Good(k, c) && |b| == DATA_MAX && |b'| == DATA_MAX
    ensures SameReply(cmd.ins, GetResponse(c, cmd, pc, b), GetResponse(c, cmd, pc, b'))
  {
    var r := GetResponse(c, cmd, pc, b).res;
    if r.len == 0 {
      QuietSame(cmd.ins, r.sw1, r.sw2, 0, b, b');
    } else {
      OverSame(cmd.ins, r.sw1, r.sw2, b, b', c.rc.Left()[..cmd.p3]);
    }
  }

  lemma SelectQuiet(ds: seq<Dir>, c: Card, cmd: Cmd, pc: nat, b: bytes, b': bytes)
    requires |c.bufs| == |ds| && |b| == DATA_MAX && |b'| == DATA_MAX
    ensures var r, s := SelectCmd(ds, c, cmd, pc, b), SelectCmd(ds, c, cmd, pc, b');
      && r.card == s.card && |r.res.b| == |s.res.b| == DATA_MAX
      && r.res.sw1 == s.res.sw1 && r.res.sw2 == s.res.sw2 && r.res.len == s.res.len <= DATA_MAX
      && (r.res.len == 0 || Sends1(r.res.sw1))
  {}

  lemma SelectHidden(ds: seq<Dir>, c: Card, cmd: Cmd, pc: nat, b: bytes, b': bytes)
    requires |c.bufs| == |ds| && |b| == DATA_MAX && |b'| == DATA_MAX
    ensures SameReply(cmd.ins, SelectCmd(ds, c, cmd, pc, b), SelectCmd(ds, c, cmd, pc, b'))
  {
    var r, s := SelectCmd(ds, c, cmd, pc, b).res, SelectCmd(ds, c, cmd, pc, b').res;
    SelectQuiet(ds, c, cmd, pc, b, b');
    QuietSame(cmd.ins, r.sw1, r.sw2, r.len, r.b, s.b);
  }

  lemma BinaryQuiet(ds: seq<Dir>, va: Va, cmd: Cmd, pc: nat)
    requires VaOk(ds, va)
    ensures Quiet(BinaryVerdict(ds, va, cmd, pc)) && Quiet(ReadVerdict(ds, va, cmd, pc))
  {}

  lemma BinaryHidden(k: Mount, c: Card, cmd: Cmd, pc: nat, b: bytes, b': bytes)
    requires Good(k, c) && |b| == DATA_MAX && |b'| == DATA_MAX
    ensures SameReply(cmd.ins, ReadBinary(k.ds, c, cmd, pc, b), ReadBinary(k.ds, c, cmd, pc, b'))
  {
    var v := BinaryVerdict(k.ds, c.va, cmd, pc);
    BinaryQuiet(k.ds, c.va, cmd, pc);
    if v.Go? {
      BinaryFound(k.ds, c.va, cmd, pc);
      FileInside(k.ds, c.bufs, k.sids, k.ids, c.va.tree.value, v.t.f);
      EfInside(v.t.f, v.t.at, cmd.p3);
      OverSame(cmd.ins, 0x90, 0, b, b', Slice(CurBuf(k.ds, c), EfAt(v.t.f, v.t.at), cmd.p3));
    } else {
      QuietSame(cmd.ins, v.sw1, v.sw2, v.len, b, b');
    }
  }

  lemma RcrdHidden(k: Mount, c: Card, cmd: Cmd, pc: nat, b: bytes, b': bytes)
    requires Good(k, c) && |b| == DATA_MAX && |b'| == DATA_MAX
    ensures SameReply(cmd.ins, ReadRecord(k.ds, c, cmd, pc, b), ReadRecord(k.ds, c, cmd, pc, b'))
  {
    var v := ReadVerdict(k.ds, c.va, cmd, pc);
    BinaryQuiet(k.ds, c.va, cmd, pc);
    if v.Go? {
      ReadGoes(k.ds, c.va, cmd, pc);
      RcrdTargetFound(k.ds, c.va, cmd.p1, cmd.p2);
      FileInside(k.ds, c.bufs, k.sids, k.ids, c.va.tree.value, v.t.f);
      RcrdInside(v.t.f, v.t.at);
      OverSame(cmd.ins, 0x90, 0, b, b', Slice(CurBuf(k.ds, c), RcrdAt(v.t.f, v.t.at), RcrdLen(v.t.f)));
    } else {
      QuietSame(cmd.ins, v.sw1, v.sw2, v.len, b, b');
    }
  }

  lemma ReadGoes(ds: seq<Dir>, va: Va, cmd: Cmd, pc: nat)
    requires VaOk(ds, va) && ReadVerdict(ds, va, cmd, pc).Go?
    ensures ReadVerdict(ds, va, cmd, pc).t == RcrdTarget(ds, va, cmd.p1, cmd.p2)
  {}

  lemma UpdateQuiet(ds: seq<Dir>, va: Va, cmd: Cmd, pc: nat)
    requires VaOk(ds, va) && !(cmd.ins == 0xDC && Leaks(ds, va, cmd, pc))
    ensures Quiet(UpdateVerdict(ds, va, cmd, pc))
  {}

  lemma UpdateHidden(k: Mount, c: Card, cmd: Cmd, pc: nat, b: bytes, b': bytes)
    requires Good(k, c) && |b| == DATA_MAX && |b'| == DATA_MAX && !(cmd.ins == 0xDC && Leaks(k.ds, c.va, cmd, pc))
    ensures SameReply(cmd.ins, UpdateRecord(k.ds, c, cmd, pc, b), UpdateRecord(k.ds, c, cmd, pc, b'))
  {
    var v := UpdateVerdict(k.ds, c.va, cmd, pc);
    UpdateQuiet(k.ds, c.va, cmd, pc);
    if v.Go? {
      QuietSame(cmd.ins, 0x90, 0, 0, b, b');
    } else {
      QuietSame(cmd.ins, v.sw1, v.sw2, v.len, b, b');
    }
  }

  lemma HandleHidden(k: Mount, c: Card, cmd: Cmd, pc: nat, b: bytes, b': bytes)
    requires Good(k, c) && |b| == DATA_MAX && |b'| == DATA_MAX && !(cmd.ins == 0xDC && Leaks(k.ds, c.va, cmd, pc))
    ensures SameReply(cmd.ins, Handle(k.ds, c, cmd, pc, b), Handle(k.ds, c, cmd, pc, b'))
  {
    if cmd.ins == 0xA4 {
      SelectHidden(k.ds, c, cmd, pc, b, b');
    } else if cmd.ins == 0xB0 || cmd.ins == 0xB1 {
      BinaryHidden(k, c, cmd, pc, b, b');
    } else if cmd.ins == 0xB2 || cmd.ins == 0xB3 {
      RcrdHidden(k, c, cmd, pc, b, b');
    } else if cmd.ins == 0xDC || cmd.ins == 0xDD {
      UpdateHidden(k, c, cmd, pc, b, b');
    } else {
      QuietSame(cmd.ins, 0x6D, 0, 0, b, b');
    }
  }

  // For any two contents of the buffer the same bytes are sent and the card is left the same.
  lemma BufferHidden(k: Mount, c: Card, cmd: Cmd, pc: nat, b: bytes, b': bytes)
    requires Good(k, c) && |b| == DATA_MAX && |b'| == DATA_MAX && !(Does(cmd, 0xDC) && Leaks(k.ds, c.va, cmd, pc))
    ensures SameReply(cmd.ins, Demux(k.ds, c, cmd, pc, b), Demux(k.ds, c, cmd, pc, b'))
  {
    if ClaParse(cmd.cla).typ != Interindustry {
      QuietSame(cmd.ins, 0x6E, 0, 0, b, b');
      QuietSame(cmd.ins, 0x6D, 0, 0, b, b');
    } else if cmd.ins == 0xC0 {
      GetHidden(k, c, cmd, pc, b, b');
    } else {
      HandleHidden(k, c.(rc := EMPTY), cmd, pc, b, b');
    }
  }

  // What is sent for a command is the same whatever is in the buffer.
  ghost predicate Hidden(k: Mount, c: Card, cmd: Cmd, pc: nat)
    requires Good(k, c)
  {
    forall b: bytes, b': bytes :: |b| == DATA_MAX && |b'| == DATA_MAX ==>
      SameReply(cmd.ins, Demux(k.ds, c, cmd, pc, b), Demux(k.ds, c, cmd, pc, b'))
  }

  // It is, unless exactly the command is such an UPDATE RECORD.
  lemma HiddenExactly(k: Mount, c: Card, cmd: Cmd, pc: nat)
    requires Good(k, c)
    ensures Hidden(k, c, cmd, pc) <==> !(Does(cmd, 0xDC) && Leaks(k.ds, c.va, cmd, pc))
  {
    if Does(cmd, 0xDC) && Leaks(k.ds, c.va, cmd, pc) {
      var n := RcrdLen(RcrdTarget(k.ds, c.va, cmd.p1, cmd.p2).f);
      var b, b' := Repeat(0, DATA_MAX), Repeat(1, DATA_MAX);
      BufferLeaks(k, c, cmd, pc, b);
      BufferLeaks(k, c, cmd, pc, b');
      assert (b[..n] + [0x67, 0x02])[0] != (b'[..n] + [0x67, 0x02])[0];
      assert !SameReply(cmd.ins, Demux(k.ds, c, cmd, pc, b), Demux(k.ds, c, cmd, pc, b'));
    } else {
      forall b: bytes, b': bytes | |b| == DATA_MAX && |b'| == DATA_MAX
        ensures SameReply(cmd.ins, Demux(k.ds, c, cmd, pc, b), Demux(k.ds, c, cmd, pc, b'))
      {
        BufferHidden(k, c, cmd, pc, b, b');
      }
    }
  }
}
