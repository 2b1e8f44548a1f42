// What READ BINARY, READ RECORD and UPDATE RECORD are answered with, by the bytes of the command
// and the contents of the card.  Statuses and positions are written out.
module AnswerLaws {
  import opened Bytes
  import opened Memory
  import opened FsFormat
  import opened DiskIndex
  import opened VaSpec
  import opened FileSys
  import opened ApduRc
  import opened Apdu
  import opened ApduhSpec
  import opened AddressLaws
  import opened Apduh
  import opened CardLaws
  import opened RecordLaws

  // A status, and how many bytes come with it.
  datatype Said = Says(sw1: byte, sw2: byte, len: nat)

  function StatusOf(res: Res): Said { Says(res.sw1, res.sw2, res.len) }

  // ----- READ BINARY -----

  function BinaryStatus(t: Target, cmd: Cmd, pc: nat): Said {
    if pc == 0 then Says(0xFF, 0x00, 0)
    else if cmd.data != [] then Says(0x67, 0x02, 0)
    else if t.Deny? then Says(t.sw1, t.sw2, 0)
    else if !t.f.kind.Transparent? then Says(0x69, 0x81, 0)
    else if t.at >= t.f.DataSize() then Says(0x6B, 0x00, 0)
    else if t.at + cmd.p3 > t.f.DataSize() then Says(0x6C, (t.f.DataSize() - t.at) % 0x100, 0)
    else Says(0x90, 0x00, cmd.p3)
  }

  // Given what P1 and P2 mean: the status, and on success that part of the data.
  lemma BinaryAnswers(k: Mount, c: Card, cmd: Cmd, pc: nat, b: bytes, t: Target)
    requires Good(k, c) && Does(cmd, 0xB0) && |b| == 0x100 && BinaryMeans(k.ds, c.va, cmd.p1, cmd.p2, t)
    ensures var r, n := Demux(k.ds, c, cmd, pc, b).res, cmd.p3 as nat;
      && StatusOf(r) == BinaryStatus(t, cmd, pc)
      && (r.sw1 == 0x90 ==>
            && c.va.tree.Some? && t.at + n <= |Data(c.bufs, c.va.tree.value, t.f)| && n <= |r.b|
            && r.b[..n] == Data(c.bufs, c.va.tree.value, t.f)[t.at..t.at + n])
  {
    BinaryMeaning(k.ds, c.va, cmd.p1, cmd.p2, t);
    BinaryIs(k, c.(rc := EMPTY), cmd, pc, b, t);
  }

  lemma BinaryIs(k: Mount, c: Card, cmd: Cmd, pc: nat, b: bytes, t: Target)
    requires Good(k, c) && cmd.ins == 0xB0 && |b| == 0x100 && BinaryTarget(k.ds, c.va, cmd.p1, cmd.p2) == t
    ensures var r, n := ReadBinary(k.ds, c, cmd, pc, b).res, cmd.p3 as nat;
      && StatusOf(r) == BinaryStatus(t, cmd, pc)
      && (r.sw1 == 0x90 ==>
            && c.va.tree.Some? && t.at + n <= |Data(c.bufs, c.va.tree.value, t.f)| && n <= |r.b|
            && r.b[..n] == Data(c.bufs, c.va.tree.value, t.f)[t.at..t.at + n])
  {
    BinaryVerdictSays(k.ds, c.va, cmd, pc, t);
    if BinaryVerdict(k.ds, c.va, cmd, pc).Go? {
      BinaryFound(k.ds, c.va, cmd, pc);
      FileInside(k.ds, c.bufs, k.sids, k.ids, c.va.tree.value, t.f);
      BinaryTells(k, c, t, cmd.p3, b, c.va.tree.value);
    }
  }

  // What a handler says without looking at the data.
  function SaidBy(v: Verdict, n: nat): Said { if v.Answer? then Says(v.sw1, v.sw2, v.len) else Says(0x90, 0x00, n) }

  lemma BinaryVerdictSays(ds: seq<Dir>, va: Va, cmd: Cmd, pc: nat, t: Target)
    requires VaOk(ds, va) && cmd.ins == 0xB0 && BinaryTarget(ds, va, cmd.p1, cmd.p2) == t
    ensures var v := BinaryVerdict(ds, va, cmd, pc);
      BinaryStatus(t, cmd, pc) == SaidBy(v, cmd.p3) && (v.Go? ==> v == Go(t)) && (v.Answer? ==> v.sw1 != 0x90)
  {
    BinaryMeaning(ds, va, cmd.p1, cmd.p2, t);
  }

  // ----- READ RECORD -----

  // The status once P1 and P2 mean a record of `n` bytes, or a status.
  function ReadStatus(t: Target, n: byte, cmd: Cmd, pc: nat): Said {
    if pc == 0 then Says(0xFF, 0x00, 0)
    else if cmd.data != [] then Says(0x67, 0x02, 0)
    else if t.Deny? then Says(t.sw1, t.sw2, 0)
    else if cmd.p3 != n then Says(0x6C, n, 0)
    else Says(0x90, 0x00, n)
  }

  function SizeOf(t: Target): byte { if t.Found? && |t.f.spec| == 1 then t.f.spec[0] else 0 }

  // The response is the record with number `i` of the data of a file.
  ghost predicate RcrdTold(c: Card, res: Res, f: File, i: nat, n: nat) {
    && c.va.tree.Some? && c.va.tree.value < |c.bufs| && i > 0 && n <= |res.b|
    && var d := Data(c.bufs, c.va.tree.value, f);
       0 <= (i - 1) * n <= i * n <= |d| && res.b[..n] == d[(i - 1) * n..i * n]
  }

  lemma ReadAnswers(k: Mount, c: Card, cmd: Cmd, pc: nat, b: bytes, t: Target)
    requires Good(k, c) && Does(cmd, 0xB2) && |b| == 0x100 && RcrdMeans(k.ds, c.va, cmd.p1, cmd.p2, t)
    ensures var r := Demux(k.ds, c, cmd, pc, b).res;
      && StatusOf(r) == ReadStatus(t, SizeOf(t), cmd, pc)
      && (r.sw1 == 0x90 ==> t.Found? && RcrdTold(c, r, t.f, cmd.p1, SizeOf(t)))
  {
    RcrdMeaning(k.ds, c.va, cmd.p1, cmd.p2, t);
    ReadIs(k, c.(rc := EMPTY), cmd, pc, b, t);
  }

  lemma ReadIs(k: Mount, c: Card, cmd: Cmd, pc: nat, b: bytes, t: Target)
    requires Good(k, c) && cmd.ins == 0xB2 && |b| == 0x100 && RcrdTarget(k.ds, c.va, cmd.p1, cmd.p2) == t
    ensures var r := ReadRecord(k.ds, c, cmd, pc, b).res;
      && StatusOf(r) == ReadStatus(t, SizeOf(t), cmd, pc)
      && (r.sw1 == 0x90 ==> t.Found? && RcrdTold(c, r, t.f, cmd.p1, SizeOf(t)))
  {
    ReadVerdictSays(k.ds, c.va, cmd, pc, t);
    if ReadVerdict(k.ds, c.va, cmd, pc).Go? {
      RcrdTargetFound(k.ds, c.va, cmd.p1, cmd.p2);
      ReplyIs(k, c, t, b, c.va.tree.value, cmd.p1);
    }
  }

  lemma ReadVerdictSays(ds: seq<Dir>, va: Va, cmd: Cmd, pc: nat, t: Target)
    requires VaOk(ds, va) && cmd.ins == 0xB2 && RcrdTarget(ds, va, cmd.p1, cmd.p2) == t
    ensures var v := ReadVerdict(ds, va, cmd, pc);
      && ReadStatus(t, SizeOf(t), cmd, pc) == SaidBy(v, SizeOf(t))
      && (v.Go? ==> v == Go(t)) && (v.Answer? ==> v.sw1 != 0x90)
  {
    RcrdMeaning(ds, va, cmd.p1, cmd.p2, t);
  }

  lemma ReplyIs(k: Mount, c: Card, t: Target, b: bytes, u: nat, i: nat)
    requires Good(k, c) && c.va.tree == Some(u) && RcrdFound(k.ds, c.va, t) && |b| == 0x100 && i == t.at + 1
    ensures RcrdTold(c, RcrdReply(k.ds, c, t, b).res, t.f, i, SizeOf(t))
  {
    ReplyTells(k, c, t, b, u);
    RcrdPart(c.bufs, u, k, t.f, i);
  }

  // The record with number `i` is this part of the data.
  lemma RcrdPart(bufs: seq<bytes>, u: nat, k: Mount, f: File, i: nat)
    requires Mounted(k.ds, bufs, k.sids, k.ids) && u < |k.ds| && f in Files(k.ds[u]) && 0 < i <= RcrdCnt(f)
    ensures |f.spec| == 1
    ensures var d, n := Data(bufs, u, f), f.spec[0] as nat;
      0 <= (i - 1) * n <= i * n <= |d| && Rcrd(bufs, u, f, i - 1) == d[(i - 1) * n..i * n]
  {
    FileInside(k.ds, bufs, k.sids, k.ids, u, f);
    RcrdInside(f, i - 1);
    assert i * f.spec[0] == (i - 1) * f.spec[0] + f.spec[0];
  }

  // ----- UPDATE RECORD -----

  function UpdateStatus(t: Target, n: byte, cmd: Cmd, pc: nat): Said {
    if t.Deny? then Says(t.sw1, t.sw2, 0)
    else if pc == 0 then Says(0xFF, 0x00, n)
    else if |cmd.data| != n then Says(0x67, 0x02, n)
    else if cmd.p3 != n then Says(0x6C, n, 0)
    else Says(0x90, 0x00, 0)
  }

  predicate Replaced(before: bytes, after: bytes, at: nat, d: bytes) {
    at + |d| <= |before| && after == before[..at] + d + before[at + |d|..]
  }

  // In the data of a file, exactly the record with number `i` is replaced.
  ghost predicate Leaves(c: Card, bufs: seq<bytes>, f: File, i: nat, n: nat, data: bytes) {
    && c.va.tree.Some? && c.va.tree.value < |bufs| == |c.bufs| && i > 0
    && Replaced(Data(c.bufs, c.va.tree.value, f), Data(bufs, c.va.tree.value, f), (i - 1) * n, data)
  }

  lemma UpdateAnswers(k: Mount, c: Card, cmd: Cmd, pc: nat, b: bytes, t: Target)
    requires Good(k, c) && Does(cmd, 0xDC) && |b| == 0x100 && RcrdMeans(k.ds, c.va, cmd.p1, cmd.p2, t)
    ensures var r := Demux(k.ds, c, cmd, pc, b);
      && StatusOf(r.res) == UpdateStatus(t, SizeOf(t), cmd, pc)
      && (r.res.sw1 != 0x90 ==> r.card.bufs == c.bufs)
      && (r.res.sw1 == 0x90 ==> t.Found? && Leaves(c, r.card.bufs, t.f, cmd.p1, SizeOf(t), cmd.data))
  {
    RcrdMeaning(k.ds, c.va, cmd.p1, cmd.p2, t);
    UpdateIs(k, c.(rc := EMPTY), cmd, pc, b, t);
  }

  lemma UpdateIs(k: Mount, c: Card, cmd: Cmd, pc: nat, b: bytes, t: Target)
    requires Good(k, c) && cmd.ins == 0xDC && RcrdTarget(k.ds, c.va, cmd.p1, cmd.p2) == t
    ensures var r := UpdateRecord(k.ds, c, cmd, pc, b);
      && StatusOf(r.res) == UpdateStatus(t, SizeOf(t), cmd, pc)
      && (r.res.sw1 != 0x90 ==> r.card.bufs == c.bufs)
      && (r.res.sw1 == 0x90 ==> t.Found? && Leaves(c, r.card.bufs, t.f, cmd.p1, SizeOf(t), cmd.data))
  {
    var v := UpdateVerdict(k.ds, c.va, cmd, pc);
    if v.Go? {
      RcrdTargetFound(k.ds, c.va, cmd.p1, cmd.p2);
      PutReplaces(k, c, t, c.va.tree.value, cmd.data, Written(k.ds, c, RcrdAt(t.f, t.at), cmd.data), cmd.p1);
    }
  }

  lemma PutReplaces(k: Mount, c: Card, t: Target, u: nat, data: bytes, bufs: seq<bytes>, i: nat)
    requires Put(k, c, t, u, data, bufs) && i == t.at + 1
    ensures Leaves(c, bufs, t.f, i, SizeOf(t), data)
  {
    PutExact(k, c, t, u, data, bufs);
    PutInData(k, c, t, u, data, bufs);
    RcrdPart(bufs, u, k, t.f, i);
    ChangedIs(Data(c.bufs, u, t.f), Data(bufs, u, t.f), (i - 1) * SizeOf(t), data);
  }

  lemma ChangedIs(before: bytes, after: bytes, at: nat, d: bytes)
    requires Untouched(before, after, at, at + |d|) && at + |d| <= |after| && after[at..at + |d|] == d
    ensures Replaced(before, after, at, d)
  {
    Cut(after, at, at + |d|);
    assert after[..at] == before[..at] && after[at + |d|..] == before[at + |d|..];
  }

  // ----- What is selected then -----

  // After READ BINARY.
  ghost predicate NowSelected(ds: seq<Dir>, va: Va, va': Va, t: Target)
    requires t.Found?
  {
    if t.bySid then va.tree.Some? && Made(ds, va, va', va.tree.value, t.f) else va' == va
  }

  // After a record command: the record is current as well, of a cyclic EF that was current
  // counted from the record that was.
  ghost predicate NowCurrent(ds: seq<Dir>, va: Va, va': Va, t: Target, p1: byte)
    requires t.Found?
  {
    var cnt := if SizeOf(t) == 0 then 1 else t.f.DataSize() / SizeOf(t) as nat;
    if t.bySid then NowSelected(ds, va, va'.(rcrd := 0), t) && va'.rcrd == p1 - 1
    else
      && va' == va.(rcrd := va'.rcrd)
      && (if t.f.kind.LinearFixed? then va'.rcrd == p1 - 1
          else cnt > 0 && va'.rcrd as nat == (va.rcrd as nat + (p1 as nat - 1)) % cnt % 0x100)
  }

  lemma BinarySelects(k: Mount, c: Card, cmd: Cmd, pc: nat, b: bytes, t: Target)
    requires Good(k, c) && Does(cmd, 0xB0) && |b| == 0x100 && BinaryMeans(k.ds, c.va, cmd.p1, cmd.p2, t)
    ensures var r := Demux(k.ds, c, cmd, pc, b);
      if r.res.sw1 == 0x90 then t.Found? && NowSelected(k.ds, c.va, r.card.va, t) else r.card.va == c.va
  {
    BinaryMeaning(k.ds, c.va, cmd.p1, cmd.p2, t);
    AllOrNothing(k, c, cmd, pc, b);
    BinaryExact(k, c, cmd, pc, b);
    if ReadsBytes(k.ds, c.va, cmd, pc, t) {
      AddressedMade(k, c.(rc := EMPTY), t);
    }
  }

  lemma AddressedMade(k: Mount, c: Card, t: Target)
    requires Good(k, c) && Addressable(k.ds, c.va, t)
    ensures NowSelected(k.ds, c.va, Addressed(k.ds, c.va, t), t)
  {
    ForestIsGood(k.ds, c.bufs);
    SelectedMade(k.ds, c.va, c.va.tree.value, t.f);
  }

  lemma RcrdSelects(k: Mount, c: Card, cmd: Cmd, pc: nat, b: bytes, t: Target)
    requires Good(k, c) && (Does(cmd, 0xB2) || Does(cmd, 0xDC)) && |b| == 0x100
    requires RcrdMeans(k.ds, c.va, cmd.p1, cmd.p2, t)
    ensures var r := Demux(k.ds, c, cmd, pc, b);
      if r.res.sw1 == 0x90 then t.Found? && NowCurrent(k.ds, c.va, r.card.va, t, cmd.p1) else r.card.va == c.va
  {
    RcrdMeaning(k.ds, c.va, cmd.p1, cmd.p2, t);
    AllOrNothing(k, c, cmd, pc, b);
    if cmd.ins == 0xB2 {
      ReadSucceeds(k, c, cmd, pc, b);
    } else {
      UpdateSucceeds(k, c, cmd, pc, b);
    }
    if t.Found? {
      RcrdTargetFound(k.ds, c.va, cmd.p1, cmd.p2);
      AddressedCurrent(k, c, t, cmd.p1);
    }
  }

  lemma AddressedCurrent(k: Mount, c: Card, t: Target, p1: byte)
    requires Good(k, c) && RcrdFound(k.ds, c.va, t) && t.at == p1 as nat - 1
    ensures NowCurrent(k.ds, c.va, AddressedRcrd(k.ds, c.va, t), t, p1)
  {
    AddressedMade(k, c, t);
    AddressedIs(k.ds, c.va, t);
    AddressedOk(k, c, t);
    RcrdInside(t.f, t.at);
    QuotIs(t.f.DataSize(), t.f.spec[0]);
    SelectRcrdOk(k.ds, Addressed(k.ds, c.va, t), t.at);
  }

  // ----- Everything else -----

  // Classes that are reserved or proprietary, and instructions there are none of; the former do
  // not even drop what can be fetched.
  lemma OthersAnswer(k: Mount, c: Card, cmd: Cmd, pc: nat, b: bytes)
    requires Good(k, c)
    ensures var r := Demux(k.ds, c, cmd, pc, b);
      && (0x20 <= cmd.cla < 0x40 ==> StatusOf(r.res) == Says(0x6E, 0x00, 0) && r.card == c)
      && (cmd.cla >= 0x80 ==> StatusOf(r.res) == Says(0x6D, 0x00, 0) && r.card == c)
      && ((cmd.cla < 0x20 || 0x40 <= cmd.cla < 0x80) && cmd.ins !in {0xA4, 0xB0, 0xB2, 0xC0, 0xDC} ==>
            StatusOf(r.res) == Says(0x6D, 0x00, 0) && r.card == c.(rc := EMPTY))
  {
    NoInstruction(k.ds, c.(rc := EMPTY), cmd, pc, b);
  }

  lemma NoInstruction(ds: seq<Dir>, c: Card, cmd: Cmd, pc: nat, b: bytes)
    requires CardOk(ds, c)
    ensures cmd.ins !in {0xA4, 0xB0, 0xB2, 0xC0, 0xDC} ==>
      var r := Handle(ds, c, cmd, pc, b); StatusOf(r.res) == Says(0x6D, 0x00, 0) && r.card == c
  {}
}
