// What reading and updating do to the card: all or nothing, exactly one record, and what was
// written is what is read.
module RecordLaws {
  import opened Bytes
  import opened Memory
  import opened FsFormat
  import opened Lut
  import opened DiskIndex
  import opened Disk
  import opened VaSpec
  import opened FileSys
  import opened ApduRc
  import opened Apdu
  import opened ApduhSpec
  import opened AddressLaws
  import opened Apduh
  import opened CardLaws

  // The data of a file.
  function Data(bufs: seq<bytes>, t: nat, f: File): bytes
    requires t < |bufs|
  {
    Slice(bufs[t], f.DataAt(), f.DataSize())
  }

  // Records lie in it one behind the other, the first at the beginning; all have the size that
  // is in the header.
  function Rcrd(bufs: seq<bytes>, t: nat, f: File, i: nat): bytes
    requires t < |bufs|
  {
    if |f.spec| == 1 then Slice(Data(bufs, t, f), i * f.spec[0], f.spec[0]) else []
  }

  lemma RcrdIs(bufs: seq<bytes>, t: nat, f: File, i: nat)
    requires t < |bufs| && f.DataAt() + f.DataSize() <= |bufs[t]| && i < RcrdCnt(f)
    ensures Rcrd(bufs, t, f, i) == Slice(bufs[t], RcrdAt(f, i), RcrdLen(f))
  {
    RcrdInside(f, i);
    PartOfData(bufs[t], f, i * f.spec[0], f.spec[0]);
  }

  predicate Does(cmd: Cmd, ins: byte) { ClaParse(cmd.cla).typ == Interindustry && cmd.ins == ins }

  ghost predicate Whole(c: Card, r: Reply, pc: nat, writes: bool) {
    && (r.res.sw1 != 0x90 ==> r.card.va == c.va && r.card.bufs == c.bufs)
    && (r.res.sw1 == 0x90 ==> r.res.sw2 == 0 && pc > 0)
    && (r.card.bufs != c.bufs ==> writes)
  }

  lemma BinaryWhole(k: Mount, c: Card, cmd: Cmd, pc: nat, b: bytes)
    requires Good(k, c)
    ensures Whole(c, ReadBinary(k.ds, c, cmd, pc, b), pc, false)
  {}

  lemma RcrdWhole(k: Mount, c: Card, cmd: Cmd, pc: nat, b: bytes)
    requires Good(k, c)
    ensures Whole(c, ReadRecord(k.ds, c, cmd, pc, b), pc, false)
  {}

  lemma UpdateWhole(k: Mount, c: Card, cmd: Cmd, pc: nat, b: bytes)
    requires Good(k, c)
    ensures Whole(c, UpdateRecord(k.ds, c, cmd, pc, b), pc, cmd.ins == 0xDC)
  {
    if cmd.ins == 0xDC {
      UpdateVerdictIs(k.ds, c.va, cmd, pc);
    }
  }

  // READ BINARY, READ RECORD and UPDATE RECORD either succeed or leave the disk and the
  // validity area as they were; only an update ever touches the disk.
  lemma AllOrNothing(k: Mount, c: Card, cmd: Cmd, pc: nat, b: bytes)
    requires Good(k, c) && 0xB0 <= cmd.ins <= 0xDD && cmd.ins != 0xC0
    ensures var r := Demux(k.ds, c, cmd, pc, b);
      && (r.res.sw1 != 0x90 ==> r.card.va == c.va && r.card.bufs == c.bufs)
      && (r.res.sw1 == 0x90 ==> r.res.sw2 == 0 && pc > 0)
      && (r.card.bufs != c.bufs ==> Does(cmd, 0xDC))
  {
    var c' := c.(rc := EMPTY);
    if cmd.ins <= 0xB3 {
      BinaryWhole(k, c', cmd, pc, b);
      RcrdWhole(k, c', cmd, pc, b);
    } else if cmd.ins >= 0xDC {
      UpdateWhole(k, c', cmd, pc, b);
    }
  }

  // A READ BINARY of a range that begins inside a transparent EF and ends in it.
  ghost predicate ReadsBytes(ds: seq<Dir>, va: Va, cmd: Cmd, pc: nat, t: Target) {
    && VaOk(ds, va) && BinaryAddresses(ds, va, cmd.p1, cmd.p2, t)
    && pc > 0 && cmd.data == [] && t.f.kind.Transparent?
    && t.at < t.f.DataSize() && t.at + cmd.p3 as nat <= t.f.DataSize()
  }

  lemma BinaryVerdictIs(ds: seq<Dir>, va: Va, cmd: Cmd, pc: nat)
    requires VaOk(ds, va) && cmd.ins == 0xB0
    ensures var v, t := BinaryVerdict(ds, va, cmd, pc), BinaryTarget(ds, va, cmd.p1, cmd.p2);
      if ReadsBytes(ds, va, cmd, pc, t) then v == Go(t) else v.Answer? && v.sw1 != 0x90
  {
    BinaryMeaning(ds, va, cmd.p1, cmd.p2, BinaryTarget(ds, va, cmd.p1, cmd.p2));
  }

  // Success exactly if `ok`; then `n` bytes of the data of the file are returned.
  ghost predicate BytesReturned(ds: seq<Dir>, c: Card, r: Reply, ok: bool, t: Target, n: byte) {
    && (r.res.sw1 == 0x90 <==> ok)
    && (ok ==>
          && CardOk(ds, c) && c.va.tree.Some? && Addressable(ds, c.va, t) && r.card == c.(va := Addressed(ds, c.va, t))
          && r.res.sw2 == 0 && r.res.len == n as nat
          && Slice(r.res.b, 0, n) == Slice(Data(c.bufs, c.va.tree.value, t.f), t.at, n))
  }

  // READ BINARY succeeds exactly on such a range, and then returns exactly that part of the
  // file's data.
  lemma BinaryExact(k: Mount, c: Card, cmd: Cmd, pc: nat, b: bytes)
    requires Good(k, c) && Does(cmd, 0xB0) && |b| == DATA_MAX
    ensures var t := BinaryTarget(k.ds, c.va, cmd.p1, cmd.p2);
      BytesReturned(k.ds, c.(rc := EMPTY), Demux(k.ds, c, cmd, pc, b), ReadsBytes(k.ds, c.va, cmd, pc, t), t, cmd.p3)
  {
    BinaryReplies(k, c.(rc := EMPTY), cmd, pc, b);
  }

  lemma BinaryReplies(k: Mount, c: Card, cmd: Cmd, pc: nat, b: bytes)
    requires Good(k, c) && cmd.ins == 0xB0 && |b| == DATA_MAX
    ensures var t := BinaryTarget(k.ds, c.va, cmd.p1, cmd.p2);
      BytesReturned(k.ds, c, ReadBinary(k.ds, c, cmd, pc, b), ReadsBytes(k.ds, c.va, cmd, pc, t), t, cmd.p3)
  {
    BinaryVerdictIs(k.ds, c.va, cmd, pc);
    var t := BinaryTarget(k.ds, c.va, cmd.p1, cmd.p2);
    if ReadsBytes(k.ds, c.va, cmd, pc, t) {
      BinaryFound(k.ds, c.va, cmd, pc);
      BinaryTells(k, c, t, cmd.p3, b, c.va.tree.value);
    }
  }

  lemma BinaryTells(k: Mount, c: Card, t: Target, n: byte, b: bytes, u: nat)
    requires Good(k, c) && c.va.tree == Some(u) && InEf(k.ds, c.va, t, n) && |b| == DATA_MAX
    ensures var r := BinaryReply(k.ds, c, t, n, b).res;
      r.sw1 == 0x90 && r.len == n as nat && Slice(r.b, 0, r.len) == Slice(Data(c.bufs, u, t.f), t.at, n)
  {
    FileInside(k.ds, c.bufs, k.sids, k.ids, u, t.f);
    EfInside(t.f, t.at, n);
    PartOfData(c.bufs[u], t.f, t.at, n);
    SpliceReads(b, 0, Slice(c.bufs[u], EfAt(t.f, t.at), n));
  }

  lemma PartOfData(buf: bytes, f: File, at: nat, n: nat)
    requires at + n <= f.DataSize() && f.DataAt() + f.DataSize() <= |buf|
    ensures Slice(buf, EfAt(f, at), n) == Slice(Slice(buf, f.DataAt(), f.DataSize()), at, n)
  {
    var lo, m := f.DataAt(), f.DataSize();
    PartOfSlice(buf, lo, m, at, n);
    assert Slice(buf, lo, m) == buf[lo..lo + m] && |buf[lo..lo + m]| == m;
    assert Slice(buf, lo + at, n) == buf[lo + at..lo + at + n];
    assert Slice(buf[lo..lo + m], at, n) == buf[lo..lo + m][at..at + n];
  }

  lemma PartOfSlice(s: bytes, lo: nat, m: nat, at: nat, n: nat)
    requires lo + m <= |s| && at + n <= m
    ensures s[lo..lo + m][at..at + n] == s[lo + at..lo + at + n]
  {
    var d := s[lo..lo + m];
    var x, y := d[at..at + n], s[lo + at..lo + at + n];
    assert |x| == n && |y| == n;
    forall i | 0 <= i < n
      ensures x[i] == y[i]
    {
      assert x[i] == d[at + i] && d[at + i] == s[lo + (at + i)] && y[i] == s[lo + at + i];
    }
    assert x == y;
  }

  // ----- When records are read and updated -----

  // A READ RECORD, an UPDATE RECORD that addresses the record `t` and gives its length.
  ghost predicate Reads(ds: seq<Dir>, va: Va, cmd: Cmd, pc: nat, t: Target) {
    && VaOk(ds, va) && RcrdAddresses(ds, va, cmd.p1, cmd.p2, t)
    && pc > 0 && cmd.data == [] && cmd.p3 == t.f.spec[0]
  }

  ghost predicate Updates(ds: seq<Dir>, va: Va, cmd: Cmd, pc: nat, t: Target) {
    && VaOk(ds, va) && RcrdAddresses(ds, va, cmd.p1, cmd.p2, t)
    && pc > 0 && |cmd.data| == t.f.spec[0] as nat == cmd.p3 as nat
  }

  lemma ReadVerdictIs(ds: seq<Dir>, va: Va, cmd: Cmd, pc: nat)
    requires VaOk(ds, va) && cmd.ins == 0xB2
    ensures var v, t := ReadVerdict(ds, va, cmd, pc), RcrdTarget(ds, va, cmd.p1, cmd.p2);
      if Reads(ds, va, cmd, pc, t) then v == Go(t) else v.Answer? && v.sw1 != 0x90
  {
    RcrdMeant(ds, va, cmd.p1, cmd.p2);
  }

  lemma RcrdMeant(ds: seq<Dir>, va: Va, p1: byte, p2: byte)
    requires VaOk(ds, va)
    ensures var t := RcrdTarget(ds, va, p1, p2); t.Found? <==> RcrdAddresses(ds, va, p1, p2, t)
    ensures var t := RcrdTarget(ds, va, p1, p2); t.Found? ==> RcrdLen(t.f) == t.f.spec[0]
  {
    var t := RcrdTarget(ds, va, p1, p2);
    if t.Found? {
      RcrdMeaning(ds, va, p1, p2, t);
    }
  }

  lemma UpdateVerdictIs(ds: seq<Dir>, va: Va, cmd: Cmd, pc: nat)
    requires VaOk(ds, va) && cmd.ins == 0xDC
    ensures var v, t := UpdateVerdict(ds, va, cmd, pc), RcrdTarget(ds, va, cmd.p1, cmd.p2);
      if Updates(ds, va, cmd, pc, t) then v == Go(t) else v.Answer? && v.sw1 != 0x90
  {
    RcrdMeant(ds, va, cmd.p1, cmd.p2);
  }

  // Success exactly if `ok`; then the record `t` is returned and becomes the current one.
  ghost predicate RcrdReturned(ds: seq<Dir>, c: Card, r: Reply, ok: bool, t: Target) {
    && (r.res.sw1 == 0x90 <==> ok)
    && (ok ==>
          && CardOk(ds, c) && RcrdFound(ds, c.va, t) && r.card == c.(va := AddressedRcrd(ds, c.va, t))
          && r.res.sw2 == 0 && Slice(r.res.b, 0, r.res.len) == Rcrd(c.bufs, c.va.tree.value, t.f, t.at))
  }

  // READ RECORD succeeds exactly on a record that exists, asked for with its length; it then
  // returns the record.
  lemma ReadSucceeds(k: Mount, c: Card, cmd: Cmd, pc: nat, b: bytes)
    requires Good(k, c) && Does(cmd, 0xB2) && |b| == DATA_MAX
    ensures var t := RcrdTarget(k.ds, c.va, cmd.p1, cmd.p2);
      RcrdReturned(k.ds, c.(rc := EMPTY), Demux(k.ds, c, cmd, pc, b), Reads(k.ds, c.va, cmd, pc, t), t)
  {
    ReadReplies(k, c.(rc := EMPTY), cmd, pc, b);
  }

  lemma ReadReplies(k: Mount, c: Card, cmd: Cmd, pc: nat, b: bytes)
    requires Good(k, c) && cmd.ins == 0xB2 && |b| == DATA_MAX
    ensures var t := RcrdTarget(k.ds, c.va, cmd.p1, cmd.p2);
      RcrdReturned(k.ds, c, ReadRecord(k.ds, c, cmd, pc, b), Reads(k.ds, c.va, cmd, pc, t), t)
  {
    ReadVerdictIs(k.ds, c.va, cmd, pc);
    var t := RcrdTarget(k.ds, c.va, cmd.p1, cmd.p2);
    if Reads(k.ds, c.va, cmd, pc, t) {
      RcrdTargetFound(k.ds, c.va, cmd.p1, cmd.p2);
      ReplyTells(k, c, t, b, c.va.tree.value);
    }
  }

  lemma ReplyTells(k: Mount, d: Card, t: Target, b: bytes, u: nat)
    requires Good(k, d) && d.va.tree == Some(u) && RcrdFound(k.ds, d.va, t) && |b| == DATA_MAX
    ensures var r := RcrdReply(k.ds, d, t, b).res;
      r.sw1 == 0x90 && r.sw2 == 0 && Slice(r.b, 0, r.len) == Rcrd(d.bufs, u, t.f, t.at)
  {
    FileInside(k.ds, d.bufs, k.sids, k.ids, u, t.f);
    RcrdInside(t.f, t.at);
    RcrdIs(d.bufs, u, t.f, t.at);
    assert CurBuf(k.ds, d) == d.bufs[u];
    BufferRead(b, Slice(d.bufs[u], RcrdAt(t.f, t.at), RcrdLen(t.f)), RcrdLen(t.f));
  }

  // What was put at the beginning of the response buffer is in the response.
  lemma BufferRead(b: bytes, d: bytes, n: nat)
    requires |d| == n <= |b|
    ensures Slice(Over(b, 0, d), 0, n) == d
  {
    SpliceReads(b, 0, d);
  }

  // UPDATE RECORD succeeds exactly on a record that exists, with data of its length.
  lemma UpdateSucceeds(k: Mount, c: Card, cmd: Cmd, pc: nat, b: bytes)
    requires Good(k, c) && Does(cmd, 0xDC)
    ensures var r, t := Demux(k.ds, c, cmd, pc, b), RcrdTarget(k.ds, c.va, cmd.p1, cmd.p2);
      && (r.res.sw1 == 0x90 <==> Updates(k.ds, c.va, cmd, pc, t))
      && (Updates(k.ds, c.va, cmd, pc, t) ==>
            && RcrdFound(k.ds, c.va, t) && r.res.sw2 == 0 && r.res.len == 0
            && r.card == c.(rc := EMPTY, va := AddressedRcrd(k.ds, c.va, t),
                            bufs := Written(k.ds, c, RcrdAt(t.f, t.at), cmd.data)))
  {
    UpdateVerdictIs(k.ds, c.va, cmd, pc);
    RcrdTargetFound(k.ds, c.va, cmd.p1, cmd.p2);
  }

  lemma CurrentAfter(k: Mount, c: Card, t: Target)
    requires Good(k, c) && RcrdFound(k.ds, c.va, t)
    ensures var va := AddressedRcrd(k.ds, c.va, t);
      && va.ef == Some(t.f) && va.rcrd as nat < RcrdCnt(t.f)
      && (va.rcrd as nat == t.at <==> t.f.kind.LinearFixed? || t.bySid || c.va.rcrd == 0)
  {
    AddressedOk(k, c, t);
    AddressedIs(k.ds, c.va, t);
    SelectRcrdOk(k.ds, Addressed(k.ds, c.va, t), t.at);
  }

  // The success of READ RECORD and UPDATE RECORD makes an existing record the current one: the
  // one in P1 exactly when the EF is linear or was not current with another record.
  lemma RecordBecomesCurrent(k: Mount, c: Card, cmd: Cmd, pc: nat, b: bytes)
    requires Good(k, c) && (Does(cmd, 0xB2) || Does(cmd, 0xDC)) && |b| == DATA_MAX
    ensures var r, t := Demux(k.ds, c, cmd, pc, b), RcrdTarget(k.ds, c.va, cmd.p1, cmd.p2);
      var va := r.card.va;
      r.res.sw1 == 0x90 ==>
        && t.Found? && t.at == cmd.p1 as nat - 1
        && va.ef == Some(t.f) && va.rcrd as nat < RcrdCnt(t.f)
        && (va.rcrd as nat == t.at <==> t.f.kind.LinearFixed? || t.bySid || c.va.rcrd == 0)
  {
    var t := RcrdTarget(k.ds, c.va, cmd.p1, cmd.p2);
    if cmd.ins == 0xB2 {
      ReadSucceeds(k, c, cmd, pc, b);
    } else {
      UpdateSucceeds(k, c, cmd, pc, b);
    }
    RcrdTargetFound(k.ds, c.va, cmd.p1, cmd.p2);
    if t.Found? {
      CurrentAfter(k, c, t);
    }
  }

  // ----- An update reaches one record -----

  // A successful update, and where it goes; see `UpdateSucceeds`.
  ghost predicate Updated(k: Mount, c: Card, cmd: Cmd, pc: nat, u: nat, t: Target) {
    Good(k, c) && Does(cmd, 0xDC) && Updates(k.ds, c.va, cmd, pc, t) && c.va.tree == Some(u)
  }

  // A card before and after bytes were put into a record.
  ghost predicate Put(k: Mount, c: Card, t: Target, u: nat, data: bytes, bufs: seq<bytes>) {
    && Good(k, c) && RcrdFound(k.ds, c.va, t) && c.va.tree == Some(u) && |data| == RcrdLen(t.f)
    && bufs == Written(k.ds, c, RcrdAt(t.f, t.at), data)
  }

  lemma UpdatePuts(k: Mount, c: Card, cmd: Cmd, pc: nat, b: bytes, u: nat, t: Target)
    requires Updated(k, c, cmd, pc, u, t)
    ensures Put(k, c, t, u, cmd.data, Demux(k.ds, c, cmd, pc, b).card.bufs)
  {
    RcrdMeaning(k.ds, c.va, cmd.p1, cmd.p2, t);
    UpdateSucceeds(k, c, cmd, pc, b);
  }

  lemma PutExact(k: Mount, c: Card, t: Target, u: nat, data: bytes, bufs: seq<bytes>)
    requires Put(k, c, t, u, data, bufs)
    ensures |bufs| == |c.bufs| && u < |bufs|
    ensures Rcrd(bufs, u, t.f, t.at) == data
    ensures Untouched(c.bufs[u], bufs[u], RcrdAt(t.f, t.at), RcrdAt(t.f, t.at) + RcrdLen(t.f) as nat)
    ensures forall w :: 0 <= w < |bufs| && w != u ==> bufs[w] == c.bufs[w]
    ensures Mounted(k.ds, bufs, k.sids, k.ids)
  {
    FileInside(k.ds, c.bufs, k.sids, k.ids, u, t.f);
    WrittenOk(k, c, t, data);
    SpliceReads(c.bufs[u], RcrdAt(t.f, t.at), data);
    SpliceUntouched(c.bufs[u], RcrdAt(t.f, t.at), data);
    RcrdIs(bufs, u, t.f, t.at);
  }

  // Of a file's data, at most the record changes.
  ghost predicate RcrdChanged(a: seq<bytes>, b: seq<bytes>, u: nat, f: File, i: nat) {
    && u < |a| == |b| && |f.spec| == 1
    && var n := f.spec[0] as nat; Untouched(Data(a, u, f), Data(b, u, f), i * n, i * n + n)
  }

  lemma PutInData(k: Mount, c: Card, t: Target, u: nat, data: bytes, bufs: seq<bytes>)
    requires Put(k, c, t, u, data, bufs)
    ensures RcrdChanged(c.bufs, bufs, u, t.f, t.at)
  {
    FileInside(k.ds, c.bufs, k.sids, k.ids, u, t.f);
    PutExact(k, c, t, u, data, bufs);
    RcrdUntouched(c.bufs, bufs, u, t.f, t.at);
  }

  lemma RcrdUntouched(a: seq<bytes>, b: seq<bytes>, u: nat, f: File, i: nat)
    requires u < |a| == |b| && f.DataAt() + f.DataSize() <= |a[u]| && i < RcrdCnt(f)
    requires Untouched(a[u], b[u], RcrdAt(f, i), RcrdAt(f, i) + RcrdLen(f) as nat)
    ensures RcrdChanged(a, b, u, f, i)
  {
    RcrdInside(f, i);
    DataUntouched(a[u], b[u], f, i * f.spec[0], f.spec[0]);
  }

  lemma DataUntouched(a: bytes, b: bytes, f: File, at: nat, n: nat)
    requires Untouched(a, b, f.DataAt() + at, f.DataAt() + at + n) && f.DataAt() + f.DataSize() <= |a|
    ensures Untouched(Slice(a, f.DataAt(), f.DataSize()), Slice(b, f.DataAt(), f.DataSize()), at, at + n)
  {}

  // The record holds the command's data, every other byte of every tree is what it was, and
  // the same files are found through the same tables.
  lemma UpdateExact(k: Mount, c: Card, cmd: Cmd, pc: nat, b: bytes, u: nat, t: Target)
    requires Updated(k, c, cmd, pc, u, t)
    ensures var bufs := Demux(k.ds, c, cmd, pc, b).card.bufs;
      && |bufs| == |c.bufs| && u < |bufs|
      && Rcrd(bufs, u, t.f, t.at) == cmd.data
      && Untouched(c.bufs[u], bufs[u], RcrdAt(t.f, t.at), RcrdAt(t.f, t.at) + RcrdLen(t.f) as nat)
      && (forall w :: 0 <= w < |bufs| && w != u ==> bufs[w] == c.bufs[w])
      && Mounted(k.ds, bufs, k.sids, k.ids)
  {
    UpdatePuts(k, c, cmd, pc, b, u, t);
    PutExact(k, c, t, u, cmd.data, Demux(k.ds, c, cmd, pc, b).card.bufs);
  }

  lemma SliceSame(a: bytes, b: bytes, lo: nat, hi: nat, at: nat, n: nat)
    requires Untouched(a, b, lo, hi) && (at + n <= lo || hi <= at)
    ensures Slice(a, at, n) == Slice(b, at, n)
  {}

  // No two EFs of a tree share a byte.
  lemma EfsApart(buf: bytes, f: File, g: File)
    requires ReadTree(buf).Some? && f in Files(ReadTree(buf).value) && g in Files(ReadTree(buf).value)
    requires f != g && !IsFolder(f.kind) && !IsFolder(g.kind)
    ensures f.DataAt() + f.DataSize() <= g.DataAt() || g.DataAt() + g.DataSize() <= f.DataAt()
  {
    var m := FileNode(ReadTree(buf).value, f);
    var n := FileNode(ReadTree(buf).value, g);
    NodesApart(HeadersOf(buf), 0, 0, |buf|, m, n);
    FileFound(buf, f);
    FileFound(buf, g);
  }

  lemma PutSparesFiles(k: Mount, c: Card, t: Target, u: nat, data: bytes, bufs: seq<bytes>, w: nat, g: File)
    requires Put(k, c, t, u, data, bufs)
    requires w < |k.ds| && g in Files(k.ds[w]) && !IsFolder(g.kind) && (w, g) != (u, t.f)
    ensures |bufs| == |c.bufs| && Data(bufs, w, g) == Data(c.bufs, w, g)
  {
    PutExact(k, c, t, u, data, bufs);
    if w == u {
      assert ReadTree(c.bufs[u]) == Some(k.ds[u]);
      EfsApart(c.bufs[u], t.f, g);
      RcrdInside(t.f, t.at);
      SliceSame(c.bufs[u], bufs[u], RcrdAt(t.f, t.at), RcrdAt(t.f, t.at) + RcrdLen(t.f) as nat, g.DataAt(),
          g.DataSize());
    }
  }

  // The data of every other EF on the card is what it was.
  lemma UpdateSparesFiles(k: Mount, c: Card, cmd: Cmd, pc: nat, b: bytes, u: nat, t: Target, w: nat, g: File)
    requires Updated(k, c, cmd, pc, u, t)
    requires w < |k.ds| && g in Files(k.ds[w]) && !IsFolder(g.kind) && (w, g) != (u, t.f)
    ensures var bufs := Demux(k.ds, c, cmd, pc, b).card.bufs;
      |bufs| == |c.bufs| && Data(bufs, w, g) == Data(c.bufs, w, g)
  {
    UpdatePuts(k, c, cmd, pc, b, u, t);
    PutSparesFiles(k, c, t, u, cmd.data, Demux(k.ds, c, cmd, pc, b).card.bufs, w, g);
  }

  lemma MulNext(i: nat, j: nat, n: nat)
    requires i < j
    ensures i * n + n <= j * n
  {
    assert (j - i - 1) * n >= 0;
    assert j * n == i * n + n + (j - i - 1) * n;
  }

  lemma RcrdsApart(n: nat, i: nat, j: nat)
    requires i != j
    ensures i * n + n <= j * n || j * n + n <= i * n
  {
    if i < j {
      MulNext(i, j, n);
    } else {
      MulNext(j, i, n);
    }
  }

  lemma PutSparesRecords(k: Mount, c: Card, t: Target, u: nat, data: bytes, bufs: seq<bytes>, i: nat)
    requires Put(k, c, t, u, data, bufs) && i != t.at
    ensures |bufs| == |c.bufs| && u < |bufs| && Rcrd(bufs, u, t.f, i) == Rcrd(c.bufs, u, t.f, i)
  {
    PutInData(k, c, t, u, data, bufs);
    OtherPart(Data(c.bufs, u, t.f), Data(bufs, u, t.f), t.f.spec[0], i, t.at);
  }

  lemma OtherPart(a: bytes, b: bytes, n: nat, i: nat, j: nat)
    requires Untouched(a, b, j * n, j * n + n) && i != j
    ensures Slice(a, i * n, n) == Slice(b, i * n, n)
  {
    RcrdsApart(n, i, j);
  }

  // So is every other record of the file itself.
  lemma UpdateSparesRecords(k: Mount, c: Card, cmd: Cmd, pc: nat, b: bytes, u: nat, t: Target, i: nat)
    requires Updated(k, c, cmd, pc, u, t) && i != t.at
    ensures var bufs := Demux(k.ds, c, cmd, pc, b).card.bufs;
      |bufs| == |c.bufs| && u < |bufs| && Rcrd(bufs, u, t.f, i) == Rcrd(c.bufs, u, t.f, i)
  {
    UpdatePuts(k, c, cmd, pc, b, u, t);
    PutSparesRecords(k, c, t, u, cmd.data, Demux(k.ds, c, cmd, pc, b).card.bufs, i);
  }

  // ----- Reading what was written -----

  // A READ RECORD with the same P1 and P2 right after an update returns the bytes written.
  lemma UpdateThenRead(k: Mount, c: Card, cmd: Cmd, pc: nat, b: bytes, read: Cmd, b': bytes)
    requires Good(k, c) && Does(cmd, 0xDC) && Updates(k.ds, c.va, cmd, pc, RcrdTarget(k.ds, c.va, cmd.p1, cmd.p2))
    requires Does(read, 0xB2) && read.p1 == cmd.p1 && read.p2 == cmd.p2 && read.p3 == cmd.p3 && read.data == []
    requires |b'| == DATA_MAX
    ensures var d := Demux(k.ds, c, cmd, pc, b).card;
      && Good(k, d)
      && var r := Demux(k.ds, d, read, 1, b').res; r.sw1 == 0x90 && r.sw2 == 0 && Slice(r.b, 0, r.len) == cmd.data
  {
    var t := RcrdTarget(k.ds, c.va, cmd.p1, cmd.p2);
    var d := Demux(k.ds, c, cmd, pc, b).card;
    CommandKeeps(k, c, cmd, pc, b);
    UpdateSucceeds(k, c, cmd, pc, b);
    UpdateExact(k, c, cmd, pc, b, c.va.tree.value, t);
    SameTarget(k, c, t, cmd.p1, cmd.p2);
    ReadSucceeds(k, d, read, 1, b');
  }

  // After a record was addressed, the same P1 and P2 address it again.
  lemma SameTarget(k: Mount, c: Card, t: Target, p1: byte, p2: byte)
    requires Good(k, c) && t == RcrdTarget(k.ds, c.va, p1, p2) && t.Found?
    ensures RcrdFound(k.ds, c.va, t) && VaOk(k.ds, AddressedRcrd(k.ds, c.va, t))
    ensures var va := AddressedRcrd(k.ds, c.va, t);
      va.tree == c.va.tree && RcrdTarget(k.ds, va, p1, p2) == t
  {
    RcrdTargetFound(k.ds, c.va, p1, p2);
    AddressedRcrdOk(k, c, t);
    SameRcrd(k.ds, c.va, AddressedRcrd(k.ds, c.va, t), p1, p2, t);
  }

  lemma SameRcrd(ds: seq<Dir>, va: Va, va': Va, p1: byte, p2: byte, t: Target)
    requires VaOk(ds, va) && VaOk(ds, va') && va'.tree == va.tree && t.Found? && va'.ef == Some(t.f)
    requires RcrdTarget(ds, va, p1, p2) == t
    ensures RcrdTarget(ds, va', p1, p2) == t
  {}

  // ----- Which folder and which records -----

  // Addressing an EF by its short identifier keeps the current DF exactly when that is the
  // folder the EF is in; without one it always stays.
  lemma DfStays(k: Mount, c: Card, t: Target)
    requires Good(k, c) && Addressable(k.ds, c.va, t) && !IsFolder(t.f.kind)
    ensures Addressed(k.ds, c.va, t).df == c.va.df <==>
      !t.bySid || c.va.df == ParentFile(k.ds[c.va.tree.value], t.f)
  {}

  // So it is for the commands that read and update.
  lemma ReadMovesDf(k: Mount, c: Card, cmd: Cmd, pc: nat, b: bytes)
    requires Good(k, c) && (Does(cmd, 0xB2) || Does(cmd, 0xDC)) && |b| == DATA_MAX
    ensures var r, t := Demux(k.ds, c, cmd, pc, b), RcrdTarget(k.ds, c.va, cmd.p1, cmd.p2);
      r.res.sw1 == 0x90 ==>
        && t.Found? && c.va.tree.Some?
        && (r.card.va.df == c.va.df <==> !t.bySid || c.va.df == ParentFile(k.ds[c.va.tree.value], t.f))
  {
    var t := RcrdTarget(k.ds, c.va, cmd.p1, cmd.p2);
    if cmd.ins == 0xB2 {
      ReadSucceeds(k, c, cmd, pc, b);
    } else {
      UpdateSucceeds(k, c, cmd, pc, b);
    }
    RcrdTargetFound(k.ds, c.va, cmd.p1, cmd.p2);
    if t.Found? {
      RcrdKeepsDf(k, c, t);
    }
  }

  lemma RcrdKeepsDf(k: Mount, c: Card, t: Target)
    requires Good(k, c) && RcrdFound(k.ds, c.va, t)
    ensures AddressedRcrd(k.ds, c.va, t).df == c.va.df <==>
      !t.bySid || c.va.df == ParentFile(k.ds[c.va.tree.value], t.f)
  {
    AddressedIs(k.ds, c.va, t);
    DfStays(k, c, t);
    AddressedOk(k, c, t);
    SelectRcrdOk(k.ds, Addressed(k.ds, c.va, t), t.at);
  }

  lemma BinaryMovesDf(k: Mount, c: Card, cmd: Cmd, pc: nat, b: bytes)
    requires Good(k, c) && Does(cmd, 0xB0) && |b| == DATA_MAX
    ensures var r, t := Demux(k.ds, c, cmd, pc, b), BinaryTarget(k.ds, c.va, cmd.p1, cmd.p2);
      r.res.sw1 == 0x90 ==>
        && t.Found? && c.va.tree.Some?
        && (r.card.va.df == c.va.df <==> !t.bySid || c.va.df == ParentFile(k.ds[c.va.tree.value], t.f))
  {
    BinaryExact(k, c, cmd, pc, b);
    var t := BinaryTarget(k.ds, c.va, cmd.p1, cmd.p2);
    if ReadsBytes(k.ds, c.va, cmd, pc, t) {
      DfStays(k, c, t);
    }
  }

  // Instead of the record P1 alone, P2 can mean all from P1 to the last, or from the last to P1.
  predicate MeansSeveral(p2: byte) { p2 % 8 == 5 || p2 % 8 == 6 }

  function AloneP2(p2: byte): byte { 8 * (p2 / 8) + 4 }

  // The card takes both for the record P1 alone.
  lemma RecordAlone(k: Mount, c: Card, cmd: Cmd, pc: nat, b: bytes)
    requires Good(k, c) && (Does(cmd, 0xB2) || Does(cmd, 0xDC)) && MeansSeveral(cmd.p2)
    ensures Demux(k.ds, c, cmd, pc, b) == Demux(k.ds, c, cmd.(p2 := AloneP2(cmd.p2)), pc, b)
  {
    if cmd.ins == 0xB2 {
      ReadAlone(k.ds, c.(rc := EMPTY), cmd, pc, b);
    } else {
      UpdateAlone(k.ds, c.(rc := EMPTY), cmd, pc, b);
    }
  }

  lemma ReadAlone(ds: seq<Dir>, c: Card, cmd: Cmd, pc: nat, b: bytes)
    requires CardOk(ds, c) && MeansSeveral(cmd.p2)
    ensures ReadRecord(ds, c, cmd, pc, b) == ReadRecord(ds, c, cmd.(p2 := AloneP2(cmd.p2)), pc, b)
  {
    ReadVerdictAlone(ds, c.va, cmd, pc);
  }

  lemma ReadVerdictAlone(ds: seq<Dir>, va: Va, cmd: Cmd, pc: nat)
    requires VaOk(ds, va) && MeansSeveral(cmd.p2)
    ensures ReadVerdict(ds, va, cmd, pc) == ReadVerdict(ds, va, cmd.(p2 := AloneP2(cmd.p2)), pc)
  {
    SameTargetAlone(ds, va, cmd.p1, cmd.p2);
  }

  lemma UpdateAlone(ds: seq<Dir>, c: Card, cmd: Cmd, pc: nat, b: bytes)
    requires CardOk(ds, c) && MeansSeveral(cmd.p2)
    ensures UpdateRecord(ds, c, cmd, pc, b) == UpdateRecord(ds, c, cmd.(p2 := AloneP2(cmd.p2)), pc, b)
  {
    SameTargetAlone(ds, c.va, cmd.p1, cmd.p2);
  }

  lemma SameTargetAlone(ds: seq<Dir>, va: Va, p1: byte, p2: byte)
    requires VaOk(ds, va) && MeansSeveral(p2)
    ensures RcrdTarget(ds, va, p1, p2) == RcrdTarget(ds, va, p1, AloneP2(p2))
  {
    var q := AloneP2(p2);
    assert p2 / 8 == q / 8 && p2 / 4 % 2 == 1 && q / 4 % 2 == 1 && p2 % 4 != 3 && q % 4 == 0;
  }
}
