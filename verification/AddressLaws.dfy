// Which file, offset and record P1 and P2 mean, written out, and the status for those that mean
// none.
module AddressLaws {
  import opened Bytes
  import opened FsFormat
  import opened DiskIndex
  import opened Disk
  import opened VaSpec
  import opened ApduRc
  import opened Apdu
  import opened ApduhSpec

  // The last of the files that match, by where it is in the list.
  ghost predicate LastAt(fs: seq<File>, p: File -> bool, f: File) {
    p(f) && exists i :: 0 <= i < |fs| && fs[i] == f && forall j :: i < j < |fs| ==> !p(fs[j])
  }

  lemma {:induction false} LastExactly(fs: seq<File>, p: File -> bool, f: File)
    ensures Last(fs, p) == Some(f) <==> LastAt(fs, p, f)
  {
    if fs != [] {
      var n := |fs| - 1;
      if !p(fs[n]) {
        LastExactly(fs[..n], p, f);
        LastLonger(fs, p, f);
      } else {
        assert LastAt(fs, p, fs[n]);
      }
    }
  }

  // A file behind the others that does not match makes no difference.
  lemma LastLonger(fs: seq<File>, p: File -> bool, f: File)
    requires fs != [] && !p(fs[|fs| - 1])
    ensures LastAt(fs[..|fs| - 1], p, f) <==> LastAt(fs, p, f)
  {
    var front := fs[..|fs| - 1];
    if LastAt(front, p, f) {
      var i :| 0 <= i < |front| && front[i] == f && forall j :: i < j < |front| ==> !p(front[j]);
      assert fs[i] == f && forall j :: i < j < |fs| ==> !p(fs[j]);
    }
    if LastAt(fs, p, f) {
      var i :| 0 <= i < |fs| && fs[i] == f && forall j :: i < j < |fs| ==> !p(fs[j]);
      assert i < |front| && front[i] == f && forall j :: i < j < |front| ==> !p(front[j]);
    }
  }

  // The file of the current tree that a short identifier means: the last that has it.
  ghost predicate BySidIs(ds: seq<Dir>, va: Va, sid: byte, f: File) {
    && va.tree.Some? && va.tree.value < |ds| && sid != 0 && f.sid == sid
    && var fs := Files(ds[va.tree.value]);
       exists i :: 0 <= i < |fs| && fs[i] == f && forall j :: i < j < |fs| ==> fs[j].sid != sid
  }

  // No file of it has the short identifier.
  ghost predicate NoSid(ds: seq<Dir>, va: Va, sid: byte) {
    && va.tree.Some? && va.tree.value < |ds|
    && (sid == 0 || forall f :: f in Files(ds[va.tree.value]) ==> f.sid != sid)
  }

  lemma SidExactly(ds: seq<Dir>, va: Va, sid: byte, f: File)
    requires VaOk(ds, va)
    ensures BySidNow(ds, va, sid) == Ok(f) <==> BySidIs(ds, va, sid, f)
  {
    if va.tree.Some? {
      LastExactly(Files(ds[va.tree.value]), HasSid(sid), f);
    }
  }

  lemma SidNone(ds: seq<Dir>, va: Va, sid: byte)
    requires VaOk(ds, va)
    ensures BySidNow(ds, va, sid) == Fail(FsNotFound) <==> NoSid(ds, va, sid)
    ensures BySidNow(ds, va, sid).Fail? && BySidNow(ds, va, sid) != Fail(FsNotFound) <==> va.tree.None?
  {
    if va.tree.Some? {
      LastIsMatch(Files(ds[va.tree.value]), HasSid(sid));
      assert forall f :: HasSid(sid)(f) <==> f.sid == sid;
    }
  }

  // ----- READ BINARY -----

  // Bytes of the current EF from the offset in P1 and P2 on; or of the file with the short
  // identifier in P1, from P2 on.
  ghost predicate BinaryAddresses(ds: seq<Dir>, va: Va, p1: byte, p2: byte, t: Target) {
    && t.Found?
    && (if p1 < 0x80 then va.ef == Some(t.f) && t.at == 0x100 * p1 + p2 && !t.bySid
        else p1 < 0xA0 && BySidIs(ds, va, p1 - 0x80, t.f) && t.at == p2 && t.bySid)
  }

  // No current EF, no file with the short identifier, no current tree, no meaning at all.
  ghost predicate BinaryRefusal(ds: seq<Dir>, va: Va, p1: byte, sw1: byte, sw2: byte) {
    || ((sw1, sw2) == (0x69, 0x86) && p1 < 0x80 && va.ef.None?)
    || ((sw1, sw2) == (0x6A, 0x82) && 0x80 <= p1 < 0xA0 && NoSid(ds, va, p1 - 0x80))
    || ((sw1, sw2) == (0x6F, 0x00) && 0x80 <= p1 < 0xA0 && va.tree.None?)
    || ((sw1, sw2) == (0x6A, 0x86) && p1 >= 0xA0)
  }

  ghost predicate BinaryMeans(ds: seq<Dir>, va: Va, p1: byte, p2: byte, t: Target) {
    if t.Found? then BinaryAddresses(ds, va, p1, p2, t) else BinaryRefusal(ds, va, p1, t.sw1, t.sw2)
  }

  // P1 and P2 mean exactly one of these.
  lemma BinaryMeaning(ds: seq<Dir>, va: Va, p1: byte, p2: byte, t: Target)
    requires VaOk(ds, va)
    ensures BinaryTarget(ds, va, p1, p2) == t <==> BinaryMeans(ds, va, p1, p2, t)
  {
    if 0x80 <= p1 < 0xA0 {
      SidNone(ds, va, p1 - 0x80);
      if t.Found? {
        SidExactly(ds, va, p1 - 0x80, t.f);
      }
    }
  }

  // ----- Records -----

  // The EF that P2 means for record commands: the current one, or by short identifier.
  ghost predicate EfMeant(ds: seq<Dir>, va: Va, p2: byte, f: File) {
    if p2 < 0x08 then va.ef == Some(f) else BySidIs(ds, va, p2 / 8, f)
  }

  // P1 numbers one record, and P2 says that it does.
  predicate NumbersRecord(p1: byte, p2: byte) { 0x01 <= p1 <= 0xFE && p2 < 0xF8 && p2 % 8 in {4, 5, 6} }

  // The record with number P1, which lies whole in the data of an EF with records.
  ghost predicate RcrdAddresses(ds: seq<Dir>, va: Va, p1: byte, p2: byte, t: Target) {
    && t.Found? && NumbersRecord(p1, p2) && EfMeant(ds, va, p2, t.f) && t.at == p1 - 1 && (t.bySid <==> p2 >= 0x08)
    && (t.f.kind.LinearFixed? || t.f.kind.Cyclic?) && Holds(t.f, p1)
  }

  // The data of the file has room for that many records.
  predicate Holds(f: File, n: nat) { |f.spec| == 1 && f.spec[0] > 0 && n * f.spec[0] as nat <= f.DataSize() }

  lemma HoldsExactly(f: File, n: nat)
    requires n > 0 && HasRecords(f.kind)
    ensures n - 1 < RcrdCnt(f) <==> Holds(f, n)
  {
    if |f.spec| == 1 && f.spec[0] > 0 {
      QuotFits(f.DataSize(), f.spec[0], n - 1);
    }
  }

  lemma EfExactly(ds: seq<Dir>, va: Va, p2: byte, at: nat) returns (t: Target)
    requires VaOk(ds, va)
    ensures t == EfTarget(ds, va, p2 / 8, at)
    ensures t.Found? ==> EfMeant(ds, va, p2, t.f) && t.at == at && (t.bySid <==> p2 >= 8)
    ensures forall f :: EfMeant(ds, va, p2, f) ==> t.Found? && t.f == f
    ensures t.Deny? && p2 >= 8 && va.tree.Some? ==> t == Deny(0x6A, 0x82) && NoSid(ds, va, p2 / 8)
    ensures t.Deny? && (p2 < 8 || va.tree.None?) ==> t == Deny(0x6F, 0x00)
    ensures NoSid(ds, va, p2 / 8) && p2 >= 8 ==> t.Deny? && va.tree.Some?
  {
    t := EfTarget(ds, va, p2 / 8, at);
    if p2 >= 8 {
      SidNone(ds, va, p2 / 8);
      forall f
        ensures BySidNow(ds, va, p2 / 8) == Ok(f) <==> BySidIs(ds, va, p2 / 8, f)
      {
        SidExactly(ds, va, p2 / 8, f);
      }
    }
  }

  // Records by identifier; other uses and numbers there are none of; no such file; no such
  // record; no EF or one without records.
  ghost predicate RcrdRefusal(ds: seq<Dir>, va: Va, p1: byte, p2: byte, sw1: byte, sw2: byte) {
    || ((sw1, sw2) == (0x6A, 0x81) && (p2 >= 0xF8 || p2 % 8 < 4))
    || ((sw1, sw2) == (0x6A, 0x86) && p2 < 0xF8 && p2 % 8 >= 4 && (p2 % 8 == 7 || p1 == 0x00 || p1 == 0xFF))
    || ((sw1, sw2) == (0x6A, 0x82) && NumbersRecord(p1, p2) && p2 >= 0x08 && NoSid(ds, va, p2 / 8))
    || ((sw1, sw2) == (0x6A, 0x83) && NumbersRecord(p1, p2) && NoRecord(ds, va, p1, p2))
    || ((sw1, sw2) == (0x6F, 0x00) && NumbersRecord(p1, p2) && NoRecords(ds, va, p2))
  }

  ghost predicate NoRecord(ds: seq<Dir>, va: Va, p1: byte, p2: byte) {
    exists f :: EfMeant(ds, va, p2, f) && HasRecords(f.kind) && !Holds(f, p1)
  }

  ghost predicate NoRecords(ds: seq<Dir>, va: Va, p2: byte) {
    va.tree.None? || (p2 < 0x08 && va.ef.None?) || exists f :: EfMeant(ds, va, p2, f) && !HasRecords(f.kind)
  }

  ghost predicate RcrdMeans(ds: seq<Dir>, va: Va, p1: byte, p2: byte, t: Target) {
    if t.Found? then RcrdAddresses(ds, va, p1, p2, t) else RcrdRefusal(ds, va, p1, p2, t.sw1, t.sw2)
  }

  lemma RcrdMeaning(ds: seq<Dir>, va: Va, p1: byte, p2: byte, t: Target)
    requires VaOk(ds, va)
    ensures RcrdTarget(ds, va, p1, p2) == t <==> RcrdMeans(ds, va, p1, p2, t)
  {
    UseBits(p2);
    if NumbersRecord(p1, p2) {
      NumberMeaning(ds, va, p1, p2, t);
    }
  }

  lemma NumberMeaning(ds: seq<Dir>, va: Va, p1: byte, p2: byte, t: Target)
    requires VaOk(ds, va) && NumbersRecord(p1, p2)
    ensures RcrdTarget(ds, va, p1, p2) == t <==> RcrdMeans(ds, va, p1, p2, t)
  {
    var u := EfExactly(ds, va, p2, p1 as nat - 1);
    UseBits(p2);
    assert RcrdTarget(ds, va, p1, p2) == if u.Deny? then u else RcrdIn(u.f, u.at, u.bySid);
    if u.Found? && HasRecords(u.f.kind) {
      HoldsExactly(u.f, p1);
    }
  }

  lemma UseBits(p2: byte)
    ensures p2 / 8 == 31 <==> p2 >= 0xF8
    ensures p2 / 4 % 2 == 0 <==> p2 % 8 < 4
    ensures p2 / 4 % 2 == 1 && p2 % 4 != 3 <==> p2 % 8 in {4, 5, 6}
    ensures p2 / 8 == 0 <==> p2 < 8
  {
    assert p2 == 8 * (p2 / 8) + p2 % 8;
  }

  // ----- What selecting does -----

  // The validity area once `f` of tree `t` is selected: a folder is the current DF and there is
  // no current EF, an EF brings the folder it is in along; the application is that of the tree,
  // and stays what it was in a tree of no application.
  ghost predicate Made(ds: seq<Dir>, va: Va, va': Va, t: nat, f: File) {
    && t < |ds| && va'.tree == Some(t) && va'.file == Some(f) && va'.rcrd == 0
    && (if IsFolder(f.kind) then va'.df == Some(f) && va'.ef == None
        else va'.df.Some? && InFolder(ds[t], va'.df.value, f) && va'.ef == Some(f))
    && (if ds[t].file.kind.Adf? then va'.adf == Some(ds[t].file) && va'.treeAdf == Some(t)
        else va'.adf == va.adf && va'.treeAdf == va.treeAdf)
  }

  lemma SelectedMade(ds: seq<Dir>, va: Va, t: nat, f: File)
    requires GoodDirs(ds) && t < |ds| && f in Files(ds[t])
    ensures Made(ds, va, Selected(va, ds[t], t, f), t, f)
  {
    assert GoodFile(ds[t], f);
  }
}
