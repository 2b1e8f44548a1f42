// Building a tree buffer from items, in place: a header is written without its type and size,
// the contents are written behind it, then the header is completed.
module DiskJs {
  import opened Bytes
  import opened BerTlv
  import opened BerTlvEncoder
  import opened FsFormat
  import opened Memory
  import opened DiskItems

  // Items whose BER-TLV objects the encoder has a meaning for.
  ghost predicate DefinedItem(it: Item) {
    match it
    case Folder(_, _, _, name, kids) =>
      LeafDefined(name) && forall i :: 0 <= i < |kids| ==> DefinedItem(kids[i])
    case Plain(_, _, content) => LeafDefined(content)
    case Records(_, _, _, _, rcrds) => forall i :: 0 <= i < |rcrds| ==> LeafDefined(rcrds[i])
  }

  method WriteLeaf(l: Leaf, buf: array<byte>, base: nat, room: nat) returns (ret: Ret, n: nat)
    requires base + room <= buf.Length && room <= UINT32_MAX && LeafDefined(l)
    modifies buf
    ensures ret == if !LeafOk(l) then Error else if |LeafBytes(l)| > room then BufferTooShort else Success
    ensures ret.Success? ==> n == |LeafBytes(l)| && buf[..] == Splice(old(buf[..]), base, LeafBytes(l))
    ensures !ret.Success? ==> buf[..] == old(buf[..])
  {
    match l
    case Dato(contents) =>
      ret, n := EncodeItem(contents, buf, base, room);
    case Raw(b) =>
      if |b| > room {
        return BufferTooShort, 0;
      }
      CopyInto(buf, base, b);
      ret, n := Success, |b|;
  }

  // A leaf at the start of a field that is filled with `fill` first.
  method WriteField(l: Leaf, buf: array<byte>, base: nat, width: nat, room: nat, fill: byte) returns (ret: Ret, n: nat)
    requires base + room <= buf.Length && width <= room <= UINT32_MAX && LeafDefined(l)
    modifies buf
    ensures ret == if !LeafOk(l) then Error else if |LeafBytes(l)| > room then BufferTooShort else Success
    ensures ret.Success? ==> n == |LeafBytes(l)|
    ensures ret.Success? && n <= width ==>
      buf[..] == Splice(old(buf[..]), base, Padded(LeafBytes(l), width, fill))
  {
    ghost var b := LeafBytes(l);
    Fill(buf, base, width, fill);
    ret, n := WriteLeaf(l, buf, base, room);
    if ret.Success? && n <= width {
      assert Repeat(fill, width) == Repeat(fill, n) + Repeat(fill, width - n);
      SpliceHead(old(buf[..]), base, Repeat(fill, n), Repeat(fill, width - n), b);
    }
  }

  method WriteHdr(buf: array<byte>, base: nat, size: nat, prel: nat, typ: byte, lcs: byte, id: u16, sid: byte)
    requires base + FILE_HDR_LEN <= buf.Length
    modifies buf
    ensures buf[..] == Splice(old(buf[..]), base, RawHdr(size, prel, typ, lcs, id, sid))
  {
    CopyInto(buf, base, RawHdr(size, prel, typ, lcs, id, sid));
  }

  // A header whose size, type and life cycle status are assigned.
  function Completed(hdr: bytes, size: nat, typ: byte, lcs: byte): (r: bytes)
    requires |hdr| == FILE_HDR_LEN
    ensures |r| == FILE_HDR_LEN
  {
    Le(size, 4) + hdr[4..8] + [typ, lcs] + hdr[10..]
  }

  lemma CompletedHdr(size: nat, prel: nat, typ: byte, lcs: byte, id: u16, sid: byte)
    ensures Completed(RawHdr(0, prel, 0, 0, id, sid), size, typ, lcs) == RawHdr(size, prel, typ, lcs, id, sid)
  {
    var hdr := RawHdr(0, prel, 0, 0, id, sid);
    assert hdr[4..8] == Le(prel, 4) && hdr[10..] == Le(id, 2) + [sid];
    assert RawHdr(size, prel, typ, lcs, id, sid) == Le(size, 4) + Le(prel, 4) + [typ, lcs] + (Le(id, 2) + [sid]);
  }

  method CompleteHdr(buf: array<byte>, base: nat, size: nat, typ: byte, lcs: byte)
    requires base + FILE_HDR_LEN <= buf.Length
    modifies buf
    ensures buf[..] == Splice(old(buf[..]), base, Completed(old(buf[base..base + FILE_HDR_LEN]), size, typ, lcs))
  {
    ghost var was, hdr := buf[..], buf[base..base + FILE_HDR_LEN];
    CopyInto(buf, base, Le(size, 4));
    SpliceIs(was, base, Le(size, 4));
    buf[base + 8], buf[base + 9] := typ, lcs;
    SpliceIs(was, base, Completed(hdr, size, typ, lcs));
    CompletedAt(was, buf[..], base, size, typ, lcs);
  }

  lemma CompletedAt(was: bytes, now: bytes, base: nat, size: nat, typ: byte, lcs: byte)
    requires base + FILE_HDR_LEN <= |was|
    requires now == (was[..base] + Le(size, 4) + was[base + 4..])[base + 8 := typ][base + 9 := lcs]
    ensures now == was[..base] + Completed(was[base..base + FILE_HDR_LEN], size, typ, lcs) + was[base + FILE_HDR_LEN..]
  {
    var hdr := was[base..base + FILE_HDR_LEN];
    var c := Completed(hdr, size, typ, lcs);
    CompletedBytes(hdr, size, typ, lcs);
    forall i | 0 <= i < |was|
      ensures now[i] == (was[..base] + c + was[base + FILE_HDR_LEN..])[i]
    {
      if base <= i < base + FILE_HDR_LEN {
        assert hdr[i - base] == was[i] && (was[..base] + c + was[base + FILE_HDR_LEN..])[i] == c[i - base];
      }
    }
  }

  lemma CompletedBytes(hdr: bytes, size: nat, typ: byte, lcs: byte)
    requires |hdr| == FILE_HDR_LEN
    ensures var c := Completed(hdr, size, typ, lcs);
      forall i :: 0 <= i < |c| ==>
        c[i] == if i < 4 then Le(size, 4)[i] else if i == 8 then typ else if i == 9 then lcs else hdr[i]
  {}

  // What serialising an item into `room` bytes at `base` must do: valid items are written
  // whole when they fit, are reported too long (so that the caller can grow the buffer) when
  // they do not, and invalid ones fail.
  ghost predicate Written(it: Item, prel: nat, room: nat, ret: Ret, n: nat, was: bytes, now: bytes, base: nat)
    requires base + room <= |was|
  {
    && (Valid(it) ==> ret == if |Ser(it, prel)| <= room then Success else BufferTooShort)
    && (!Valid(it) ==> ret != Success)
    && (ret.Success? ==> n == |Ser(it, prel)| <= room && now == Splice(was, base, Ser(it, prel)))
  }

  ghost predicate WrittenAll(kids: seq<Item>, prel: nat, room: nat, ret: Ret, n: nat, was: bytes, now: bytes, base: nat)
    requires base + room <= |was|
  {
    && (ValidAll(kids) ==> ret == if |SerFrom(kids, 0, prel)| <= room then Success else BufferTooShort)
    && (!ValidAll(kids) ==> ret != Success)
    && (ret.Success? ==> n == |SerFrom(kids, 0, prel)| <= room && now == Splice(was, base, SerFrom(kids, 0, prel)))
  }

  // One more item of a folder is in place; the rest follows it.
  lemma KidsStep(kids: seq<Item>, i: nat, prel: nat, all: bytes, done: bytes, more: bytes)
    requires i < |kids| && more == done + Ser(kids[i], prel + |done|)
    requires all == done + SerFrom(kids, i, prel + |done|)
    ensures all == more + SerFrom(kids, i + 1, prel + |more|)
  {
    Assoc(done, Ser(kids[i], prel + |done|), SerFrom(kids, i + 1, prel + |more|));
  }

  // The first `i` items of a folder are in place: `done`, written from `base` on.
  ghost predicate Progress(kids: seq<Item>, i: nat, prel: nat, was: bytes, now: bytes, base: nat, done: bytes) {
    && i <= |kids| && (forall j :: 0 <= j < i ==> Valid(kids[j]))
    && SerFrom(kids, 0, prel) == done + SerFrom(kids, i, prel + |done|)
    && base + |done| <= |was| && now == Splice(was, base, done)
  }

  lemma ProgressStart(kids: seq<Item>, prel: nat, was: bytes, base: nat)
    requires base <= |was|
    ensures Progress(kids, 0, prel, was, was, base, [])
  {
  }

  lemma ProgressEnd(kids: seq<Item>, prel: nat, was: bytes, now: bytes, base: nat, done: bytes)
    requires Progress(kids, |kids|, prel, was, now, base, done)
    ensures ValidAll(kids) && done == SerFrom(kids, 0, prel) && now == Splice(was, base, done)
  {}

  // One item behind those already in place.
  method WriteNext(kids: seq<Item>, i: nat, prel: nat, buf: array<byte>, base: nat, used: nat, room: nat,
      ghost was: bytes, ghost done: bytes)
    returns (ret: Ret, n: nat, ghost more: bytes)
    requires i < |kids| && DefinedItem(kids[i]) && used == |done| <= room <= UINT32_MAX
        && base + room <= buf.Length == |was|
    requires Progress(kids, i, prel, was, buf[..], base, done)
    modifies buf
    ensures ret.Success? ==> used + n == |more| <= room && Progress(kids, i + 1, prel, was, buf[..], base, more)
    ensures !ret.Success? && ValidAll(kids) ==> ret == BufferTooShort && |SerFrom(kids, 0, prel)| > room
    decreases kids[i], 2
  {
    more := done + Ser(kids[i], prel + used);
    KidsStep(kids, i, prel, SerFrom(kids, 0, prel), done, more);
    ret, n := WriteItem(kids[i], prel + used, buf, base + used, room - used);
    if ret.Success? {
      SpliceAfter(was, base, done, Ser(kids[i], prel + used));
    }
  }

  // The contents of a folder.
  method WriteKids(kids: seq<Item>, prel: nat, buf: array<byte>, base: nat, room: nat) returns (ret: Ret, n: nat)
    requires base + room <= buf.Length && room <= UINT32_MAX
    requires forall i :: 0 <= i < |kids| ==> DefinedItem(kids[i])
    modifies buf
    ensures WrittenAll(kids, prel, room, ret, n, old(buf[..]), buf[..], base)
    decreases kids, 0
  {
    var itemsLen, i := 0, 0;
    ghost var was, done: bytes := buf[..], [];
    ProgressStart(kids, prel, was, base);
    while i < |kids|
      invariant 0 <= i <= |kids| && itemsLen == |done| <= room
      invariant Progress(kids, i, prel, was, buf[..], base, done)
    {
      var itemSize;
      ret, itemSize, done := WriteNext(kids, i, prel, buf, base, itemsLen, room, was, done);
      if ret != Success {
        return ret, 0;
      }
      itemsLen := itemsLen + itemSize;
      i := i + 1;
    }
    ProgressEnd(kids, prel, was, buf[..], base, done);
    ret, n := Success, itemsLen;
  }

  function RawOf(it: Item, prel: nat): (r: bytes)
    ensures |r| == FILE_HDR_LEN
  {
    RawHdr(0, prel, 0, 0, it.id, it.sid)
  }

  // A serialised item is its completed raw header, the header bytes of its kind, its data.
  lemma SerCompleted(it: Item, prel: nat)
    ensures Ser(it, prel) ==
      Completed(RawOf(it, prel), FILE_HDR_LEN + |SpecOf(it)| + |Body(it)|, KindByte(KindOf(it)), 0)
        + (SpecOf(it) + Body(it))
  {
    var size, typ := FILE_HDR_LEN + |SpecOf(it)| + |Body(it)|, KindByte(KindOf(it));
    CompletedHdr(size, prel, typ, 0, it.id, it.sid);
    HdrIs(it, prel);
    Regroup(ItemHdr(it, prel), RawHdr(size, prel, typ, 0, it.id, it.sid), SpecOf(it), Body(it));
  }

  lemma Regroup(h: bytes, r: bytes, s: bytes, b: bytes)
    requires h == r + s
    ensures h + b == r + (s + b)
  {}

  lemma HdrIs(it: Item, prel: nat)
    ensures ItemHdr(it, prel) ==
      RawHdr(FILE_HDR_LEN + |SpecOf(it)| + |Body(it)|, prel, KindByte(KindOf(it)), 0, it.id, it.sid) + SpecOf(it)
  {}

  // Writes size, type and status into the header of an item that is otherwise in place.
  method Finish(ghost it: Item, ghost prel: nat, buf: array<byte>, base: nat, size: nat, typ: byte, ghost was: bytes)
    requires base + FILE_HDR_LEN + |SpecOf(it) + Body(it)| <= |was|
    requires buf[..] == Splice(was, base, RawOf(it, prel) + (SpecOf(it) + Body(it)))
    requires size == FILE_HDR_LEN + |SpecOf(it)| + |Body(it)| && typ == KindByte(KindOf(it))
    modifies buf
    ensures size == |Ser(it, prel)| && base + size <= |was|
    ensures buf[..] == Splice(was, base, Ser(it, prel))
  {
    ghost var raw, rest := RawOf(it, prel), SpecOf(it) + Body(it);
    SpliceReads(was, base, raw + rest);
    assert buf[base..base + FILE_HDR_LEN] == (raw + rest)[..FILE_HDR_LEN] == raw;
    SerCompleted(it, prel);
    CompleteHdr(buf, base, size, typ, 0);
    SpliceHead(was, base, raw, rest, Completed(raw, size, typ, 0));
  }

  // The name and the raw header of a folder.
  method WriteFolderHead(it: Item, nameMin: nat, prel: nat, buf: array<byte>, base: nat) returns (ret: Ret)
    requires it.Folder? && DefinedItem(it) && base + FILE_HDR_LEN + NAME_LEN <= buf.Length
    modifies buf
    ensures ret.Success? <==> LeafOk(it.name) && nameMin <= |LeafBytes(it.name)| <= NAME_LEN
    ensures ret.Success? ==> buf[..] == Splice(old(buf[..]), base, RawOf(it, prel) + SpecOf(it))
  {
    var nameLen;
    ret, nameLen := WriteField(it.name, buf, base + FILE_HDR_LEN, NAME_LEN, NAME_LEN, 0);
    if ret != Success {
      return ret;
    }
    if nameLen < nameMin {
      return Error;
    }
    WriteHdr(buf, base, 0, prel, 0, 0, it.id, it.sid);
    SpliceTwice(old(buf[..]), base, RawOf(it, prel), SpecOf(it));
  }

  // `jsitem_prs_file_df` and `jsitem_prs_file_adf`, which differ in the type they write and
  // in the shortest name they take.
  method WriteNamed(it: Item, nameMin: nat, prel: nat, buf: array<byte>, base: nat, room: nat)
    returns (ret: Ret, n: nat)
    requires it.Folder? && DefinedItem(it) && base + room <= buf.Length && room <= UINT32_MAX
    requires (it.kind.Df? && nameMin == 0) || (it.kind.Adf? && nameMin == 5)
    modifies buf
    ensures Written(it, prel, room, ret, n, old(buf[..]), buf[..], base)
    decreases it.kids, 1
  {
    var hdrSize := FILE_HDR_LEN + NAME_LEN;
    ghost var was, head, body := buf[..], RawOf(it, prel) + SpecOf(it), SerFrom(it.kids, 0, hdrSize);
    SerCompleted(it, prel);
    if room < hdrSize {
      return BufferTooShort, 0;
    }
    ret := WriteFolderHead(it, nameMin, prel, buf, base);
    if ret != Success {
      return ret, 0;
    }
    var itemsLen;
    ret, itemsLen := WriteKids(it.kids, hdrSize, buf, base + hdrSize, room - hdrSize);
    if ret != Success {
      return ret, 0;
    }
    SpliceAfter(was, base, head, body);
    Assoc(RawOf(it, prel), SpecOf(it), body);
    Finish(it, prel, buf, base, hdrSize + itemsLen, KindByte(it.kind), was);
    n := hdrSize + itemsLen;
  }

  // `jsitem_prs_file_mf`: parsed as a DF, then the type is changed.
  method WriteMf(it: Item, prel: nat, buf: array<byte>, base: nat, room: nat) returns (ret: Ret, n: nat)
    requires it.Folder? && it.kind.Mf? && DefinedItem(it) && base + room <= buf.Length && room <= UINT32_MAX
    modifies buf
    ensures Written(it, prel, room, ret, n, old(buf[..]), buf[..], base)
    decreases it.kids, 2
  {
    var df := it.(kind := Df);
    ghost var was := buf[..];
    SameBody(it, df, prel);
    ret, n := WriteNamed(df, 0, prel, buf, base, room);
    if ret.Success? {
      Retype(it, df, prel, was, base);
      buf[base + 8] := KindByte(Mf);
    }
  }

  // Two items that differ in nothing but the kind written into their headers.
  ghost predicate SameButKind(a: Item, b: Item) {
    || (a.Folder? && b.Folder? && a == b.(kind := a.kind))
    || (a.Records? && b.Records? && a == b.(cyclic := a.cyclic))
  }

  lemma SameBody(a: Item, b: Item, prel: nat)
    requires SameButKind(a, b)
    ensures SpecOf(a) == SpecOf(b) && Body(a) == Body(b) && RawOf(a, prel) == RawOf(b, prel)
    ensures |Ser(a, prel)| == |Ser(b, prel)|
  {
    SerCompleted(a, prel);
    SerCompleted(b, prel);
  }

  lemma Retype(a: Item, b: Item, prel: nat, was: bytes, base: nat)
    requires SameButKind(a, b) && base + |Ser(b, prel)| <= |was|
    ensures |Ser(a, prel)| == |Ser(b, prel)| >= FILE_HDR_LEN
    ensures Splice(was, base, Ser(b, prel))[base + 8 := KindByte(KindOf(a))] == Splice(was, base, Ser(a, prel))
  {
    RetypeSer(a, b, prel);
    SpliceSet(was, base, Ser(b, prel), 8, KindByte(KindOf(a)));
  }

  lemma RetypeSer(a: Item, b: Item, prel: nat)
    requires SameButKind(a, b)
    ensures |Ser(b, prel)| >= FILE_HDR_LEN
    ensures Ser(a, prel) == Ser(b, prel)[8 := KindByte(KindOf(a))]
  {
    var raw, rest := RawOf(b, prel), SpecOf(b) + Body(b);
    var size := FILE_HDR_LEN + |SpecOf(b)| + |Body(b)|;
    assert Ser(b, prel) == Completed(raw, size, KindByte(KindOf(b)), 0) + rest by {
      SerCompleted(b, prel);
    }
    assert Ser(a, prel) == Completed(raw, size, KindByte(KindOf(a)), 0) + rest by {
      SameBody(a, b, prel);
      SerCompleted(a, prel);
    }
    RetypeHdr(raw, size, KindByte(KindOf(b)), KindByte(KindOf(a)), rest);
  }

  lemma SpliceSet(was: bytes, base: nat, d: bytes, i: nat, x: byte)
    requires i < |d| && base + |d| <= |was|
    ensures Splice(was, base, d)[base + i := x] == Splice(was, base, d[i := x])
  {
    SpliceIs(was, base, d);
    SpliceIs(was, base, d[i := x]);
    SetInside(was[..base], d, was[base + |d|..], i, x);
  }

  lemma RetypeHdr(raw: bytes, size: nat, typ: byte, typ': byte, rest: bytes)
    requires |raw| == FILE_HDR_LEN
    ensures (Completed(raw, size, typ, 0) + rest)[8 := typ'] == Completed(raw, size, typ', 0) + rest
  {
    assert Completed(raw, size, typ, 0)[8 := typ'] == Completed(raw, size, typ', 0);
  }

  lemma SetInside(a: bytes, b: bytes, c: bytes, i: nat, x: byte)
    requires i < |b|
    ensures (a + b + c)[|a| + i := x] == a + b[i := x] + c
  {}

  method WriteTransparent(it: Item, prel: nat, buf: array<byte>, base: nat, room: nat) returns (ret: Ret, n: nat)
    requires it.Plain? && DefinedItem(it) && base + room <= buf.Length && room <= UINT32_MAX
    modifies buf
    ensures Written(it, prel, room, ret, n, old(buf[..]), buf[..], base)
  {
    var hdrLen := FILE_HDR_LEN;
    ghost var was, raw, data := buf[..], RawOf(it, prel), LeafBytes(it.content);
    SerCompleted(it, prel);
    if room < hdrLen {
      return BufferTooShort, 0;
    }
    WriteHdr(buf, base, 0, prel, 0, 0, it.id, it.sid);
    var contentsLen;
    ret, contentsLen := WriteLeaf(it.content, buf, base + hdrLen, room - hdrLen);
    if ret != Success {
      return ret, 0;
    }
    SpliceAfter(was, base, raw, data);
    assert SpecOf(it) + Body(it) == data;
    Finish(it, prel, buf, base, hdrLen + contentsLen, KindByte(Transparent), was);
    n := hdrLen + contentsLen;
  }

  // The first `i` records are in place: `done`, written from `base` on.
  ghost predicate RcrdProgress(rcrds: seq<Leaf>, i: nat, size: nat, was: bytes, now: bytes, base: nat, done: bytes) {
    && i <= |rcrds| && (forall j :: 0 <= j < i ==> LeafOk(rcrds[j]) && |LeafBytes(rcrds[j])| <= size)
    && RcrdBytes(rcrds, size) == done + RcrdBytes(rcrds[i..], size)
    && base + |done| <= |was| && now == Splice(was, base, done)
  }

  ghost predicate RcrdsOk(rcrds: seq<Leaf>, size: nat) {
    forall j :: 0 <= j < |rcrds| ==> LeafOk(rcrds[j]) && |LeafBytes(rcrds[j])| <= size
  }

  lemma RcrdSplit(rcrds: seq<Leaf>, i: nat, size: nat, done: bytes)
    requires i < |rcrds| && RcrdBytes(rcrds, size) == done + RcrdBytes(rcrds[i..], size)
    ensures RcrdBytes(rcrds, size) == done + Padded(LeafBytes(rcrds[i]), size, 0xFF) + RcrdBytes(rcrds[i + 1..], size)
  {
    assert rcrds[i..][0] == rcrds[i] && rcrds[i..][1..] == rcrds[i + 1..];
    Assoc(done, Padded(LeafBytes(rcrds[i]), size, 0xFF), RcrdBytes(rcrds[i + 1..], size));
  }

  lemma RcrdMore(rcrds: seq<Leaf>, i: nat, size: nat, was: bytes, now: bytes, next: bytes, base: nat, done: bytes,
      rcrd: bytes)
    requires RcrdProgress(rcrds, i, size, was, now, base, done) && i < |rcrds|
    requires rcrd == Padded(LeafBytes(rcrds[i]), size, 0xFF)
    requires LeafOk(rcrds[i]) && |LeafBytes(rcrds[i])| <= size && base + |done + rcrd| <= |was|
    requires next == Splice(was, base, done + rcrd)
    ensures RcrdProgress(rcrds, i + 1, size, was, next, base, done + rcrd)
  {
    RcrdSplit(rcrds, i, size, done);
  }

  lemma RcrdRoom(rcrds: seq<Leaf>, i: nat, size: nat, done: bytes, rcrd: bytes)
    requires i < |rcrds| && RcrdBytes(rcrds, size) == done + RcrdBytes(rcrds[i..], size)
    requires rcrd == Padded(LeafBytes(rcrds[i]), size, 0xFF)
    ensures |RcrdBytes(rcrds, size)| >= |done| + |rcrd|
    ensures RcrdsOk(rcrds, size) ==> |rcrd| == size && LeafOk(rcrds[i]) && |LeafBytes(rcrds[i])| <= size
  {
    RcrdSplit(rcrds, i, size, done);
  }

  method WriteRcrd(rcrds: seq<Leaf>, i: nat, size: nat, buf: array<byte>, base: nat, used: nat, room: nat,
      ghost was: bytes, ghost done: bytes)
    returns (ret: Ret, ghost more: bytes)
    requires i < |rcrds| && LeafDefined(rcrds[i]) && used == |done| <= room <= UINT32_MAX
        && base + room <= buf.Length == |was|
    requires RcrdProgress(rcrds, i, size, was, buf[..], base, done)
    modifies buf
    ensures ret.Success? ==> used + size == |more| <= room && RcrdProgress(rcrds, i + 1, size, was, buf[..], base, more)
    ensures !ret.Success? && RcrdsOk(rcrds, size) ==> ret == BufferTooShort && |RcrdBytes(rcrds, size)| > room
  {
    ghost var rcrd := Padded(LeafBytes(rcrds[i]), size, 0xFF);
    more := done + rcrd;
    RcrdRoom(rcrds, i, size, done, rcrd);
    // Another record must fit before its unused space is filled.
    if used + size > room {
      return BufferTooShort, more;
    }
    ghost var now := buf[..];
    ret := PutRcrd(rcrds[i], size, buf, base, used, room, was, done);
    if ret == Success {
      RcrdMore(rcrds, i, size, was, now, buf[..], base, done, rcrd);
    }
  }

  // A record that has room, behind `done`.
  method PutRcrd(l: Leaf, size: nat, buf: array<byte>, base: nat, used: nat, room: nat, ghost was: bytes,
      ghost done: bytes)
    returns (ret: Ret)
    requires LeafDefined(l) && used == |done| && used + size <= room <= UINT32_MAX && base + room <= buf.Length == |was|
    requires buf[..] == Splice(was, base, done)
    modifies buf
    ensures ret.Success? <==> LeafOk(l) && |LeafBytes(l)| <= size
    ensures ret.Success? ==>
      var rcrd := Padded(LeafBytes(l), size, 0xFF);
      |rcrd| == size && buf[..] == Splice(was, base, done + rcrd)
  {
    var itemSize;
    ret, itemSize := WriteField(l, buf, base + used, size, room - used, 0xFF);
    if ret != Success || itemSize > size {
      return Error;
    }
    SpliceAfter(was, base, done, Padded(LeafBytes(l), size, 0xFF));
  }

  method WriteRcrds(rcrds: seq<Leaf>, size: nat, buf: array<byte>, base: nat, room: nat) returns (ret: Ret, n: nat)
    requires base + room <= buf.Length && room <= UINT32_MAX
    requires forall i :: 0 <= i < |rcrds| ==> LeafDefined(rcrds[i])
    modifies buf
    ensures RcrdsOk(rcrds, size) ==> ret == if |RcrdBytes(rcrds, size)| <= room then Success else BufferTooShort
    ensures !RcrdsOk(rcrds, size) ==> ret != Success
    ensures ret.Success? ==> n == |RcrdBytes(rcrds, size)| <= room
    ensures ret.Success? ==> buf[..] == Splice(old(buf[..]), base, RcrdBytes(rcrds, size))
  {
    var i := 0;
    n := 0;
    ghost var was, done: bytes := buf[..], [];
    assert rcrds[0..] == rcrds;
    while i < |rcrds|
      invariant 0 <= i <= |rcrds| && n == |done| <= room
      invariant RcrdProgress(rcrds, i, size, was, buf[..], base, done)
    {
      ret, done := WriteRcrd(rcrds, i, size, buf, base, n, room, was, done);
      if ret != Success {
        return;
      }
      n := n + size;
      i := i + 1;
    }
    assert done + [] == done;
    ret := Success;
  }

  // The raw header and the record size.
  method WriteLinearHead(it: Item, prel: nat, buf: array<byte>, base: nat) returns (ret: Ret)
    requires it.Records? && base + FILE_HDR_LEN + 1 <= buf.Length
    modifies buf
    ensures ret == if it.rcrdSize > 255 then Error else Success
    ensures ret.Success? ==> buf[..] == Splice(old(buf[..]), base, RawOf(it, prel) + SpecOf(it))
  {
    WriteHdr(buf, base, 0, prel, 0, 0, it.id, it.sid);
    if it.rcrdSize > 255 {
      return Error;
    }
    CopyInto(buf, base + FILE_HDR_LEN, [it.rcrdSize]);
    SpliceAfter(old(buf[..]), base, RawOf(it, prel), SpecOf(it));
    ret := Success;
  }

  method WriteLinear(it: Item, prel: nat, buf: array<byte>, base: nat, room: nat) returns (ret: Ret, n: nat)
    requires it.Records? && !it.cyclic && DefinedItem(it) && base + room <= buf.Length && room <= UINT32_MAX
    modifies buf
    ensures Written(it, prel, room, ret, n, old(buf[..]), buf[..], base)
  {
    var hdrLen := FILE_HDR_LEN + 1;
    ghost var was := buf[..];
    RecordsSer(it, prel);
    if room < hdrLen {
      return BufferTooShort, 0;
    }
    ret := WriteLinearHead(it, prel, buf, base);
    if ret != Success {
      return ret, 0;
    }
    ret, n := WriteContents(it, prel, buf, base, room, was);
  }

  // The records and, once their length is known, the header.
  method WriteContents(it: Item, prel: nat, buf: array<byte>, base: nat, room: nat, ghost was: bytes)
    returns (ret: Ret, n: nat)
    requires it.Records? && !it.cyclic && DefinedItem(it) && base + room <= buf.Length == |was| && room <= UINT32_MAX
    requires FILE_HDR_LEN + 1 <= room && it.rcrdSize <= 255
    requires buf[..] == Splice(was, base, RawOf(it, prel) + SpecOf(it))
    modifies buf
    ensures RcrdsOk(it.rcrds, it.rcrdSize) ==> ret == if |Ser(it, prel)| <= room then Success else BufferTooShort
    ensures !RcrdsOk(it.rcrds, it.rcrdSize) ==> ret != Success
    ensures ret.Success? ==> n == |Ser(it, prel)| <= room && buf[..] == Splice(was, base, Ser(it, prel))
  {
    var hdrLen := FILE_HDR_LEN + 1;
    RecordsSer(it, prel);
    ret, n := WriteRcrds(it.rcrds, it.rcrdSize, buf, base + hdrLen, room - hdrLen);
    n := hdrLen + n;
    if ret == Success {
      AfterHead(was, base, RawOf(it, prel), SpecOf(it), Body(it));
      Finish(it, prel, buf, base, n, KindByte(LinearFixed), was);
    }
  }

  lemma AfterHead(was: bytes, base: nat, raw: bytes, spec: bytes, body: bytes)
    requires base + |raw| + |spec| + |body| <= |was|
    ensures Splice(Splice(was, base, raw + spec), base + |raw + spec|, body) == Splice(was, base, raw + (spec + body))
  {
    SpliceAfter(was, base, raw + spec, body);
    Assoc(raw, spec, body);
  }

  lemma RecordsSer(it: Item, prel: nat)
    requires it.Records?
    ensures |Ser(it, prel)| == FILE_HDR_LEN + 1 + |RcrdBytes(it.rcrds, it.rcrdSize)|
    ensures |SpecOf(it)| == 1 && Body(it) == RcrdBytes(it.rcrds, it.rcrdSize)
    ensures Valid(it) <==> it.rcrdSize <= 255 && RcrdsOk(it.rcrds, it.rcrdSize)
  {
    SerCompleted(it, prel);
  }

  // `jsitem_prs_file_ef_cyclic`: parsed as a linear-fixed EF, then the type is changed.
  method WriteCyclic(it: Item, prel: nat, buf: array<byte>, base: nat, room: nat) returns (ret: Ret, n: nat)
    requires it.Records? && it.cyclic && DefinedItem(it) && base + room <= buf.Length && room <= UINT32_MAX
    modifies buf
    ensures Written(it, prel, room, ret, n, old(buf[..]), buf[..], base)
  {
    var linear := it.(cyclic := false);
    ghost var was := buf[..];
    SameBody(it, linear, prel);
    ret, n := WriteLinear(linear, prel, buf, base, room);
    if ret.Success? {
      Retype(it, linear, prel, was, base);
      buf[base + 8] := KindByte(Cyclic);
    }
  }

  // `jsitem_prs_demux`.
  method WriteItem(it: Item, prel: nat, buf: array<byte>, base: nat, room: nat) returns (ret: Ret, n: nat)
    requires DefinedItem(it) && base + room <= buf.Length && room <= UINT32_MAX
    modifies buf
    ensures Written(it, prel, room, ret, n, old(buf[..]), buf[..], base)
    decreases it, 1
  {
    match it
    case Folder(kind, _, _, _, _) =>
      if kind.Mf? {
        ret, n := WriteMf(it, prel, buf, base, room);
      } else if kind.Adf? {
        ret, n := WriteNamed(it, 5, prel, buf, base, room);
      } else if kind.Df? {
        ret, n := WriteNamed(it, 0, prel, buf, base, room);
      } else {
        ret, n := Error, 0; // Not the type of a folder.
      }
    case Plain(_, _, _) =>
      ret, n := WriteTransparent(it, prel, buf, base, room);
    case Records(cyclic, _, _, _, _) =>
      if cyclic {
        ret, n := WriteCyclic(it, prel, buf, base, room);
      } else {
        ret, n := WriteLinear(it, prel, buf, base, room);
      }
  }
}
