// Building a template with the in-place encoder: a dry run for the size, then the real run.
module FciBuild {
  import opened Bytes
  import opened Memory
  import opened BerTlv
  import opened BerTlvEncoder
  import opened FsFormat
  import opened Fci

  // The encoder holds exactly `ts`, put into a buffer that held `before`.
  ghost predicate Holds(enc: Encoder, before: bytes, ts: seq<Tlv>)
    reads enc, enc.buf
  {
    && enc.Valid() && enc.lenVal == 0 && enc.len == |EncodeAll(ts)|
    && (enc.buf != null ==>
          && enc.base + enc.offset + |EncodeAll(ts)| <= |before|
          && enc.Mem() == Splice(before, enc.base + enc.offset, EncodeAll(ts)))
  }

  lemma {:induction false} AllFront(t: Tlv, ts: seq<Tlv>)
    ensures EncodeAll([t] + ts) == Encode(t) + EncodeAll(ts)
  {
    assert ([t] + ts)[1..] == ts;
  }

  // Data and header of one primitive object, where there is one.
  method PutIf(c: bool, t: Tlv, enc: Encoder, ghost before: bytes, ghost ts: seq<Tlv>) returns (ok: bool)
    requires Holds(enc, before, ts) && t.Prim? && t.cla != Invalid && t.num <= 30
    requires |EncodeAll(When(c, t) + ts)| <= UINT32_MAX
    modifies enc, enc.buf
    ensures enc.buf == old(enc.buf) && enc.base == old(enc.base) && enc.size == old(enc.size)
    ensures ok <==> |EncodeAll(When(c, t) + ts)| <= enc.size
    ensures ok ==> Holds(enc, before, When(c, t) + ts)
  {
    AllFront(t, ts);
    assert [] + ts == ts;
    ok := true;
    if c {
      ok := EncodeInFront(t, enc, before, EncodeAll(ts));
    }
  }

  // The name of an ADF is put there in two parts, its extension first.
  method PutName(f: File, enc: Encoder, ghost before: bytes, ghost ts: seq<Tlv>) returns (ok: bool)
    requires Holds(enc, before, ts) && Selectable(f)
    requires |EncodeAll(When(IsFolder(f.kind), Leaf(4, f.spec)) + ts)| <= UINT32_MAX
    modifies enc, enc.buf
    ensures enc.buf == old(enc.buf) && enc.base == old(enc.base) && enc.size == old(enc.size)
    ensures ok <==> |EncodeAll(When(IsFolder(f.kind), Leaf(4, f.spec)) + ts)| <= enc.size
    ensures ok ==> Holds(enc, before, When(IsFolder(f.kind), Leaf(4, f.spec)) + ts)
  {
    if !f.kind.Adf? {
      ok := PutIf(IsFolder(f.kind), Leaf(4, f.spec), enc, before, ts);
      return;
    }
    var t := Leaf(4, f.spec);
    AllFront(t, ts);
    ok := PutParts(t, f.spec[5..], f.spec[..5], enc, before, EncodeAll(ts));
  }

  // An object whose value is put there in two parts.
  method PutParts(t: Tlv, back: bytes, front: bytes, enc: Encoder, ghost before: bytes, ghost tail: bytes)
    returns (ok: bool)
    requires enc.Valid() && enc.lenVal == 0 && t.Prim? && t.cla != Invalid && t.num <= 30 && t.val == front + back
    requires enc.len == |tail| && |Encode(t) + tail| <= UINT32_MAX
    requires enc.buf != null ==> enc.base + enc.offset + |tail| <= |before|
    requires enc.buf != null ==> enc.Mem() == Splice(before, enc.base + enc.offset, tail)
    modifies enc, enc.buf
    ensures enc.Valid() && enc.buf == old(enc.buf) && enc.base == old(enc.base) && enc.size == old(enc.size)
    ensures ok <==> |Encode(t) + tail| <= enc.size
    ensures ok ==> enc.len == |Encode(t) + tail| && enc.lenVal == 0
    ensures ok && enc.buf != null ==>
      && enc.base + enc.offset + |Encode(t) + tail| <= |before|
      && enc.Mem() == Splice(before, enc.base + enc.offset, Encode(t) + tail)
  {
    ghost var h := HdrOctets(t.GetTag(), |t.val|);
    assert Encode(t) + tail == h + (front + (back + tail)) by {
      Assoc(h, t.val, tail);
      Assoc(front, back, tail);
    }
    ok := PutData(enc, back, before, tail);
    if ok {
      ok := PutData(enc, front, before, back + tail);
    }
    if ok {
      ok := PutHeader(enc, t.GetTag(), before, h, front + (back + tail));
    }
  }

  method PutData(enc: Encoder, data: bytes, ghost before: bytes, ghost tail: bytes) returns (ok: bool)
    requires enc.Valid() && enc.len == |tail| && |data| + |tail| <= UINT32_MAX
    requires enc.buf != null ==>
      enc.base + enc.offset + |tail| <= |before| && enc.Mem() == Splice(before, enc.base + enc.offset, tail)
    modifies enc, enc.buf
    ensures enc.Valid() && enc.buf == old(enc.buf) && enc.base == old(enc.base) && enc.size == old(enc.size)
    ensures ok <==> |data + tail| <= enc.size
    ensures ok ==> enc.lenVal == old(enc.lenVal) + |data| && enc.len == |data + tail|
    ensures ok && enc.buf != null ==>
      enc.base + enc.offset + |data + tail| <= |before|
          && enc.Mem() == Splice(before, enc.base + enc.offset, data + tail)
  {
    var ret := enc.Data(data);
    ok := ret == Success;
    if ok && enc.buf != null {
      SpliceTwice(before, enc.base + enc.offset, data, tail);
    }
  }

  // What does not fit stays too long with more in front of it.
  lemma Grows(c: bool, t: Tlv, ts: seq<Tlv>)
    ensures |EncodeAll(ts)| <= |EncodeAll(When(c, t) + ts)|
  {
    AllFront(t, ts);
    assert [] + ts == ts;
  }

  // All control parameters, from the last to the first.
  method PutParams(f: File, descr: bytes, enc: Encoder, ghost before: bytes) returns (ok: bool)
    requires Holds(enc, before, []) && Selectable(f) && |descr| == (if HasRecords(f.kind) then 5 else 2)
    modifies enc, enc.buf
    ensures enc.buf == old(enc.buf) && enc.base == old(enc.base) && enc.size == old(enc.size)
    ensures ok <==> |EncodeAll(Params(f, descr))| <= enc.size
    ensures ok ==> Holds(enc, before, Params(f, descr))
  {
    ParamsGrow(f, descr);
    ok := PutTail(f, enc, before);
    if ok {
      ok := PutName(f, enc, before, LcsOn(f));
    }
    if ok {
      ok := PutIf(f.id != 0, Leaf(3, Be16(f.id)), enc, before, NameOn(f));
    }
    if ok {
      ok := PutIf(true, Leaf(2, descr), enc, before, IdOn(f));
    }
  }

  // The last three of them.
  method PutTail(f: File, enc: Encoder, ghost before: bytes) returns (ok: bool)
    requires Holds(enc, before, []) && |EncodeAll(LcsOn(f))| <= UINT32_MAX
    modifies enc, enc.buf
    ensures enc.buf == old(enc.buf) && enc.base == old(enc.base) && enc.size == old(enc.size)
    ensures ok <==> |EncodeAll(LcsOn(f))| <= enc.size
    ensures ok ==> Holds(enc, before, LcsOn(f))
  {
    Grows(f.sid != 0, Leaf(8, [f.sid]), SizeOn(f));
    Grows(true, Leaf(10, [Lcs(f.lcs)]), SidOn(f));
    assert [Leaf(0, Be32(f.DataSize()))] + [] == SizeOn(f);
    ok := PutIf(true, Leaf(0, Be32(f.DataSize())), enc, before, []);
    if ok {
      ok := PutIf(f.sid != 0, Leaf(8, [f.sid]), enc, before, SizeOn(f));
    }
    if ok {
      ok := PutIf(true, Leaf(10, [Lcs(f.lcs)]), enc, before, SidOn(f));
    }
  }

  lemma ParamsGrow(f: File, descr: bytes)
    requires Selectable(f) && |descr| == (if HasRecords(f.kind) then 5 else 2)
    ensures |EncodeAll(LcsOn(f))| <= |EncodeAll(NameOn(f))| <= |EncodeAll(IdOn(f))|
    ensures |EncodeAll(IdOn(f))| <= |EncodeAll(Params(f, descr))| <= 38
  {
    ParamsSize(f, descr);
    Grows(IsFolder(f.kind), Leaf(4, f.spec), LcsOn(f));
    Grows(f.id != 0, Leaf(3, Be16(f.id)), NameOn(f));
    Grows(true, Leaf(2, descr), IdOn(f));
  }

  // Ends a nested encoder and puts the header in front of what it holds.
  method Wrap(enc: Encoder, nested: Encoder, t: Tlv, ghost before: bytes, ghost ts: seq<Tlv>, ghost mid: bytes)
    returns (ok: bool)
    requires enc != nested && t.Constr? && t.cla != Invalid && t.num <= 30 && |EncodeAll([t] + ts)| <= UINT32_MAX
    requires enc.Valid() && enc.lenVal == 0 && enc.len == |EncodeAll(ts)|
    requires enc.buf != null ==>
      enc.base + enc.offset + |EncodeAll(ts)| <= |before| && mid == Splice(before, enc.base + enc.offset, EncodeAll(ts))
    requires nested.buf == enc.buf && nested.base == enc.base
    requires nested.size == if enc.buf == null then UINT32_MAX else enc.offset
    requires Holds(nested, mid, t.kids)
    modifies enc, enc.buf
    ensures enc.buf == old(enc.buf) && enc.base == old(enc.base) && enc.size == old(enc.size)
    ensures ok <==> |EncodeAll([t] + ts)| <= enc.size
    ensures ok ==> Holds(enc, before, [t] + ts)
  {
    ghost var h, v, tail := HdrOctets(t.GetTag(), |Value(t)|), Value(t), EncodeAll(ts);
    AllFront(t, ts);
    Assoc(h, v, tail);
    ok := EndNested(enc, nested, before, v, tail, mid);
    if ok {
      ok := PutHeader(enc, t.GetTag(), before, h, v + tail);
    }
  }

  // What the nested encoder holds becomes the value that has no header yet.
  method EndNested(enc: Encoder, nested: Encoder, ghost before: bytes, ghost v: bytes, ghost tail: bytes,
      ghost mid: bytes)
    returns (ok: bool)
    requires enc != nested && enc.Valid() && enc.lenVal == 0 && enc.len == |tail|
    requires nested.buf == enc.buf && nested.base == enc.base && nested.Valid() && nested.len == |v|
    requires nested.size == if enc.buf == null then UINT32_MAX else enc.offset
    requires enc.buf == null ==> |v| + |tail| <= UINT32_MAX
    requires enc.buf != null ==>
      enc.base + enc.offset + |tail| <= |before| && mid == Splice(before, enc.base + enc.offset, tail)
    requires enc.buf != null ==>
      enc.base + nested.offset + |v| <= |mid| && enc.Mem() == Splice(mid, enc.base + nested.offset, v)
    modifies enc
    ensures ok && enc.Valid() && enc.buf == old(enc.buf) && enc.base == old(enc.base) && enc.size == old(enc.size)
    ensures enc.lenVal == |v| && enc.len == |v + tail|
    ensures enc.buf != null ==>
      enc.base + enc.offset + |v + tail| <= |before| && enc.Mem() == Splice(before, enc.base + enc.offset, v + tail)
  {
    if enc.buf != null {
      SpliceTwice(before, enc.base + nested.offset, v, tail);
    }
    var ret := enc.NestedEnd(nested);
    ok := ret == Success;
  }

  method PutHeader(enc: Encoder, tag: Tag, ghost before: bytes, ghost h: bytes, ghost tail: bytes) returns (ok: bool)
    requires enc.Valid() && h == HdrOctets(tag, enc.lenVal) && enc.len == |tail| && |h| + |tail| <= UINT32_MAX
    requires tag.cla != Invalid && tag.num <= 30
    requires enc.buf != null ==>
      enc.base + enc.offset + |tail| <= |before| && enc.Mem() == Splice(before, enc.base + enc.offset, tail)
    modifies enc, enc.buf
    ensures enc.Valid() && enc.buf == old(enc.buf) && enc.base == old(enc.base) && enc.size == old(enc.size)
    ensures ok <==> |h + tail| <= enc.size
    ensures ok ==> enc.lenVal == 0 && enc.len == |h + tail|
    ensures ok && enc.buf != null ==>
      enc.base + enc.offset + |h + tail| <= |before| && enc.Mem() == Splice(before, enc.base + enc.offset, h + tail)
  {
    var ret := enc.Header(tag);
    ok := ret == Success;
    if ok && enc.buf != null {
      SpliceTwice(before, enc.base + enc.offset, h, tail);
    }
  }

  lemma One(f: File, descr: bytes, req: Request)
    requires Selectable(f) && req != Absent && |descr| == (if HasRecords(f.kind) then 5 else 2)
    ensures EncodeAll([Template(f, descr, req)]) == Encode(Template(f, descr, req))
    ensures |Encode(Template(f, descr, req))| <= 44
  {
    TemplateSize(f, descr, req);
    AllFront(Template(f, descr, req), []);
    assert [Template(f, descr, req)] + [] == [Template(f, descr, req)];
  }

  // The template once around.
  method BuildOnce(f: File, descr: bytes, req: Request, buf: array?<byte>, room: nat) returns (ok: bool, n: nat)
    requires Selectable(f) && req != Absent && |descr| == (if HasRecords(f.kind) then 5 else 2)
    requires room <= UINT32_MAX && (buf != null ==> room <= buf.Length)
    modifies buf
    ensures buf == null ==> ok
    ensures ok ==> n == |Encode(Template(f, descr, req))|
    ensures buf != null ==> (ok <==> |Encode(Template(f, descr, req))| <= room)
    ensures ok && buf != null ==>
      n <= room && buf[..] == Splice(old(buf[..]), room - n, Encode(Template(f, descr, req)))
  {
    n := 0;
    ghost var before := if buf == null then [] else buf[..];
    var enc := new Encoder(buf, 0, room);
    One(f, descr, req);
    if req == Fci {
      ok := PutFci(f, descr, enc, before);
    } else if req == Fcp {
      ok := PutFcp(f, descr, enc, before);
    } else {
      ok := PutFmd(enc, before, []);
    }
    if ok {
      n := enc.len;
      if buf != null {
        assert enc.base + enc.offset == room - n && enc.Mem() == buf[..];
      }
    }
  }

  method PutFci(f: File, descr: bytes, enc: Encoder, ghost before: bytes) returns (ok: bool)
    requires Holds(enc, before, []) && Selectable(f) && |descr| == (if HasRecords(f.kind) then 5 else 2)
    modifies enc, enc.buf
    ensures enc.buf == old(enc.buf) && enc.base == old(enc.base) && enc.size == old(enc.size)
    ensures ok <==> |EncodeAll([Template(f, descr, Fci)])| <= enc.size
    ensures ok ==> Holds(enc, before, [Template(f, descr, Fci)])
  {
    ghost var t := Template(f, descr, Fci);
    TemplateSize(f, descr, Fci);
    PairSize(FMD_TLV, FcpTlv(f, descr));
    AllFront(t, []);
    assert [FMD_TLV] + [FcpTlv(f, descr)] == [FMD_TLV, FcpTlv(f, descr)] && [t] + [] == [t];
    var ret, nested := enc.NestedStart();
    if ret != Success {
      return false;
    }
    ghost var mid := nested.Mem();
    ok := PutFcp(f, descr, nested, mid);
    if ok {
      ok := PutFmd(nested, mid, [FcpTlv(f, descr)]);
    }
    if ok {
      ok := Wrap(enc, nested, Template(f, descr, Fci), before, [], mid);
    }
  }

  method PutFcp(f: File, descr: bytes, enc: Encoder, ghost before: bytes) returns (ok: bool)
    requires Holds(enc, before, []) && Selectable(f) && |descr| == (if HasRecords(f.kind) then 5 else 2)
    modifies enc, enc.buf
    ensures enc.buf == old(enc.buf) && enc.base == old(enc.base) && enc.size == old(enc.size)
    ensures ok <==> |EncodeAll([FcpTlv(f, descr)])| <= enc.size
    ensures ok ==> Holds(enc, before, [FcpTlv(f, descr)])
  {
    TemplateSize(f, descr, Fcp);
    AllFront(FcpTlv(f, descr), []);
    assert [FcpTlv(f, descr)] + [] == [FcpTlv(f, descr)];
    var ret, nested := enc.NestedStart();
    if ret != Success {
      return false;
    }
    ghost var mid := nested.Mem();
    ok := PutParams(f, descr, nested, mid);
    if ok {
      ok := Wrap(enc, nested, FcpTlv(f, descr), before, [], mid);
    }
  }

  // The management data is empty.
  method PutFmd(enc: Encoder, ghost before: bytes, ghost ts: seq<Tlv>) returns (ok: bool)
    requires Holds(enc, before, ts) && |EncodeAll([FMD_TLV] + ts)| <= UINT32_MAX
    modifies enc, enc.buf
    ensures enc.buf == old(enc.buf) && enc.base == old(enc.base) && enc.size == old(enc.size)
    ensures ok <==> |EncodeAll([FMD_TLV] + ts)| <= enc.size
    ensures ok ==> Holds(enc, before, [FMD_TLV] + ts)
  {
    var ret, nested := enc.NestedStart();
    if ret != Success {
      return false;
    }
    ok := Wrap(enc, nested, FMD_TLV, before, ts, nested.Mem());
  }

  // The dry run and the real run agree: a template that fits the buffer is built, at its start.
  method Build(f: File, descr: bytes, req: Request, buf: array<byte>) returns (ok: bool, n: nat)
    requires Selectable(f) && req != Absent && |descr| == (if HasRecords(f.kind) then 5 else 2)
    requires 44 <= buf.Length
    modifies buf
    ensures ok && n == |Encode(Template(f, descr, req))| <= 44
    ensures buf[..] == Splice(old(buf[..]), 0, Encode(Template(f, descr, req)))
  {
    TemplateSize(f, descr, req);
    ok, n := BuildOnce(f, descr, req, null, 0);
    if n > buf.Length {
      return false, n;
    }
    ok, n := BuildOnce(f, descr, req, buf, n);
  }
}
