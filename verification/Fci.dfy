// The file control information SELECT answers with (ISO/IEC 7816-4:2020 clause 7.4.3): the
// template of a file, and the encoder calls that build it.
module Fci {
  import opened Bytes
  import opened Memory
  import opened BerTlv
  import opened BerTlvEncoder
  import Dec = BerTlvDecoder
  import opened FsFormat
  import opened VaSpec
  import opened FileSys

  datatype Request = Fci | Fcp | Fmd | Absent

  // ----- What is told about a file -----

  function Be16(n: nat): bytes { [n / 256 % 256, n % 256] }

  function Be32(n: nat): bytes { Be16(n / 65536) + Be16(n) }

  function KindDescr(k: Kind): byte {
    match k
    case Transparent => 0x09
    case LinearFixed => 0x0A
    case Cyclic => 0x0E
    case _ => 0x38
  }

  const CODING: byte := 0x21

  function Lcs(lcs: byte): byte { if lcs == 0 then 0x05 else if lcs == 1 then 0x04 else 0x0C }

  // The descriptor has one byte for the number of records.
  predicate Describable(f: File) { RcrdCnt(f) <= 255 }

  function Descr(f: File): bytes
    requires HasRecords(f.kind) ==> |f.spec| == 1 && Describable(f)
  {
    [KindDescr(f.kind), CODING] + (if HasRecords(f.kind) then [0, f.spec[0], RcrdCnt(f)] else [])
  }

  // `swicc_fs_file_descr`.
  method FileDescr(f: File) returns (r: Option<bytes>)
    requires HasRecords(f.kind) ==> |f.spec| == 1 && f.spec[0] > 0
    ensures r == if Describable(f) then Some(Descr(f)) else None
  {
    var first: byte := 0x38;
    if !IsFolder(f.kind) {
      first := 8 + (match f.kind case Transparent => 1 case LinearFixed => 2 case _ => 6);
    }
    var buf := [first, CODING];
    if HasRecords(f.kind) {
      var cnt := CountRcrds(f);
      if cnt > 255 {
        return None;
      }
      buf := buf + [f.spec[0] / 256, f.spec[0] % 256, cnt];
    }
    assert buf == Descr(f);
    r := Some(buf);
  }

  function Leaf(num: nat, val: bytes): Tlv { Prim(ContextSpecific, num, val) }

  // The control parameters from the last one on, as they are encoded.
  function SizeOn(f: File): seq<Tlv> { [Leaf(0, Be32(f.DataSize()))] }
  function SidOn(f: File): seq<Tlv> { When(f.sid != 0, Leaf(8, [f.sid])) + SizeOn(f) }
  function LcsOn(f: File): seq<Tlv> { [Leaf(10, [Lcs(f.lcs)])] + SidOn(f) }
  function NameOn(f: File): seq<Tlv> { When(IsFolder(f.kind), Leaf(4, f.spec)) + LcsOn(f) }
  function IdOn(f: File): seq<Tlv> { When(f.id != 0, Leaf(3, Be16(f.id))) + NameOn(f) }
  function Params(f: File, descr: bytes): seq<Tlv> { [Leaf(2, descr)] + IdOn(f) }

  function FcpTlv(f: File, descr: bytes): Tlv { Constr(Application, 2, Params(f, descr)) }
  const FMD_TLV: Tlv := Constr(Application, 4, [])

  function Template(f: File, descr: bytes, req: Request): Tlv
    requires req != Absent
  {
    match req
    case Fci => Constr(Application, 15, [FMD_TLV, FcpTlv(f, descr)])
    case Fcp => FcpTlv(f, descr)
    case Fmd => FMD_TLV
  }

  // What is known of a file that can be selected.
  predicate Selectable(f: File) {
    && (IsFolder(f.kind) ==> |f.spec| == NAME_LEN)
    && (HasRecords(f.kind) ==> |f.spec| == 1 && f.spec[0] > 0)
    && f.lcs <= 2
  }

  // ----- Sizes -----

  lemma ShortSize(t: Tlv)
    requires t.num <= 30 && |Value(t)| <= 127
    ensures |Encode(t)| == 2 + |Value(t)|
  {}

  lemma IfSize(c: bool, t: Tlv, ts: seq<Tlv>)
    requires t.num <= 30 && |Value(t)| <= 127
    ensures EncodeAll(When(c, t) + ts) == (if c then Encode(t) else []) + EncodeAll(ts)
    ensures |EncodeAll(When(c, t) + ts)| == (if c then 2 + |Value(t)| else 0) + |EncodeAll(ts)|
  {
    ShortSize(t);
    if c {
      assert ([t] + ts)[1..] == ts;
    } else {
      assert [] + ts == ts;
    }
  }

  lemma ParamsSize(f: File, descr: bytes)
    requires Selectable(f) && |descr| == (if HasRecords(f.kind) then 5 else 2)
    ensures |EncodeAll(SizeOn(f))| == 6
    ensures |EncodeAll(SidOn(f))| <= 9 && |EncodeAll(LcsOn(f))| <= 12
    ensures |EncodeAll(NameOn(f))| <= (if IsFolder(f.kind) then 30 else 12)
    ensures |EncodeAll(IdOn(f))| <= (if IsFolder(f.kind) then 34 else 16)
    ensures |EncodeAll(Params(f, descr))| <= 38
  {
    IfSize(true, Leaf(0, Be32(f.DataSize())), []);
    assert SizeOn(f) == SizeOn(f) + [];
    IfSize(f.sid != 0, Leaf(8, [f.sid]), SizeOn(f));
    IfSize(true, Leaf(10, [Lcs(f.lcs)]), SidOn(f));
    IfSize(IsFolder(f.kind), if IsFolder(f.kind) then Leaf(4, f.spec) else Leaf(4, []), LcsOn(f));
    IfSize(f.id != 0, Leaf(3, Be16(f.id)), NameOn(f));
    IfSize(true, Leaf(2, descr), IdOn(f));
  }

  lemma PairSize(a: Tlv, b: Tlv)
    requires a.num <= 30 && b.num <= 30 && |Value(a)| + |Value(b)| <= 100
    ensures EncodeAll([a, b]) == Encode(a) + Encode(b) && EncodeAll([b]) == Encode(b)
    ensures |EncodeAll([a, b])| == 4 + |Value(a)| + |Value(b)|
  {
    IfSize(true, b, []);
    IfSize(true, a, [b]);
    assert [b] + [] == [b] && [a] + [b] == [a, b];
  }

  // No template is longer than 44 bytes.
  lemma TemplateSize(f: File, descr: bytes, req: Request)
    requires Selectable(f) && req != Absent && |descr| == (if HasRecords(f.kind) then 5 else 2)
    ensures |Encode(FcpTlv(f, descr))| <= 40 && |Encode(FMD_TLV)| == 2
    ensures |Value(Template(f, descr, req))| <= 42 && |Encode(Template(f, descr, req))| <= 44
  {
    ParamsSize(f, descr);
    ShortSize(FcpTlv(f, descr));
    ShortSize(FMD_TLV);
    PairSize(FMD_TLV, FcpTlv(f, descr));
    ShortSize(Template(f, descr, req));
  }

  // ----- Reading it back -----

  predicate SmallLeaf(t: Tlv) { t.Prim? && t.cla == ContextSpecific && t.num <= 30 && |t.val| <= NAME_LEN }

  lemma ParamsSmall(f: File, descr: bytes)
    requires Selectable(f) && |descr| <= 5
    ensures forall t :: t in Params(f, descr) ==> SmallLeaf(t)
  {}

  lemma LeavesReadable(ts: seq<Tlv>)
    requires forall t :: t in ts ==> SmallLeaf(t)
    ensures FitsAll(ts) && Dec.ReadableAll(ts)
  {
    forall i | 0 <= i < |ts|
      ensures Fits(ts[i]) && Dec.Readable(ts[i])
    {
      assert SmallLeaf(ts[i]);
    }
  }

  // The repository's decoder and a strict one read back exactly the template, with nothing left.
  lemma TemplateReadBack(f: File, descr: bytes, req: Request)
    requires Selectable(f) && req != Absent && |descr| == (if HasRecords(f.kind) then 5 else 2)
    ensures Dec.Walk(Encode(Template(f, descr, req))) == Some([Template(f, descr, req)])
    ensures Decode(Encode(Template(f, descr, req))) == Some((Template(f, descr, req), []))
  {
    var t := Template(f, descr, req);
    TemplateSize(f, descr, req);
    TemplateReadable(f, descr, req);
    assert FitsAll([t]) && Dec.ReadableAll([t]);
    assert EncodeAll([t]) == Encode(t) + EncodeAll([]) == Encode(t);
    Dec.WalkExactly([t]);
    assert Encode(t) + [] == Encode(t);
    DecodeEncode(t, []);
  }

  lemma TemplateReadable(f: File, descr: bytes, req: Request)
    requires Selectable(f) && req != Absent && |descr| == (if HasRecords(f.kind) then 5 else 2)
    ensures Fits(Template(f, descr, req)) && Dec.Readable(Template(f, descr, req))
  {
    TemplateSize(f, descr, req);
    FcpReadable(f, descr);
    assert Fits(FMD_TLV) && Dec.Readable(FMD_TLV);
    if req == Fci {
      PairReadable(FMD_TLV, FcpTlv(f, descr));
    }
  }

  lemma FcpReadable(f: File, descr: bytes)
    requires Selectable(f) && |descr| == (if HasRecords(f.kind) then 5 else 2)
    ensures Fits(FcpTlv(f, descr)) && Dec.Readable(FcpTlv(f, descr))
  {
    ParamsSmall(f, descr);
    LeavesReadable(Params(f, descr));
    ParamsSize(f, descr);
  }

  lemma PairReadable(a: Tlv, b: Tlv)
    requires Fits(a) && Fits(b) && Dec.Readable(a) && Dec.Readable(b)
    ensures FitsAll([a, b]) && Dec.ReadableAll([a, b])
  {}

  // The first parameter with a tag, as a terminal looks it up.
  function Param(ts: seq<Tlv>, num: nat): Option<bytes> {
    if ts == [] then None
    else if ts[0].Prim? && ts[0].cla == ContextSpecific && ts[0].num == num then Some(ts[0].val)
    else Param(ts[1..], num)
  }

  lemma ParamIf(c: bool, t: Tlv, ts: seq<Tlv>, num: nat)
    ensures Param(When(c, t) + ts, num) ==
      if c && t.Prim? && t.cla == ContextSpecific && t.num == num then Some(t.val) else Param(ts, num)
  {
    if c {
      assert ([t] + ts)[1..] == ts;
    } else {
      assert [] + ts == ts;
    }
  }

  // Every parameter is there exactly when the file has it, with the file's own value.
  lemma ParamsTell(f: File, descr: bytes)
    requires Selectable(f)
    ensures var p := Params(f, descr);
      && Param(p, 2) == Some(descr)
      && Param(p, 3) == (if f.id == 0 then None else Some(Be16(f.id)))
      && Param(p, 4) == (if IsFolder(f.kind) then Some(f.spec) else None)
      && Param(p, 10) == Some([Lcs(f.lcs)])
      && Param(p, 8) == (if f.sid == 0 then None else Some([f.sid]))
      && Param(p, 0) == Some(Be32(f.DataSize()))
  {
    forall num | 0 <= num <= 10
      ensures Param(Params(f, descr), num) ==
        if num == 2 then Some(descr)
        else if num == 3 && f.id != 0 then Some(Be16(f.id))
        else if num == 4 && IsFolder(f.kind) then Some(f.spec)
        else if num == 10 then Some([Lcs(f.lcs)])
        else if num == 8 && f.sid != 0 then Some([f.sid])
        else if num == 0 then Some(Be32(f.DataSize()))
        else None
    {
      ParamIf(true, Leaf(2, descr), IdOn(f), num);
      ParamIf(f.id != 0, Leaf(3, Be16(f.id)), NameOn(f), num);
      ParamIf(IsFolder(f.kind), Leaf(4, f.spec), LcsOn(f), num);
      ParamIf(true, Leaf(10, [Lcs(f.lcs)]), SidOn(f), num);
      ParamIf(f.sid != 0, Leaf(8, [f.sid]), SizeOn(f), num);
      ParamIf(true, Leaf(0, Be32(f.DataSize())), [], num);
      assert SizeOn(f) + [] == SizeOn(f);
    }
  }

  lemma Be16Value(n: nat)
    ensures 256 * Be16(n)[0] as int + Be16(n)[1] as int == n % 65536
  {}

  lemma Be16Injective(m: nat, n: nat)
    requires Be16(m) == Be16(n)
    ensures m % 65536 == n % 65536
  {
    Be16Value(m);
    Be16Value(n);
  }

  lemma Be32Value(n: nat)
    requires n <= UINT32_MAX
    ensures var b := Be32(n);
      |b| == 4 && 65536 * (256 * b[0] as int + b[1] as int) + 256 * b[2] as int + b[3] as int == n
  {
    Be16Value(n / 65536);
    Be16Value(n);
  }

  lemma Be32Injective(m: nat, n: nat)
    requires m <= UINT32_MAX && n <= UINT32_MAX && Be32(m) == Be32(n)
    ensures m == n
  {
    Be32Value(m);
    Be32Value(n);
  }

  lemma SameParams(f: File, g: File, a: bytes, b: bytes)
    requires Selectable(f) && Selectable(g) && Params(f, a) == Params(g, b)
    ensures a == b && (f.id != 0 <==> g.id != 0) && (f.id != 0 ==> Be16(f.id) == Be16(g.id))
    ensures f.sid == g.sid && Lcs(f.lcs) == Lcs(g.lcs) && Be32(f.DataSize()) == Be32(g.DataSize())
    ensures (IsFolder(f.kind) <==> IsFolder(g.kind)) && (IsFolder(f.kind) ==> f.spec == g.spec)
  {
    ParamsTell(f, a);
    ParamsTell(g, b);
    assert [Lcs(f.lcs)][0] == [Lcs(g.lcs)][0];
    if f.sid != 0 {
      assert [f.sid][0] == [g.sid][0];
    }
  }

  // Two files with the same control parameters have the same attributes: all that can be told
  // of a file is in its template.
  lemma TemplateDetermines(f: File, g: File, req: Request)
    requires Selectable(f) && Selectable(g) && Describable(f) && Describable(g) && (req == Fci || req == Fcp)
    requires Encode(Template(f, Descr(f), req)) == Encode(Template(g, Descr(g), req))
    ensures f.id == g.id && f.sid == g.sid && f.lcs == g.lcs && f.DataSize() == g.DataSize()
    ensures (IsFolder(f.kind) <==> IsFolder(g.kind)) && (IsFolder(f.kind) ==> f.spec == g.spec)
    ensures !IsFolder(f.kind) ==> f.kind == g.kind
    ensures HasRecords(f.kind) ==> f.spec == g.spec && RcrdCnt(f) == RcrdCnt(g)
  {
    SameTemplate(f, g, Descr(f), Descr(g), req);
    SameParams(f, g, Descr(f), Descr(g));
    Be16Injective(f.id, g.id);
    Be32Injective(f.DataSize(), g.DataSize());
    SameDescr(f, g);
  }

  lemma SameTemplate(f: File, g: File, a: bytes, b: bytes, req: Request)
    requires Selectable(f) && Selectable(g) && (req == Fci || req == Fcp)
    requires |a| == (if HasRecords(f.kind) then 5 else 2) && |b| == (if HasRecords(g.kind) then 5 else 2)
    requires Encode(Template(f, a, req)) == Encode(Template(g, b, req))
    ensures Params(f, a) == Params(g, b)
  {
    TemplateReadBack(f, a, req);
    TemplateReadBack(g, b, req);
    assert Template(f, a, req) == Template(g, b, req);
    if req == Fci {
      assert Template(f, a, req).kids[1] == Template(g, b, req).kids[1];
    }
  }

  lemma SameDescr(f: File, g: File)
    requires Selectable(f) && Selectable(g) && Describable(f) && Describable(g) && Descr(f) == Descr(g)
    ensures !IsFolder(f.kind) ==> f.kind == g.kind
    ensures HasRecords(f.kind) ==> f.spec == g.spec && RcrdCnt(f) == RcrdCnt(g)
  {
    assert Descr(f)[0] == Descr(g)[0];
    if HasRecords(f.kind) {
      assert Descr(f)[3] == Descr(g)[3] && Descr(f)[4] == Descr(g)[4];
    }
  }
}
