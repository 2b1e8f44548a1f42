// The octets of BER-TLV objects written out: what X.690 section 8.1.2.2 says about the first
// octet, how numbers and lengths follow it, and the templates SELECT answers with as bytes.
module TlvBytes {
  import opened Bytes
  import opened BerTlv
  import Dec = BerTlvDecoder
  import opened FsFormat
  import opened VaSpec
  import opened Fci

  // ----- Writing -----

  // The class is in the two high bits of the first octet, and no two classes share an octet;
  // then whether the object is constructed, and a number below 31 or the mark of a longer one.
  lemma LeadingOctet(t: Tlv)
    requires t.cla != Invalid
    ensures var o := Encode(t)[0];
      && (t.cla == Universal <==> 0x00 <= o <= 0x3F)
      && (t.cla == Application <==> 0x40 <= o <= 0x7F)
      && (t.cla == ContextSpecific <==> 0x80 <= o <= 0xBF)
      && (t.cla == Private <==> 0xC0 <= o <= 0xFF)
      && (t.Constr? <==> o % 0x40 >= 0x20)
      && o % 0x20 == (if t.num <= 30 then t.num else 0x1F)
  {}

  // What comes between the first octet and the value: the number if it is longer, then the length.
  lemma HeaderOctets(t: Tlv)
    requires Fits(t)
    ensures var n, v := t.num, |Value(t)|;
      Encode(t) == [Encode(t)[0]]
        + (if n <= 30 then [] else if n < 0x80 then [n] else [0x80 + n / 0x80, n % 0x80])
        + (if v < 0x80 then [v]
           else if v < 0x100 then [0x81, v]
           else if v < 0x1_0000 then [0x82, v / 0x100, v % 0x100]
           else if v < 0x100_0000 then [0x83, v / 0x1_0000, v / 0x100 % 0x100, v % 0x100]
           else [0x84, v / 0x100_0000, v / 0x1_0000 % 0x100, v / 0x100 % 0x100, v % 0x100])
        + Value(t)
  {
    LengthOctets(|Value(t)|);
  }

  lemma LengthOctets(v: nat)
    requires v <= UINT32_MAX
    ensures LenOctets(v) ==
      if v < 0x80 then [v]
      else if v < 0x100 then [0x81, v]
      else if v < 0x1_0000 then [0x82, v / 0x100, v % 0x100]
      else if v < 0x100_0000 then [0x83, v / 0x1_0000, v / 0x100 % 0x100, v % 0x100]
      else [0x84, v / 0x100_0000, v / 0x1_0000 % 0x100, v / 0x100 % 0x100, v % 0x100]
  {
    ToBeLength(v);
    var a, b, c := v / 0x100, v / 0x1_0000, v / 0x100_0000;
    assert a / 0x100 == b && b / 0x100 == c && c < 0x100;
    assert ToBe(0) == [] && ToBe(c) == if c == 0 then [] else ToBe(c / 0x100) + [c];
    assert v > 0 ==> ToBe(v) == ToBe(a) + [v % 0x100];
    assert a > 0 ==> ToBe(a) == ToBe(b) + [a % 0x100];
    assert b > 0 ==> ToBe(b) == ToBe(c) + [b % 0x100];
  }

  // ----- Reading -----

  // What either decoder takes from a first octet.
  ghost predicate Takes(o: byte, tag: Tag) {
    && (tag.cla == Universal <==> 0x00 <= o <= 0x3F)
    && (tag.cla == Application <==> 0x40 <= o <= 0x7F)
    && (tag.cla == ContextSpecific <==> 0x80 <= o <= 0xBF)
    && (tag.cla == Private <==> 0xC0 <= o <= 0xFF)
    && (tag.pc <==> o % 0x40 >= 0x20)
    && (o % 0x20 < 0x1F ==> tag.num == o % 0x20)
  }

  // The strict decoder, and which octets of a longer number it accepts.
  lemma StrictTag(b: bytes)
    requires b != []
    ensures DecodeTag(b).Some? <==>
      b[0] % 0x20 < 0x1F || (|b| >= 2 && 0x1F <= b[1] < 0x80) || (|b| >= 3 && b[1] > 0x80 && b[2] < 0x80)
    ensures DecodeTag(b).Some? ==>
      var (tag, size) := DecodeTag(b).value;
      && Takes(b[0], tag)
      && size == (if b[0] % 0x20 < 0x1F then 1 else if b[1] < 0x80 then 2 else 3)
      && (size == 2 ==> tag.num == b[1]) && (size == 3 ==> tag.num == 0x80 * (b[1] as int - 0x80) + b[2])
  {}

  // The repository's decoder, which takes the groups of a longer number the other way round.
  lemma RepositoryTag(b: bytes)
    requires b != []
    ensures var r := Dec.TagRead(b);
      && (r.Read? <==> b[0] % 0x20 < 0x1F || (|b| >= 2 && b[1] < 0x80) || (|b| >= 3 && b[2] < 0x80))
      && (r.Read? ==>
            && Takes(b[0], r.hdr.tag)
            && r.hdr.size == (if b[0] % 0x20 < 0x1F then 1 else if b[1] < 0x80 then 2 else 3)
            && (r.hdr.size == 2 ==> r.hdr.tag.num == b[1])
            && (r.hdr.size == 3 ==> r.hdr.tag.num == (b[1] as int - 0x80) + 0x80 * b[2] as int))
      && (!r.Read? ==> r == Dec.Failed(if |b| >= 3 then Error else DatoEnd))
  {}

  // The lengths it takes from a header with a tag of one octet: a single octet after 81 is not
  // read at all, the first of two after 82 is or'ed with 2, and 7 bits are shifted for an octet.
  lemma RepositoryLength(b: bytes)
    requires |b| >= 3 && b[0] % 0x20 < 0x1F
    ensures var r := Dec.HdrRead(b);
      && (b[1] < 0x80 ==> r.Read? && r.hdr.len == b[1] && r.hdr.size == 2)
      && (b[1] == 0x81 ==> r.Read? && r.hdr.len == 1 && r.hdr.size == 2)
      && (b[1] == 0x82 ==> r.Read? && r.hdr.size == 3 && r.hdr.len == b[2] + (if b[2] / 2 % 2 == 0 then 2 else 0))
      && (b[1] == 0x83 && |b| >= 4 ==>
            r.Read? && r.hdr.size == 4 && r.hdr.len == Dec.Or(Dec.Or(3, b[2]), 0x80 * b[3] as int))
      && (b[1] == 0x80 || b[1] > 0x85 ==> r == Dec.Failed(Error))
  {
    if b[1] == 0x82 {
      var v := b[2..];
      assert Pow2(0) == 1;
      assert Dec.LenBits(v, 2, 1) == Dec.Or(Dec.LenBits(v, 2, 0), v[0] as int * Pow2(7 * 0)) == Dec.Or(2, b[2]);
      OrTwo(b[2]);
    }
    if b[1] == 0x83 && |b| >= 4 {
      var v := b[2..];
      assert Pow2(0) == 1 && Pow2(7) == 0x80;
      assert Dec.LenBits(v, 3, 1) == Dec.Or(Dec.LenBits(v, 3, 0), v[0] as int * Pow2(7 * 0)) == Dec.Or(3, b[2]);
      assert Dec.LenBits(v, 3, 2) == Dec.Or(Dec.LenBits(v, 3, 1), v[1] as int * Pow2(7 * 1));
    }
  }

  lemma OrTwo(x: byte)
    ensures Dec.Or(2, x) == x + (if x / 2 % 2 == 0 then 2 else 0)
  {
    var h := x / 2;
    assert Dec.Or(0, h / 2) == h / 2;
    assert Dec.Or(1, h) == if h == 0 then 1 else 2 * (h / 2) + 1;
  }

  // ----- Templates -----

  // Type of the file, data coding, and for records their size and number.
  function DescrOctets(f: File): bytes
    requires Selectable(f) && Describable(f)
  {
    match f.kind
    case Transparent => [0x82, 0x02, 0x09, 0x21]
    case LinearFixed => [0x82, 0x05, 0x0A, 0x21, 0x00, f.spec[0], f.DataSize() / f.spec[0] as nat % 0x100]
    case Cyclic => [0x82, 0x05, 0x0E, 0x21, 0x00, f.spec[0], f.DataSize() / f.spec[0] as nat % 0x100]
    case _ => [0x82, 0x02, 0x38, 0x21]
  }

  function IdOctets(id: u16): bytes { if id == 0 then [] else [0x83, 0x02, id / 0x100, id % 0x100] }

  function NameOctets(f: File): bytes { if IsFolder(f.kind) then [0x84, 0x10] + f.spec else [] }

  // Operational and activated, operational and deactivated, terminated.
  function LcsOctets(lcs: byte): bytes {
    [0x8A, 0x01, if lcs == 0 then 0x05 else if lcs == 1 then 0x04 else 0x0C]
  }

  function SidOctets(sid: byte): bytes { if sid == 0 then [] else [0x88, 0x01, sid] }

  function SizeOctets(n: nat): bytes
    requires n <= UINT32_MAX
  {
    [0x80, 0x04, n / 0x100_0000, n / 0x1_0000 % 0x100, n / 0x100 % 0x100, n % 0x100]
  }

  // The control parameters of a file, each of which says how long it is.
  function ParamOctets(f: File): bytes
    requires Selectable(f) && Describable(f)
  {
    DescrOctets(f)
    + (IdOctets(f.id) + (NameOctets(f) + (LcsOctets(f.lcs) + (SidOctets(f.sid) + SizeOctets(f.DataSize())))))
  }

  lemma LeafOctets(num: nat, val: bytes)
    requires num <= 30 && |val| <= 0x7F
    ensures Encode(Leaf(num, val)) == [0x80 + num, |val|] + val
  {}

  lemma LeafIf(c: bool, num: nat, val: bytes, ts: seq<Tlv>)
    requires num <= 30 && |val| <= 0x7F
    ensures EncodeAll(When(c, Leaf(num, val)) + ts) == (if c then [0x80 + num, |val|] + val else []) + EncodeAll(ts)
  {
    IfSize(c, Leaf(num, val), ts);
    LeafOctets(num, val);
  }

  lemma DescrIs(f: File)
    requires Selectable(f) && Describable(f)
    ensures [0x82, |Descr(f)|] + Descr(f) == DescrOctets(f)
  {
    if HasRecords(f.kind) {
      QuotIs(f.DataSize(), f.spec[0]);
    }
  }

  lemma SizeIs(n: nat)
    requires n <= UINT32_MAX
    ensures [0x80, 0x04] + Be32(n) == SizeOctets(n) && |Be32(n)| == 4
  {
    assert n / 0x1_0000 / 0x100 == n / 0x100_0000;
  }

  lemma OneMore(c: bool, num: nat, val: bytes, ts: seq<Tlv>, octets: bytes)
    requires num <= 30 && |val| <= 0x7F && octets == (if c then [0x80 + num, |val|] + val else [])
    ensures EncodeAll(When(c, Leaf(num, val)) + ts) == octets + EncodeAll(ts)
  {
    LeafIf(c, num, val, ts);
  }

  lemma SizeParam(f: File)
    ensures EncodeAll(SizeOn(f)) == SizeOctets(f.DataSize())
  {
    var n := f.DataSize();
    SizeIs(n);
    OneMore(true, 0, Be32(n), [], SizeOctets(n));
    assert When(true, Leaf(0, Be32(n))) + [] == SizeOn(f);
    assert SizeOctets(n) + EncodeAll([]) == SizeOctets(n);
  }

  lemma SidParam(f: File)
    ensures EncodeAll(SidOn(f)) == SidOctets(f.sid) + EncodeAll(SizeOn(f))
  {
    assert [0x88, 0x01] + [f.sid] == [0x88, 0x01, f.sid];
    OneMore(f.sid != 0, 8, [f.sid], SizeOn(f), SidOctets(f.sid));
  }

  lemma LcsParam(f: File)
    ensures EncodeAll(LcsOn(f)) == LcsOctets(f.lcs) + EncodeAll(SidOn(f))
  {
    assert [0x8A, 0x01] + [Lcs(f.lcs)] == LcsOctets(f.lcs);
    OneMore(true, 10, [Lcs(f.lcs)], SidOn(f), LcsOctets(f.lcs));
    assert When(true, Leaf(10, [Lcs(f.lcs)])) + SidOn(f) == LcsOn(f);
  }

  lemma NameParam(f: File)
    requires Selectable(f)
    ensures EncodeAll(NameOn(f)) == NameOctets(f) + EncodeAll(LcsOn(f))
  {
    var name := if IsFolder(f.kind) then f.spec else [];
    OneMore(IsFolder(f.kind), 4, name, LcsOn(f), NameOctets(f));
    assert When(IsFolder(f.kind), Leaf(4, name)) + LcsOn(f) == NameOn(f);
  }

  lemma IdParam(f: File)
    ensures EncodeAll(IdOn(f)) == IdOctets(f.id) + EncodeAll(NameOn(f))
  {
    assert [0x83, 0x02] + Be16(f.id) == [0x83, 0x02, f.id / 0x100, f.id % 0x100];
    OneMore(f.id != 0, 3, Be16(f.id), NameOn(f), IdOctets(f.id));
  }

  lemma ParamsAre(f: File)
    requires Selectable(f) && Describable(f)
    ensures EncodeAll(Params(f, Descr(f))) == ParamOctets(f)
  {
    DescrIs(f);
    OneMore(true, 2, Descr(f), IdOn(f), DescrOctets(f));
    assert When(true, Leaf(2, Descr(f))) + IdOn(f) == Params(f, Descr(f));
    IdParam(f);
    NameParam(f);
    LcsParam(f);
    SidParam(f);
    SizeParam(f);
  }

  // The three templates: an FCP template with the control parameters, an FMD template with
  // nothing in it, and an FCI template with both.
  lemma TemplateOctets(f: File)
    requires Selectable(f) && Describable(f)
    ensures var p := ParamOctets(f);
      && |p| <= 38
      && Encode(Template(f, Descr(f), Fcp)) == [0x62, |p|] + p
      && Encode(Template(f, Descr(f), Fmd)) == [0x64, 0x00]
      && Encode(Template(f, Descr(f), Request.Fci)) == [0x6F, |p| + 4, 0x64, 0x00, 0x62, |p|] + p
  {
    ParamsAre(f);
    ParamsSize(f, Descr(f));
    FcpOctets(FcpTlv(f, Descr(f)), ParamOctets(f));
  }

  lemma FcpOctets(t: Tlv, p: bytes)
    requires t.Constr? && t.cla == Application && t.num == 2 && Value(t) == p && |p| <= 38
    ensures Encode(FMD_TLV) == [0x64, 0x00] && Encode(t) == [0x62, |p|] + p
    ensures Encode(Constr(Application, 15, [FMD_TLV, t])) == [0x6F, |p| + 4, 0x64, 0x00, 0x62, |p|] + p
  {
    ShortOctets(t);
    ShortOctets(FMD_TLV);
    PairSize(FMD_TLV, t);
    ShortOctets(Constr(Application, 15, [FMD_TLV, t]));
  }

  lemma ShortOctets(t: Tlv)
    requires t.Constr? && t.cla == Application && t.num <= 30 && |Value(t)| <= 0x7F
    ensures Encode(t) == [0x60 + t.num, |Value(t)|] + Value(t)
  {}
}
