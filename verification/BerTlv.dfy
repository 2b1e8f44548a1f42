// BER-TLV data objects: the tree, its forward encoding, and a strict decoder written from
// ITU-T X.690 sections 8.1.2 and 8.1.3 with the limits of ISO/IEC 7816-4:2020 clause 6.3
// (tags of at most 3 octets, length fields of at most 5).  The decoder accepts exactly the
// encodings.
module BerTlv {
  import opened Bytes

  const TAG_NUM_LIMIT: int := 16384 // Two groups of 7 bits fit in a 3 octet tag.

  datatype Class = Invalid | Universal | Application | ContextSpecific | Private
  datatype Tag = Tag(cla: Class, pc: bool, num: nat)

  datatype Tlv =
    | Prim(cla: Class, num: nat, val: bytes)
    | Constr(cla: Class, num: nat, kids: seq<Tlv>)
  {
    function GetTag(): Tag { Tag(cla, Constr?, num) }
  }

  // The encoder's loop over a long tag's octets is only bounded when one of the 14 bits it
  // keeps is set; a number such as 2^14 itself must not be given to it.
  predicate TagDefined(tag: Tag) { tag.num <= 30 || tag.num % TAG_NUM_LIMIT != 0 }

  predicate TagOk(tag: Tag) { tag.cla != Invalid && tag.num < TAG_NUM_LIMIT }

  // ----- Encoding -----

  function ClassBits(c: Class): nat {
    match c
    case Invalid => 0
    case Universal => 0
    case Application => 1
    case ContextSpecific => 2
    case Private => 3
  }

  // Only the low 14 bits of a long tag number reach the wire.
  function TagOctets(tag: Tag): (r: bytes)
    ensures 1 <= |r| <= 3
  {
    var first := 64 * ClassBits(tag.cla) + (if tag.pc then 32 else 0);
    if tag.num <= 30 then [first + tag.num]
    else
      var n := tag.num % TAG_NUM_LIMIT;
      if n < 128 then [first + 31, n] else [first + 31, 128 + n / 128, n % 128]
  }

  // Short form up to 127, else the number of length octets and the length in base 256.  (A
  // value whose length needs more than 4 octets has no encoding; see `Fits`.)
  function LenOctets(len: nat): (r: bytes)
    ensures |r| >= 1
    ensures len <= UINT32_MAX ==> |r| <= 5
  {
    ToBeLength(len);
    if len <= 127 then [len]
    else [if |ToBe(len)| <= 4 then 128 + |ToBe(len)| else 255] + ToBe(len)
  }

  function HdrOctets(tag: Tag, len: nat): bytes {
    TagOctets(tag) + LenOctets(len)
  }

  function Encode(t: Tlv): bytes
    decreases t, 1
  {
    HdrOctets(t.GetTag(), |Value(t)|) + Value(t)
  }

  function Value(t: Tlv): bytes
    decreases t, 0
  {
    match t
    case Prim(_, _, val) => val
    case Constr(_, _, kids) => EncodeAll(kids)
  }

  function EncodeAll(ts: seq<Tlv>): bytes {
    if ts == [] then [] else Encode(ts[0]) + EncodeAll(ts[1..])
  }

  lemma FirstObject(ts: seq<Tlv>)
    requires ts != []
    ensures var v := Value(ts[0]);
      EncodeAll(ts) == HdrOctets(ts[0].GetTag(), |v|) + (v + EncodeAll(ts[1..]))
  {
    var v, rest := Value(ts[0]), EncodeAll(ts[1..]);
    var h := HdrOctets(ts[0].GetTag(), |v|);
    Assoc(h, v, rest);
  }

  // Every tag has a class and a number that fits a 3 octet tag, every value a 4 octet length.
  ghost predicate Fits(t: Tlv) {
    && TagOk(t.GetTag())
    && |Value(t)| <= UINT32_MAX
    && (t.Constr? ==> FitsAll(t.kids))
  }

  ghost predicate FitsAll(ts: seq<Tlv>) {
    forall i :: 0 <= i < |ts| ==> Fits(ts[i])
  }

  // ----- Strict decoding -----

  function BitsClass(b: nat): (c: Class)
    requires b < 4
    ensures c != Invalid && ClassBits(c) == b
  {
    [Universal, Application, ContextSpecific, Private][b]
  }

  // X.690 8.1.2.2 and 8.1.2.4: one octet below 31; otherwise base 128 groups, most
  // significant first, the first of them not zero.
  function DecodeTag(b: bytes): Option<(Tag, nat)> {
    if b == [] then None
    else
      var (cla, pc, low) := (BitsClass(b[0] / 64), b[0] / 32 % 2 == 1, b[0] % 32);
      if low < 31 then Some((Tag(cla, pc, low), 1))
      else if |b| >= 2 && 31 <= b[1] < 128 then Some((Tag(cla, pc, b[1]), 2))
      else if |b| >= 3 && b[1] > 128 && b[2] < 128 then
        Some((Tag(cla, pc, 128 * (b[1] as int - 128) + b[2]), 3))
      else None
  }

  // X.690 8.1.3.4, 8.1.3.5 and 10.1: the minimum number of octets.
  function DecodeLen(b: bytes): Option<(nat, nat)> {
    if b == [] then None
    else if b[0] < 128 then Some((b[0], 1))
    else
      var k := b[0] - 128;
      if 1 <= k <= 4 && |b| > k && b[1] != 0 && FromBe(b[1..1 + k]) > 127
      then Some((FromBe(b[1..1 + k]), 1 + k))
      else None
  }

  datatype Hdr = Hdr(tag: Tag, len: nat, size: nat)

  function DecodeHdr(b: bytes): (r: Option<Hdr>)
    ensures r.Some? ==> 2 <= r.value.size <= |b|
  {
    match DecodeTag(b)
    case None => None
    case Some((tag, n)) =>
      match DecodeLen(b[n..])
      case None => None
      case Some((len, m)) => Some(Hdr(tag, len, n + m))
  }

  function Decode(b: bytes): (r: Option<(Tlv, bytes)>)
    ensures r.Some? ==> |r.value.1| < |b|
    decreases |b|, 0
  {
    match DecodeHdr(b)
    case None => None
    case Some(Hdr(tag, len, size)) =>
      if size + len > |b| then None
      else
        var val, rest := b[size..size + len], b[size + len..];
        if !tag.pc then Some((Prim(tag.cla, tag.num, val), rest))
        else
          match DecodeAll(val)
          case None => None
          case Some(kids) => Some((Constr(tag.cla, tag.num, kids), rest))
  }

  function DecodeAll(b: bytes): Option<seq<Tlv>>
    decreases |b|, 1
  {
    if b == [] then Some([])
    else
      match Decode(b)
      case None => None
      case Some((t, rest)) =>
        match DecodeAll(rest)
        case None => None
        case Some(ts) => Some([t] + ts)
  }

  // ----- The decoder inverts the encoder, and accepts nothing else -----

  lemma TagInverse(tag: Tag, rest: bytes)
    requires TagOk(tag)
    ensures DecodeTag(TagOctets(tag) + rest) == Some((tag, |TagOctets(tag)|))
  {
    var first := 64 * ClassBits(tag.cla) + (if tag.pc then 32 else 0);
    assert (TagOctets(tag) + rest)[0] == TagOctets(tag)[0];
    assert first / 64 == ClassBits(tag.cla) && first / 32 % 2 == (if tag.pc then 1 else 0);
  }

  lemma LenInverse(len: nat, rest: bytes)
    requires len <= UINT32_MAX
    ensures DecodeLen(LenOctets(len) + rest) == Some((len, |LenOctets(len)|))
  {
    if len > 127 {
      ToBeInverse(len);
      ToBeLength(len);
      var b := LenOctets(len) + rest;
      assert b[1..1 + |ToBe(len)|] == ToBe(len);
    }
  }

  lemma HdrInverse(tag: Tag, len: nat, rest: bytes)
    requires TagOk(tag) && len <= UINT32_MAX
    ensures DecodeHdr(HdrOctets(tag, len) + rest) == Some(Hdr(tag, len, |HdrOctets(tag, len)|))
  {
    TagInverse(tag, LenOctets(len) + rest);
    LenInverse(len, rest);
    HdrOf(tag, len, TagOctets(tag), LenOctets(len), rest);
  }

  lemma HdrOf(tag: Tag, len: nat, t: bytes, l: bytes, rest: bytes)
    requires DecodeTag(t + (l + rest)) == Some((tag, |t|)) && DecodeLen(l + rest) == Some((len, |l|))
    ensures DecodeHdr(t + l + rest) == Some(Hdr(tag, len, |t| + |l|))
  {
    Assoc(t, l, rest);
    Parts(t, l + rest);
  }

  lemma TagUnique(b: bytes)
    requires DecodeTag(b).Some?
    ensures var (tag, n) := DecodeTag(b).value; TagOk(tag) && n <= |b| && b[..n] == TagOctets(tag)
  {
    var tag := DecodeTag(b).value.0;
    FirstOctet(b[0], tag.cla, tag.pc);
  }

  lemma FirstOctet(b: byte, cla: Class, pc: bool)
    requires cla == BitsClass(b / 64) && (pc <==> b / 32 % 2 == 1)
    ensures b as int == 64 * ClassBits(cla) + (if pc then 32 else 0) + b as int % 32
  {}

  lemma LenUnique(b: bytes)
    requires DecodeLen(b).Some?
    ensures var (len, n) := DecodeLen(b).value;
      len <= UINT32_MAX && n <= |b| && b[..n] == LenOctets(len)
  {
    if b[0] >= 128 {
      var s := b[1..1 + (b[0] - 128)];
      FromBeInverse(s);
      ToBeLength(FromBe(s));
      assert b[..1 + |s|] == [b[0]] + s;
    }
  }

  lemma HdrUnique(b: bytes)
    requires DecodeHdr(b).Some?
    ensures var h := DecodeHdr(b).value;
      TagOk(h.tag) && h.len <= UINT32_MAX && b[..h.size] == HdrOctets(h.tag, h.len)
  {
    TagUnique(b);
    var (tag, n) := DecodeTag(b).value;
    LenUnique(b[n..]);
    var (len, m) := DecodeLen(b[n..]).value;
    assert b[..n + m] == b[..n] + b[n..][..m];
  }

  // Decode(Encode(t) + rest) == (t, rest).
  lemma {:induction false} DecodeEncode(t: Tlv, rest: bytes)
    requires Fits(t)
    ensures Decode(Encode(t) + rest) == Some((t, rest))
    decreases t, 0
  {
    var v := Value(t);
    var h := HdrOctets(t.GetTag(), |v|);
    Assoc(h, v, rest);
    HdrInverse(t.GetTag(), |v|, v + rest);
    Middle(h, v, rest);
    if t.Constr? {
      DecodeEncodeAll(t.kids);
    }
  }

  lemma {:induction false} DecodeEncodeAll(ts: seq<Tlv>)
    requires FitsAll(ts)
    ensures DecodeAll(EncodeAll(ts)) == Some(ts)
    decreases ts, 1
  {
    if ts != [] {
      var rest := EncodeAll(ts[1..]);
      DecodeEncode(ts[0], rest);
      DecodeEncodeAll(ts[1..]);
      DecodeNext(EncodeAll(ts), ts[0], rest, ts[1..]);
      assert ts == [ts[0]] + ts[1..];
    }
  }

  lemma DecodeNext(b: bytes, t: Tlv, rest: bytes, ts: seq<Tlv>)
    requires Decode(b) == Some((t, rest)) && DecodeAll(rest) == Some(ts)
    ensures DecodeAll(b) == Some([t] + ts)
  {}

  // Whatever the decoder accepts is the encoding of what it returns.
  lemma {:induction false} EncodeDecode(b: bytes)
    requires Decode(b).Some?
    ensures var (t, rest) := Decode(b).value; Fits(t) && b == Encode(t) + rest
    decreases |b|, 0
  {
    var h, t, rest := DecodeSplits(b);
    var val := b[h.size..h.size + h.len];
    if h.tag.pc {
      EncodeDecodeAll(val);
    }
    EncodesBack(t, h.tag, val);
    Cut(b, h.size, h.size + h.len);
  }

  // What a decoded object is made of.
  lemma DecodeSplits(b: bytes) returns (h: Hdr, t: Tlv, rest: bytes)
    requires Decode(b).Some?
    ensures Decode(b) == Some((t, rest)) && 2 <= h.size && h.size + h.len <= |b| && rest == b[h.size + h.len..]
    ensures TagOk(h.tag) && h.len <= UINT32_MAX && b[..h.size] == HdrOctets(h.tag, h.len) && t.GetTag() == h.tag
    ensures var val := b[h.size..h.size + h.len]; if h.tag.pc then DecodeAll(val) == Some(t.kids) else t.val == val
  {
    HdrUnique(b);
    h := DecodeHdr(b).value;
    t, rest := Decode(b).value.0, Decode(b).value.1;
  }

  lemma EncodesBack(t: Tlv, tag: Tag, val: bytes)
    requires t.GetTag() == tag && TagOk(tag) && |val| <= UINT32_MAX
    requires if tag.pc then FitsAll(t.kids) && val == EncodeAll(t.kids) else t.val == val
    ensures Fits(t) && Encode(t) == HdrOctets(tag, |val|) + val
  {}

  lemma {:induction false} EncodeDecodeAll(b: bytes)
    requires DecodeAll(b).Some?
    ensures FitsAll(DecodeAll(b).value) && b == EncodeAll(DecodeAll(b).value)
    decreases |b|, 1
  {
    if b != [] {
      EncodeDecode(b);
      var (t, rest) := Decode(b).value;
      EncodeDecodeAll(rest);
      assert DecodeAll(b).value[1..] == DecodeAll(rest).value;
    }
  }

  // The two directions together: the decoder accepts exactly the encodings, so no two
  // trees share an encoding and no encoding is a prefix of another.
  lemma DecodeExactly(b: bytes, t: Tlv, rest: bytes)
    ensures Decode(b) == Some((t, rest)) <==> Fits(t) && b == Encode(t) + rest
  {
    if Decode(b) == Some((t, rest)) {
      EncodeDecode(b);
    }
    if Fits(t) && b == Encode(t) + rest {
      DecodeEncode(t, rest);
    }
  }

  // The encoder writes only 14 bits of a tag number, so a strict decoder reads the number
  // back exactly when it is below 2^14.
  lemma TagNumberSurvives(tag: Tag, rest: bytes)
    requires tag.cla != Invalid && TagDefined(tag)
    ensures (exists n :: DecodeTag(TagOctets(tag) + rest) == Some((tag, n))) <==> tag.num < TAG_NUM_LIMIT
  {
    if tag.num < TAG_NUM_LIMIT {
      TagInverse(tag, rest);
    } else if DecodeTag(TagOctets(tag) + rest).Some? {
      TagUnique(TagOctets(tag) + rest);
    }
  }
}
