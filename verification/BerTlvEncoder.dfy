// The in-place BER-TLV encoder.  It fills a buffer from its end towards its front, nested
// encoders share their parent's buffer, and without a buffer it only counts (a dry run).
// Each step is proved to put exactly the forward encoding in front of what was there.
module BerTlvEncoder {
  import opened Bytes
  import opened BerTlv
  import opened Memory

  // The length shifted right by 8 bits a step; nothing is left after four steps.
  function Shifted(len: nat, steps: nat): nat {
    if steps == 0 then len else Shifted(len, steps - 1) / 256
  }

  lemma ShiftedOut(len: nat)
    requires len <= UINT32_MAX
    ensures Shifted(len, 4) == 0
  {
    assert Shifted(len, 1) == len / 256;
    assert Shifted(len, 2) == len / 256 / 256;
    assert Shifted(len, 3) == len / 256 / 256 / 256;
  }

  // The octets extracted so far, `done`, are the end of the length in base 256; once nothing
  // is left of the length they begin with `zeroCnt` zeros too many.
  ghost predicate Digits(len: nat, left: nat, done: bytes, zeroCnt: nat) {
    && zeroCnt <= |done|
    && (left > 0 ==> ToBe(len) == ToBe(left) + done)
    && (left == 0 ==> ToBe(len) == done[zeroCnt..])
  }

  lemma DigitsMore(len: nat, left: nat, done: bytes, zeroCnt: nat, octet: byte, more: bytes)
    requires Digits(len, left, done, zeroCnt) && octet as int == left % 256 && more == [octet] + done
    ensures Digits(len, left / 256, more, if octet == 0 then zeroCnt + 1 else 0)
  {
    if left == 0 {
      assert more[zeroCnt + 1..] == done[zeroCnt..];
    } else {
      Assoc(ToBe(left / 256), [octet], done);
      assert ToBe(left) == ToBe(left / 256) + [octet];
      assert ToBe(0) + more == more == more[0..];
    }
  }

  // Extracts the four octets of a length, least significant first, into the end of an
  // array, and counts the zeros at the front.
  method LenDigits(len: nat) returns (lenRaw: array<byte>, zeroCnt: nat)
    requires 0 < len <= UINT32_MAX
    ensures fresh(lenRaw) && lenRaw.Length == 5 && zeroCnt <= 4
    ensures lenRaw[1 + zeroCnt..] == ToBe(len)
  {
    lenRaw := new byte[5](_ => 0);
    zeroCnt := 0;
    ghost var done: bytes := [];
    var lenLen := 1;
    assert ToBe(len) + [] == ToBe(len);
    while lenLen < 5
      invariant 1 <= lenLen <= 5
      invariant |done| == lenLen - 1 && lenRaw[6 - lenLen..] == done
      invariant Digits(len, Shifted(len, lenLen - 1), done, zeroCnt)
    {
      var octet := Shifted(len, lenLen - 1) % 256;
      lenRaw[5 - lenLen] := octet;
      assert lenRaw[5 - lenLen..] == [octet] + done;
      DigitsMore(len, Shifted(len, lenLen - 1), done, zeroCnt, octet, [octet] + done);
      zeroCnt := if octet == 0 then zeroCnt + 1 else 0;
      done := [octet] + done;
      lenLen := lenLen + 1;
    }
    ShiftedOut(len);
    assert lenRaw[1 + zeroCnt..] == done[zeroCnt..];
  }

  // The length field: the octets after the zeros are moved up behind their count.
  method LenField(len: nat) returns (raw: bytes)
    requires len <= UINT32_MAX
    ensures raw == LenOctets(len)
  {
    if len <= 127 {
      return [len];
    }
    var lenRaw, zeroCnt := LenDigits(len);
    ghost var digits := lenRaw[1 + zeroCnt..];
    ToBeLength(len);
    var lenLen := 5 - zeroCnt;
    forall i | 1 <= i < lenLen {
      lenRaw[i] := lenRaw[i + zeroCnt];
    }
    lenRaw[0] := 128 + (lenLen - 1);
    assert lenRaw[..lenLen] == [128 + (lenLen - 1)] + digits;
    raw := lenRaw[..lenLen];
  }

  lemma LowGroups(num: nat)
    ensures num % TAG_NUM_LIMIT == 128 * (num / 128 % 128) + num % 128
  {}

  // The tag field: two groups of 7 bits at most, zero groups at the front dropped, bit 8 set
  // on all but the last.
  method TagField(tag: Tag) returns (raw: bytes)
    requires TagDefined(tag)
    ensures raw == TagOctets(tag)
  {
    var tagRaw := new byte[3](_ => 0);
    var cla := if tag.cla.Application? then 0x40 else if tag.cla.ContextSpecific? then 0x80
               else if tag.cla.Private? then 0xC0 else 0x00;
    var first := cla + (if tag.pc then 0x20 else 0x00);
    if tag.num <= 30 {
      tagRaw[0] := first + tag.num;
      return tagRaw[..1];
    }
    tagRaw[0] := first + 31;
    ghost var hi, lo := tag.num / 128 % 128, tag.num % 128;
    LowGroups(tag.num);
    var tagLen, zeroCnt := 1, 0;
    var rest: nat := tag.num; // The number shifted right by 7 bits a step.
    while tagLen < 3
      invariant 1 <= tagLen <= 3 && tagRaw.Length == 3 && tagRaw[0] == first + 31
      invariant tagLen == 1 ==> rest == tag.num && zeroCnt == 0
      invariant tagLen == 2 ==> rest == tag.num / 128
      invariant tagLen >= 2 ==> tagRaw[2] == lo
      invariant tagLen == 2 ==> zeroCnt == if lo == 0 then 1 else 0
      invariant tagLen == 3 ==> tagRaw[1] == hi
      invariant tagLen == 3 ==> zeroCnt == if hi != 0 then 0 else if lo != 0 then 1 else 2
    {
      tagRaw[3 - tagLen] := rest % 128;
      zeroCnt := if rest % 128 == 0 then zeroCnt + 1 else 0;
      tagLen, rest := tagLen + 1, rest / 128;
    }
    tagLen := tagLen - zeroCnt;
    forall i | 1 <= i < tagLen {
      tagRaw[i] := tagRaw[i + zeroCnt];
    }
    var tagIdx := 0;
    while tagIdx < tagLen - 1 - 1
      invariant 0 <= tagIdx <= tagLen - 2 && tagRaw[0] == first + 31
      invariant tagLen == 2 ==> tagRaw[1] == lo
      invariant tagLen == 3 ==> tagRaw[2] == lo && tagRaw[1] == hi + 128 * tagIdx
    {
      tagRaw[1 + tagIdx] := tagRaw[1 + tagIdx] + 128;
      tagIdx := tagIdx + 1;
    }
    raw := tagRaw[..tagLen];
  }

  class Encoder {
    var buf: array?<byte> // Null in a dry run.
    var base: nat         // Where the buffer pointer points inside the array.
    var len: int          // Occupied size of the buffer.
    var size: int         // Allocated size of the buffer.
    var lenVal: int       // Length of the value that has no header yet.
    var offset: int

    ghost predicate Valid()
      reads this
    {
      && 0 <= lenVal <= len <= size <= UINT32_MAX
      && offset + len == size
      && (if buf == null then size == UINT32_MAX else base + size <= buf.Length)
    }

    // Everything the encoder's buffer pointer can reach, and what lies around it.
    ghost function Mem(): bytes
      reads this, buf
    {
      if buf == null then [] else buf[..]
    }

    constructor (buf: array?<byte>, base: nat, bufSize: nat)
      requires bufSize <= UINT32_MAX
      requires buf != null ==> base + bufSize <= buf.Length
      ensures Valid() && this.buf == buf && this.base == base && len == 0 && lenVal == 0
      ensures size == if buf == null then UINT32_MAX else bufSize
    {
      this.buf := buf;
      this.base := base;
      size := if buf == null then UINT32_MAX else bufSize;
      len, lenVal := 0, 0;
      offset := if buf == null then UINT32_MAX else bufSize;
    }

    method NestedStart() returns (ret: Ret, nested: Encoder?)
      requires Valid()
      ensures ret == if lenVal != 0 then Error else Success
      ensures ret.Success? <==> nested != null
      ensures nested != null ==>
        && fresh(nested) && nested.Valid() && nested.buf == buf && nested.base == base
        && nested.len == 0 && nested.lenVal == 0
        && nested.size == if buf == null then UINT32_MAX else offset
    {
      if lenVal != 0 {
        return Error, null;
      }
      nested := new Encoder(buf, base, size - len);
      ret := Success;
    }

    method NestedEnd(nested: Encoder) returns (ret: Ret)
      requires Valid() && nested != this && 0 <= nested.len <= offset
      modifies this
      ensures Valid() && buf == old(buf) && base == old(base) && size == old(size)
      ensures ret == if old(lenVal) != 0 then Error else Success
      ensures ret.Success? ==> len == old(len) + nested.len && lenVal == nested.len
      ensures !ret.Success? ==> len == old(len) && lenVal == old(lenVal)
    {
      if lenVal != 0 {
        return Error;
      }
      len := len + nested.len;
      lenVal := nested.len;
      offset := offset - nested.len;
      ret := Success;
    }

    // Puts `data` in front of what is already encoded, as a value without a header yet.
    method Data(data: bytes) returns (ret: Ret)
      requires Valid()
      modifies this, buf
      ensures Valid() && buf == old(buf) && base == old(base) && size == old(size)
      ensures ret == if |data| <= old(offset) then Success else BufferTooShort
      ensures ret.Success? ==> len == old(len) + |data| && lenVal == old(lenVal) + |data|
      ensures !ret.Success? ==> len == old(len) && lenVal == old(lenVal)
      ensures buf != null ==>
        Mem() == if ret.Success? then Splice(old(Mem()), base + offset, data) else old(Mem())
    {
      if offset - |data| < 0 {
        return BufferTooShort;
      }
      offset := offset - |data|;
      lenVal := lenVal + |data|;
      len := len + |data|;
      if buf != null {
        CopyInto(buf, base + offset, data);
      }
      ret := Success;
    }

    // Puts the header of the pending value in front of it.  A header that does not fit may
    // leave its length octets behind, but only below `offset`.
    method Header(tag: Tag) returns (ret: Ret)
      requires Valid() && TagDefined(tag)
      requires buf == null ==> len + |HdrOctets(tag, lenVal)| <= UINT32_MAX
      modifies this, buf
      ensures Valid() && buf == old(buf) && base == old(base) && size == old(size)
      ensures ret == if tag.cla == Invalid then ParamBad
                     else if buf != null && |HdrOctets(tag, old(lenVal))| > old(offset) then BufferTooShort
                     else Success
      ensures ret.Success? ==> len == old(len) + |HdrOctets(tag, old(lenVal))| && lenVal == 0
      ensures ret.Success? && buf != null ==>
        Mem() == Splice(old(Mem()), base + offset, HdrOctets(tag, old(lenVal)))
      ensures !ret.Success? ==> len == old(len) && lenVal == old(lenVal)
      ensures !ret.Success? && buf != null ==>
        Untouched(old(Mem()), Mem(), base, base + offset)
    {
      if tag.cla == Invalid {
        return ParamBad;
      }
      var room, used := size - len, 0;
      var lenRaw := LenField(lenVal);
      if buf != null && |lenRaw| > room - used {
        return BufferTooShort;
      }
      used := used + |lenRaw|;
      if buf != null {
        CopyInto(buf, base + room - used, lenRaw);
      }
      var tagRaw := TagField(tag);
      if buf != null && |tagRaw| > room - used {
        SpliceUntouched(old(Mem()), base + room - used, lenRaw);
        return BufferTooShort;
      }
      used := used + |tagRaw|;
      if buf != null {
        CopyInto(buf, base + room - used, tagRaw);
        SpliceTwice(old(Mem()), base + room - used, tagRaw, lenRaw);
      }
      len := len + used;
      offset := offset - used;
      lenVal := 0;
      ret := Success;
    }
  }

  // ----- Encoding a whole tree -----

  // What `prs_bertlv` accepts: a class on every tag, and no constructed object with an
  // empty array.
  ghost predicate Accepted(t: Tlv) {
    && t.cla != Invalid
    && (t.Constr? ==> t.kids != [] && AcceptedAll(t.kids))
  }

  ghost predicate AcceptedAll(ts: seq<Tlv>) {
    forall i :: 0 <= i < |ts| ==> Accepted(ts[i])
  }

  ghost predicate Defined(t: Tlv) {
    && TagDefined(t.GetTag())
    && (t.Constr? ==> forall i :: 0 <= i < |t.kids| ==> Defined(t.kids[i]))
  }

  // What is encoded once the objects from index `i` on are done.
  function EncodeFrom(ts: seq<Tlv>, i: nat): bytes
    requires i <= |ts|
    decreases |ts| - i
  {
    if i == |ts| then [] else Encode(ts[i]) + EncodeFrom(ts, i + 1)
  }

  lemma {:induction false} EncodeFromIs(ts: seq<Tlv>, i: nat)
    requires i <= |ts|
    ensures EncodeFrom(ts, i) == EncodeAll(ts[i..])
    decreases |ts| - i
  {
    if i < |ts| {
      EncodeFromIs(ts, i + 1);
      assert ts[i..][1..] == ts[i + 1..];
    }
  }

  // It is no longer than the whole list.
  lemma {:induction false} FromShorter(ts: seq<Tlv>, i: nat)
    requires i <= |ts|
    ensures |EncodeFrom(ts, i)| <= |EncodeFrom(ts, 0)|
  {
    if i > 0 {
      var j := i - 1;
      FromShorter(ts, j);
      FromStep(ts, j);
    }
  }

  lemma FromStep(ts: seq<Tlv>, i: nat)
    requires i < |ts|
    ensures EncodeFrom(ts, i) == Encode(ts[i]) + EncodeFrom(ts, i + 1)
    ensures |EncodeFrom(ts, i + 1)| <= |EncodeFrom(ts, i)|
  {}

  // The value of one object, left without a header: the data of a primitive one, the items
  // of a constructed one through a nested encoder.
  method EncodeValue(t: Tlv, enc: Encoder) returns (ok: bool)
    requires enc.Valid() && enc.lenVal == 0 && Defined(t)
    requires enc.buf == null ==> enc.len + |Value(t)| <= UINT32_MAX
    modifies enc, enc.buf
    ensures enc.Valid() && enc.buf == old(enc.buf) && enc.base == old(enc.base) && enc.size == old(enc.size)
    ensures ok <==> (t.Constr? ==> t.kids != [] && AcceptedAll(t.kids)) && |Value(t)| <= old(enc.offset)
    ensures ok ==> enc.len == old(enc.len) + |Value(t)| && enc.lenVal == |Value(t)|
    ensures ok && enc.buf != null ==>
      enc.Mem() == Splice(old(enc.Mem()), enc.base + enc.offset, Value(t))
    decreases t, 0
  {
    var ret: Ret;
    if t.Prim? {
      ret := enc.Data(t.val);
      return ret == Success;
    }
    var nested: Encoder?;
    ret, nested := enc.NestedStart();
    if ret != Success {
      return false;
    }
    ok := EncodeKids(t.kids, nested);
    if !ok {
      return false;
    }
    ret := enc.NestedEnd(nested);
    ok := ret == Success;
  }

  // `prs_bertlv`.
  method EncodeTree(t: Tlv, enc: Encoder) returns (ok: bool)
    requires enc.Valid() && enc.lenVal == 0 && Defined(t)
    requires enc.buf == null ==> enc.len + |Encode(t)| <= UINT32_MAX
    modifies enc, enc.buf
    ensures enc.Valid() && enc.buf == old(enc.buf) && enc.base == old(enc.base) && enc.size == old(enc.size)
    ensures ok <==> Accepted(t) && |Encode(t)| <= old(enc.offset)
    ensures ok ==> enc.len == old(enc.len) + |Encode(t)| && enc.lenVal == 0
    ensures ok && enc.buf != null ==>
      enc.Mem() == Splice(old(enc.Mem()), enc.base + enc.offset, Encode(t))
    decreases t, 1
  {
    ghost var h, v := HdrOctets(t.GetTag(), |Value(t)|), Value(t);
    assert Encode(t) == h + v;
    ok := EncodeValue(t, enc);
    if !ok {
      return;
    }
    var ret := enc.Header(t.GetTag());
    ok := ret == Success;
    if ok && enc.buf != null {
      SpliceTwice(old(enc.Mem()), enc.base + enc.offset, h, v);
    }
  }

  // One object in front of `tail`, which was encoded over `before`.
  method EncodeInFront(t: Tlv, enc: Encoder, ghost before: bytes, ghost tail: bytes) returns (ok: bool)
    requires enc.Valid() && enc.lenVal == 0 && Defined(t)
    requires enc.buf == null ==> enc.len + |Encode(t)| <= UINT32_MAX
    requires enc.buf != null ==> enc.base + enc.offset + |tail| <= |before|
    requires enc.buf != null ==> enc.Mem() == Splice(before, enc.base + enc.offset, tail)
    modifies enc, enc.buf
    ensures enc.Valid() && enc.buf == old(enc.buf) && enc.base == old(enc.base) && enc.size == old(enc.size)
    ensures ok <==> Accepted(t) && |Encode(t)| <= old(enc.offset)
    ensures ok ==> enc.len == old(enc.len) + |Encode(t)| && enc.lenVal == 0
    ensures ok && enc.buf != null ==>
      && enc.base + enc.offset + |Encode(t) + tail| <= |before|
      && enc.Mem() == Splice(before, enc.base + enc.offset, Encode(t) + tail)
    decreases t, 2
  {
    ok := EncodeTree(t, enc);
    if ok && enc.buf != null {
      SpliceTwice(before, enc.base + enc.offset, Encode(t), tail);
    }
  }

  // The items of an array are encoded from the last to the first.
  method EncodeKids(kids: seq<Tlv>, enc: Encoder) returns (ok: bool)
    requires enc.Valid() && enc.lenVal == 0 && forall i :: 0 <= i < |kids| ==> Defined(kids[i])
    requires enc.buf == null ==> enc.len + |EncodeAll(kids)| <= UINT32_MAX
    modifies enc, enc.buf
    ensures enc.Valid() && enc.buf == old(enc.buf) && enc.base == old(enc.base) && enc.size == old(enc.size)
    ensures ok <==> kids != [] && AcceptedAll(kids) && |EncodeAll(kids)| <= old(enc.offset)
    ensures ok ==> enc.len == old(enc.len) + |EncodeAll(kids)| && enc.lenVal == 0
    ensures ok && enc.buf != null ==>
      enc.Mem() == Splice(old(enc.Mem()), enc.base + enc.offset, EncodeAll(kids))
    decreases kids, 1
  {
    EncodeFromIs(kids, 0);
    assert kids[0..] == kids;
    ok := EncodeBackwards(kids, enc, enc.Mem(), enc.len);
  }

  method EncodeBackwards(kids: seq<Tlv>, enc: Encoder, ghost before: bytes, ghost len: int) returns (ok: bool)
    requires InFront(enc, before, len, []) && forall i :: 0 <= i < |kids| ==> Defined(kids[i])
    requires enc.buf == null ==> len + |EncodeFrom(kids, 0)| <= UINT32_MAX
    modifies enc, enc.buf
    ensures enc.Valid() && enc.buf == old(enc.buf) && enc.base == old(enc.base) && enc.size == old(enc.size)
    ensures ok <==> kids != [] && AcceptedFrom(kids, 0) && len + |EncodeFrom(kids, 0)| <= enc.size
    ensures ok ==> InFront(enc, before, len, EncodeFrom(kids, 0))
    decreases kids, 0
  {
    ok := false; // An empty array never becomes a success.
    var i := |kids|;
    while i > 0
      invariant 0 <= i <= |kids| && (ok <==> i < |kids|)
      invariant AcceptedFrom(kids, i)
      invariant enc.buf == old(enc.buf) && enc.base == old(enc.base) && enc.size == old(enc.size)
      invariant InFront(enc, before, len, EncodeFrom(kids, i))
    {
      i := i - 1;
      FromShorter(kids, i);
      FromStep(kids, i);
      ok := EncodeNext(kids[i], enc, before, len, EncodeFrom(kids, i + 1), |EncodeFrom(kids, 0)|);
      if !ok {
        return;
      }
      AcceptedMore(kids, i);
    }
  }

  ghost predicate AcceptedFrom(ts: seq<Tlv>, i: nat) { forall j :: i <= j < |ts| ==> Accepted(ts[j]) }

  lemma AcceptedMore(ts: seq<Tlv>, i: nat)
    requires i < |ts| && AcceptedFrom(ts, i + 1) && Accepted(ts[i])
    ensures AcceptedFrom(ts, i)
  {
    forall j | i <= j < |ts|
      ensures Accepted(ts[j])
    {
      if j != i {
        assert i + 1 <= j;
      }
    }
  }

  // `done` was put in front of what an encoder held, which was `len` bytes.
  ghost predicate InFront(enc: Encoder, before: bytes, len: int, done: bytes)
    reads enc, enc.buf
  {
    && enc.Valid() && enc.lenVal == 0 && enc.len == len + |done|
    && (enc.buf != null ==>
          && enc.base + enc.offset + |done| <= |before|
          && enc.Mem() == Splice(before, enc.base + enc.offset, done))
  }

  // The next item of an array that takes `total` bytes.
  method EncodeNext(t: Tlv, enc: Encoder, ghost before: bytes, ghost len: int, ghost done: bytes, ghost total: nat)
    returns (ok: bool)
    requires InFront(enc, before, len, done) && Defined(t) && |Encode(t) + done| <= total
    requires enc.buf == null ==> len + total <= UINT32_MAX
    modifies enc, enc.buf
    ensures enc.Valid() && enc.buf == old(enc.buf) && enc.base == old(enc.base) && enc.size == old(enc.size)
    ensures ok <==> Accepted(t) && len + |Encode(t) + done| <= enc.size
    ensures ok ==> InFront(enc, before, len, Encode(t) + done)
    decreases t, 3
  {
    ok := EncodeInFront(t, enc, before, done);
  }

  // `jsitem_prs_item_dato_bertlv`: a dry run finds the size, the real run fills exactly that
  // many bytes and cannot fail.
  method EncodeItem(contents: Option<Tlv>, buf: array<byte>, base: nat, room: nat) returns (ret: Ret, n: nat)
    requires base + room <= buf.Length && room <= UINT32_MAX
    requires contents.Some? ==> Defined(contents.value) && |Encode(contents.value)| <= UINT32_MAX
    modifies buf
    ensures contents.None? ==> ret == Success && n == 0
    ensures contents.Some? ==>
      && ret == (if !Accepted(contents.value) then Error
                 else if |Encode(contents.value)| > room then BufferTooShort
                 else Success)
      && (ret.Success? ==> n == |Encode(contents.value)|)
    ensures ret.Success? && contents.Some? ==> buf[..] == Splice(old(buf[..]), base, Encode(contents.value))
    ensures ret.Success? && contents.Some? ==> n <= room
    ensures !ret.Success? || contents.None? ==> buf[..] == old(buf[..])
  {
    if contents.None? {
      return Success, 0;
    }
    var enc := new Encoder(null, 0, 0);
    var ok := EncodeTree(contents.value, enc);
    if !ok {
      return Error, 0;
    }
    if enc.len > room {
      return BufferTooShort, 0;
    }
    n := enc.len;
    enc := new Encoder(buf, base, n);
    ok := EncodeTree(contents.value, enc);
    assert ok && enc.offset == 0;
    ret := Success;
  }
}
