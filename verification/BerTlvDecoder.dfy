// The repository's own BER-TLV decoder.  It reads tag groups least significant first and
// long lengths incompletely, so it inverts the encoder on part of the encodings only; the
// lemmas at the end say on exactly which.
module BerTlvDecoder {
  import opened Bytes
  import opened BerTlv

  // A header that reads past the region it was given has no modelled result: `Overrun`.
  datatype HdrResult = Read(hdr: Hdr) | Failed(ret: Ret) | Overrun

  // Bitwise or; the length octets overlap when they are put together.
  function Or(a: nat, b: nat): nat {
    if a == 0 then b else if b == 0 then a
    else 2 * Or(a / 2, b / 2) + (if a % 2 == 1 || b % 2 == 1 then 1 else 0)
  }

  lemma {:induction false} OrBound(a: nat, b: nat, k: nat)
    requires a < Pow2(k) && b < Pow2(k)
    ensures Or(a, b) < Pow2(k)
  {
    if k > 0 && a != 0 && b != 0 {
      OrBound(a / 2, b / 2, k - 1);
    }
  }

  // ----- What the two header loops compute -----

  function TagRead(b: bytes): (r: HdrResult)
    requires b != []
    ensures r.Read? ==> r.hdr.len == 0 && 1 <= r.hdr.size <= 3 && r.hdr.size <= |b|
  {
    var (cla, pc, low) := (BitsClass(b[0] / 64), b[0] / 32 % 2 == 1, b[0] % 32);
    if low != 31 then Read(Hdr(Tag(cla, pc, low), 0, 1))
    else if |b| < 2 then Failed(DatoEnd)
    else if b[1] < 128 then Read(Hdr(Tag(cla, pc, b[1]), 0, 2))
    else if |b| < 3 then Failed(DatoEnd)
    else if b[2] < 128 then Read(Hdr(Tag(cla, pc, b[1] as int - 128 + 128 * (b[2] as int)), 0, 3))
    else Failed(Error)
  }

  // `lenLen - 1` octets, each shifted 7 bits further, or'ed onto the octet count itself.
  function LenBits(b: bytes, lenLen: nat, n: nat): nat
    requires n <= |b|
  {
    if n == 0 then lenLen else Or(LenBits(b, lenLen, n - 1), b[n - 1] as int * Pow2(7 * (n - 1)))
  }

  function HdrRead(b: bytes): (r: HdrResult)
    ensures r.Read? ==> 2 <= r.hdr.size <= |b|
  {
    if b == [] then Failed(DatoEnd)
    else
      var t := TagRead(b);
      if !t.Read? then t
      else
        var n := t.hdr.size;
        if n >= |b| then Overrun
        else if b[n] < 128 then Read(Hdr(t.hdr.tag, b[n], n + 1))
        else
          var lenLen := b[n] - 128;
          if lenLen == 0 || lenLen > 5 then Failed(Error)
          else if n + lenLen > |b| then Overrun
          else Read(Hdr(t.hdr.tag, LenBits(b[n + 1..], lenLen, lenLen - 1), n + lenLen))
  }

  method TagPrs(b: bytes) returns (r: HdrResult)
    requires b != []
    ensures r == TagRead(b)
  {
    var cla := if b[0] < 0x40 then Universal else if b[0] < 0x80 then Application
               else if b[0] < 0xC0 then ContextSpecific else Private;
    var pc := b[0] / 32 % 2 == 1;
    if b[0] % 32 != 31 {
      return Read(Hdr(Tag(cla, pc, b[0] % 32), 0, 1));
    }
    var num: nat, tagLen := 0, 1;
    while tagLen < 3
      invariant 1 <= tagLen <= 3
      invariant tagLen == 1 ==> num == 0
      invariant tagLen >= 2 ==> |b| >= 2 && b[1] >= 128
      invariant tagLen == 2 ==> num == b[1] as int - 128
      invariant tagLen >= 3 ==> |b| >= 3 && b[2] >= 128
    {
      if tagLen >= |b| {
        return Failed(DatoEnd);
      }
      // The groups do not overlap, so adding is the bitwise or.
      num := num + b[tagLen] as int % 128 * (if tagLen == 1 then 1 else 128);
      if b[tagLen] < 128 {
        return Read(Hdr(Tag(cla, pc, num), 0, tagLen + 1));
      }
      tagLen := tagLen + 1;
    }
    r := Failed(Error);
  }

  method HdrPrs(b: bytes) returns (r: HdrResult)
    ensures r == HdrRead(b)
  {
    if |b| < 1 {
      return Failed(DatoEnd);
    }
    var t := TagPrs(b);
    if !t.Read? {
      return t;
    }
    var hdrLen := t.hdr.size;
    if hdrLen >= |b| {
      return Overrun;
    }
    var lenB0: int := b[hdrLen];
    hdrLen := hdrLen + 1;
    if lenB0 < 128 {
      return Read(Hdr(t.hdr.tag, lenB0, hdrLen));
    }
    var lenLen := lenB0 - 128;
    if lenLen == 0 || lenLen == 127 || lenLen > 5 {
      return Failed(Error);
    }
    if hdrLen + lenLen - 1 > |b| {
      return Overrun;
    }
    var val, start := lenLen, hdrLen;
    var lenIdx := 1;
    while lenIdx < lenLen
      invariant 1 <= lenIdx <= lenLen && hdrLen == start + lenIdx - 1
      invariant val == LenBits(b[start..], lenLen, lenIdx - 1)
    {
      val := Or(val, b[hdrLen] as int * Pow2((lenIdx - 1) * 7));
      hdrLen := hdrLen + 1;
      lenIdx := lenIdx + 1;
    }
    r := Read(Hdr(t.hdr.tag, val, hdrLen));
  }

  // ----- The decoder object -----

  class Decoder {
    const buf: bytes // The region given to the decoder.
    var offset: nat
    var cur: Hdr

    constructor (buf: bytes)
      ensures this.buf == buf && offset == 0
    {
      this.buf := buf;
      offset := 0;
      cur := Hdr(Tag(Invalid, false, 0), 0, 0);
    }

    // Moves to the next object of the region and reads its header.
    method Next() returns (r: HdrResult)
      modifies this
      ensures old(offset) >= |buf| ==> r == Failed(DatoEnd)
      ensures old(offset) < |buf| ==> r == HdrRead(buf[old(offset)..])
      ensures r.Read? ==> cur == r.hdr && offset == old(offset) + r.hdr.size + r.hdr.len
      ensures !r.Read? ==> offset == old(offset)
    {
      if offset >= |buf| {
        return Failed(DatoEnd);
      }
      r := HdrPrs(buf[offset..]);
      if r.Read? {
        cur := r.hdr;
        offset := offset + r.hdr.size + r.hdr.len;
      }
    }

    // The current object: its header and a decoder for its value.
    method Cur() returns (ret: Ret, hdr: Hdr, value: Decoder?)
      requires cur.len <= offset <= |buf|
      ensures ret == if offset == 0 then Error else Success
      ensures ret.Success? ==>
        && hdr == cur && value != null && fresh(value)
        && value.offset == 0 && value.buf == buf[offset - cur.len..offset]
    {
      hdr, value := cur, null;
      if offset == 0 {
        return Error, hdr, value;
      }
      value := new Decoder(buf[offset - cur.len..offset]);
      ret := Success;
    }
  }

  // What a caller that follows `Next` and `Cur` through a region rebuilds.
  function Walk(b: bytes): Option<seq<Tlv>>
    decreases |b|, 3
  {
    if b == [] then Some([]) else WalkFrom(b, HdrRead(b))
  }

  // The walk once the first header was read.
  function WalkFrom(b: bytes, r: HdrResult): Option<seq<Tlv>>
    requires r.Read? ==> 2 <= r.hdr.size
    decreases |b|, 2
  {
    if !r.Read? || r.hdr.size + r.hdr.len > |b| then None
    else
      var n := r.hdr.size + r.hdr.len;
      match Object(r.hdr.tag, b[r.hdr.size..n])
      case None => None
      case Some(t) => Prepend([t], Walk(b[n..]))
  }

  function Object(tag: Tag, val: bytes): Option<Tlv>
    decreases |val|, 4
  {
    if !tag.pc then Some(Prim(tag.cla, tag.num, val))
    else
      match Walk(val)
      case None => None
      case Some(kids) => Some(Constr(tag.cla, tag.num, kids))
  }

  function Prepend(done: seq<Tlv>, rest: Option<seq<Tlv>>): Option<seq<Tlv>> {
    if rest == None then None else Some(done + rest.value)
  }

  lemma PrependNone(rest: Option<seq<Tlv>>)
    ensures Prepend([], rest) == rest
  {
    if rest.Some? {
      assert [] + rest.value == rest.value;
    }
  }

  lemma PrependMore(done: seq<Tlv>, t: Tlv, rest: Option<seq<Tlv>>)
    ensures Prepend(done + [t], rest) == Prepend(done, Prepend([t], rest))
  {
    if rest.Some? {
      assert done + [t] + rest.value == done + ([t] + rest.value);
    }
  }

  lemma WalkStep(b: bytes, hdr: Hdr, val: bytes, next: bytes, t: Option<Tlv>)
    requires HdrRead(b) == Read(hdr) && hdr.size + hdr.len <= |b|
    requires val == b[hdr.size..hdr.size + hdr.len] && next == b[hdr.size + hdr.len..]
    requires t == Object(hdr.tag, val)
    ensures Walk(b) == if t == None then None else Prepend([t.value], Walk(next))
  {
    WalkFromStep(b, hdr, val, next, t);
  }

  lemma WalkFromStep(b: bytes, hdr: Hdr, val: bytes, next: bytes, t: Option<Tlv>)
    requires 2 <= hdr.size && hdr.size + hdr.len <= |b|
    requires val == b[hdr.size..hdr.size + hdr.len] && next == b[hdr.size + hdr.len..]
    requires t == Object(hdr.tag, val)
    ensures WalkFrom(b, Read(hdr)) == if t == None then None else Prepend([t.value], Walk(next))
  {}

  lemma WalkStops(b: bytes)
    requires b != []
    requires !HdrRead(b).Read? || HdrRead(b).hdr.size + HdrRead(b).hdr.len > |b|
    ensures Walk(b) == None
  {}

  // The recursion a caller builds from `Next` and `Cur`; every object of the region is
  // visited once and the walk ends with DATO_END exactly at the end of the region.
  method Rebuild(dec: Decoder) returns (ts: Option<seq<Tlv>>)
    requires dec.offset == 0
    modifies dec
    ensures ts == Walk(dec.buf)
    ensures ts.Some? ==> dec.offset == |dec.buf|
    decreases |dec.buf|, 2
  {
    var done: seq<Tlv> := [];
    ghost var left := dec.buf;
    PrependNone(Walk(left));
    while true
      invariant dec.offset <= |dec.buf| && left == dec.buf[dec.offset..]
      invariant Walk(dec.buf) == Prepend(done, Walk(left))
      decreases |left|
    {
      ghost var next;
      var end, t;
      end, t, next := RebuildNext(dec, left);
      if end {
        assert done + [] == done;
        return Some(done);
      }
      if t == None {
        return None;
      }
      PrependMore(done, t.value, Walk(next));
      done, left := done + [t.value], next;
    }
  }

  method RebuildNext(dec: Decoder, ghost left: bytes) returns (end: bool, t: Option<Tlv>, ghost next: bytes)
    requires dec.offset <= |dec.buf| && left == dec.buf[dec.offset..]
    modifies dec
    ensures end <==> left == []
    ensures end ==> dec.offset == |dec.buf|
    ensures !end && t == None ==> Walk(left) == None
    ensures !end && t.Some? ==>
      && dec.offset <= |dec.buf| && next == dec.buf[dec.offset..] && |next| < |left|
      && Walk(left) == Prepend([t.value], Walk(next))
    decreases |dec.buf|, 1
  {
    end, t, next := false, None, [];
    var r := dec.Next();
    if r == Failed(DatoEnd) && dec.offset >= |dec.buf| {
      end := true;
    } else if !r.Read? || dec.offset > |dec.buf| {
      WalkStops(left);
    } else {
      ghost var hdr := r.hdr;
      ghost var val := left[hdr.size..hdr.size + hdr.len];
      next := left[hdr.size + hdr.len..];
      SliceOfRest(dec.buf, dec.offset - hdr.len - hdr.size, hdr.size, hdr.size + hdr.len);
      t := RebuildCur(dec, val);
      WalkStep(left, hdr, val, next, t);
    }
  }

  method RebuildCur(dec: Decoder, ghost val: bytes) returns (t: Option<Tlv>)
    requires dec.cur.len < dec.offset <= |dec.buf|
    requires val == dec.buf[dec.offset - dec.cur.len..dec.offset]
    ensures t == Object(dec.cur.tag, val)
    decreases |dec.buf|, 0
  {
    var ret, hdr, value := dec.Cur();
    if !hdr.tag.pc {
      return Some(Prim(hdr.tag.cla, hdr.tag.num, value.buf));
    }
    var kids := Rebuild(value);
    t := if kids == None then None else Some(Constr(hdr.tag.cla, hdr.tag.num, kids.value));
  }

  // ----- On which encodings the decoder agrees with the encoder -----

  // The groups of a two group tag number are read in the wrong order, which only goes
  // unnoticed when they are equal; a length above 127 is never read right.
  predicate TagNumReadable(num: nat) { num <= 127 || num % 129 == 0 }

  ghost predicate Readable(t: Tlv) {
    && TagNumReadable(t.num) && |Value(t)| <= 127
    && (t.Constr? ==> ReadableAll(t.kids))
  }

  ghost predicate ReadableAll(ts: seq<Tlv>) {
    forall i :: 0 <= i < |ts| ==> Readable(ts[i])
  }

  lemma GroupsEqual(num: nat)
    requires 127 < num < TAG_NUM_LIMIT
    ensures num % 128 == num / 128 <==> num % 129 == 0
  {
    var hi, lo := num / 128, num % 128;
    assert num == 129 * hi + (lo - hi);
    if lo >= hi {
      assert num % 129 == lo - hi;
    } else {
      assert num == 129 * (hi - 1) + (129 + lo - hi);
      assert num % 129 == 129 + lo - hi;
    }
  }

  lemma FirstOctet(tag: Tag, low: nat)
    ensures var first := 64 * ClassBits(tag.cla) + (if tag.pc then 32 else 0) + low;
      tag.cla != Invalid && low <= 31 ==>
        BitsClass(first / 64) == tag.cla && (first / 32 % 2 == 1 <==> tag.pc) && first % 32 == low
  {}

  lemma TagReadExactly(tag: Tag, rest: bytes)
    requires TagOk(tag)
    ensures var r := TagRead(TagOctets(tag) + rest);
      && r.Read? && r.hdr.size == |TagOctets(tag)|
      && (r.hdr.tag == tag <==> TagNumReadable(tag.num))
  {
    FirstOctet(tag, if tag.num <= 30 then tag.num else 31);
    if tag.num > 127 {
      LongTagRead(tag, TagOctets(tag), rest);
      GroupsEqual(tag.num);
    }
  }

  // Two groups, with the first one taken for the low one.
  lemma LongTagRead(tag: Tag, t: bytes, rest: bytes)
    requires tag.cla != Invalid && 127 < tag.num < TAG_NUM_LIMIT
    requires t == [64 * ClassBits(tag.cla) + (if tag.pc then 32 else 0) + 31, 128 + tag.num / 128, tag.num % 128]
    ensures TagRead(t + rest) == Read(Hdr(Tag(tag.cla, tag.pc, tag.num / 128 + 128 * (tag.num % 128)), 0, 3))
  {
    FirstOctet(tag, 31);
    assert (t + rest)[0] == t[0] && (t + rest)[1] == t[1] && (t + rest)[2] == t[2];
  }

  // What the octets can add up to, one step after the other.
  lemma LenBitsBound(b: bytes, lenLen: nat)
    requires lenLen <= 5
    ensures LenBits(b, lenLen, 0) == lenLen
    ensures |b| >= 1 ==> LenBits(b, lenLen, 1) < 0x100
    ensures |b| >= 2 ==> LenBits(b, lenLen, 2) < 0x8000
    ensures |b| >= 3 ==> LenBits(b, lenLen, 3) < 0x40_0000
    ensures |b| >= 4 ==> LenBits(b, lenLen, 4) < 0x2000_0000
  {
    assert Pow2(0) == 1 && Pow2(8) == 0x100;
    assert Pow2(7) == 128 && Pow2(15) == 0x8000;
    assert Pow2(14) == 16384 && Pow2(22) == 0x40_0000;
    assert Pow2(21) == 2097152 && Pow2(29) == 0x2000_0000;
    if |b| >= 1 {
      OrBound(lenLen, b[0] as int * Pow2(0), 8);
      assert LenBits(b, lenLen, 1) == Or(LenBits(b, lenLen, 0), b[0] as int * Pow2(0));
    }
    if |b| >= 2 {
      OrBound(LenBits(b, lenLen, 1), b[1] as int * Pow2(7), 15);
      assert LenBits(b, lenLen, 2) == Or(LenBits(b, lenLen, 1), b[1] as int * Pow2(7));
    }
    if |b| >= 3 {
      OrBound(LenBits(b, lenLen, 2), b[2] as int * Pow2(14), 22);
      assert LenBits(b, lenLen, 3) == Or(LenBits(b, lenLen, 2), b[2] as int * Pow2(14));
    }
    if |b| >= 4 {
      OrBound(LenBits(b, lenLen, 3), b[3] as int * Pow2(21), 29);
    }
  }

  lemma LongLenRead(len: nat, rest: bytes)
    requires 127 < len <= UINT32_MAX
    ensures var b := LenOctets(len) + rest;
      && LenOctets(len)[0] == b[0] > 128 && |b| >= b[0] - 128
      && LenBits(b[1..], b[0] - 128, b[0] - 128 - 1) < len
  {
    ToBeLength(len);
    LenBitsBound((LenOctets(len) + rest)[1..], |ToBe(len)|);
  }

  // The header of an encoding is read back right exactly on readable tags and short lengths.
  lemma HdrReadExactly(tag: Tag, len: nat, rest: bytes)
    requires TagOk(tag) && len <= UINT32_MAX
    ensures var r := HdrRead(HdrOctets(tag, len) + rest);
      && (r == Read(Hdr(tag, len, |HdrOctets(tag, len)|)) <==> TagNumReadable(tag.num) && len <= 127)
      && (r.Read? ==> (r.hdr.tag == tag <==> TagNumReadable(tag.num)))
      && (r.Read? && len > 127 ==> r.hdr.len < len)
  {
    TagReadExactly(tag, LenOctets(len) + rest);
    if len > 127 {
      LongLenRead(len, rest);
    }
    HdrReadOf(tag, len, TagOctets(tag), LenOctets(len), rest);
  }

  // The same on the tag octets `t` and the length octets `l`.
  lemma HdrReadOf(tag: Tag, len: nat, t: bytes, l: bytes, rest: bytes)
    requires t != [] && l != [] && TagRead(t + (l + rest)).Read? && TagRead(t + (l + rest)).hdr.size == |t|
    requires TagRead(t + (l + rest)).hdr.tag == tag <==> TagNumReadable(tag.num)
    requires if len <= 127 then l == [len] else
      && l[0] > 128 && |l + rest| >= l[0] - 128
      && LenBits((l + rest)[1..], l[0] - 128, l[0] - 128 - 1) < len
    ensures var r := HdrRead(t + l + rest);
      && (r == Read(Hdr(tag, len, |t| + |l|)) <==> TagNumReadable(tag.num) && len <= 127)
      && (r.Read? ==> (r.hdr.tag == tag <==> TagNumReadable(tag.num)))
      && (r.Read? && len > 127 ==> r.hdr.len < len)
  {
    Assoc(t, l, rest);
    var b := t + (l + rest);
    assert b[|t|] == l[0] && b[|t| + 1..] == (l + rest)[1..];
  }

  // Whatever the walk rebuilds, the encoder would not need more room for it.
  lemma HdrNoLonger(b: bytes)
    requires HdrRead(b).Read?
    ensures |HdrOctets(HdrRead(b).hdr.tag, HdrRead(b).hdr.len)| <= HdrRead(b).hdr.size
  {
    var n := TagRead(b).hdr.size;
    TagNoLonger(b);
    if b[n] >= 128 {
      LenNoLonger(b[n + 1..], b[n] as int - 128);
    }
  }

  lemma TagNoLonger(b: bytes)
    requires b != [] && TagRead(b).Read?
    ensures |TagOctets(TagRead(b).hdr.tag)| <= TagRead(b).hdr.size
  {
    TagSize(TagRead(b).hdr.tag);
  }

  lemma TagSize(tag: Tag)
    ensures |TagOctets(tag)| == if tag.num <= 30 then 1 else if tag.num % TAG_NUM_LIMIT < 128 then 2 else 3
    ensures tag.num < 128 ==> |TagOctets(tag)| <= 2
  {}

  lemma LenNoLonger(b: bytes, lenLen: nat)
    requires 1 <= lenLen <= 5 && lenLen - 1 <= |b|
    ensures |LenOctets(LenBits(b, lenLen, lenLen - 1))| <= lenLen
  {
    LenBitsBound(b, lenLen);
    ToBeLength(LenBits(b, lenLen, lenLen - 1));
  }

  lemma {:induction false} WalkNoLonger(b: bytes)
    requires Walk(b).Some?
    ensures |EncodeAll(Walk(b).value)| <= |b|
    decreases |b|
  {
    if b != [] {
      var hdr, t, ts := WalkSplits(b);
      var val, rest := b[hdr.size..hdr.size + hdr.len], b[hdr.size + hdr.len..];
      HdrNoLonger(b);
      WalkNoLonger(rest);
      if hdr.tag.pc {
        WalkNoLonger(val);
      }
      ObjectValue(hdr.tag, val, t);
      HdrShorter(hdr.tag, |Value(t)|, hdr.len);
      assert ([t] + ts)[1..] == ts;
    }
  }

  // What a walk that rebuilt something went through first.
  lemma WalkSplits(b: bytes) returns (hdr: Hdr, t: Tlv, ts: seq<Tlv>)
    requires Walk(b).Some? && b != []
    ensures HdrRead(b) == Read(hdr) && hdr.size + hdr.len <= |b|
    ensures Object(hdr.tag, b[hdr.size..hdr.size + hdr.len]) == Some(t)
    ensures Walk(b[hdr.size + hdr.len..]) == Some(ts) && Walk(b) == Some([t] + ts)
  {
    hdr := HdrRead(b).hdr;
    t := Object(hdr.tag, b[hdr.size..hdr.size + hdr.len]).value;
    ts := Walk(b[hdr.size + hdr.len..]).value;
  }

  lemma ObjectValue(tag: Tag, val: bytes, t: Tlv)
    requires Object(tag, val) == Some(t)
    ensures t.GetTag() == tag
    ensures if tag.pc then Walk(val).Some? && Value(t) == EncodeAll(Walk(val).value) else Value(t) == val
  {}

  lemma HdrShorter(tag: Tag, len: nat, bound: nat)
    requires len <= bound
    ensures |HdrOctets(tag, len)| <= |HdrOctets(tag, bound)|
  {
    ToBeMono(len, bound);
  }

  lemma {:induction false} ToBeMono(m: nat, n: nat)
    requires m <= n
    ensures |ToBe(m)| <= |ToBe(n)|
  {
    if m > 0 {
      ToBeMono(m / 256, n / 256);
    }
  }

  lemma PrependOne(t: Tlv, ts: seq<Tlv>, rest: Option<seq<Tlv>>)
    requires ts != [] && ts[0] == t
    ensures Prepend([t], rest) == Some(ts) <==> rest == Some(ts[1..])
  {
    if rest.Some? {
      assert ([t] + rest.value)[1..] == rest.value;
      assert [t] + ts[1..] == ts;
    }
  }

  // A first header that is misread cannot be made up for by what follows.
  lemma HeaderUnread(t: Tlv, rest: bytes, ts: seq<Tlv>)
    requires Fits(t) && (!TagNumReadable(t.num) || |Value(t)| > 127)
    ensures Walk(HdrOctets(t.GetTag(), |Value(t)|) + (Value(t) + rest)) != Some([t] + ts)
  {
    var v := Value(t);
    var b := HdrOctets(t.GetTag(), |v|) + (v + rest);
    HdrReadExactly(t.GetTag(), |v|, v + rest);
    if Walk(b) == Some([t] + ts) {
      var hdr, first, more := WalkSplits(b);
      assert first == ([first] + more)[0] == ([t] + ts)[0] == t;
      ObjectNoLonger(hdr.tag, b[hdr.size..hdr.size + hdr.len]);
      assert false;
    }
  }

  lemma ObjectNoLonger(tag: Tag, val: bytes)
    requires Object(tag, val).Some?
    ensures Object(tag, val).value.GetTag() == tag && |Value(Object(tag, val).value)| <= |val|
  {
    if tag.pc {
      WalkNoLonger(val);
    }
  }

  lemma HeaderRead(t: Tlv, rest: bytes)
    requires Fits(t) && TagNumReadable(t.num) && |Value(t)| <= 127
    ensures var v := Value(t);
      Walk(HdrOctets(t.GetTag(), |v|) + (v + rest)) ==
        match Object(t.GetTag(), v)
        case None => None
        case Some(t') => Prepend([t'], Walk(rest))
  {
    var v := Value(t);
    var h := HdrOctets(t.GetTag(), |v|);
    HdrReadExactly(t.GetTag(), |v|, v + rest);
    Middle(h, v, rest);
    WalkStep(h + (v + rest), Hdr(t.GetTag(), |v|, |h|), v, rest, Object(t.GetTag(), v));
  }

  // The walk rebuilds exactly the lists of readable trees: tag numbers up to 127 (or with
  // two equal groups) and values of at most 127 bytes, at every level.
  lemma {:induction false} WalkExactly(ts: seq<Tlv>)
    requires FitsAll(ts)
    ensures Walk(EncodeAll(ts)) == Some(ts) <==> ReadableAll(ts)
  {
    if ts != [] {
      var t, rest := ts[0], EncodeAll(ts[1..]);
      assert ts == [t] + ts[1..];
      FirstObject(ts);
      WalkExactly(ts[1..]);
      if TagNumReadable(t.num) && |Value(t)| <= 127 {
        HeaderRead(t, rest);
        if t.Constr? {
          WalkExactly(t.kids);
        }
        PrependOne(t, ts, Walk(rest));
      } else {
        HeaderUnread(t, rest, ts[1..]);
      }
    }
  }
}
