// The protocol and parameter selection exchange (ISO/IEC 7816-3:2006 clause 9): parsing a
// request, forming the response, and when the two agree.
module Pps {
  import opened Bytes
  import opened Memory

  const PPSS: byte := 0xFF
  const PPS_LEN_MAX: nat := 6
  const CONF_DEFAULT: nat := 1

  // ----- The check byte -----

  // Bit by bit, without carry.
  function Xor(a: nat, b: nat): nat
    decreases a + b
  {
    if a == 0 && b == 0 then 0 else 2 * Xor(a / 2, b / 2) + (a + b) % 2
  }

  lemma XorStep(a: nat, b: nat)
    ensures Xor(a, b) / 2 == Xor(a / 2, b / 2) && Xor(a, b) % 2 == (a + b) % 2
  {}

  lemma {:induction false} XorCommutes(a: nat, b: nat)
    ensures Xor(a, b) == Xor(b, a)
    decreases a + b
  {
    if a + b > 0 {
      XorCommutes(a / 2, b / 2);
    }
  }

  lemma {:induction false} XorZero(a: nat)
    ensures Xor(a, 0) == a && Xor(0, a) == a && Xor(a, a) == 0
  {
    if a > 0 {
      XorZero(a / 2);
      assert (a + a) % 2 == 0;
    }
  }

  lemma {:induction false} XorAssoc(a: nat, b: nat, c: nat)
    ensures Xor(Xor(a, b), c) == Xor(a, Xor(b, c))
    decreases a + b + c
  {
    if a + b + c > 0 {
      XorAssoc(a / 2, b / 2, c / 2);
      XorStep(a, b);
      XorStep(b, c);
      XorStep(Xor(a, b), c);
      XorStep(a, Xor(b, c));
      ParityAssoc(a, b, c, Xor(a, b), Xor(b, c));
    }
  }

  lemma ParityAssoc(a: nat, b: nat, c: nat, x: nat, y: nat)
    requires x % 2 == (a + b) % 2 && y % 2 == (b + c) % 2
    ensures (x + c) % 2 == (a + y) % 2
  {}

  lemma {:induction false} XorBound(a: nat, b: nat, k: nat)
    requires a < Pow2(k) && b < Pow2(k)
    ensures Xor(a, b) < Pow2(k)
    decreases k
  {
    if k > 0 && a + b > 0 {
      XorBound(a / 2, b / 2, k - 1);
    }
  }

  function XorByte(a: byte, b: byte): (r: byte)
    ensures r == 0 <==> a == b
  {
    assert Pow2(8) == 256;
    XorBound(a, b, 8);
    XorEqual(a, b);
    Xor(a, b)
  }

  lemma {:induction false} XorEqual(a: nat, b: nat)
    ensures Xor(a, b) == 0 <==> a == b
    decreases a + b
  {
    if a + b > 0 {
      XorEqual(a / 2, b / 2);
      XorStep(a, b);
      SameHalves(a, b);
    }
  }

  lemma SameHalves(a: nat, b: nat)
    ensures a == b <==> a / 2 == b / 2 && (a + b) % 2 == 0
  {
    var p, q := a % 2, b % 2;
    assert (a + b) % 2 == (p + q) % 2;
    if a / 2 == b / 2 {
      assert a - b == p - q;
    }
  }

  // The exclusive or of all bytes.
  function Ck(s: bytes): byte {
    if s == [] then 0 else XorByte(Ck(s[..|s| - 1]), s[|s| - 1])
  }

  // `swicc_ck`.
  method Check(s: bytes) returns (tck: byte)
    ensures tck == Ck(s)
  {
    tck := 0;
    var i := 0;
    while i < |s|
      invariant 0 <= i <= |s| && tck == Ck(s[..i])
    {
      assert s[..i + 1][..i] == s[..i];
      tck := XorByte(tck, s[i]);
      i := i + 1;
    }
    assert s[..i] == s;
  }

  // A byte at the end makes the check come out as zero exactly when it is the check of the rest.
  lemma CkExactly(s: bytes, last: byte)
    ensures Ck(s + [last]) == 0 <==> last == Ck(s)
  {
    assert (s + [last])[..|s|] == s;
  }

  lemma {:induction false} CkConcat(a: bytes, b: bytes)
    ensures Ck(a + b) == XorByte(Ck(a), Ck(b))
    decreases |b|
  {
    if b == [] {
      assert a + b == a;
      XorZero(Ck(a));
    } else {
      var front, last := b[..|b| - 1], b[|b| - 1];
      assert (a + b)[..|a + b| - 1] == a + front;
      CkConcat(a, front);
      XorAssoc(Ck(a), Ck(front), last);
    }
  }

  // The bit with weight 2^k.
  function BitOf(n: nat, k: nat): nat { if k == 0 then n % 2 else BitOf(n / 2, k - 1) }

  // How many of the bytes have it.
  function Ones(s: bytes, k: nat): nat { if s == [] then 0 else Ones(s[..|s| - 1], k) + BitOf(s[|s| - 1], k) }

  lemma {:induction false} XorBit(a: nat, b: nat, k: nat)
    ensures BitOf(Xor(a, b), k) == (BitOf(a, k) + BitOf(b, k)) % 2
    decreases k
  {
    XorStep(a, b);
    if k > 0 {
      XorBit(a / 2, b / 2, k - 1);
    }
  }

  // Each bit of the check byte tells whether an odd number of the bytes have it.
  lemma {:induction false} CkBit(s: bytes, k: nat)
    ensures BitOf(Ck(s), k) == Ones(s, k) % 2
  {
    if s == [] {
      ZeroBit(k);
    } else {
      CkBit(s[..|s| - 1], k);
      XorBit(Ck(s[..|s| - 1]), s[|s| - 1], k);
    }
  }

  lemma {:induction false} ZeroBit(k: nat)
    ensures BitOf(0, k) == 0
  {
    if k > 0 {
      ZeroBit(k - 1);
    }
  }

  lemma {:induction false} SomeBit(n: nat, k: nat) returns (i: nat)
    requires 0 < n < Pow2(k)
    ensures i < k && BitOf(n, i) != 0
  {
    if n % 2 == 1 {
      i := 0;
    } else {
      var j := SomeBit(n / 2, k - 1);
      i := j + 1;
    }
  }

  // Every bit is set in an even number of the bytes.
  ghost predicate Even(s: bytes) { forall k :: 0 <= k < 8 ==> Ones(s, k) % 2 == 0 }

  // That is when they check to zero.
  lemma CkZero(s: bytes)
    ensures Ck(s) == 0 <==> Even(s)
  {
    assert Pow2(8) == 256;
    if Ck(s) == 0 {
      forall k | 0 <= k < 8
        ensures Ones(s, k) % 2 == 0
      {
        CkBit(s, k);
        ZeroBit(k);
      }
    } else {
      var k := SomeBit(Ck(s), 8);
      CkBit(s, k);
      assert Ones(s, k) % 2 != 0;
    }
  }

  // ----- Requests and responses -----

  datatype Params = Params(t: byte, fi: byte, di: byte, spu: byte) {
    predicate Ok() { fi < 16 && di < 16 }
  }

  predicate Bit(b: byte, mask: nat)
    requires mask > 0
  {
    b as nat / mask % 2 == 1
  }

  // Bits 5 to 7 of PPS0 say which of PPS1 to PPS3 there are.
  function LenOf(pps0: byte): nat {
    3 + (if Bit(pps0, 16) then 1 else 0) + (if Bit(pps0, 32) then 1 else 0) + (if Bit(pps0, 64) then 1 else 0)
  }

  // `swicc_pps_len`.
  function PpsLen(pps: bytes): (r: Option<nat>)
    ensures r.Some? ==> 3 <= r.value <= PPS_LEN_MAX
  {
    if |pps| < 2 || pps[0] != PPSS then None else Some(LenOf(pps[1]))
  }

  // The bytes after PPS0 taken one after the other, as far as they go.
  function ParseFrom(rx: bytes, i: nat, next: nat, p: Params): (r: Option<Params>)
    requires 2 <= next && 1 <= i <= 4 && 2 <= |rx|
    ensures r.Some? && p.Ok() ==> r.value.Ok()
    decreases 4 - i
  {
    if i == 4 then Some(p)
    else if !Bit(rx[1], [16, 32, 64][i - 1]) then ParseFrom(rx, i + 1, next, p)
    else if next >= |rx| then None
    else if i == 1 then ParseFrom(rx, 2, next + 1, p.(fi := rx[next] % 16, di := rx[next] / 16))
    else if i == 2 then ParseFrom(rx, 3, next + 1, p.(spu := rx[next]))
    else if rx[next] != 0 then None
    else ParseFrom(rx, 4, next + 1, p)
  }

  function Parse(rx: bytes, p: Params): (r: Option<Params>)
    ensures r.Some? ==> 2 <= |rx| <= PPS_LEN_MAX && (p.Ok() ==> r.value.Ok())
  {
    if |rx| < 2 || |rx| > PPS_LEN_MAX || rx[0] != PPSS || Ck(rx) != 0 || rx[1] >= 128 then None
    else
      match ParseFrom(rx, 1, 2, p)
      case None => None
      case Some(q) => Some(q.(t := rx[1] % 16))
  }

  // `pps_parse`.
  method ParseReq(rx: bytes, p: Params) returns (r: Option<Params>)
    ensures r == Parse(rx, p)
  {
    if |rx| < 2 || |rx| > PPS_LEN_MAX || rx[0] != PPSS {
      return None;
    }
    var ck := Check(rx);
    if ck != 0 || rx[1] >= 128 {
      return None;
    }
    var pps0, q, next, mask, i := rx[1], p, 2, 16, 1;
    while i <= 3
      invariant 1 <= i <= 4 && 2 <= next && mask == [16, 32, 64, 128][i - 1]
      invariant ParseFrom(rx, 1, 2, p) == ParseFrom(rx, i, next, q)
    {
      if Bit(pps0, mask) {
        if next >= |rx| {
          return None;
        }
        var ppsi := rx[next];
        next := next + 1;
        match i
        case 1 => q := q.(fi := ppsi % 16, di := ppsi / 16);
        case 2 => q := q.(spu := ppsi);
        case _ =>
          if ppsi != 0 {
            return None;
          }
      }
      mask, i := mask * 2, i + 1;
    }
    r := Some(q.(t := pps0 % 16));
  }

  // PPS1 is repeated unless it proposes the default values, which need no agreement.
  predicate Repeats1(p: Params, pps0: byte) { Bit(pps0, 16) && !(p.fi == CONF_DEFAULT && p.di == CONF_DEFAULT) }

  // The response without its check byte.
  function Body(p: Params, pps0: byte): bytes
    requires p.Ok()
  {
    [PPSS, if Bit(pps0, 16) && !Repeats1(p, pps0) then pps0 - 16 else pps0]
    + When(Repeats1(p, pps0), 16 * p.di + p.fi) + When(Bit(pps0, 32), p.spu) + When(Bit(pps0, 64), 0)
  }

  function Response(p: Params, pps0: byte): bytes
    requires p.Ok()
  {
    Body(p, pps0) + [Ck(Body(p, pps0))]
  }

  method BuildBody(p: Params, pps0: byte) returns (ppsi: bytes)
    requires p.Ok()
    ensures ppsi == Body(p, pps0) && |ppsi| <= 5
  {
    ppsi := [PPSS, pps0];
    if (p.fi == CONF_DEFAULT && p.di == CONF_DEFAULT) || !Bit(pps0, 16) {
      ppsi := [PPSS, if Bit(pps0, 16) then pps0 - 16 else pps0];
    } else {
      ppsi := ppsi + [16 * p.di + p.fi];
    }
    if Bit(pps0, 32) {
      ppsi := ppsi + [p.spu];
    }
    if Bit(pps0, 64) {
      ppsi := ppsi + [0];
    }
  }

  // `pps_deparse`: the check byte is not counted when the room is checked.
  method Deparse(p: Params, pps0: byte, tx: array<byte>, cap: nat) returns (ret: Ret, n: nat)
    requires p.Ok() && cap <= tx.Length && PPS_LEN_MAX <= tx.Length
    modifies tx
    ensures ret == if |Body(p, pps0)| > cap then BufferTooShort else Success
    ensures ret == Success ==> n == |Response(p, pps0)| <= cap + 1 && n <= PPS_LEN_MAX && tx[..n] == Response(p, pps0)
    ensures ret != Success ==> n == cap && tx[..] == old(tx[..])
  {
    var ppsi := BuildBody(p, pps0);
    if |ppsi| > cap {
      return BufferTooShort, cap;
    }
    var ck := Check(ppsi);
    ppsi := ppsi + [ck];
    CopyInto(tx, 0, ppsi);
    SpliceReads(old(tx[..]), 0, ppsi);
    ret, n := Success, |ppsi|;
  }

  // What becomes of a request: the return code and what is sent back.
  function Exchange(rx: bytes, p: Params, cap: nat): (Ret, bytes)
    requires p.Ok()
  {
    match Parse(rx, p)
    case None => (PpsInvalid, [])
    case Some(q) =>
      if |Body(q, rx[1])| > cap then (BufferTooShort, [])
      else (if Response(q, rx[1]) == rx then Success else PpsFailed, Response(q, rx[1]))
  }

  // `swicc_pps`.
  method Negotiate(p: Params, rx: bytes, tx: array<byte>, cap: nat)
    returns (ret: Ret, q: Params, n: nat, ghost e: (Ret, bytes))
    requires p.Ok() && cap <= tx.Length && PPS_LEN_MAX <= tx.Length
    modifies tx
    ensures e == Exchange(rx, p, cap) && ret == e.0
    ensures ret == Success || ret == PpsFailed ==> n <= cap + 1 && n <= PPS_LEN_MAX && tx[..n] == e.1
    ensures ret == PpsInvalid ==> e.1 == []
    ensures ret == PpsInvalid || ret == BufferTooShort ==> n == cap && tx[..] == old(tx[..])
  {
    e := Exchange(rx, p, cap);
    var r := ParseReq(rx, p);
    if r.None? {
      return PpsInvalid, p, cap, e;
    }
    q := r.value;
    ret, n := Deparse(q, rx[1], tx, cap);
    if ret != Success {
      return;
    }
    if tx[..n] != rx {
      ret := PpsFailed;
    }
  }

  // ----- When an exchange succeeds -----

  // How many bytes there are before PPS2.
  function To2(pps0: byte): nat { if Bit(pps0, 16) then 3 else 2 }

  predicate WellFormed(rx: bytes) {
    && 2 <= |rx| <= PPS_LEN_MAX && rx[0] == PPSS && Ck(rx) == 0 && rx[1] < 128
    && |rx| >= LenOf(rx[1]) - 1 && (Bit(rx[1], 64) ==> rx[LenOf(rx[1]) - 2] == 0)
  }

  // The parameters in a request, defaults where it has none.
  function Proposed(rx: bytes): (p: Params)
    requires |rx| >= 2 && |rx| >= LenOf(rx[1]) - 1
    ensures p.Ok()
  {
    Params(rx[1] % 16,
           if Bit(rx[1], 16) then rx[2] % 16 else CONF_DEFAULT,
           if Bit(rx[1], 16) then rx[2] / 16 else CONF_DEFAULT,
           if Bit(rx[1], 32) then rx[To2(rx[1])] else 0)
  }

  const DEFAULTS := Params(0, CONF_DEFAULT, CONF_DEFAULT, 0)

  lemma ParseIs(rx: bytes)
    ensures Parse(rx, DEFAULTS) == if WellFormed(rx) then Some(Proposed(rx)) else None
  {}

  // Both sides agree: the request is well-formed and proposes something other than the
  // default values, which the response would leave out.
  predicate Acceptable(rx: bytes) {
    && PpsLen(rx) == Some(|rx|) && rx[1] < 128 && Ck(rx) == 0
    && (Bit(rx[1], 64) ==> rx[|rx| - 2] == 0)
    && !(Bit(rx[1], 16) && rx[2] == 0x11)
  }

  // The response repeats the request up to its check byte, but for a PPS1 that proposes the
  // default values: that and its bit in PPS0 are left out.
  lemma BodyRepeats(rx: bytes)
    requires WellFormed(rx)
    ensures var body := Body(Proposed(rx), rx[1]);
      if Bit(rx[1], 16) && rx[2] == 0x11 then body == [0xFF, rx[1] - 0x10] + rx[3..LenOf(rx[1]) - 1]
      else body == rx[..LenOf(rx[1]) - 1]
  {
    if Bit(rx[1], 16) {
      assert rx[2] as int == 16 * (rx[2] / 16) as int + (rx[2] % 16) as int;
    }
  }

  lemma ExchangeIs(rx: bytes, cap: nat)
    ensures Exchange(rx, DEFAULTS, cap) ==
      if !WellFormed(rx) then (PpsInvalid, [])
      else
        var q := Proposed(rx);
        if |Body(q, rx[1])| > cap then (BufferTooShort, [])
        else (if Response(q, rx[1]) == rx then Success else PpsFailed, Response(q, rx[1]))
  {
    ParseIs(rx);
  }

  lemma BodySize(p: Params, pps0: byte)
    requires p.Ok()
    ensures |Body(p, pps0)| <= LenOf(pps0) - 1
  {}

  // Which requests are agreed to; the response is then the request.
  lemma ExchangeExactly(rx: bytes, cap: nat)
    ensures Exchange(rx, DEFAULTS, cap).0 == Success <==> Acceptable(rx) && |rx| <= cap + 1
    ensures Exchange(rx, DEFAULTS, cap).0 == Success ==>
      Exchange(rx, DEFAULTS, cap).1 == rx && Ck(rx) == 0 && PpsLen(rx) == Some(|rx|)
  {
    ExchangeIs(rx, cap);
    if WellFormed(rx) {
      BodyRepeats(rx);
      BodySize(Proposed(rx), rx[1]);
      ResponseIs(rx, Proposed(rx), LenOf(rx[1]) - 1);
    }
  }

  lemma ResponseIs(rx: bytes, q: Params, n: nat)
    requires q.Ok() && 2 <= n <= |rx| && n == LenOf(rx[1]) - 1 && Ck(rx) == 0
    requires if Bit(rx[1], 16) && rx[2] == 0x11 then Body(q, rx[1])[1] != rx[1] else Body(q, rx[1]) == rx[..n]
    ensures Response(q, rx[1]) == rx <==> |rx| == n + 1 && !(Bit(rx[1], 16) && rx[2] == 0x11)
  {
    var body := Body(q, rx[1]);
    assert Response(q, rx[1])[1] == body[1];
    if body == rx[..n] && |rx| == n + 1 {
      assert rx == rx[..n] + [rx[n]];
      CkExactly(rx[..n], rx[n]);
    }
  }

  // The same with nothing left to look up: how long the request is, what its bytes may be, and
  // that it checks.
  ghost predicate Agreeable(p: bytes) {
    && |p| >= 3 && p[0] == 0xFF && p[1] < 0x80
    && |p| == 3 + p[1] / 0x10 % 2 + p[1] / 0x20 % 2 + p[1] / 0x40 % 2
    && (p[1] / 0x40 % 2 == 1 ==> p[|p| - 2] == 0x00)
    && (p[1] / 0x10 % 2 == 1 ==> p[2] != 0x11)
    && Even(p)
  }

  lemma AcceptableExactly(p: bytes)
    ensures Acceptable(p) <==> Agreeable(p)
  {
    CkZero(p);
  }

  // A response always checks, and announces its own length.
  lemma ResponseChecks(p: Params, pps0: byte)
    requires p.Ok()
    ensures Ck(Response(p, pps0)) == 0 && PpsLen(Response(p, pps0)) == Some(|Response(p, pps0)|)
  {
    CkExactly(Body(p, pps0), Ck(Body(p, pps0)));
    LowBits(pps0);
  }

  lemma LowBits(b: byte)
    ensures b >= 16 && Bit(b, 16) ==>
      !Bit(b - 16, 16) && (Bit(b - 16, 32) <==> Bit(b, 32)) && (Bit(b - 16, 64) <==> Bit(b, 64))
  {}
}
