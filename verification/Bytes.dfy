// Bytes, return codes and the few integer encodings that every part of the card shares.
module Bytes {

  type byte = x: int | 0 <= x < 256
  type bytes = seq<byte>
  type u16 = x: int | 0 <= x < 65536

  const UINT32_MAX: int := 0xFFFF_FFFF

  datatype Option<+T> = None | Some(value: T)

  // The return codes the modelled functions can give back.
  datatype Ret =
    | Success
    | Error
    | ParamBad
    | BufferTooShort
    | ApduResInvalid
    | PpsInvalid
    | PpsFailed
    | FsNotFound
    | DatoEnd

  function Pow2(k: nat): nat {
    if k == 0 then 1 else 2 * Pow2(k - 1)
  }

  // One thing or nothing.
  function When<T>(c: bool, x: T): seq<T> { if c then [x] else [] }

  // ----- Sequence facts, stated once so that no larger proof has to find them -----

  lemma Assoc<T>(a: seq<T>, b: seq<T>, c: seq<T>)
    ensures a + b + c == a + (b + c)
  {}

  lemma Parts<T>(a: seq<T>, b: seq<T>)
    ensures (a + b)[..|a|] == a && (a + b)[|a|..] == b
  {}

  lemma Cut<T>(s: seq<T>, i: nat, j: nat)
    requires i <= j <= |s|
    ensures s == s[..i] + s[i..j] + s[j..]
  {}

  lemma Middle<T>(a: seq<T>, b: seq<T>, c: seq<T>)
    ensures (a + (b + c))[|a|..|a| + |b|] == b && (a + (b + c))[|a| + |b|..] == c
  {}

  lemma SliceOfRest<T>(s: seq<T>, i: nat, a: nat, b: nat)
    requires a <= b && i + b <= |s|
    ensures s[i..][a..b] == s[i + a..i + b] && s[i..][b..] == s[i + b..]
  {}

  // ----- Big-endian numbers (lengths inside BER-TLV headers) -----

  function FromBe(s: bytes): nat {
    if s == [] then 0 else 256 * FromBe(s[..|s| - 1]) + s[|s| - 1]
  }

  // The shortest big-endian representation: no leading zero byte.
  function ToBe(n: nat): bytes {
    if n == 0 then [] else ToBe(n / 256) + [n % 256]
  }

  lemma {:induction false} ToBeInverse(n: nat)
    ensures FromBe(ToBe(n)) == n
    ensures n > 0 ==> ToBe(n) != [] && ToBe(n)[0] != 0
  {
    if n > 0 {
      ToBeInverse(n / 256);
      assert ToBe(n)[..|ToBe(n)| - 1] == ToBe(n / 256);
    }
  }

  lemma {:induction false} FromBeInverse(s: bytes)
    requires s != [] ==> s[0] != 0
    ensures ToBe(FromBe(s)) == s
    ensures s != [] ==> FromBe(s) > 0
  {
    if s != [] {
      var front := s[..|s| - 1];
      FromBeInverse(front);
      assert s == front + [s[|s| - 1]];
    }
  }

  lemma ToBeLength(n: nat)
    ensures n < 0x1_0000_0000 <==> |ToBe(n)| <= 4
    ensures n < 0x100_0000 <==> |ToBe(n)| <= 3
    ensures n < 0x1_0000 <==> |ToBe(n)| <= 2
    ensures n < 0x100 <==> |ToBe(n)| <= 1
  {
    var a, b, c := n / 256, n / 65536, n / 16777216;
    assert a / 256 == b && b / 256 == c;
    assert n > 0 ==> |ToBe(n)| == |ToBe(a)| + 1;
    assert a > 0 ==> |ToBe(a)| == |ToBe(b)| + 1;
    assert b > 0 ==> |ToBe(b)| == |ToBe(c)| + 1;
    assert c > 0 ==> |ToBe(c)| == |ToBe(c / 256)| + 1;
  }
}
