// Writing a run of bytes into a buffer, as `memcpy` does, and what several such writes add
// up to.
module Memory {
  import opened Bytes

  // `s` with `d` written over it from index `at` on, one byte after the other.
  function Splice(s: bytes, at: nat, d: bytes): (r: bytes)
    requires at + |d| <= |s|
    ensures |r| == |s|
    decreases |d|
  {
    if d == [] then s else Splice(s[at := d[0]], at + 1, d[1..])
  }

  lemma {:induction false} SpliceIs(s: bytes, at: nat, d: bytes)
    requires at + |d| <= |s|
    ensures Splice(s, at, d) == s[..at] + d + s[at + |d|..]
    decreases |d|
  {
    if d != [] {
      SpliceIs(s[at := d[0]], at + 1, d[1..]);
    }
  }

  lemma SpliceTwice(s: bytes, at: nat, d: bytes, e: bytes)
    requires at + |d| + |e| <= |s|
    ensures Splice(Splice(s, at + |d|, e), at, d) == Splice(s, at, d + e)
  {
    SpliceIs(s, at + |d|, e);
    SpliceIs(Splice(s, at + |d|, e), at, d);
    SpliceIs(s, at, d + e);
  }

  // Only indices in [lo, hi) may differ.
  ghost predicate Untouched(before: bytes, after: bytes, lo: nat, hi: nat) {
    && |before| == |after|
    && forall i :: 0 <= i < |after| && !(lo <= i < hi) ==> after[i] == before[i]
  }

  lemma SpliceUntouched(s: bytes, at: nat, d: bytes)
    requires at + |d| <= |s|
    ensures Untouched(s, Splice(s, at, d), at, at + |d|)
  {
    SpliceIs(s, at, d);
  }

  method CopyInto(buf: array<byte>, at: nat, data: bytes)
    requires at + |data| <= buf.Length
    modifies buf
    ensures buf[..] == Splice(old(buf[..]), at, data)
  {
    forall i | 0 <= i < |data| {
      buf[at + i] := data[i];
    }
    SpliceIs(old(buf[..]), at, data);
  }

  method Fill(buf: array<byte>, at: nat, n: nat, b: byte)
    requires at + n <= buf.Length
    modifies buf
    ensures buf[..] == Splice(old(buf[..]), at, Repeat(b, n))
  {
    CopyInto(buf, at, Repeat(b, n));
  }

  function Repeat(b: byte, n: nat): (r: bytes)
    ensures |r| == n
  {
    seq(n, _ => b)
  }

  // Right behind an earlier write.
  lemma SpliceAfter(s: bytes, at: nat, d: bytes, e: bytes)
    requires at + |d| + |e| <= |s|
    ensures Splice(Splice(s, at, d), at + |d|, e) == Splice(s, at, d + e)
  {
    SpliceIs(s, at, d);
    SpliceIs(Splice(s, at, d), at + |d|, e);
    SpliceIs(s, at, d + e);
  }

  // Over the beginning of an earlier write.
  lemma SpliceHead(s: bytes, at: nat, d: bytes, e: bytes, d': bytes)
    requires |d'| == |d| && at + |d| + |e| <= |s|
    ensures Splice(Splice(s, at, d + e), at, d') == Splice(s, at, d' + e)
  {
    SpliceIs(s, at, d + e);
    SpliceIs(Splice(s, at, d + e), at, d');
    SpliceIs(s, at, d' + e);
  }

  lemma SpliceReads(s: bytes, at: nat, d: bytes)
    requires at + |d| <= |s|
    ensures Splice(s, at, d)[at..at + |d|] == d
  {
    SpliceIs(s, at, d);
  }
}
