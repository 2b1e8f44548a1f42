// The response chaining buffer: SELECT leaves its response here, GET RESPONSE takes it out
// in pieces (ISO/IEC 7816-4:2020 clause 5.3.4).
module ApduRc {
  import opened Bytes
  import opened Memory

  const DATA_MAX: nat := 256

  // What was put in since the last reset, and how much of it was taken out again.
  datatype Queue = Queue(data: bytes, taken: nat) {
    predicate Ok() { taken <= |data| <= DATA_MAX }

    function Left(): bytes
      requires Ok()
    {
      data[taken..]
    }
  }

  const EMPTY: Queue := Queue([], 0)

  // Space is not freed by taking data out.
  function Enq(q: Queue, d: bytes): (Ret, Queue) {
    if |q.data| + |d| > DATA_MAX then (BufferTooShort, q) else (Success, q.(data := q.data + d))
  }

  function Deq(q: Queue, n: nat): (r: (Ret, Queue))
    requires q.Ok()
    ensures r.1.Ok()
  {
    if n <= |q.data| - q.taken then (Success, q.(taken := q.taken + n)) else (BufferTooShort, q)
  }

  // Taking out and then the rest is the whole of what was left.
  lemma DeqSplits(q: Queue, n: nat)
    requires q.Ok() && n <= |q.Left()|
    ensures Deq(q, n).0 == Success
    ensures q.data[q.taken..q.taken + n] + Deq(q, n).1.Left() == q.Left()
  {}

  class Buffer {
    const b: array<byte>
    var len: nat
    var offset: nat

    ghost predicate Valid()
      reads this
    {
      offset <= len <= b.Length == DATA_MAX
    }

    ghost function Now(): Queue
      reads this, b
      requires Valid()
    {
      Queue(b[..len], offset)
    }

    constructor ()
      ensures Valid() && Now() == EMPTY && fresh(b)
    {
      b := new byte[DATA_MAX](_ => 0);
      len, offset := 0, 0;
    }

    method Reset()
      requires Valid()
      modifies this, b
      ensures Valid() && Now() == EMPTY
    {
      Fill(b, 0, b.Length, 0);
      len, offset := 0, 0;
    }

    method Enqueue(buf: bytes) returns (ret: Ret)
      requires Valid()
      modifies this`len, b
      ensures Valid() && (ret, Now()) == Enq(old(Now()), buf)
    {
      if len + |buf| > b.Length {
        return BufferTooShort;
      }
      CopyInto(b, len, buf);
      SpliceIs(old(b[..]), len, buf);
      len := len + |buf|;
      ret := Success;
    }

    // Moves `n` bytes to `buf`; when there are fewer, `n` is set to how many there are.
    method Dequeue(buf: array<byte>, n: nat) returns (ret: Ret, m: nat)
      requires Valid() && buf != b && n <= buf.Length
      modifies this`offset, buf
      ensures Valid() && (ret, Now()) == Deq(old(Now()), n)
      ensures ret == Success ==> m == n && buf[..] == Splice(old(buf[..]), 0, old(Now()).Left()[..n])
      ensures ret != Success ==> m == |old(Now()).Left()| && buf[..] == old(buf[..])
    {
      var rem := len - offset;
      if n <= rem {
        CopyInto(buf, 0, b[offset..offset + n]);
        assert Now().Left()[..n] == b[offset..offset + n];
        offset := offset + n;
        return Success, n;
      }
      ret, m := BufferTooShort, rem;
    }

    method LenRem() returns (n: nat)
      requires Valid()
      ensures n == |Now().Left()|
    {
      n := len - offset;
    }
  }
}
