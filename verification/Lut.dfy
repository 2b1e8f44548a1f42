// Lookup tables: two arrays kept side by side, ordered by the first one with binary-search
// insertion.  The fixed-size items of the flat C buffers are the elements of the arrays here.
module Lut {
  import opened Bytes

  datatype Entry = Entry(key: bytes, val: bytes)

  // `memcmp(a, b, n) < 0` on items of the same size.
  predicate MemLess(a: bytes, b: bytes) {
    if a == [] || b == [] then false
    else if a[0] != b[0] then a[0] < b[0]
    else MemLess(a[1..], b[1..])
  }

  lemma {:induction false} MemLessOrder(a: bytes, b: bytes, c: bytes)
    requires |a| == |b| == |c|
    ensures MemLess(a, b) || a == b || MemLess(b, a)
    ensures !(MemLess(a, b) && MemLess(b, a)) && !MemLess(a, a)
    ensures MemLess(a, b) && MemLess(b, c) ==> MemLess(a, c)
    ensures MemLess(a, b) && !MemLess(c, b) ==> MemLess(a, c)
  {
    if a != [] {
      MemLessOrder(a[1..], b[1..], c[1..]);
      assert a == [a[0]] + a[1..] && b == [b[0]] + b[1..];
    }
  }

  ghost predicate KeysOfSize(es: seq<Entry>, n: nat) {
    forall i :: 0 <= i < |es| ==> |es[i].key| == n
  }

  // Increasing order; equal keys may stand side by side.
  ghost predicate Sorted(es: seq<Entry>) {
    forall i, j :: 0 <= i < j < |es| ==> !MemLess(es[j].key, es[i].key)
  }

  // How many entries at the front are smaller than `key`.
  function LowerBound(es: seq<Entry>, key: bytes): (n: nat)
    ensures n <= |es|
  {
    if es == [] || !MemLess(es[0].key, key) then 0 else 1 + LowerBound(es[1..], key)
  }

  function Inserted(es: seq<Entry>, e: Entry): seq<Entry> {
    var p := LowerBound(es, e.key);
    es[..p] + [e] + es[p..]
  }

  // The value of the first entry with the key.
  function FirstMatch(es: seq<Entry>, key: bytes): Option<bytes> {
    if es == [] then None
    else if es[0].key == key then Some(es[0].val)
    else FirstMatch(es[1..], key)
  }

  lemma {:induction false} LowerBoundSplits(es: seq<Entry>, key: bytes)
    ensures var p := LowerBound(es, key);
      && (forall i :: 0 <= i < p ==> MemLess(es[i].key, key))
      && (p < |es| ==> !MemLess(es[p].key, key))
  {
    if es != [] && MemLess(es[0].key, key) {
      LowerBoundSplits(es[1..], key);
    }
  }

  lemma {:induction false} LowerBoundIs(es: seq<Entry>, key: bytes, p: nat)
    requires p <= |es| && forall i :: 0 <= i < p ==> MemLess(es[i].key, key)
    requires p < |es| ==> !MemLess(es[p].key, key)
    ensures LowerBound(es, key) == p
  {
    if p > 0 {
      assert MemLess(es[0].key, key);
      LowerBoundIs(es[1..], key, p - 1);
    }
  }

  // Insertion keeps the order.
  lemma InsertedSorted(es: seq<Entry>, e: Entry)
    requires Sorted(es) && KeysOfSize(es, |e.key|)
    ensures Sorted(Inserted(es, e)) && KeysOfSize(Inserted(es, e), |e.key|)
  {
    var p := LowerBound(es, e.key);
    LowerBoundSplits(es, e.key);
    forall i | 0 <= i < |es|
      ensures if i < p then !MemLess(e.key, es[i].key) else !MemLess(es[i].key, e.key)
    {
      if i < p {
        MemLessOrder(es[i].key, e.key, e.key);
      } else if i > p {
        MemLessOrder(es[i].key, e.key, es[p].key);
      }
    }
  }

  lemma {:induction false} FirstMatchConcat(a: seq<Entry>, b: seq<Entry>, key: bytes)
    ensures FirstMatch(a + b, key) == if FirstMatch(a, key).Some? then FirstMatch(a, key) else FirstMatch(b, key)
  {
    if a == [] {
      assert a + b == b;
    } else {
      assert (a + b)[1..] == a[1..] + b;
      FirstMatchConcat(a[1..], b, key);
    }
  }

  lemma {:induction false} NoMatch(es: seq<Entry>, key: bytes)
    requires forall i :: 0 <= i < |es| ==> es[i].key != key
    ensures FirstMatch(es, key) == None
  {
    if es != [] {
      assert es[0].key != key;
      NoMatch(es[1..], key);
    }
  }

  // A new entry hides the older ones with its key and no others: it stands in front of them.
  lemma InsertedLookup(es: seq<Entry>, e: Entry, key: bytes)
    requires KeysOfSize(es, |e.key|)
    ensures FirstMatch(Inserted(es, e), key) == if key == e.key then Some(e.val) else FirstMatch(es, key)
  {
    var p := LowerBound(es, e.key);
    LowerBoundSplits(es, e.key);
    forall i | 0 <= i < p
      ensures es[..p][i].key != e.key
    {
      MemLessOrder(es[i].key, e.key, e.key);
    }
    NoMatch(es[..p], e.key);
    FirstMatchConcat(es[..p] + [e], es[p..], key);
    FirstMatchConcat(es[..p], [e], key);
    FirstMatchConcat(es[..p], es[p..], key);
    assert es[..p] + es[p..] == es;
  }

  // The `memmove` and `memcpy` on one of the two arrays.
  method OpenSlot(a: array<bytes>, count: nat, start: nat, item: bytes)
    requires start <= count < a.Length
    modifies a
    ensures forall i :: 0 <= i < start ==> a[i] == old(a[i])
    ensures a[start] == item
    ensures forall i :: start < i <= count ==> a[i] == old(a[i - 1])
  {
    forall i | start < i <= count {
      a[i] := a[i - 1];
    }
    a[start] := item;
  }

  const COUNT_START: nat := 64
  const COUNT_RESIZE: nat := 8

  class Table {
    ghost var es: seq<Entry> // What the table holds, in order.
    var buf1: array<bytes>   // Keys.
    var buf2: array<bytes>   // Values.
    var count: nat
    const keySize: nat

    ghost predicate Holds()
      reads this, buf1, buf2
    {
      && buf1 != buf2 && buf1.Length == buf2.Length && |es| == count <= buf1.Length
      && forall i :: 0 <= i < count ==> es[i] == Entry(buf1[i], buf2[i])
    }

    ghost predicate Valid()
      reads this, buf1, buf2
    {
      Holds() && KeysOfSize(es, keySize) && Sorted(es)
    }

    ghost function Frame(): set<object>
      reads this
    {
      {this, buf1, buf2}
    }

    constructor (keySize: nat)
      ensures Valid() && es == [] && this.keySize == keySize && fresh(Frame())
    {
      this.keySize := keySize;
      count := 0;
      es := [];
      buf1 := new bytes[COUNT_START](_ => []);
      buf2 := new bytes[COUNT_START](_ => []);
    }

    method Grow()
      requires Valid()
      modifies this
      ensures Valid() && fresh(Frame() - {this}) && es == old(es)
      ensures count < buf1.Length && count == old(count)
    {
      var a := new bytes[buf1.Length + COUNT_RESIZE](_ => []);
      var b := new bytes[buf1.Length + COUNT_RESIZE](_ => []);
      forall i | 0 <= i < count {
        a[i] := buf1[i];
      }
      forall i | 0 <= i < count {
        b[i] := buf2[i];
      }
      buf1, buf2 := a, b;
    }

    // Binary search for the first entry that is not smaller than the key.
    method Search(key: bytes) returns (start: nat)
      requires Valid() && |key| == keySize
      ensures start == LowerBound(es, key)
    {
      start := 0;
      var end := count;
      while start < end
        invariant 0 <= start <= end <= count
        invariant forall i :: 0 <= i < start ==> MemLess(es[i].key, key)
        invariant forall i :: end <= i < count ==> !MemLess(es[i].key, key)
      {
        var mid := (start + end) / 2;
        assert es[mid].key == buf1[mid];
        if MemLess(buf1[mid], key) {
          forall i | 0 <= i < mid
            ensures MemLess(es[i].key, key)
          {
            BeforeSmaller(es, i, mid, key);
          }
          start := mid + 1;
        } else {
          forall i | mid < i < count
            ensures !MemLess(es[i].key, key)
          {
            AfterNotSmaller(es, mid, i, key);
          }
          end := mid;
        }
      }
      LowerBoundIs(es, key, start);
    }

    // The entries as a value, for a table that will not change any more.
    method Copy() returns (r: seq<Entry>)
      requires Valid()
      ensures r == es
    {
      r := [];
      var i := 0;
      while i < count
        invariant 0 <= i <= count && r == es[..i]
      {
        r := r + [Entry(buf1[i], buf2[i])];
        i := i + 1;
      }
    }

    // Moves the entries from `start` on up by one and puts a new one there.
    method Shift(start: nat, key: bytes, val: bytes)
      requires Holds() && start <= count < buf1.Length
      modifies this`count, this`es, buf1, buf2
      ensures Holds() && es == old(es)[..start] + [Entry(key, val)] + old(es)[start..]
    {
      OpenSlot(buf1, count, start, key);
      OpenSlot(buf2, count, start, val);
      count := count + 1;
      es := es[..start] + [Entry(key, val)] + es[start..];
      forall i | 0 <= i < count
        ensures es[i] == Entry(buf1[i], buf2[i])
      {
        assert i > start ==> es[i] == old(es)[i - 1];
      }
    }

    // The arrays grow first when they are full.
    method Insert(key: bytes, val: bytes)
      requires Valid() && |key| == keySize
      modifies Frame()
      ensures Valid() && fresh(Frame() - old(Frame()))
      ensures es == Inserted(old(es), Entry(key, val))
    {
      InsertedSorted(es, Entry(key, val));
      if count >= buf1.Length {
        Grow();
      }
      var start := Search(key);
      Shift(start, key, val);
    }
  }

  lemma BeforeSmaller(es: seq<Entry>, i: nat, j: nat, key: bytes)
    requires Sorted(es) && KeysOfSize(es, |key|) && i < j < |es| && MemLess(es[j].key, key)
    ensures MemLess(es[i].key, key)
  {
    MemLessOrder(es[j].key, key, es[i].key);
    MemLessOrder(es[i].key, es[j].key, key);
  }

  lemma AfterNotSmaller(es: seq<Entry>, i: nat, j: nat, key: bytes)
    requires Sorted(es) && KeysOfSize(es, |key|) && i < j < |es| && !MemLess(es[i].key, key)
    ensures !MemLess(es[j].key, key)
  {
    MemLessOrder(es[j].key, key, es[i].key);
  }

  // The linear scan of a lookup.
  method Scan(es: seq<Entry>, key: bytes) returns (idx: nat)
    ensures idx <= |es|
    ensures FirstMatch(es, key) == if idx < |es| then Some(es[idx].val) else None
  {
    idx := 0;
    assert es[0..] == es;
    while idx < |es|
      invariant 0 <= idx <= |es|
      invariant FirstMatch(es, key) == FirstMatch(es[idx..], key)
    {
      assert es[idx..][0] == es[idx] && es[idx..][1..] == es[idx + 1..];
      if es[idx].key == key {
        return;
      }
      idx := idx + 1;
    }
  }
}
