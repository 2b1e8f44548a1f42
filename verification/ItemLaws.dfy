// What the octets of a serialised item are.
module ItemLaws {
  import opened Bytes
  import opened Memory
  import opened FsFormat
  import opened DiskItems

  // What a header says of an item: the type by its kind, active, and a name filled up with zeros
  // or the size of a record.
  lemma HeaderSays(it: Item, trel: nat, prel: nat)
    requires Valid(it)
    ensures var f := FileOf(it, trel, prel);
      && (f.trel, f.prel, f.lcs, f.id, f.sid) == (trel, prel, 0, it.id, it.sid)
      && (it.Folder? ==>
            && f.kind == it.kind && |f.spec| == 16
            && forall j :: 0 <= j < 16 ==>
                 f.spec[j] == if j < |LeafBytes(it.name)| then LeafBytes(it.name)[j] else 0x00)
      && (it.Plain? ==> f.kind == Transparent && f.spec == [] && f.size == 13 + |LeafBytes(it.content)|)
      && (it.Records? ==>
            && f.kind == (if it.cyclic then Cyclic else LinearFixed) && f.spec == [it.rcrdSize]
            && f.size == 14 + |it.rcrds| * it.rcrdSize)
  {
    if it.Records? {
      RcrdsSize(it.rcrds, it.rcrdSize);
    }
  }

  ghost predicate AllFit(rcrds: seq<Leaf>, size: nat) {
    forall i :: 0 <= i < |rcrds| ==> |LeafBytes(rcrds[i])| <= size
  }

  lemma {:induction false} RcrdsSize(rcrds: seq<Leaf>, size: nat)
    requires AllFit(rcrds, size)
    ensures |RcrdBytes(rcrds, size)| == |rcrds| * size
  {
    if rcrds != [] {
      RcrdsSize(rcrds[1..], size);
      assert |rcrds| * size == size + (|rcrds| - 1) * size;
    }
  }

  ghost predicate BlockAt(s: bytes, at: nat, d: bytes) { at + |d| <= |s| && s[at..at + |d|] == d }

  lemma FirstBlock(a: bytes, b: bytes)
    ensures BlockAt(a + b, 0, a)
  {}

  lemma LaterBlock(a: bytes, b: bytes, at: nat, d: bytes)
    requires BlockAt(b, at, d)
    ensures BlockAt(a + b, |a| + at, d)
  {
    assert (a + b)[|a| + at..|a| + at + |d|] == b[at..at + |d|];
  }

  // Where the block with index `i` is.
  function Behind(i: nat, size: nat): nat { if i == 0 then 0 else size + Behind(i - 1, size) }

  lemma {:induction false} BehindIs(i: nat, size: nat)
    ensures Behind(i, size) == i * size
  {
    if i > 0 {
      BehindIs(i - 1, size);
      assert (i - 1) * size + size == i * size;
    }
  }

  lemma {:induction false} RcrdAtIndex(rcrds: seq<Leaf>, size: nat, i: nat)
    requires AllFit(rcrds, size) && i < |rcrds|
    ensures BlockAt(RcrdBytes(rcrds, size), Behind(i, size), Padded(LeafBytes(rcrds[i]), size, 0xFF))
    decreases i
  {
    var first, rest := Padded(LeafBytes(rcrds[0]), size, 0xFF), RcrdBytes(rcrds[1..], size);
    if i > 0 {
      RcrdAtIndex(rcrds[1..], size, i - 1);
      LaterBlock(first, rest, Behind(i - 1, size), Padded(LeafBytes(rcrds[i]), size, 0xFF));
    } else {
      FirstBlock(first, rest);
    }
  }

  // Records follow each other, each filled up with FF.
  lemma RcrdSays(rcrds: seq<Leaf>, size: nat, i: nat, j: nat)
    requires AllFit(rcrds, size) && i < |rcrds| && j < size
    ensures i * size + j < |RcrdBytes(rcrds, size)|
    ensures var b := LeafBytes(rcrds[i]); RcrdBytes(rcrds, size)[i * size + j] == if j < |b| then b[j] else 0xFF
  {
    RcrdAtIndex(rcrds, size, i);
    BehindIs(i, size);
    var r := Padded(LeafBytes(rcrds[i]), size, 0xFF);
    BlockByte(RcrdBytes(rcrds, size), i * size, r, j);
  }

  lemma BlockByte(s: bytes, at: nat, d: bytes, j: nat)
    requires BlockAt(s, at, d) && j < |d|
    ensures at + j < |s| && s[at + j] == d[j]
  {
    assert s[at..at + |d|][j] == s[at + j];
  }
}
