// The items a disk is made from, the bytes they are serialised to, and the tree that is read
// back from those bytes.
module DiskItems {
  import opened Bytes
  import opened BerTlv
  import opened BerTlvEncoder
  import opened FsFormat
  import opened Memory

  // Items without files in them: a run of bytes (hex or text) or a BER-TLV object.
  datatype Leaf = Raw(b: bytes) | Dato(contents: Option<Tlv>)

  datatype Item =
    | Folder(kind: Kind, id: u16, sid: byte, name: Leaf, kids: seq<Item>)
    | Plain(id: u16, sid: byte, content: Leaf)
    | Records(cyclic: bool, id: u16, sid: byte, rcrdSize: nat, rcrds: seq<Leaf>)

  function LeafBytes(l: Leaf): bytes {
    match l
    case Raw(b) => b
    case Dato(None) => []
    case Dato(Some(t)) => Encode(t)
  }

  // BER-TLV objects the encoder has a meaning for.
  ghost predicate LeafDefined(l: Leaf) {
    l.Dato? && l.contents.Some? ==> Defined(l.contents.value) && |Encode(l.contents.value)| <= UINT32_MAX
  }

  ghost predicate LeafOk(l: Leaf) {
    l.Dato? && l.contents.Some? ==> Accepted(l.contents.value)
  }

  // ----- Serialised form -----

  function KindOf(it: Item): Kind {
    match it
    case Folder(kind, _, _, _, _) => kind
    case Plain(_, _, _) => Transparent
    case Records(cyclic, _, _, _, _) => if cyclic then Cyclic else LinearFixed
  }

  // `b` in a field of `n` bytes.
  function Padded(b: bytes, n: nat, fill: byte): (r: bytes)
    ensures |b| <= n ==> |r| == n
  {
    if |b| <= n then b + Repeat(fill, n - |b|) else b
  }

  function SpecOf(it: Item): bytes {
    match it
    case Folder(_, _, _, name, _) => Padded(LeafBytes(name), NAME_LEN, 0)
    case Plain(_, _, _) => []
    case Records(_, _, _, rcrdSize, _) => [rcrdSize % 256]
  }

  // The data of a file: the files in a folder one after the other, each knowing how far it is
  // from the start of the folder; or records filled up with FF.
  function Body(it: Item): bytes
    decreases it, 0
  {
    match it
    case Folder(kind, _, _, _, kids) => SerFrom(kids, 0, FILE_HDR_LEN + NAME_LEN)
    case Plain(_, _, content) => LeafBytes(content)
    case Records(_, _, _, rcrdSize, rcrds) => RcrdBytes(rcrds, rcrdSize)
  }

  function RcrdBytes(rcrds: seq<Leaf>, size: nat): bytes {
    if rcrds == [] then [] else Padded(LeafBytes(rcrds[0]), size, 0xFF) + RcrdBytes(rcrds[1..], size)
  }

  function FileOf(it: Item, trel: nat, prel: nat): File
    decreases it, 1
  {
    File(KindOf(it), FILE_HDR_LEN + |SpecOf(it)| + |Body(it)|, prel, trel, 0, it.id, it.sid, SpecOf(it))
  }

  function Ser(it: Item, prel: nat): bytes
    decreases it, 2, 1
  {
    ItemHdr(it, prel) + Body(it)
  }

  // A header does not say where in the tree it is.
  function ItemHdr(it: Item, prel: nat): (r: bytes)
    ensures |r| == FILE_HDR_LEN + |SpecOf(it)|
    decreases it, 2, 0
  {
    HdrBytes(FileOf(it, 0, prel))
  }

  // The items of a folder from index `i` on, `prel` bytes from the start of the folder.
  function SerFrom(kids: seq<Item>, i: nat, prel: nat): bytes
    requires i <= |kids|
    decreases kids, |kids| - i
  {
    if i == |kids| then []
    else Ser(kids[i], prel) + SerFrom(kids, i + 1, prel + |Ser(kids[i], prel)|)
  }

  // What can be serialised: names that fit (and hold an RID
  // in an ADF), records no longer than the record size.
  ghost predicate Valid(it: Item) {
    match it
       case Folder(kind, _, _, name, kids) =>
         && IsFolder(kind) && LeafOk(name) && |LeafBytes(name)| <= NAME_LEN
         && (kind.Adf? ==> |LeafBytes(name)| >= 5)
         && ValidAll(kids)
       case Plain(_, _, content) => LeafOk(content)
       case Records(_, _, _, rcrdSize, rcrds) =>
         && rcrdSize <= 255
         && forall i :: 0 <= i < |rcrds| ==> LeafOk(rcrds[i]) && |LeafBytes(rcrds[i])| <= rcrdSize
  }

  ghost predicate ValidAll(kids: seq<Item>) {
    forall i :: 0 <= i < |kids| ==> Valid(kids[i])
  }

  // What makes a serialised item a tree of files: MF and ADF at the top only, records of at
  // least one byte.
  ghost predicate Nested(it: Item) {
    match it
    case Folder(_, _, _, _, kids) => NestedAll(kids)
    case Plain(_, _, _) => true
    case Records(_, _, _, rcrdSize, _) => rcrdSize >= 1
  }

  ghost predicate NestedAll(kids: seq<Item>) {
    forall i :: 0 <= i < |kids| ==> Nested(kids[i]) && (kids[i].Folder? ==> kids[i].kind.Df?)
  }

  ghost predicate IsRoot(it: Item) { it.Folder? && (it.kind.Mf? || it.kind.Adf?) }

  // ----- The tree that is read back -----

  function DirOf(it: Item, trel: nat, prel: nat): Dir
    decreases it, 3
  {
    Dir(
      FileOf(it, trel, prel),
      if it.Folder? then DirsFrom(it.kids, 0, trel + FILE_HDR_LEN + NAME_LEN, FILE_HDR_LEN + NAME_LEN) else [])
  }

  function DirsFrom(kids: seq<Item>, i: nat, trel: nat, prel: nat): seq<Dir>
    requires i <= |kids|
    decreases kids, |kids| - i
  {
    if i == |kids| then []
    else
      var n := |Ser(kids[i], prel)|;
      [DirOf(kids[i], trel, prel)] + DirsFrom(kids, i + 1, trel + n, prel + n)
  }

  // `buf` holds `d` at index `at`.
  ghost predicate Holds(buf: bytes, at: nat, d: bytes) {
    at + |d| <= |buf| && buf[at..at + |d|] == d
  }

  lemma HoldsParts(buf: bytes, at: nat, d: bytes, e: bytes)
    ensures Holds(buf, at, d + e) <==> Holds(buf, at, d) && Holds(buf, at + |d|, e)
  {
    if Holds(buf, at, d + e) {
      Parts(d, e);
      assert buf[at..at + |d|] == buf[at..at + |d + e|][..|d|];
      assert buf[at + |d|..at + |d| + |e|] == buf[at..at + |d + e|][|d|..];
    }
    if Holds(buf, at, d) && Holds(buf, at + |d|, e) {
      assert buf[at..at + |d + e|] == buf[at..at + |d|] + buf[at + |d|..at + |d| + |e|];
    }
  }

  lemma SerSize(it: Item, trel: nat, prel: nat)
    ensures FileOf(it, trel, prel).size == |Ser(it, prel)|
    ensures Valid(it) ==>
      && |SpecOf(it)| == HdrSize(KindOf(it)) - FILE_HDR_LEN
      && FileOf(it, trel, prel).size == HdrSize(KindOf(it)) + |Body(it)|
  {}

  lemma HdrAnywhere(it: Item, trel: nat, prel: nat)
    ensures HdrBytes(FileOf(it, trel, prel)) == ItemHdr(it, prel)
  {}

  lemma ItemHolds(it: Item, trel: nat, prel: nat, buf: bytes)
    requires Holds(buf, trel, Ser(it, prel))
    ensures Holds(buf, trel, ItemHdr(it, prel)) && Holds(buf, trel + |ItemHdr(it, prel)|, Body(it))
  {
    HoldsParts(buf, trel, ItemHdr(it, prel), Body(it));
  }

  lemma HeldHeaderParses(f: File, buf: bytes, hdr: bytes)
    requires Holds(buf, f.trel, hdr) && hdr == HdrBytes(f) && |buf| < UINT32_MAX
    requires f.size <= UINT32_MAX && f.prel <= UINT32_MAX
    requires |f.spec| == HdrSize(f.kind) - FILE_HDR_LEN
    ensures FilePrs(buf, f.trel) == Some(f) && |hdr| == HdrSize(f.kind)
  {
    HdrParses(f, buf);
  }

  lemma ItemHeader(it: Item, trel: nat, prel: nat, buf: bytes)
    requires Valid(it) && prel <= UINT32_MAX && |buf| < UINT32_MAX && Holds(buf, trel, Ser(it, prel))
    ensures FilePrs(buf, trel) == Some(FileOf(it, trel, prel))
    ensures FileOf(it, trel, prel).DataSize() == |Body(it)|
    ensures Holds(buf, FileOf(it, trel, prel).DataAt(), Body(it))
  {
    SerSize(it, trel, prel);
    ItemHolds(it, trel, prel, buf);
    HdrAnywhere(it, trel, prel);
    var f := FileOf(it, trel, prel);
    HeldHeaderParses(f, buf, ItemHdr(it, prel));
    DataSizeIs(f);
  }

  // The files of an item are laid out as a read expects them.
  lemma {:induction false} ItemLaid(it: Item, trel: nat, prel: nat, end: nat)
    requires Valid(it) && Nested(it) && prel <= trel && trel + |Ser(it, prel)| <= end
    ensures Laid(DirOf(it, trel, prel), trel, trel - prel, end)
    decreases it, 0
  {
    SerSize(it, trel, prel);
    if it.Folder? {
      var at := FILE_HDR_LEN + NAME_LEN;
      ItemsLaid(it.kids, 0, trel + at, at, trel + |Ser(it, prel)|);
    }
  }

  lemma {:induction false} ItemsLaid(kids: seq<Item>, i: nat, trel: nat, prel: nat, end: nat)
    requires i <= |kids| && ValidAll(kids) && NestedAll(kids)
    requires prel <= trel && trel + |SerFrom(kids, i, prel)| == end
    ensures LaidAll(DirsFrom(kids, i, trel, prel), trel, trel - prel, end)
    decreases kids, |kids| - i
  {
    if i < |kids| {
      var n := |Ser(kids[i], prel)|;
      SerSize(kids[i], trel, prel);
      ItemLaid(kids[i], trel, prel, end);
      ItemsLaid(kids, i + 1, trel + n, prel + n, end);
      LaidCons(DirOf(kids[i], trel, prel), DirsFrom(kids, i + 1, trel + n, prel + n), trel, trel - prel, end);
    }
  }

  lemma LaidCons(d: Dir, ds: seq<Dir>, off: nat, par: nat, end: nat)
    requires Laid(d, off, par, end) && !d.file.kind.Mf? && !d.file.kind.Adf?
    requires LaidAll(ds, off + d.file.size, par, end)
    ensures LaidAll([d] + ds, off, par, end)
  {
    assert ([d] + ds)[1..] == ds;
  }

  // The data of every file, in the order of `Nodes`.
  function Bodies(it: Item): seq<bytes>
    decreases it, 1
  {
    [Body(it)] + (if it.Folder? then BodiesFrom(it.kids, 0) else [])
  }

  function BodiesFrom(kids: seq<Item>, i: nat): seq<bytes>
    requires i <= |kids|
    decreases kids, |kids| - i
  {
    if i == |kids| then [] else Bodies(kids[i]) + BodiesFrom(kids, i + 1)
  }

  ghost predicate HoldsFile(buf: bytes, n: Dir, data: bytes) {
    && FilePrs(buf, n.file.trel) == Some(n.file)
    && n.file.DataSize() == |data|
    && Holds(buf, n.file.DataAt(), data)
  }

  ghost predicate Contains(buf: bytes, ns: seq<Dir>, datas: seq<bytes>) {
    && |ns| == |datas|
    && forall i :: 0 <= i < |ns| ==> HoldsFile(buf, ns[i], datas[i])
  }

  lemma ContainsParts(buf: bytes, ns: seq<Dir>, ms: seq<Dir>, ds: seq<bytes>, es: seq<bytes>)
    requires Contains(buf, ns, ds) && Contains(buf, ms, es)
    ensures Contains(buf, ns + ms, ds + es)
  {
    forall i | 0 <= i < |ns + ms|
      ensures HoldsFile(buf, (ns + ms)[i], (ds + es)[i])
    {
      if i < |ns| {
        assert (ns + ms)[i] == ns[i] && (ds + es)[i] == ds[i];
      } else {
        assert (ns + ms)[i] == ms[i - |ns|] && (ds + es)[i] == es[i - |ns|];
      }
    }
  }

  // Every file parses where it should and holds the bytes its item was given.
  lemma {:induction false} DataBack(it: Item, trel: nat, prel: nat, buf: bytes)
    requires Valid(it) && prel <= trel <= UINT32_MAX && |buf| < UINT32_MAX
    requires Holds(buf, trel, Ser(it, prel))
    ensures Contains(buf, Nodes(DirOf(it, trel, prel)), Bodies(it))
    decreases it, 0
  {
    ItemHeader(it, trel, prel, buf);
    var d := DirOf(it, trel, prel);
    assert Contains(buf, [d], [Body(it)]);
    if it.Folder? {
      DataBackAll(it.kids, 0, d.file.DataAt(), FILE_HDR_LEN + NAME_LEN, buf);
      ContainsParts(buf, [d], NodesAll(d.kids), [Body(it)], BodiesFrom(it.kids, 0));
    }
  }

  lemma {:induction false} DataBackAll(kids: seq<Item>, i: nat, trel: nat, prel: nat, buf: bytes)
    requires i <= |kids| && ValidAll(kids) && prel <= trel <= UINT32_MAX && |buf| < UINT32_MAX
    requires Holds(buf, trel, SerFrom(kids, i, prel))
    ensures Contains(buf, NodesAll(DirsFrom(kids, i, trel, prel)), BodiesFrom(kids, i))
    decreases kids, |kids| - i
  {
    if i < |kids| {
      var s := Ser(kids[i], prel);
      HoldsParts(buf, trel, s, SerFrom(kids, i + 1, prel + |s|));
      DataBack(kids[i], trel, prel, buf);
      DataBackAll(kids, i + 1, trel + |s|, prel + |s|, buf);
      var ds := DirsFrom(kids, i, trel, prel);
      assert ds[1..] == DirsFrom(kids, i + 1, trel + |s|, prel + |s|);
      ContainsParts(buf, Nodes(ds[0]), NodesAll(ds[1..]), Bodies(kids[i]), BodiesFrom(kids, i + 1));
    }
  }

  // A serialised root item, alone in its buffer, is a well-formed tree: reading it back
  // finds exactly the files it was made from, with their identifiers, names and data.
  lemma TreeReadBack(it: Item, buf: bytes)
    requires Valid(it) && Nested(it) && IsRoot(it) && |buf| < UINT32_MAX && buf == Ser(it, 0)
    ensures ReadTree(buf) == Some(DirOf(it, 0, 0))
    ensures Contains(buf, Nodes(DirOf(it, 0, 0)), Bodies(it))
  {
    assert buf[0..|buf|] == buf;
    SerSize(it, 0, 0);
    DataBack(it, 0, 0, buf);
    var ns := Nodes(DirOf(it, 0, 0));
    forall n | n in ns
      ensures HeadersOf(buf)(n.file.trel) == Some(n.file)
    {
      var i :| 0 <= i < |ns| && ns[i] == n;
    }
    ItemLaid(it, 0, 0, |buf|);
    LaidReads(HeadersOf(buf), DirOf(it, 0, 0), 0, 0, |buf|);
  }
}
