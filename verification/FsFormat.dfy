// The serialised file tree: headers, how a header is parsed, and which buffers hold a
// well-formed tree.  Header fields are in the byte order of the machine that wrote them,
// little-endian here.
module FsFormat {
  import opened Bytes
  import opened Memory

  const NAME_LEN: nat := 16
  const FILE_HDR_LEN: nat := 13 // Item header (10 bytes) and file header (3 bytes).

  datatype Kind = Mf | Adf | Df | Transparent | LinearFixed | Cyclic

  predicate IsFolder(k: Kind) { k.Mf? || k.Adf? || k.Df? }

  predicate HasRecords(k: Kind) { k.LinearFixed? || k.Cyclic? }

  function KindByte(k: Kind): byte {
    match k
    case Mf => 1
    case Adf => 2
    case Df => 3
    case Transparent => 4
    case LinearFixed => 5
    case Cyclic => 6
  }

  // None for the types that are not files, and for bytes that are no type at all.
  function ByteKind(b: byte): Option<Kind> {
    if 1 <= b <= 6 then Some([Mf, Adf, Df, Transparent, LinearFixed, Cyclic][b - 1]) else None
  }

  // The size of everything in front of a file's data.
  function HdrSize(k: Kind): nat {
    FILE_HDR_LEN + (if IsFolder(k) then NAME_LEN else if HasRecords(k) then 1 else 0)
  }

  // The low `k` bytes of a number, least significant first.
  function Le(n: nat, k: nat): (r: bytes)
    ensures |r| == k
  {
    if k == 0 then [] else [n % 256] + Le(n / 256, k - 1)
  }

  function Le32At(b: bytes, i: nat): nat
    requires i + 4 <= |b|
  {
    b[i] as int + 256 * (b[i + 1] as int + 256 * (b[i + 2] as int + 256 * b[i + 3] as int))
  }

  lemma Le32Inverse(n: nat)
    requires n <= UINT32_MAX
    ensures Le32At(Le(n, 4), 0) == n
  {
    assert Le(n, 4) == [n % 256] + Le(n / 256, 3);
    assert Le(n / 256, 3) == [n / 256 % 256] + Le(n / 256 / 256, 2);
    assert Le(n / 256 / 256, 2) == [n / 256 / 256 % 256] + Le(n / 256 / 256 / 256, 1);
  }

  lemma Le16Inverse(n: nat)
    requires n < 65536
    ensures Le(n, 2)[0] as int + 256 * Le(n, 2)[1] as int == n
  {
    assert Le(n, 2) == [n % 256] + Le(n / 256, 1);
  }

  // A parsed file: its header fields, where it starts in the tree (`trel`) and relative to
  // its parent (`prel`), and the header bytes of its kind (a name, an AID or a record size).
  datatype File = File(kind: Kind, size: nat, prel: nat, trel: nat, lcs: byte, id: u16, sid: byte, spec: bytes)
  {
    function DataAt(): nat { trel + HdrSize(kind) }

    // Unsigned 32 bit, as the field that holds it.
    function DataSize(): nat { (size - HdrSize(kind)) % (UINT32_MAX + 1) }
  }

  lemma DataSizeIs(f: File)
    requires HdrSize(f.kind) <= f.size <= UINT32_MAX
    ensures f.DataSize() == f.size - HdrSize(f.kind)
  {}

  // The packed item and file header.
  function RawHdr(size: nat, prel: nat, typ: byte, lcs: byte, id: u16, sid: byte): (r: bytes)
    ensures |r| == FILE_HDR_LEN
  {
    Le(size, 4) + Le(prel, 4) + [typ, lcs] + Le(id, 2) + [sid]
  }

  function HdrBytes(f: File): (r: bytes)
    ensures |r| == FILE_HDR_LEN + |f.spec|
  {
    RawHdr(f.size, f.prel, KindByte(f.kind), f.lcs, f.id, f.sid) + f.spec
  }

  // `swicc_fs_file_prs`.  Reads outside the buffer are not modelled; they give None like the
  // errors do.
  function FilePrs(buf: bytes, off: nat): (r: Option<File>)
    ensures r.Some? ==> r.value.trel == off && r.value.DataAt() <= |buf|
    ensures r.Some? ==> |r.value.spec| == HdrSize(r.value.kind) - FILE_HDR_LEN
  {
    var specAt := off + FILE_HDR_LEN;
    if specAt > |buf| || specAt >= UINT32_MAX then None
    else
      match ByteKind(buf[off + 8])
      case None => None
      case Some(kind) =>
        if off + HdrSize(kind) > |buf| then None
        else Some(File(kind, Le32At(buf, off), Le32At(buf, off + 4), off,
                       buf[off + 9], buf[off + 10] as int + 256 * buf[off + 11] as int, buf[off + 12],
                       buf[specAt..off + HdrSize(kind)]))
  }

  // A written header is parsed back to the same file.
  lemma HdrParses(f: File, buf: bytes)
    requires f.size <= UINT32_MAX && f.prel <= UINT32_MAX
    requires |f.spec| == HdrSize(f.kind) - FILE_HDR_LEN
    requires f.DataAt() <= |buf| < UINT32_MAX
    requires buf[f.trel..f.DataAt()] == HdrBytes(f)
    ensures FilePrs(buf, f.trel) == Some(f)
  {
    HdrFields(f);
    var h := buf[f.trel..f.DataAt()];
    assert forall i :: 0 <= i < |h| ==> buf[f.trel + i] == h[i];
    Le32Bytes(buf, f.trel, h, 0);
    Le32Bytes(buf, f.trel + 4, h, 4);
    assert buf[f.trel + 8] == h[8];
    assert buf[f.trel + FILE_HDR_LEN..f.DataAt()] == h[FILE_HDR_LEN..];
  }

  lemma Le32Bytes(a: bytes, i: nat, b: bytes, j: nat)
    requires i + 4 <= |a| && j + 4 <= |b| && a[i..i + 4] == b[j..j + 4]
    ensures Le32At(a, i) == Le32At(b, j)
  {
    var s, t := a[i..i + 4], b[j..j + 4];
    assert s[0] == a[i] && s[1] == a[i + 1] && s[2] == a[i + 2] && s[3] == a[i + 3];
    assert t[0] == b[j] && t[1] == b[j + 1] && t[2] == b[j + 2] && t[3] == b[j + 3];
  }

  // Where the fields are in a header.
  lemma HdrFields(f: File)
    requires f.size <= UINT32_MAX && f.prel <= UINT32_MAX
    ensures var h := HdrBytes(f);
      && Le32At(h, 0) == f.size && Le32At(h, 4) == f.prel
      && h[8] == KindByte(f.kind) && ByteKind(h[8]) == Some(f.kind) && h[9] == f.lcs
      && h[10] as int + 256 * h[11] as int == f.id && h[12] == f.sid
      && h[FILE_HDR_LEN..] == f.spec
  {
    var h := HdrBytes(f);
    assert h[..4] == Le(f.size, 4) && h[4..8] == Le(f.prel, 4) && h[10..12] == Le(f.id, 2);
    Le32Inverse(f.size);
    Le32Inverse(f.prel);
    Le16Inverse(f.id);
    Le32Bytes(h, 0, Le(f.size, 4), 0);
    Le32Bytes(h, 4, Le(f.prel, 4), 0);
    assert h[10] == Le(f.id, 2)[0] && h[11] == Le(f.id, 2)[1];
  }

  // The octets of a header: size and offset from the parent, least significant octet first, type,
  // life cycle status, identifiers, and what the kind of file adds.
  lemma FileOctets(f: File)
    requires f.size <= UINT32_MAX && f.prel <= UINT32_MAX
    ensures HdrBytes(f) ==
      [f.size % 0x100, f.size / 0x100 % 0x100, f.size / 0x1_0000 % 0x100, f.size / 0x100_0000,
       f.prel % 0x100, f.prel / 0x100 % 0x100, f.prel / 0x1_0000 % 0x100, f.prel / 0x100_0000,
       (match f.kind
        case Mf => 1 case Adf => 2 case Df => 3
        case Transparent => 4 case LinearFixed => 5 case Cyclic => 6),
       f.lcs, f.id % 0x100, f.id / 0x100, f.sid] + f.spec
  {
    LeOctets(f.size);
    LeOctets(f.prel);
    assert Le(f.id, 2) == [f.id % 0x100] + Le(f.id / 0x100, 1) && Le(f.id / 0x100, 1) == [f.id / 0x100] + [];
  }

  lemma LeOctets(n: nat)
    requires n <= UINT32_MAX
    ensures Le(n, 4) == [n % 0x100, n / 0x100 % 0x100, n / 0x1_0000 % 0x100, n / 0x100_0000]
  {
    assert n / 0x100 / 0x100 == n / 0x1_0000 && n / 0x1_0000 / 0x100 == n / 0x100_0000;
    assert Le(n, 4) == [n % 0x100] + Le(n / 0x100, 3);
    assert Le(n / 0x100, 3) == [n / 0x100 % 0x100] + Le(n / 0x1_0000, 2);
    assert Le(n / 0x1_0000, 2) == [n / 0x1_0000 % 0x100] + Le(n / 0x100_0000, 1);
    assert Le(n / 0x100_0000, 1) == [n / 0x100_0000] + [];
  }

  // What is parsed at an offset: nothing but for the six types, whose names are 16 octets and
  // record sizes one.
  lemma OctetsParse(buf: bytes, off: nat)
    requires off + 13 <= |buf| < UINT32_MAX
    ensures FilePrs(buf, off).Some? <==>
      1 <= buf[off + 8] <= 6 && off + (if buf[off + 8] <= 3 then 29 else if buf[off + 8] == 4 then 13 else 14) <= |buf|
    ensures FilePrs(buf, off).Some? ==>
      var f, t := FilePrs(buf, off).value, buf[off + 8];
      && f.kind == [Mf, Adf, Df, Transparent, LinearFixed, Cyclic][t - 1] && f.trel == off
      && f.size == buf[off] as int + 0x100 * buf[off + 1] as int
                   + 0x1_0000 * buf[off + 2] as int + 0x100_0000 * buf[off + 3] as int
      && f.prel == buf[off + 4] as int + 0x100 * buf[off + 5] as int
                   + 0x1_0000 * buf[off + 6] as int + 0x100_0000 * buf[off + 7] as int
      && f.lcs == buf[off + 9] && f.id == buf[off + 10] as int + 0x100 * buf[off + 11] as int && f.sid == buf[off + 12]
      && f.spec == buf[off + 13..off + (if t <= 3 then 29 else if t == 4 then 13 else 14)]
      && f.DataAt() == off + (if t <= 3 then 29 else if t == 4 then 13 else 14)
  {}

  // Parsing looks at the header only.
  lemma PrsDepends(a: bytes, b: bytes, off: nat)
    requires |a| == |b| && FilePrs(a, off).Some?
    requires forall i :: off <= i < FilePrs(a, off).value.DataAt() ==> a[i] == b[i]
    ensures FilePrs(b, off) == FilePrs(a, off)
  {
    var f := FilePrs(a, off).value;
    assert a[off + 8] == b[off + 8];
    assert a[off + FILE_HDR_LEN..f.DataAt()] == b[off + FILE_HDR_LEN..f.DataAt()];
  }

  // ----- Well-formed trees -----

  // The structure found in a buffer: a file and, for a folder, the files directly in it.
  datatype Dir = Dir(file: File, kids: seq<Dir>)

  // What can be parsed at each offset.  Everything about the structure of a tree is proved for
  // any such function; `HeadersOf` is the one a buffer defines.
  type Headers = nat -> Option<File>

  function HeadersOf(buf: bytes): Headers {
    (off: nat) => FilePrs(buf, off)
  }

  // The file at `off` inside the folder that starts at `par`, ending no later than `end`,
  // with everything in it.  None unless sizes cover their headers, offsets lead back to the
  // parent, record sizes are not zero and the files of a folder fill it exactly.
  function Read(h: Headers, off: nat, par: nat, end: nat): (r: Option<Dir>)
    ensures r.Some? ==> h(off) == Some(r.value.file) && r.value.file.trel == off && off + r.value.file.size <= end
    ensures r.Some? ==> r.value.file.size >= HdrSize(r.value.file.kind)
    decreases end - off, 0
  {
    match h(off)
    case None => None
    case Some(f) =>
      if f.trel != off || off < par || f.prel != off - par || f.size < HdrSize(f.kind) || off + f.size > end
         || f.lcs > 2 || (HasRecords(f.kind) && (|f.spec| != 1 || f.spec[0] == 0)) then None
      else if !IsFolder(f.kind) then Some(Dir(f, []))
      else
        match ReadKids(h, f.DataAt(), off, off + f.size)
        case None => None
        case Some(kids) => Some(Dir(f, kids))
  }

  function ReadKids(h: Headers, off: nat, par: nat, end: nat): Option<seq<Dir>>
    decreases end - off, 1
  {
    if off >= end then (if off == end then Some([]) else None)
    else
      match Read(h, off, par, end)
      case None => None
      case Some(d) =>
        if d.file.kind.Mf? || d.file.kind.Adf? then None
        else
          match ReadKids(h, off + d.file.size, par, end)
          case None => None
          case Some(ds) => Some([d] + ds)
  }

  // A tree buffer: exactly one MF or ADF.
  function ReadTree(buf: bytes): Option<Dir> {
    if |buf| >= UINT32_MAX then None
    else
      match Read(HeadersOf(buf), 0, 0, |buf|)
      case None => None
      case Some(d) =>
        if d.file.size == |buf| && (d.file.kind.Mf? || d.file.kind.Adf?) then Some(d) else None
  }

  // All files, a folder before what is in it.
  function Nodes(d: Dir): seq<Dir> {
    [d] + NodesAll(d.kids)
  }

  function NodesAll(ds: seq<Dir>): seq<Dir> {
    if ds == [] then [] else Nodes(ds[0]) + NodesAll(ds[1..])
  }

  // ----- What a successful read says about every node -----

  // Every node of a tree that was read parses at its own offset, is no smaller than its
  // header, and lies inside the tree.
  ghost predicate Sound(h: Headers, n: Dir) {
    && h(n.file.trel) == Some(n.file)
    && n.file.size >= HdrSize(n.file.kind)
    && n.file.lcs <= 2
    && (HasRecords(n.file.kind) ==> |n.file.spec| == 1 && n.file.spec[0] > 0)
    && (!IsFolder(n.file.kind) ==> n.kids == [])
  }

  ghost predicate Within(n: Dir, lo: nat, hi: nat) { lo <= n.file.trel && n.file.trel + n.file.size <= hi }

  lemma {:induction false} NodesSound(h: Headers, off: nat, par: nat, end: nat, n: Dir)
    requires Read(h, off, par, end).Some? && n in Nodes(Read(h, off, par, end).value)
    ensures var d := Read(h, off, par, end).value;
      Sound(h, n) && Within(n, off, off + d.file.size)
    decreases end - off, 0
  {
    var d := Read(h, off, par, end).value;
    if n != d {
      KidsSound(h, d.file.DataAt(), off, off + d.file.size, n);
    }
  }

  lemma {:induction false} KidsSound(h: Headers, off: nat, par: nat, end: nat, n: Dir)
    requires ReadKids(h, off, par, end).Some? && n in NodesAll(ReadKids(h, off, par, end).value)
    ensures Sound(h, n) && Within(n, off, end) && !n.file.kind.Mf? && !n.file.kind.Adf?
    decreases end - off, 1
  {
    var d := Read(h, off, par, end).value;
    var ds := ReadKids(h, off, par, end).value;
    if n in Nodes(d) {
      NodesSound(h, off, par, end, n);
      if n != d {
        KidsSound(h, d.file.DataAt(), off, off + d.file.size, n);
      }
    } else {
      assert ds[1..] == ReadKids(h, off + d.file.size, par, end).value;
      KidsSound(h, off + d.file.size, par, end, n);
    }
  }

  // Below the root, a node's offset leads back to the folder that holds it.
  lemma {:induction false} NodeParent(h: Headers, off: nat, par: nat, end: nat, n: Dir) returns (p: Dir)
    requires Read(h, off, par, end).Some? && n in NodesAll(Read(h, off, par, end).value.kids)
    ensures p in Nodes(Read(h, off, par, end).value) && IsFolder(p.file.kind) && n in p.kids
    ensures n.file.prel <= n.file.trel && p.file.trel == n.file.trel - n.file.prel
    decreases end - off, 0
  {
    var d := Read(h, off, par, end).value;
    if n in d.kids {
      p := d;
      KidsOffset(h, d.file.DataAt(), off, off + d.file.size, n);
    } else {
      p := KidsParent(h, d.file.DataAt(), off, off + d.file.size, n);
    }
  }

  lemma {:induction false} KidsOffset(h: Headers, off: nat, par: nat, end: nat, n: Dir)
    requires par <= off && ReadKids(h, off, par, end).Some? && n in ReadKids(h, off, par, end).value
    ensures n.file.prel <= n.file.trel && n.file.trel - n.file.prel == par
    decreases end - off
  {
    var d := Read(h, off, par, end).value;
    if n != d {
      assert ReadKids(h, off, par, end).value[1..] == ReadKids(h, off + d.file.size, par, end).value;
      KidsOffset(h, off + d.file.size, par, end, n);
    }
  }

  lemma {:induction false} KidsParent(h: Headers, off: nat, par: nat, end: nat, n: Dir) returns (p: Dir)
    requires ReadKids(h, off, par, end).Some?
    requires n in NodesAll(ReadKids(h, off, par, end).value) && n !in ReadKids(h, off, par, end).value
    ensures p in NodesAll(ReadKids(h, off, par, end).value) && IsFolder(p.file.kind) && n in p.kids
    ensures n.file.prel <= n.file.trel && p.file.trel == n.file.trel - n.file.prel
    decreases end - off, 1
  {
    var d := Read(h, off, par, end).value;
    assert ReadKids(h, off, par, end).value[1..] == ReadKids(h, off + d.file.size, par, end).value;
    if n in Nodes(d) {
      p := NodeParent(h, off, par, end, n);
    } else {
      p := KidsParent(h, off + d.file.size, par, end, n);
    }
  }

  // A node either lies clear of a file that is not a folder, or is a folder around it.
  ghost predicate Apart(m: Dir, n: Dir) {
    || n == m
    || n.file.trel + n.file.size <= m.file.trel
    || m.file.trel + m.file.size <= n.file.trel
    || (IsFolder(n.file.kind) && n.file.DataAt() <= m.file.trel)
  }

  lemma {:induction false} NodesApart(h: Headers, off: nat, par: nat, end: nat, m: Dir, n: Dir)
    requires Read(h, off, par, end).Some? && !IsFolder(m.file.kind)
    requires m in Nodes(Read(h, off, par, end).value) && n in Nodes(Read(h, off, par, end).value)
    ensures Apart(m, n)
    decreases end - off, 0
  {
    var d := Read(h, off, par, end).value;
    if m != d {
      KidsSound(h, d.file.DataAt(), off, off + d.file.size, m);
      if n != d {
        KidsApart(h, d.file.DataAt(), off, off + d.file.size, m, n);
      }
    }
  }

  lemma {:induction false} KidsApart(h: Headers, off: nat, par: nat, end: nat, m: Dir, n: Dir)
    requires ReadKids(h, off, par, end).Some? && !IsFolder(m.file.kind)
    requires m in NodesAll(ReadKids(h, off, par, end).value)
    requires n in NodesAll(ReadKids(h, off, par, end).value)
    ensures Apart(m, n)
    decreases end - off, 1
  {
    var d := Read(h, off, par, end).value;
    assert ReadKids(h, off, par, end).value[1..] == ReadKids(h, off + d.file.size, par, end).value;
    if m in Nodes(d) {
      NodesSound(h, off, par, end, m);
      if n in Nodes(d) {
        NodesApart(h, off, par, end, m, n);
      } else {
        KidsSound(h, off + d.file.size, par, end, n);
      }
    } else {
      KidsSound(h, off + d.file.size, par, end, m);
      if n in Nodes(d) {
        NodesSound(h, off, par, end, n);
      } else {
        KidsApart(h, off + d.file.size, par, end, m, n);
      }
    }
  }

  // The nodes of a tree are listed in the order of their offsets, no two with the same.
  ghost predicate Ascend(ns: seq<Dir>) {
    forall i, j :: 0 <= i < j < |ns| ==> ns[i].file.trel < ns[j].file.trel
  }

  lemma {:induction false} NodesAscend(h: Headers, off: nat, par: nat, end: nat)
    requires Read(h, off, par, end).Some?
    ensures Ascend(Nodes(Read(h, off, par, end).value))
    decreases end - off, 0
  {
    var d := Read(h, off, par, end).value;
    if IsFolder(d.file.kind) {
      KidsAscend(h, d.file.DataAt(), off, off + d.file.size);
      forall n | n in NodesAll(d.kids)
        ensures off < n.file.trel
      {
        KidsSound(h, d.file.DataAt(), off, off + d.file.size, n);
      }
    }
  }

  lemma {:induction false} KidsAscend(h: Headers, off: nat, par: nat, end: nat)
    requires ReadKids(h, off, par, end).Some?
    ensures Ascend(NodesAll(ReadKids(h, off, par, end).value))
    decreases end - off, 1
  {
    if off < end {
      var d := Read(h, off, par, end).value;
      var ds := ReadKids(h, off, par, end).value;
      assert ds[1..] == ReadKids(h, off + d.file.size, par, end).value;
      NodesAscend(h, off, par, end);
      KidsAscend(h, off + d.file.size, par, end);
      forall n | n in Nodes(d)
        ensures n.file.trel < off + d.file.size
      {
        NodesSound(h, off, par, end, n);
      }
      forall n | n in NodesAll(ds[1..])
        ensures off + d.file.size <= n.file.trel
      {
        KidsSound(h, off + d.file.size, par, end, n);
      }
    }
  }

  // ----- What a change to some bytes can do -----

  lemma AllParts(ds: seq<Dir>)
    requires ds != []
    ensures forall n :: n in Nodes(ds[0]) ==> n in NodesAll(ds)
    ensures forall n :: n in NodesAll(ds[1..]) ==> n in NodesAll(ds)
  {}

  // Headers that agree at every node give the same tree.
  lemma {:induction false} ReadSame(h: Headers, h': Headers, off: nat, par: nat, end: nat)
    requires Read(h, off, par, end).Some?
    requires forall n :: n in Nodes(Read(h, off, par, end).value) ==> h'(n.file.trel) == h(n.file.trel)
    ensures Read(h', off, par, end) == Read(h, off, par, end)
    decreases end - off, 0
  {
    var d := Read(h, off, par, end).value;
    assert d in Nodes(d);
    if IsFolder(d.file.kind) {
      assert forall n :: n in NodesAll(d.kids) ==> n in Nodes(d);
      KidsSame(h, h', d.file.DataAt(), off, off + d.file.size);
    }
  }

  lemma {:induction false} KidsSame(h: Headers, h': Headers, off: nat, par: nat, end: nat)
    requires ReadKids(h, off, par, end).Some?
    requires forall n :: n in NodesAll(ReadKids(h, off, par, end).value) ==> h'(n.file.trel) == h(n.file.trel)
    ensures ReadKids(h', off, par, end) == ReadKids(h, off, par, end)
    decreases end - off, 1
  {
    if off < end {
      var d := Read(h, off, par, end).value;
      var ds := ReadKids(h, off, par, end).value;
      assert ds[1..] == ReadKids(h, off + d.file.size, par, end).value && ds[0] == d;
      AllParts(ds);
      ReadSame(h, h', off, par, end);
      KidsSame(h, h', off + d.file.size, par, end);
    }
  }

  // The layout a read checks, without the headers: where each file may lie and how big it may be.
  ghost predicate Laid(d: Dir, off: nat, par: nat, end: nat)
    decreases d, 0
  {
    var f := d.file;
    && f.trel == off && par <= off && f.prel == off - par
    && HdrSize(f.kind) <= f.size && off + f.size <= end && f.lcs <= 2
    && (HasRecords(f.kind) ==> |f.spec| == 1 && f.spec[0] != 0)
    && (if IsFolder(f.kind) then LaidAll(d.kids, f.DataAt(), off, off + f.size) else d.kids == [])
  }

  ghost predicate LaidAll(ds: seq<Dir>, off: nat, par: nat, end: nat)
    decreases ds, 1
  {
    if ds == [] then off == end
    else
      && !ds[0].file.kind.Mf? && !ds[0].file.kind.Adf?
      && Laid(ds[0], off, par, end)
      && LaidAll(ds[1..], off + ds[0].file.size, par, end)
  }

  lemma ReadKidsCons(h: Headers, off: nat, par: nat, end: nat, d: Dir, ds: seq<Dir>)
    requires off < end && Read(h, off, par, end) == Some(d) && !d.file.kind.Mf? && !d.file.kind.Adf?
    requires ReadKids(h, off + d.file.size, par, end) == Some(ds)
    ensures ReadKids(h, off, par, end) == Some([d] + ds)
  {}

  // A tree laid out like that, whose headers all parse, is what is read.
  lemma {:induction false} LaidReads(h: Headers, d: Dir, off: nat, par: nat, end: nat)
    requires Laid(d, off, par, end)
    requires forall n :: n in Nodes(d) ==> h(n.file.trel) == Some(n.file)
    ensures Read(h, off, par, end) == Some(d)
    decreases d, 0
  {
    assert d in Nodes(d);
    if IsFolder(d.file.kind) {
      assert forall n :: n in NodesAll(d.kids) ==> n in Nodes(d);
      LaidReadsAll(h, d.kids, d.file.DataAt(), off, off + d.file.size);
    }
  }

  lemma {:induction false} LaidReadsAll(h: Headers, ds: seq<Dir>, off: nat, par: nat, end: nat)
    requires LaidAll(ds, off, par, end)
    requires forall n :: n in NodesAll(ds) ==> h(n.file.trel) == Some(n.file)
    ensures ReadKids(h, off, par, end) == Some(ds)
    decreases ds, 1
  {
    if ds != [] {
      AllParts(ds);
      LaidReads(h, ds[0], off, par, end);
      LaidReadsAll(h, ds[1..], off + ds[0].file.size, par, end);
      ReadKidsCons(h, off, par, end, ds[0], ds[1..]);
      assert [ds[0]] + ds[1..] == ds;
    }
  }

  // Bytes inside the data of a file that is not a folder belong to no header, so a change to
  // them leaves the whole tree as it was read.
  lemma DataFrame(a: bytes, b: bytes, m: Dir, lo: nat, hi: nat)
    requires ReadTree(a).Some? && m in Nodes(ReadTree(a).value) && !IsFolder(m.file.kind)
    requires m.file.DataAt() <= lo <= hi <= m.file.trel + m.file.size
    requires Untouched(a, b, lo, hi)
    ensures ReadTree(b) == ReadTree(a)
  {
    var h, h' := HeadersOf(a), HeadersOf(b);
    forall n | n in Nodes(ReadTree(a).value)
      ensures h'(n.file.trel) == h(n.file.trel)
    {
      NodesApart(h, 0, 0, |a|, m, n);
      NodesSound(h, 0, 0, |a|, n);
      PrsDepends(a, b, n.file.trel);
    }
    ReadSame(h, h', 0, 0, |a|);
  }
}
