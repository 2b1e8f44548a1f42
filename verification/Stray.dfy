// A disk on which SELECT by a path that steps on from an EF makes bytes of that EF the current
// file.
module Stray {
  import opened Bytes
  import opened FsFormat
  import opened DiskItems
  import opened DiskIndex
  import opened Disk
  import opened VaSpec
  import opened PathBytes
  import opened FileSys
  import opened ApduRc
  import opened Apdu
  import opened Fci
  import opened ApduhSpec
  import opened CardLaws
  import opened Startup

  // An MF with one EF, whose data spell the header of another.
  const PLANT: File := File(Transparent, 13, 0, 42, 0, 2, 0, [])
  const EF: Item := Plain(1, 0, Raw(HdrBytes(PLANT)))
  const ROOT: Item := Folder(Mf, MF_ID, 0, Raw([]), [EF])

  const STEP_ON: Cmd := Cmd(0x00, 0xA4, 0x08, 0x0C, 4, [0x00, 0x01, 0x00, 0x02])

  function RootFile(): File { FileOf(ROOT, 0, 0) }
  function EfFile(): File { FileOf(EF, 29, 29) }
  function EfDir(): Dir { Dir(EfFile(), []) }
  function RootDir(): Dir { Dir(RootFile(), [EfDir()]) }

  lemma RootIs()
    ensures Valid(ROOT) && Nested(ROOT) && IsRoot(ROOT) && |Ser(ROOT, 0)| == 55
    ensures DirOf(ROOT, 0, 0) == RootDir()
    ensures RootFile().id == MF_ID && EfFile().id == 1 && EfFile().DataAt() == 42 && EfFile().size == 26
    ensures Bodies(ROOT) == [Body(ROOT), HdrBytes(PLANT)] && Nodes(RootDir()) == [RootDir(), EfDir()]
  {
    assert |Ser(EF, 29)| == 26;
    assert SerFrom([EF], 1, 55) == [] && SerFrom([EF], 0, 29) == Ser(EF, 29) + SerFrom([EF], 1, 55);
    assert DirsFrom([EF], 0, 29, 29) == [DirOf(EF, 29, 29)];
    assert BodiesFrom([EF], 0) == Bodies(EF) + [];
  }

  // The buffer is the tree, and the planted header is in it.
  lemma BufferIs(buf: bytes)
    requires buf == Ser(ROOT, 0)
    ensures ReadTree(buf) == Some(RootDir()) && |buf| == 55 && buf[42..55] == HdrBytes(PLANT)
  {
    RootIs();
    TreeReadBack(ROOT, buf);
    assert HoldsFile(buf, Nodes(RootDir())[1], Bodies(ROOT)[1]);
  }

  lemma StartIs(ds: seq<Dir>, va: Va)
    requires ds == [RootDir()]
    ensures StartOf(ds, va, FromMf, [1, 2]) == Start(0, RootDir(), [1, 2])
  {
    RootIs();
    var fs := Files(RootDir());
    assert fs == [RootFile(), EfFile()];
    assert fs[..1] == [RootFile()];
    assert Last(fs, HasId(MF_ID)) == Some(RootFile());
    assert FilesOfAll(ds)[0] == fs;
    assert ById(ds, MF_ID) == Some((0, RootFile()));
    assert Nodes(RootDir())[0] == RootDir();
  }

  lemma WalkIs(buf: bytes)
    requires buf == Ser(ROOT, 0)
    ensures FoldSeen(buf, RootFile(), [1, 2]) == Hit(PLANT) && PLANT !in Files(RootDir())
    ensures FilePrs(buf, 42) == Some(PLANT)
  {
    BufferIs(buf);
    RootIs();
    StepAgrees(buf, RootDir(), RootDir(), 1);
    assert StepSeen(buf, RootFile(), 1) == Hit(EfFile());
    assert EfDir() == Nodes(RootDir())[1];
    PlantedHeader(buf, RootDir(), EfDir(), PLANT);
    OneStep(buf, EfFile(), 2);
    assert [1, 2][1..] == [2];
  }

  lemma PathIs(ds: seq<Dir>, bufs: seq<bytes>, va: Va)
    requires ds == [RootDir()] && bufs == [Ser(ROOT, 0)]
    ensures Planted(ds, bufs, va, FromMf, [1, 2])
    ensures var o := CodePath(ds, bufs, va, FromMf, [1, 2]);
      o.Some? && o.value.ret == Success && o.value.va.file == Some(PLANT) && o.value.va.ef == Some(PLANT)
  {
    StartIs(ds, va);
    WalkIs(bufs[0]);
    HeaderIs(bufs[0], va);
  }

  lemma HeaderIs(buf: bytes, va: Va)
    requires buf == Ser(ROOT, 0)
    ensures SelectHeader(buf, va, 0, PLANT) == Some(Outcome(Success, SelectedAs(va, 0, PLANT, RootFile(), PLANT)))
  {
    ParsedIs(buf);
  }

  lemma ParsedIs(buf: bytes)
    requires buf == Ser(ROOT, 0)
    ensures TreeRoot(buf) == Ok(RootFile()) && ParsesOf(buf)(ParentAt(PLANT)) == Some(Some(PLANT))
  {
    BufferIs(buf);
    RootOffset(buf);
    HdrParses(PLANT, buf);
    ParentParsed(buf, PLANT, PLANT);
  }

  // The disk is well-formed, the command is answered with 9000, and the current file is none of
  // the disk's.
  lemma Strayed(k: Mount, c: Card, b: bytes)
    requires Good(k, c) && c.bufs == SerAll([ROOT])
    ensures MakesDisk([ROOT]) && CmdDefined(k.ds, c, STEP_ON) && Strays(k.ds, c, STEP_ON, 1)
    ensures var r := Demux(k.ds, c, STEP_ON, 1, b);
      && r.res == Sw(NORM_NONE, 0, b) && r.card.va.file == Some(PLANT) && PLANT !in Files(k.ds[0]) && !Good(k, r.card)
  {
    RootIs();
    DiskIs(k, c);
    WalkIs(c.bufs[0]);
    PathIs(k.ds, c.bufs, c.va);
    CommandIs();
    ReplyIs(k.ds, c.(rc := EMPTY), b);
    CommandKeepsExactly(k, c, STEP_ON, 1, b);
  }

  lemma DiskIs(k: Mount, c: Card)
    requires Good(k, c) && c.bufs == SerAll([ROOT])
    ensures k.ds == [RootDir()] && c.bufs == [Ser(ROOT, 0)]
  {
    assert c.bufs == [Ser(ROOT, 0)];
    BufferIs(c.bufs[0]);
    assert ReadTree(c.bufs[0]) == Some(k.ds[0]);
  }

  lemma ReplyIs(ds: seq<Dir>, c: Card, b: bytes)
    requires |c.bufs| == |ds|
    requires var o := CodePath(ds, c.bufs, c.va, FromMf, [1, 2]);
      o.Some? && o.value.ret == Success && o.value.va.file == Some(PLANT)
    ensures var r := SelectCmd(ds, c, STEP_ON, 1, b); r.res == Sw(NORM_NONE, 0, b) && r.card.va.file == Some(PLANT)
  {
    CommandIs();
  }

  lemma CommandIs()
    ensures Ids(STEP_ON.data) == [1, 2] && PathCmd(STEP_ON.p1, STEP_ON.p2, STEP_ON.data) && FromOf(STEP_ON.p1) == FromMf
    ensures SelectRefused(STEP_ON, 1) == None && RequestOf(STEP_ON.p2) == Absent
    ensures ClaParse(STEP_ON.cla).typ == Interindustry
  {
    var d := STEP_ON.data;
    assert d[2..] == [0x00, 0x02] && d[2..][2..] == [];
    assert Ids(d[2..][2..]) == [];
    assert Ids(d[2..]) == [2] + [];
  }
}
