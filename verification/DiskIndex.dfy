// What the walks add up to: which file a search stops at, and what the two lookup tables
// answer after a rebuild.  A nested folder is visited twice, which changes neither.
module DiskIndex {
  import opened Bytes
  import opened FsFormat
  import opened Lut
  import opened DiskWalk

  // All files of a tree, each once, a folder before what is in it.
  function Files(d: Dir): seq<File>
    decreases d, 1
  {
    [d.file] + (if IsFolder(d.file.kind) then FilesFrom(d.kids, 0) else [])
  }

  function FilesFrom(ds: seq<Dir>, i: nat): seq<File>
    requires i <= |ds|
    decreases ds, |ds| - i
  {
    if i == |ds| then [] else Files(ds[i]) + FilesFrom(ds, i + 1)
  }

  function First(fs: seq<File>, p: File -> bool): Option<File> {
    if fs == [] then None else if p(fs[0]) then Some(fs[0]) else First(fs[1..], p)
  }

  function Last(fs: seq<File>, p: File -> bool): Option<File> {
    if fs == [] then None
    else if p(fs[|fs| - 1]) then Some(fs[|fs| - 1])
    else Last(fs[..|fs| - 1], p)
  }

  function HasId(id: u16): File -> bool { (f: File) => f.id == id }
  function HasSid(sid: byte): File -> bool { (f: File) => f.sid == sid }
  function HasName(name: bytes): File -> bool { (f: File) => (f.kind.Mf? || f.kind.Df?) && name <= f.spec }

  lemma {:induction false} FirstConcat(a: seq<File>, b: seq<File>, p: File -> bool)
    ensures First(a + b, p) == if First(a, p).Some? then First(a, p) else First(b, p)
  {
    if a == [] {
      assert a + b == b;
    } else {
      assert (a + b)[1..] == a[1..] + b;
      FirstConcat(a[1..], b, p);
    }
  }

  lemma {:induction false} LastConcat(a: seq<File>, b: seq<File>, p: File -> bool)
    ensures Last(a + b, p) == if Last(b, p).Some? then Last(b, p) else Last(a, p)
  {
    if b == [] {
      assert a + b == a;
    } else {
      assert (a + b)[..|a + b| - 1] == a + b[..|b| - 1];
      LastConcat(a, b[..|b| - 1], p);
    }
  }

  // The result of either is one of the files, and there is one unless no file matches.
  lemma {:induction false} FirstIsMatch(fs: seq<File>, p: File -> bool)
    ensures First(fs, p).Some? ==> First(fs, p).value in fs && p(First(fs, p).value)
    ensures First(fs, p).None? ==> forall f :: f in fs ==> !p(f)
  {
    if fs != [] {
      FirstIsMatch(fs[1..], p);
    }
  }

  lemma {:induction false} LastIsMatch(fs: seq<File>, p: File -> bool)
    ensures Last(fs, p).Some? ==> Last(fs, p).value in fs && p(Last(fs, p).value)
    ensures Last(fs, p).None? ==> forall f :: f in fs ==> !p(f)
  {
    if fs != [] {
      LastIsMatch(fs[..|fs| - 1], p);
      assert fs == fs[..|fs| - 1] + [fs[|fs| - 1]];
    }
  }

  // Twice in a row is as good as once.
  lemma DoubleHead(f: File, fs: seq<File>, p: File -> bool)
    requires fs != [] && fs[0] == f
    ensures First([f] + fs, p) == First(fs, p) && Last([f] + fs, p) == Last(fs, p)
  {
    FirstConcat([f], fs, p);
    LastConcat([f], fs, p);
    LastIsMatch(fs, p);
    assert f in fs;
    if p(f) {
      assert Last(fs, p).Some?;
    }
    assert [f][..0] == [];
  }

  // A recursive walk finds the same first and last matches as a plain pre-order list.
  lemma {:induction false} VisitsAgree(d: Dir, p: File -> bool)
    requires IsFolder(d.file.kind)
    ensures First(Visits(d, true), p) == First(Files(d), p)
    ensures Last(Visits(d, true), p) == Last(Files(d), p)
    decreases d, 0
  {
    VisitsFromAgree(d.kids, 0, p);
    FirstConcat([d.file], VisitsFrom(d.kids, 0, true), p);
    FirstConcat([d.file], FilesFrom(d.kids, 0), p);
    LastConcat([d.file], VisitsFrom(d.kids, 0, true), p);
    LastConcat([d.file], FilesFrom(d.kids, 0), p);
  }

  lemma {:induction false} VisitsFromAgree(ds: seq<Dir>, i: nat, p: File -> bool)
    requires i <= |ds|
    ensures First(VisitsFrom(ds, i, true), p) == First(FilesFrom(ds, i), p)
    ensures Last(VisitsFrom(ds, i, true), p) == Last(FilesFrom(ds, i), p)
    decreases ds, |ds| - i
  {
    if i < |ds| {
      VisitsOneAgree(ds[i], p);
      VisitsFromAgree(ds, i + 1, p);
      FirstConcat(VisitsOne(ds[i], true), VisitsFrom(ds, i + 1, true), p);
      FirstConcat(Files(ds[i]), FilesFrom(ds, i + 1), p);
      LastConcat(VisitsOne(ds[i], true), VisitsFrom(ds, i + 1, true), p);
      LastConcat(Files(ds[i]), FilesFrom(ds, i + 1), p);
    }
  }

  lemma {:induction false} VisitsOneAgree(d: Dir, p: File -> bool)
    ensures First(VisitsOne(d, true), p) == First(Files(d), p)
    ensures Last(VisitsOne(d, true), p) == Last(Files(d), p)
    decreases d, 1
  {
    if IsFolder(d.file.kind) {
      VisitsAgree(d, p);
      DoubleHead(d.file, Visits(d, true), p);
    }
  }

  // Every file listed is the file of a node.
  lemma {:induction false} FileNode(d: Dir, f: File) returns (n: Dir)
    requires f in Files(d)
    ensures n in Nodes(d) && n.file == f
    decreases d, 0
  {
    if f == d.file {
      n := d;
    } else {
      n := FileNodeFrom(d.kids, 0, f);
      assert d.kids[0..] == d.kids;
    }
  }

  lemma {:induction false} FileNodeFrom(ds: seq<Dir>, i: nat, f: File) returns (n: Dir)
    requires i <= |ds| && f in FilesFrom(ds, i)
    ensures n in NodesAll(ds[i..]) && n.file == f
    decreases ds, |ds| - i
  {
    assert ds[i..][0] == ds[i] && ds[i..][1..] == ds[i + 1..];
    if f in Files(ds[i]) {
      n := FileNode(ds[i], f);
    } else {
      n := FileNodeFrom(ds, i + 1, f);
    }
  }

  // ----- What a search finds -----

  lemma {:induction false} RunFindId(id: u16, st: State, fs: seq<File>)
    requires st.hit == None
    ensures Run(FindId(id), st, fs) ==
      var r := First(fs, HasId(id)); (st.(hit := r), r == None)
    decreases |fs|
  {
    if fs != [] && fs[0].id != id {
      RunFindId(id, st, fs[1..]);
    }
  }

  lemma {:induction false} RunFindName(name: bytes, st: State, fs: seq<File>)
    requires st.hit == None
    ensures Run(FindName(name), st, fs) ==
      var r := First(fs, HasName(name)); (st.(hit := r), r == None)
    decreases |fs|
  {
    if fs != [] && !HasName(name)(fs[0]) {
      RunFindName(name, st, fs[1..]);
    }
  }

  // ----- What the tables answer -----

  function IdAnswer(f: Option<File>, treeIdx: byte): Option<bytes> {
    if f.Some? then Some(IdVal(f.value.trel, treeIdx)) else None
  }

  function SidAnswer(f: Option<File>): Option<bytes> {
    if f.Some? then Some(Le(f.value.trel, 4)) else None
  }

  ghost predicate GoodTable(es: seq<Entry>, keySize: nat) { Sorted(es) && KeysOfSize(es, keySize) }

  lemma IdKeyInjective(a: u16, b: u16)
    ensures IdKey(a) == IdKey(b) <==> a == b
  {
    assert IdKey(a)[0] == a / 256 && IdKey(a)[1] == a % 256;
    assert IdKey(b)[0] == b / 256 && IdKey(b)[1] == b % 256;
  }

  // After a walk, an ID leads to the last file visited that has it, or to what it led to
  // before when there is none.
  lemma {:induction false} RunPutId(treeIdx: byte, st: State, fs: seq<File>, id: u16)
    requires GoodTable(st.es, 2)
    ensures var (st', go) := Run(PutId(treeIdx), st, fs);
      && go && GoodTable(st'.es, 2)
      && FirstMatch(st'.es, IdKey(id)) ==
           (var r := Last(fs, HasId(id));
            if id != 0 && r.Some? then IdAnswer(r, treeIdx) else FirstMatch(st.es, IdKey(id)))
    decreases |fs|
  {
    if fs != [] {
      var f := fs[0];
      var st' := Apply(PutId(treeIdx), st, f).0;
      if f.id != 0 {
        var e := Entry(IdKey(f.id), IdVal(f.trel, treeIdx));
        InsertedSorted(st.es, e);
        InsertedLookup(st.es, e, IdKey(id));
        IdKeyInjective(id, f.id);
      }
      RunPutId(treeIdx, st', fs[1..], id);
      assert fs == [f] + fs[1..];
      LastConcat([f], fs[1..], HasId(id));
      assert [f][..0] == [];
    }
  }

  lemma {:induction false} RunPutSid(st: State, fs: seq<File>, sid: byte)
    requires GoodTable(st.es, 1)
    ensures var (st', go) := Run(PutSid, st, fs);
      && go && GoodTable(st'.es, 1)
      && FirstMatch(st'.es, [sid]) ==
           (var r := Last(fs, HasSid(sid));
            if sid != 0 && r.Some? then SidAnswer(r) else FirstMatch(st.es, [sid]))
    decreases |fs|
  {
    if fs != [] {
      var f := fs[0];
      var st' := Apply(PutSid, st, f).0;
      if f.sid != 0 {
        var e := Entry([f.sid], Le(f.trel, 4));
        InsertedSorted(st.es, e);
        InsertedLookup(st.es, e, [sid]);
      }
      RunPutSid(st', fs[1..], sid);
      assert fs == [f] + fs[1..];
      LastConcat([f], fs[1..], HasSid(sid));
      assert [f][..0] == [];
    }
  }
}
