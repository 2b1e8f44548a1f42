// The walk over the files of a tree.  It calls back for the start file and for every file in
// it; with recursion a nested folder is the start of another walk and so is called back for
// twice.  The callbacks are the ones the repository uses.
module DiskWalk {
  import opened Bytes
  import opened FsFormat
  import opened Lut

  // What a callback does with a file.
  datatype Rule =
    | PutId(treeIdx: byte)   // Add to the ID table.
    | PutSid                 // Add to the SID table.
    | FindId(id: u16)        // Stop at the first file with this ID.
    | FindName(name: bytes)  // Stop at the first MF or DF whose name starts like this.

  // What the callback's user data holds: the table it fills, or the file it found.
  datatype State = State(es: seq<Entry>, hit: Option<File>)

  function IdKey(id: u16): (k: bytes)
    ensures |k| == 2
  {
    [id / 256, id % 256]
  }

  function IdVal(off: nat, treeIdx: byte): bytes { Le(off, 4) + [treeIdx] }

  // The state after one file, and whether the walk goes on.
  function Apply(rule: Rule, st: State, f: File): (State, bool) {
    match rule
    case PutId(treeIdx) =>
      (if f.id == 0 then st else st.(es := Inserted(st.es, Entry(IdKey(f.id), IdVal(f.trel, treeIdx)))), true)
    case PutSid =>
      (if f.sid == 0 then st else st.(es := Inserted(st.es, Entry([f.sid], Le(f.trel, 4)))), true)
    case FindId(id) =>
      if f.id == id then (st.(hit := Some(f)), false) else (st, true)
    case FindName(name) =>
      if (f.kind.Mf? || f.kind.Df?) && name <= f.spec then (st.(hit := Some(f)), false) else (st, true)
  }

  function Run(rule: Rule, st: State, fs: seq<File>): (State, bool)
    decreases |fs|
  {
    if fs == [] then (st, true)
    else
      var (st', go) := Apply(rule, st, fs[0]);
      if go then Run(rule, st', fs[1..]) else (st', false)
  }

  // Running on after a first run, unless that one stopped.
  function RunOn(rule: Rule, r: (State, bool), fs: seq<File>): (State, bool) {
    if r.1 then Run(rule, r.0, fs) else r
  }

  lemma {:induction false} RunConcat(rule: Rule, st: State, a: seq<File>, b: seq<File>)
    ensures Run(rule, st, a + b) == RunOn(rule, Run(rule, st, a), b)
    decreases |a|
  {
    if a == [] {
      assert a + b == b;
    } else {
      var (st', go) := Apply(rule, st, a[0]);
      assert (a + b)[0] == a[0] && (a + b)[1..] == a[1..] + b;
      if go {
        RunConcat(rule, st', a[1..], b);
      }
    }
  }

  // ----- Which files a walk calls back for, in order -----

  function Visits(d: Dir, recurse: bool): seq<File>
    decreases d, 1
  {
    [d.file] + VisitsFrom(d.kids, 0, recurse)
  }

  function VisitsFrom(ds: seq<Dir>, i: nat, recurse: bool): seq<File>
    requires i <= |ds|
    decreases ds, |ds| - i
  {
    if i == |ds| then [] else VisitsOne(ds[i], recurse) + VisitsFrom(ds, i + 1, recurse)
  }

  function VisitsOne(d: Dir, recurse: bool): seq<File>
    decreases d, 2
  {
    [d.file] + (if recurse && IsFolder(d.file.kind) then Visits(d, true) else [])
  }

  // A callback and its user data.
  class Visitor {
    const rule: Rule
    const table: Table
    var hit: Option<File>

    constructor (rule: Rule, table: Table)
      ensures this.rule == rule && this.table == table && hit == None
    {
      this.rule, this.table := rule, table;
      hit := None;
    }

    ghost function Frame(): set<object>
      reads table
    {
      {this} + table.Frame()
    }

    ghost predicate Valid()
      reads table, table.buf1, table.buf2
    {
      && table.Valid()
      && (rule.PutId? ==> table.keySize == 2)
      && (rule.PutSid? ==> table.keySize == 1)
    }

    ghost function Now(): State
      reads this, table
    {
      State(table.es, hit)
    }

    // The callback.
    method Call(f: File) returns (ret: Ret)
      requires Valid()
      modifies Frame()
      ensures Valid() && fresh(Frame() - old(Frame()))
      ensures (Now(), ret == Success) == Apply(rule, old(Now()), f)
      ensures ret == Success || ret == Error
    {
      ret := Success;
      match rule
      case PutId(treeIdx) =>
        if f.id != 0 {
          table.Insert(IdKey(f.id), IdVal(f.trel, treeIdx));
        }
      case PutSid =>
        if f.sid != 0 {
          table.Insert([f.sid], Le(f.trel, 4));
        }
      case FindId(id) =>
        if f.id == id {
          hit := Some(f);
          ret := Error; // Stops the walk.
        }
      case FindName(name) =>
        if (f.kind.Mf? || f.kind.Df?) && name <= f.spec {
          hit := Some(f);
          ret := Error;
        }
    }
  }

  // The walk has called back for `done`, everything up to the kid `i`, which is at `offset`.
  ghost predicate Walked(rule: Rule, st: State, now: State, done: seq<File>, d: Dir, i: nat, recurse: bool,
      h: Headers, offset: nat) {
    && i <= |d.kids|
    && Run(rule, st, done) == (now, true)
    && Visits(d, recurse) == done + VisitsFrom(d.kids, i, recurse)
    && ReadKids(h, d.file.trel + offset, d.file.trel, d.file.trel + d.file.size) == Some(d.kids[i..])
  }

  // A whole walk over `d` leads from `st` to `now`, to its end or stopped early.
  ghost predicate Walks(rule: Rule, st: State, d: Dir, recurse: bool, now: State, go: bool) {
    Run(rule, st, Visits(d, recurse)) == (now, go)
  }

  lemma WalkedStart(rule: Rule, st: State, now: State, done: seq<File>, d: Dir, recurse: bool, h: Headers, par: nat,
      end: nat, offset: nat)
    requires done == [d.file] && offset == HdrSize(d.file.kind)
    requires Apply(rule, st, d.file) == (now, true)
    requires IsFolder(d.file.kind) && Read(h, d.file.trel, par, end) == Some(d)
    ensures Walked(rule, st, now, done, d, 0, recurse, h, offset)
  {
    RunOne(rule, st, d.file);
    assert d.kids[0..] == d.kids;
  }

  lemma WalkedNowhere(rule: Rule, st: State, now: State, d: Dir, recurse: bool)
    requires Apply(rule, st, d.file) == (now, false)
    ensures Walks(rule, st, d, recurse, now, false)
  {
    RunOne(rule, st, d.file);
    RunConcat(rule, st, [d.file], VisitsFrom(d.kids, 0, recurse));
  }

  lemma WalkedMore(rule: Rule, st: State, now: State, done: seq<File>, d: Dir, i: nat, recurse: bool, h: Headers,
      offset: nat, next: State, go: bool, more: seq<File>, after: nat)
    requires Walked(rule, st, now, done, d, i, recurse, h, offset) && offset < d.file.size && i < |d.kids|
    requires (next, go) == Run(rule, now, VisitsOne(d.kids[i], recurse))
    requires more == done + VisitsOne(d.kids[i], recurse) && after == offset + d.kids[i].file.size
    ensures go ==> Walked(rule, st, next, more, d, i + 1, recurse, h, after)
    ensures !go ==> Walks(rule, st, d, recurse, next, false)
  {
    var one, rest := VisitsOne(d.kids[i], recurse), VisitsFrom(d.kids, i + 1, recurse);
    RunConcat(rule, st, done, one);
    Assoc(done, one, rest);
    RunConcat(rule, st, more, rest);
    KidsHead(h, d.file.trel + offset, d.file.trel, d.file.trel + d.file.size, d.kids, i);
  }

  lemma WalkedEnd(rule: Rule, st: State, now: State, done: seq<File>, d: Dir, i: nat, recurse: bool, h: Headers,
      offset: nat)
    requires Walked(rule, st, now, done, d, i, recurse, h, offset) && offset >= d.file.size
    ensures Walks(rule, st, d, recurse, now, true)
  {
    assert d.kids[i..] == [];
    assert done + [] == done;
  }

  // `swicc_disk_file_foreach` on a folder of a well-formed tree, or on a file the walk stops at.
  method FileForeach(buf: bytes, file: File, v: Visitor, recurse: bool, ghost d: Dir, ghost par: nat, ghost end: nat)
    returns (ret: Ret)
    requires v.Valid() && d.file == file
    requires IsFolder(file.kind) || !Apply(v.rule, v.Now(), file).1
    requires Read(HeadersOf(buf), file.trel, par, end) == Some(d)
    modifies v.Frame()
    ensures v.Valid() && fresh(v.Frame() - old(v.Frame()))
    ensures Walks(v.rule, old(v.Now()), d, recurse, v.Now(), ret == Success)
    ensures ret == Success || ret == Error
    decreases d, 0, 1
  {
    ghost var st, h, done, i := v.Now(), HeadersOf(buf), [file], 0;
    ret := v.Call(file);
    if ret != Success {
      WalkedNowhere(v.rule, st, v.Now(), d, recurse);
      return;
    }
    var offset: nat := HdrSize(file.kind);
    WalkedStart(v.rule, st, v.Now(), done, d, recurse, h, par, end, offset);
    while offset < file.size
      invariant v.Valid() && fresh(v.Frame() - old(v.Frame())) && ret == Success
      invariant Walked(v.rule, st, v.Now(), done, d, i, recurse, h, offset)
      decreases |d.kids| - i
    {
      ret, offset, done := WalkNext(buf, file, v, recurse, offset, d, i, st, done, h);
      if ret != Success {
        return;
      }
      i := i + 1;
    }
    WalkedEnd(v.rule, st, v.Now(), done, d, i, recurse, h, offset);
  }

  // The next file of the folder.
  method WalkNext(buf: bytes, file: File, v: Visitor, recurse: bool, offset: nat, ghost d: Dir, ghost i: nat,
      ghost st: State, ghost done: seq<File>, ghost h: Headers)
    returns (ret: Ret, next: nat, ghost more: seq<File>)
    requires v.Valid() && d.file == file && offset < file.size
    requires h == HeadersOf(buf) && Walked(v.rule, st, v.Now(), done, d, i, recurse, h, offset)
    modifies v.Frame()
    ensures v.Valid() && fresh(v.Frame() - old(v.Frame())) && i < |d.kids|
    ensures ret == Success || ret == Error
    ensures ret == Success ==> Walked(v.rule, st, v.Now(), more, d, i + 1, recurse, h, next)
    ensures ret != Success ==> Walks(v.rule, st, d, recurse, v.Now(), false)
    decreases d, 0, 0
  {
    ghost var now := v.Now();
    KidsHead(h, file.trel + offset, file.trel, file.trel + file.size, d.kids, i);
    var nested := FilePrs(buf, file.trel + offset).value;
    assert nested == d.kids[i].file;
    next, more := offset + nested.size, done + VisitsOne(d.kids[i], recurse);
    ret := WalkOne(buf, nested, v, recurse, d.kids[i], file.trel, file.trel + file.size);
    WalkedMore(v.rule, st, now, done, d, i, recurse, h, offset, v.Now(), ret == Success, more, next);
  }

  // The next file of a folder, and what is left.
  lemma KidsHead(h: Headers, off: nat, par: nat, end: nat, ds: seq<Dir>, i: nat)
    requires i <= |ds| && off < end && ReadKids(h, off, par, end) == Some(ds[i..])
    ensures i < |ds| && Read(h, off, par, end) == Some(ds[i]) && h(off) == Some(ds[i].file) && ds[i].file.trel == off
    ensures ReadKids(h, off + ds[i].file.size, par, end) == Some(ds[i + 1..])
  {
    var d := Read(h, off, par, end).value;
    assert ds[i..][0] == d == ds[i];
    assert ds[i..][1..] == ds[i + 1..] == ReadKids(h, off + d.file.size, par, end).value;
  }

  // One file of a folder: the callback, then the walk into it.
  method WalkOne(buf: bytes, nested: File, v: Visitor, recurse: bool, ghost d: Dir, ghost par: nat, ghost end: nat)
    returns (ret: Ret)
    requires v.Valid() && d.file == nested
    requires Read(HeadersOf(buf), nested.trel, par, end) == Some(d)
    modifies v.Frame()
    ensures v.Valid() && fresh(v.Frame() - old(v.Frame()))
    ensures Run(v.rule, old(v.Now()), VisitsOne(d, recurse)) == (v.Now(), ret == Success)
    ensures ret == Success || ret == Error
    decreases d, 1
  {
    ghost var st := v.Now();
    ret := v.Call(nested);
    RunOne(v.rule, st, nested);
    if ret == Success && IsFolder(nested.kind) && recurse {
      ret := FileForeach(buf, nested, v, true, d, par, end);
      RunConcat(v.rule, st, [nested], Visits(d, true));
    } else {
      RunConcat(v.rule, st, [nested], if recurse && IsFolder(nested.kind) then Visits(d, true) else []);
    }
  }

  lemma RunOne(rule: Rule, st: State, f: File)
    ensures Run(rule, st, [f]) == Apply(rule, st, f)
  {
    var (st', go) := Apply(rule, st, f);
    assert [f][1..] == [];
    assert Run(rule, st', []) == (st', true);
  }
}
