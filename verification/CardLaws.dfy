// What holds of the card over any run of commands: consistency of what is selected, reads and
// updates that happen completely or not at all, updates that reach exactly one record, and
// responses that arrive complete.
module CardLaws {
  import opened Bytes
  import opened Memory
  import opened FsFormat
  import opened Lut
  import opened DiskIndex
  import opened Disk
  import opened VaSpec
  import opened PathBytes
  import opened FileSys
  import opened ApduRc
  import opened Apdu
  import opened Fci
  import opened ApduhSpec
  import opened Apduh

  // The trees and tables a disk was mounted with.
  datatype Mount = Mount(ds: seq<Dir>, sids: seq<seq<Entry>>, ids: seq<Entry>)

  ghost predicate Good(k: Mount, c: Card) {
    Mounted(k.ds, c.bufs, k.sids, k.ids) && VaOk(k.ds, c.va) && c.rc.Ok()
  }

  // ----- Every command keeps the card consistent -----

  lemma AddressedOk(k: Mount, c: Card, t: Target)
    requires Good(k, c) && Addressable(k.ds, c.va, t)
    ensures VaOk(k.ds, Addressed(k.ds, c.va, t))
  {
    ForestIsGood(k.ds, c.bufs);
    SelectedOk(k.ds, c.va, c.va.tree.value, t.f);
  }

  lemma AddressedRcrdOk(k: Mount, c: Card, t: Target)
    requires Good(k, c) && RcrdFound(k.ds, c.va, t)
    ensures VaOk(k.ds, AddressedRcrd(k.ds, c.va, t))
    ensures var va := AddressedRcrd(k.ds, c.va, t);
      va.ef == Some(t.f) && va.tree == c.va.tree && va.rcrd as nat < RcrdCnt(t.f)
  {
    AddressedOk(k, c, t);
    AddressedIs(k.ds, c.va, t);
    SelectRcrdOk(k.ds, Addressed(k.ds, c.va, t), t.at);
  }

  // The path leads to bytes that are no file's.
  ghost predicate LeadsOff(ds: seq<Dir>, c: Card, p1: byte, p2: byte, data: bytes)
    requires |c.bufs| == |ds|
  {
    && PathCmd(p1, p2, data) && CodePath(ds, c.bufs, c.va, FromOf(p1), Ids(data)).Some?
    && Planted(ds, c.bufs, c.va, FromOf(p1), Ids(data))
  }

  lemma SelectByOk(k: Mount, c: Card, p1: byte, p2: byte, data: bytes)
    requires Good(k, c) && !PathCmd(p1, p2, data) && Supported(p1)
    ensures var o := SelectBy(k.ds, c.bufs, c.va, p1, p2, data);
      VaOk(k.ds, o.va) && (o.ret != Success ==> o.va == c.va)
  {
    var ds := k.ds;
    ForestIsGood(ds, c.bufs);
    if p1 == 0 && |data| == 2 {
      var id := 256 * data[0] as int + data[1] as int;
      ByIdFound(ds, id);
      SelectOk(ds, c.va, ById(ds, id));
    } else if p1 == 4 && 5 <= |data| <= NAME_LEN {
      ByAidFound(ds, 1, data);
      ByNameFound(ds, data);
      SelectOk(ds, c.va, ByAid(ds, 1, data));
      SelectOk(ds, c.va, ByName(ds, data));
    }
  }

  // A selection keeps the validity area consistent exactly when no path leads it off the tree.
  lemma SelectByExactly(k: Mount, c: Card, p1: byte, p2: byte, data: bytes)
    requires Good(k, c) && Supported(p1)
    ensures var o := SelectBy(k.ds, c.bufs, c.va, p1, p2, data);
      && (VaOk(k.ds, o.va) <==> !LeadsOff(k.ds, c, p1, p2, data))
      && (o.ret != Success ==> o.va == c.va)
  {
    if PathCmd(p1, p2, data) {
      if CodePath(k.ds, c.bufs, c.va, FromOf(p1), Ids(data)).Some? {
        PathKeepsExactly(k.ds, c.bufs, c.va, FromOf(p1), Ids(data));
      }
    } else {
      SelectByOk(k, c, p1, p2, data);
    }
  }

  lemma WrittenOk(k: Mount, c: Card, t: Target, data: bytes)
    requires Good(k, c) && RcrdFound(k.ds, c.va, t) && |data| == RcrdLen(t.f)
    ensures Mounted(k.ds, Written(k.ds, c, RcrdAt(t.f, t.at), data), k.sids, k.ids)
    ensures RcrdAt(t.f, t.at) + |data| <= |CurBuf(k.ds, c)|
  {
    var tree := c.va.tree.value;
    FileInside(k.ds, c.bufs, k.sids, k.ids, tree, t.f);
    RcrdInside(t.f, t.at);
    MountedAfterWrite(k.ds, c.bufs, k.sids, k.ids, tree, t.f, RcrdAt(t.f, t.at), data);
  }

  lemma TellKeeps(c: Card, f: File, req: Request, b: bytes)
    requires c.rc.Ok()
    ensures var d := TellFile(c, f, req, b).card; d == c.(rc := d.rc) && d.rc.Ok()
  {}

  lemma ReplyKeeps(c: Card, ret: Ret, req: Request, b: bytes)
    requires c.rc.Ok()
    ensures var d := SelectReply(c, ret, req, b).card; d == c.(rc := d.rc) && d.rc.Ok()
  {
    if c.va.file.Some? {
      TellKeeps(c, c.va.file.value, req, b);
    }
  }

  // A SELECT that gets as far as selecting bytes that are no file's.
  ghost predicate SelectsOff(ds: seq<Dir>, c: Card, cmd: Cmd, pc: nat)
    requires |c.bufs| == |ds|
  {
    SelectRefused(cmd, pc).None? && LeadsOff(ds, c, cmd.p1, cmd.p2, cmd.data)
  }

  lemma SelectKeeps(k: Mount, c: Card, cmd: Cmd, pc: nat, b: bytes)
    requires Good(k, c)
    ensures Good(k, SelectCmd(k.ds, c, cmd, pc, b).card) <==> !SelectsOff(k.ds, c, cmd, pc)
  {
    if SelectRefused(cmd, pc).None? {
      SelectByExactly(k, c, cmd.p1, cmd.p2, cmd.data);
      var o := SelectBy(k.ds, c.bufs, c.va, cmd.p1, cmd.p2, cmd.data);
      ReplyKeeps(c.(va := o.va), o.ret, RequestOf(cmd.p2), b);
    }
  }

  lemma UpdateKeeps(k: Mount, c: Card, cmd: Cmd, pc: nat, b: bytes)
    requires Good(k, c)
    ensures Good(k, UpdateRecord(k.ds, c, cmd, pc, b).card)
  {
    var v := UpdateVerdict(k.ds, c.va, cmd, pc);
    if v.Go? {
      RcrdTargetFound(k.ds, c.va, cmd.p1, cmd.p2);
      AddressedRcrdOk(k, c, v.t);
      WrittenOk(k, c, v.t, cmd.data);
    }
  }

  lemma ReadKeeps(k: Mount, c: Card, cmd: Cmd, pc: nat, b: bytes)
    requires Good(k, c)
    ensures Good(k, ReadBinary(k.ds, c, cmd, pc, b).card) && Good(k, ReadRecord(k.ds, c, cmd, pc, b).card)
  {
    var v, w := BinaryVerdict(k.ds, c.va, cmd, pc), ReadVerdict(k.ds, c.va, cmd, pc);
    if v.Go? {
      BinaryFound(k.ds, c.va, cmd, pc);
      AddressedOk(k, c, v.t);
    }
    if w.Go? {
      RcrdTargetFound(k.ds, c.va, cmd.p1, cmd.p2);
      AddressedRcrdOk(k, c, w.t);
    }
  }

  // Every command keeps the card consistent, but for a SELECT by a path that strays.
  lemma CommandKeeps(k: Mount, c: Card, cmd: Cmd, pc: nat, b: bytes)
    requires Good(k, c) && !Strays(k.ds, c, cmd, pc)
    ensures Good(k, Demux(k.ds, c, cmd, pc, b).card)
  {
    CommandEither(k, c, cmd, pc, b);
  }

  // And one that strays, where the code gives it a meaning, breaks it.
  lemma CommandKeepsExactly(k: Mount, c: Card, cmd: Cmd, pc: nat, b: bytes)
    requires Good(k, c) && (cmd.ins == 0xA4 ==> CmdDefined(k.ds, c, cmd))
    ensures Good(k, Demux(k.ds, c, cmd, pc, b).card) <==> !Strays(k.ds, c, cmd, pc)
  {
    CommandEither(k, c, cmd, pc, b);
  }

  lemma CommandEither(k: Mount, c: Card, cmd: Cmd, pc: nat, b: bytes)
    requires Good(k, c)
    ensures Good(k, Demux(k.ds, c, cmd, pc, b).card) <==>
      !(ClaParse(cmd.cla).typ == Interindustry && cmd.ins == 0xA4 && SelectsOff(k.ds, c, cmd, pc))
  {
    if ClaParse(cmd.cla).typ == Interindustry {
      if cmd.ins == 0xC0 {
        GetKeeps(k, c, cmd, pc, b);
      } else if cmd.ins == 0xA4 {
        SelectKeeps(k, c.(rc := EMPTY), cmd, pc, b);
      } else {
        OtherKeeps(k, c.(rc := EMPTY), cmd, pc, b);
      }
    }
  }

  lemma GetKeeps(k: Mount, c: Card, cmd: Cmd, pc: nat, b: bytes)
    requires Good(k, c)
    ensures var d := GetResponse(c, cmd, pc, b).card; Good(k, d) && d == c.(rc := d.rc)
  {}

  lemma OtherKeeps(k: Mount, c: Card, cmd: Cmd, pc: nat, b: bytes)
    requires Good(k, c) && cmd.ins != 0xA4
    ensures Good(k, Handle(k.ds, c, cmd, pc, b).card)
  {
    if cmd.ins == 0xDC || cmd.ins == 0xDD {
      UpdateKeeps(k, c, cmd, pc, b);
    } else {
      ReadKeeps(k, c, cmd, pc, b);
    }
  }

  // A path through folders does not stray.
  lemma FoldersDoNotStray(k: Mount, c: Card, cmd: Cmd, pc: nat)
    requires Good(k, c) && CmdOk(k.ds, c.va, cmd)
    ensures !Strays(k.ds, c, cmd, pc)
  {
    if PathCmd(cmd.p1, cmd.p2, cmd.data) {
      PathAgrees(k.ds, c.bufs, c.va, FromOf(cmd.p1), Ids(cmd.data));
      FoldersKeep(k.ds, c.bufs, c.va, FromOf(cmd.p1), Ids(cmd.data));
    }
  }

  // One call of the handlers.
  datatype Call = Call(cmd: Cmd, pc: nat, b: bytes)

  // No call of a run strays on the card it finds.
  ghost predicate Stays(k: Mount, c: Card, calls: seq<Call>)
    requires Good(k, c)
    decreases |calls|
  {
    calls == [] ||
    (!Strays(k.ds, c, calls[0].cmd, calls[0].pc) &&
     (CommandKeeps(k, c, calls[0].cmd, calls[0].pc, calls[0].b);
      Stays(k, Demux(k.ds, c, calls[0].cmd, calls[0].pc, calls[0].b).card, calls[1..])))
  }

  // Over every such run the disk stays mounted and what is selected stays consistent.
  ghost function Ran(k: Mount, c: Card, calls: seq<Call>): (r: Card)
    requires Good(k, c) && Stays(k, c, calls)
    ensures Good(k, r)
    decreases |calls|
  {
    if calls == [] then c
    else
      CommandKeeps(k, c, calls[0].cmd, calls[0].pc, calls[0].b);
      Ran(k, Demux(k.ds, c, calls[0].cmd, calls[0].pc, calls[0].b).card, calls[1..])
  }
}
