/** The flow of the repository's smoke test on one metadata service and one block store: start,
    create a file, write a block of it, read the block back, unlink the file. */
module EndToEnd {
  import opened Wrappers
  import opened Stripes
  import opened Metadata
  import opened Namespace
  import opened Protocol
  import opened Atomicity
  import opened Calls
  import opened Sanitize
  import opened Blocks
  import opened Cluster

  function Metas(es: seq<Event>): seq<Happening> {
    if es == [] then [] else Metas(es[..|es| - 1]) + [Meta(es[|es| - 1])]
  }

  lemma {:induction false} LastEvent(s: Sys, es: seq<Event>, e: Event)
    requires CanRun(s, es + [e])
    ensures CanRun(s, es) && Enabled(After(s, es), e) && After(s, es + [e]) == Next(After(s, es), e)
    decreases |es|
  {
    var all := es + [e];
    if es == [] {
      assert all[1..] == [];
    } else {
      assert all[1..] == es[1..] + [e];
      LastEvent(Next(s, es[0]), es[1..], e);
    }
  }

  /** Every run of the metadata service is a history of the cluster. */
  lemma {:induction false} RunIsHistory(es: seq<Event>)
    requires CanRun(Blank(0), es)
    ensures History(Metas(es)) && Reached(Metas(es)) == World(After(Blank(0), es), map[])
    decreases |es|
  {
    if es != [] {
      var before, e := es[..|es| - 1], es[|es| - 1];
      assert es == before + [e];
      LastEvent(Blank(0), before, e);
      RunIsHistory(before);
      assert Metas(es)[..|Metas(es)| - 1] == Metas(before);
    }
  }

  lemma OneBlock(fs: FS, file: string, chunk: nat, data: Bytes)
    requires fs == EMPTY_FS && Usable(file)
    ensures Serve(Serve(fs, Write(Some(BlockRef(file, chunk)), data)).0, Read(Some(BlockRef(file, chunk)), 0, 0)).1
            == Data(data)
  {
    var r := BlockRef(file, chunk);
    var w := [Write(Some(r), data)];
    assert w[..0] == [];
    assert ServeAll(EMPTY_FS, w) == Serve(EMPTY_FS, w[0]).0;
    ReadReturnsLastWrite(w, r, 0, 0);
    assert data[0..] == data;
  }

  /** The first file below the root can be created and found, its block reads back as written,
      and after its Unlink it is found no more. */
  lemma SmokeFlow(c: Config, unix: int, name: string, nanos: nat, ost: string, chunk: nat, data: Bytes)
    requires name != "" && '/' !in name && nanos < TWO63
    ensures var req, block := CreateRequest(ROOT, name, false, 0), BlockRef(IdOf(nanos), chunk);
            var hs := Metas([Restart(c, unix), Lock(CreateOp(req)), Mutate(nanos, unix), Commit, Reply])
                      + [OnBlocks(ost, Write(Some(block), data))];
            History(hs) && var w := Reached(hs);
            && Serve(StoreOf(w, ost), Read(Some(block), 0, 0)).1 == Data(data)
            && LookupOf(w.mds.mem, ROOT, name).Ok? && LookupOf(w.mds.mem, ROOT, name).value.Some?
            && LookupOf(w.mds.mem, ROOT, name).value.value.id == IdOf(nanos)
            && var (m, d, r) := UnlinkCall(w.mds.mem, w.mds.disk, ROOT, name, true);
               r == Unlinked(true) && LookupOf(m, ROOT, name) == Err(NotFound) && StatOf(m, IdOf(nanos)) == Err(NotFound)
  {
    var req, block := CreateRequest(ROOT, name, false, 0), BlockRef(IdOf(nanos), chunk);
    var es := [Restart(c, unix), Lock(CreateOp(req)), Mutate(nanos, unix), Commit, Reply];
    var write := OnBlocks(ost, Write(Some(block), data));
    FirstFile(c, unix, req, nanos);
    RunIsHistory(es);
    var hs := Metas(es) + [write];
    assert hs[..|hs| - 1] == Metas(es);
    MintedIsNormal(nanos);
    IdFacts(nanos);
    OneBlock(EMPTY_FS, IdOf(nanos), chunk, data);
    FileFoundAndGone(c, unix, req, nanos);
  }

  lemma FileFoundAndGone(c: Config, unix: int, req: CreateRequest, nanos: nat)
    requires req.parent == ROOT && req.name != "" && '/' !in req.name && !req.isDir && nanos < TWO63
    requires CanRun(Blank(0), [Restart(c, unix), Lock(CreateOp(req)), Mutate(nanos, unix), Commit, Reply])
    ensures var s := After(Blank(0), [Restart(c, unix), Lock(CreateOp(req)), Mutate(nanos, unix), Commit, Reply]);
            && LookupOf(s.mem, ROOT, req.name).Ok? && LookupOf(s.mem, ROOT, req.name).value.Some?
            && LookupOf(s.mem, ROOT, req.name).value.value.id == IdOf(nanos)
            && var (m, d, r) := UnlinkCall(s.mem, s.disk, ROOT, req.name, true);
               && r == Unlinked(true) && LookupOf(m, ROOT, req.name) == Err(NotFound)
               && StatOf(m, IdOf(nanos)) == Err(NotFound)
  {
    var es := [Restart(c, unix), Lock(CreateOp(req)), Mutate(nanos, unix), Commit, Reply];
    FirstFile(c, unix, req, nanos);
    RunStaysGood(Blank(0), es);
    var s := After(Blank(0), es);
    var i := s.mem.inodes[IdOf(nanos)];
    IdFacts(nanos);
    LookupMeetsScan(s.mem, ROOT, req.name, i);
    assert UnlinkCheck(s.mem, ROOT, req.name) == Remove(i);
    UnlinkShows(s.mem, s.disk, ROOT, req.name);
  }
}
