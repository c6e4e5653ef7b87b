/** The metadata service and any number of block stores together. Unlink never deletes blocks;
    new files are blank all the same, because ids are never reused. */
module Cluster {
  import opened Wrappers
  import opened Metadata
  import opened Protocol
  import opened Sanitize
  import opened Blocks

  datatype World = World(mds: Sys, stores: map<string, FS>)

  /** Anything the metadata service can do, failed transactions and crashes included, or a
      block request to one store. */
  datatype Happening = Meta(event: Event) | OnBlocks(ost: string, req: Request)

  function StoreOf(w: World, ost: string): FS {
    if ost in w.stores then w.stores[ost] else EMPTY_FS
  }

  /** Clients address blocks only by ids the metadata service has minted. */
  predicate Possible(w: World, h: Happening) {
    match h
    case Meta(e) => Enabled(w.mds, e)
    case OnBlocks(ost, req) => req.block.Some? ==> Minted(req.block.value.file, w.mds.clock)
  }

  ghost function Step(w: World, h: Happening): World
    requires Possible(w, h)
  {
    match h
    case Meta(e) => w.(mds := Next(w.mds, e))
    case OnBlocks(ost, req) => w.(stores := w.stores[ost := Serve(StoreOf(w, ost), req).0])
  }

  /** The happenings can follow one another from an empty cluster. */
  ghost predicate History(hs: seq<Happening>)
    decreases |hs|, 0
  {
    hs == [] || (History(hs[..|hs| - 1]) && Possible(Reached(hs[..|hs| - 1]), hs[|hs| - 1]))
  }

  ghost function Reached(hs: seq<Happening>): World
    requires History(hs)
    decreases |hs|, 1
  {
    if hs == [] then World(Blank(0), map[]) else Step(Reached(hs[..|hs| - 1]), hs[|hs| - 1])
  }

  function Requests(hs: seq<Happening>, ost: string): seq<Request> {
    if hs == [] then []
    else
      var h := hs[|hs| - 1];
      Requests(hs[..|hs| - 1], ost) + if h.OnBlocks? && h.ost == ost then [h.req] else []
  }

  lemma {:induction false} StoreIsReplay(hs: seq<Happening>, ost: string)
    requires History(hs)
    ensures StoreOf(Reached(hs), ost) == ServeAll(EMPTY_FS, Requests(hs, ost))
  {
    if hs != [] {
      var before, h := hs[..|hs| - 1], hs[|hs| - 1];
      StoreIsReplay(before, ost);
      if h.OnBlocks? && h.ost == ost {
        var reqs := Requests(before, ost);
        assert (reqs + [h.req])[..|reqs|] == reqs;
      } else {
        assert Requests(hs, ost) == Requests(before, ost);
      }
    }
  }

  /** Every request of a history names an id minted by then. */
  lemma {:induction false} RequestsAreMinted(hs: seq<Happening>, ost: string)
    requires History(hs)
    ensures forall r :: r in Requests(hs, ost) && r.block.Some? ==> Minted(r.block.value.file, Reached(hs).mds.clock)
  {
    if hs != [] {
      var before, h := hs[..|hs| - 1], hs[|hs| - 1];
      RequestsAreMinted(before, ost);
      if h.Meta? { ClockAdvances(Reached(before).mds, h.event); }
    }
  }

  lemma ClockAdvances(s: Sys, e: Event)
    requires Enabled(s, e)
    ensures s.clock <= Next(s, e).clock
  {
  }

  lemma {:induction false} RequestsAppend(hs: seq<Happening>, later: seq<Happening>, ost: string)
    ensures Requests(hs + later, ost) == Requests(hs, ost) + Requests(later, ost)
  {
    if later == [] {
      assert hs + later == hs;
    } else {
      RequestsAppend(hs, later[..|later| - 1], ost);
      assert (hs + later)[..|hs + later| - 1] == hs + later[..|later| - 1];
    }
  }

  lemma {:induction false} OldRequestsDoNotMatter(a: seq<Request>, b: seq<Request>, k: (string, nat))
    requires forall r :: r in a && r.block.Some? ==> SlotOf(r.block.value) != k
    ensures LastWrite(a + b, k) == LastWrite(b, k)
  {
    if b != [] {
      assert (a + b)[..|a + b| - 1] == a + b[..|b| - 1];
      OldRequestsDoNotMatter(a, b[..|b| - 1], k);
    } else {
      assert a + b == a;
      UntouchedSlot(a, k);
    }
  }

  lemma {:induction false} UntouchedSlot(a: seq<Request>, k: (string, nat))
    requires forall r :: r in a && r.block.Some? ==> SlotOf(r.block.value) != k
    ensures LastWrite(a, k) == None
  {
    if a != [] {
      UntouchedSlot(a[..|a| - 1], k);
    }
  }

  lemma MintedIsUsable(file: string, clock: nat, nanos: nat)
    requires Minted(file, clock)
    ensures Usable(file) && Sanitized(file) == file
    ensures clock <= nanos ==> file != IdOf(nanos)
  {
    MintedIsNormal(Stamp(file));
    IdFacts(nanos);
  }

  lemma RequestsAreUsable(hs: seq<Happening>, ost: string)
    requires History(hs)
    ensures forall r :: r in Requests(hs, ost) ==> UsableRequest(r)
  {
    RequestsAreMinted(hs, ost);
    forall r | r in Requests(hs, ost) && r.block.Some? ensures Usable(r.block.value.file) {
      MintedIsUsable(r.block.value.file, Reached(hs).mds.clock, 0);
    }
  }

  /** No request so far names the id of a clock reading still to come. */
  lemma FutureIdUntouched(hs: seq<Happening>, ost: string, nanos: nat, chunk: nat)
    requires History(hs) && Reached(hs).mds.clock <= nanos
    ensures forall r :: r in Requests(hs, ost) && r.block.Some? ==> SlotOf(r.block.value) != (IdOf(nanos), chunk)
  {
    RequestsAreMinted(hs, ost);
    forall r | r in Requests(hs, ost) && r.block.Some? ensures SlotOf(r.block.value) != (IdOf(nanos), chunk) {
      MintedIsUsable(r.block.value.file, Reached(hs).mds.clock, nanos);
    }
  }

  lemma ReadsSeeTheFuture(hs: seq<Happening>, later: seq<Happening>, nanos: nat,
                          ost: string, chunk: nat, offset: nat, length: nat)
    requires History(hs) && Reached(hs).mds.clock <= nanos && History(hs + later)
    ensures Serve(StoreOf(Reached(hs + later), ost), Read(Some(BlockRef(IdOf(nanos), chunk)), offset, length)).1 ==
            match LastWrite(Requests(later, ost), (IdOf(nanos), chunk))
            case Some(data) => Data(Window(data, offset, length))
            case None => Failed(NotFound)
  {
    RequestsAppend(hs, later, ost);
    FutureIdUntouched(hs, ost, nanos, chunk);
    OldRequestsDoNotMatter(Requests(hs, ost), Requests(later, ost), (IdOf(nanos), chunk));
    StoreIsReplay(hs + later, ost);
    RequestsAreUsable(hs + later, ost);
    MintedIsNormal(nanos);
    ReadReturnsLastWrite(Requests(hs + later, ost), BlockRef(IdOf(nanos), chunk), offset, length);
  }

  /** No stale data: take any history, let a Create then mint an id, and let anything at all
      follow. A read of that file's blocks on any store returns the last write made after the
      Create, or finds nothing; whatever was written before, under any id and never deleted,
      does not show. */
  lemma NewFilesAreBlank(hs: seq<Happening>, nanos: nat, unix: int, later: seq<Happening>,
                         ost: string, chunk: nat, offset: nat, length: nat)
    requires History(hs) && Possible(Reached(hs), Meta(Mutate(nanos, unix))) && Reached(hs).mds.phase.op.CreateOp?
    requires History(hs + ([Meta(Mutate(nanos, unix))] + later))
    ensures var made := Next(Reached(hs).mds, Mutate(nanos, unix)).phase;
            made.Mutated? ==> made.change.Created? && made.change.inode.id == IdOf(nanos)
    ensures var end := Reached(hs + ([Meta(Mutate(nanos, unix))] + later));
            Serve(StoreOf(end, ost), Read(Some(BlockRef(IdOf(nanos), chunk)), offset, length)).1 ==
            match LastWrite(Requests(later, ost), (IdOf(nanos), chunk))
            case Some(data) => Data(Window(data, offset, length))
            case None => Failed(NotFound)
  {
    MutateMints(Reached(hs).mds, nanos, unix);
    ReadsSeeTheFuture(hs, [Meta(Mutate(nanos, unix))] + later, nanos, ost, chunk, offset, length);
    MetaSendsNothing(Mutate(nanos, unix), later, ost);
  }

  lemma MutateMints(s: Sys, nanos: nat, unix: int)
    requires Enabled(s, Mutate(nanos, unix)) && s.phase.op.CreateOp?
    ensures s.clock <= nanos
    ensures var p := Next(s, Mutate(nanos, unix)).phase;
            p.Mutated? ==> p.change.Created? && p.change.inode.id == IdOf(nanos)
  {
  }

  lemma MetaSendsNothing(e: Event, later: seq<Happening>, ost: string)
    ensures Requests([Meta(e)] + later, ost) == Requests(later, ost)
  {
    RequestsAppend([Meta(e)], later, ost);
    assert [Meta(e)][..0] == [];
  }
}
