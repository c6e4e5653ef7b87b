/** Whole calls of the write path, their effect on the tree, and their place among the small
    steps. */
module Calls {
  import opened Text
  import opened Wrappers
  import opened Stripes
  import opened Metadata
  import opened Namespace
  import opened Recovery
  import opened Protocol

  datatype CreateReply = Made(inode: Inode) | CreateFailed(code: Code) | Panicked

  datatype UnlinkReply = Unlinked(deleted: bool) | UnlinkFailed(code: Code)

  /** A whole Create, given whether its transaction commits. */
  function CreateCall(c: Config, m: Mem, d: Disk, req: CreateRequest, nanos: nat, unix: int, commits: bool)
    : (Mem, Disk, CreateReply)
  {
    match CreateCheck(m, req)
    case Some(code) => (m, d, CreateFailed(code))
    case None =>
      match NewInode(c, m, req, nanos, unix)
      case None => (m.(rr := Bump(m.rr)), d, Panicked)
      case Some(i) =>
        if commits then (MutateCreate(m, i), CommitCreate(d, i), Made(i))
        else (MutateCreate(m, i), d, CreateFailed(Internal))
  }

  function UnlinkCall(m: Mem, d: Disk, parent: string, name: string, commits: bool): (Mem, Disk, UnlinkReply) {
    match UnlinkCheck(m, parent, name)
    case Refuse(code) => (m, d, UnlinkFailed(code))
    case Absent => (m, d, Unlinked(false))
    case Remove(i) =>
      var n := MutateUnlink(m, parent, name, i.id);
      if commits then (n, CommitUnlink(d, parent, name, i.id), Unlinked(true))
      else (n, d, UnlinkFailed(Internal))
  }

  /** Create refines the tree: it succeeds exactly when the tree accepts the child below the
      parent's path, then adds that one path with the requested name, kind and mode, in memory
      and on disk alike; otherwise it changes nothing and answers with the tree's verdict. */
  lemma CreateRefinesTree(c: Config, m: Mem, d: Disk, req: CreateRequest, nanos: nat, unix: int, clock: nat)
    requires Synced(d, m) && MintedBefore(m.inodes, clock) && m.rr <= clock <= nanos < TWO63
    ensures var (n, e, r) := CreateCall(c, m, d, req, nanos, unix, true);
      && Synced(e, n)
      && (r.Made? <==>
            req.parent in m.inodes && TreeCreateCheck(TreeOf(m.inodes), PathOf(m.inodes, req.parent), req.name).None?)
      && (r.Made? ==>
            var op := Add(PathOf(m.inodes, req.parent) + [req.name], r.inode);
            && Legal(TreeOf(m.inodes), op) && TreeOf(n.inodes) == Apply(TreeOf(m.inodes), op)
            && r.inode == Inode(IdOf(nanos), req.parent, req.name, req.isDir, 0,
                                if req.mode == 0 then 420 else req.mode, unix, unix, r.inode.layout))
      && (!r.Made? ==> n == m && e == d && r.CreateFailed? && CreateCheck(m, req) == Some(r.code))
  {
    CreateCheckOnTree(m, req);
    PanicsIff(c.ostIds, m.rr);
    if req.parent in m.inodes && req.parent != ROOT {
      assert NodeOk(m.inodes, req.parent);
      MintedHasNoNul(req.parent, Stamp(req.parent) + 1);
    }
    if CreateCheck(m, req).None? {
      var i := NewInode(c, m, req, nanos, unix).value;
      AcceptedIsReady(c, m, req, nanos, unix, clock);
      CreateAddsPath(m, i);
      CreateStaysSynced(d, m, i);
    }
  }

  /** Every successful Create, of a directory too, advances the counter by one. A file's layout
      is the configured list rotated to start at the counter; a directory's is the list in
      configured order. */
  lemma CreateTakesATurn(c: Config, m: Mem, d: Disk, req: CreateRequest, nanos: nat, unix: int, commits: bool)
    requires c.ostIds != [] && m.rr < TWO63
    ensures var (n, e, r) := CreateCall(c, m, d, req, nanos, unix, commits);
            var s := m.rr % |c.ostIds|;
      && n.rr == m.rr + (if CreateCheck(m, req).None? then 1 else 0)
      && (r.Made? ==>
            r.inode.layout == StripeLayout(c.stripeSize, if req.isDir then c.ostIds else c.ostIds[s..] + c.ostIds[..s]))
  {
    var s := m.rr % |c.ostIds|;
    assert Rotation(c.ostIds, m.rr) == Some(c.ostIds[s..] + c.ostIds[..s]) by { IsRotation(c.ostIds, m.rr); }
    assert Bump(m.rr) == m.rr + 1;
  }

  /** Create's reply, case by case, in terms of the tree below the parent's path. */
  lemma CreateReplies(c: Config, m: Mem, d: Disk, req: CreateRequest, nanos: nat, unix: int)
    requires Coherent(m) && m.rr < TWO63
    ensures var r := CreateCall(c, m, d, req, nanos, unix, true).2;
            var known := req.parent in m.inodes;
            var dir := known && m.inodes[req.parent].isDir;
      && (r.Made? <==>
            && req.name != "" && dir && '/' !in req.name
            && PathOf(m.inodes, req.parent) + [req.name] !in TreeOf(m.inodes))
      && (r == CreateFailed(InvalidArgument) <==> req.parent == "" || req.name == "" || (dir && '/' in req.name))
      && (r == CreateFailed(NotFound) <==> req.parent != "" && req.name != "" && !known)
      && (r == CreateFailed(FailedPrecondition) <==> req.name != "" && known && !dir)
      && (r == CreateFailed(AlreadyExists) <==>
            && req.name != "" && dir && '/' !in req.name
            && PathOf(m.inodes, req.parent) + [req.name] in TreeOf(m.inodes))
  {
    PanicsIff(c.ostIds, m.rr);
    if req.parent in m.inodes {
      EntryIsPath(m, req.parent, req.name);
      if req.parent != ROOT {
        assert NodeOk(m.inodes, req.parent);
        MintedHasNoNul(req.parent, Stamp(req.parent) + 1);
      }
    }
  }

  /** What a committed Create writes and shows: the id is "inode-" and the clock reading in base
      ten, the two buckets change by the inode and by one key with a NUL between parent and
      name, and Stat then returns the inode, and what it returned before for every other id. */
  lemma CreateShows(c: Config, m: Mem, d: Disk, req: CreateRequest, nanos: nat, unix: int)
    ensures var (n, e, r) := CreateCall(c, m, d, req, nanos, unix, true);
      r.Made? ==>
        && 6 < |r.inode.id| && r.inode.id[..6] == "inode-" && Prints(r.inode.id[6..], nanos)
        && e.inodes == d.inodes[r.inode.id := r.inode]
        && e.dirents == d.dirents[r.inode.parent + ['\0'] + r.inode.name := r.inode.id]
        && StatOf(n, r.inode.id) == Ok(r.inode)
        && forall x :: x != r.inode.id ==> StatOf(n, x) == StatOf(m, x)
  {
    IdMeaning(IdOf(nanos), nanos);
  }

  /** What a committed Unlink deletes and shows: the inode Lookup returned and its key go from
      the buckets, and Stat no longer finds it, and returns what it did for every other id. */
  lemma UnlinkShows(m: Mem, d: Disk, parent: string, name: string)
    requires Coherent(m)
    ensures var (n, e, r) := UnlinkCall(m, d, parent, name, true);
      r == Unlinked(true) ==>
        && LookupOf(m, parent, name).Ok? && LookupOf(m, parent, name).value.Some?
        && var id := LookupOf(m, parent, name).value.value.id;
           && e.inodes == d.inodes - {id} && e.dirents == d.dirents - {parent + ['\0'] + name}
           && StatOf(n, id) == Err(NotFound) && LookupOf(n, parent, name) == Err(NotFound)
           && forall x :: x != id ==> StatOf(n, x) == StatOf(m, x)
  {
    if UnlinkCheck(m, parent, name).Remove? {
      RemoveFacts(m, parent, name);
    }
  }

  /** Unlink refines the tree: with an entry map for the parent it answers as the tree does,
      and a success removes exactly that leaf, in memory and on disk alike. An inner directory
      is refused with FailedPrecondition, a missing path is reported as not deleted, and without
      an entry map, as below an unknown id or a file, the parent is not found. */
  lemma UnlinkRefinesTree(m: Mem, d: Disk, parent: string, name: string)
    requires Synced(d, m)
    ensures var (n, e, r) := UnlinkCall(m, d, parent, name, true);
      && Synced(e, n)
      && (r == Unlinked(true) <==>
            parent in m.inodes && TreeUnlinkCheck(TreeOf(m.inodes), PathOf(m.inodes, parent), name).Remove?)
      && (r == Unlinked(true) ==>
            var op := Del(PathOf(m.inodes, parent) + [name]);
            Legal(TreeOf(m.inodes), op) && TreeOf(n.inodes) == Apply(TreeOf(m.inodes), op))
      && (r != Unlinked(true) ==> n == m && e == d)
      && (parent in m.dirents ==>
            var t, path := TreeOf(m.inodes), PathOf(m.inodes, parent) + [name];
            && (r == Unlinked(true) <==> path in t && (t[path].isDir ==> IsLeaf(t, path)))
            && (r == UnlinkFailed(FailedPrecondition) <==> path in t && t[path].isDir && !IsLeaf(t, path))
            && (r == Unlinked(false) <==> path !in t))
      && (parent !in m.dirents ==> r == UnlinkFailed(NotFound))
      && (parent !in m.inodes || !m.inodes[parent].isDir ==> parent !in m.dirents)
  {
    UnlinkReplies(m, d, parent, name);
    UnlinkAcceptedIff(m, parent, name);
    if UnlinkCheck(m, parent, name).Remove? {
      UnlinkRemoves(m, d, parent, name);
    } else {
      UnlinkRefused(m, d, parent, name);
    }
  }

  lemma UnlinkReplies(m: Mem, d: Disk, parent: string, name: string)
    requires Coherent(m)
    ensures var r := UnlinkCall(m, d, parent, name, true).2;
      && (parent in m.dirents ==>
            var t, path := TreeOf(m.inodes), PathOf(m.inodes, parent) + [name];
            && (r == Unlinked(true) <==> path in t && (t[path].isDir ==> IsLeaf(t, path)))
            && (r == UnlinkFailed(FailedPrecondition) <==> path in t && t[path].isDir && !IsLeaf(t, path))
            && (r == Unlinked(false) <==> path !in t))
      && (parent !in m.dirents ==> r == UnlinkFailed(NotFound))
      && (parent !in m.inodes || !m.inodes[parent].isDir ==> parent !in m.dirents)
  {
    if parent in m.dirents { UnlinkCheckOnTree(m, parent, name); }
  }

  lemma UnlinkRefused(m: Mem, d: Disk, parent: string, name: string)
    requires !UnlinkCheck(m, parent, name).Remove?
    ensures UnlinkCall(m, d, parent, name, true).0 == m && UnlinkCall(m, d, parent, name, true).1 == d
    ensures UnlinkCall(m, d, parent, name, true).2 != Unlinked(true)
  {
  }

  lemma UnlinkRemoves(m: Mem, d: Disk, parent: string, name: string)
    requires Synced(d, m) && UnlinkCheck(m, parent, name).Remove?
    ensures var (n, e, r) := UnlinkCall(m, d, parent, name, true);
      && r == Unlinked(true) && Synced(e, n) && parent in m.inodes
      && var op := Del(PathOf(m.inodes, parent) + [name]);
         Legal(TreeOf(m.inodes), op) && TreeOf(n.inodes) == Apply(TreeOf(m.inodes), op)
  {
    var (n, e, r) := UnlinkCall(m, d, parent, name, true);
    var id := UnlinkCheck(m, parent, name).inode.id;
    assert n == MutateUnlink(m, parent, name, id) && e == CommitUnlink(d, parent, name, id) && r == Unlinked(true);
    assert parent in m.inodes by { UnlinkRemovesLeaf(m, parent, name); }
    var op := Del(PathOf(m.inodes, parent) + [name]);
    assert Synced(e, n) by { UnlinkStaysSynced(d, m, parent, name); }
    assert Legal(TreeOf(m.inodes), op) && TreeOf(n.inodes) == Apply(TreeOf(m.inodes), op) by {
      UnlinkRemovesLeaf(m, parent, name);
    }
  }

  lemma UnlinkAcceptedIff(m: Mem, parent: string, name: string)
    requires Coherent(m)
    ensures UnlinkCheck(m, parent, name).Remove? <==>
            parent in m.inodes && TreeUnlinkCheck(TreeOf(m.inodes), PathOf(m.inodes, parent), name).Remove?
  {
    if parent in m.dirents {
      UnlinkCheckOnTree(m, parent, name);
    } else if parent in m.inodes {
      EntryIsPath(m, parent, name);
    }
  }

  lemma AfterOne(s: Sys, e: Event, es: seq<Event>)
    requires Enabled(s, e) && CanRun(Next(s, e), es)
    ensures CanRun(s, [e] + es) && After(s, [e] + es) == After(Next(s, e), es)
  {
    assert ([e] + es)[1..] == es;
  }

  /** Runs can be chained. */
  lemma {:induction false} AfterBoth(s: Sys, es: seq<Event>, more: seq<Event>)
    requires CanRun(s, es) && CanRun(After(s, es), more)
    ensures CanRun(s, es + more) && After(s, es + more) == After(After(s, es), more)
    decreases |es|
  {
    if es == [] {
      assert es + more == more;
    } else {
      AfterBoth(Next(s, es[0]), es[1..], more);
      assert (es + more)[1..] == es[1..] + more;
    }
  }

  function Settling(commits: bool): Event {
    if commits then Commit else Fail
  }

  /** A whole Create is a run of the small steps from a free lock to a free lock, or to a
      crash. */
  lemma CreateCallIsRun(s: Sys, req: CreateRequest, nanos: nat, unix: int, commits: bool)
    requires s.phase.Free? && s.clock <= nanos < TWO63
    ensures var (m, d, r) := CreateCall(s.config, s.mem, s.disk, req, nanos, unix, commits);
            var es := if CreateCheck(s.mem, req).Some? then [Lock(CreateOp(req)), Reject]
                      else if r.Panicked? then [Lock(CreateOp(req)), Mutate(nanos, unix)]
                      else [Lock(CreateOp(req)), Mutate(nanos, unix), Settling(commits), Reply];
            && CanRun(s, es)
            && After(s, es).disk == d && After(s, es).config == s.config
            && After(s, es).clock == (if CreateCheck(s.mem, req).Some? || r.Panicked? then s.clock else nanos + 1)
            && (r.Made? ==>
                  && After(s, es).log == s.log + [OpOf(s.disk.inodes, Created(r.inode))]
                  && After(s, es).acked == s.acked + {|s.log|})
            && (!r.Made? ==> After(s, es).log == s.log && After(s, es).acked == s.acked)
            && (CreateCheck(s.mem, req).None? && !r.Panicked? && !commits ==> r == CreateFailed(Internal))
            && (r.Panicked? <==> CreateCheck(s.mem, req).None? && Rotation(s.config.ostIds, s.mem.rr).None?)
            && (if r.Panicked? then After(s, es).phase.Down? else After(s, es).phase.Free? && After(s, es).mem == m)
  {
    var a := Next(s, Lock(CreateOp(req)));
    if CreateCheck(s.mem, req).Some? {
      AfterOne(a, Reject, []);
      AfterOne(s, Lock(CreateOp(req)), [Reject]);
    } else {
      var b := Next(a, Mutate(nanos, unix));
      if NewInode(s.config, s.mem, req, nanos, unix).None? {
        AfterOne(a, Mutate(nanos, unix), []);
        AfterOne(s, Lock(CreateOp(req)), [Mutate(nanos, unix)]);
      } else {
        SettleAndReply(b, commits);
        AfterOne(a, Mutate(nanos, unix), [Settling(commits), Reply]);
        AfterOne(s, Lock(CreateOp(req)), [Mutate(nanos, unix), Settling(commits), Reply]);
        assert [Mutate(nanos, unix)] + [Settling(commits), Reply] == [Mutate(nanos, unix), Settling(commits), Reply];
        assert [Lock(CreateOp(req))] + [Mutate(nanos, unix), Settling(commits), Reply]
            == [Lock(CreateOp(req)), Mutate(nanos, unix), Settling(commits), Reply];
      }
    }
  }

  lemma SettleAndReply(s: Sys, commits: bool)
    requires s.phase.Mutated?
    ensures var t := After(s, [Settling(commits), Reply]);
      && CanRun(s, [Settling(commits), Reply])
      && t.phase.Free? && t.mem == s.mem && t.config == s.config && t.clock == s.clock
      && t.log == (if commits then s.log + [OpOf(s.disk.inodes, s.phase.change)] else s.log)
      && t.acked == (if commits then s.acked + {|s.log|} else s.acked)
      && t.disk == if commits then CommitChange(s.disk, s.phase.change) else s.disk
  {
    var t := Next(s, Settling(commits));
    AfterOne(t, Reply, []);
    AfterOne(s, Settling(commits), [Reply]);
    assert [Settling(commits)] + [Reply] == [Settling(commits), Reply];
  }

  /** A whole Unlink is a run of the small steps from a free lock to a free lock. */
  lemma UnlinkCallIsRun(s: Sys, parent: string, name: string, commits: bool)
    requires s.phase.Free?
    ensures var (m, d, r) := UnlinkCall(s.mem, s.disk, parent, name, commits);
            var es := if UnlinkCheck(s.mem, parent, name).Remove?
                      then [Lock(UnlinkOp(parent, name)), Mutate(s.clock, 0), Settling(commits), Reply]
                      else [Lock(UnlinkOp(parent, name)), Reject];
            && CanRun(s, es) && After(s, es).phase.Free? && After(s, es).mem == m && After(s, es).disk == d
            && After(s, es).config == s.config && After(s, es).clock == s.clock
            && (r == Unlinked(true) ==>
                  && After(s, es).log == s.log
                      + [OpOf(s.disk.inodes, Removed(parent, name, UnlinkCheck(s.mem, parent, name).inode))]
                  && After(s, es).acked == s.acked + {|s.log|})
            && (r != Unlinked(true) ==> After(s, es).log == s.log && After(s, es).acked == s.acked)
            && (UnlinkCheck(s.mem, parent, name).Remove? && !commits ==> r == UnlinkFailed(Internal))
  {
    var op := UnlinkOp(parent, name);
    var a := Next(s, Lock(op));
    if UnlinkCheck(s.mem, parent, name).Remove? {
      var b := Next(a, Mutate(s.clock, 0));
      SettleAndReply(b, commits);
      AfterOne(a, Mutate(s.clock, 0), [Settling(commits), Reply]);
      AfterOne(s, Lock(op), [Mutate(s.clock, 0), Settling(commits), Reply]);
      assert [Mutate(s.clock, 0)] + [Settling(commits), Reply] == [Mutate(s.clock, 0), Settling(commits), Reply];
      assert [Lock(op)] + [Mutate(s.clock, 0), Settling(commits), Reply]
          == [Lock(op), Mutate(s.clock, 0), Settling(commits), Reply];
    } else {
      AfterOne(a, Reject, []);
      AfterOne(s, Lock(op), [Reject]);
    }
  }

  // ---------- The configuration ----------

  /** What a start leaves in force: the caller's targets, stripe size and mode, and the built-in
      ones for those left out. */
  ghost predicate InForce(s: Sys, c: Config) {
    && s.config.ostIds == (if c.ostIds == [] then ["ost-0", "ost-1", "ost-2"] else c.ostIds)
    && s.config.stripeSize == (if c.stripeSize == 0 then 1048576 else c.stripeSize)
    && s.config.mode == (if c.mode == 0 then 420 else c.mode)
  }

  lemma {:induction false} ConfigStays(s: Sys, es: seq<Event>)
    requires CanRun(s, es) && forall e :: e in es ==> !e.Restart?
    ensures After(s, es).config == s.config
    decreases |es|
  {
    if es != [] {
      ConfigStays(Next(s, es[0]), es[1..]);
    }
  }

  /** From a start until the next, every file created is laid out over a rotation of the caller's
      own targets with the caller's stripe size, and every directory lists them in order. */
  lemma LayoutsAreConfigured(
    s: Sys, c: Config, unix: int, es: seq<Event>, req: CreateRequest, nanos: nat, now: int, commits: bool)
    requires s.phase.Down? && CanRun(Next(s, Restart(c, unix)), es) && forall e :: e in es ==> !e.Restart?
    requires After(Next(s, Restart(c, unix)), es).mem.rr < TWO63
    ensures var t := After(Next(s, Restart(c, unix)), es);
            var ids := if c.ostIds == [] then ["ost-0", "ost-1", "ost-2"] else c.ostIds;
            var k := t.mem.rr % |ids|;
            var r := CreateCall(t.config, t.mem, t.disk, req, nanos, now, commits).2;
      && InForce(t, c)
      && (r.Made? ==>
            r.inode.layout == StripeLayout(if c.stripeSize == 0 then 1048576 else c.stripeSize,
                                           if req.isDir then ids else ids[k..] + ids[..k]))
  {
    var u := Next(s, Restart(c, unix));
    ConfigStays(u, es);
    var t := After(u, es);
    CreateTakesATurn(t.config, t.mem, t.disk, req, nanos, now, commits);
  }

  /** The first start makes a root that lists the caller's targets with the caller's stripe size
      and mode. A Create below the root then succeeds, is recorded as adding the one-name path,
      and is acknowledged; the first file is laid out over the targets in configured order. */
  lemma FirstFile(c: Config, unix: int, req: CreateRequest, nanos: nat)
    requires req.parent == ROOT && req.name != "" && '/' !in req.name && nanos < TWO63
    ensures var es := [Restart(c, unix), Lock(CreateOp(req)), Mutate(nanos, unix), Commit, Reply];
            CanRun(Blank(0), es)
            && var s := After(Blank(0), es);
               && s.phase.Free? && s.acked == {0} && |s.log| == 1 && s.log[0].Add? && s.log[0].path == [req.name]
               && InForce(s, c) && ROOT in s.disk.inodes
               && s.disk.inodes[ROOT].layout == StripeLayout(s.config.stripeSize, s.config.ostIds)
               && s.disk.inodes[ROOT].mode == s.config.mode
               && s.log[0].node.layout == StripeLayout(s.config.stripeSize, s.config.ostIds)
               && s.log[0].node.id == IdOf(nanos) && s.log[0].node.isDir == req.isDir
               && s.log[0].node.parent == ROOT && s.log[0].node.name == req.name
               && IdOf(nanos) in s.mem.inodes && s.mem.inodes[IdOf(nanos)] == s.log[0].node
               && s.clock == nanos + 1
  {
    var s := Next(Blank(0), Restart(c, unix));
    FirstCreateAccepted(c, unix, req, nanos);
    CreateCallIsRun(s, req, nanos, unix, true);
    var es := [Lock(CreateOp(req)), Mutate(nanos, unix), Commit, Reply];
    AfterOne(Blank(0), Restart(c, unix), es);
    assert [Restart(c, unix)] + es == [Restart(c, unix), Lock(CreateOp(req)), Mutate(nanos, unix), Commit, Reply];
  }

  lemma FirstCreateAccepted(c: Config, unix: int, req: CreateRequest, nanos: nat)
    requires req.parent == ROOT && req.name != "" && '/' !in req.name
    ensures var s := Next(Blank(0), Restart(c, unix));
      && CreateCheck(s.mem, req).None? && NewInode(s.config, s.mem, req, nanos, unix).Some?
      && WellFormed(s.disk.inodes) && InForce(s, c)
      && s.disk.inodes[ROOT].layout == StripeLayout(s.config.stripeSize, s.config.ostIds)
      && s.disk.inodes[ROOT].mode == s.config.mode
      && var i := NewInode(s.config, s.mem, req, nanos, unix).value;
         && i.layout == StripeLayout(s.config.stripeSize, s.config.ostIds) && i.id == IdOf(nanos) && i.id != ROOT
         && i.isDir == req.isDir && i.parent == ROOT && i.name == req.name
         && OpOf(s.disk.inodes, Created(i)).path == [req.name]
  {
    var s := Next(Blank(0), Restart(c, unix));
    FirstBoot(WithDefaults(c), unix);
    IdFacts(nanos);
    IsRotation(s.config.ostIds, 0);
    assert s.config.ostIds[0..] + s.config.ostIds[..0] == s.config.ostIds;
    PanicsIff(s.config.ostIds, s.mem.rr);
    assert PathOf(s.disk.inodes, ROOT) == [];
    assert !HasEntry(s.mem.dirents, ROOT, req.name);
  }
}
