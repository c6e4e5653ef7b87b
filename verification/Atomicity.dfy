/** Runs without transaction errors, with crashes anywhere: disk always decodes to the tree
    that the committed operations build, and memory meets disk whenever the lock is free. */
module Atomicity {
  import opened Stripes
  import opened Metadata
  import opened Namespace
  import opened Recovery
  import opened Protocol

  // ---------- The abstract history ----------

  function Replay(root: Inode, log: seq<TreeOp>): Tree {
    if log == [] then map[[] := root]
    else Apply(Replay(root, log[..|log| - 1]), log[|log| - 1])
  }

  ghost predicate LegalLog(root: Inode, log: seq<TreeOp>) {
    log == [] || (LegalLog(root, log[..|log| - 1]) && Legal(Replay(root, log[..|log| - 1]), log[|log| - 1]))
  }

  lemma ReplayAppend(root: Inode, log: seq<TreeOp>, op: TreeOp)
    ensures Replay(root, log + [op]) == Apply(Replay(root, log), op)
    ensures LegalLog(root, log + [op]) <==> LegalLog(root, log) && Legal(Replay(root, log), op)
  {
    assert (log + [op])[..|log|] == log;
  }

  // ---------- The invariant ----------

  function AfterChange(m: Mem, ch: Change): Mem
    requires ch.Removed? ==> ch.parent in m.dirents
  {
    match ch
    case Created(i) => MutateCreate(m, i)
    case Removed(p, n, i) => MutateUnlink(m, p, n, i.id)
  }

  ghost predicate ChangeReady(m: Mem, ch: Change) {
    match ch
    case Created(i) => CreateReady(m, i)
    case Removed(p, n, i) => UnlinkCheck(m, p, n) == Remove(i)
  }

  /** The memory start-up would build from a disk with a root. */
  function DiskView(d: Disk): Mem {
    Mem(d.inodes, WithRoot(LoadDirents(d.dirents)), 0)
  }

  /** The disk is the tree of the committed operations. */
  ghost predicate Faithful(s: Sys) {
    && WellFormed(s.disk.inodes)
    && LegalLog(s.disk.inodes[ROOT], s.log)
    && TreeOf(s.disk.inodes) == Replay(s.disk.inodes[ROOT], s.log)
  }

  ghost predicate Steady(s: Sys, m: Mem) {
    Synced(s.disk, m) && m.rr <= s.clock && MintedBefore(m.inodes, s.clock)
  }

  ghost predicate PhaseOk(s: Sys) {
    match s.phase
    case Down => Steady(s, DiskView(s.disk))
    case Free => Steady(s, s.mem)
    case Locked(op) => Steady(s, s.mem) && s.base == |s.log|
    case Mutated(ch, before) =>
      && Synced(s.disk, before) && ChangeReady(before, ch) && s.mem == AfterChange(before, ch)
      && s.mem.rr <= s.clock && s.base == |s.log|
      && MintedBefore(s.mem.inodes, s.clock) && MintedBefore(s.disk.inodes, s.clock)
    case Settled(ch, ok) => ok && Steady(s, s.mem) && s.base + 1 == |s.log|
  }

  ghost predicate Live(s: Sys) {
    && s.clock <= TWO63
    && Faithful(s) && PhaseOk(s)
    && forall k :: k in s.acked ==> k < |s.log|
  }

  ghost predicate Good(s: Sys) {
    Live(s) || (s.clock <= TWO63 && s == Blank(s.clock))
  }

  // ---------- Each step ----------

  lemma ChangeKeeps(d: Disk, m: Mem, ch: Change)
    requires Synced(d, m) && ChangeReady(m, ch)
    ensures Synced(CommitChange(d, ch), AfterChange(m, ch))
    ensures Legal(TreeOf(d.inodes), OpOf(d.inodes, ch))
    ensures TreeOf(CommitChange(d, ch).inodes) == Apply(TreeOf(d.inodes), OpOf(d.inodes, ch))
    ensures CommitChange(d, ch).inodes[ROOT] == d.inodes[ROOT]
  {
    match ch
    case Created(i) =>
      CreateStaysSynced(d, m, i);
      CreateAddsPath(m, i);
    case Removed(p, n, i) =>
      UnlinkStaysSynced(d, m, p, n);
      UnlinkRemovesLeaf(m, p, n);
      RemoveFacts(m, p, n);
  }

  lemma DiskViewSynced(d: Disk, m: Mem)
    requires Synced(d, m)
    ensures Synced(d, DiskView(d))
  {
    RecoveryRoundTrip(Config([], 0, 0), d, m, 0);
  }

  lemma CrashStep(s: Sys)
    requires Live(s)
    ensures Live(CrashOf(s))
  {
    if s.phase.Mutated? {
      DiskViewSynced(s.disk, s.phase.before);
    } else if !s.phase.Down? {
      DiskViewSynced(s.disk, s.mem);
    }
  }

  lemma MintedGrows(t: InodeTable, i: Inode, clock: nat, nanos: nat)
    requires MintedBefore(t, clock) && clock <= nanos && i.id == IdOf(nanos)
    ensures MintedBefore(t, nanos + 1) && MintedBefore(t[i.id := i], nanos + 1)
  {
    IdFacts(nanos);
  }

  lemma MutateCreateStep(s: Sys, nanos: nat, unix: int)
    requires Live(s) && Enabled(s, Mutate(nanos, unix)) && s.phase.op.CreateOp?
    ensures Live(Next(s, Mutate(nanos, unix)))
  {
    var req := s.phase.op.req;
    if NewInode(s.config, s.mem, req, nanos, unix).None? {
      CrashStep(s);
    } else {
      var i := NewInode(s.config, s.mem, req, nanos, unix).value;
      AcceptedIsReady(s.config, s.mem, req, nanos, unix, s.clock);
      CreateMutated(s, i, nanos);
      var t := s.(mem := MutateCreate(s.mem, i), phase := Mutated(Created(i), s.mem), clock := nanos + 1);
      assert Next(s, Mutate(nanos, unix)) == t;
      assert Faithful(t);
    }
  }

  lemma CreateMutated(s: Sys, i: Inode, nanos: nat)
    requires Steady(s, s.mem) && CreateReady(s.mem, i) && i.id == IdOf(nanos)
    requires s.clock <= nanos < TWO63 && s.base == |s.log|
    ensures PhaseOk(s.(mem := MutateCreate(s.mem, i), phase := Mutated(Created(i), s.mem), clock := nanos + 1))
  {
    MintedGrows(s.mem.inodes, i, s.clock, nanos);
    assert Bump(s.mem.rr) == s.mem.rr + 1;
  }

  lemma MutateUnlinkStep(s: Sys, nanos: nat, unix: int)
    requires Live(s) && Enabled(s, Mutate(nanos, unix)) && s.phase.op.UnlinkOp?
    ensures Live(Next(s, Mutate(nanos, unix)))
  {
    assert PhaseOk(Next(s, Mutate(nanos, unix)));
  }

  lemma CommitStep(s: Sys)
    requires Live(s) && s.phase.Mutated?
    ensures Live(Next(s, Commit))
  {
    var ch, d := s.phase.change, CommitChange(s.disk, s.phase.change);
    ChangeKeeps(s.disk, s.phase.before, ch);
    ReplayAppend(s.disk.inodes[ROOT], s.log, OpOf(s.disk.inodes, ch));
    assert Faithful(Next(s, Commit));
    assert d.inodes == s.mem.inodes;
    assert PhaseOk(Next(s, Commit));
  }

  lemma BootStep(s: Sys, c: Config, unix: int)
    requires Good(s) && s.phase.Down?
    ensures Live(Next(s, Restart(c, unix)))
  {
    var d := WithDefaults(c);
    if Live(s) {
      RecoveryRoundTrip(d, s.disk, DiskView(s.disk), unix);
    } else {
      FirstBoot(d, unix);
      var t := Next(s, Restart(c, unix)).disk.inodes;
      assert PathOf(t, ROOT) == [];
      SameTree(t, map[[] := t[ROOT]]);
    }
  }

  lemma GoodStep(s: Sys, e: Event)
    requires Good(s) && Enabled(s, e) && !e.Fail?
    ensures Good(Next(s, e))
  {
    if e.Mutate? {
      if s.phase.op.CreateOp? { MutateCreateStep(s, e.nanos, e.unix); } else { MutateUnlinkStep(s, e.nanos, e.unix); }
    } else if e.Commit? {
      CommitStep(s);
    } else if e.Crash? {
      if Live(s) { CrashStep(s); }
    } else if e.Restart? {
      BootStep(s, e.config, e.unix);
    } else {
      LockOnlyStep(s, e);
    }
  }

  lemma HistoryGrows(s: Sys, e: Event)
    requires Enabled(s, e)
    ensures s.log <= Next(s, e).log && s.acked <= Next(s, e).acked
  {
  }

  lemma LockOnlyStep(s: Sys, e: Event)
    requires Live(s) && Enabled(s, e) && (e.Lock? || e.Reject? || e.Reply?)
    ensures Live(Next(s, e))
  {
    var t := Next(s, e);
    assert t.disk == s.disk && t.mem == s.mem && t.log == s.log;
    assert Faithful(t);
  }

  // ---------- Runs ----------

  ghost predicate NoFail(es: seq<Event>) {
    forall e :: e in es ==> !e.Fail?
  }

  /** Every run without transaction errors, from before the first start through any number of
      crashes and restarts, keeps the invariant; its history only grows. */
  lemma {:induction false} RunStaysGood(s: Sys, es: seq<Event>)
    requires Good(s) && CanRun(s, es) && NoFail(es)
    ensures Good(After(s, es))
    ensures s.log <= After(s, es).log && s.acked <= After(s, es).acked
    decreases |es|
  {
    if es != [] {
      GoodStep(s, es[0]);
      HistoryGrows(s, es[0]);
      RunStaysGood(Next(s, es[0]), es[1..]);
    }
  }

  /** In short: after any run from before the first start whose transactions all commit, a disk
      with a root is the tree that the legal committed operations build, and memory mirrors
      disk whenever the lock is free. */
  lemma CommittedRunsBuildTrees(clock: nat, es: seq<Event>)
    requires clock <= TWO63 && CanRun(Blank(clock), es) && NoFail(es)
    ensures var s := After(Blank(clock), es);
      && (ROOT in s.disk.inodes ==> Faithful(s) && IsTree(Replay(s.disk.inodes[ROOT], s.log)))
      && (s.phase.Free? ==> ROOT in s.disk.inodes && Synced(s.disk, s.mem))
  {
    RunStaysGood(Blank(clock), es);
    var s := After(Blank(clock), es);
    if Live(s) { TreeIsTree(s.disk.inodes); }
  }

  /** The tree a restart would serve right now. */
  ghost function Recovered(s: Sys): Tree
    requires WellFormed(s.disk.inodes)
  {
    TreeOf(Boot(s.config, s.disk, 0).0.inodes)
  }

  /** At any moment the process can crash, and be started again. */
  lemma CrashAnywhere(s: Sys, c: Config, unix: int)
    ensures CanRun(s, [Crash, Restart(c, unix)])
    ensures var t := After(s, [Crash, Restart(c, unix)]);
            var (m, d) := Boot(WithDefaults(c), s.disk, unix);
            t == s.(config := WithDefaults(c), mem := m, disk := d, phase := Free)
  {
    var es, t := [Crash, Restart(c, unix)], Next(s, Crash);
    var u := Next(t, es[1]);
    assert es[1..] == [es[1]] && [es[1]][1..] == [];
    assert CanRun(u, []) && After(u, []) == u;
    assert CanRun(t, [es[1]]) && After(t, [es[1]]) == u;
  }

  /** Crash atomicity: while a request holds the lock, a crash leaves the tree just before it
      or, once its transaction has committed, just after it. */
  lemma CrashIsAtomic(s: Sys)
    requires Live(s) && (s.phase.Locked? || s.phase.Mutated? || s.phase.Settled?)
    ensures s.base <= |s.log|
    ensures Live(CrashOf(s))
    ensures var before := Replay(s.disk.inodes[ROOT], s.log[..s.base]);
            if s.phase.Settled? then Recovered(CrashOf(s)) == Apply(before, s.log[s.base]) && Legal(before, s.log[s.base])
            else Recovered(CrashOf(s)) == before
  {
    CrashStep(s);
    if !s.phase.Settled? { assert s.log[..s.base] == s.log; }
  }

  /** Whenever the lock is free, memory holds the tree of the committed operations, and a
      restart would rebuild the same memory up to empty maps and the rotation counter. */
  lemma FreeMemoryMeetsDisk(s: Sys, c: Config, unix: int)
    requires Live(s) && s.phase.Free?
    ensures Coherent(s.mem) && TreeOf(s.mem.inodes) == Replay(s.disk.inodes[ROOT], s.log)
    ensures Next(CrashOf(s), Restart(c, unix)).mem == Restarted(s.mem)
    ensures Next(CrashOf(s), Restart(c, unix)).disk == s.disk
  {
    RestartRebuilds(s, c, unix);
  }

  lemma RestartRebuilds(s: Sys, c: Config, unix: int)
    requires Synced(s.disk, s.mem)
    ensures Next(CrashOf(s), Restart(c, unix)).mem == Restarted(s.mem)
    ensures Next(CrashOf(s), Restart(c, unix)).disk == s.disk
  {
    assert Boot(WithDefaults(c), s.disk, unix) == (Restarted(s.mem), s.disk) by {
      RecoveryRoundTrip(WithDefaults(c), s.disk, s.mem, unix);
    }
  }

  /** The request that just committed is the last of the history, and its acknowledgement
      records it there. */
  lemma ReplyAcknowledges(s: Sys)
    requires PhaseOk(s) && s.phase.Settled?
    ensures Next(s, Reply).acked == s.acked + {s.base} && s.base == |s.log| - 1
  {
    var ok := s.phase.ok;
    assert ok && |s.log| - 1 == s.base;
  }

  /** An operation's effect on its path stays until a later operation on that path. */
  lemma {:induction false} EffectStays(root: Inode, log: seq<TreeOp>, k: nat)
    requires k < |log| && forall j :: k < j < |log| ==> log[j].path != log[k].path
    ensures match log[k]
            case Add(p, node) => p in Replay(root, log) && Replay(root, log)[p] == node
            case Del(p) => p !in Replay(root, log)
    decreases |log|
  {
    if k < |log| - 1 {
      var shorter := log[..|log| - 1];
      assert shorter[k] == log[k];
      EffectStays(root, shorter, k);
    }
  }

  /** Every acknowledged operation survives every later run whose transactions all commit,
      crashes included: it keeps its place in the history, and until a later committed operation
      on the same path a restart serves the created inode there, or nothing where the path was
      unlinked. What survives failing transactions too is `Dangling.CommittedCreateStays` and
      `Dangling.UnlinkedNeverReturns`. */
  lemma AcknowledgedSurvives(s: Sys, es: seq<Event>, k: nat)
    requires Live(s) && k in s.acked && CanRun(s, es) && NoFail(es)
    ensures var t := After(s, es);
      && Live(t) && k in t.acked && k < |t.log| && t.log[k] == s.log[k]
      && ((forall j :: k < j < |t.log| ==> t.log[j].path != s.log[k].path) ==>
            match s.log[k]
            case Add(p, node) => p in Recovered(t) && Recovered(t)[p] == node
            case Del(p) => p !in Recovered(t))
  {
    RunStaysGood(s, es);
    var t := After(s, es);
    assert t.log[k] == s.log[k];
    if forall j :: k < j < |t.log| ==> t.log[j].path != s.log[k].path {
      EffectStays(t.disk.inodes[ROOT], t.log, k);
    }
  }

  /** Settling brings disk and memory back in step exactly when the transaction committed. */
  lemma InStepIffCommitted(s: Sys)
    requires PhaseOk(s) && s.phase.Mutated?
    ensures Synced(Next(s, Commit).disk, s.mem)
    ensures Next(s, Commit).mem == s.mem == Next(s, Fail).mem
    ensures !Synced(Next(s, Fail).disk, s.mem) && s.disk.inodes != s.mem.inodes
  {
    SettleDisks(s);
    ChangeKeeps(s.disk, s.phase.before, s.phase.change);
    ChangeShows(s.disk, s.phase.before, s.phase.change);
    assert s.disk.inodes == s.phase.before.inodes;
  }

  /** A request whose transaction failed vanishes with the next restart, which serves the
      memory from before it. */
  lemma FailedRequestVanishes(s: Sys, c: Config, unix: int)
    requires PhaseOk(s) && s.phase.Mutated?
    ensures var t := Next(CrashOf(Next(s, Fail)), Restart(c, unix));
            t.mem == Restarted(s.phase.before) && t.disk == s.disk
  {
    var u := s.(mem := s.phase.before);
    assert CrashOf(Next(s, Fail)) == CrashOf(u);
    RestartRebuilds(u, c, unix);
  }

  /** The same but for the disk, the history and how the last transaction ended. */
  predicate SameFace(s: Sys, t: Sys) {
    && s.mem == t.mem && s.config == t.config && s.clock == t.clock
    && (s.phase == t.phase || (s.phase.Settled? && t.phase.Settled? && s.phase.change == t.phase.change))
  }

  ghost predicate NoRestart(es: seq<Event>) {
    forall e :: e in es ==> !e.Restart?
  }

  lemma FaceStep(s: Sys, t: Sys, e: Event)
    requires SameFace(s, t) && Enabled(s, e) && !e.Restart?
    ensures Enabled(t, e) && SameFace(Next(s, e), Next(t, e))
  {
  }

  lemma {:induction false} FaceStays(s: Sys, t: Sys, es: seq<Event>)
    requires SameFace(s, t) && CanRun(s, es) && NoRestart(es)
    ensures CanRun(t, es) && SameFace(After(s, es), After(t, es))
    decreases |es|
  {
    if es != [] {
      FaceStep(s, t, es[0]);
      FaceStays(Next(s, es[0]), Next(t, es[0]), es[1..]);
    }
  }

  /** Until a restart nothing but its own reply tells a failed request from a committed one:
      whatever can follow the commit can follow the failure, with the same memory, from which
      every later answer is computed. */
  lemma FailureIsHidden(s: Sys, es: seq<Event>)
    requires s.phase.Mutated? && CanRun(Next(s, Commit), es) && NoRestart(es)
    ensures CanRun(Next(s, Fail), es)
    ensures After(Next(s, Fail), es).mem == After(Next(s, Commit), es).mem
  {
    FaceStays(Next(s, Commit), Next(s, Fail), es);
  }

  lemma SettleDisks(s: Sys)
    requires s.phase.Mutated?
    ensures Next(s, Commit).disk == CommitChange(s.disk, s.phase.change) && Next(s, Commit).mem == s.mem
    ensures Next(s, Fail).disk == s.disk && Next(s, Fail).mem == s.mem
  {
  }

  lemma ChangeShows(d: Disk, m: Mem, ch: Change)
    requires Synced(d, m) && ChangeReady(m, ch)
    ensures d.inodes != AfterChange(m, ch).inodes
  {
    match ch
    case Created(i) => assert i.id in AfterChange(m, ch).inodes;
    case Removed(p, n, i) =>
      RemoveFacts(m, p, n);
      assert i.id !in AfterChange(m, ch).inodes;
  }
}
