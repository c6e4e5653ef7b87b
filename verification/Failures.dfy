/** Which runs with failing transactions keep the tree, exactly. A failed transaction alone
    loses nothing; the tree on disk is lost by a later commit that builds on what the failure
    left out, and the tree in memory by a restart from such a disk. */
module Failures {
  import opened Text
  import opened Stripes
  import opened Metadata
  import opened Namespace
  import opened Recovery
  import opened Protocol
  import opened Atomicity
  import opened Dangling
  import opened Calls

  // ---------- One commit ----------

  /** A restart from this disk serves a coherent memory. */
  ghost predicate DiskTree(d: Disk) {
    Coherent(DiskView(d))
  }

  /** What the transaction would have to find in its own buckets: for a Create, the parent's
      inode and no entry under the key; for an Unlink, no child of the inode and no other inode
      under the key. */
  ghost predicate Harmless(d: Disk, ch: Change) {
    match ch
    case Created(i) => i.parent in d.inodes && Key(i.parent, i.name) !in d.dirents
    case Removed(p, n, i) => Childless(d.inodes, i.id) && (Key(p, n) in d.dirents ==> d.dirents[Key(p, n)] == i.id)
  }

  lemma LoadMirrors(f: map<string, string>)
    requires forall k :: k in f ==> IsKey(k)
    ensures Mirrors(f, LoadDirents(f))
  {
    LoadExact(f);
    forall k | k in f ensures HasEntry(LoadDirents(f), KeyParent(k), KeyName(k)) {
      KeyUndoesSplit(k);
    }
  }

  lemma MirrorsSame(f: map<string, string>, d: Dirents, e: Dirents)
    requires Mirrors(f, d) && SameEntries(e, d)
    ensures Mirrors(f, e)
  {
    forall k | k in f ensures HasEntry(e, KeyParent(k), KeyName(k)) {
      assert HasEntry(d, KeyParent(k), KeyName(k));
    }
  }

  /** The disk of a tree is the image of the memory a restart builds from it. */
  lemma TreeIsSynced(d: Disk)
    requires DiskTree(d) && KeysOk(d.inodes, d.dirents)
    ensures Synced(d, DiskView(d))
  {
    var l := LoadDirents(d.dirents);
    assert d.dirents == Flatten(WithRoot(l)) by {
      LoadMirrors(d.dirents);
      LoadExact(d.dirents);
      WithRootEntries(l);
      MirrorsSame(d.dirents, l, WithRoot(l));
      CoherentIsNulFree(DiskView(d));
      MirrorIsFlatten(d.dirents, WithRoot(l));
    }
  }

  lemma ViewEntry(d: Disk, p: string, n: string)
    requires NUL !in p
    ensures HasEntry(DiskView(d).dirents, p, n) <==> Key(p, n) in d.dirents
    ensures Key(p, n) in d.dirents ==> Entry(DiskView(d).dirents, p, n) == d.dirents[Key(p, n)]
  {
    LoadExact(d.dirents);
    WithRootEntries(LoadDirents(d.dirents));
  }

  lemma CreateTreeIff(s: Sys)
    requires Sound(s) && s.phase.Mutated? && s.phase.change.Created? && DiskTree(s.disk)
    ensures DiskTree(CommitChange(s.disk, s.phase.change)) <==> Harmless(s.disk, s.phase.change)
  {
    var d, v, i := s.disk, DiskView(s.disk), s.phase.change.inode;
    ViewEntry(d, i.parent, i.name);
    if Harmless(d, Created(i)) {
      TreeIsSynced(d);
      assert CreateReady(v, i) by { MintedHere(s, i); }
      CreateStaysSynced(d, v, i);
      DiskViewSynced(CommitCreate(d, i), MutateCreate(v, i));
    } else if i.parent !in d.inodes {
      assert !NodeOk(d.inodes[i.id := i], i.id);
    } else {
      var x := d.dirents[Key(i.parent, i.name)];
      assert EntryOk(d.inodes, i.parent, i.name, x);
      assert SameSpot(d.inodes[i.id := i], x, i.id);
    }
  }

  lemma MintedHere(s: Sys, i: Inode)
    requires Sound(s) && s.phase.Mutated? && s.phase.change == Created(i)
    ensures Minted(i.id, Stamp(i.id) + 1)
  {
  }

  lemma UnlinkTreeIff(s: Sys)
    requires Sound(s) && s.phase.Mutated? && s.phase.change.Removed? && DiskTree(s.disk)
    ensures DiskTree(CommitChange(s.disk, s.phase.change)) <==> Harmless(s.disk, s.phase.change)
  {
    var d, p, n, i := s.disk, s.phase.change.parent, s.phase.change.name, s.phase.change.inode;
    if Harmless(d, s.phase.change) {
      HarmlessUnlink(s);
    } else if !Childless(d.inodes, i.id) {
      RemoveWellFormedIff(d.inodes, i.id);
    } else {
      LostEntry(s);
    }
  }

  lemma HarmlessUnlink(s: Sys)
    requires Sound(s) && s.phase.Mutated? && s.phase.change.Removed? && DiskTree(s.disk)
    requires Harmless(s.disk, s.phase.change)
    ensures DiskTree(CommitChange(s.disk, s.phase.change))
  {
    var d, p, n, i := s.disk, s.phase.change.parent, s.phase.change.name, s.phase.change.inode;
    if i.id in d.inodes {
      TreeIsSynced(d);
      SyncedUnlink(d, i);
    } else {
      ViewEntry(d, p, n);
      assert Key(p, n) !in d.dirents;
      assert CommitUnlink(d, p, n, i.id) == d;
    }
  }

  lemma SyncedUnlink(d: Disk, i: Inode)
    requires Synced(d, DiskView(d)) && i.id in d.inodes && d.inodes[i.id] == i && i.id != ROOT
    requires Childless(d.inodes, i.id)
    ensures DiskTree(CommitUnlink(d, i.parent, i.name, i.id))
  {
    var v := DiskView(d);
    assert Listed(v.inodes, v.dirents, i.id);
    EmptyIffChildless(v, i.id);
    assert UnlinkCheck(v, i.parent, i.name) == Remove(i);
    UnlinkStaysSynced(d, v, i.parent, i.name);
    DiskViewSynced(CommitUnlink(d, i.parent, i.name, i.id), MutateUnlink(v, i.parent, i.name, i.id));
  }

  /** Deleting another inode's key leaves that inode on disk without an entry. */
  lemma LostEntry(s: Sys)
    requires Sound(s) && s.phase.Mutated? && s.phase.change.Removed? && DiskTree(s.disk)
    requires var ch := s.phase.change;
             Key(ch.parent, ch.name) in s.disk.dirents && s.disk.dirents[Key(ch.parent, ch.name)] != ch.inode.id
    ensures !DiskTree(CommitChange(s.disk, s.phase.change))
  {
    var d, p, n, i := s.disk, s.phase.change.parent, s.phase.change.name, s.phase.change.inode;
    var e := CommitUnlink(d, p, n, i.id);
    ViewEntry(d, p, n);
    ViewEntry(e, p, n);
    var x := d.dirents[Key(p, n)];
    assert EntryOk(d.inodes, p, n, x);
    assert x in e.inodes && !Listed(e.inodes, DiskView(e).dirents, x);
  }

  /** In every state with a tree on disk, reached through any failures, a commit keeps the tree
      exactly when it is harmless. */
  lemma CommitTreeIff(s: Sys)
    requires Sound(s) && s.phase.Mutated? && DiskTree(s.disk)
    ensures DiskTree(Next(s, Commit).disk) <==> Harmless(s.disk, s.phase.change)
  {
    SettleDisks(s);
    if s.phase.change.Created? { CreateTreeIff(s); } else { UnlinkTreeIff(s); }
  }

  /** The inode table alone stays well formed exactly when, for a Create, the parent is on disk
      and its place free there, and for an Unlink, nothing on disk has the inode for parent. */
  lemma CommitWellFormedIff(s: Sys)
    requires Sound(s) && s.phase.Mutated? && WellFormed(s.disk.inodes)
    ensures WellFormed(Next(s, Commit).disk.inodes) <==>
            match s.phase.change
            case Created(i) =>
              var t := s.disk.inodes;
              i.parent in t && forall x :: x in t && x != ROOT ==> t[x].parent != i.parent || t[x].name != i.name
            case Removed(p, n, i) => Childless(s.disk.inodes, i.id)
  {
    match s.phase.change
    case Created(i) =>
      MintedHere(s, i);
      AddWellFormedIff(s.disk.inodes, i);
    case Removed(p, n, i) => RemoveWellFormedIff(s.disk.inodes, i.id);
  }

  // ---------- Whole runs: the disk ----------

  /** The disk is a tree at every point of the run, from the first start on. */
  ghost predicate TreeThroughout(s: Sys, es: seq<Event>)
    requires CanRun(s, es)
    decreases |es|
  {
    && (ROOT in s.disk.inodes ==> DiskTree(s.disk))
    && (es == [] || TreeThroughout(Next(s, es[0]), es[1..]))
  }

  /** Every commit of the run is harmless when it happens. */
  ghost predicate AllHarmless(s: Sys, es: seq<Event>)
    requires CanRun(s, es)
    decreases |es|
  {
    es == []
    || ((es[0].Commit? ==> Harmless(s.disk, s.phase.change)) && AllHarmless(Next(s, es[0]), es[1..]))
  }

  /** Apart from commits, only the first start touches the disk, and that makes a tree. */
  lemma QuietStep(s: Sys, e: Event)
    requires Sound(s) && Enabled(s, e) && !e.Commit? && (ROOT in s.disk.inodes ==> DiskTree(s.disk))
    ensures ROOT in Next(s, e).disk.inodes ==> DiskTree(Next(s, e).disk)
  {
    if e.Restart? && ROOT !in s.disk.inodes {
      var c := WithDefaults(e.config);
      FirstBoot(c, e.unix);
      DiskViewSynced(Next(s, e).disk, Next(s, e).mem);
    }
  }

  /** In any run, with failures, crashes and restarts anywhere, the disk stays a tree throughout
      if and only if every commit is harmless. */
  lemma {:induction false} TreeIffHarmless(s: Sys, es: seq<Event>)
    requires Sound(s) && CanRun(s, es) && (ROOT in s.disk.inodes ==> DiskTree(s.disk))
    ensures TreeThroughout(s, es) <==> AllHarmless(s, es)
    decreases |es|
  {
    if es != [] {
      var t := Next(s, es[0]);
      SoundStep(s, es[0]);
      if es[0].Commit? {
        CommitTreeIff(s);
        InodeStep(s, es[0], ROOT);
      } else {
        QuietStep(s, es[0]);
      }
      if ROOT in t.disk.inodes ==> DiskTree(t.disk) {
        TreeIffHarmless(t, es[1..]);
      }
    }
  }

  lemma {:induction false} CommittingKeepsTree(s: Sys, es: seq<Event>)
    requires Good(s) && CanRun(s, es) && NoFail(es)
    ensures TreeThroughout(s, es)
    decreases |es|
  {
    if Live(s) { CrashStep(s); }
    if es != [] {
      GoodStep(s, es[0]);
      CommittingKeepsTree(Next(s, es[0]), es[1..]);
    }
  }

  /** Runs whose transactions all commit are one case: all their commits are harmless. */
  lemma CommittingIsHarmless(clock: nat, es: seq<Event>)
    requires clock <= TWO63 && CanRun(Blank(clock), es) && NoFail(es)
    ensures AllHarmless(Blank(clock), es)
  {
    CommittingKeepsTree(Blank(clock), es);
    TreeIffHarmless(Blank(clock), es);
  }

  // ---------- Whole runs: memory ----------

  /** Memory is a tree whenever the service is up. */
  ghost predicate MemoryTree(s: Sys) {
    s.phase.Down? || Coherent(s.mem)
  }

  ghost predicate MemoryTreeThroughout(s: Sys, es: seq<Event>)
    requires CanRun(s, es)
    decreases |es|
  {
    MemoryTree(s) && (es == [] || MemoryTreeThroughout(Next(s, es[0]), es[1..]))
  }

  /** Every restart of the run finds a tree on disk, or no root yet. */
  ghost predicate RestartsFromTrees(s: Sys, es: seq<Event>)
    requires CanRun(s, es)
    decreases |es|
  {
    es == []
    || ((es[0].Restart? && ROOT in s.disk.inodes ==> DiskTree(s.disk)) && RestartsFromTrees(Next(s, es[0]), es[1..]))
  }

  lemma MutateKeepsMemoryTree(s: Sys, nanos: nat, unix: int)
    requires Sound(s) && Coherent(s.mem) && Enabled(s, Mutate(nanos, unix))
    ensures MemoryTree(Next(s, Mutate(nanos, unix)))
  {
    match s.phase.op
    case CreateOp(req) =>
      if NewInode(s.config, s.mem, req, nanos, unix).Some? {
        AcceptedIsReady(s.config, s.mem, req, nanos, unix, s.clock);
        CreateAddsPath(s.mem, NewInode(s.config, s.mem, req, nanos, unix).value);
      }
    case UnlinkOp(p, n) =>
      UnlinkRemovesLeaf(s.mem, p, n);
  }

  /** Failed transactions never cost memory its tree. */
  lemma RunningKeepsMemoryTree(s: Sys, e: Event)
    requires Sound(s) && MemoryTree(s) && Enabled(s, e) && !e.Restart?
    ensures MemoryTree(Next(s, e))
  {
    if e.Mutate? { MutateKeepsMemoryTree(s, e.nanos, e.unix); }
  }

  /** A restart serves a tree exactly when it finds one on disk, or no root. */
  lemma RestartServesTreeIff(s: Sys, e: Event)
    requires Sound(s) && Enabled(s, e) && e.Restart?
    ensures MemoryTree(Next(s, e)) <==> (ROOT in s.disk.inodes ==> DiskTree(s.disk))
  {
    if ROOT !in s.disk.inodes { FirstBoot(WithDefaults(e.config), e.unix); }
  }

  /** In any run, with failures, crashes and restarts anywhere, memory is a tree whenever the
      service is up if and only if every restart finds a tree on disk. */
  lemma {:induction false} MemoryTreeIff(s: Sys, es: seq<Event>)
    requires Sound(s) && MemoryTree(s) && CanRun(s, es)
    ensures MemoryTreeThroughout(s, es) <==> RestartsFromTrees(s, es)
    decreases |es|
  {
    if es != [] {
      SoundStep(s, es[0]);
      if es[0].Restart? { RestartServesTreeIff(s, es[0]); } else { RunningKeepsMemoryTree(s, es[0]); }
      if MemoryTree(Next(s, es[0])) { MemoryTreeIff(Next(s, es[0]), es[1..]); }
    }
  }

  lemma {:induction false} TreesAreFound(s: Sys, es: seq<Event>)
    requires CanRun(s, es) && TreeThroughout(s, es)
    ensures RestartsFromTrees(s, es)
    decreases |es|
  {
    if es != [] { TreesAreFound(Next(s, es[0]), es[1..]); }
  }

  /** From before the first start: while every commit is harmless, disk and memory are trees
      throughout, whatever fails and whenever the process crashes. */
  lemma HarmlessRunsServeTrees(clock: nat, es: seq<Event>)
    requires clock <= TWO63 && CanRun(Blank(clock), es) && AllHarmless(Blank(clock), es)
    ensures TreeThroughout(Blank(clock), es) && MemoryTreeThroughout(Blank(clock), es)
  {
    TreeIffHarmless(Blank(clock), es);
    TreesAreFound(Blank(clock), es);
    MemoryTreeIff(Blank(clock), es);
  }

  // ---------- Failing runs ----------

  const MKDIR := CreateRequest(ROOT, "a", true, 0)
  const NESTED := CreateRequest(IdOf(0), "b", false, 0)
  const PLAIN := CreateRequest(ROOT, "a", false, 0)

  /** The state after the first start. */
  ghost function Started(): Sys {
    Next(Blank(0), Restart(Config([], 0, 0), 0))
  }

  lemma StartedFacts()
    ensures var s := Started();
      && s.phase.Free? && s.clock == 0 && s.mem.rr == 0 && Synced(s.disk, s.mem)
      && s.mem.inodes.Keys == {ROOT} && s.mem.inodes[ROOT].id == ROOT && s.mem.inodes[ROOT].isDir
      && (forall p, n :: !HasEntry(s.mem.dirents, p, n))
  {
    var s := Started();
    FirstBoot(WithDefaults(Config([], 0, 0)), 0);
    forall p, n ensures !HasEntry(s.mem.dirents, p, n) {
      assert HasEntry(s.mem.dirents, p, n) ==> EntryOk(s.mem.inodes, p, n, Entry(s.mem.dirents, p, n));
    }
  }

  /** An accepted Create as four events, with its effect on the state. */
  lemma AcceptedCreate(s: Sys, req: CreateRequest, commits: bool)
    requires s.phase.Free? && s.clock < TWO63 && s.mem.rr < TWO63 && CreateCheck(s.mem, req).None?
    ensures var es := [Lock(CreateOp(req)), Mutate(s.clock, 0), Settling(commits), Reply];
            var i := NewInode(s.config, s.mem, req, s.clock, 0);
      && i.Some? && i.value.id == IdOf(s.clock) && i.value.parent == s.mem.inodes[req.parent].id
      && i.value.name == req.name && i.value.isDir == req.isDir
      && CanRun(s, es)
      && var t := After(s, es);
         && t.phase.Free? && t.clock == s.clock + 1 && t.config == s.config
         && t.mem == MutateCreate(s.mem, i.value)
         && t.disk == if commits then CommitCreate(s.disk, i.value) else s.disk
  {
    PanicsIff(s.config.ostIds, s.mem.rr);
    CreateCallIsRun(s, req, s.clock, 0, commits);
  }

  /** A run that loses the tree: making a directory fails to commit, and creating a file in it
      commits. */
  lemma OrphanRun()
    ensures var es := [Restart(Config([], 0, 0), 0)]
                      + ([Lock(CreateOp(MKDIR)), Mutate(0, 0), Fail, Reply]
                         + [Lock(CreateOp(NESTED)), Mutate(1, 0), Commit, Reply]);
            CanRun(Blank(0), es) && var t := After(Blank(0), es);
      t.disk.inodes.Keys == {ROOT, IdOf(1)} && t.disk.inodes[IdOf(1)].parent == IdOf(0) && !WellFormed(t.disk.inodes)
  {
    var a := Started();
    StartedFacts();
    AcceptedCreate(a, MKDIR, false);
    var first := [Lock(CreateOp(MKDIR)), Mutate(0, 0), Fail, Reply];
    var b := After(a, first);
    IdFacts(0);
    IdFacts(1);
    assert b.mem.inodes[IdOf(0)].id == IdOf(0) && b.mem.inodes[IdOf(0)].isDir;
    assert b.mem.dirents[IdOf(0)] == map[];
    AcceptedCreate(b, NESTED, true);
    var second := [Lock(CreateOp(NESTED)), Mutate(1, 0), Commit, Reply];
    AfterBoth(a, first, second);
    AfterOne(Blank(0), Restart(Config([], 0, 0), 0), first + second);
    assert !NodeOk(After(b, second).disk.inodes, IdOf(1));
  }

  /** Another: unlinking a file fails to commit, and creating one of the same name commits, which
      leaves two inodes in one place. */
  lemma TwinRun()
    ensures var es := [Restart(Config([], 0, 0), 0)]
                      + ([Lock(CreateOp(PLAIN)), Mutate(0, 0), Commit, Reply]
                         + ([Lock(UnlinkOp(ROOT, "a")), Mutate(1, 0), Fail, Reply]
                            + [Lock(CreateOp(PLAIN)), Mutate(1, 0), Commit, Reply]));
            CanRun(Blank(0), es) && var t := After(Blank(0), es);
      SameSpot(t.disk.inodes, IdOf(0), IdOf(1)) && !WellFormed(t.disk.inodes)
  {
    var a := Started();
    StartedFacts();
    IdFacts(0);
    AcceptedCreate(a, PLAIN, true);
    var first := [Lock(CreateOp(PLAIN)), Mutate(0, 0), Commit, Reply];
    var b := After(a, first);
    assert b.mem.dirents[ROOT]["a"] == IdOf(0);
    Replaced(b);
    var rest := [Lock(UnlinkOp(ROOT, "a")), Mutate(1, 0), Fail, Reply]
                + [Lock(CreateOp(PLAIN)), Mutate(1, 0), Commit, Reply];
    AfterBoth(a, first, rest);
    AfterOne(Blank(0), Restart(Config([], 0, 0), 0), first + rest);
  }

  /** From a file "a" in memory and on disk: its Unlink fails, and its replacement commits. */
  lemma Replaced(b: Sys)
    requires b.phase.Free? && b.clock == 1 && b.mem.rr < TWO63
    requires ROOT in b.mem.inodes && b.mem.inodes[ROOT].id == ROOT && b.mem.inodes[ROOT].isDir
    requires HasEntry(b.mem.dirents, ROOT, "a") && Entry(b.mem.dirents, ROOT, "a") == IdOf(0)
    requires IdOf(0) in b.mem.inodes && b.mem.inodes[IdOf(0)].id == IdOf(0) && !b.mem.inodes[IdOf(0)].isDir
    requires IdOf(0) in b.disk.inodes && b.disk.inodes[IdOf(0)].parent == ROOT && b.disk.inodes[IdOf(0)].name == "a"
    ensures var rest := [Lock(UnlinkOp(ROOT, "a")), Mutate(1, 0), Fail, Reply]
                        + [Lock(CreateOp(PLAIN)), Mutate(1, 0), Commit, Reply];
            CanRun(b, rest) && var t := After(b, rest);
      SameSpot(t.disk.inodes, IdOf(0), IdOf(1)) && !WellFormed(t.disk.inodes)
  {
    IdFacts(0);
    IdFacts(1);
    UnlinkCallIsRun(b, ROOT, "a", false);
    var gone := [Lock(UnlinkOp(ROOT, "a")), Mutate(1, 0), Fail, Reply];
    var c := After(b, gone);
    assert c.mem == MutateUnlink(b.mem, ROOT, "a", IdOf(0));
    AcceptedCreate(c, PLAIN, true);
    AfterBoth(b, gone, [Lock(CreateOp(PLAIN)), Mutate(1, 0), Commit, Reply]);
    assert SameSpot(After(c, [Lock(CreateOp(PLAIN)), Mutate(1, 0), Commit, Reply]).disk.inodes, IdOf(0), IdOf(1));
  }
}
