/** Runs with arbitrary transaction errors, crashes and restarts. Memory is not rolled back
    when a transaction fails, so memory and disk drift apart. In every such run each directory
    entry, in memory and on disk, leads to an inode that says the same parent and name, inodes
    on disk stay until their own Unlink commits, and unlinked ids never return. When disk and
    memory stay trees is the subject of module Failures. */
module Dangling {
  import opened Text
  import opened Wrappers
  import opened Stripes
  import opened Metadata
  import opened Namespace
  import opened Recovery
  import opened Protocol

  ghost predicate IdsOk(t: InodeTable, clock: nat) {
    forall id :: id in t ==> t[id].id == id && (id == ROOT || Minted(id, clock)) && NUL !in t[id].parent
  }

  ghost predicate EntriesOk(t: InodeTable, d: Dirents) {
    forall p, n :: HasEntry(d, p, n) ==> EntryOk(t, p, n, Entry(d, p, n))
  }

  ghost predicate KeysOk(t: InodeTable, f: map<string, string>) {
    forall k :: k in f ==> IsKey(k) && EntryOk(t, KeyParent(k), KeyName(k), f[k])
  }

  /** An id present in both tables has the same inode in both. */
  ghost predicate Agree(t: InodeTable, u: InodeTable) {
    forall id :: id in t && id in u ==> t[id] == u[id]
  }

  /** What is known of a change between memory and its transaction. */
  ghost predicate PendingOk(s: Sys, ch: Change) {
    match ch
    case Created(i) =>
      && i.id in s.mem.inodes && s.mem.inodes[i.id] == i && i.id !in s.disk.inodes
      && i.id != ROOT && i.name != "" && '/' !in i.name && Rank(i.parent) < Rank(i.id)
      && i.parent in s.mem.inodes && s.mem.inodes[i.parent].isDir
    case Removed(p, n, i) =>
      && i.id != ROOT && i.parent == p && i.name == n && NUL !in p
      && Minted(i.id, s.clock) && i.id !in s.mem.inodes
      && (i.id in s.disk.inodes ==> s.disk.inodes[i.id] == i)
  }

  /** The disk is empty until the first start, and has a root from then on. */
  ghost predicate StartedOk(s: Sys) {
    if ROOT in s.disk.inodes then RootOk(s.disk.inodes) else s.phase.Down? && s.disk == EMPTY_DISK
  }

  ghost predicate Sound(s: Sys) {
    && IdsOk(s.disk.inodes, s.clock) && IdsOk(s.mem.inodes, s.clock)
    && KeysOk(s.disk.inodes, s.disk.dirents) && EntriesOk(s.mem.inodes, s.mem.dirents)
    && Agree(s.mem.inodes, s.disk.inodes)
    && (s.phase.Mutated? ==> PendingOk(s, s.phase.change))
    && s.mem.rr <= s.clock <= TWO63
    && StartedOk(s)
  }

  // ---------- The steps ----------

  lemma CreateEntries(m: Mem, i: Inode)
    requires EntriesOk(m.inodes, m.dirents) && i.id !in m.inodes && i.id != ROOT
    ensures EntriesOk(MutateCreate(m, i).inodes, MutateCreate(m, i).dirents)
  {
    var n := MutateCreate(m, i);
    forall p, x | HasEntry(n.dirents, p, x) ensures EntryOk(n.inodes, p, x, Entry(n.dirents, p, x)) {
      if p != i.parent || x != i.name {
        assert HasEntry(m.dirents, p, x);
        assert EntryOk(m.inodes, p, x, Entry(m.dirents, p, x));
      }
    }
  }

  lemma UnlinkEntries(m: Mem, parent: string, name: string)
    requires EntriesOk(m.inodes, m.dirents) && UnlinkCheck(m, parent, name).Remove?
    requires HasEntry(m.dirents, parent, name)
    requires UnlinkCheck(m, parent, name).inode.id == Entry(m.dirents, parent, name)
    ensures var n := MutateUnlink(m, parent, name, UnlinkCheck(m, parent, name).inode.id);
            EntriesOk(n.inodes, n.dirents)
  {
    var id := Entry(m.dirents, parent, name);
    var n := MutateUnlink(m, parent, name, id);
    assert EntryOk(m.inodes, parent, name, id);
    forall p, x | HasEntry(n.dirents, p, x) ensures EntryOk(n.inodes, p, x, Entry(n.dirents, p, x)) {
      assert HasEntry(m.dirents, p, x);
      assert EntryOk(m.inodes, p, x, Entry(m.dirents, p, x));
    }
  }

  lemma CommitCreateKeys(d: Disk, i: Inode)
    requires KeysOk(d.inodes, d.dirents) && i.id !in d.inodes && i.id != ROOT && NUL !in i.parent
    ensures KeysOk(CommitCreate(d, i).inodes, CommitCreate(d, i).dirents)
  {
    SplitUndoesKey(i.parent, i.name);
  }

  lemma CommitUnlinkKeys(d: Disk, i: Inode)
    requires KeysOk(d.inodes, d.dirents) && (i.id in d.inodes ==> d.inodes[i.id] == i)
    ensures var e := CommitUnlink(d, i.parent, i.name, i.id); KeysOk(e.inodes, e.dirents)
  {
    var e := CommitUnlink(d, i.parent, i.name, i.id);
    forall k | k in e.dirents ensures IsKey(k) && EntryOk(e.inodes, KeyParent(k), KeyName(k), e.dirents[k]) {
      KeyUndoesSplit(k);
    }
  }

  lemma LoadEntries(t: InodeTable, f: map<string, string>)
    requires KeysOk(t, f)
    ensures EntriesOk(t, LoadDirents(f))
  {
    LoadExact(f);
    var l := LoadDirents(f);
    forall p, n | HasEntry(l, p, n) ensures EntryOk(t, p, n, Entry(l, p, n)) {
      SplitUndoesKey(p, n);
    }
  }

  /** A root joining the table and an empty map joining or replacing one keep entries sound. */
  lemma RootJoins(t: InodeTable, l: Dirents, u: InodeTable, d: Dirents)
    requires EntriesOk(t, l)
    requires forall id :: id in t && id != ROOT ==> id in u && u[id] == t[id]
    requires forall p, n :: HasEntry(d, p, n) ==> HasEntry(l, p, n) && Entry(d, p, n) == Entry(l, p, n)
    ensures EntriesOk(u, d)
  {
    forall p, n | HasEntry(d, p, n) ensures EntryOk(u, p, n, Entry(d, p, n)) {
      assert EntryOk(t, p, n, Entry(l, p, n));
    }
  }

  lemma BootEntries(c: Config, d: Disk, unix: int)
    requires KeysOk(d.inodes, d.dirents)
    ensures var (m, e) := Boot(c, d, unix); EntriesOk(m.inodes, m.dirents) && KeysOk(e.inodes, e.dirents)
  {
    var (m, e) := Boot(c, d, unix);
    LoadEntries(d.inodes, d.dirents);
    RootJoins(d.inodes, LoadDirents(d.dirents), m.inodes, m.dirents);
  }

  lemma MutateSound(s: Sys, nanos: nat, unix: int)
    requires Sound(s) && Enabled(s, Mutate(nanos, unix))
    ensures Sound(Next(s, Mutate(nanos, unix)))
  {
    match s.phase.op
    case CreateOp(req) =>
      if NewInode(s.config, s.mem, req, nanos, unix).Some? {
        var i := NewInode(s.config, s.mem, req, nanos, unix).value;
        IdFacts(nanos);
        MintedHasNoNul(i.parent, s.clock);
        CreateEntries(s.mem, i);
        CreateSound(s, i, nanos);
      }
    case UnlinkOp(p, n) =>
      assert HasEntry(s.mem.dirents, p, n);
      assert EntryOk(s.mem.inodes, p, n, Entry(s.mem.dirents, p, n));
      UnlinkEntries(s.mem, p, n);
  }

  lemma IdsGrow(t: InodeTable, clock: nat, later: nat)
    requires IdsOk(t, clock) && clock <= later
    ensures IdsOk(t, later)
  {
  }

  lemma IdsAdd(t: InodeTable, i: Inode, clock: nat)
    requires IdsOk(t, clock) && Minted(i.id, clock) && NUL !in i.parent
    ensures IdsOk(t[i.id := i], clock)
  {
  }

  lemma CreateSound(s: Sys, i: Inode, nanos: nat)
    requires Sound(s) && !s.phase.Down? && i.id == IdOf(nanos) && s.clock <= nanos < TWO63 && NUL !in i.parent
    requires i.parent in s.mem.inodes && s.mem.inodes[i.parent].isDir && i.name != "" && '/' !in i.name
    requires EntriesOk(MutateCreate(s.mem, i).inodes, MutateCreate(s.mem, i).dirents)
    ensures Sound(s.(mem := MutateCreate(s.mem, i), phase := Mutated(Created(i), s.mem), clock := nanos + 1))
  {
    var t := s.(mem := MutateCreate(s.mem, i), phase := Mutated(Created(i), s.mem), clock := nanos + 1);
    IdFacts(nanos);
    IdsGrow(s.disk.inodes, s.clock, t.clock);
    IdsGrow(s.mem.inodes, s.clock, t.clock);
    IdsAdd(s.mem.inodes, i, t.clock);
    assert i.id !in s.disk.inodes && i.id !in s.mem.inodes;
    assert PendingOk(t, Created(i));
  }

  lemma CommitCreatedSound(s: Sys)
    requires Sound(s) && s.phase.Mutated? && s.phase.change.Created?
    ensures Sound(Next(s, Commit))
  {
    var i := s.phase.change.inode;
    CommitCreateKeys(s.disk, i);
    IdsAdd(s.disk.inodes, i, s.clock);
  }

  lemma CommitRemovedSound(s: Sys)
    requires Sound(s) && s.phase.Mutated? && s.phase.change.Removed?
    ensures Sound(Next(s, Commit))
  {
    CommitUnlinkKeys(s.disk, s.phase.change.inode);
  }

  lemma CommitSound(s: Sys)
    requires Sound(s) && s.phase.Mutated?
    ensures Sound(Next(s, Commit))
  {
    match s.phase.change
    case Created(i) => CommitCreatedSound(s);
    case Removed(p, n, i) => CommitRemovedSound(s);
  }

  lemma SoundStep(s: Sys, e: Event)
    requires Sound(s) && Enabled(s, e)
    ensures Sound(Next(s, e))
  {
    if e.Mutate? {
      MutateSound(s, e.nanos, e.unix);
    } else if e.Commit? {
      CommitSound(s);
    } else if e.Restart? {
      BootEntries(WithDefaults(e.config), s.disk, e.unix);
    }
  }

  /** Whatever fails and whenever the process crashes, no entry ever dangles. */
  lemma {:induction false} RunStaysSound(s: Sys, es: seq<Event>)
    requires Sound(s) && CanRun(s, es)
    ensures Sound(After(s, es))
    decreases |es|
  {
    if es != [] {
      SoundStep(s, es[0]);
      RunStaysSound(Next(s, es[0]), es[1..]);
    }
  }

  lemma BlankRunIsSound(clock: nat, es: seq<Event>)
    requires clock <= TWO63 && CanRun(Blank(clock), es)
    ensures Sound(After(Blank(clock), es))
  {
    RunStaysSound(Blank(clock), es);
  }

  /** In every reachable state Lookup answers NotFound or returns an inode, with the parent and
      name that were asked for, and it is the one Stat returns for its id. */
  lemma LookupNeverNil(clock: nat, es: seq<Event>, p: string, n: string)
    requires clock <= TWO63 && CanRun(Blank(clock), es)
    ensures var r := LookupOf(After(Blank(clock), es).mem, p, n);
            && (r.Ok? ==> r.value.Some? && r.value.value.parent == p && r.value.value.name == n)
            && (r.Ok? && r.value.Some? ==> StatOf(After(Blank(clock), es).mem, r.value.value.id) == Ok(r.value.value))
            && (r.Err? ==> r.code == NotFound)
  {
    BlankRunIsSound(clock, es);
    var m := After(Blank(clock), es).mem;
    if HasEntry(m.dirents, p, n) {
      assert EntryOk(m.inodes, p, n, Entry(m.dirents, p, n));
    }
  }

  /** In every reachable state Stat answers NotFound or returns the inode of the id that was
      asked for. */
  lemma StatReturnsItsId(clock: nat, es: seq<Event>, id: string)
    requires clock <= TWO63 && CanRun(Blank(clock), es)
    ensures var r := StatOf(After(Blank(clock), es).mem, id);
            if r.Ok? then r.value.id == id else r.code == NotFound
  {
    BlankRunIsSound(clock, es);
  }

  /** In every reachable state building a stripe layout never panics: each accepted Create uses
      up a clock reading of its own, so the counter stays below 2^63. */
  lemma RotationNeverPanics(clock: nat, es: seq<Event>, nanos: nat, unix: int)
    requires clock <= TWO63 && CanRun(Blank(clock), es)
    requires var s := After(Blank(clock), es); Enabled(s, Mutate(nanos, unix)) && s.phase.op.CreateOp?
    ensures var s := After(Blank(clock), es); NewInode(s.config, s.mem, s.phase.op.req, nanos, unix).Some?
  {
    BlankRunIsSound(clock, es);
    var s := After(Blank(clock), es);
    PanicsIff(s.config.ostIds, s.mem.rr);
  }

  // ---------- What stays on disk ----------

  /** The event commits the Unlink of this inode. */
  predicate Unlinks(s: Sys, e: Event, id: string) {
    e.Commit? && s.phase.Mutated? && s.phase.change.Removed? && s.phase.change.inode.id == id
  }

  ghost predicate NeverUnlinked(s: Sys, es: seq<Event>, id: string)
    requires CanRun(s, es)
    decreases |es|
  {
    es == [] || (!Unlinks(s, es[0], id) && NeverUnlinked(Next(s, es[0]), es[1..], id))
  }

  lemma InodeStep(s: Sys, e: Event, id: string)
    requires Sound(s) && Enabled(s, e) && id in s.disk.inodes && !Unlinks(s, e, id)
    ensures id in Next(s, e).disk.inodes && Next(s, e).disk.inodes[id] == s.disk.inodes[id]
  {
  }

  /** Whatever fails or crashes, an inode on disk stays there unchanged until a transaction
      that unlinks this very inode commits. */
  lemma {:induction false} InodeStays(s: Sys, es: seq<Event>, id: string)
    requires Sound(s) && CanRun(s, es) && id in s.disk.inodes && NeverUnlinked(s, es, id)
    ensures id in After(s, es).disk.inodes && After(s, es).disk.inodes[id] == s.disk.inodes[id]
    decreases |es|
  {
    if es != [] {
      SoundStep(s, es[0]);
      InodeStep(s, es[0], id);
      InodeStays(Next(s, es[0]), es[1..], id);
    }
  }

  /** So the inode of a committed, and in particular of an acknowledged, Create is durable under
      arbitrary later failures. */
  lemma CommittedCreateStays(s: Sys, es: seq<Event>)
    requires Sound(s) && s.phase.Mutated? && s.phase.change.Created? && CanRun(Next(s, Commit), es)
    requires NeverUnlinked(Next(s, Commit), es, s.phase.change.inode.id)
    ensures var i, t := s.phase.change.inode, After(Next(s, Commit), es);
            i.id in t.disk.inodes && t.disk.inodes[i.id] == i
  {
    CommitSound(s);
    InodeStays(Next(s, Commit), es, s.phase.change.inode.id);
  }

  /** The id was minted and is neither on disk nor in memory. */
  predicate Gone(s: Sys, id: string) {
    id != ROOT && Minted(id, s.clock) && id !in s.disk.inodes && id !in s.mem.inodes
  }

  lemma GoneStep(s: Sys, e: Event, id: string)
    requires Sound(s) && Enabled(s, e) && Gone(s, id)
    ensures Gone(Next(s, e), id)
  {
    if e.Mutate? { IdFacts(e.nanos); }
  }

  lemma {:induction false} GoneStays(s: Sys, es: seq<Event>, id: string)
    requires Sound(s) && CanRun(s, es) && Gone(s, id)
    ensures Gone(After(s, es), id)
    decreases |es|
  {
    if es != [] {
      SoundStep(s, es[0]);
      GoneStep(s, es[0], id);
      GoneStays(Next(s, es[0]), es[1..], id);
    }
  }

  /** Once an Unlink has committed, its inode never returns, to disk or to memory. */
  lemma UnlinkedNeverReturns(s: Sys, es: seq<Event>)
    requires Sound(s) && s.phase.Mutated? && s.phase.change.Removed? && CanRun(Next(s, Commit), es)
    ensures Gone(After(Next(s, Commit), es), s.phase.change.inode.id)
  {
    CommitSound(s);
    GoneStays(Next(s, Commit), es, s.phase.change.inode.id);
  }

  lemma {:induction false} RootIsNeverUnlinked(s: Sys, es: seq<Event>)
    requires Sound(s) && CanRun(s, es)
    ensures NeverUnlinked(s, es, ROOT)
    decreases |es|
  {
    if es != [] {
      SoundStep(s, es[0]);
      RootIsNeverUnlinked(Next(s, es[0]), es[1..]);
    }
  }

  /** Once written, the root is never removed or replaced, whatever fails or crashes. */
  lemma RootStays(s: Sys, es: seq<Event>)
    requires Sound(s) && CanRun(s, es) && ROOT in s.disk.inodes
    ensures ROOT in After(s, es).disk.inodes && After(s, es).disk.inodes[ROOT] == s.disk.inodes[ROOT]
  {
    RootIsNeverUnlinked(s, es);
    InodeStays(s, es, ROOT);
  }

  /** In every reachable state, failures included, loading twice gives what loading once
      gives. */
  lemma ReachableBootTwice(clock: nat, es: seq<Event>, c: Config, unix: int, later: int)
    requires clock <= TWO63 && CanRun(Blank(clock), es)
    ensures var (m, d) := Boot(c, After(Blank(clock), es).disk, unix);
            Boot(c, d, later) == (m, d)
  {
    BlankRunIsSound(clock, es);
    BootTwice(c, After(Blank(clock), es).disk, unix, later);
    LoadExact(map[]);
    assert Parents(map[]) == {};
  }

  /** The tree can be lost: when creating a directory fails to commit and
      then creating a child in it commits, a restart serves an orphan. */
  lemma FailedCreateOrphans(c: Config, d: Disk, m: Mem, dir: Inode, child: Inode, unix: int)
    requires Synced(d, m) && CreateReady(m, dir) && dir.isDir
    requires CreateReady(MutateCreate(m, dir), child) && child.parent == dir.id
    ensures var (r, e) := Boot(c, CommitCreate(d, child), unix);
      && StatOf(r, child.id) == Ok(child) && LookupOf(r, dir.id, child.name) == Ok(Some(child))
      && StatOf(r, dir.id) == Err(NotFound) && !WellFormed(r.inodes)
  {
    var f := CommitCreate(d, child).dirents;
    IdFacts(Stamp(dir.id));
    LoadedEntry(f, dir.id, child.name);
    var (r, e) := Boot(c, CommitCreate(d, child), unix);
    assert r.inodes == d.inodes[child.id := child];
    assert !NodeOk(r.inodes, child.id);
  }

  lemma LoadedEntry(f: map<string, string>, p: string, n: string)
    requires NUL !in p && Key(p, n) in f && p != ROOT
    ensures HasEntry(WithRoot(LoadDirents(f)), p, n) && Entry(WithRoot(LoadDirents(f)), p, n) == f[Key(p, n)]
  {
    LoadExact(f);
    assert HasEntry(LoadDirents(f), p, n);
  }
}
