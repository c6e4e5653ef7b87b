/** The flat image of the directory index on disk, start-up loading, and what a restart
    preserves. */
module Recovery {
  import opened Text
  import opened Metadata
  import opened Namespace

  // ---------- Flattening and loading ----------

  ghost predicate NulFree(d: Dirents) {
    forall p :: p in d ==> NUL !in p
  }

  /** The dirents bucket that mirrors a nested index whose parents hold no NUL. */
  function Flatten(d: Dirents): (f: map<string, string>)
  {
    var keys := set p, n | p in d && n in d[p] :: Key(p, n);
    map k | k in keys && IsKey(k) && HasEntry(d, KeyParent(k), KeyName(k)) :: Entry(d, KeyParent(k), KeyName(k))
  }

  /** The flat bucket holds every entry of the index, with its value, and nothing else. */
  ghost predicate Mirrors(f: map<string, string>, d: Dirents) {
    && (forall p, n :: HasEntry(d, p, n) ==> Key(p, n) in f && f[Key(p, n)] == Entry(d, p, n))
    && (forall k :: k in f ==> IsKey(k) && HasEntry(d, KeyParent(k), KeyName(k)))
  }

  lemma FlattenMirrors(d: Dirents)
    requires NulFree(d)
    ensures Mirrors(Flatten(d), d)
  {
    forall p, n | HasEntry(d, p, n) ensures Key(p, n) in Flatten(d) && Flatten(d)[Key(p, n)] == Entry(d, p, n) {
      SplitUndoesKey(p, n);
    }
  }

  lemma MirrorsAgree(f: map<string, string>, g: map<string, string>, d: Dirents, k: string)
    requires Mirrors(f, d) && Mirrors(g, d) && k in f
    ensures k in g && f[k] == g[k]
  {
    KeyUndoesSplit(k);
    assert HasEntry(d, KeyParent(k), KeyName(k));
  }

  lemma MirrorIsFlatten(f: map<string, string>, d: Dirents)
    requires NulFree(d) && Mirrors(f, d)
    ensures f == Flatten(d)
  {
    FlattenMirrors(d);
    MirrorsEqual(f, Flatten(d), d);
  }

  lemma MirrorsEqual(f: map<string, string>, g: map<string, string>, d: Dirents)
    requires Mirrors(f, d) && Mirrors(g, d)
    ensures f == g
  {
    forall k | k in f ensures k in g && f[k] == g[k] { MirrorsAgree(f, g, d, k); }
    forall k | k in g ensures k in f { MirrorsAgree(g, f, d, k); }
  }

  function Parents(f: map<string, string>): set<string> {
    set k | k in f && IsKey(k) :: KeyParent(k)
  }

  function Names(f: map<string, string>, p: string): set<string> {
    set k | k in f && IsKey(k) && KeyParent(k) == p :: KeyName(k)
  }

  function Children(f: map<string, string>, p: string): map<string, string> {
    map n | n in Names(f, p) && Key(p, n) in f :: f[Key(p, n)]
  }

  /** The nested index the start-up loop builds from the flat bucket; keys without a NUL are
      skipped. */
  function LoadDirents(f: map<string, string>): Dirents {
    map p | p in Parents(f) :: Children(f, p)
  }

  lemma LoadExact(f: map<string, string>)
    ensures forall p, n :: HasEntry(LoadDirents(f), p, n) <==> NUL !in p && Key(p, n) in f
    ensures forall p, n :: HasEntry(LoadDirents(f), p, n) ==> Entry(LoadDirents(f), p, n) == f[Key(p, n)]
    ensures forall p :: p in LoadDirents(f) ==> LoadDirents(f)[p] != map[] && NUL !in p
  {
    var d := LoadDirents(f);
    forall k | k in f && IsKey(k) ensures Key(KeyParent(k), KeyName(k)) == k && NUL !in KeyParent(k) {
      KeyUndoesSplit(k);
    }
    forall p, n ensures HasEntry(d, p, n) <==> NUL !in p && Key(p, n) in f {
      if NUL !in p { SplitUndoesKey(p, n); }
    }
    forall p | p in d ensures d[p] != map[] {
      var k :| k in f && IsKey(k) && KeyParent(k) == p;
      assert KeyName(k) in d[p];
    }
  }

  lemma NamesHold(f: map<string, string>, p: string, n: string)
    requires n in Names(f, p)
    ensures Key(p, n) in f && IsKey(Key(p, n)) && KeyParent(Key(p, n)) == p && KeyName(Key(p, n)) == n
  {
    var x :| x in f && IsKey(x) && KeyParent(x) == p && KeyName(x) == n;
    KeyUndoesSplit(x);
  }

  lemma ChildrenSame(f: map<string, string>, k: string, v: string, p: string)
    requires k !in f && (!IsKey(k) || KeyParent(k) != p)
    ensures Children(f[k := v], p) == Children(f, p)
  {
    assert Names(f[k := v], p) == Names(f, p);
    forall n | n in Names(f, p) ensures Key(p, n) in f { NamesHold(f, p, n); }
  }

  lemma ChildrenAdd(f: map<string, string>, k: string, v: string)
    requires k !in f && IsKey(k)
    ensures Children(f[k := v], KeyParent(k)) == Children(f, KeyParent(k))[KeyName(k) := v]
    ensures KeyParent(k) !in Parents(f) ==> Children(f, KeyParent(k)) == map[]
  {
    var p := KeyParent(k);
    assert Names(f[k := v], p) == Names(f, p) + {KeyName(k)};
    KeyUndoesSplit(k);
    forall n | n in Names(f, p) ensures Key(p, n) in f { NamesHold(f, p, n); }
  }

  /** Loading one more key adds its entry, and its parent's map when that is missing. */
  lemma LoadAdd(f: map<string, string>, k: string, v: string)
    requires k !in f
    ensures !IsKey(k) ==> LoadDirents(f[k := v]) == LoadDirents(f)
    ensures IsKey(k) ==>
              var d := LoadDirents(f);
              var e := if KeyParent(k) in d then d else d[KeyParent(k) := map[]];
              LoadDirents(f[k := v]) == e[KeyParent(k) := e[KeyParent(k)][KeyName(k) := v]]
  {
    if IsKey(k) { LoadAddKey(f, k, v); } else { LoadAddOther(f, k, v); }
  }

  lemma LoadAddOther(f: map<string, string>, k: string, v: string)
    requires k !in f && !IsKey(k)
    ensures LoadDirents(f[k := v]) == LoadDirents(f)
  {
    var g := f[k := v];
    assert Parents(g) == Parents(f);
    forall p | p in Parents(g) ensures Children(g, p) == Children(f, p) { ChildrenSame(f, k, v, p); }
  }

  lemma LoadAddKey(f: map<string, string>, k: string, v: string)
    requires k !in f && IsKey(k)
    ensures var d := LoadDirents(f);
            var e := if KeyParent(k) in d then d else d[KeyParent(k) := map[]];
            LoadDirents(f[k := v]) == e[KeyParent(k) := e[KeyParent(k)][KeyName(k) := v]]
  {
    LoadAddAt(f, k, v);
    ChildrenAdd(f, k, v);
  }

  lemma LoadAddAt(f: map<string, string>, k: string, v: string)
    requires k !in f && IsKey(k)
    ensures LoadDirents(f[k := v]) == LoadDirents(f)[KeyParent(k) := Children(f[k := v], KeyParent(k))]
  {
    var g := f[k := v];
    ParentsAdd(f, k, v);
    forall p | p in Parents(f) && p != KeyParent(k) ensures Children(g, p) == Children(f, p) {
      ChildrenSame(f, k, v, p);
    }
    LoadsDifferAt(f, g, KeyParent(k));
  }

  lemma ParentsAdd(f: map<string, string>, k: string, v: string)
    requires k !in f && IsKey(k)
    ensures Parents(f[k := v]) == Parents(f) + {KeyParent(k)}
  {
  }

  lemma LoadsDifferAt(f: map<string, string>, g: map<string, string>, q: string)
    requires Parents(g) == Parents(f) + {q}
    requires forall p :: p in Parents(f) && p != q ==> Children(g, p) == Children(f, p)
    ensures LoadDirents(g) == LoadDirents(f)[q := Children(g, q)]
  {
    var d, e := LoadDirents(f)[q := Children(g, q)], LoadDirents(g);
    assert d.Keys == e.Keys;
  }

  /** Drops the empty entry maps of directories other than the root. */
  function Normalise(d: Dirents): Dirents {
    map p | p in d && (p == ROOT || d[p] != map[]) :: d[p]
  }

  function WithRoot(d: Dirents): Dirents {
    if ROOT in d then d else d[ROOT := map[]]
  }

  ghost predicate SameEntries(d: Dirents, e: Dirents) {
    && (forall p, n :: HasEntry(d, p, n) <==> HasEntry(e, p, n))
    && (forall p, n :: HasEntry(d, p, n) ==> Entry(d, p, n) == Entry(e, p, n))
  }

  /** Indices with the same entries are equal up to empty non-root maps. */
  lemma SameEntriesAlike(d: Dirents, e: Dirents)
    requires SameEntries(d, e) && (ROOT in d <==> ROOT in e)
    ensures Normalise(d) == Normalise(e)
  {
    forall p ensures (p in d && d[p] != map[]) <==> (p in e && e[p] != map[]) {
      if p in d && d[p] != map[] { var n :| n in d[p]; assert HasEntry(d, p, n); assert HasEntry(e, p, n); }
      if p in e && e[p] != map[] { var n :| n in e[p]; assert HasEntry(e, p, n); assert HasEntry(d, p, n); }
    }
    forall p | p in d && p in e ensures d[p] == e[p] {
      assert forall n :: n in d[p] <==> HasEntry(d, p, n);
      assert forall n :: n in e[p] <==> HasEntry(e, p, n);
      forall n | n in d[p] ensures d[p][n] == e[p][n] {
        assert HasEntry(d, p, n);
      }
    }
  }

  lemma NormaliseEntries(d: Dirents)
    ensures SameEntries(Normalise(d), d) && Normalise(Normalise(d)) == Normalise(d)
  {
    forall p, n ensures HasEntry(d, p, n) <==> HasEntry(Normalise(d), p, n) {}
  }

  lemma LoadKeepsMirrored(f: map<string, string>, d: Dirents)
    requires NulFree(d) && Mirrors(f, d)
    ensures SameEntries(LoadDirents(f), d)
  {
    LoadExact(f);
    var l := LoadDirents(f);
    forall p, n ensures HasEntry(l, p, n) <==> HasEntry(d, p, n) {
      if NUL !in p { SplitUndoesKey(p, n); }
    }
  }

  lemma WithRootEntries(l: Dirents)
    requires forall p :: p in l ==> l[p] != map[]
    ensures SameEntries(WithRoot(l), l) && Normalise(WithRoot(l)) == WithRoot(l)
  {
    forall p, n ensures HasEntry(WithRoot(l), p, n) <==> HasEntry(l, p, n) {}
  }

  lemma SameEntriesTrans(d: Dirents, e: Dirents, f: Dirents)
    requires SameEntries(d, e) && SameEntries(e, f)
    ensures SameEntries(d, f)
  {
  }

  /** Loading a flattened index gives it back up to empty maps. */
  lemma LoadInvertsFlatten(d: Dirents)
    requires NulFree(d) && ROOT in d
    ensures WithRoot(LoadDirents(Flatten(d))) == Normalise(d)
  {
    var l := LoadDirents(Flatten(d));
    FlattenMirrors(d);
    LoadKeepsMirrored(Flatten(d), d);
    LoadExact(Flatten(d));
    WithRootEntries(l);
    SameEntriesTrans(WithRoot(l), l, d);
    SameEntriesAlike(WithRoot(l), d);
  }

  /** Two indices with the same flat image differ in empty maps only. */
  lemma FlattenInjective(d: Dirents, e: Dirents)
    requires NulFree(d) && NulFree(e) && ROOT in d && ROOT in e
    ensures Flatten(d) == Flatten(e) <==> Normalise(d) == Normalise(e)
  {
    LoadInvertsFlatten(d);
    LoadInvertsFlatten(e);
    FlattenNormalised(d);
    FlattenNormalised(e);
  }

  lemma FlattenNormalised(d: Dirents)
    requires NulFree(d)
    ensures Flatten(Normalise(d)) == Flatten(d)
  {
    FlattenMirrors(d);
    NormaliseEntries(d);
    MirrorIsFlatten(Flatten(d), Normalise(d));
  }

  // ---------- Start-up ----------

  function RootInode(c: Config, unix: int): Inode {
    Inode(ROOT, "", "/", true, 0, c.mode, unix, unix, StripeLayout(c.stripeSize, c.ostIds))
  }

  /** What start-up makes of a disk: memory rebuilt, and a root created when there is none. */
  function Boot(c: Config, d: Disk, unix: int): (Mem, Disk) {
    var e := LoadDirents(d.dirents);
    if ROOT in d.inodes then (Mem(d.inodes, WithRoot(e), 0), d)
    else
      var t := d.inodes[ROOT := RootInode(c, unix)];
      (Mem(t, e[ROOT := map[]], 0), Disk(t, d.dirents))
  }

  const EMPTY_DISK := Disk(map[], map[])

  /** Disk mirrors a coherent memory. */
  ghost predicate Synced(d: Disk, m: Mem) {
    Coherent(m) && d.inodes == m.inodes && d.dirents == Flatten(m.dirents)
  }

  lemma CoherentIsNulFree(m: Mem)
    requires Coherent(m)
    ensures NulFree(m.dirents)
  {
    forall p | p in m.dirents ensures NUL !in p {
      if p != ROOT {
        assert NodeOk(m.inodes, p);
        MintedHasNoNul(p, Stamp(p) + 1);
      }
    }
  }

  /** Recovery round trip: start-up from the disk image of a coherent memory returns the same
      inodes, the same index up to empty non-root maps, and an untouched disk. */
  lemma RecoveryRoundTrip(c: Config, d: Disk, m: Mem, unix: int)
    requires Synced(d, m)
    ensures Boot(c, d, unix) == (Mem(m.inodes, Normalise(m.dirents), 0), d)
    ensures Synced(d, Boot(c, d, unix).0)
  {
    CoherentIsNulFree(m);
    LoadInvertsFlatten(m.dirents);
    FlattenNormalised(m.dirents);
    NormaliseKeepsIndexed(m.inodes, m.dirents);
  }

  lemma NormaliseKeepsIndexed(t: InodeTable, d: Dirents)
    requires Indexed(t, d)
    ensures Indexed(t, Normalise(d))
  {
    var e := Normalise(d);
    assert forall p, n :: HasEntry(e, p, n) <==> HasEntry(d, p, n);
    forall p, n | HasEntry(e, p, n) ensures EntryOk(t, p, n, Entry(e, p, n)) {
      assert EntryOk(t, p, n, Entry(d, p, n));
    }
    forall id | id in t && id != ROOT ensures Listed(t, e, id) {
      assert Listed(t, d, id);
    }
  }

  /** Start-up from an empty disk makes a coherent tree of the root alone. */
  lemma FirstBoot(c: Config, unix: int)
    ensures var (m, d) := Boot(c, EMPTY_DISK, unix);
            && Synced(d, m) && m.rr == 0
            && m.inodes == map["root" := Inode("root", "", "/", true, 0, c.mode, unix, unix,
                                             StripeLayout(c.stripeSize, c.ostIds))]
  {
    var (m, d) := Boot(c, EMPTY_DISK, unix);
    assert Parents(map[]) == {};
    assert m.dirents == map[ROOT := map[]];
    assert forall p, n :: !HasEntry(m.dirents, p, n);
    MirrorIsFlatten(map[], m.dirents);
  }

  /** Start-up from any disk with a root serves its inodes as they are, and exactly the entries
      of the keys that hold a NUL, split at the first; it leaves the disk alone. */
  lemma BootExact(c: Config, d: Disk, unix: int)
    requires ROOT in d.inodes
    ensures var (m, e) := Boot(c, d, unix);
      && m.inodes == d.inodes && e == d && m.rr == 0 && ROOT in m.dirents
      && (forall p, n :: HasEntry(m.dirents, p, n) <==> NUL !in p && Key(p, n) in d.dirents)
      && (forall p, n :: HasEntry(m.dirents, p, n) ==> Entry(m.dirents, p, n) == d.dirents[Key(p, n)])
  {
    LoadExact(d.dirents);
    WithRootEntries(LoadDirents(d.dirents));
  }

  /** Loading twice gives what loading once gives, except on a disk that holds entries of the
      root but no root: there the first start-up hides the entries and the second shows them. */
  lemma BootTwice(c: Config, d: Disk, unix: int, later: int)
    ensures var (m, e) := Boot(c, d, unix);
            Boot(c, e, later) == (m, e) <==> ROOT in d.inodes || ROOT !in LoadDirents(d.dirents)
  {
    LoadExact(d.dirents);
  }

  // ---------- Commits keep disk and memory in step ----------

  lemma CreateStaysSynced(d: Disk, m: Mem, i: Inode)
    requires Synced(d, m) && CreateReady(m, i)
    ensures Synced(CommitCreate(d, i), MutateCreate(m, i))
  {
    CreateAddsPath(m, i);
    CoherentIsNulFree(m);
    CoherentIsNulFree(MutateCreate(m, i));
    FlattenMirrors(m.dirents);
    CreateDirents(m, i);
    var f := CommitCreate(d, i).dirents;
    AddStaysMirrored(d.dirents, m.dirents, f, MutateCreate(m, i).dirents, i.parent, i.name, i.id);
    MirrorIsFlatten(f, MutateCreate(m, i).dirents);
  }

  lemma AddStaysMirrored(f: map<string, string>, d: Dirents, g: map<string, string>, e: Dirents,
                         parent: string, name: string, id: string)
    requires Mirrors(f, d) && NulFree(d) && NulFree(e) && g == f[Key(parent, name) := id]
    requires forall p, n :: HasEntry(e, p, n) <==> (p == parent && n == name) || HasEntry(d, p, n)
    requires !HasEntry(d, parent, name) && HasEntry(e, parent, name) && Entry(e, parent, name) == id
    requires forall p, n :: HasEntry(d, p, n) ==> Entry(e, p, n) == Entry(d, p, n)
    ensures Mirrors(g, e)
  {
    SplitUndoesKey(parent, name);
    forall p, n | HasEntry(e, p, n) ensures Key(p, n) in g && g[Key(p, n)] == Entry(e, p, n) {
      SplitUndoesKey(p, n);
    }
    forall k | k in g ensures IsKey(k) && HasEntry(e, KeyParent(k), KeyName(k)) {
      if k in f { assert HasEntry(d, KeyParent(k), KeyName(k)); }
    }
  }

  lemma UnlinkStaysSynced(d: Disk, m: Mem, parent: string, name: string)
    requires Synced(d, m) && UnlinkCheck(m, parent, name).Remove?
    ensures var id := UnlinkCheck(m, parent, name).inode.id;
            Synced(CommitUnlink(d, parent, name, id), MutateUnlink(m, parent, name, id))
  {
    UnlinkRemovesLeaf(m, parent, name);
    UnlinkStaysFlat(d, m, parent, name);
  }

  lemma UnlinkStaysFlat(d: Disk, m: Mem, parent: string, name: string)
    requires Synced(d, m) && UnlinkCheck(m, parent, name).Remove?
    ensures var id := UnlinkCheck(m, parent, name).inode.id;
            CommitUnlink(d, parent, name, id).dirents == Flatten(MutateUnlink(m, parent, name, id).dirents)
  {
    RemoveFacts(m, parent, name);
    var id := UnlinkCheck(m, parent, name).inode.id;
    EmptyIffChildless(m, id);
    CoherentIsNulFree(m);
    UnlinkDirents(m, parent, name, id);
    FlattenMirrors(m.dirents);
    var f, e := d.dirents - {Key(parent, name)}, MutateUnlink(m, parent, name, id).dirents;
    RemoveStaysMirrored(d.dirents, m.dirents, f, e, parent, name);
    MirrorIsFlatten(f, e);
  }

  lemma RemoveStaysMirrored(f: map<string, string>, d: Dirents, g: map<string, string>, e: Dirents,
                            parent: string, name: string)
    requires Mirrors(f, d) && NulFree(d) && NUL !in parent && g == f - {Key(parent, name)}
    requires forall p, n :: HasEntry(e, p, n) <==> HasEntry(d, p, n) && !(p == parent && n == name)
    requires forall p, n :: HasEntry(e, p, n) ==> Entry(e, p, n) == Entry(d, p, n)
    ensures Mirrors(g, e)
  {
    SplitUndoesKey(parent, name);
    forall p, n | HasEntry(e, p, n) ensures Key(p, n) in g && g[Key(p, n)] == Entry(e, p, n) {
      SplitUndoesKey(p, n);
    }
    forall k | k in g ensures IsKey(k) && HasEntry(e, KeyParent(k), KeyName(k)) {
      assert HasEntry(d, KeyParent(k), KeyName(k));
      KeyUndoesSplit(k);
    }
  }

  // ---------- Create undone by Unlink ----------

  /** Creating an entry and unlinking it restores the inodes and both buckets exactly, and the
      index up to an empty map for the parent. */
  lemma UnlinkUndoesCreate(d: Disk, m: Mem, i: Inode)
    requires Synced(d, m) && CreateReady(m, i)
    ensures var n := MutateCreate(m, i);
      && UnlinkCheck(n, i.parent, i.name) == Remove(i)
      && var u := MutateUnlink(n, i.parent, i.name, i.id);
         && u.inodes == m.inodes
         && u.dirents == (if i.parent in m.dirents then m.dirents else m.dirents[i.parent := map[]])
         && CommitUnlink(CommitCreate(d, i), i.parent, i.name, i.id) == d
  {
    assert i.parent != i.id && i.id !in m.dirents;
    UndoIndex(m, i);
    KeyIsNew(d, m, i);
  }

  lemma UndoIndex(m: Mem, i: Inode)
    requires i.parent != i.id && i.id !in m.dirents && i.id !in m.inodes
    requires !HasEntry(m.dirents, i.parent, i.name)
    ensures var n := MutateCreate(m, i);
      && UnlinkCheck(n, i.parent, i.name) == Remove(i)
      && MutateUnlink(n, i.parent, i.name, i.id).inodes == m.inodes
      && MutateUnlink(n, i.parent, i.name, i.id).dirents
         == (if i.parent in m.dirents then m.dirents else m.dirents[i.parent := map[]])
  {
    var n := MutateCreate(m, i);
    var want := if i.parent in m.dirents then m.dirents else m.dirents[i.parent := map[]];
    assert n.dirents[i.parent] == want[i.parent][i.name := i.id];
    assert n.dirents[i.parent] - {i.name} == want[i.parent];
  }

  lemma KeyIsNew(d: Disk, m: Mem, i: Inode)
    requires Synced(d, m) && CreateReady(m, i)
    ensures Key(i.parent, i.name) !in d.dirents
  {
    CoherentIsNulFree(m);
    FlattenMirrors(m.dirents);
    if i.parent != ROOT { assert NodeOk(m.inodes, i.parent); }
    MintedHasNoNul(i.parent, Stamp(i.parent) + 1);
    SplitUndoesKey(i.parent, i.name);
  }

  // ---------- What a restart changes ----------

  /** A directory other than the root whose entry map is present and empty; a restart loses
      the map. */
  predicate EmptyNonRoot(m: Mem, p: string) {
    p in m.dirents && p != ROOT && m.dirents[p] == map[]
  }

  function Restarted(m: Mem): Mem {
    Mem(m.inodes, Normalise(m.dirents), 0)
  }

  /** Stat, Lookup and Create's verdict never change across a restart. Unlink's verdict
      changes exactly when the named parent is an empty directory other than the root: a
      refusal to find the parent replaces "nothing deleted". */
  lemma RestartAgrees(m: Mem, req: CreateRequest, p: string, n: string)
    requires Coherent(m)
    ensures StatOf(Restarted(m), p) == StatOf(m, p)
    ensures LookupOf(Restarted(m), p, n) == LookupOf(m, p, n)
    ensures CreateCheck(Restarted(m), req) == CreateCheck(m, req)
    ensures UnlinkCheck(Restarted(m), p, n) == UnlinkCheck(m, p, n) <==> !EmptyNonRoot(m, p)
    ensures EmptyNonRoot(m, p) ==> UnlinkCheck(m, p, n) == Absent && UnlinkCheck(Restarted(m), p, n) == Refuse(NotFound)
  {
  }

  /** The same inodes and the same index up to empty non-root maps. */
  predicate Alike(m: Mem, n: Mem) {
    m.inodes == n.inodes && Normalise(m.dirents) == Normalise(n.dirents)
  }

  /** Memories alike up to a restart stay so: what either accepts the other accepts, with
      like results. */
  lemma AlikeCreate(m: Mem, n: Mem, i: Inode)
    requires Coherent(m) && Coherent(n) && Alike(m, n) && CreateReady(m, i)
    ensures CreateReady(n, i) && Alike(MutateCreate(m, i), MutateCreate(n, i))
  {
    AlikeEntries(m, n);
    CreateDirents(m, i);
    CreateDirents(n, i);
    SameEntriesAlike(MutateCreate(m, i).dirents, MutateCreate(n, i).dirents);
  }

  lemma AlikeUnlink(m: Mem, n: Mem, parent: string, name: string)
    requires Coherent(m) && Coherent(n) && Alike(m, n) && UnlinkCheck(m, parent, name).Remove?
    ensures UnlinkCheck(n, parent, name) == UnlinkCheck(m, parent, name)
    ensures var id := UnlinkCheck(m, parent, name).inode.id;
            Alike(MutateUnlink(m, parent, name, id), MutateUnlink(n, parent, name, id))
  {
    AlikeEntries(m, n);
    RemoveFacts(m, parent, name);
    assert HasEntry(n.dirents, parent, name);
    var id := UnlinkCheck(m, parent, name).inode.id;
    EmptyIffChildless(m, id);
    EmptyIffChildless(n, id);
    UnlinkDirents(m, parent, name, id);
    UnlinkDirents(n, parent, name, id);
    SameEntriesAlike(MutateUnlink(m, parent, name, id).dirents, MutateUnlink(n, parent, name, id).dirents);
  }

  lemma AlikeEntries(m: Mem, n: Mem)
    requires Alike(m, n)
    ensures SameEntries(m.dirents, n.dirents)
  {
    NormaliseEntries(m.dirents);
    NormaliseEntries(n.dirents);
  }
}
