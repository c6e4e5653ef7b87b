/** The metadata service as an object: each method updates the fields and the database step by
    step and is proved equal to the specification in Metadata, Calls and Recovery. */
module MetadataService {
  import opened Text
  import opened Wrappers
  import opened Stripes
  import opened Metadata
  import opened Recovery
  import opened Listing
  import opened Calls

  /** How a transaction of two bucket operations ends: it commits, one of its operations
      returns an error, or the final commit does. */
  datatype Fate = Commits | FirstFails | SecondFails | CommitFails

  /** The database file; it outlives the services that open it. */
  class Database {
    var inodes: InodeTable
    var dirents: map<string, string>

    constructor ()
      ensures Image() == EMPTY_DISK
    {
      inodes, dirents := map[], map[];
    }

    function Image(): Disk
      reads this
    {
      Disk(inodes, dirents)
    }
  }

  class Service {
    const db: Database
    var inodes: InodeTable
    var dirents: Dirents
    var ostIds: seq<string>
    var stripeSize: nat
    var rr: Uint64

    /** NewService never leaves the target list empty. */
    predicate Valid()
      reads this
    {
      ostIds != []
    }

    function Memory(): Mem
      reads this
    {
      Mem(inodes, dirents, rr)
    }

    function Settings(): Config
      reads this
    {
      Config(ostIds, stripeSize, DEFAULT_MODE)
    }

    constructor (db: Database, ostIds: seq<string>, stripeSize: nat)
      ensures this.db == db && this.ostIds == ostIds && this.stripeSize == stripeSize
      ensures Memory() == Mem(map[], map[], 0)
    {
      this.db, this.ostIds, this.stripeSize := db, ostIds, stripeSize;
      inodes, dirents, rr := map[], map[], 0;
    }

    /** Opens the database and rebuilds memory from it, or returns null when the start-up
        transaction does not commit. */
    static method NewService(c: Config, db: Database, unix: int, commits: bool) returns (s: Service?)
      modifies db
      ensures s != null <==> commits
      ensures s == null ==> db.Image() == old(db.Image())
      ensures s != null ==>
                && fresh(s) && s.db == db && s.Valid()
                && s.ostIds == (if c.ostIds == [] then ["ost-0", "ost-1", "ost-2"] else c.ostIds)
                && s.stripeSize == (if c.stripeSize == 0 then 1048576 else c.stripeSize)
                && s.Settings() == WithDefaults(c).(mode := DEFAULT_MODE)
                && (s.Memory(), db.Image()) == Boot(WithDefaults(c), old(db.Image()), unix)
      ensures s != null && ROOT !in old(db.inodes) ==>
                && ROOT in s.inodes && s.inodes[ROOT].mode == (if c.mode == 0 then 420 else c.mode)
                && s.inodes[ROOT].layout == StripeLayout(s.stripeSize, s.ostIds)
      ensures s != null && ROOT in old(db.inodes) ==> s.inodes == old(db.inodes)
    {
      var ids, size, mode := c.ostIds, c.stripeSize, c.mode;
      if |ids| == 0 {
        ids := ["ost-0", "ost-1", "ost-2"];
      }
      if size == 0 {
        size := 1024 * 1024;
      }
      if mode == 0 {
        mode := DEFAULT_MODE;
      }
      s := new Service(db, ids, size);
      var ok := s.LoadOrInitRoot(mode, unix, commits);
      if !ok {
        s := null;
      }
    }

    method LoadOrInitRoot(mode: nat, unix: int, commits: bool) returns (ok: bool)
      requires Memory() == Mem(map[], map[], 0)
      modifies this`inodes, this`dirents, db
      ensures ok == commits
      ensures !ok ==> db.Image() == old(db.Image())
      ensures ok ==> (Memory(), db.Image()) == Boot(Config(ostIds, stripeSize, mode), old(db.Image()), unix)
    {
      LoadInodes();
      LoadDirectories();
      if ROOT in inodes {
        if ROOT !in dirents {
          dirents := dirents[ROOT := map[]];
        }
      } else {
        var root := Inode(ROOT, "", "/", true, 0, mode, unix, unix, StripeLayout(stripeSize, ostIds));
        if commits {
          db.inodes := db.inodes[ROOT := root];
        }
        inodes := inodes[ROOT := root];
        dirents := dirents[ROOT := map[]];
      }
      ok := commits;
    }

    method LoadInodes()
      requires inodes == map[]
      modifies this`inodes
      ensures inodes == db.inodes
    {
      var todo := db.inodes.Keys;
      while todo != {}
        invariant todo <= db.inodes.Keys && inodes == db.inodes - todo
        decreases |todo|
      {
        var k :| k in todo;
        inodes := inodes[k := db.inodes[k]];
        todo := todo - {k};
      }
      assert db.inodes - {} == db.inodes;
    }

    method LoadDirectories()
      requires dirents == map[]
      modifies this`dirents
      ensures dirents == LoadDirents(db.dirents)
    {
      var todo := db.dirents.Keys;
      assert db.dirents - todo == map[];
      while todo != {}
        invariant todo <= db.dirents.Keys && dirents == LoadDirents(db.dirents - todo)
        decreases |todo|
      {
        var k :| k in todo;
        ghost var before := db.dirents - todo;
        assert db.dirents - (todo - {k}) == before[k := db.dirents[k]];
        LoadAdd(before, k, db.dirents[k]);
        var parts := SplitAtNul(k);
        if |parts| == 2 {
          var parent, name := parts[0], parts[1];
          if parent !in dirents {
            dirents := dirents[parent := map[]];
          }
          dirents := dirents[parent := dirents[parent][name := db.dirents[k]]];
        }
        todo := todo - {k};
      }
      assert db.dirents - todo == db.dirents;
    }

    /** The next rotated target list; None when indexing panics. */
    method NextStripeLayout() returns (r: Option<seq<string>>)
      modifies this`rr
      ensures r == Rotation(ostIds, old(rr))
      ensures rr == if ostIds == [] then old(rr) else Bump(old(rr))
    {
      if |ostIds| == 0 {
        return Some([]);
      }
      var n := |ostIds|;
      rr := Bump(rr);
      var start := GoMod(ToInt((rr + TWO64 - 1) % TWO64), n);
      StartRange(old(rr), n);
      var ordered := [];
      var i := 0;
      while i < n
        invariant 0 <= i <= n && (0 < i ==> 0 <= start)
        invariant |ordered| == i
        invariant forall k :: 0 <= k < i ==> ordered[k] == ostIds[(start + k) % n]
      {
        var slot := GoMod(start + i, n);
        if slot < 0 {
          return None;
        }
        ordered := ordered + [ostIds[slot]];
        i := i + 1;
      }
      assert ordered == Rotation(ostIds, old(rr)).value;
      r := Some(ordered);
    }

    /** Both puts work on the transaction's own copy of the buckets, which is kept only when
        every step succeeds; a failure after the first put drops that put too. */
    method PersistCreate(i: Inode, fate: Fate) returns (ok: bool)
      modifies db
      ensures ok <==> fate.Commits?
      ensures db.Image() == if ok then CommitCreate(old(db.Image()), i) else old(db.Image())
    {
      var inodesB, direntsB := db.inodes, db.dirents;
      if fate.FirstFails? {
        return false;
      }
      inodesB := inodesB[i.id := i];
      if fate.SecondFails? {
        return false;
      }
      direntsB := direntsB[Key(i.parent, i.name) := i.id];
      if fate.CommitFails? {
        return false;
      }
      db.inodes, db.dirents := inodesB, direntsB;
      return true;
    }

    method PersistUnlink(parent: string, name: string, id: string, fate: Fate) returns (ok: bool)
      modifies db
      ensures ok <==> fate.Commits?
      ensures db.Image() == if ok then CommitUnlink(old(db.Image()), parent, name, id) else old(db.Image())
    {
      var inodesB, direntsB := db.inodes, db.dirents;
      if fate.FirstFails? {
        return false;
      }
      inodesB := inodesB - {id};
      if fate.SecondFails? {
        return false;
      }
      direntsB := direntsB - {Key(parent, name)};
      if fate.CommitFails? {
        return false;
      }
      db.inodes, db.dirents := inodesB, direntsB;
      return true;
    }

    method Create(req: CreateRequest, nanos: nat, unix: int, fate: Fate) returns (r: CreateReply)
      requires Valid()
      modifies this`inodes, this`dirents, this`rr, db
      ensures Valid()
      ensures (Memory(), db.Image(), r)
              == CreateCall(old(Settings()), old(Memory()), old(db.Image()), req, nanos, unix, fate.Commits?)
    {
      if req.parent == "" || req.name == "" {
        return CreateFailed(InvalidArgument);
      }
      if req.parent !in inodes {
        return CreateFailed(NotFound);
      }
      var parent := inodes[req.parent];
      if !parent.isDir {
        return CreateFailed(FailedPrecondition);
      }
      if '/' in req.name {
        return CreateFailed(InvalidArgument);
      }
      if parent.id in dirents && req.name in dirents[parent.id] {
        return CreateFailed(AlreadyExists);
      }
      var ordered := NextStripeLayout();
      if ordered.None? {
        return Panicked;
      }
      var inode := Inode(IdOf(nanos), parent.id, req.name, req.isDir, 0, req.mode, unix, unix,
                         StripeLayout(stripeSize, ordered.value));
      if inode.mode == 0 {
        inode := inode.(mode := DEFAULT_MODE);
      }
      if inode.isDir {
        inode := inode.(layout := StripeLayout(stripeSize, ostIds));
      }
      if parent.id !in dirents {
        dirents := dirents[parent.id := map[]];
      }
      dirents := dirents[parent.id := dirents[parent.id][inode.name := inode.id]];
      inodes := inodes[inode.id := inode];
      if inode.isDir {
        dirents := dirents[inode.id := map[]];
      }
      var ok := PersistCreate(inode, fate);
      if !ok {
        return CreateFailed(Internal);
      }
      return Made(inode);
    }

    method Unlink(parent: string, name: string, fate: Fate) returns (r: UnlinkReply)
      modifies this`inodes, this`dirents, db
      ensures (Memory(), db.Image(), r) == UnlinkCall(old(Memory()), old(db.Image()), parent, name, fate.Commits?)
    {
      if parent !in dirents {
        return UnlinkFailed(NotFound);
      }
      if name !in dirents[parent] {
        return Unlinked(false);
      }
      var id := dirents[parent][name];
      if id !in inodes {
        return Unlinked(false);
      }
      var inode := inodes[id];
      if inode.isDir && inode.id in dirents && 0 < |dirents[inode.id]| {
        return UnlinkFailed(FailedPrecondition);
      }
      dirents := dirents[parent := dirents[parent] - {name}];
      inodes := inodes - {inode.id};
      dirents := dirents - {inode.id};
      var ok := PersistUnlink(parent, name, inode.id, fate);
      if !ok {
        return UnlinkFailed(Internal);
      }
      return Unlinked(true);
    }

    /** None stands for a nil inode. */
    method Lookup(parent: string, name: string) returns (r: Result<Option<Inode>>)
      ensures r == LookupOf(Memory(), parent, name)
    {
      if parent !in dirents {
        return Err(NotFound);
      }
      var entries := dirents[parent];
      if name !in entries {
        return Err(NotFound);
      }
      var id := entries[name];
      return Ok(if id in inodes then Some(inodes[id]) else None);
    }

    method Stat(id: string) returns (r: Result<Inode>)
      ensures r == StatOf(Memory(), id)
    {
      if id !in inodes {
        return Err(NotFound);
      }
      return Ok(inodes[id]);
    }

    method ListDir(id: string) returns (r: Result<seq<Inode>>)
      ensures r == ListDirOf(Memory(), id)
    {
      if id !in dirents {
        return Err(NotFound);
      }
      var children := dirents[id];
      var names := Collect(children);
      names := SortNames(names);
      AscendingUnique(names, Sorted(children.Keys));
      var entries := Gather(inodes, children, names);
      return Ok(entries);
    }
  }

  /** The inodes the entries lead to, in the order of the names, without the missing ones. */
  method Gather(inodes: InodeTable, children: map<string, string>, names: seq<string>) returns (entries: seq<Inode>)
    requires forall n :: n in names ==> n in children
    ensures entries == Select(inodes, children, names)
  {
    entries := [];
    for k := 0 to |names|
      invariant entries == Select(inodes, children, names[..k])
    {
      assert names[..k + 1][..k] == names[..k];
      var inodeId := children[names[k]];
      if inodeId in inodes {
        entries := entries + [inodes[inodeId]];
      }
    }
    assert names[..|names|] == names;
  }

  /** The keys of a map, in no particular order. */
  method Collect(children: map<string, string>) returns (names: seq<string>)
    ensures Elements(names) == children.Keys
    ensures forall i, j :: 0 <= i < j < |names| ==> names[i] != names[j]
    ensures forall n :: n in names ==> n in children
  {
    names := [];
    var todo := children.Keys;
    while todo != {}
      invariant todo <= children.Keys && Elements(names) == children.Keys - todo
      invariant forall n :: n in names ==> n in children && n !in todo
      invariant forall i, j :: 0 <= i < j < |names| ==> names[i] != names[j]
      decreases |todo|
    {
      var n :| n in todo;
      assert Elements(names + [n]) == Elements(names) + {n};
      names := names + [n];
      todo := todo - {n};
    }
  }

  /** `sort.Strings` on distinct names. */
  method SortNames(names: seq<string>) returns (sorted: seq<string>)
    requires forall i, j :: 0 <= i < j < |names| ==> names[i] != names[j]
    ensures Ascending(sorted) && Elements(sorted) == Elements(names)
    ensures forall n :: n in sorted ==> n in names
  {
    sorted := [];
    for k := 0 to |names|
      invariant Ascending(sorted) && Elements(sorted) == Elements(names[..k])
    {
      assert names[..k + 1] == names[..k] + [names[k]];
      assert forall j :: 0 <= j < k ==> names[..k][j] != names[k];
      assert names[k] !in Elements(names[..k]);
      assert forall x :: x in sorted <==> x in Elements(sorted);
      assert Elements(names[..k + 1]) == Elements(names[..k]) + {names[k]};
      sorted := Insert(names[k], sorted);
    }
    assert names[..|names|] == names;
    assert forall n :: n in sorted ==> n in Elements(sorted);
  }
}
