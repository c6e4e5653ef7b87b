/** The data of the metadata service and what each request does to it: the checks a request
    passes through, the change to memory, and the transaction that persists the change. */
module Metadata {
  import opened Text
  import opened Wrappers
  import opened Stripes

  const ROOT := "root"

  /** 0644. */
  const DEFAULT_MODE: nat := 420

  datatype StripeLayout = StripeLayout(stripeSize: nat, ostIds: seq<string>)

  datatype Inode = Inode(
    id: string, parent: string, name: string, isDir: bool, size: nat, mode: nat,
    created: int, modified: int, layout: StripeLayout)

  type InodeTable = map<string, Inode>
  type Dirents = map<string, map<string, string>>

  /** What the service holds in memory. */
  datatype Mem = Mem(inodes: InodeTable, dirents: Dirents, rr: Uint64)

  /** The two persistent buckets; directory entries sit under flat `parent NUL name` keys. */
  datatype Disk = Disk(inodes: InodeTable, dirents: map<string, string>)

  datatype Config = Config(ostIds: seq<string>, stripeSize: nat, mode: nat)

  /** The defaults NewService fills in. */
  function WithDefaults(c: Config): Config {
    Config(if c.ostIds == [] then ["ost-0", "ost-1", "ost-2"] else c.ostIds,
           if c.stripeSize == 0 then 1024 * 1024 else c.stripeSize,
           if c.mode == 0 then DEFAULT_MODE else c.mode)
  }

  datatype Code = InvalidArgument | NotFound | FailedPrecondition | AlreadyExists | Internal

  datatype Result<+T> = Ok(value: T) | Err(code: Code)

  datatype CreateRequest = CreateRequest(parent: string, name: string, isDir: bool, mode: nat)

  predicate HasEntry(d: Dirents, p: string, n: string) {
    p in d && n in d[p]
  }

  function Entry(d: Dirents, p: string, n: string): string
    requires HasEntry(d, p, n)
  {
    d[p][n]
  }

  // ---------- Inode ids ----------

  const ID_PREFIX := "inode-"

  /** The id minted from a clock reading. */
  function IdOf(nanos: nat): string {
    ID_PREFIX + Decimal(nanos)
  }

  function Stamp(id: string): nat {
    if |id| < |ID_PREFIX| then 0 else Undecimal(id[|ID_PREFIX|..])
  }

  /** The id was minted from a clock reading before `clock`. */
  predicate Minted(id: string, clock: nat) {
    id == IdOf(Stamp(id)) && Stamp(id) < clock
  }

  /** Creation order: the root first, then by clock reading. */
  function Rank(id: string): nat {
    if id == ROOT then 0 else Stamp(id) + 1
  }

  lemma IdFacts(nanos: nat)
    ensures Stamp(IdOf(nanos)) == nanos && IdOf(nanos) != ROOT && IdOf(nanos) != ""
    ensures NUL !in IdOf(nanos)
    ensures Rank(IdOf(nanos)) == nanos + 1
  {
    var id := IdOf(nanos);
    assert id[|ID_PREFIX|..] == Decimal(nanos);
    DecimalRoundTrip(nanos);
    DecimalDigits(nanos);
    assert id[0] == 'i' && ROOT[0] == 'r';
  }

  /** An id is "inode-" followed by the clock reading in base ten. */
  lemma IdMeaning(id: string, nanos: nat)
    ensures id == IdOf(nanos) <==> 6 < |id| && id[..6] == "inode-" && Prints(id[6..], nanos)
  {
    DecimalMeaning(Decimal(nanos), nanos);
    if 6 < |id| && id[..6] == "inode-" && Prints(id[6..], nanos) {
      DecimalMeaning(id[6..], nanos);
      assert id == id[..6] + id[6..];
    }
    assert IdOf(nanos)[..6] == "inode-" && IdOf(nanos)[6..] == Decimal(nanos);
  }

  /** An id is minted before a reading exactly when an earlier reading gives it. */
  lemma MintedMeaning(id: string, clock: nat)
    ensures Minted(id, clock) <==> exists n: nat :: n < clock && id == IdOf(n)
  {
    if n: nat :| n < clock && id == IdOf(n) {
      IdFacts(n);
    }
  }

  lemma MintedHasNoNul(id: string, clock: nat)
    requires id == ROOT || Minted(id, clock)
    ensures NUL !in id && id != ""
  {
    if id != ROOT {
      IdFacts(Stamp(id));
    }
  }

  // ---------- Create ----------

  /** The checks of Create in order; None when the request is accepted. */
  function CreateCheck(m: Mem, req: CreateRequest): Option<Code> {
    if req.parent == "" || req.name == "" then Some(InvalidArgument)
    else if req.parent !in m.inodes then Some(NotFound)
    else if !m.inodes[req.parent].isDir then Some(FailedPrecondition)
    else if '/' in req.name then Some(InvalidArgument)
    else if HasEntry(m.dirents, m.inodes[req.parent].id, req.name) then Some(AlreadyExists)
    else None
  }

  /** The inode an accepted Create builds; None when building its stripe layout panics.
      Directories use up a rotation too, and then list every target in configured order. */
  function NewInode(c: Config, m: Mem, req: CreateRequest, nanos: nat, unix: int): Option<Inode>
    requires CreateCheck(m, req).None?
  {
    match Rotation(c.ostIds, m.rr)
    case None => None
    case Some(ids) =>
      Some(Inode(IdOf(nanos), m.inodes[req.parent].id, req.name, req.isDir, 0,
                 if req.mode == 0 then DEFAULT_MODE else req.mode, unix, unix,
                 StripeLayout(c.stripeSize, if req.isDir then c.ostIds else ids)))
  }

  function MutateCreate(m: Mem, i: Inode): Mem {
    var d := if i.parent in m.dirents then m.dirents else m.dirents[i.parent := map[]];
    var e := d[i.parent := d[i.parent][i.name := i.id]];
    Mem(m.inodes[i.id := i], if i.isDir then e[i.id := map[]] else e, Bump(m.rr))
  }

  function CommitCreate(d: Disk, i: Inode): Disk {
    Disk(d.inodes[i.id := i], d.dirents[Key(i.parent, i.name) := i.id])
  }

  // ---------- Unlink ----------

  datatype UnlinkVerdict = Refuse(code: Code) | Absent | Remove(inode: Inode)

  function UnlinkCheck(m: Mem, parent: string, name: string): UnlinkVerdict {
    if parent !in m.dirents then Refuse(NotFound)
    else if name !in m.dirents[parent] then Absent
    else if m.dirents[parent][name] !in m.inodes then Absent
    else
      var i := m.inodes[m.dirents[parent][name]];
      if i.isDir && i.id in m.dirents && m.dirents[i.id] != map[] then Refuse(FailedPrecondition)
      else Remove(i)
  }

  function MutateUnlink(m: Mem, parent: string, name: string, id: string): Mem
    requires parent in m.dirents
  {
    Mem(m.inodes - {id}, m.dirents[parent := m.dirents[parent] - {name}] - {id}, m.rr)
  }

  function CommitUnlink(d: Disk, parent: string, name: string, id: string): Disk {
    Disk(d.inodes - {id}, d.dirents - {Key(parent, name)})
  }

  // ---------- Reads ----------

  /** Lookup's success value is None where the code would hand out a nil inode. */
  function LookupOf(m: Mem, parent: string, name: string): Result<Option<Inode>> {
    if parent !in m.dirents then Err(NotFound)
    else if name !in m.dirents[parent] then Err(NotFound)
    else if m.dirents[parent][name] in m.inodes then Ok(Some(m.inodes[m.dirents[parent][name]]))
    else Ok(None)
  }

  function StatOf(m: Mem, id: string): Result<Inode> {
    if id in m.inodes then Ok(m.inodes[id]) else Err(NotFound)
  }
}
