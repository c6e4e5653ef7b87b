/** The write path as small steps. A request takes the write lock, passes its checks, changes
    memory, commits or fails its transaction, and replies; the process can crash between any
    two steps and be started again. Readers run only while the write lock is free. */
module Protocol {
  import opened Stripes
  import opened Metadata
  import opened Namespace
  import opened Recovery

  datatype Op = CreateOp(req: CreateRequest) | UnlinkOp(parent: string, name: string)

  datatype Change = Created(inode: Inode) | Removed(parent: string, name: string, inode: Inode)

  /** Mutated remembers the memory before the change; the code does not need it. */
  datatype Phase =
    | Down
    | Free
    | Locked(op: Op)
    | Mutated(change: Change, before: Mem)
    | Settled(change: Change, ok: bool)

  /** `clock` is a bound above every clock reading so far. The last three fields are history:
      the committed operations, how many there were when the lock was last taken, and which
      of them were acknowledged. */
  datatype Sys = Sys(
    config: Config, disk: Disk, mem: Mem, phase: Phase, clock: nat,
    log: seq<TreeOp>, base: nat, acked: set<nat>)

  datatype Event =
    | Lock(op: Op)
    | Reject
    | Mutate(nanos: nat, unix: int)
    | Commit
    | Fail
    | Reply
    | Crash
    | Restart(config: Config, unix: int)

  const NO_MEM := Mem(map[], map[], 0)

  predicate Accepts(m: Mem, op: Op) {
    match op
    case CreateOp(req) => CreateCheck(m, req).None?
    case UnlinkOp(p, n) => UnlinkCheck(m, p, n).Remove?
  }

  /** The clock readings Create takes its ids from increase strictly, across restarts too, and
      stay in int64; Unlink reads no clock. */
  predicate Enabled(s: Sys, e: Event) {
    match e
    case Lock(op) => s.phase.Free?
    case Reject => s.phase.Locked? && !Accepts(s.mem, s.phase.op)
    case Mutate(nanos, unix) =>
      s.phase.Locked? && Accepts(s.mem, s.phase.op) && (s.phase.op.CreateOp? ==> s.clock <= nanos < TWO63)
    case Commit => s.phase.Mutated?
    case Fail => s.phase.Mutated?
    case Reply => s.phase.Settled?
    case Crash => true
    case Restart(c, unix) => s.phase.Down?
  }

  function CommitChange(d: Disk, ch: Change): Disk {
    match ch
    case Created(i) => CommitCreate(d, i)
    case Removed(p, n, i) => CommitUnlink(d, p, n, i.id)
  }

  /** The tree operation a change stands for, read off the inode table on disk. */
  ghost function OpOf(t: InodeTable, ch: Change): TreeOp {
    match ch
    case Created(i) => Add((if WellFormed(t) && i.parent in t then PathOf(t, i.parent) else []) + [i.name], i)
    case Removed(p, n, i) => Del((if WellFormed(t) && p in t then PathOf(t, p) else []) + [n])
  }

  function CrashOf(s: Sys): Sys {
    s.(mem := NO_MEM, phase := Down)
  }

  ghost function Next(s: Sys, e: Event): Sys
    requires Enabled(s, e)
  {
    match e
    case Lock(op) => s.(phase := Locked(op), base := |s.log|)
    case Reject => s.(phase := Free)
    case Mutate(nanos, unix) =>
      (match s.phase.op
       case CreateOp(req) =>
         (match NewInode(s.config, s.mem, req, nanos, unix)
          case None => CrashOf(s)
          case Some(i) => s.(mem := MutateCreate(s.mem, i), phase := Mutated(Created(i), s.mem), clock := nanos + 1))
       case UnlinkOp(p, n) =>
         var i := UnlinkCheck(s.mem, p, n).inode;
         s.(mem := MutateUnlink(s.mem, p, n, i.id), phase := Mutated(Removed(p, n, i), s.mem)))
    case Commit =>
      s.(disk := CommitChange(s.disk, s.phase.change), phase := Settled(s.phase.change, true),
         log := s.log + [OpOf(s.disk.inodes, s.phase.change)])
    case Fail => s.(phase := Settled(s.phase.change, false))
    case Reply => s.(phase := Free, acked := if s.phase.ok && s.log != [] then s.acked + {|s.log| - 1} else s.acked)
    case Crash => CrashOf(s)
    case Restart(config, unix) =>
      var c := WithDefaults(config);
      var (m, d) := Boot(c, s.disk, unix);
      s.(config := c, mem := m, disk := d, phase := Free)
  }

  /** The events can happen one after the other from here. */
  ghost predicate CanRun(s: Sys, es: seq<Event>)
    decreases |es|
  {
    es == [] || (Enabled(s, es[0]) && CanRun(Next(s, es[0]), es[1..]))
  }

  ghost function After(s: Sys, es: seq<Event>): Sys
    requires CanRun(s, es)
    decreases |es|
  {
    if es == [] then s else After(Next(s, es[0]), es[1..])
  }

  /** Before the first start: nothing on disk, nothing running. */
  function Blank(clock: nat): Sys {
    Sys(Config([], 0, 0), EMPTY_DISK, NO_MEM, Down, clock, [], 0, {})
  }
}
