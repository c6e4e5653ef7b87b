# kube-pfs: metadata tree, write-through persistence and block store

This project models the two servers of kube-pfs and proves what they keep.

The **metadata service** holds a namespace in two in-memory maps: an inode table, whose inodes
point back to their parents, and a directory index. Both are mirrored in two database buckets,
where entries sit under flat `parent NUL name` keys, and memory is rebuilt from them at start-up.
Proved here: the two maps always represent a tree, to which Create adds one path and from which
Unlink removes one leaf; a crash between any two steps of a request is atomic, acknowledged
operations survive, and memory meets disk whenever the write lock is free; with failing
transactions, which memory does not roll back, no directory entry dangles, inodes on disk stay
until their own Unlink commits, and the exact condition under which disk and memory stay trees;
what exactly a restart changes; and how the round-robin stripe counter rotates, panics and is
fair.

The **block store** keeps one file per (file id, chunk) under a path built from a sanitised id.
Proved here: what sanitising does to every id, that paths stay below the data directory, that the
store refines a plain map for exactly the usable ids, and that windowed reads reassemble. Joined
with the metadata service: new files never show old blocks, although Unlink deletes none.

## Layout

- `Wrappers`, `Text`, `Stripes`: missing values; decimal printing, the NUL-separated keys, string order; the stripe counter.
- `Metadata`: inodes, memory, disk, and what each request checks and changes.
- `Namespace`: the tree the two maps represent.
- `Recovery`: flat keys, start-up, what a restart keeps and changes.
- `Protocol`: requests as small steps (lock, change memory, commit or fail, reply) with crashes
  and restarts. `Atomicity`: runs without transaction errors. `Dangling`: what every run keeps.
  `Failures`: exactly which runs with failing transactions keep the tree.
- `Calls`: whole calls, their effect on the tree, and their place among the small steps.
- `Listing`, `Conservation`: ListDir; counting entries.
- `MetadataService`, `BlockService`: the two servers as classes, each method proved equal to the
  specification above.
- `Sanitize`, `Blocks`: file ids, paths and block requests. `Cluster`: both servers together.
- `EndToEnd`: the flow of the smoke test, for all inputs.

## Modelling decisions

- A string is the sequence of its Unicode code points: all strings arrive through protobuf and are
  valid UTF-8, for which byte order and code point order agree. `unicode.IsSpace` is modelled in
  full.
- Ids are minted from the clock. `Protocol.Enabled` asks for a reading later than every earlier
  one, across restarts too, and below 2^63. `Namespace.CreateCoherentIffFresh` shows what
  happens otherwise: an id minted twice destroys the tree.
- A database transaction is atomic and may fail, in either bucket operation or in its commit; a
  parameter or an event says so. Memory is not rolled back, so the tree is lost when a later commit
  builds on what a failure left out (`Failures.OrphanRun`, `Failures.TwinRun`). It is kept exactly
  while every commit is harmless: the parent of a new inode is on disk and its key free there, and
  an unlinked inode is childless on disk and its key its own (`Failures.TreeIffHarmless`).
  Marshalling an inode and reading it back returns it.
- The write lock is held from the checks to the reply, so requests are serial and readers see
  memory only while the lock is free. Readers take no step of their own.
- `uint64` wrap-around, the conversion to `int` and Go's truncating remainder are written out. A
  panic while building a layout is a crash; `Dangling.RotationNeverPanics` shows it cannot occur.
- A directory created empty has an entry map and loses it at a restart. The code then answers
  NotFound to ListDir and Unlink for it; the model keeps this and `Recovery.RestartAgrees` and
  `Listing.RestartListing` say exactly when.
- `docs/api-contracts.md` describes a block as keyed by file, chunk and OST. The code ignores the
  OST id and keys by file and chunk within each server's own directory; the model follows the code.
- A file id is usable when it does not sanitise to "." and holds no NUL. These are exactly the ids
  for which the block store behaves as a plain map (`Blocks.UsableIff`).

## Model

| member | source | states |
|---|---|---|
| MetadataService.Service.NewService | pkg/mds/service.go:46-76 | a configured target list, stripe size or mode is kept and a missing one becomes ost-0 to ost-2, 1048576 or 420, also in a root made now; memory and disk are rebuilt exactly as `Recovery.Boot` says, or the start fails and leaves the disk alone |
| MetadataService.Service.LoadOrInitRoot | pkg/mds/service.go:82-145 | the two bucket loops and the root branch, in any iteration order, equal the start-up function; a failed transaction leaves the disk alone |
| MetadataService.Service.LoadDirectories | pkg/mds/service.go:104-117 | the loop over flat keys builds the nested index, skipping keys without a NUL |
| MetadataService.Service.NextStripeLayout | pkg/mds/service.go:295-305 | the loop builds the rotation for the old counter, or panics exactly where the rotation is undefined; the counter moves only for a non-empty list |
| MetadataService.Service.Create | pkg/mds/service.go:147-203 | the step-by-step body has exactly the outcome of one whole call on memory, disk and reply, whether or not the transaction commits |
| MetadataService.Service.Unlink | pkg/mds/service.go:262-293 | the same for Unlink |
| MetadataService.Service.PersistCreate | pkg/mds/service.go:307-323 | the two puts work on the transaction's copy, which is kept only when both and the commit succeed; a failed second put or commit drops the first put too |
| MetadataService.Service.PersistUnlink | pkg/mds/service.go:325-340 | the same for the two deletes |
| MetadataService.Service.Lookup | pkg/mds/service.go:205-221 | reads the index and then the inode table; None marks a nil inode |
| MetadataService.Service.Stat | pkg/mds/service.go:223-233 | answers exactly what `Namespace.StatMeetsTree` and `Dangling.StatReturnsItsId` prove about Stat |
| MetadataService.Service.ListDir | pkg/mds/service.go:235-260 | collecting in any order, sorting and selecting gives the one listing `Listing.ListDirOf` defines |
| MetadataService.SortNames | pkg/mds/service.go:249 | sorting distinct names yields a strictly ascending sequence of the same names |
| Calls.CreateRefinesTree | pkg/mds/service.go:147-203 | Create succeeds exactly when the tree accepts the child, then adds exactly that path with the requested kind and mode, keeping disk and memory in step; a rejected Create changes nothing and answers with the tree's verdict |
| Calls.CreateReplies | pkg/mds/service.go:153-202 | which request draws InvalidArgument, NotFound, FailedPrecondition, AlreadyExists or success, each an if and only if on the tree |
| Calls.CreateShows | pkg/mds/service.go:171-202 | an accepted Create answers an id that is "inode-" and the clock reading in base ten, writes the inode and one NUL-separated key, and Stat then returns the inode and is otherwise unchanged |
| Calls.CreateTakesATurn | pkg/mds/service.go:180-187 | every accepted Create uses one turn of the counter; files list the targets rotated by it, directories in configured order |
| Calls.LayoutsAreConfigured | pkg/mds/service.go:46-60 | from any start until the next, a file's layout is a rotation of the caller's own targets with the caller's stripe size, or of the defaults where none were given |
| Calls.UnlinkRefinesTree | pkg/mds/service.go:262-293 | Unlink succeeds exactly when the path is a leaf that may go, then removes exactly that path; otherwise nothing changes and the reply is FailedPrecondition exactly for an inner directory, not-deleted exactly for a missing path, and NotFound where the parent has no entry map |
| Calls.UnlinkShows | pkg/mds/service.go:274-292 | a committed Unlink deletes the inode Lookup returned and its NUL-separated key; Stat and Lookup then answer NotFound, and Stat is unchanged for every other id |
| Calls.CreateCallIsRun | pkg/mds/service.go:147-203 | a whole Create is a run of the small steps, acknowledged and recorded when it succeeds; of a rejected or failed one nothing is recorded, and a failed transaction answers Internal |
| Calls.UnlinkCallIsRun | pkg/mds/service.go:262-293 | the same for Unlink, Internal included |
| Namespace.CreateAddsPath | pkg/mds/service.go:166-196 | the memory change of Create keeps the invariant and adds one path that was free |
| Namespace.UnlinkRemovesLeaf | pkg/mds/service.go:268-286 | the memory change of Unlink keeps the invariant and removes one leaf |
| Namespace.TreeIsTree | pkg/mds/service.go:119-196 | the inode table is a rooted, prefix-closed tree whose inner nodes are directories |
| Namespace.PathInjective | pkg/mds/service.go:156-196 | no two inodes share a path; the parent chain reaches the root because parents are older |
| Namespace.WalkMeetsPath | pkg/mds/service.go:211-220 | resolving a path entry by entry through the index and climbing parent ids agree, both ways |
| Namespace.AcceptedIsReady | pkg/mds/service.go:153-184 | a Create that passes its checks with a new clock reading meets what the tree needs |
| Namespace.CreateCoherentIffFresh | pkg/mds/service.go:171 | memory stays coherent exactly when the minted id is unused, the id of the parent itself included among the used ones |
| Namespace.AddWellFormedIff | pkg/mds/service.go:189-196 | a fresh, younger inode keeps the table well formed exactly when its parent is there and its place free |
| Namespace.RemoveWellFormedIff | pkg/mds/service.go:284-286 | removing an id keeps the table well formed exactly when nothing has it for parent |
| Namespace.CreateCheckOnTree | pkg/mds/service.go:153-168 | Create's status is the one the tree gives for the parent's path |
| Namespace.UnlinkCheckOnTree | pkg/mds/service.go:268-282 | Unlink's status is the one the tree gives, once the parent has an entry map |
| Namespace.EmptyIffChildless | pkg/mds/service.go:280-282 | the emptiness test holds exactly when no inode names the directory as parent |
| Namespace.LeafIffChildless | pkg/mds/service.go:280-282 | a path is a leaf exactly when no inode names its inode as parent |
| Namespace.LookupMeetsScan | pkg/mds/service.go:211-220 | Lookup returns an inode exactly when a scan finds it with that parent and name |
| Namespace.LookupMisses | pkg/mds/service.go:211-218 | Lookup answers NotFound for every parent and name that no inode has |
| Namespace.StatMeetsTree | pkg/mds/service.go:228-232 | Stat returns an inode exactly when it has the id asked for and the tree carries it at some path, and NotFound exactly when no path carries the id |
| Text.DecimalRoundTrip | pkg/mds/service.go:171 | decimal printing can be read back, so it is injective |
| Text.DecimalMeaning | pkg/mds/service.go:171 | printing is canonical: a string is the printed number if and only if it is all digits, has no leading zero and reads back as the number |
| Text.SplitUndoesKey | pkg/mds/service.go:105-109 | splitting at the first NUL undoes the join for every parent without a NUL and every name |
| Text.KeyUndoesSplit | pkg/mds/service.go:105-109 | joining undoes splitting for every key that splits |
| Text.LessMeaning | pkg/mds/service.go:249 | the order compares at the first difference, a proper prefix coming first |
| Text.LessTotal | pkg/mds/service.go:249 | the order of the sort is total |
| Metadata.IdFacts | pkg/mds/service.go:171 | a minted id gives back its clock reading, holds no NUL and is not the root |
| Metadata.IdMeaning | pkg/mds/service.go:171 | a string is the minted id if and only if it is "inode-" followed by the reading in base ten without leading zeros |
| Recovery.LoadInvertsFlatten | pkg/mds/service.go:104-122 | loading the flat image of an index gives it back up to empty non-root maps |
| Recovery.FlattenInjective | pkg/mds/service.go:317-335 | two indices have the same flat image exactly when they differ in empty non-root maps only |
| Recovery.LoadExact | pkg/mds/service.go:104-117 | the loaded index holds exactly the entries of the flat keys with a NUL |
| Recovery.LoadAdd | pkg/mds/service.go:104-117 | loading one more key adds its entry, and its parent's map when missing |
| Recovery.RecoveryRoundTrip | pkg/mds/service.go:82-145 | start-up from the image of a coherent memory gives the same inodes, the normalised index and an untouched disk |
| Recovery.FirstBoot | pkg/mds/service.go:126-143 | start-up from an empty disk gives the root alone, with the configured mode, targets and stripe size, on disk and in memory |
| Recovery.BootExact | pkg/mds/service.go:82-145 | start-up from any disk with a root serves exactly its inodes and the entries of its keys with a NUL, and leaves it alone |
| Recovery.BootTwice | pkg/mds/service.go:82-145 | loading twice equals loading once exactly when the disk has a root or no entries of it |
| Recovery.CreateStaysSynced | pkg/mds/service.go:189-200 | the committed Create keeps disk the image of memory |
| Recovery.UnlinkStaysSynced | pkg/mds/service.go:284-290 | the committed Unlink keeps disk the image of memory |
| Recovery.UnlinkUndoesCreate | pkg/mds/service.go:189-288 | Create then Unlink restores inodes and both buckets exactly, and the index up to an empty map of the parent |
| Recovery.RestartAgrees | pkg/mds/service.go:205-293 | after a restart Stat, Lookup and Create's verdict agree; Unlink's verdict differs exactly for an empty non-root parent directory |
| Recovery.AlikeCreate | pkg/mds/service.go:189-196 | memories that differ by a restart stay alike through Create |
| Recovery.AlikeUnlink | pkg/mds/service.go:268-286 | memories that differ by a restart give the same accepted Unlinks and stay alike |
| Atomicity.GoodStep | pkg/mds/service.go:147-340 | every small step other than a failed transaction keeps the protocol invariant |
| Atomicity.CrashAnywhere | pkg/mds/service.go:63-76 | the process can crash in any state, and the start after it sees the disk as the crash left it and nothing of the old memory |
| Atomicity.RunStaysGood | pkg/mds/service.go:82-340 | every run without transaction errors, from before the first start and with crashes anywhere, keeps disk equal to the replay of legal committed operations |
| Atomicity.CommittedRunsBuildTrees | pkg/mds/service.go:82-340 | after any such run the disk is the tree its committed operations build, and memory mirrors it whenever the lock is free |
| Calls.FirstFile | pkg/mds/service.go:82-203 | the first start makes a root with the caller's targets, stripe size and mode; a first Create below it succeeds, is recorded and acknowledged, and lists the caller's targets |
| Atomicity.CrashIsAtomic | pkg/mds/service.go:189-202 | a crash while a request holds the lock leaves the tree just before it or, after its commit, just after it |
| Atomicity.FreeMemoryMeetsDisk | pkg/mds/service.go:149-202 | whenever the lock is free memory is the tree of the committed operations and a restart rebuilds it up to empty maps |
| Atomicity.AcknowledgedSurvives | pkg/mds/service.go:198-202 | every acknowledged Create or Unlink survives all later runs whose transactions commit, crashes included, until a later operation on the same path |
| Atomicity.InStepIffCommitted | pkg/mds/service.go:198-200 | disk and memory are back in step exactly when the transaction commits |
| Atomicity.FailedRequestVanishes | pkg/mds/service.go:198-200 | the next restart after a failed transaction serves the memory from before the request |
| Atomicity.FailureIsHidden | pkg/mds/service.go:198-200 | until a restart memory, and so every later answer, is the same after the failure as after the commit |
| Dangling.SoundStep | pkg/mds/service.go:82-340 | every small step, failed transactions included, keeps entries leading to matching inodes in memory and on disk |
| Dangling.RunStaysSound | pkg/mds/service.go:82-340 | so does every run |
| Dangling.LookupNeverNil | pkg/mds/service.go:215-220 | in every reachable state a successful Lookup returns an inode with the parent and name asked for, the one Stat gives for its id; a failing one answers NotFound |
| Dangling.StatReturnsItsId | pkg/mds/service.go:228-232 | in every reachable state, failed transactions included, a successful Stat returns an inode with the id asked for, and a failing one answers NotFound |
| Dangling.RotationNeverPanics | pkg/mds/service.go:299-303 | in every reachable state the layout of an accepted Create is defined |
| Dangling.InodeStays | pkg/mds/service.go:307-340 | whatever fails or crashes, an inode on disk stays unchanged until an Unlink of this inode commits |
| Dangling.CommittedCreateStays | pkg/mds/service.go:198-202 | the inode of a committed Create is durable under arbitrary later failures |
| Dangling.UnlinkedNeverReturns | pkg/mds/service.go:284-290 | once an Unlink commits its inode never returns, to disk or to memory |
| Dangling.ReachableBootTwice | pkg/mds/service.go:82-145 | in every reachable state loading twice equals loading once |
| Dangling.RootStays | pkg/mds/service.go:119-142 | the root on disk is never removed or replaced, whatever fails |
| Dangling.FailedCreateOrphans | pkg/mds/service.go:198-200 | whenever a directory's Create fails and a child's commits, a restart serves the child and not the directory |
| Failures.OrphanRun | pkg/mds/service.go:198-200 | a run from before the first start that loses the tree: failed directory, committed child |
| Failures.TwinRun | pkg/mds/service.go:284-290 | another: failed Unlink, committed Create of the same name, two inodes in one place |
| Failures.CommitTreeIff | pkg/mds/service.go:307-340 | after any failures, a commit keeps a tree on disk exactly when it is harmless: parent present and key free, or childless and the key its own |
| Failures.CommitWellFormedIff | pkg/mds/service.go:307-340 | the exact condition for the inode table alone |
| Failures.TreeIffHarmless | pkg/mds/service.go:82-340 | in any run the disk is a tree throughout if and only if every commit is harmless |
| Failures.CommittingIsHarmless | pkg/mds/service.go:82-340 | runs whose transactions all commit have only harmless commits |
| Failures.RunningKeepsMemoryTree | pkg/mds/service.go:153-290 | no step but a restart, failed transactions included, costs memory its tree |
| Failures.RestartServesTreeIff | pkg/mds/service.go:82-145 | a restart serves a tree exactly when it finds one on disk, or no root yet |
| Failures.MemoryTreeIff | pkg/mds/service.go:82-340 | in any run memory is a tree whenever the service is up if and only if every restart finds a tree on disk |
| Failures.HarmlessRunsServeTrees | pkg/mds/service.go:82-340 | while every commit is harmless, disk and memory are trees throughout |
| Listing.AscendingUnique | pkg/mds/service.go:245-249 | a set of names has at most one ascending sequence |
| Listing.ListingOrder | pkg/mds/service.go:245-259 | a listing is strictly ascending by the inodes' own names, one inode per entry |
| Listing.ListDirDropsNothing | pkg/mds/service.go:251-258 | in every reachable state the nil filter drops nothing |
| Listing.ListingMeetsScan | pkg/mds/service.go:240-259 | the listing holds exactly the inodes whose parent is the directory |
| Listing.RestartListing | pkg/mds/service.go:240-243 | a restart changes a listing exactly for empty non-root directories, which are no longer found |
| Listing.ListDirAnswers | pkg/mds/service.go:240-259 | ListDir answers NotFound for unknown ids and files, and a directory just created is listed empty |
| Conservation.EntriesConserved | pkg/mds/service.go:138-288 | inodes number one more than all directory entries together, and one more than the disk keys |
| Stripes.PanicsIff | pkg/mds/service.go:299-303 | exactly which counter values make indexing panic |
| Stripes.RotationAt | pkg/mds/service.go:299-303 | below 2^63 position i reads the index i steps on from the counter, in range |
| Stripes.IsRotation | pkg/mds/service.go:299-304 | below 2^63 the layout is a rotation, hence a permutation, of the configured list |
| Stripes.LatinSquare | pkg/mds/service.go:295-305 | over n consecutive calls each position holds each index exactly once |
| Stripes.Fairness | pkg/mds/service.go:295-305 | over m consecutive calls each index stands at each position, the lead included, floor(m/n) to ceil(m/n) times |
| Sanitize.SanitizedIsNormal | pkg/ost/service.go:131-139 | sanitised names are non-empty, trimmed, without "/" and "..", and a name is unchanged exactly when it has that form |
| Sanitize.SanitizedTwice | pkg/ost/service.go:131-139 | sanitising twice is sanitising once |
| Sanitize.TrimMeaning | pkg/ost/service.go:132 | trimming is exact: the trimmed name is the one middle part without white space at either end, with nothing but white space around it |
| Sanitize.SanitizedMeaning | pkg/ost/service.go:131-139 | white space around a name goes, every "/" becomes "_", then runs of dots are replaced; only nothing-but-space gives "unknown" this way |
| Sanitize.SlashesBecomeUnderscores | pkg/ost/service.go:133 | a trimmed name without ".." keeps its length and differs only in "/" becoming "_" |
| Sanitize.DotRuns | pkg/ost/service.go:134 | a run of 2k dots becomes k "_", a run of 2k+1 dots k "_" and a dot |
| Sanitize.DotsPiecewise | pkg/ost/service.go:134 | dot replacement distributes over a concatenation whose left part does not end in a dot, so the runs settle every name |
| Sanitize.UnknownIff | pkg/ost/service.go:135-138 | exactly which names become "unknown" |
| Sanitize.SpacesAreThese | pkg/ost/service.go:132 | the 25 white-space characters, one by one |
| Sanitize.MintedIsNormal | pkg/ost/service.go:131-139 | the metadata service's ids are left alone |
| Blocks.JoinStaysBelow | pkg/ost/service.go:113-117 | the cleaned join never leaves the data directory |
| Blocks.CleanMeaning | pkg/ost/service.go:113-117 | cleaning a path gives its shortest form and leaves alone exactly the paths that have it |
| Blocks.DotDotTakesBack | pkg/ost/service.go:113-117 | a ".." takes back the ordinary component before it |
| Blocks.BlockPathMeaning | pkg/ost/service.go:113-117 | a block lies in the directory its sanitised id names, in the file that is the chunk in base ten followed by ".blk" |
| Blocks.SamePathIff | pkg/ost/service.go:113-117 | two references share a path exactly when their ids sanitise alike and their chunks are equal |
| Blocks.ServeRefines | pkg/ost/service.go:42-102 | on usable ids each request answers and acts as a plain map from (id, chunk) to bytes |
| Blocks.RunRefines | pkg/ost/service.go:42-102 | so does every sequence of requests, reply by reply |
| Blocks.StoreHoldsLastWrite | pkg/ost/service.go:42-102 | the map holds the last write to each slot since its last delete |
| Blocks.ReadReturnsLastWrite | pkg/ost/service.go:59-84 | a read returns the window of the last write to its slot since the last delete, or NotFound |
| Blocks.WriteAndDeleteAnswer | pkg/ost/service.go:42-102 | a write answers its number of bytes, a delete whether the slot held a write |
| Blocks.MissingBlock | pkg/ost/service.go:42-102 | a request without a block reference is an invalid argument and touches nothing |
| Blocks.DotCollides | pkg/ost/service.go:113-117 | any id that sanitises to "." makes a usable id's write fail |
| Blocks.DotNamesDirectories | pkg/ost/service.go:59-117 | beside a store of usable ids, such an id names their directories: a read fails, and a delete removes the directory exactly when it is empty |
| Blocks.NulFails | pkg/ost/service.go:42-102 | no block of an id with a NUL can be written, read or deleted |
| Blocks.UsableIff | pkg/ost/service.go:42-102 | an id is usable if and only if every sequence of requests on it and usable ids is answered as the plain map answers it |
| Blocks.WindowSpans | pkg/ost/service.go:74-83 | a positive length returns the bytes it spans, length zero the rest, an offset past the end nothing |
| Blocks.PiecesReassemble | pkg/ost/service.go:74-83 | contiguous windows of positive lengths reassemble the bytes they span |
| BlockService.Service.WriteBlock | pkg/ost/service.go:42-57 | the body acts as the specification on files, directories and reply |
| BlockService.Service.ReadBlock | pkg/ost/service.go:59-84 | the step-by-step slicing returns the specified window |
| BlockService.Service.DeleteBlock | pkg/ost/service.go:86-102 | the body acts as the specification on files, directories and reply |
| Cluster.ReadsSeeTheFuture | pkg/ost/service.go:59-117 | for an id not yet minted, reads show only writes still to come |
| Cluster.NewFilesAreBlank | pkg/mds/service.go:171-193 | after any history a newly created file's blocks show only writes made after its Create, on every store |
| EndToEnd.SmokeFlow | tests/smoke/day2_smoke_test.go:15-87 | for every configuration, name, clock reading, chunk and payload: start, create, write, read back, look up, unlink, and the file is gone |

## Left out

- The text of error messages: only status codes are modelled.
- Metrics, the IOPS and byte counters, GetHealth and log output: they observe and change nothing else.
- The file system under the block store: name length limits, full disks, partial writes and
  concurrent requests to one store.
- Damaged database files: a record that does not unmarshal makes start-up fail in the code.
- `sync.RWMutex` fairness and waiting: the order in which waiting requests get the lock is arbitrary.
- Aliasing of nested Go maps: the index is a map of map values, updated through its parent key.
- Copies made by cloneInode: inodes are values, so handing one out shares nothing.
- The CSI driver (`pkg/csi`), the commands under `cmd`, the demo UI, scripts and manifests.
- RunStaysGood: covers runs in which every transaction commits; for all other runs `Failures` gives
  the exact conditions for the tree, and `Dangling` what is kept in any case.
- AcknowledgedSurvives: follows paths, so it too covers runs in which every transaction commits;
  under failures durability is stated for inodes, in `Dangling.InodeStays`, `CommittedCreateStays`
  and `UnlinkedNeverReturns`.
