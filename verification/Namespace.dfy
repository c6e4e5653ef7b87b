/** The two maps in memory represent a tree: a prefix-closed map from name paths to inodes.
    Create adds one path and Unlink removes one leaf. */
module Namespace {
  import opened Wrappers
  import opened Metadata

  type Path = seq<string>
  type Tree = map<Path, Inode>

  // ---------- Invariants ----------

  predicate RootOk(t: InodeTable) {
    ROOT in t && t[ROOT].id == ROOT && t[ROOT].parent == "" && t[ROOT].isDir
  }

  predicate NodeOk(t: InodeTable, id: string)
    requires id in t
  {
    var i := t[id];
    && i.id == id
    && Minted(id, Stamp(id) + 1)
    && i.parent in t && t[i.parent].isDir
    && Rank(i.parent) < Rank(id)
    && i.name != "" && '/' !in i.name
  }

  predicate SameSpot(t: InodeTable, a: string, b: string) {
    && a in t && b in t && a != ROOT && b != ROOT
    && t[a].parent == t[b].parent && t[a].name == t[b].name
  }

  /** Every inode but the root has an older directory for its parent, and no two inodes share
      parent and name. */
  ghost predicate WellFormed(t: InodeTable) {
    && RootOk(t)
    && (forall id {:trigger NodeOk(t, id)} :: id in t && id != ROOT ==> NodeOk(t, id))
    && (forall a, b {:trigger SameSpot(t, a, b)} :: SameSpot(t, a, b) ==> a == b)
  }

  /** The entry leads to an inode whose own parent and name say the same. */
  predicate EntryOk(t: InodeTable, p: string, n: string, id: string) {
    id in t && id != ROOT && t[id].parent == p && t[id].name == n
  }

  /** The inode is found in the index under its own parent and name. */
  predicate Listed(t: InodeTable, d: Dirents, id: string)
    requires id in t
  {
    HasEntry(d, t[id].parent, t[id].name) && Entry(d, t[id].parent, t[id].name) == id
  }

  /** The index holds exactly one entry per inode, and only directories have entry maps. */
  ghost predicate Indexed(t: InodeTable, d: Dirents) {
    && ROOT in d
    && (forall p :: p in d ==> p in t && t[p].isDir)
    && (forall p, n :: HasEntry(d, p, n) ==> EntryOk(t, p, n, Entry(d, p, n)))
    && (forall id {:trigger Listed(t, d, id)} :: id in t && id != ROOT ==> Listed(t, d, id))
  }

  ghost predicate Coherent(m: Mem) {
    WellFormed(m.inodes) && Indexed(m.inodes, m.dirents)
  }

  // ---------- The tree ----------

  /** The path from the root, found by following parent ids; it ends because a parent is
      older than its child. */
  ghost function PathOf(t: InodeTable, id: string): Path
    requires WellFormed(t) && id in t
    decreases Rank(id)
  {
    if id == ROOT then [] else
      assert NodeOk(t, id);
      PathOf(t, t[id].parent) + [t[id].name]
  }

  /** No two inodes share a path. */
  lemma {:induction false} PathInjective(t: InodeTable, a: string, b: string)
    requires WellFormed(t) && a in t && b in t && PathOf(t, a) == PathOf(t, b)
    ensures a == b
    decreases Rank(a)
  {
    if a != ROOT && b != ROOT {
      assert NodeOk(t, a) && NodeOk(t, b);
      var p, q := PathOf(t, a), PathOf(t, b);
      assert p[..|p| - 1] == PathOf(t, t[a].parent) && q[..|q| - 1] == PathOf(t, t[b].parent);
      assert p[|p| - 1] == t[a].name && q[|q| - 1] == t[b].name;
      PathInjective(t, t[a].parent, t[b].parent);
      assert SameSpot(t, a, b);
    }
  }

  ghost function TreeOf(t: InodeTable): (r: Tree)
    requires WellFormed(t)
    ensures forall id :: id in t ==> PathOf(t, id) in r && r[PathOf(t, id)] == t[id]
    ensures forall p :: p in r ==> exists id :: id in t && PathOf(t, id) == p
  {
    PathsDiffer(t);
    map id | id in t :: PathOf(t, id) := t[id]
  }

  lemma PathsDiffer(t: InodeTable)
    requires WellFormed(t)
    ensures forall a, b :: a in t && b in t && PathOf(t, a) == PathOf(t, b) ==> a == b
  {
    forall a, b | a in t && b in t && PathOf(t, a) == PathOf(t, b) ensures a == b {
      PathInjective(t, a, b);
    }
  }

  lemma TreeOnly(t: InodeTable, p: Path) returns (id: string)
    requires WellFormed(t) && p in TreeOf(t)
    ensures id in t && PathOf(t, id) == p
  {
    id :| id in t && PathOf(t, id) == p;
  }

  /** A prefix-closed map whose inner nodes are directories. */
  ghost predicate IsTree(t: Tree) {
    && [] in t && t[[]].isDir
    && forall p :: p in t && p != [] ==> p[..|p| - 1] in t && t[p[..|p| - 1]].isDir && t[p].name == p[|p| - 1]
  }

  /** Rooted, acyclic, uniquely pathed. */
  lemma TreeIsTree(t: InodeTable)
    requires WellFormed(t)
    ensures IsTree(TreeOf(t)) && TreeOf(t)[[]] == t[ROOT]
  {
    assert PathOf(t, ROOT) == [];
    forall p | p in TreeOf(t) && p != []
      ensures p[..|p| - 1] in TreeOf(t) && TreeOf(t)[p[..|p| - 1]].isDir && TreeOf(t)[p].name == p[|p| - 1]
    {
      var id := TreeOnly(t, p);
      assert NodeOk(t, id);
      assert p[..|p| - 1] == PathOf(t, t[id].parent);
    }
  }

  /** Resolving a path entry by entry, as a client does with Lookup. */
  function Walk(m: Mem, path: Path): Option<string> {
    if path == [] then Some(ROOT)
    else
      match Walk(m, path[..|path| - 1])
      case None => None
      case Some(p) =>
        var n := path[|path| - 1];
        if HasEntry(m.dirents, p, n) then Some(Entry(m.dirents, p, n)) else None
  }

  /** Walking down the index and climbing the parent ids agree. */
  lemma {:induction false} WalkMeetsPath(m: Mem, path: Path, id: string)
    requires Coherent(m)
    ensures Walk(m, path) == Some(id) <==> id in m.inodes && PathOf(m.inodes, id) == path
  {
    var t := m.inodes;
    if path == [] {
      if id in t && id != ROOT { assert NodeOk(t, id); }
    } else {
      var up, n := path[..|path| - 1], path[|path| - 1];
      if Walk(m, path) == Some(id) {
        var p := Walk(m, up).value;
        WalkMeetsPath(m, up, p);
        assert EntryOk(t, p, n, id);
      }
      if id in t && PathOf(t, id) == path {
        assert NodeOk(t, id);
        assert up == PathOf(t, t[id].parent);
        assert Listed(t, m.dirents, id);
        WalkMeetsPath(m, up, t[id].parent);
      }
    }
  }

  /** Paths depend only on the inodes the two tables share. */
  lemma {:induction false} PathStable(t: InodeTable, u: InodeTable, id: string)
    requires WellFormed(t) && WellFormed(u) && id in t && id in u
    requires forall x :: x in t && x in u ==> t[x] == u[x]
    ensures PathOf(t, id) == PathOf(u, id)
    decreases Rank(id)
  {
    if id != ROOT {
      assert NodeOk(t, id) && NodeOk(u, id);
      PathStable(t, u, t[id].parent);
    }
  }

  // ---------- Operations on the tree ----------

  datatype TreeOp = Add(path: Path, node: Inode) | Del(path: Path)

  function Apply(t: Tree, op: TreeOp): Tree {
    match op
    case Add(p, i) => t[p := i]
    case Del(p) => t - {p}
  }

  /** Add names a new child of a directory; Del names a leaf other than the root. */
  ghost predicate Legal(t: Tree, op: TreeOp) {
    && op.path != []
    && match op
       case Add(p, i) =>
         && p !in t && p[..|p| - 1] in t && t[p[..|p| - 1]].isDir
         && i.name == p[|p| - 1] && i.name != "" && '/' !in i.name
       case Del(p) => p in t && IsLeaf(t, p)
  }

  ghost predicate IsLeaf(t: Tree, p: Path) {
    forall q :: q in t && q != [] ==> q[..|q| - 1] != p
  }

  // ---------- Adding and removing an inode ----------

  /** The inode can join the table: a fresh, younger id under a directory with the name free. */
  ghost predicate Fits(t: InodeTable, i: Inode) {
    && i.id !in t && i.id != ROOT && Minted(i.id, Stamp(i.id) + 1)
    && i.parent in t && t[i.parent].isDir && Rank(i.parent) < Rank(i.id)
    && i.name != "" && '/' !in i.name
    && forall x :: x in t && x != ROOT ==> t[x].parent != i.parent || t[x].name != i.name
  }

  lemma AddKeepsWellFormed(t: InodeTable, i: Inode)
    requires WellFormed(t) && Fits(t, i)
    ensures WellFormed(t[i.id := i])
  {
    var u := t[i.id := i];
    forall id | id in u && id != ROOT ensures NodeOk(u, id) {
      if id != i.id { assert NodeOk(t, id); }
    }
    forall a, b | SameSpot(u, a, b) ensures a == b {
      if a != i.id && b != i.id { assert SameSpot(t, a, b); }
    }
  }

  /** Adding an inode adds its one path. */
  lemma AddExtendsTree(t: InodeTable, i: Inode)
    requires WellFormed(t) && Fits(t, i) && WellFormed(t[i.id := i])
    ensures var op := Add(PathOf(t, i.parent) + [i.name], i);
            Legal(TreeOf(t), op) && TreeOf(t[i.id := i]) == Apply(TreeOf(t), op)
  {
    var u := t[i.id := i];
    var path := PathOf(t, i.parent) + [i.name];
    assert path[..|path| - 1] == PathOf(t, i.parent);
    NewPath(t, i);
    if path in TreeOf(t) {
      var id := TreeOnly(t, path);
      PathInjective(u, id, i.id);
    }
    TreeGrows(t, u, i.id, path);
  }

  lemma NewPath(t: InodeTable, i: Inode)
    requires WellFormed(t) && Fits(t, i) && WellFormed(t[i.id := i])
    ensures PathOf(t[i.id := i], i.id) == PathOf(t, i.parent) + [i.name]
    ensures forall id :: id in t ==> PathOf(t[i.id := i], id) == PathOf(t, id)
  {
    var u := t[i.id := i];
    forall id | id in t ensures PathOf(u, id) == PathOf(t, id) { PathStable(t, u, id); }
    assert NodeOk(u, i.id);
  }

  lemma TreeGrows(t: InodeTable, u: InodeTable, id: string, path: Path)
    requires WellFormed(t) && WellFormed(u) && id in u && id !in t && u.Keys == t.Keys + {id}
    requires forall x :: x in t ==> u[x] == t[x] && PathOf(u, x) == PathOf(t, x)
    requires PathOf(u, id) == path && path !in TreeOf(t)
    ensures TreeOf(u) == TreeOf(t)[path := u[id]]
  {
    var a := TreeOf(t)[path := u[id]];
    forall p | p in a ensures exists x :: x in u && PathOf(u, x) == p {
      if p != path { StillReached(t, u, p); } else { assert PathOf(u, id) == p; }
    }
    SameTree(u, a);
  }

  lemma StillReached(t: InodeTable, u: InodeTable, p: Path)
    requires WellFormed(t) && WellFormed(u) && p in TreeOf(t)
    requires forall x :: x in t ==> x in u && PathOf(u, x) == PathOf(t, x)
    ensures exists x :: x in u && PathOf(u, x) == p
  {
    var x := TreeOnly(t, p);
    assert x in u && PathOf(u, x) == p;
  }

  /** Nothing has this inode for its parent. */
  ghost predicate Childless(t: InodeTable, id: string) {
    forall x :: x in t && x != ROOT ==> t[x].parent != id
  }

  lemma RemoveKeepsWellFormed(t: InodeTable, id: string)
    requires WellFormed(t) && id in t && id != ROOT && Childless(t, id)
    ensures WellFormed(t - {id})
  {
    var u := t - {id};
    forall x | x in u && x != ROOT ensures NodeOk(u, x) {
      assert NodeOk(t, x);
    }
    forall a, b | SameSpot(u, a, b) ensures a == b {
      assert SameSpot(t, a, b);
    }
  }

  /** Adding a fresh, younger inode keeps the table well formed exactly when its parent is
      there and its place is free. */
  lemma AddWellFormedIff(t: InodeTable, i: Inode)
    requires WellFormed(t) && i.id !in t && i.id != ROOT && Minted(i.id, Stamp(i.id) + 1)
    requires i.name != "" && '/' !in i.name && Rank(i.parent) < Rank(i.id)
    requires i.parent in t ==> t[i.parent].isDir
    ensures WellFormed(t[i.id := i]) <==>
            i.parent in t && forall x :: x in t && x != ROOT ==> t[x].parent != i.parent || t[x].name != i.name
  {
    var u := t[i.id := i];
    if WellFormed(u) {
      assert NodeOk(u, i.id);
      forall x | x in t && x != ROOT ensures t[x].parent != i.parent || t[x].name != i.name {
        if t[x].parent == i.parent && t[x].name == i.name { assert SameSpot(u, x, i.id); }
      }
    }
    if Fits(t, i) { AddKeepsWellFormed(t, i); }
  }

  /** Removing an id keeps the table well formed exactly when nothing has it for its parent. */
  lemma RemoveWellFormedIff(t: InodeTable, id: string)
    requires WellFormed(t) && id != ROOT
    ensures WellFormed(t - {id}) <==> Childless(t, id)
  {
    if id !in t {
      assert t - {id} == t;
      forall x | x in t && x != ROOT ensures t[x].parent != id { assert NodeOk(t, x); }
    } else {
      if Childless(t, id) { RemoveKeepsWellFormed(t, id); }
      if WellFormed(t - {id}) {
        forall x | x in t && x != ROOT ensures t[x].parent != id {
          assert NodeOk(t, x);
          if x != id { assert NodeOk(t - {id}, x); }
        }
      }
    }
  }

  lemma ChildlessIsLeaf(t: InodeTable, id: string)
    requires WellFormed(t) && id in t && Childless(t, id)
    ensures IsLeaf(TreeOf(t), PathOf(t, id))
  {
    forall q | q in TreeOf(t) && q != [] ensures q[..|q| - 1] != PathOf(t, id) {
      var x := TreeOnly(t, q);
      assert NodeOk(t, x);
      assert q[..|q| - 1] == PathOf(t, t[x].parent);
      if q[..|q| - 1] == PathOf(t, id) { PathInjective(t, t[x].parent, id); }
    }
  }

  lemma ParentIsNoLeaf(t: InodeTable, x: string)
    requires WellFormed(t) && x in t && x != ROOT && t[x].parent in t
    ensures !IsLeaf(TreeOf(t), PathOf(t, t[x].parent))
  {
    var q := PathOf(t, x);
    assert NodeOk(t, x);
    assert q in TreeOf(t) && q != [] && q[..|q| - 1] == PathOf(t, t[x].parent);
  }

  /** A directory is a leaf of the tree exactly when no inode names it as parent. */
  lemma LeafIffChildless(t: InodeTable, id: string)
    requires WellFormed(t) && id in t
    ensures IsLeaf(TreeOf(t), PathOf(t, id)) <==> Childless(t, id)
  {
    if Childless(t, id) { ChildlessIsLeaf(t, id); }
    if x :| x in t && x != ROOT && t[x].parent == id { ParentIsNoLeaf(t, x); }
  }

  lemma OthersKeepPaths(t: InodeTable, id: string)
    requires WellFormed(t) && id in t && WellFormed(t - {id})
    ensures forall x :: x in t - {id} ==> PathOf(t - {id}, x) == PathOf(t, x) != PathOf(t, id)
  {
    forall x | x in t - {id} ensures PathOf(t - {id}, x) == PathOf(t, x) != PathOf(t, id) {
      PathStable(t, t - {id}, x);
      if PathOf(t, x) == PathOf(t, id) { PathInjective(t, x, id); }
    }
  }

  /** Removing a childless inode removes its one path. */
  lemma RemoveShrinksTree(t: InodeTable, id: string)
    requires WellFormed(t) && id in t && id != ROOT && Childless(t, id) && WellFormed(t - {id})
    ensures var op := Del(PathOf(t, id));
            Legal(TreeOf(t), op) && TreeOf(t - {id}) == Apply(TreeOf(t), op)
  {
    LeafIffChildless(t, id);
    assert NodeOk(t, id);
    OthersKeepPaths(t, id);
    TreeShrinks(t, t - {id}, id);
  }

  lemma TreeShrinks(t: InodeTable, u: InodeTable, id: string)
    requires WellFormed(t) && WellFormed(u) && id in t && u.Keys == t.Keys - {id}
    requires forall x :: x in u ==> u[x] == t[x] && PathOf(u, x) == PathOf(t, x) != PathOf(t, id)
    ensures TreeOf(u) == TreeOf(t) - {PathOf(t, id)}
  {
    var a := TreeOf(t) - {PathOf(t, id)};
    forall p | p in a ensures exists x :: x in u && PathOf(u, x) == p {
      var x := TreeOnly(t, p);
      assert x in u && PathOf(u, x) == p;
    }
    SameTree(u, a);
  }

  lemma SameTree(u: InodeTable, a: Tree)
    requires WellFormed(u)
    requires forall id :: id in u ==> PathOf(u, id) in a && a[PathOf(u, id)] == u[id]
    requires forall p :: p in a ==> exists id :: id in u && PathOf(u, id) == p
    ensures TreeOf(u) == a
  {
    assert TreeOf(u).Keys == a.Keys;
  }

  // ---------- Create ----------

  /** What an accepted Create hands to the memory change, given an unused id from the clock. */
  ghost predicate CreateReady(m: Mem, i: Inode) {
    && i.id !in m.inodes && i.id != ROOT && Minted(i.id, Stamp(i.id) + 1)
    && i.parent in m.inodes && m.inodes[i.parent].isDir && Rank(i.parent) < Rank(i.id)
    && i.name != "" && '/' !in i.name
    && !HasEntry(m.dirents, i.parent, i.name)
  }

  lemma CreateDirents(m: Mem, i: Inode)
    requires CreateReady(m, i)
    requires i.id !in m.dirents
    ensures var d := MutateCreate(m, i).dirents;
      && (forall p, n :: HasEntry(d, p, n) <==> (p == i.parent && n == i.name) || HasEntry(m.dirents, p, n))
      && (forall p, n :: HasEntry(m.dirents, p, n) ==> Entry(d, p, n) == Entry(m.dirents, p, n))
      && HasEntry(d, i.parent, i.name) && Entry(d, i.parent, i.name) == i.id
      && d.Keys == m.dirents.Keys + {i.parent} + (if i.isDir then {i.id} else {})
  {
    var d := MutateCreate(m, i).dirents;
    forall p, n ensures HasEntry(d, p, n) <==> (p == i.parent && n == i.name) || HasEntry(m.dirents, p, n) {
      if p == i.parent { } else if p == i.id { }
    }
  }

  lemma CreateKeepsIndexed(m: Mem, i: Inode)
    requires CreateReady(m, i) && Indexed(m.inodes, m.dirents)
    ensures Indexed(MutateCreate(m, i).inodes, MutateCreate(m, i).dirents)
  {
    CreateDirents(m, i);
    var t, u, d := m.inodes, MutateCreate(m, i).inodes, MutateCreate(m, i).dirents;
    forall p, n | HasEntry(d, p, n) ensures EntryOk(u, p, n, Entry(d, p, n)) {
      if HasEntry(m.dirents, p, n) { assert EntryOk(t, p, n, Entry(m.dirents, p, n)); }
    }
    forall id | id in u && id != ROOT ensures Listed(u, d, id) {
      if id != i.id { assert Listed(t, m.dirents, id); }
    }
  }

  lemma ReadyFits(m: Mem, i: Inode)
    requires Coherent(m) && CreateReady(m, i)
    ensures Fits(m.inodes, i)
  {
    forall x | x in m.inodes && x != ROOT ensures m.inodes[x].parent != i.parent || m.inodes[x].name != i.name {
      assert Listed(m.inodes, m.dirents, x);
    }
  }

  /** A successful Create keeps memory coherent and adds exactly the path parent + [name],
      which was free. */
  lemma CreateAddsPath(m: Mem, i: Inode)
    requires Coherent(m) && CreateReady(m, i)
    ensures Coherent(MutateCreate(m, i))
    ensures var op := Add(PathOf(m.inodes, i.parent) + [i.name], i);
            Legal(TreeOf(m.inodes), op) && TreeOf(MutateCreate(m, i).inodes) == Apply(TreeOf(m.inodes), op)
  {
    ReadyFits(m, i);
    AddKeepsWellFormed(m.inodes, i);
    CreateKeepsIndexed(m, i);
    AddExtendsTree(m.inodes, i);
  }

  /** Every id in the table was minted before `clock`. */
  ghost predicate MintedBefore(t: InodeTable, clock: nat) {
    forall id :: id in t && id != ROOT ==> Minted(id, clock)
  }

  /** A clock reading no older than `clock` makes every accepted Create ready. */
  lemma AcceptedIsReady(c: Config, m: Mem, req: CreateRequest, nanos: nat, unix: int, clock: nat)
    requires Coherent(m) && MintedBefore(m.inodes, clock) && clock <= nanos
    requires CreateCheck(m, req).None? && NewInode(c, m, req, nanos, unix).Some?
    ensures var i := NewInode(c, m, req, nanos, unix).value;
            && CreateReady(m, i) && i.parent == req.parent && i.name == req.name
            && i.isDir == req.isDir && i.id == IdOf(nanos)
  {
    IdFacts(nanos);
    if req.parent != ROOT { assert NodeOk(m.inodes, req.parent); }
  }

  /** Two Creates that read the same instant break the tree: memory stays coherent exactly when
      the minted id is unused. That covers the id of the parent itself, minted again while
      creating its child; only an unused id must be younger than the parent. */
  lemma CreateCoherentIffFresh(m: Mem, i: Inode)
    requires Coherent(m) && i.id != ROOT && Minted(i.id, Stamp(i.id) + 1)
    requires i.parent in m.inodes && m.inodes[i.parent].isDir
    requires i.id in m.inodes || Rank(i.parent) < Rank(i.id)
    requires i.name != "" && '/' !in i.name && !HasEntry(m.dirents, i.parent, i.name)
    ensures Coherent(MutateCreate(m, i)) <==> i.id !in m.inodes
  {
    if i.id !in m.inodes {
      CreateAddsPath(m, i);
    } else {
      var was := m.inodes[i.id];
      assert NodeOk(m.inodes, i.id) && Listed(m.inodes, m.dirents, i.id);
      var n := MutateCreate(m, i);
      assert HasEntry(n.dirents, was.parent, was.name) && Entry(n.dirents, was.parent, was.name) == i.id;
      assert !EntryOk(n.inodes, was.parent, was.name, i.id);
    }
  }

  // ---------- Unlink ----------

  /** Unlink's emptiness test holds exactly when no inode names the directory as parent. */
  lemma EmptyIffChildless(m: Mem, id: string)
    requires Coherent(m) && id in m.inodes
    ensures (id !in m.dirents || m.dirents[id] == map[]) <==> Childless(m.inodes, id)
  {
    if id in m.dirents && m.dirents[id] != map[] {
      var n :| n in m.dirents[id];
      assert HasEntry(m.dirents, id, n);
      assert EntryOk(m.inodes, id, n, Entry(m.dirents, id, n));
    } else {
      forall x | x in m.inodes && x != ROOT ensures m.inodes[x].parent != id {
        assert Listed(m.inodes, m.dirents, x);
      }
    }
  }

  lemma RemoveFacts(m: Mem, parent: string, name: string)
    requires Coherent(m) && UnlinkCheck(m, parent, name).Remove?
    ensures var i := UnlinkCheck(m, parent, name).inode;
      && i.id in m.inodes && m.inodes[i.id] == i && i.id != ROOT && i.parent == parent && i.name == name
      && HasEntry(m.dirents, parent, name) && Entry(m.dirents, parent, name) == i.id
      && Childless(m.inodes, i.id)
  {
    assert HasEntry(m.dirents, parent, name);
    var id := Entry(m.dirents, parent, name);
    assert EntryOk(m.inodes, parent, name, id);
    assert NodeOk(m.inodes, id);
    EmptyIffChildless(m, id);
  }

  lemma UnlinkDirents(m: Mem, parent: string, name: string, id: string)
    requires parent in m.dirents && (id in m.dirents ==> m.dirents[id] == map[])
    ensures var d := MutateUnlink(m, parent, name, id).dirents;
      && (forall p, n :: HasEntry(d, p, n) <==> HasEntry(m.dirents, p, n) && !(p == parent && n == name))
      && (forall p, n :: HasEntry(d, p, n) ==> Entry(d, p, n) == Entry(m.dirents, p, n))
      && d.Keys == m.dirents.Keys - {id}
  {
  }

  lemma UnlinkKeepsIndexed(m: Mem, parent: string, name: string)
    requires Coherent(m) && UnlinkCheck(m, parent, name).Remove?
    ensures var n := MutateUnlink(m, parent, name, UnlinkCheck(m, parent, name).inode.id);
            Indexed(n.inodes, n.dirents)
  {
    RemoveFacts(m, parent, name);
    var i := UnlinkCheck(m, parent, name).inode;
    EmptyIffChildless(m, i.id);
    UnlinkDirents(m, parent, name, i.id);
    var t, u, d := m.inodes, m.inodes - {i.id}, MutateUnlink(m, parent, name, i.id).dirents;
    forall p, n | HasEntry(d, p, n) ensures EntryOk(u, p, n, Entry(d, p, n)) {
      assert EntryOk(t, p, n, Entry(m.dirents, p, n));
    }
    forall id | id in u && id != ROOT ensures Listed(u, d, id) {
      assert Listed(t, m.dirents, id);
    }
  }

  /** A successful Unlink keeps memory coherent and removes exactly the leaf
      parent + [name]. */
  lemma UnlinkRemovesLeaf(m: Mem, parent: string, name: string)
    requires Coherent(m) && UnlinkCheck(m, parent, name).Remove?
    ensures parent in m.inodes && UnlinkCheck(m, parent, name).inode.id in m.inodes
    ensures var op := Del(PathOf(m.inodes, parent) + [name]);
            var i := UnlinkCheck(m, parent, name).inode;
            var n := MutateUnlink(m, parent, name, i.id);
            && PathOf(m.inodes, i.id) == op.path
            && Coherent(n) && Legal(TreeOf(m.inodes), op) && TreeOf(n.inodes) == Apply(TreeOf(m.inodes), op)
  {
    RemoveFacts(m, parent, name);
    var i := UnlinkCheck(m, parent, name).inode;
    assert NodeOk(m.inodes, i.id);
    UnlinkKeepsIndexed(m, parent, name);
    RemoveKeepsWellFormed(m.inodes, i.id);
    RemoveShrinksTree(m.inodes, i.id);
  }

  // ---------- Verdicts read off the tree ----------

  function TreeCreateCheck(r: Tree, up: Path, name: string): Option<Code> {
    if name == "" then Some(InvalidArgument)
    else if up !in r then Some(NotFound)
    else if !r[up].isDir then Some(FailedPrecondition)
    else if '/' in name then Some(InvalidArgument)
    else if up + [name] in r then Some(AlreadyExists)
    else None
  }

  ghost function TreeUnlinkCheck(r: Tree, up: Path, name: string): UnlinkVerdict {
    var p := up + [name];
    if p !in r then Absent
    else if r[p].isDir && !IsLeaf(r, p) then Refuse(FailedPrecondition)
    else Remove(r[p])
  }

  /** An index entry and the tree path below its directory come together. */
  lemma EntryIsPath(m: Mem, p: string, n: string)
    requires Coherent(m) && p in m.inodes
    ensures HasEntry(m.dirents, p, n) <==> PathOf(m.inodes, p) + [n] in TreeOf(m.inodes)
    ensures HasEntry(m.dirents, p, n) ==>
              var id := Entry(m.dirents, p, n);
              id in m.inodes && m.inodes[id].id == id && PathOf(m.inodes, id) == PathOf(m.inodes, p) + [n]
  {
    var path := PathOf(m.inodes, p) + [n];
    assert path[..|path| - 1] == PathOf(m.inodes, p);
    if HasEntry(m.dirents, p, n) {
      assert EntryOk(m.inodes, p, n, Entry(m.dirents, p, n));
      assert NodeOk(m.inodes, Entry(m.dirents, p, n));
    }
    if path in TreeOf(m.inodes) {
      var id := TreeOnly(m.inodes, path);
      assert NodeOk(m.inodes, id) && Listed(m.inodes, m.dirents, id);
      PathInjective(m.inodes, m.inodes[id].parent, p);
    }
  }

  /** Create's verdict is the one the tree gives for the parent's path. A parent id outside
      the tree is never accepted. */
  lemma CreateCheckOnTree(m: Mem, req: CreateRequest)
    requires Coherent(m)
    ensures req.parent in m.inodes ==>
              CreateCheck(m, req) == if req.parent == "" then Some(InvalidArgument)
                                     else TreeCreateCheck(TreeOf(m.inodes), PathOf(m.inodes, req.parent), req.name)
    ensures req.parent !in m.inodes ==>
              CreateCheck(m, req) == Some(if req.parent == "" || req.name == "" then InvalidArgument else NotFound)
  {
    if req.parent in m.inodes {
      EntryIsPath(m, req.parent, req.name);
      if req.parent != ROOT { assert NodeOk(m.inodes, req.parent); }
    }
  }

  /** Unlink's verdict is the one the tree gives, once the parent has an entry map. */
  lemma UnlinkCheckOnTree(m: Mem, parent: string, name: string)
    requires Coherent(m) && parent in m.dirents
    ensures UnlinkCheck(m, parent, name) == TreeUnlinkCheck(TreeOf(m.inodes), PathOf(m.inodes, parent), name)
  {
    EntryIsPath(m, parent, name);
    if HasEntry(m.dirents, parent, name) {
      var id := Entry(m.dirents, parent, name);
      EmptyIffChildless(m, id);
      LeafIffChildless(m.inodes, id);
    }
  }

  /** The index agrees with a scan of the inode table: Lookup succeeds exactly when some
      inode has that parent and name, and then returns that inode. */
  lemma LookupMeetsScan(m: Mem, p: string, n: string, i: Inode)
    requires Coherent(m)
    ensures LookupOf(m, p, n) == Ok(Some(i)) <==>
            i.id in m.inodes && m.inodes[i.id] == i && i.id != ROOT && i.parent == p && i.name == n
  {
    if HasEntry(m.dirents, p, n) {
      var id := Entry(m.dirents, p, n);
      assert EntryOk(m.inodes, p, n, id);
      assert NodeOk(m.inodes, id);
      if i.id in m.inodes && m.inodes[i.id] == i && i.id != ROOT && i.parent == p && i.name == n {
        assert SameSpot(m.inodes, id, i.id);
      }
    } else if i.id in m.inodes && i.id != ROOT {
      assert Listed(m.inodes, m.dirents, i.id);
    }
  }

  /** Where the scan finds nothing, Lookup answers NotFound. */
  lemma LookupMisses(m: Mem, p: string, n: string)
    requires Coherent(m)
    requires forall x :: x in m.inodes && x != ROOT ==> m.inodes[x].parent != p || m.inodes[x].name != n
    ensures LookupOf(m, p, n) == Err(NotFound)
  {
    assert !HasEntry(m.dirents, p, n);
  }

  /** Stat returns an inode exactly when the tree carries it, under the id that was asked for, at
      one of its paths; otherwise it answers NotFound. */
  lemma StatMeetsTree(m: Mem, id: string, i: Inode)
    requires Coherent(m)
    ensures StatOf(m, id) == Ok(i) <==> i.id == id && exists p :: p in TreeOf(m.inodes) && TreeOf(m.inodes)[p] == i
    ensures StatOf(m, id) == Err(NotFound) <==> forall p :: p in TreeOf(m.inodes) ==> TreeOf(m.inodes)[p].id != id
  {
    var t, r := m.inodes, TreeOf(m.inodes);
    if id in t {
      assert id == ROOT || NodeOk(t, id);
      assert PathOf(t, id) in r && r[PathOf(t, id)] == t[id];
    }
    forall p | p in r ensures r[p].id in t && t[r[p].id] == r[p] {
      var x := TreeOnly(t, p);
      assert x == ROOT || NodeOk(t, x);
    }
  }
}
