/** ListDir: collect the names, sort them, and look the inodes up, dropping any that are
    missing. */
module Listing {
  import opened Text
  import opened Stripes
  import opened Metadata
  import opened Namespace
  import opened Recovery
  import opened Protocol
  import opened Dangling

  predicate Ascending(s: seq<string>) {
    forall i, j :: 0 <= i < j < |s| ==> Less(s[i], s[j])
  }

  function Elements(s: seq<string>): set<string> {
    set x | x in s
  }

  /** A set of names has one ascending sequence at most. */
  lemma {:induction false} AscendingUnique(a: seq<string>, b: seq<string>)
    requires Ascending(a) && Ascending(b) && Elements(a) == Elements(b)
    ensures a == b
    decreases |a|
  {
    assert a != [] ==> a[0] in Elements(a);
    assert b != [] ==> b[0] in Elements(b);
    if a != [] && b != [] {
      SameHead(a, b);
      TailElements(a);
      TailElements(b);
      AscendingUnique(a[1..], b[1..]);
    }
  }

  lemma SameHead(a: seq<string>, b: seq<string>)
    requires a != [] && b != [] && Ascending(a) && Ascending(b) && Elements(a) == Elements(b)
    ensures a[0] == b[0]
  {
    assert a[0] in Elements(b) && b[0] in Elements(a);
    var i :| 0 <= i < |b| && b[i] == a[0];
    var j :| 0 <= j < |a| && a[j] == b[0];
    if i != 0 && j != 0 {
      LessTransitive(b[0], a[0], b[0]);
      LessIrreflexive(b[0]);
    }
  }

  lemma TailElements(a: seq<string>)
    requires a != [] && Ascending(a)
    ensures Elements(a[1..]) == Elements(a) - {a[0]} && Ascending(a[1..])
  {
    LessIrreflexive(a[0]);
    forall x | x in Elements(a) - {a[0]} ensures x in Elements(a[1..]) {
      var i :| 0 <= i < |a| && a[i] == x;
      assert a[1..][i - 1] == x;
    }
    forall x | x in Elements(a[1..]) ensures x in Elements(a) - {a[0]} {
      var i :| 0 <= i < |a[1..]| && a[1..][i] == x;
      assert Less(a[0], a[i + 1]);
    }
  }

  function Insert(x: string, s: seq<string>): (r: seq<string>)
    requires Ascending(s) && x !in s
    ensures Ascending(r) && Elements(r) == Elements(s) + {x} && |r| == |s| + 1
  {
    if s == [] then [x]
    else
      LessTotal(x, s[0]);
      if Less(x, s[0]) then
        assert forall j :: 0 < j < |s| ==> Less(x, s[j]) by {
          forall j | 0 < j < |s| ensures Less(x, s[j]) { LessTransitive(x, s[0], s[j]); }
        }
        [x] + s
      else
        TailElements(s);
        var r := Insert(x, s[1..]);
        assert forall y :: y in r ==> Less(s[0], y) by {
          forall y | y in r ensures Less(s[0], y) {
            assert y in Elements(r);
            if y != x { assert y in Elements(s[1..]); }
          }
        }
        assert Elements([s[0]] + r) == {s[0]} + Elements(r);
        [s[0]] + r
  }

  /** The ascending sequence of a set of names. */
  ghost function Sorted(names: set<string>): (r: seq<string>)
    ensures Ascending(r) && Elements(r) == names && |r| == |names|
  {
    if names == {} then []
    else
      var x :| x in names;
      var rest := Sorted(names - {x});
      assert x !in Elements(rest);
      Insert(x, rest)
  }

  function Select(t: InodeTable, entries: map<string, string>, names: seq<string>): seq<Inode>
    requires forall n :: n in names ==> n in entries
  {
    if names == [] then []
    else
      var rest := Select(t, entries, names[..|names| - 1]);
      var id := entries[names[|names| - 1]];
      if id in t then rest + [t[id]] else rest
  }

  ghost function ListDirOf(m: Mem, id: string): Result<seq<Inode>> {
    if id !in m.dirents then Err(NotFound)
    else
      var names := Sorted(m.dirents[id].Keys);
      assert forall n :: n in names ==> n in Elements(names);
      Ok(Select(m.inodes, m.dirents[id], names))
  }

  /** With no dangling entry, selecting drops nothing and position k holds the inode whose own
      name is the k-th name. */
  lemma {:induction false} SelectExact(m: Mem, p: string, names: seq<string>)
    requires EntriesOk(m.inodes, m.dirents) && p in m.dirents
    requires forall n :: n in names ==> n in m.dirents[p]
    ensures var r := Select(m.inodes, m.dirents[p], names);
      && |r| == |names|
      && forall k :: 0 <= k < |r| ==>
           && r[k].name == names[k] && r[k].parent == p
           && m.dirents[p][names[k]] in m.inodes && r[k] == m.inodes[m.dirents[p][names[k]]]
    decreases |names|
  {
    if names != [] {
      var k := |names| - 1;
      SelectExact(m, p, names[..k]);
      assert names[k] in m.dirents[p];
      assert HasEntry(m.dirents, p, names[k]);
      assert EntryOk(m.inodes, p, names[k], Entry(m.dirents, p, names[k]));
    }
  }

  /** In every state without dangling entries the listing is strictly ascending by the inodes'
      own names, has one inode per entry, and each has the directory for its parent. */
  lemma ListingOrder(m: Mem, p: string)
    requires EntriesOk(m.inodes, m.dirents) && p in m.dirents
    ensures var r := ListDirOf(m, p).value;
      && ListDirOf(m, p).Ok? && |r| == |m.dirents[p]|
      && (forall i, j :: 0 <= i < j < |r| ==> Less(r[i].name, r[j].name))
      && (forall i :: 0 <= i < |r| ==> r[i].parent == p)
  {
    var names := Sorted(m.dirents[p].Keys);
    assert forall n :: n in names ==> n in Elements(names);
    SelectExact(m, p, names);
  }

  /** In every reachable state, after any failures and crashes, a listing drops no entry. */
  lemma ListDirDropsNothing(clock: nat, es: seq<Event>, p: string)
    requires clock <= TWO63 && CanRun(Blank(clock), es) && p in After(Blank(clock), es).mem.dirents
    ensures var m := After(Blank(clock), es).mem;
            ListDirOf(m, p).Ok? && |ListDirOf(m, p).value| == |m.dirents[p]|
  {
    BlankRunIsSound(clock, es);
    ListingOrder(After(Blank(clock), es).mem, p);
  }

  /** In a coherent memory the listing holds exactly the inodes whose parent it is. */
  lemma ListingMeetsScan(m: Mem, p: string, i: Inode)
    requires Coherent(m) && p in m.dirents
    ensures i in ListDirOf(m, p).value <==> i.id in m.inodes && m.inodes[i.id] == i && i.id != ROOT && i.parent == p
  {
    var names := Sorted(m.dirents[p].Keys);
    assert forall n :: n in names ==> n in Elements(names);
    SelectExact(m, p, names);
    var r := ListDirOf(m, p).value;
    if i in r {
      var k :| 0 <= k < |r| && r[k] == i;
      assert HasEntry(m.dirents, p, names[k]);
      assert EntryOk(m.inodes, p, names[k], Entry(m.dirents, p, names[k]));
      assert NodeOk(m.inodes, Entry(m.dirents, p, names[k]));
    }
    if i.id in m.inodes && m.inodes[i.id] == i && i.id != ROOT && i.parent == p {
      assert Listed(m.inodes, m.dirents, i.id);
      assert i.name in Elements(names);
      var k :| 0 <= k < |names| && names[k] == i.name;
      assert r[k] == i;
    }
  }

  /** A restart changes ListDir's answer exactly for empty directories other than the root,
      which it no longer finds. */
  lemma RestartListing(m: Mem, p: string)
    ensures ListDirOf(Restarted(m), p) == ListDirOf(m, p) <==> !EmptyNonRoot(m, p)
    ensures EmptyNonRoot(m, p) ==> ListDirOf(m, p) == Ok([]) && ListDirOf(Restarted(m), p) == Err(NotFound)
  {
    if EmptyNonRoot(m, p) {
      assert Sorted(m.dirents[p].Keys) == [];
    }
  }

  /** ListDir finds no directory under an unknown id or a file's, and one just created is found
      empty. */
  lemma ListDirAnswers(m: Mem, id: string, i: Inode)
    requires Coherent(m)
    ensures id !in m.inodes || !m.inodes[id].isDir ==> ListDirOf(m, id) == Err(NotFound)
    ensures id in m.dirents ==> ListDirOf(m, id).Ok?
    ensures CreateReady(m, i) && i.isDir ==> ListDirOf(MutateCreate(m, i), i.id) == Ok([])
  {
    if i.isDir {
      assert Sorted(MutateCreate(m, i).dirents[i.id].Keys) == [];
    }
  }
}
