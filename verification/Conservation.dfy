/** Counting: one directory entry, in memory and on disk, for every inode but the root. */
module Conservation {
  import opened Text
  import opened Metadata
  import opened Namespace
  import opened Recovery

  ghost predicate Bijective<A(!new), B>(s: set<A>, t: set<B>, f: A -> B) {
    && (forall a :: a in s ==> f(a) in t)
    && (forall a, b :: a in s && b in s && f(a) == f(b) ==> a == b)
    && (forall y :: y in t ==> exists a :: a in s && f(a) == y)
  }

  lemma {:induction false} SameSize<A(!new), B>(s: set<A>, t: set<B>, f: A -> B)
    requires Bijective(s, t, f)
    ensures |s| == |t|
    decreases |s|
  {
    if s == {} {
      assert t == {};
    } else {
      var a :| a in s;
      var u := s - {a};
      forall y | y in t - {f(a)} ensures exists x :: x in u && f(x) == y {
        var x :| x in s && f(x) == y;
        assert x in u;
      }
      SameSize(u, t - {f(a)}, f);
    }
  }

  ghost function DirSizes(d: Dirents): nat
    decreases |d|
  {
    if d == map[] then 0
    else
      var p :| p in d;
      |d[p]| + DirSizes(d - {p})
  }

  function Pairs(d: Dirents): set<(string, string)> {
    set p, n | p in d && n in d[p] :: (p, n)
  }

  lemma {:induction false} PairsAreSizes(d: Dirents)
    ensures |Pairs(d)| == DirSizes(d)
    decreases |d|
  {
    if d == map[] {
      assert Pairs(d) == {};
    } else {
      var p :| p in d && DirSizes(d) == |d[p]| + DirSizes(d - {p});
      PairsSplit(d, p);
      PairsAreSizes(d - {p});
    }
  }

  lemma PairsSplit(d: Dirents, p: string)
    requires p in d
    ensures |Pairs(d)| == |d[p]| + |Pairs(d - {p})|
  {
    var own := set n | n in d[p] :: (p, n);
    OwnPairs(d, p, own);
    var rest := Pairs(d - {p});
    assert own !! rest;
    assert Pairs(d) == own + rest;
  }

  lemma OwnPairs(d: Dirents, p: string, own: set<(string, string)>)
    requires p in d && own == set n | n in d[p] :: (p, n)
    ensures |own| == |d[p]|
  {
    assert Bijective(d[p].Keys, own, n => (p, n));
    SameSize(d[p].Keys, own, n => (p, n));
    assert |d[p].Keys| == |d[p]|;
  }

  function Spot(t: InodeTable, id: string): (string, string) {
    if id in t then (t[id].parent, t[id].name) else ("", "")
  }

  lemma InodesArePairs(m: Mem)
    requires Coherent(m)
    ensures |m.inodes| == 1 + |Pairs(m.dirents)|
  {
    var ids, f := m.inodes.Keys - {ROOT}, id => Spot(m.inodes, id);
    forall id | id in ids ensures f(id) in Pairs(m.dirents) {
      assert Listed(m.inodes, m.dirents, id);
    }
    forall a, b | a in ids && b in ids && f(a) == f(b) ensures a == b {
      assert SameSpot(m.inodes, a, b);
    }
    forall y | y in Pairs(m.dirents) ensures exists id :: id in ids && f(id) == y {
      assert HasEntry(m.dirents, y.0, y.1);
      var id := Entry(m.dirents, y.0, y.1);
      assert EntryOk(m.inodes, y.0, y.1, id);
      assert id in ids && f(id) == y;
    }
    SameSize(ids, Pairs(m.dirents), f);
  }

  lemma KeysArePairs(d: Dirents)
    requires NulFree(d)
    ensures |Flatten(d)| == |Pairs(d)|
  {
    FlattenMirrors(d);
    var f := (y: (string, string)) => Key(y.0, y.1);
    forall y | y in Pairs(d) ensures f(y) in Flatten(d).Keys {
      assert HasEntry(d, y.0, y.1);
    }
    forall y, z | y in Pairs(d) && z in Pairs(d) && f(y) == f(z) ensures y == z {
      SplitUndoesKey(y.0, y.1);
      SplitUndoesKey(z.0, z.1);
    }
    forall k | k in Flatten(d).Keys ensures exists y :: y in Pairs(d) && f(y) == k {
      KeyUndoesSplit(k);
      assert HasEntry(d, KeyParent(k), KeyName(k));
      assert (KeyParent(k), KeyName(k)) in Pairs(d) && f((KeyParent(k), KeyName(k))) == k;
    }
    SameSize(Pairs(d), Flatten(d).Keys, f);
  }

  /** The inodes number one more than the entries of all directories together, and one more
      than the keys of the disk bucket. */
  lemma EntriesConserved(d: Disk, m: Mem)
    requires Synced(d, m)
    ensures |m.inodes| == 1 + DirSizes(m.dirents) == 1 + |d.dirents|
  {
    InodesArePairs(m);
    PairsAreSizes(m.dirents);
    CoherentIsNulFree(m);
    KeysArePairs(m.dirents);
  }
}
