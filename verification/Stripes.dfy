/** The round-robin stripe allocator: a `uint64` counter, its conversion to `int`, Go's
    truncating remainder, and the rotation built from them. */
module Stripes {
  import opened Wrappers

  const TWO63: nat := 0x8000_0000_0000_0000
  const TWO64: nat := 0x1_0000_0000_0000_0000

  type Uint64 = n: nat | n < TWO64

  /** `int(u)` for a `uint64`. */
  function ToInt(u: Uint64): int {
    if u < TWO63 then u else u - TWO64
  }

  /** Go's `a % n`, which truncates toward zero. */
  function GoMod(a: int, n: nat): int
    requires 0 < n
  {
    if 0 <= a then a % n else -(-a % n)
  }

  /** `atomic.AddUint64(&rr, 1)`. */
  function Bump(rr: Uint64): Uint64 {
    (rr + 1) % TWO64
  }

  /** The `start` of the call that finds the counter at `rr`: the bumped counter minus one,
      both in `uint64`, then converted and reduced. */
  function Start(rr: Uint64, n: nat): int
    requires 0 < n
  {
    GoMod(ToInt((Bump(rr) + TWO64 - 1) % TWO64), n)
  }

  /** The index into the configured list that position `i` of the layout reads. */
  function Slot(rr: Uint64, n: nat, i: nat): int
    requires 0 < n
  {
    GoMod(Start(rr, n) + i, n)
  }

  /** The ordered list one call builds, or None when indexing panics. */
  function Rotation(ids: seq<string>, rr: Uint64): Option<seq<string>> {
    if ids == [] then Some([])
    else if Start(rr, |ids|) < 0 then None
    else Some(seq(|ids|, i requires 0 <= i < |ids| => ids[(Start(rr, |ids|) + i) % |ids|]))
  }

  /** Exactly when the call panics: the counter has passed 2^63 and its negative image does
      not fall on a multiple of the list length. */
  lemma PanicsIff(ids: seq<string>, rr: Uint64)
    ensures Rotation(ids, rr).None? <==>
            ids != [] && 0x8000_0000_0000_0000 <= rr && (0x1_0000_0000_0000_0000 - rr) % |ids| != 0
  {
    BumpBack(rr);
  }

  lemma BumpBack(rr: Uint64)
    ensures (Bump(rr) + TWO64 - 1) % TWO64 == rr
  {
  }

  /** Below 2^63 position i of the layout reads the index that lies i steps on from the
      counter. */
  lemma RotationAt(ids: seq<string>, rr: nat, i: nat)
    requires rr < TWO63 && i < |ids|
    ensures 0 <= Slot(rr, |ids|, i) < |ids|
    ensures Rotation(ids, rr).Some? && |Rotation(ids, rr).value| == |ids|
    ensures Rotation(ids, rr).value[i] == ids[Slot(rr, |ids|, i)]
    ensures var s := rr % |ids|; Slot(rr, |ids|, i) == if i < |ids| - s then s + i else s + i - |ids|
  {
    StartBelow63(rr, |ids|);
    AddMod(rr % |ids|, i, |ids|);
  }

  /** Below 2^63 the layout is the configured list rotated by the counter: the same
      elements with the same multiplicities. */
  lemma IsRotation(ids: seq<string>, rr: nat)
    requires rr < TWO63 && ids != []
    ensures var s := rr % |ids|;
            Rotation(ids, rr) == Some(ids[s..] + ids[..s])
    ensures multiset(Rotation(ids, rr).value) == multiset(ids)
  {
    var s := rr % |ids|;
    var turned := ids[s..] + ids[..s];
    RotationAt(ids, rr, 0);
    forall i | 0 <= i < |ids| ensures Rotation(ids, rr).value[i] == turned[i] {
      RotationAt(ids, rr, i);
    }
    assert Rotation(ids, rr).value == turned;
    assert ids == ids[..s] + ids[s..];
  }

  lemma MulAtLeast(d: int, n: nat)
    ensures 1 <= d ==> n <= d * n
    ensures d <= -1 ==> d * n + n <= 0
  {
  }

  /** A quotient and a remainder in range are the quotient and the remainder. */
  lemma ModUnique(a: int, n: nat, q: int, r: nat)
    requires 0 < n && a == q * n + r && r < n
    ensures a % n == r && a / n == q
  {
    var d := q - a / n;
    assert d * n == a % n - r by {
      assert a == n * (a / n) + a % n;
      assert d * n == q * n - a / n * n;
    }
    MulAtLeast(d, n);
  }

  lemma AddMod(s: nat, i: nat, n: nat)
    requires s < n && i <= n
    ensures (s + i) % n == if i < n - s then s + i else s + i - n
  {
    if i < n - s {
      ModUnique(s + i, n, 0, s + i);
    } else {
      ModUnique(s + i, n, 1, s + i - n);
    }
  }

  /** Reducing before adding changes nothing. */
  lemma ModAdd(a: nat, b: nat, n: nat)
    requires 0 < n
    ensures (a % n + b) % n == (a + b) % n
  {
    var c := a % n + b;
    assert a == n * (a / n) + a % n && c == n * (c / n) + c % n;
    assert (a / n + c / n) * n == a / n * n + c / n * n;
    ModUnique(a + b, n, a / n + c / n, c % n);
  }

  // ---------- Fairness ----------

  /** How many of the m calls that find the counter at r, r+1, ... put index x at position i. */
  function Holds(r: nat, m: nat, n: nat, i: nat, x: nat): nat
    requires r + m <= TWO63 && 0 < n
  {
    if m == 0 then 0 else Holds(r, m - 1, n, i, x) + if Slot(r + m - 1, n, i) == x then 1 else 0
  }

  /** A negative start makes the very first index negative; any other makes none. */
  lemma StartRange(rr: Uint64, n: nat)
    requires 0 < n
    ensures Start(rr, n) < 0 ==> GoMod(Start(rr, n), n) < 0
  {
    var a := ToInt((Bump(rr) + TWO64 - 1) % TWO64);
    if a < 0 {
      ModUnique(-a % n, n, 0, -a % n);
    }
  }

  lemma StartBelow63(k: nat, n: nat)
    requires k < TWO63 && 0 < n
    ensures Start(k, n) == k % n
  {
    BumpBack(k);
  }

  lemma SlotShifts(k: nat, n: nat, i: nat)
    requires k < TWO63 && i < n
    ensures Slot(k, n, i) == (k + i) % n
  {
    StartBelow63(k, n);
    ModAdd(k, i, n);
  }

  /** The distance from counter r to the next call that puts x at position i. */
  function Wait(r: nat, n: nat, i: nat, x: nat): nat
    requires x < n
  {
    var s := (r + i) % n;
    if s <= x then x - s else x + n - s
  }

  /** Within one round the index is used at most once, exactly when its turn has come. */
  lemma {:induction false} OneRound(r: nat, m: nat, n: nat, i: nat, x: nat)
    requires r + m <= TWO63 && i < n && x < n && m <= n
    ensures Holds(r, m, n, i, x) == if Wait(r, n, i, x) < m then 1 else 0
  {
    if 0 < m {
      OneRound(r, m - 1, n, i, x);
      SlotShifts(r + m - 1, n, i);
      var s, j := (r + i) % n, m - 1;
      ModAdd(r + i, j, n);
      AddMod(s, j, n);
    }
  }

  lemma {:induction false} HoldsSplits(r: nat, a: nat, b: nat, n: nat, i: nat, x: nat)
    requires r + a + b <= TWO63 && 0 < n
    ensures Holds(r, a + b, n, i, x) == Holds(r, a, n, i, x) + Holds(r + a, b, n, i, x)
  {
    if 0 < b {
      HoldsSplits(r, a, b - 1, n, i, x);
    }
  }

  lemma DivDrop(a: nat, n: nat)
    requires 0 < n <= a
    ensures a / n == (a - n) / n + 1
  {
    var q, r := (a - n) / n, (a - n) % n;
    assert a - n == n * q + r && (q + 1) * n == n * q + n;
    ModUnique(a, n, q + 1, r);
  }

  /** Latin square: over any n consecutive calls each position of the layout holds each
      configured index exactly once. */
  lemma LatinSquare(r: nat, n: nat, i: nat, x: nat)
    requires r + n <= TWO63 && i < n && x < n
    ensures Holds(r, n, n, i, x) == 1
  {
    OneRound(r, n, n, i, x);
  }

  /** Fairness: over any m consecutive calls each index stands at each position (the lead is
      position 0) either floor(m/n) or ceil(m/n) times. */
  lemma {:induction false} Fairness(r: nat, m: nat, n: nat, i: nat, x: nat)
    requires r + m <= TWO63 && i < n && x < n
    ensures m / n <= Holds(r, m, n, i, x) <= (m + n - 1) / n
    decreases m
  {
    if m < n {
      OneRound(r, m, n, i, x);
      ModUnique(m, n, 0, m);
      if m == 0 { ModUnique(n - 1, n, 0, n - 1); } else { ModUnique(m + n - 1, n, 1, m - 1); }
    } else {
      HoldsSplits(r, n, m - n, n, i, x);
      LatinSquare(r, n, i, x);
      Fairness(r + n, m - n, n, i, x);
      DivDrop(m, n);
      DivDrop(m + n - 1, n);
    }
  }
}
