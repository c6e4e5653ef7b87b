/** The string operations both services rely on: decimal printing (`%d`), splitting at
    the first NUL, and the order used by `sort.Strings`.

    Every string reaches the services through protobuf and is therefore valid UTF-8. It is
    modelled as the sequence of its code points; for such strings Go's byte order and the
    order by code points coincide. */
module Text {

  // ---------- Decimal printing ----------

  function Digit(d: nat): (c: char)
    requires d < 10
  {
    '0' + d as char
  }

  function Decimal(n: nat): (s: string) {
    if n < 10 then [Digit(n)] else Decimal(n / 10) + [Digit(n % 10)]
  }

  function Undecimal(s: string): nat {
    if s == [] then 0
    else
      var c := s[|s| - 1];
      10 * Undecimal(s[..|s| - 1]) + if '0' <= c then c as int - '0' as int else 0
  }

  /** Decimal printing can be read back, so it is injective. */
  lemma {:induction false} DecimalRoundTrip(n: nat)
    ensures Undecimal(Decimal(n)) == n
  {
    if 10 <= n {
      DecimalRoundTrip(n / 10);
      assert Decimal(n)[..|Decimal(n)| - 1] == Decimal(n / 10);
    } else {
      assert Undecimal(Decimal(n)[..0]) == 0;
    }
  }

  lemma {:induction false} DecimalDigits(n: nat)
    ensures Decimal(n) != []
    ensures forall c :: c in Decimal(n) ==> '0' <= c <= '9'
  {
    if 10 <= n {
      DecimalDigits(n / 10);
    }
  }

  /** The value of a numeral, digit by digit. */
  lemma UndecimalMeaning(s: string, c: char)
    requires '0' <= c <= '9'
    ensures Undecimal("") == 0
    ensures Undecimal(s + [c]) == 10 * Undecimal(s) + (c as int - '0' as int)
  {
    assert (s + [c])[..|s|] == s;
  }

  /** The string is the number in base ten: digits only, no leading zero, and that value. */
  predicate Prints(s: string, n: nat) {
    && s != [] && (forall i :: 0 <= i < |s| ==> '0' <= s[i] <= '9')
    && (s[0] == '0' ==> s == "0")
    && Undecimal(s) == n
  }

  lemma {:induction false} NoLeadingZero(n: nat)
    ensures Decimal(n) != [] && (Decimal(n)[0] == '0' <==> n == 0)
  {
    if 10 <= n {
      NoLeadingZero(n / 10);
    }
  }

  lemma {:induction false} PrintsOnce(s: string, n: nat)
    requires Prints(s, n)
    ensures s == Decimal(n)
    decreases |s|
  {
    var k := |s| - 1;
    var front, d := s[..k], s[k] as int - '0' as int;
    assert s == front + [s[k]] && Digit(d) == s[k];
    if k == 0 {
      assert Undecimal(s[..0]) == 0;
    } else {
      assert front[0] == s[0];
      PrintsOnce(front, Undecimal(front));
      NoLeadingZero(Undecimal(front));
      assert n == 10 * Undecimal(front) + d;
    }
  }

  /** Decimal printing is canonical: a string is the printed number if and only if it is that
      number's numeral without leading zeros. */
  lemma DecimalMeaning(s: string, n: nat)
    ensures s == Decimal(n) <==> Prints(s, n)
  {
    DecimalRoundTrip(n);
    DecimalDigits(n);
    NoLeadingZero(n);
    assert forall i :: 0 <= i < |Decimal(n)| ==> Decimal(n)[i] in Decimal(n);
    if Prints(s, n) { PrintsOnce(s, n); }
  }

  // ---------- Flat directory keys ----------

  const NUL: char := '\0'

  /** The position of the first `c`, or the length when there is none. */
  function IndexOf(s: string, c: char): (i: nat)
    ensures i <= |s| && c !in s[..i]
    ensures i < |s| ==> s[i] == c
  {
    if s == [] || s[0] == c then 0
    else
      var i := IndexOf(s[1..], c) + 1;
      assert s[..i] == [s[0]] + s[1..][..i - 1];
      i
  }

  /** `strings.SplitN(s, "\x00", 2)`. */
  function SplitAtNul(s: string): seq<string> {
    var i := IndexOf(s, NUL);
    if i == |s| then [s] else [s[..i], s[i + 1..]]
  }

  /** `parent + "\x00" + name`. */
  function Key(parent: string, name: string): string {
    parent + [NUL] + name
  }

  predicate IsKey(k: string) {
    |SplitAtNul(k)| == 2
  }

  function KeyParent(k: string): string {
    SplitAtNul(k)[0]
  }

  function KeyName(k: string): string
    requires IsKey(k)
  {
    SplitAtNul(k)[1]
  }

  /** Splitting undoes joining whenever the parent holds no NUL; the name may hold any. */
  lemma SplitUndoesKey(parent: string, name: string)
    requires NUL !in parent
    ensures IsKey(Key(parent, name))
    ensures KeyParent(Key(parent, name)) == parent && KeyName(Key(parent, name)) == name
  {
    var k := Key(parent, name);
    var i := IndexOf(k, NUL);
    assert k[|parent|] == NUL;
    assert i == |parent| by {
      assert forall j :: 0 <= j < |parent| ==> k[j] in parent;
      assert forall j :: 0 <= j < i ==> k[j] in k[..i];
    }
    assert k[..|parent|] == parent && k[|parent| + 1..] == name;
  }

  /** Joining undoes splitting for every string that splits. */
  lemma KeyUndoesSplit(k: string)
    requires IsKey(k)
    ensures Key(KeyParent(k), KeyName(k)) == k
    ensures NUL !in KeyParent(k)
  {
    var i := IndexOf(k, NUL);
    assert k == k[..i] + [k[i]] + k[i + 1..];
  }

  // ---------- Order ----------

  /** The order of `sort.Strings`. */
  predicate Less(a: string, b: string) {
    b != [] && (a == [] || a[0] < b[0] || (a[0] == b[0] && Less(a[1..], b[1..])))
  }

  predicate DiffersAt(a: string, b: string, k: nat) {
    k <= |a| && k < |b| && a[..k] == b[..k] && (k == |a| || a[k] < b[k])
  }

  /** One string comes before another exactly when it is a proper prefix or has the smaller
      character at the first position where they differ. */
  lemma {:induction false} LessMeaning(a: string, b: string)
    ensures Less(a, b) <==> exists k: nat :: DiffersAt(a, b, k)
  {
    forall k: nat | 0 < k && DiffersAt(a, b, k) ensures a != [] && b != [] && a[0] == b[0] {
      assert a[..k][0] == b[..k][0];
    }
    if b == [] {
    } else if a == [] || a[0] != b[0] {
      if Less(a, b) { assert DiffersAt(a, b, 0); }
    } else {
      LessMeaning(a[1..], b[1..]);
      if Less(a, b) {
        var k: nat :| DiffersAt(a[1..], b[1..], k);
        assert a[..k + 1] == [a[0]] + a[1..][..k] && b[..k + 1] == [b[0]] + b[1..][..k];
        assert DiffersAt(a, b, k + 1);
      }
      if k: nat :| DiffersAt(a, b, k) {
        assert a[1..][..k - 1] == a[..k][1..] && b[1..][..k - 1] == b[..k][1..];
        assert DiffersAt(a[1..], b[1..], k - 1);
      }
    }
  }

  lemma {:induction false} LessIrreflexive(a: string)
    ensures !Less(a, a)
  {
    if a != [] {
      LessIrreflexive(a[1..]);
    }
  }

  lemma {:induction false} LessTransitive(a: string, b: string, c: string)
    requires Less(a, b) && Less(b, c)
    ensures Less(a, c)
  {
    if a != [] && a[0] == b[0] == c[0] {
      LessTransitive(a[1..], b[1..], c[1..]);
    }
  }

  lemma {:induction false} LessTotal(a: string, b: string)
    ensures Less(a, b) || a == b || Less(b, a)
  {
    if a != [] && b != [] && a[0] == b[0] {
      LessTotal(a[1..], b[1..]);
      assert a == [a[0]] + a[1..] && b == [b[0]] + b[1..];
    }
  }
}
