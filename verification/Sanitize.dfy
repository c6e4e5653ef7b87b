/** How the block store turns a file id into a path component. */
module Sanitize {
  import opened Text
  import opened Metadata

  /** `unicode.IsSpace`. */
  predicate IsSpace(c: char) {
    var u := c as int;
    || 0x9 <= u <= 0xD || u == 0x20 || u == 0x85 || u == 0xA0 || u == 0x1680
    || 0x2000 <= u <= 0x200A || u == 0x2028 || u == 0x2029 || u == 0x202F || u == 0x205F || u == 0x3000
  }

  function TrimLeft(s: string): string {
    if s == [] || !IsSpace(s[0]) then s else TrimLeft(s[1..])
  }

  function TrimRight(s: string): string {
    if s == [] || !IsSpace(s[|s| - 1]) then s else TrimRight(s[..|s| - 1])
  }

  /** `strings.TrimSpace`. */
  function TrimSpace(s: string): string {
    TrimRight(TrimLeft(s))
  }

  function ReplaceSlash(s: string): string {
    if s == [] then [] else [if s[0] == '/' then '_' else s[0]] + ReplaceSlash(s[1..])
  }

  /** `strings.ReplaceAll(s, "..", "_")`: left to right, without overlap. */
  function ReplaceDots(s: string): string {
    if |s| < 2 then s
    else if s[0] == '.' && s[1] == '.' then ['_'] + ReplaceDots(s[2..])
    else [s[0]] + ReplaceDots(s[1..])
  }

  function Sanitized(s: string): string {
    var t := ReplaceDots(ReplaceSlash(TrimSpace(s)));
    if t == "" then "unknown" else t
  }

  // ---------- Normal form ----------

  predicate DotDotAt(s: string, i: nat)
    requires 0 < i < |s|
  {
    s[i - 1] == '.' && s[i] == '.'
  }

  predicate NoDotDot(s: string) {
    forall i :: 0 < i < |s| ==> !DotDotAt(s, i)
  }

  predicate Trimmed(s: string) {
    s != [] ==> !IsSpace(s[0]) && !IsSpace(s[|s| - 1])
  }

  predicate Normal(s: string) {
    s != [] && '/' !in s && NoDotDot(s) && Trimmed(s)
  }

  lemma {:induction false} TrimRightFacts(s: string)
    ensures var r := TrimRight(s);
            r <= s && (r != [] ==> !IsSpace(r[|r| - 1])) && (r == s <==> s == [] || !IsSpace(s[|s| - 1]))
  {
    if s != [] && IsSpace(s[|s| - 1]) {
      TrimRightFacts(s[..|s| - 1]);
    }
  }

  lemma {:induction false} TrimLeftFacts(s: string)
    ensures var r := TrimLeft(s);
            |r| <= |s| && (r != [] ==> !IsSpace(r[0])) && (r == s <==> s == [] || !IsSpace(s[0]))
  {
    if s != [] && IsSpace(s[0]) {
      TrimLeftFacts(s[1..]);
    }
  }

  lemma TrimFacts(s: string)
    ensures Trimmed(TrimSpace(s))
    ensures Trimmed(s) ==> TrimSpace(s) == s
  {
    TrimLeftFacts(s);
    TrimRightFacts(TrimLeft(s));
  }

  lemma {:induction false} SlashFacts(s: string)
    ensures var r := ReplaceSlash(s);
            |r| == |s| && '/' !in r && forall i :: 0 <= i < |s| ==> r[i] == if s[i] == '/' then '_' else s[i]
  {
    if s != [] {
      SlashFacts(s[1..]);
      var r := ReplaceSlash(s);
      forall i | 0 < i < |s| ensures r[i] == if s[i] == '/' then '_' else s[i] {
        assert r[i] == ReplaceSlash(s[1..])[i - 1];
      }
    }
  }

  lemma DotStep(s: string, k: nat)
    requires 2 <= |s| && k == if s[0] == '.' && s[1] == '.' then 2 else 1
    ensures ReplaceDots(s) == [if k == 2 then '_' else s[0]] + ReplaceDots(s[k..])
  {}

  lemma {:induction false} DotEnds(s: string)
    ensures var r := ReplaceDots(s);
      && (r == [] <==> s == [])
      && (r != [] ==> (r[0] == s[0] || r[0] == '_') && (r[|r| - 1] == s[|s| - 1] || r[|r| - 1] == '_'))
      && ('/' !in s ==> '/' !in r)
  {
    if 2 <= |s| {
      var k := if s[0] == '.' && s[1] == '.' then 2 else 1;
      var rest := ReplaceDots(s[k..]);
      DotEnds(s[k..]);
      DotStep(s, k);
      assert rest != [] ==> s[k..][|s| - k - 1] == s[|s| - 1];
    }
  }

  lemma {:induction false} DotsGone(s: string)
    ensures NoDotDot(ReplaceDots(s))
  {
    if 2 <= |s| {
      var k := if s[0] == '.' && s[1] == '.' then 2 else 1;
      var r, rest := ReplaceDots(s), ReplaceDots(s[k..]);
      DotsGone(s[k..]);
      DotEnds(s[k..]);
      forall i | 0 < i < |r| ensures !DotDotAt(r, i) {
        assert r[i] == rest[i - 1];
        if 1 < i { assert r[i - 1] == rest[i - 2] && !DotDotAt(rest, i - 1); }
      }
    }
  }

  lemma {:induction false} DotsKept(s: string)
    requires NoDotDot(s)
    ensures ReplaceDots(s) == s
  {
    if 2 <= |s| {
      assert !DotDotAt(s, 1);
      forall i | 0 < i < |s[1..]| ensures !DotDotAt(s[1..], i) {
        assert !DotDotAt(s, i + 1);
      }
      DotsKept(s[1..]);
    }
  }

  lemma UnknownIsNormal()
    ensures Normal("unknown")
  {
    assert forall i :: 0 < i < |"unknown"| ==> !DotDotAt("unknown", i);
  }

  /** Replacing in a trimmed string keeps it trimmed and leaves neither "/" nor "..". */
  lemma ReplacedIsNormal(t: string)
    requires Trimmed(t) && t != []
    ensures Normal(ReplaceDots(ReplaceSlash(t)))
  {
    var u := ReplaceSlash(t);
    SlashFacts(t);
    DotEnds(u);
    DotsGone(u);
    assert Trimmed(u);
  }

  lemma SanitizedIsClean(s: string)
    ensures Normal(Sanitized(s))
  {
    var t := TrimSpace(s);
    TrimFacts(s);
    UnknownIsNormal();
    if t != [] { ReplacedIsNormal(t); }
  }

  lemma NormalIsKept(s: string)
    requires Normal(s)
    ensures Sanitized(s) == s
  {
    TrimFacts(s);
    SlashFacts(s);
    assert ReplaceSlash(s) == s;
    DotsKept(s);
  }

  /** Every sanitised name is non-empty, holds no "/" and no "..", and has no space at either
      end; and a name is left alone exactly when it has that form. */
  lemma SanitizedIsNormal(s: string)
    ensures Normal(Sanitized(s))
    ensures Sanitized(s) == s <==> Normal(s)
  {
    SanitizedIsClean(s);
    if Normal(s) { NormalIsKept(s); }
  }

  lemma SanitizedTwice(s: string)
    ensures Sanitized(Sanitized(s)) == Sanitized(s)
  {
    SanitizedIsNormal(s);
    SanitizedIsNormal(Sanitized(s));
  }

  // ---------- What becomes of the other names ----------

  predicate AllSpace(s: string) {
    forall i :: 0 <= i < |s| ==> IsSpace(s[i])
  }

  lemma {:induction false} TrimLeftSplits(s: string) returns (a: string)
    ensures s == a + TrimLeft(s) && AllSpace(a)
  {
    if s == [] || !IsSpace(s[0]) {
      a := "";
    } else {
      var rest := TrimLeftSplits(s[1..]);
      a := [s[0]] + rest;
    }
  }

  lemma {:induction false} TrimRightSplits(s: string) returns (b: string)
    ensures s == TrimRight(s) + b && AllSpace(b)
  {
    if s == [] || !IsSpace(s[|s| - 1]) {
      b := "";
    } else {
      var rest := TrimRightSplits(s[..|s| - 1]);
      b := rest + [s[|s| - 1]];
      assert s == s[..|s| - 1] + [s[|s| - 1]];
    }
  }

  lemma {:induction false} TrimLeftSkips(a: string, s: string)
    requires AllSpace(a)
    ensures TrimLeft(a + s) == TrimLeft(s)
  {
    if a == [] {
      assert a + s == s;
    } else {
      TrimLeftSkips(a[1..], s);
      assert (a + s)[1..] == a[1..] + s;
    }
  }

  lemma {:induction false} TrimRightSkips(s: string, b: string)
    requires AllSpace(b)
    ensures TrimRight(s + b) == TrimRight(s)
  {
    if b == [] {
      assert s + b == s;
    } else {
      TrimRightSkips(s, b[..|b| - 1]);
      assert (s + b)[..|s + b| - 1] == s + b[..|b| - 1];
    }
  }

  /** Trimming takes spaces off both ends and nothing else: the trimmed name is the one middle
      part without a space at either end. */
  lemma TrimMeaning(s: string, t: string)
    ensures t == TrimSpace(s) <==>
            Trimmed(t) && exists a, b :: AllSpace(a) && AllSpace(b) && s == a + t + b
  {
    TrimFacts(s);
    var a := TrimLeftSplits(s);
    var b := TrimRightSplits(TrimLeft(s));
    assert s == a + TrimSpace(s) + b;
    if Trimmed(t) {
      if c, d :| AllSpace(c) && AllSpace(d) && s == c + t + d {
        MiddleIsTrimmed(c, t, d);
      }
    }
  }

  lemma MiddleIsTrimmed(c: string, t: string, d: string)
    requires AllSpace(c) && AllSpace(d) && Trimmed(t)
    ensures TrimSpace(c + t + d) == t
  {
    assert c + t + d == c + (t + d);
    TrimLeftSkips(c, t + d);
    if t == [] {
      assert t + d == d && d + "" == d;
      TrimLeftSkips(d, "");
    } else {
      TrimRightSkips(t, d);
    }
  }

  /** The whole rule: spaces at the ends go, each "/" becomes "_", runs of dots are replaced,
      and only a name of nothing but spaces becomes "unknown". */
  lemma SanitizedMeaning(a: string, t: string, b: string)
    requires AllSpace(a) && AllSpace(b) && Trimmed(t)
    ensures Sanitized(a + t + b) ==
            if t == "" then "unknown"
            else ReplaceDots(seq(|t|, i requires 0 <= i < |t| => if t[i] == '/' then '_' else t[i]))
  {
    MiddleIsTrimmed(a, t, b);
    SlashFacts(t);
    assert ReplaceSlash(t) == seq(|t|, i requires 0 <= i < |t| => if t[i] == '/' then '_' else t[i]);
    DotEnds(ReplaceSlash(t));
  }

  /** A trimmed name without ".." keeps its length, and changes only from "/" to "_". */
  lemma SlashesBecomeUnderscores(s: string)
    requires Trimmed(s) && NoDotDot(s) && s != []
    ensures |Sanitized(s)| == |s|
    ensures forall i :: 0 <= i < |s| ==> Sanitized(s)[i] == if s[i] == '/' then '_' else s[i]
  {
    TrimFacts(s);
    SlashFacts(s);
    var u := ReplaceSlash(s);
    forall i | 0 < i < |u| ensures !DotDotAt(u, i) {
      assert !DotDotAt(s, i);
    }
    DotsKept(u);
  }

  function Repeat(c: char, k: nat): string {
    seq(k, _ => c)
  }

  /** A run of dots becomes one "_" for every two, and a last odd dot stays. */
  lemma {:induction false} DotRuns(k: nat)
    ensures ReplaceDots(Repeat('.', 2 * k)) == Repeat('_', k)
    ensures ReplaceDots(Repeat('.', 2 * k + 1)) == Repeat('_', k) + "."
  {
    if 0 < k {
      DotRuns(k - 1);
      assert Repeat('.', 2 * k)[2..] == Repeat('.', 2 * (k - 1));
      assert Repeat('.', 2 * k + 1)[2..] == Repeat('.', 2 * (k - 1) + 1);
      assert Repeat('_', k) == ['_'] + Repeat('_', k - 1);
    }
  }

  /** Replacing works piece by piece wherever the left piece does not end in a dot, so it is
      settled by the runs of dots. */
  lemma {:induction false} DotsPiecewise(a: string, b: string)
    requires a == [] || a[|a| - 1] != '.'
    ensures ReplaceDots(a + b) == ReplaceDots(a) + ReplaceDots(b)
  {
    if a == [] {
      assert a + b == b;
    } else if |a| == 1 {
      OneOff(a[0], b);
      assert a == [a[0]];
    } else {
      var k := if a[0] == '.' && a[1] == '.' then 2 else 1;
      DotsPiecewise(a[k..], b);
      DotStep(a, k);
      FirstOff(a, b, k);
      Regroup([if k == 2 then '_' else a[0]], ReplaceDots(a[k..]), ReplaceDots(b));
    }
  }

  lemma OneOff(c: char, b: string)
    requires c != '.'
    ensures ReplaceDots([c] + b) == [c] + ReplaceDots(b)
  {
    assert ([c] + b)[1..] == b;
  }

  lemma FirstOff(a: string, b: string, k: nat)
    requires 2 <= |a| && k == if a[0] == '.' && a[1] == '.' then 2 else 1
    ensures ReplaceDots(a + b) == [if k == 2 then '_' else a[0]] + ReplaceDots(a[k..] + b)
  {
    var s := a + b;
    assert s[0] == a[0] && s[1] == a[1];
    DotStep(s, k);
    assert s[k..] == a[k..] + b;
  }

  lemma Regroup(x: string, y: string, z: string)
    ensures x + (y + z) == (x + y) + z
  {}

  lemma UnderscoreShows(s: string)
    requires ReplaceDots(ReplaceSlash(s)) == "unknown"
    ensures s == "unknown"
  {
    var u := ReplaceSlash(s);
    SlashFacts(s);
    NoUnderscoreNoChange(u);
    assert forall i :: 0 <= i < |u| ==> u[i] in "unknown";
  }

  lemma {:induction false} NoUnderscoreNoChange(u: string)
    requires '_' !in ReplaceDots(u)
    ensures ReplaceDots(u) == u
  {
    if 2 <= |u| {
      var r := ReplaceDots(u);
      assert r[0] in r;
      assert r[1..] == ReplaceDots(u[1..]);
      assert forall c :: c in r[1..] ==> c in r;
      NoUnderscoreNoChange(u[1..]);
    }
  }

  /** A name becomes "unknown" only when it is nothing but spaces, or is "unknown" already but
      for spaces at its ends. */
  lemma UnknownIff(s: string)
    ensures Sanitized(s) == "unknown" <==> AllSpace(s) || TrimSpace(s) == "unknown"
  {
    var t := TrimSpace(s);
    var a := TrimLeftSplits(s);
    var b := TrimRightSplits(TrimLeft(s));
    assert s == a + t + b;
    if AllSpace(s) {
      assert s == s + "" + "";
      MiddleIsTrimmed(s, "", "");
    }
    SlashFacts(t);
    DotEnds(ReplaceSlash(t));
    if t != "" && Sanitized(s) == "unknown" { UnderscoreShows(t); }
    if t == "unknown" {
      UnknownIsNormal();
      NormalIsKept(t);
      TrimFacts(t);
    }
  }

  /** A single character becomes "unknown" exactly when it is one of Unicode's white space
      characters. */
  lemma SpacesAreThese(c: char)
    ensures Sanitized([c]) == "unknown" <==>
            c as int in {0x9, 0xA, 0xB, 0xC, 0xD, 0x20, 0x85, 0xA0, 0x1680,
                         0x2000, 0x2001, 0x2002, 0x2003, 0x2004, 0x2005, 0x2006, 0x2007, 0x2008, 0x2009, 0x200A,
                         0x2028, 0x2029, 0x202F, 0x205F, 0x3000}
  {
    UnknownIff([c]);
    var t := TrimSpace([c]);
    var a := TrimLeftSplits([c]);
    var b := TrimRightSplits(TrimLeft([c]));
    assert |[c]| == |a| + |t| + |b|;
    assert AllSpace([c]) <==> IsSpace(c) by { assert [c][0] == c; }
  }

  /** The metadata service's ids are left alone and make ordinary path components. */
  lemma MintedIsNormal(nanos: nat)
    ensures Normal(IdOf(nanos)) && Sanitized(IdOf(nanos)) == IdOf(nanos) && IdOf(nanos) != "." && NUL !in IdOf(nanos)
  {
    DecimalDigits(nanos);
    IdFacts(nanos);
    var id := IdOf(nanos);
    forall i | 0 <= i < |id| ensures id[i] != '.' && id[i] != '/' && !IsSpace(id[i]) {
      if i < |ID_PREFIX| {
        assert id[i] == ID_PREFIX[i] && id[i] in ID_PREFIX;
      } else {
        assert id[i] in Decimal(nanos);
      }
    }
    SanitizedIsNormal(id);
  }
}
