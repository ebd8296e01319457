/** Version ordering (internal/aptcheck/aptcheck.go: CompareVersions, run,
    compareRun): two strings are cut into runs of digits and of anything else,
    and compared run by run, digit runs by value and the others lexically. */
module Versions {
  import opened Text

  predicate IsDigit(c: char) {
    '0' <= c <= '9'
  }

  // ------------------------------------------------------------------ runs

  function RunLength(s: string): (n: nat)
    requires s != []
    ensures 1 <= n <= |s|
  {
    if |s| > 1 && IsDigit(s[1]) == IsDigit(s[0]) then 1 + RunLength(s[1..]) else 1
  }

  function Head(s: string): string {
    if s == [] then [] else s[..RunLength(s)]
  }

  function Tail(s: string): string {
    if s == [] then [] else s[RunLength(s)..]
  }

  /** All characters of one kind. */
  ghost predicate IsRun(r: string) {
    forall i | 0 <= i < |r| :: IsDigit(r[i]) == IsDigit(r[0])
  }

  lemma {:induction false} RunLengthIsMaximal(s: string)
    requires s != []
    ensures var n := RunLength(s);
      && (forall i | 0 <= i < n :: IsDigit(s[i]) == IsDigit(s[0]))
      && (n < |s| ==> IsDigit(s[n]) != IsDigit(s[0]))
  {
    if |s| > 1 && IsDigit(s[1]) == IsDigit(s[0]) {
      RunLengthIsMaximal(s[1..]);
      assert forall i | 1 <= i < RunLength(s) :: s[i] == s[1..][i - 1];
    }
  }

  /** The head is a run, and the longest one: what follows is of the other kind. */
  lemma HeadIsTheLongestRun(s: string)
    ensures s == Head(s) + Tail(s) && IsRun(Head(s))
    ensures s != [] ==> Head(s) != [] && Head(s)[0] == s[0]
    ensures Tail(s) != [] ==> IsDigit(Tail(s)[0]) != IsDigit(s[0])
  {
    if s != [] {
      RunLengthIsMaximal(s);
    }
  }

  /** A run followed by the other kind is cut exactly after the run. */
  lemma HeadOfConcat(r: string, rest: string)
    requires r != [] && IsRun(r)
    requires rest != [] ==> IsDigit(rest[0]) != IsDigit(r[0])
    ensures Head(r + rest) == r && Tail(r + rest) == rest
  {
    RunLengthOfConcat(r, rest);
  }

  lemma {:induction false} RunLengthOfConcat(r: string, rest: string)
    requires r != [] && IsRun(r)
    requires rest != [] ==> IsDigit(rest[0]) != IsDigit(r[0])
    ensures RunLength(r + rest) == |r|
  {
    if |r| > 1 {
      assert (r + rest)[1..] == r[1..] + rest;
      assert IsDigit(r[1]) == IsDigit(r[0]);
      assert IsRun(r[1..]) by {
        assert forall i | 0 <= i < |r[1..]| :: r[1..][i] == r[i + 1];
      }
      RunLengthOfConcat(r[1..], rest);
    }
  }

  /** run: the loop that finds where the first run stops. */
  method Run(s: string) returns (head: string, rest: string)
    ensures head == Head(s) && rest == Tail(s)
  {
    if s == "" {
      return "", "";
    }
    var digit := IsDigit(s[0]);
    var i := 1;
    while i < |s| && IsDigit(s[i]) == digit
      invariant 1 <= i <= |s|
      invariant forall j | 0 <= j < i :: IsDigit(s[j]) == digit
    {
      i := i + 1;
    }
    assert s == s[..i] + s[i..];
    HeadOfConcat(s[..i], s[i..]);
    return s[..i], s[i..];
  }

  // ---------------------------------------------------------- one run each

  function TrimZeros(s: string): (r: string)
    ensures |r| <= |s|
  {
    if s != [] && s[0] == '0' then TrimZeros(s[1..]) else s
  }

  /** compareRun. */
  function CompareRun(a: string, b: string): (c: int)
    ensures -1 <= c <= 1
  {
    if a != "" && b != "" && IsDigit(a[0]) && IsDigit(b[0]) then
      var x, y := TrimZeros(a), TrimZeros(b);
      if |x| != |y| then (if |x| < |y| then -1 else 1) else Compare(x, y)
    else Compare(a, b)
  }

  lemma CompareRunIsAntisymmetric(a: string, b: string)
    ensures CompareRun(a, b) == -CompareRun(b, a)
  {
    CompareIsAntisymmetric(a, b);
    CompareIsAntisymmetric(TrimZeros(a), TrimZeros(b));
  }

  lemma CompareRunIsTransitive(a: string, b: string, c: string)
    requires CompareRun(a, b) <= 0 && CompareRun(b, c) <= 0
    ensures CompareRun(a, c) <= 0
    ensures CompareRun(a, b) < 0 || CompareRun(b, c) < 0 ==> CompareRun(a, c) < 0
  {
    var x, y, z := TrimZeros(a), TrimZeros(b), TrimZeros(c);
    if Compare(x, y) <= 0 && Compare(y, z) <= 0 {
      CompareIsTransitive(x, y, z);
    }
    if Compare(a, b) <= 0 && Compare(b, c) <= 0 {
      CompareIsTransitive(a, b, c);
    }
  }

  // ---------------------------------------------------------- by the value

  function Pow10(n: nat): (p: nat)
    ensures p >= 1
  {
    if n == 0 then 1 else 10 * Pow10(n - 1)
  }

  function Digit(c: char): (d: nat)
    requires IsDigit(c)
    ensures d <= 9
  {
    c as int - '0' as int
  }

  predicate AllDigits(s: string) {
    forall i | 0 <= i < |s| :: IsDigit(s[i])
  }

  /** \d+ */
  predicate DigitsOnly(s: string) {
    s != "" && AllDigits(s)
  }

  /** The number a string of digits denotes, of any length. */
  function Value(s: string): nat
    requires AllDigits(s)
  {
    if s == [] then 0 else Digit(s[0]) * Pow10(|s| - 1) + Value(s[1..])
  }

  /** The value read from the other end: a digit appended. */
  lemma {:induction false} ValueOfAppended(s: string, c: char)
    requires AllDigits(s) && IsDigit(c)
    ensures AllDigits(s + [c]) && Value(s + [c]) == 10 * Value(s) + Digit(c)
  {
    if s == [] {
      assert [] + [c] == [c];
      assert [c][1..] == [];
    } else {
      assert (s + [c])[1..] == s[1..] + [c];
      ValueOfAppended(s[1..], c);
      ScaledTenfold(Digit(s[0]), Pow10(|s| - 1));
    }
  }

  lemma ScaledTenfold(d: nat, p: nat)
    ensures d * (10 * p) == 10 * (d * p)
  {
  }

  lemma {:induction false} Scaled(d: nat, e: nat, p: nat)
    requires d < e
    ensures d * p + p <= e * p
    decreases e
  {
    if d < e - 1 {
      Scaled(d, e - 1, p);
      assert e * p == (e - 1) * p + p;
    } else {
      assert e * p == d * p + p;
    }
  }

  lemma {:induction false} ValueIsBounded(s: string)
    requires AllDigits(s)
    ensures Value(s) < Pow10(|s|)
    ensures s != [] && s[0] != '0' ==> Pow10(|s| - 1) <= Value(s)
  {
    if s != [] {
      ValueIsBounded(s[1..]);
      Scaled(Digit(s[0]), 10, Pow10(|s| - 1));
      if s[0] != '0' {
        Scaled(0, Digit(s[0]), Pow10(|s| - 1));
      }
    }
  }

  lemma {:induction false} TrimZerosKeepsTheValue(s: string)
    requires AllDigits(s)
    ensures AllDigits(TrimZeros(s)) && Value(TrimZeros(s)) == Value(s)
    ensures TrimZeros(s) != [] ==> TrimZeros(s)[0] != '0'
  {
    if s != [] && s[0] == '0' {
      TrimZerosKeepsTheValue(s[1..]);
    }
  }

  lemma {:induction false} Pow10IsMonotonic(m: nat, n: nat)
    requires m <= n
    ensures Pow10(m) <= Pow10(n)
    decreases n
  {
    if m < n {
      Pow10IsMonotonic(m, n - 1);
    }
  }

  /** At equal length, comparing digit by digit compares the numbers. */
  lemma {:induction false} SameLengthOrder(x: string, y: string)
    requires AllDigits(x) && AllDigits(y) && |x| == |y|
    ensures Compare(x, y) < 0 <==> Value(x) < Value(y)
    ensures Compare(x, y) == 0 <==> Value(x) == Value(y)
  {
    if x != [] {
      var p := Pow10(|x| - 1);
      ValueIsBounded(x[1..]);
      ValueIsBounded(y[1..]);
      if x[0] < y[0] {
        Scaled(Digit(x[0]), Digit(y[0]), p);
      } else if y[0] < x[0] {
        Scaled(Digit(y[0]), Digit(x[0]), p);
      } else {
        SameLengthOrder(x[1..], y[1..]);
      }
    }
  }

  lemma ShorterIsSmaller(x: string, y: string)
    requires AllDigits(x) && AllDigits(y) && |x| < |y| && y[0] != '0'
    ensures Value(x) < Value(y)
  {
    ValueIsBounded(x);
    ValueIsBounded(y);
    Pow10IsMonotonic(|x|, |y| - 1);
  }

  /** Digit runs of any length compare by the number they denote, although the
      code never converts them. */
  lemma DigitRunsCompareByValue(a: string, b: string)
    requires a != [] && b != [] && AllDigits(a) && AllDigits(b)
    ensures CompareRun(a, b) < 0 <==> Value(a) < Value(b)
    ensures CompareRun(a, b) == 0 <==> Value(a) == Value(b)
  {
    var x, y := TrimZeros(a), TrimZeros(b);
    TrimZerosKeepsTheValue(a);
    TrimZerosKeepsTheValue(b);
    if |x| == |y| {
      SameLengthOrder(x, y);
    } else if |x| < |y| {
      ShorterIsSmaller(x, y);
    } else {
      ShorterIsSmaller(y, x);
    }
  }

  // ------------------------------------------------------------- the order

  /** CompareVersions as a function. */
  function Order(a: string, b: string): (c: int)
    ensures -1 <= c <= 1
    decreases |a| + |b|
  {
    if a == [] && b == [] then 0
    else
      var c := CompareRun(Head(a), Head(b));
      if c != 0 then c else Order(Tail(a), Tail(b))
  }

  method CompareVersions(a: string, b: string) returns (c: int)
    ensures c == Order(a, b)
  {
    var x, y := a, b;
    while x != "" || y != ""
      invariant Order(x, y) == Order(a, b)
      decreases |x| + |y|
    {
      var rx, restX := Run(x);
      var ry, restY := Run(y);
      c := CompareRun(rx, ry);
      if c != 0 {
        return;
      }
      x, y := restX, restY;
    }
    return 0;
  }

  /** Swapping the versions swaps the sign, and no version precedes itself. */
  lemma {:induction false} OrderIsAntisymmetric(a: string, b: string)
    ensures Order(a, b) == -Order(b, a)
    ensures a == b ==> Order(a, b) == 0
    decreases |a| + |b|
  {
    if a != [] || b != [] {
      CompareRunIsAntisymmetric(Head(a), Head(b));
      OrderIsAntisymmetric(Tail(a), Tail(b));
    }
  }

  /** Transitive across runs of every kind, and strictly so if either step is. */
  lemma {:induction false} OrderIsTransitive(a: string, b: string, c: string)
    requires Order(a, b) <= 0 && Order(b, c) <= 0
    ensures Order(a, c) <= 0
    ensures Order(a, b) < 0 || Order(b, c) < 0 ==> Order(a, c) < 0
    decreases |a| + |b| + |c|
  {
    if a != [] || b != [] || c != [] {
      if CompareRun(Head(a), Head(b)) <= 0 && CompareRun(Head(b), Head(c)) <= 0 {
        CompareRunIsTransitive(Head(a), Head(b), Head(c));
      }
      if CompareRun(Head(a), Head(b)) == 0 && CompareRun(Head(b), Head(c)) == 0 {
        CompareRunIsAntisymmetric(Head(a), Head(c));
        OrderIsTransitive(Tail(a), Tail(b), Tail(c));
      }
    }
  }

  /** Runs that are not both of digits compare as plain text: the first difference
      decides, and a run before a longer one it begins. */
  lemma OtherRunsCompareAsText(a: string, b: string)
    requires a == "" || b == "" || !IsDigit(a[0]) || !IsDigit(b[0])
    ensures CompareRun(a, b) < 0 <==> exists k: nat :: LessAt(a, b, k)
    ensures CompareRun(a, b) == 0 <==> a == b
  {
    CompareIsLexicographic(a, b);
    CompareIsAntisymmetric(a, b);
  }

  /** The first runs decide, unless they are equal: then what follows them does. */
  lemma FirstRunDecides(a: string, x: string, b: string, y: string)
    requires a != [] && IsRun(a) && (x != [] ==> IsDigit(x[0]) != IsDigit(a[0]))
    requires b != [] && IsRun(b) && (y != [] ==> IsDigit(y[0]) != IsDigit(b[0]))
    ensures Order(a + x, b + y) == if CompareRun(a, b) != 0 then CompareRun(a, b) else Order(x, y)
  {
    HeadOfConcat(a, x);
    HeadOfConcat(b, y);
  }

  /** A version that has ended comes before one that goes on. */
  lemma NothingComesFirst(b: string)
    requires b != []
    ensures Order("", b) < 0 < Order(b, "")
  {
    HeadIsTheLongestRun(b);
    OrderIsAntisymmetric("", b);
  }

  // -------------------------------------------------------- equal versions

  /** A run without redundant leading zeros; a run of zeros keeps one. */
  function CanonicalRun(r: string): string {
    if r == "" || !IsDigit(r[0]) then r
    else if TrimZeros(r) == "" then "0"
    else TrimZeros(r)
  }

  /** Every digit run of s stripped of its redundant leading zeros. */
  function Canonical(s: string): string
    decreases |s|
  {
    if s == [] then [] else CanonicalRun(Head(s)) + Canonical(Tail(s))
  }

  lemma SuffixOfRun(r: string, k: nat)
    requires IsRun(r) && k < |r|
    ensures IsRun(r[k..]) && IsDigit(r[k..][0]) == IsDigit(r[0])
  {
    forall i | 0 <= i < |r[k..]| ensures IsDigit(r[k..][i]) == IsDigit(r[0]) {
      assert r[k..][i] == r[k + i];
    }
  }

  lemma {:induction false} TrimZerosKeepsRun(r: string)
    requires IsRun(r)
    ensures IsRun(TrimZeros(r))
    ensures TrimZeros(r) != [] ==> IsDigit(TrimZeros(r)[0]) == IsDigit(r[0])
  {
    if |r| > 1 && r[0] == '0' {
      SuffixOfRun(r, 1);
      TrimZerosKeepsRun(r[1..]);
    }
  }

  lemma CanonicalRunIsRun(r: string)
    requires r != [] && IsRun(r)
    ensures var n := CanonicalRun(r); n != [] && IsRun(n) && IsDigit(n[0]) == IsDigit(r[0])
  {
    TrimZerosKeepsRun(r);
  }

  /** Canonical rewrites each run in place: it moves no boundary between runs. */
  lemma CanonicalKeepsRuns(s: string)
    requires s != []
    ensures Canonical(s) != [] && IsDigit(Canonical(s)[0]) == IsDigit(s[0])
    ensures Head(Canonical(s)) == CanonicalRun(Head(s)) && Tail(Canonical(s)) == Canonical(Tail(s))
    decreases |s|
  {
    HeadIsTheLongestRun(s);
    CanonicalRunIsRun(Head(s));
    if Tail(s) != [] {
      CanonicalKeepsRuns(Tail(s));
    }
    HeadOfConcat(CanonicalRun(Head(s)), Canonical(Tail(s)));
  }

  lemma {:induction false} TrimZerosStartsNonZero(s: string)
    ensures TrimZeros(s) != [] ==> TrimZeros(s)[0] != '0'
  {
    if s != [] && s[0] == '0' {
      TrimZerosStartsNonZero(s[1..]);
    }
  }

  lemma EqualRuns(a: string, b: string)
    requires IsRun(a) && IsRun(b)
    ensures CompareRun(a, b) == 0 <==> CanonicalRun(a) == CanonicalRun(b)
  {
    CompareIsAntisymmetric(a, b);
    CompareIsAntisymmetric(TrimZeros(a), TrimZeros(b));
    TrimZerosStartsNonZero(a);
    TrimZerosStartsNonZero(b);
    if a != [] {
      CanonicalRunIsRun(a);
    }
    if b != [] {
      CanonicalRunIsRun(b);
    }
  }

  /** Two versions compare equal exactly when they agree once the redundant
      leading zeros of every digit run are stripped. */
  lemma {:induction false} EqualMeansSameCanonical(a: string, b: string)
    ensures Order(a, b) == 0 <==> Canonical(a) == Canonical(b)
    decreases |a| + |b|
  {
    HeadIsTheLongestRun(a);
    HeadIsTheLongestRun(b);
    if a != [] && b != [] {
      CanonicalKeepsRuns(a);
      CanonicalKeepsRuns(b);
      EqualRuns(Head(a), Head(b));
      EqualMeansSameCanonical(Tail(a), Tail(b));
    } else if a != [] {
      CanonicalKeepsRuns(a);
      EqualRuns(Head(a), Head(b));
    } else if b != [] {
      CanonicalKeepsRuns(b);
      EqualRuns(Head(a), Head(b));
    }
  }

  /** Stripping all zeros of a run would be too much: "a0b" and "ab" both become
      "ab", yet they are different versions. */
  lemma ZeroRunIsNotNothing()
    ensures Order("a0b", "ab") < 0
  {
    var a, b := "a0b", "ab";
    assert a[1..] == "0b" && b[1..] == "b";
    assert RunLength(a) == 1;
    assert RunLength("b") == 1 && RunLength(b) == 2;
    assert Head(a) == "a" && Head(b) == "ab";
    assert Compare("", "b") == -1;
    assert "a"[1..] == "" && "ab"[1..] == "b";
    assert CompareRun("a", "ab") == -1;
  }
}
