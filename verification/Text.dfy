/** Text as the Go standard library sees it: byte-wise comparison, splitting
    and joining on a separator, substring search and trimming. */
module Text {

  // ------------------------------------------------------------ comparison

  /** strings.Compare: -1, 0 or 1, on the first differing character, and the
      shorter string first when one is a prefix of the other. */
  function Compare(a: string, b: string): (c: int)
    ensures -1 <= c <= 1
  {
    if a == [] then (if b == [] then 0 else -1)
    else if b == [] then 1
    else if a[0] < b[0] then -1
    else if b[0] < a[0] then 1
    else Compare(a[1..], b[1..])
  }

  lemma {:induction false} CompareIsAntisymmetric(a: string, b: string)
    ensures Compare(a, b) == -Compare(b, a)
    ensures Compare(a, b) == 0 <==> a == b
  {
    if a != [] && b != [] && a[0] == b[0] {
      CompareIsAntisymmetric(a[1..], b[1..]);
      assert a == [a[0]] + a[1..] && b == [b[0]] + b[1..];
    }
  }

  lemma {:induction false} CompareIsTransitive(a: string, b: string, c: string)
    requires Compare(a, b) <= 0 && Compare(b, c) <= 0
    ensures Compare(a, c) <= 0
    ensures Compare(a, b) < 0 || Compare(b, c) < 0 ==> Compare(a, c) < 0
  {
    if a != [] && b != [] && c != [] && a[0] == b[0] == c[0] {
      CompareIsTransitive(a[1..], b[1..], c[1..]);
    }
  }

  /** a comes before b as at position k: they agree up to there, and there a has
      ended or holds the smaller character. */
  predicate LessAt(a: string, b: string, k: nat) {
    && k <= |a| && k < |b| && a[..k] == b[..k]
    && (k == |a| || a[k] < b[k])
  }

  lemma LessAtShifts(a: string, b: string, k: nat)
    requires a != [] && b != [] && a[0] == b[0]
    ensures LessAt(a, b, k + 1) <==> LessAt(a[1..], b[1..], k)
  {
    if k < |a| && k < |b| {
      assert a[..k + 1] == [a[0]] + a[1..][..k] && b[..k + 1] == [b[0]] + b[1..][..k];
    }
  }

  /** The first difference decides, and a proper prefix comes first. */
  lemma {:induction false} CompareIsLexicographic(a: string, b: string)
    ensures Compare(a, b) < 0 <==> exists k: nat :: LessAt(a, b, k)
  {
    if a == [] || b == [] || a[0] != b[0] {
      assert b != [] && (a == [] || a[0] < b[0]) ==> LessAt(a, b, 0);
      assert forall k: nat | k > 0 && LessAt(a, b, k) :: a[..k][0] == b[..k][0];
    } else {
      CompareIsLexicographic(a[1..], b[1..]);
      if Compare(a, b) < 0 {
        var k: nat :| LessAt(a[1..], b[1..], k);
        LessAtShifts(a, b, k);
        assert LessAt(a, b, k + 1);
      }
      if k: nat :| LessAt(a, b, k) {
        assert k > 0;
        LessAtShifts(a, b, k - 1);
      }
    }
  }

  /** The strict order sort.Strings uses. */
  predicate Before(a: string, b: string) {
    Compare(a, b) < 0
  }

  lemma BeforeIsStrictTotal(xs: seq<string>)
    ensures StrictTotalOn(Before, xs)
  {
    forall x, y | x in xs && y in xs && x != y ensures Before(x, y) || Before(y, x) {
      CompareIsAntisymmetric(x, y);
    }
    forall x, y | x in xs && y in xs && Before(x, y) ensures !Before(y, x) {
      CompareIsAntisymmetric(x, y);
    }
    forall x, y, z | x in xs && y in xs && z in xs && Before(x, y) && Before(y, z) ensures Before(x, z) {
      CompareIsTransitive(x, y, z);
    }
  }

  // --------------------------------------------------------------- sorting

  /** `less` is a strict total order on the elements of xs. */
  ghost predicate StrictTotalOn<T(!new)>(less: (T, T) -> bool, xs: seq<T>) {
    && (forall x, y | x in xs && y in xs && less(x, y) :: !less(y, x))
    && (forall x, y | x in xs && y in xs && x != y :: less(x, y) || less(y, x))
    && (forall x, y, z | x in xs && y in xs && z in xs && less(x, y) && less(y, z) :: less(x, z))
  }

  /** What sort.Slice and sort.Strings promise about their result. */
  ghost predicate Sorted<T>(less: (T, T) -> bool, xs: seq<T>) {
    forall i, j | 0 <= i < j < |xs| :: !less(xs[j], xs[i])
  }

  function Insert<T>(less: (T, T) -> bool, x: T, xs: seq<T>): (r: seq<T>) {
    if xs == [] || less(x, xs[0]) then [x] + xs
    else [xs[0]] + Insert(less, x, xs[1..])
  }

  /** A sort by `less`. SortedIsUnique makes the choice of algorithm irrelevant. */
  function Sort<T>(less: (T, T) -> bool, xs: seq<T>): (r: seq<T>) {
    if xs == [] then [] else Insert(less, xs[0], Sort(less, xs[1..]))
  }

  lemma {:induction false} InsertKeepsElements<T>(less: (T, T) -> bool, x: T, xs: seq<T>)
    ensures multiset(Insert(less, x, xs)) == multiset{x} + multiset(xs)
  {
    if xs == [] || less(x, xs[0]) {
    } else {
      InsertKeepsElements(less, x, xs[1..]);
      assert xs == [xs[0]] + xs[1..];
    }
  }

  lemma {:induction false} InsertKeepsSorted<T(!new)>(less: (T, T) -> bool, x: T, xs: seq<T>)
    requires StrictTotalOn(less, [x] + xs) && Sorted(less, xs)
    ensures Sorted(less, Insert(less, x, xs))
  {
    var all := [x] + xs;
    assert x == all[0];
    assert forall i | 0 <= i < |xs| :: xs[i] == all[i + 1];
    if xs == [] {
    } else if less(x, xs[0]) {
      forall j | 0 <= j < |xs| ensures !less(xs[j], x) {
        assert xs[j] in all && xs[0] in all && x in all;
        assert j == 0 || !less(xs[j], xs[0]);
      }
    } else {
      var tail := Insert(less, x, xs[1..]);
      assert forall y | y in [x] + xs[1..] :: y in all;
      InsertKeepsSorted(less, x, xs[1..]);
      InsertKeepsElements(less, x, xs[1..]);
      forall j | 0 <= j < |tail| ensures !less(tail[j], xs[0]) {
        assert tail[j] in multiset(tail);
        assert tail[j] == x || tail[j] in xs[1..];
        if tail[j] != x {
          var k :| 0 <= k < |xs[1..]| && xs[1..][k] == tail[j];
          assert xs[k + 1] == tail[j];
        } else {
          assert x in all && xs[0] in all;
          if less(x, xs[0]) { assert false; }
        }
      }
    }
  }

  lemma {:induction false} SortKeepsElements<T>(less: (T, T) -> bool, xs: seq<T>)
    ensures multiset(Sort(less, xs)) == multiset(xs)
  {
    if xs != [] {
      SortKeepsElements(less, xs[1..]);
      InsertKeepsElements(less, xs[0], Sort(less, xs[1..]));
      assert xs == [xs[0]] + xs[1..];
    }
  }

  lemma StrictTotalOnFewer<T(!new)>(less: (T, T) -> bool, xs: seq<T>, ys: seq<T>)
    requires StrictTotalOn(less, xs) && forall y | y in ys :: y in xs
    ensures StrictTotalOn(less, ys)
  {
  }

  lemma {:induction false} SortOrders<T(!new)>(less: (T, T) -> bool, xs: seq<T>)
    requires StrictTotalOn(less, xs)
    ensures Sorted(less, Sort(less, xs))
  {
    if xs != [] {
      var rest := Sort(less, xs[1..]);
      StrictTotalOnFewer(less, xs, xs[1..]);
      SortOrders(less, xs[1..]);
      SortKeepsElements(less, xs[1..]);
      SameElements(rest, xs[1..]);
      StrictTotalOnFewer(less, xs, [xs[0]] + rest);
      InsertKeepsSorted(less, xs[0], rest);
    }
  }

  /** Sorting permutes its input and leaves it in order. */
  lemma SortSorts<T(!new)>(less: (T, T) -> bool, xs: seq<T>)
    ensures multiset(Sort(less, xs)) == multiset(xs)
    ensures StrictTotalOn(less, xs) ==> Sorted(less, Sort(less, xs))
  {
    SortKeepsElements(less, xs);
    if StrictTotalOn(less, xs) {
      SortOrders(less, xs);
    }
  }

  lemma SortedStartsWithLeast<T(!new)>(less: (T, T) -> bool, xs: seq<T>, y: T)
    requires StrictTotalOn(less, xs) && Sorted(less, xs) && y in xs
    ensures y == xs[0] || less(xs[0], y)
  {
    var i :| 0 <= i < |xs| && xs[i] == y;
    assert xs[0] in xs;
  }

  lemma SameHead<T(!new)>(less: (T, T) -> bool, xs: seq<T>, ys: seq<T>)
    requires multiset(xs) == multiset(ys) && xs != [] && ys != []
    requires StrictTotalOn(less, xs) && Sorted(less, xs) && Sorted(less, ys)
    ensures xs[0] == ys[0]
  {
    SameElements(xs, ys);
    assert xs[0] in xs && ys[0] in ys;
    SortedStartsWithLeast(less, xs, ys[0]);
    SortedStartsWithLeast(less, ys, xs[0]);
  }

  lemma SameTail<T>(xs: seq<T>, ys: seq<T>)
    requires multiset(xs) == multiset(ys) && xs != [] && ys != [] && xs[0] == ys[0]
    ensures multiset(xs[1..]) == multiset(ys[1..])
  {
    assert xs == [xs[0]] + xs[1..] && ys == [ys[0]] + ys[1..];
    assert multiset(xs[1..]) == multiset(xs) - multiset{xs[0]};
    assert multiset(ys[1..]) == multiset(ys) - multiset{ys[0]};
  }

  /** Under a strict total order there is only one sorted arrangement. */
  lemma {:induction false} SortedIsUnique<T(!new)>(less: (T, T) -> bool, xs: seq<T>, ys: seq<T>)
    requires multiset(xs) == multiset(ys)
    requires StrictTotalOn(less, xs) && Sorted(less, xs) && Sorted(less, ys)
    ensures xs == ys
    decreases |xs|
  {
    assert |multiset(xs)| == |xs| && |multiset(ys)| == |ys|;
    if xs != [] {
      SameHead(less, xs, ys);
      SameTail(xs, ys);
      SortedIsUnique(less, xs[1..], ys[1..]);
      assert xs == [xs[0]] + xs[1..] && ys == [ys[0]] + ys[1..];
    }
  }

  lemma SameElements<T>(xs: seq<T>, ys: seq<T>)
    requires multiset(xs) == multiset(ys)
    ensures forall x :: x in xs <==> x in ys
  {
    assert forall x :: x in xs <==> x in multiset(xs);
    assert forall x :: x in ys <==> x in multiset(ys);
  }

  ghost predicate Distinct<T>(xs: seq<T>) {
    forall i, j | 0 <= i < j < |xs| :: xs[i] != xs[j]
  }

  lemma {:induction false} DistinctCountsOne<T>(xs: seq<T>, x: T)
    requires Distinct(xs)
    ensures multiset(xs)[x] == if x in xs then 1 else 0
  {
    if xs != [] {
      assert xs == [xs[0]] + xs[1..];
      DistinctCountsOne(xs[1..], x);
    }
  }

  lemma DistinctPermutation<T>(xs: seq<T>, ys: seq<T>)
    requires Distinct(xs) && Distinct(ys) && forall x :: x in xs <==> x in ys
    ensures multiset(xs) == multiset(ys)
  {
    forall x ensures multiset(xs)[x] == multiset(ys)[x] {
      DistinctCountsOne(xs, x);
      DistinctCountsOne(ys, x);
    }
  }

  // ------------------------------------------------------ substring search

  /** strings.HasPrefix at position k. */
  predicate OccursAt(s: string, sub: string, k: nat) {
    k + |sub| <= |s| && s[k..k + |sub|] == sub
  }

  /** strings.Contains. */
  predicate Contains(s: string, sub: string) {
    exists k | 0 <= k <= |s| :: OccursAt(s, sub, k)
  }

  predicate HasPrefix(s: string, p: string) {
    |p| <= |s| && s[..|p|] == p
  }

  predicate HasSuffix(s: string, p: string) {
    |p| <= |s| && s[|s| - |p|..] == p
  }

  // -------------------------------------------------------- split and join

  /** strings.Join with a one-character separator. */
  function Join(lines: seq<string>, sep: char): (s: string) {
    if lines == [] then []
    else if |lines| == 1 then lines[0]
    else lines[0] + [sep] + Join(lines[1..], sep)
  }

  /** strings.Split with a one-character separator: always at least one field. */
  function Split(s: string, sep: char): (lines: seq<string>)
    ensures |lines| >= 1
  {
    if s == [] then [[]]
    else if s[0] == sep then [[]] + Split(s[1..], sep)
    else Prepended(s[0], Split(s[1..], sep))
  }

  /** A character put before the first field. */
  function Prepended(c: char, lines: seq<string>): seq<string>
    requires lines != []
  {
    [[c] + lines[0]] + lines[1..]
  }

  lemma {:induction false} JoinSplit(s: string, sep: char)
    ensures Join(Split(s, sep), sep) == s
    ensures forall l | l in Split(s, sep) :: sep !in l
  {
    if s != [] {
      JoinSplit(s[1..], sep);
      var rest := Split(s[1..], sep);
      assert s == [s[0]] + s[1..];
      if s[0] == sep {
        assert ([[]] + rest)[1..] == rest;
      } else {
        JoinPrepend(s[0], rest, sep);
      }
    }
  }

  lemma JoinPrepend(c: char, lines: seq<string>, sep: char)
    requires lines != [] && c != sep && forall l | l in lines :: sep !in l
    ensures Join(Prepended(c, lines), sep) == [c] + Join(lines, sep)
    ensures forall l | l in Prepended(c, lines) :: sep !in l
  {
    var longer := Prepended(c, lines);
    assert lines[0] in lines;
    assert longer[1..] == lines[1..];
    if |lines| > 1 {
      assert Join(longer, sep) == [c] + (lines[0] + [sep] + Join(lines[1..], sep));
    }
  }

  lemma SplitOfCons(c: char, s: string, sep: char)
    ensures Split([c] + s, sep) == if c == sep then [[]] + Split(s, sep) else Prepended(c, Split(s, sep))
  {
    assert ([c] + s)[1..] == s;
  }

  lemma PrependedConcat(c: char, a: seq<string>, b: seq<string>)
    requires a != []
    ensures Prepended(c, a + b) == Prepended(c, a) + b
  {
    assert (a + b)[1..] == a[1..] + b;
  }

  lemma ConcatIsAssociative<T>(a: seq<T>, b: seq<T>, c: seq<T>)
    ensures (a + b) + c == a + (b + c)
  {
  }

  lemma SplitConcatStep(c: char, whole: string, front: string, back: seq<string>, sep: char)
    requires Split(whole, sep) == Split(front, sep) + back
    ensures Split([c] + whole, sep) == Split([c] + front, sep) + back
  {
    SplitOfCons(c, whole, sep);
    SplitOfCons(c, front, sep);
    if c == sep {
      ConcatIsAssociative([[]], Split(front, sep), back);
    } else {
      PrependedConcat(c, Split(front, sep), back);
    }
  }

  /** Splitting after a separator concatenates the two field lists. */
  lemma {:induction false} SplitConcat(a: string, b: string, sep: char)
    ensures Split(a + [sep] + b, sep) == Split(a, sep) + Split(b, sep)
  {
    if a == [] {
      assert [] + [sep] + b == [sep] + b;
      SplitOfCons(sep, b, sep);
    } else {
      var front := a[1..];
      SplitConcat(front, b, sep);
      SplitConcatStep(a[0], front + [sep] + b, front, Split(b, sep), sep);
      assert a == [a[0]] + front;
      ConcatIsAssociative([a[0]], front, [sep]);
      ConcatIsAssociative([a[0]], front + [sep], b);
    }
  }

  lemma {:induction false} SplitWithoutSeparator(s: string, sep: char)
    requires sep !in s
    ensures Split(s, sep) == [s]
  {
    if s != [] {
      SplitWithoutSeparator(s[1..], sep);
      assert s == [s[0]] + s[1..];
    }
  }

  lemma {:induction false} JoinConcat(a: seq<string>, b: seq<string>, sep: char)
    requires a != [] && b != []
    ensures Join(a + b, sep) == Join(a, sep) + [sep] + Join(b, sep)
  {
    if |a| == 1 {
      assert (a + b)[1..] == b;
    } else {
      assert (a + b)[1..] == a[1..] + b;
      JoinConcat(a[1..], b, sep);
      assert Join(a + b, sep) == a[0] + [sep] + (Join(a[1..], sep) + [sep] + Join(b, sep));
    }
  }

  /** Splitting undoes joining when no field holds the separator. */
  lemma {:induction false} SplitJoin(lines: seq<string>, sep: char)
    requires lines != [] && forall l | l in lines :: sep !in l
    ensures Split(Join(lines, sep), sep) == lines
  {
    SplitWithoutSeparator(lines[0], sep);
    if |lines| > 1 {
      SplitJoin(lines[1..], sep);
      SplitConcat(lines[0], Join(lines[1..], sep), sep);
    }
  }

  // --------------------------------------------------------------- lengths

  function Total(xs: seq<string>): nat {
    if xs == [] then 0 else |xs[0]| + Total(xs[1..])
  }

  lemma {:induction false} TotalOfConcat(xs: seq<string>, ys: seq<string>)
    ensures Total(xs + ys) == Total(xs) + Total(ys)
  {
    if xs == [] {
      assert [] + ys == ys;
    } else {
      assert (xs + ys)[1..] == xs[1..] + ys;
      TotalOfConcat(xs[1..], ys);
    }
  }

  lemma {:induction false} TotalOfInsert(less: (string, string) -> bool, x: string, xs: seq<string>)
    ensures Total(Insert(less, x, xs)) == |x| + Total(xs) && |Insert(less, x, xs)| == |xs| + 1
  {
    if xs == [] || less(x, xs[0]) {
      assert ([x] + xs)[1..] == xs;
    } else {
      TotalOfInsert(less, x, xs[1..]);
      assert ([xs[0]] + Insert(less, x, xs[1..]))[1..] == Insert(less, x, xs[1..]);
    }
  }

  lemma {:induction false} TotalOfSort(less: (string, string) -> bool, xs: seq<string>)
    ensures Total(Sort(less, xs)) == Total(xs) && |Sort(less, xs)| == |xs|
  {
    if xs != [] {
      TotalOfSort(less, xs[1..]);
      TotalOfInsert(less, xs[0], Sort(less, xs[1..]));
    }
  }

  lemma {:induction false} JoinLength(lines: seq<string>, sep: char)
    requires lines != []
    ensures |Join(lines, sep)| == Total(lines) + |lines| - 1
  {
    if |lines| > 1 {
      JoinLength(lines[1..], sep);
    } else {
      assert lines[1..] == [];
    }
  }

  /** The fields a joined line is read as, line by line. */
  function Cut(lines: seq<string>, sep: char): seq<string> {
    if lines == [] then [""]
    else if |lines| == 1 then Split(lines[0], sep)
    else Split(lines[0], sep) + Cut(lines[1..], sep)
  }

  lemma {:induction false} SplitOfJoin(lines: seq<string>, sep: char)
    ensures Split(Join(lines, sep), sep) == Cut(lines, sep)
  {
    if |lines| > 1 {
      SplitOfJoin(lines[1..], sep);
      SplitConcat(lines[0], Join(lines[1..], sep), sep);
    }
  }

  /** Two lists join to the same line exactly when they are cut alike. */
  lemma SameLine(xs: seq<string>, ys: seq<string>, sep: char)
    ensures Join(xs, sep) == Join(ys, sep) <==> Cut(xs, sep) == Cut(ys, sep)
  {
    SplitOfJoin(xs, sep);
    SplitOfJoin(ys, sep);
    JoinSplit(Join(xs, sep), sep);
    JoinSplit(Join(ys, sep), sep);
  }

  /** Fewer strings are no longer together. */
  lemma {:induction false} TotalOfFewer(xs: seq<string>, ys: seq<string>)
    requires Distinct(xs) && forall x | x in xs :: x in ys
    ensures |xs| <= |ys| && Total(xs) <= Total(ys)
  {
    if xs != [] {
      assert xs[0] in xs;
      var i :| 0 <= i < |ys| && ys[i] == xs[0];
      var rest := ys[..i] + ys[i + 1..];
      forall x | x in xs[1..] ensures x in rest {
        assert x in xs;
        var k :| 0 <= k < |ys| && ys[k] == x;
        assert k != i;
        assert if k < i then rest[k] == x else rest[k - 1] == x;
      }
      TotalOfFewer(xs[1..], rest);
      TotalOfConcat(ys[..i], [ys[i]] + ys[i + 1..]);
      TotalOfConcat(ys[..i], ys[i + 1..]);
      assert ys == ys[..i] + ([ys[i]] + ys[i + 1..]);
      assert ([ys[i]] + ys[i + 1..])[1..] == ys[i + 1..];
    }
  }

  lemma {:induction false} OneField(s: string, sep: char)
    ensures |Split(s, sep)| == 1 ==> sep !in s
  {
    if s != [] {
      OneField(s[1..], sep);
      assert s == [s[0]] + s[1..];
    }
  }

  /** Joined text splits into at least as many fields, and into as many only if no
      line holds the separator. */
  lemma {:induction false} FieldCount(lines: seq<string>, sep: char)
    requires lines != []
    ensures |Split(Join(lines, sep), sep)| >= |lines|
    ensures |Split(Join(lines, sep), sep)| == |lines| ==> forall l | l in lines :: sep !in l
  {
    OneField(lines[0], sep);
    if |lines| > 1 {
      FieldCount(lines[1..], sep);
      SplitConcat(lines[0], Join(lines[1..], sep), sep);
      assert lines == [lines[0]] + lines[1..];
    }
  }

  // -------------------------------------------------------------- trimming

  /** unicode.IsSpace. */
  predicate IsSpace(c: char) {
    || c in {'\t', '\n', '\U{000B}', '\U{000C}', '\r', ' ', '\U{0085}', '\U{00A0}', '\U{1680}'}
    || '\U{2000}' <= c <= '\U{200A}'
    || c in {'\U{2028}', '\U{2029}', '\U{202F}', '\U{205F}', '\U{3000}'}
  }

  function TrimLeft(s: string): (r: string) {
    if s != [] && IsSpace(s[0]) then TrimLeft(s[1..]) else s
  }

  function TrimRight(s: string): (r: string) {
    if s != [] && IsSpace(s[|s| - 1]) then TrimRight(s[..|s| - 1]) else s
  }

  /** strings.TrimSpace. */
  function Trim(s: string): (r: string) {
    TrimRight(TrimLeft(s))
  }

  lemma {:induction false} TrimRightTrims(s: string)
    ensures TrimRight(s) <= s
    ensures TrimRight(s) != [] ==> !IsSpace(TrimRight(s)[|TrimRight(s)| - 1])
  {
    if s != [] && IsSpace(s[|s| - 1]) {
      TrimRightTrims(s[..|s| - 1]);
    }
  }

  lemma {:induction false} TrimLeftTrims(s: string)
    ensures TrimLeft(s) != [] ==> !IsSpace(TrimLeft(s)[0])
  {
    if s != [] && IsSpace(s[0]) {
      TrimLeftTrims(s[1..]);
    }
  }

  predicate AllSpaces(s: string) {
    forall i | 0 <= i < |s| :: IsSpace(s[i])
  }

  lemma {:induction false} TrimLeftDropsSpaces(s: string) returns (k: nat)
    ensures k <= |s| && AllSpaces(s[..k]) && TrimLeft(s) == s[k..]
  {
    if s != [] && IsSpace(s[0]) {
      var n := TrimLeftDropsSpaces(s[1..]);
      k := n + 1;
      assert s[..k] == [s[0]] + s[1..][..n];
      assert s[k..] == s[1..][n..];
    } else {
      k := 0;
      assert s[0..] == s;
    }
  }

  lemma {:induction false} TrimRightDropsSpaces(s: string) returns (k: nat)
    ensures k <= |s| && AllSpaces(s[k..]) && TrimRight(s) == s[..k]
  {
    if s != [] && IsSpace(s[|s| - 1]) {
      var front := s[..|s| - 1];
      k := TrimRightDropsSpaces(front);
      assert s[k..] == front[k..] + [s[|s| - 1]];
      assert s[..k] == front[..k];
    } else {
      k := |s|;
      assert s[..|s|] == s;
    }
  }

  /** Trimming removes nothing but spaces at both ends. */
  lemma TrimRemovesSpaces(s: string)
    ensures exists i, j | 0 <= i <= j <= |s| :: Trim(s) == s[i..j] && AllSpaces(s[..i]) && AllSpaces(s[j..])
  {
    var t := TrimLeft(s);
    var i := TrimLeftDropsSpaces(s);
    var k := TrimRightDropsSpaces(t);
    SliceOfSlice(s, i, k);
    assert Trim(s) == s[i..i + k];
  }

  lemma SliceOfSlice(s: string, i: nat, k: nat)
    requires i + k <= |s|
    ensures s[i..][..k] == s[i..i + k] && s[i..][k..] == s[i + k..]
  {
  }

  /** It leaves none there. */
  lemma TrimLeavesNoSpace(s: string)
    ensures var t := Trim(s); t != "" ==> !IsSpace(t[0]) && !IsSpace(t[|t| - 1])
  {
    TrimLeftTrims(s);
    TrimRightTrims(TrimLeft(s));
  }

  /** Trimming twice is trimming once. */
  lemma TrimIsIdempotent(s: string)
    ensures Trim(Trim(s)) == Trim(s)
  {
    TrimLeftTrims(s);
    TrimRightTrims(TrimLeft(s));
  }
}
