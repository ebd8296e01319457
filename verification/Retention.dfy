/** A backup job's retention as the API carries it (internal/pve/backupjob.go,
    internal/pve/optionstring.go): six counters printed into one option string
    and read back from it. */
module Retention {
  import opened Results
  import opened Text
  import V = Versions

  const KEYS: seq<string> := ["keep-last", "keep-hourly", "keep-daily", "keep-weekly", "keep-monthly", "keep-yearly"]

  const MAX_INT := 0x7FFF_FFFF_FFFF_FFFF

  /** One counter for each of KEYS, as Go's int. */
  ghost predicate Counters(counts: seq<int>) {
    |counts| == 6 && forall i | 0 <= i < 6 :: counts[i] <= MAX_INT
  }

  // ------------------------------------------------------------ the numbers

  function DigitChar(d: nat): char
    requires d < 10
  {
    '0' + d as char
  }

  /** strconv.Itoa for a number that is not negative. */
  function Itoa(n: nat): (s: string)
    ensures s != "" && V.AllDigits(s)
  {
    if n < 10 then [DigitChar(n)] else Itoa(n / 10) + [DigitChar(n % 10)]
  }

  /** strconv.Atoi: an optional sign, at least one digit, 64 bits. */
  function Atoi(s: string): Option<int> {
    if V.DigitsOnly(s) then InRange(V.Value(s))
    else if s != "" && s[0] == '+' && V.DigitsOnly(s[1..]) then InRange(V.Value(s[1..]))
    else if s != "" && s[0] == '-' && V.DigitsOnly(s[1..]) then InRange(0 - V.Value(s[1..]))
    else None
  }

  function InRange(n: int): Option<int> {
    if -MAX_INT - 1 <= n <= MAX_INT then Some(n) else None
  }

  lemma AtoiItoa(n: nat)
    requires n <= MAX_INT
    ensures Atoi(Itoa(n)) == Some(n)
  {
    ValueOfItoa(n);
  }

  lemma {:induction false} ValueOfItoa(n: nat)
    ensures V.Value(Itoa(n)) == n
  {
    var d := DigitChar(n % 10);
    assert V.Digit(d) == n % 10;
    if n < 10 {
      assert Itoa(n) == [] + [d];
      V.ValueOfAppended([], d);
    } else {
      ValueOfItoa(n / 10);
      V.ValueOfAppended(Itoa(n / 10), d);
    }
  }

  // ----------------------------------------------------- the option string

  function Pair(key: string, n: nat): string {
    key + "=" + Itoa(n)
  }

  function Pairs(counts: seq<int>, from: nat): seq<string>
    requires |counts| == 6 && from <= 6
    decreases 6 - from
  {
    if from == 6 then []
    else if counts[from] > 0 then [Pair(KEYS[from], counts[from])] + Pairs(counts, from + 1)
    else Pairs(counts, from + 1)
  }

  /** BackupRetention.String. */
  function Print(counts: seq<int>): string
    requires |counts| == 6
  {
    Join(Pairs(counts, 0), ',')
  }

  function CutKey(part: string): (r: Option<(string, string)>) {
    if part == "" then None
    else if part[0] == '=' then Some(("", part[1..]))
    else match CutKey(part[1..])
      case None => None
      case Some((k, v)) => Some(([part[0]] + k, v))
  }

  /** What one part adds; a leading part without "=" is positional. */
  function OneOption(part: string, leading: bool): map<string, string> {
    match CutKey(part)
    case Some((k, v)) => map[k := v]
    case None => if leading then map[] else map[part := ""]
  }

  /** ParseOptionString's map; a later pair of the same key wins. */
  function Options(parts: seq<string>, leading: bool): map<string, string> {
    if parts == [] then map[] else OneOption(parts[0], leading) + Options(parts[1..], false)
  }

  function Counter(options: map<string, string>, key: string): int {
    var n := Atoi(if key in options then options[key] else "");
    if n.Some? then n.value else 0
  }

  /** ParseBackupRetention. */
  function Parse(s: string): (counts: seq<int>)
    ensures |counts| == 6
  {
    var options := if s == "" then map[] else Options(Split(s, ','), true);
    seq(6, i requires 0 <= i < 6 => Counter(options, KEYS[i]))
  }

  /** A single counter is printed under its own key. */
  lemma PrintOfOne(counts: seq<int>, i: nat, key: string)
    requires |counts| == 6 && i < 6 && counts[i] > 0 && forall j | 0 <= j < 6 && j != i :: counts[j] == 0
    requires (i, key) in {
      (0, "keep-last"), (1, "keep-hourly"), (2, "keep-daily"), (3, "keep-weekly"), (4, "keep-monthly"), (5, "keep-yearly")}
    ensures Print(counts) == key + "=" + Itoa(counts[i])
  {
    assert key == KEYS[i];
    NothingFrom(counts, i + 1);
    OnlyFrom(counts, 0, i);
  }

  lemma {:induction false} NothingFrom(counts: seq<int>, from: nat)
    requires |counts| == 6 && from <= 6 && forall j | from <= j < 6 :: counts[j] == 0
    ensures Pairs(counts, from) == []
    decreases 6 - from
  {
    if from < 6 {
      NothingFrom(counts, from + 1);
    }
  }

  lemma {:induction false} OnlyFrom(counts: seq<int>, from: nat, i: nat)
    requires |counts| == 6 && from <= i < 6 && counts[i] > 0 && Pairs(counts, i + 1) == []
    requires forall j | from <= j < i :: counts[j] == 0
    ensures Pairs(counts, from) == [Pair(KEYS[i], counts[i])]
    decreases 6 - from
  {
    if from < i {
      OnlyFrom(counts, from + 1, i);
    }
  }

  // -------------------------------------------------------------- round trip

  lemma {:induction false} CutKeyOfPair(key: string, value: string)
    requires '=' !in key
    ensures CutKey(key + "=" + value) == Some((key, value))
  {
    var part := key + "=" + value;
    if key != "" {
      assert part[1..] == key[1..] + "=" + value;
      CutKeyOfPair(key[1..], value);
      assert key == [key[0]] + key[1..];
    } else {
      assert part[1..] == value;
    }
  }

  lemma KeysArePlain(i: nat)
    requires i < 6
    ensures KEYS[i] != "" && '=' !in KEYS[i] && ',' !in KEYS[i]
    ensures forall j | 0 <= j < 6 && j != i :: KEYS[i] != KEYS[j]
  {
    assert KEYS[0][5] == 'l' && KEYS[1][5] == 'h' && KEYS[2][5] == 'd' && KEYS[3][5] == 'w' && KEYS[4][5] == 'm' && KEYS[5][5] == 'y';
  }

  lemma DigitsAreNotSeparators(s: string)
    requires V.AllDigits(s)
    ensures ',' !in s && '=' !in s
  {
  }

  lemma PairIsPlain(i: nat, n: nat)
    requires i < 6
    ensures ',' !in Pair(KEYS[i], n) && Pair(KEYS[i], n) != ""
    ensures CutKey(Pair(KEYS[i], n)) == Some((KEYS[i], Itoa(n)))
  {
    KeysArePlain(i);
    DigitsAreNotSeparators(Itoa(n));
    CutKeyOfPair(KEYS[i], Itoa(n));
  }

  lemma {:induction false} PairsArePlain(counts: seq<int>, from: nat)
    requires Counters(counts) && from <= 6
    ensures forall p | p in Pairs(counts, from) :: ',' !in p && p != ""
    decreases 6 - from
  {
    if from < 6 {
      PairsArePlain(counts, from + 1);
      if counts[from] > 0 {
        PairIsPlain(from, counts[from]);
      }
    }
  }

  ghost predicate Holds(m: map<string, string>, counts: seq<int>, from: nat)
    requires |counts| == 6
  {
    forall i | 0 <= i < 6 ::
      (KEYS[i] in m <==> from <= i && counts[i] > 0) && (KEYS[i] in m ==> counts[i] > 0 && m[KEYS[i]] == Itoa(counts[i]))
  }

  lemma HoldsOneMore(m: map<string, string>, counts: seq<int>, from: nat)
    requires Counters(counts) && from < 6 && counts[from] > 0 && Holds(m, counts, from + 1)
    ensures Holds(map[KEYS[from] := Itoa(counts[from])] + m, counts, from)
  {
    KeysArePlain(from);
  }

  /** What the printed pairs parse to: the positive counters. */
  lemma {:induction false} OptionsOfPairs(counts: seq<int>, from: nat, leading: bool)
    requires Counters(counts) && from <= 6
    ensures Holds(Options(Pairs(counts, from), leading), counts, from)
    decreases 6 - from
  {
    if from < 6 {
      if counts[from] > 0 {
        OptionsOfPairs(counts, from + 1, false);
        PairIsPlain(from, counts[from]);
        HoldsOneMore(Options(Pairs(counts, from + 1), false), counts, from);
        assert Pairs(counts, from)[1..] == Pairs(counts, from + 1);
      } else {
        OptionsOfPairs(counts, from + 1, leading);
      }
    }
  }

  /** Reading back a printed retention gives the same six counters, but for a
      negative one, which is not printed. */
  lemma ParsePrint(counts: seq<int>)
    requires Counters(counts)
    ensures forall i | 0 <= i < 6 :: Parse(Print(counts))[i] == if counts[i] > 0 then counts[i] else 0
  {
    var pairs := Pairs(counts, 0);
    PairsArePlain(counts, 0);
    OptionsOfPairs(counts, 0, true);
    if pairs != [] {
      SplitJoin(pairs, ',');
      JoinIsNotEmpty(pairs);
    }
    forall i | 0 <= i < 6 ensures Parse(Print(counts))[i] == if counts[i] > 0 then counts[i] else 0 {
      if counts[i] > 0 {
        AtoiItoa(counts[i]);
      }
    }
  }

  lemma JoinIsNotEmpty(parts: seq<string>)
    requires parts != [] && forall p | p in parts :: p != ""
    ensures Join(parts, ',') != ""
  {
    assert parts[0] in parts;
  }

  // ------------------------------------------------------- any other string

  /** The part is a pair of that key. */
  predicate IsPair(key: string, part: string) {
    key + "=" <= part
  }

  lemma {:induction false} CutKeyFindsPairs(key: string, part: string)
    requires '=' !in key
    ensures IsPair(key, part) <==> CutKey(part).Some? && CutKey(part).value.0 == key
  {
    if IsPair(key, part) {
      assert part == key + "=" + part[|key| + 1..];
      CutKeyOfPair(key, part[|key| + 1..]);
    } else if part != "" && part[0] != '=' && key != "" && part[0] == key[0] {
      assert part == [part[0]] + part[1..] && key == [key[0]] + key[1..];
      assert key + "=" == [key[0]] + (key[1..] + "=");
      CutKeyFindsPairs(key[1..], part[1..]);
    }
  }

  /** What one part says of a key, when it names it. */
  lemma OneOptionSays(key: string, part: string, leading: bool)
    requires '=' !in key && key != ""
    ensures var m := OneOption(part, leading);
      && (IsPair(key, part) ==> key in m && m[key] == part[|key| + 1..])
      && (!IsPair(key, part) && key in m ==> part == key && m[key] == "")
  {
    CutKeyFindsPairs(key, part);
    if IsPair(key, part) {
      assert part == key + "=" + part[|key| + 1..];
      CutKeyOfPair(key, part[|key| + 1..]);
    }
  }

  /** The last part that names the key decides. */
  lemma {:induction false} LastPartDecides(key: string, parts: seq<string>, leading: bool, k: nat)
    requires '=' !in key && key != "" && k < |parts| && IsPair(key, parts[k])
    requires forall j | k < j < |parts| :: parts[j] != key && !IsPair(key, parts[j])
    ensures var m := Options(parts, leading); key in m && m[key] == parts[k][|key| + 1..]
    decreases |parts|
  {
    OneOptionSays(key, parts[0], leading);
    if k > 0 {
      LastPartDecides(key, parts[1..], false, k - 1);
    } else {
      NoPartNames(key, parts[1..], false);
    }
  }

  lemma {:induction false} NoPartNames(key: string, parts: seq<string>, leading: bool)
    requires '=' !in key && key != "" && forall p | p in parts :: !IsPair(key, p)
    ensures var m := Options(parts, leading);
      (key in m ==> m[key] == "") && ((forall p | p in parts :: p != key) ==> key !in m)
  {
    if parts != [] {
      assert parts[0] in parts && forall p | p in parts[1..] :: p in parts;
      OneOptionSays(key, parts[0], leading);
      NoPartNames(key, parts[1..], false);
    }
  }

  /** Whatever the node says, a counter is what stands after the last part that
      names it, if that is a number; else, and without such a part, it is zero. */
  lemma ParseReadsTheLastPair(s: string, i: nat, k: nat)
    requires i < 6 && k < |Split(s, ',')| && IsPair(KEYS[i], Split(s, ',')[k])
    requires forall j | k < j < |Split(s, ',')| :: Split(s, ',')[j] != KEYS[i] && !IsPair(KEYS[i], Split(s, ',')[j])
    ensures var n := Atoi(Split(s, ',')[k][|KEYS[i]| + 1..]); Parse(s)[i] == if n.Some? then n.value else 0
  {
    KeysArePlain(i);
    LastPartDecides(KEYS[i], Split(s, ','), true, k);
  }

  lemma ParseWithoutAPair(s: string, i: nat)
    requires i < 6 && forall p | p in Split(s, ',') :: !IsPair(KEYS[i], p)
    ensures Parse(s)[i] == 0
  {
    KeysArePlain(i);
    NoPartNames(KEYS[i], Split(s, ','), true);
    assert Atoi("") == None;
  }
}
