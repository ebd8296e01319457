/** `pvecli upgrade` (cmd/upgrade.go): a checksum looked up in SHA256SUMS, and a
    binary replaced through a temporary file, on a file system where any step may
    fail or be the last one before a crash. */
module Upgrade {
  import opened Results
  import opened Text

  type Bytes = seq<bv8>

  // ------------------------------------------------------------ checksums

  function WordLength(s: string): (n: nat)
    ensures n <= |s|
    ensures s != "" && !IsSpace(s[0]) ==> n > 0
  {
    if s == "" || IsSpace(s[0]) then 0 else 1 + WordLength(s[1..])
  }

  lemma TrimLeftShortens(s: string)
    ensures |TrimLeft(s)| <= |s|
    ensures TrimLeft(s) != "" ==> !IsSpace(TrimLeft(s)[0])
  {
  }

  /** strings.Fields. */
  function Fields(s: string): seq<string>
    decreases |s|
  {
    var t := TrimLeft(s);
    TrimLeftShortens(s);
    if t == "" then [] else [t[..WordLength(t)]] + Fields(t[WordLength(t)..])
  }

  /** strings.TrimPrefix with "*". */
  function WithoutStar(name: string): string {
    if name != "" && name[0] == '*' then name[1..] else name
  }

  /** The checksum a line gives for the asset, if it is about that asset. */
  function SumOnLine(line: string, asset: string): Option<string> {
    var fields := Fields(line);
    if |fields| == 2 && WithoutStar(fields[1]) == asset then Some(fields[0]) else None
  }

  /** The first line about the asset decides. */
  function FirstSum(lines: seq<string>, asset: string): Option<string> {
    if lines == [] then None
    else if SumOnLine(lines[0], asset).Some? then SumOnLine(lines[0], asset)
    else FirstSum(lines[1..], asset)
  }

  /** sumFor; None is the error that stops the upgrade. */
  method SumFor(sums: string, asset: string) returns (r: Option<string>)
    ensures r == FirstSum(Split(sums, '\n'), asset)
  {
    var lines := Split(sums, '\n');
    var i := 0;
    while i < |lines|
      invariant 0 <= i <= |lines|
      invariant FirstSum(lines[i..], asset) == FirstSum(lines, asset)
    {
      var line := lines[i];
      assert lines[i..][0] == line && lines[i..][1..] == lines[i + 1..];
      i := i + 1;
      var fields := Fields(line);
      if |fields| != 2 {
        continue;
      }
      if WithoutStar(fields[1]) == asset {
        return Some(fields[0]);
      }
    }
    return None;
  }

  /** One line of shasum: the sum, two spaces or a space and a star, the name. */
  datatype SumEntry = SumEntry(sum: string, name: string, binary: bool) {
    function Line(): string {
      sum + (if binary then " *" else "  ") + name
    }

    predicate Plain() {
      && sum != "" && name != "" && name[0] != '*'
      && (forall i | 0 <= i < |sum| :: !IsSpace(sum[i]))
      && (forall i | 0 <= i < |name| :: !IsSpace(name[i]))
    }
  }

  function Lines(entries: seq<SumEntry>): seq<string> {
    if entries == [] then [] else [entries[0].Line()] + Lines(entries[1..])
  }

  function Lookup(entries: seq<SumEntry>, asset: string): Option<string> {
    if entries == [] then None
    else if entries[0].name == asset then Some(entries[0].sum)
    else Lookup(entries[1..], asset)
  }

  lemma {:induction false} WordEndsAtSpace(word: string, rest: string)
    requires forall i | 0 <= i < |word| :: !IsSpace(word[i])
    requires rest == "" || IsSpace(rest[0])
    ensures WordLength(word + rest) == |word|
  {
    if word == "" {
      assert "" + rest == rest;
    } else {
      assert (word + rest)[1..] == word[1..] + rest;
      WordEndsAtSpace(word[1..], rest);
    }
  }

  lemma OneWord(word: string)
    requires word != "" && forall i | 0 <= i < |word| :: !IsSpace(word[i])
    ensures Fields(word) == [word]
  {
    assert word + "" == word;
    WordEndsAtSpace(word, "");
    assert word[|word|..] == "";
    assert Fields("") == [];
  }

  lemma TwoWords(a: string, gap: string, b: string)
    requires a != "" && b != ""
    requires (forall i | 0 <= i < |a| :: !IsSpace(a[i])) && (forall i | 0 <= i < |b| :: !IsSpace(b[i]))
    requires gap == " " || gap == "  "
    ensures Fields(a + gap + b) == [a, b]
  {
    var line, rest := a + gap + b, gap + b;
    assert line == a + rest;
    WordEndsAtSpace(a, rest);
    assert line[..|a|] == a && line[|a|..] == rest;
    SkipGap(gap, b);
    OneWord(b);
  }

  lemma TrimLeftSkips(s: string)
    ensures TrimLeft(" " + s) == TrimLeft(s)
  {
    assert (" " + s)[1..] == s;
  }

  lemma SkipGap(gap: string, b: string)
    requires b != "" && !IsSpace(b[0])
    requires gap == " " || gap == "  "
    ensures TrimLeft(gap + b) == b && TrimLeft(b) == b
  {
    TrimLeftSkips(b);
    if gap == "  " {
      TrimLeftSkips(" " + b);
      assert gap + b == " " + (" " + b);
    }
  }

  /** A line of shasum splits into its two words, whichever spelling it uses. */
  lemma FieldsOfLine(e: SumEntry)
    requires e.Plain()
    ensures Fields(e.Line()) == [e.sum, if e.binary then "*" + e.name else e.name]
  {
    if e.binary {
      assert e.Line() == e.sum + " " + ("*" + e.name);
      TwoWords(e.sum, " ", "*" + e.name);
    } else {
      TwoWords(e.sum, "  ", e.name);
    }
  }

  /** On a file of shasum's lines the lookup finds the entry of the asset, and
      fails exactly when there is none. */
  lemma {:induction false} FirstSumFindsTheEntry(entries: seq<SumEntry>, asset: string)
    requires forall e | e in entries :: e.Plain()
    ensures FirstSum(Lines(entries), asset) == Lookup(entries, asset)
  {
    if entries != [] {
      FieldsOfLine(entries[0]);
      assert ("*" + entries[0].name)[1..] == entries[0].name;
      FirstSumFindsTheEntry(entries[1..], asset);
      assert Lines(entries)[1..] == Lines(entries[1..]);
    }
  }

  // ---------------------------------------------------------- file system

  datatype File = File(bytes: Bytes, mode: int)

  type Disk = map<string, File>

  const PRIVATE := 0x180  // 0600
  const EXECUTABLE := 0x1ED  // 0755

  /** How a step ends. A step that fails or is cut off by a crash may have made
      some progress: bytes written, or for other steps done at all. */
  datatype Fate = Done | Fails(progress: nat) | Crashes(progress: nat)

  datatype Outcome = Success | Failure | Dead

  function OutcomeOf(f: Fate): Outcome {
    match f
    case Done => Success
    case Fails(_) => Failure
    case Crashes(_) => Dead
  }

  /** The disk, and every state it went through: what a crash would have left. */
  class FileSystem {
    var disk: Disk
    var step: nat
    ghost var history: seq<Disk>
    const fate: nat -> Fate
    const freshName: Disk -> string

    constructor (disk: Disk, fate: nat -> Fate, freshName: Disk -> string)
      ensures this.disk == disk && step == 0 && history == []
      ensures this.fate == fate && this.freshName == freshName
    {
      this.disk, this.step, this.history := disk, 0, [];
      this.fate, this.freshName := fate, freshName;
    }

    /** Assumption: CreateTemp picks a name that is not in use. */
    ghost predicate PicksFreshNames() {
      forall d :: freshName(d) !in d
    }

    /** No step fails and nothing crashes. */
    ghost predicate Faultless() {
      forall n :: fate(n) == Done
    }

    method Move(after: Disk)
      modifies this
      ensures disk == after && history == old(history) + [after] && step == old(step) + 1
    {
      disk := after;
      history := history + [after];
      step := step + 1;
    }

    method CreateTemp() returns (o: Outcome, name: string)
      modifies this
      ensures name == freshName(old(disk))
      ensures disk == old(disk) || disk == old(disk)[name := File([], PRIVATE)]
      ensures o == Success ==> disk == old(disk)[name := File([], PRIVATE)]
      ensures o == Failure ==> disk == old(disk)
      ensures history == old(history) + [disk]
      ensures o == OutcomeOf(fate(old(step))) && step == old(step) + 1
    {
      name := freshName(disk);
      var f := fate(step);
      Move(if f == Done || (f.Crashes? && f.progress > 0) then disk[name := File([], PRIVATE)] else disk);
      o := OutcomeOf(f);
    }

    method Write(name: string, content: Bytes) returns (o: Outcome)
      requires name in disk && disk[name].bytes == []
      modifies this
      ensures exists n: nat | n <= |content| :: disk == old(disk)[name := old(disk)[name].(bytes := content[..n])]
      ensures o == Success ==> disk == old(disk)[name := old(disk)[name].(bytes := content)]
      ensures history == old(history) + [disk]
      ensures o == OutcomeOf(fate(old(step))) && step == old(step) + 1
    {
      var f := fate(step);
      var n := if f == Done || f.progress > |content| then |content| else f.progress;
      assert content[..|content|] == content;
      Move(disk[name := disk[name].(bytes := content[..n])]);
      o := OutcomeOf(f);
    }

    method Close() returns (o: Outcome)
      modifies this
      ensures disk == old(disk) && history == old(history) + [disk]
      ensures o == OutcomeOf(fate(old(step))) && step == old(step) + 1
    {
      var f := fate(step);
      Move(disk);
      o := OutcomeOf(f);
    }

    method Chmod(name: string, mode: int) returns (o: Outcome)
      requires name in disk
      modifies this
      ensures disk == old(disk) || disk == old(disk)[name := old(disk)[name].(mode := mode)]
      ensures o == Success ==> disk == old(disk)[name := old(disk)[name].(mode := mode)]
      ensures history == old(history) + [disk]
      ensures o == OutcomeOf(fate(old(step))) && step == old(step) + 1
    {
      var f := fate(step);
      Move(if f == Done || f.progress > 0 then disk[name := disk[name].(mode := mode)] else disk);
      o := OutcomeOf(f);
    }

    /** rename is atomic: before or after, nothing between. */
    method Rename(from: string, to: string) returns (o: Outcome)
      requires from in disk && from != to
      modifies this
      ensures disk == old(disk) || disk == Renamed(old(disk), from, to)
      ensures o == Success ==> disk == Renamed(old(disk), from, to)
      ensures o == Failure ==> disk == old(disk)
      ensures history == old(history) + [disk]
      ensures o == OutcomeOf(fate(old(step))) && step == old(step) + 1
    {
      var f := fate(step);
      Move(if f == Done || (f.Crashes? && f.progress > 0) then Renamed(disk, from, to) else disk);
      o := OutcomeOf(f);
    }

    method Remove(name: string) returns (o: Outcome)
      modifies this
      ensures disk == old(disk) || disk == old(disk) - {name}
      ensures o == Success ==> disk == old(disk) - {name}
      ensures o == Failure ==> disk == old(disk)
      ensures history == old(history) + [disk]
      ensures o == OutcomeOf(fate(old(step))) && step == old(step) + 1
    {
      var f := fate(step);
      Move(if f == Done || (f.Crashes? && f.progress > 0) then disk - {name} else disk);
      o := OutcomeOf(f);
    }
  }

  function Renamed(d: Disk, from: string, to: string): Disk
    requires from in d
  {
    (d - {from})[to := d[from]]
  }

  // --------------------------------------------------------- replacement

  /** A state the replacement may be interrupted in: but for one temporary file,
      the disk is as before, or as before with the complete new binary. */
  ghost predicate Intact(d: Disk, before: Disk, dest: string, content: Bytes, temp: string) {
    var rest := d - {temp};
    rest == before || rest == before[dest := File(content, EXECUTABLE)]
  }

  ghost predicate AllIntact(states: seq<Disk>, before: Disk, dest: string, content: Bytes, temp: string) {
    forall d | d in states :: Intact(d, before, dest, content, temp)
  }

  /** `Dead` is a crash; `swept` says whether the clean-up worked. */
  datatype Replaced = Replaced(outcome: Outcome, swept: bool)

  /** How the steps up to the rename end when they start at step n, and which step
      comes next. A failed write is followed by a close. */
  function FillCourse(fate: nat -> Fate, n: nat): (Outcome, nat) {
    var write, next := OutcomeOf(fate(n)), OutcomeOf(fate(n + 1));
    if write == Dead then (Dead, n + 1)
    else if write == Failure then (if next == Dead then Dead else Failure, n + 2)
    else if next != Success then (next, n + 2)
    else (OutcomeOf(fate(n + 2)), n + 3)
  }

  /** How the rename, if the file was filled, and the clean-up end. */
  function SettleCourse(fate: nat -> Fate, filled: Outcome, n: nat): Replaced {
    var rename := if filled == Success then OutcomeOf(fate(n)) else filled;
    var removal := OutcomeOf(fate(if filled == Success then n + 1 else n));
    if rename == Dead || removal == Dead then Replaced(Dead, false) else Replaced(rename, removal == Success)
  }

  /** How a replacement that starts at step n ends, for any schedule of failures
      and crashes. A file that was never created needs no clean-up. */
  function Course(fate: nat -> Fate, n: nat): Replaced {
    var create, fill := OutcomeOf(fate(n)), FillCourse(fate, n + 1);
    if create == Failure then Replaced(Failure, true)
    else if create == Dead || fill.0 == Dead then Replaced(Dead, false)
    else SettleCourse(fate, fill.0, fill.1)
  }

  /** replaceBinary. */
  method ReplaceBinary(fs: FileSystem, dest: string, content: Bytes) returns (r: Replaced, ghost temp: string)
    requires fs.PicksFreshNames() && dest in fs.disk
    modifies fs
    ensures temp !in old(fs.disk)
    ensures old(fs.history) <= fs.history
    ensures AllIntact(fs.history[|old(fs.history)|..], old(fs.disk), dest, content, temp)
    ensures r == Course(fs.fate, old(fs.step))
    ensures r.outcome == Success ==> fs.disk == old(fs.disk)[dest := File(content, EXECUTABLE)]
    ensures r.outcome == Failure ==> fs.disk - {temp} == old(fs.disk)
    ensures r.outcome == Failure ==> (r.swept <==> temp !in fs.disk)
  {
    ghost var before, start := fs.disk, |fs.history|;
    var o, name := fs.CreateTemp();
    temp := name;
    assert fs.history[start..] == [fs.disk];
    if o != Success {
      return Replaced(o, o == Failure), temp;
    }
    ghost var created := fs.history;
    o := Fill(fs, name, content, before, dest);
    HistoryGrows(created, fs.history, start);
    if o == Dead {
      return Replaced(Dead, false), temp;
    }
    ghost var filled := fs.history;
    r := Settle(fs, o, name, dest, content, before);
    HistoryGrows(filled, fs.history, start);
  }

  lemma HistoryGrows(earlier: seq<Disk>, later: seq<Disk>, start: nat)
    requires earlier <= later && start <= |earlier|
    ensures later[start..] == earlier[start..] + later[|earlier|..]
  {
  }

  /** The rename, if the file was filled, and the deferred clean-up, on every path
      that has not crashed. */
  method Settle(fs: FileSystem, filled: Outcome, name: string, dest: string, content: Bytes, ghost before: Disk) returns (r: Replaced)
    requires filled != Dead && name !in before && dest in before
    requires name in fs.disk && fs.disk - {name} == before
    requires filled == Success ==> fs.disk[name] == File(content, EXECUTABLE)
    modifies fs
    ensures old(fs.history) <= fs.history
    ensures AllIntact(fs.history[|old(fs.history)|..], before, dest, content, name)
    ensures r == SettleCourse(fs.fate, filled, old(fs.step))
    ensures r.outcome == Success ==> fs.disk == before[dest := File(content, EXECUTABLE)]
    ensures r.outcome == Failure ==> fs.disk - {name} == before && (r.swept <==> name !in fs.disk)
  {
    ghost var start := |fs.history|;
    var o := filled;
    if filled == Success {
      assert Renamed(fs.disk, name, dest) == before[dest := File(content, EXECUTABLE)];
      o := fs.Rename(name, dest);
      assert fs.history[start..] == [fs.disk];
      if o == Dead {
        return Replaced(Dead, false);
      }
    }
    ghost var soFar := fs.history;
    var swept := fs.Remove(name);
    HistoryGrows(soFar, fs.history, start);
    assert fs.history[|soFar|..] == [fs.disk];
    if swept == Dead {
      return Replaced(Dead, false);
    }
    return Replaced(o, swept == Success);
  }

  lemma OnlyTheTemp(before: Disk, d: Disk, name: string)
    requires name !in before && name in d && d == before[name := d[name]]
    ensures d - {name} == before
  {
  }

  /** Everything up to the rename: the temporary file alone is touched. */
  method Fill(fs: FileSystem, name: string, content: Bytes, ghost before: Disk, ghost dest: string) returns (o: Outcome)
    requires name !in before && name != dest && fs.disk == before[name := File([], PRIVATE)]
    modifies fs
    ensures name in fs.disk && fs.disk - {name} == before
    ensures o == Success ==> fs.disk[name] == File(content, EXECUTABLE)
    ensures old(fs.history) <= fs.history
    ensures AllIntact(fs.history[|old(fs.history)|..], before, dest, content, name)
    ensures (o, fs.step) == FillCourse(fs.fate, old(fs.step))
  {
    ghost var start := |fs.history|;
    o := fs.Write(name, content);
    OnlyTheTemp(before, fs.disk, name);
    assert fs.history[start..] == [fs.disk];
    if o == Dead {
      return;
    }
    ghost var soFar := fs.history;
    var closed := fs.Close();
    HistoryGrows(soFar, fs.history, start);
    if o == Failure {
      return if closed == Dead then Dead else Failure;
    }
    if closed != Success {
      return closed;
    }
    soFar := fs.history;
    o := fs.Chmod(name, EXECUTABLE);
    OnlyTheTemp(before, fs.disk, name);
    HistoryGrows(soFar, fs.history, start);
  }

  /** Exactly when a failed replacement leaves its temporary file: when the file
      was created, a later step failed, and so did the removal after it. */
  lemma LeftBehindExactly(fate: nat -> Fate, n: nat)
    ensures Course(fate, n) == Replaced(Failure, false) <==>
      && OutcomeOf(fate(n)) == Success
      && var (filled, next) := FillCourse(fate, n + 1);
         if filled == Success then OutcomeOf(fate(next)) == Failure && OutcomeOf(fate(next + 1)) == Failure
         else filled == Failure && OutcomeOf(fate(next)) == Failure
  {
  }

  /** The disk is full and the directory no longer lets a file be removed. */
  function WriteAndRemovalFail(n: nat): Fate {
    if n == 1 || n == 3 then Fails(0) else Done
  }

  /** Such a schedule, carried through the model: the temporary file is still there
      at the end, although the code means to remove it on every failure path. */
  method FileLeftBehind(disk: Disk, dest: string, content: Bytes, freshName: Disk -> string) returns (left: Disk)
    requires dest in disk && forall d :: freshName(d) !in d
    ensures exists temp :: temp !in disk && temp in left && left - {temp} == disk
  {
    var fs := new FileSystem(disk, WriteAndRemovalFail, freshName);
    var r, temp := ReplaceBinary(fs, dest, content);
    left := fs.disk;
  }

  // ------------------------------------------------------------ the command

  /** What one run of the command meets: the release's tag, the asset name for
      this platform, the two downloads (None: not obtained). */
  datatype Release = Release(tag: Option<string>, asset: Option<string>, binary: Option<Bytes>, sums: Option<string>)

  datatype UpgradeError = LocalBuild | NoTag | UnsupportedPlatform | NoBinary | NoSums | NoSumForAsset | WrongSum | WriteError

  datatype Verdict = Installed | AlreadyCurrent | DryRun | Refused(error: UpgradeError) | Crashed

  /** The bytes the upgrade may install: downloaded, and with the digest that
      SHA256SUMS gives for the asset. */
  ghost predicate Verified(rel: Release, digest: Bytes -> string, content: Bytes) {
    && rel.asset.Some? && rel.sums.Some? && rel.binary == Some(content)
    && FirstSum(Split(rel.sums.value, '\n'), rel.asset.value) == Some(digest(content))
  }

  /** What the destination holds is what it held, or verified bytes in full. */
  ghost predicate SafeDestination(d: Disk, before: Disk, dest: string, rel: Release, digest: Bytes -> string) {
    dest in before && dest in d &&
    (d[dest] == before[dest] || (d[dest].mode == EXECUTABLE && Verified(rel, digest, d[dest].bytes)))
  }

  /** There is a release, and the user wants it: --force, or a released binary of
      another tag. */
  predicate Wanted(installed: string, force: bool, rel: Release) {
    rel.tag.Some? && (force || (installed != "dev" && rel.tag.value != installed))
  }

  /** The steps of upgradeTo before the write. Each refusal is given exactly when
      its cause is the first one met; else the bytes to write are returned. */
  method Screen(installed: string, dryRun: bool, force: bool, rel: Release, digest: Bytes -> string)
    returns (r: Result<Bytes, Verdict>)
    ensures r == Err(Refused(LocalBuild)) <==> installed == "dev" && !force
    ensures r == Err(Refused(NoTag)) <==> rel.tag.None? && (force || installed != "dev")
    ensures r == Err(AlreadyCurrent) <==> rel.tag == Some(installed) && !force && installed != "dev"
    ensures r == Err(Refused(UnsupportedPlatform)) <==> Wanted(installed, force, rel) && rel.asset.None?
    ensures r == Err(DryRun) <==> dryRun && Wanted(installed, force, rel) && rel.asset.Some?
    ensures r == Err(Refused(NoBinary)) <==> Downloads(installed, dryRun, force, rel) && rel.binary.None?
    ensures r == Err(Refused(NoSums)) <==> Downloads(installed, dryRun, force, rel) && rel.binary.Some? && rel.sums.None?
    ensures r == Err(Refused(NoSumForAsset)) <==>
      Downloads(installed, dryRun, force, rel) && rel.binary.Some? && rel.sums.Some? && SumOf(rel).None?
    ensures r == Err(Refused(WrongSum)) <==>
      && Downloads(installed, dryRun, force, rel) && rel.binary.Some? && rel.sums.Some?
      && SumOf(rel).Some? && SumOf(rel).value != digest(rel.binary.value)
    ensures r.Ok? <==> Downloads(installed, dryRun, force, rel) && rel.binary.Some? && Verified(rel, digest, rel.binary.value)
    ensures r.Ok? ==> rel.binary == Some(r.value)
    ensures r.Err? ==> r.error in {AlreadyCurrent, DryRun} || (r.error.Refused? && !r.error.error.WriteError?)
  {
    if installed == "dev" && !force {
      return Err(Refused(LocalBuild));
    }
    if rel.tag.None? {
      return Err(Refused(NoTag));
    }
    if rel.tag.value == installed && !force {
      return Err(AlreadyCurrent);
    }
    if rel.asset.None? {
      return Err(Refused(UnsupportedPlatform));
    }
    if dryRun {
      return Err(DryRun);
    }
    if rel.binary.None? {
      return Err(Refused(NoBinary));
    }
    if rel.sums.None? {
      return Err(Refused(NoSums));
    }
    var want := SumFor(rel.sums.value, rel.asset.value);
    if want.None? {
      return Err(Refused(NoSumForAsset));
    }
    if digest(rel.binary.value) != want.value {
      return Err(Refused(WrongSum));
    }
    return Ok(rel.binary.value);
  }

  /** The run goes as far as downloading. */
  predicate Downloads(installed: string, dryRun: bool, force: bool, rel: Release) {
    !dryRun && Wanted(installed, force, rel) && rel.asset.Some?
  }

  /** The sum SHA256SUMS gives for the asset. */
  ghost function SumOf(rel: Release): Option<string>
    requires rel.sums.Some? && rel.asset.Some?
  {
    FirstSum(Split(rel.sums.value, '\n'), rel.asset.value)
  }

  function VerdictOf(r: Replaced): Verdict {
    match r.outcome
    case Success => Installed
    case Failure => Refused(WriteError)
    case Dead => Crashed
  }

  /** upgradeTo, with SHA-256 as a parameter. The last result tells whether a
      temporary file may be left behind. */
  method UpgradeTo(fs: FileSystem, installed: string, dest: string, dryRun: bool, force: bool, rel: Release,
                   digest: Bytes -> string) returns (v: Verdict, swept: bool)
    requires fs.PicksFreshNames() && dest in fs.disk
    modifies fs
    ensures old(fs.history) <= fs.history
    ensures forall d | d in fs.history[|old(fs.history)|..] :: SafeDestination(d, old(fs.disk), dest, rel, digest)
    ensures v == Installed ==> exists content ::
      Verified(rel, digest, content) && fs.disk == old(fs.disk)[dest := File(content, EXECUTABLE)]
    ensures v.AlreadyCurrent? || v.DryRun? || (v.Refused? && !v.error.WriteError?) ==>
      fs.disk == old(fs.disk) && fs.history == old(fs.history)
    ensures v.Refused? ==> (swept <==> fs.disk == old(fs.disk))
    ensures v.Refused? && !swept ==> exists temp ::
      temp !in old(fs.disk) && temp in fs.disk && fs.disk - {temp} == old(fs.disk)
    ensures v == Refused(WriteError) ==> swept == Course(fs.fate, old(fs.step)).swept
    ensures dryRun ==> fs.disk == old(fs.disk) && fs.history == old(fs.history)
    ensures v == DryRun <==> dryRun && Wanted(installed, force, rel) && rel.asset.Some?
    ensures v == AlreadyCurrent <==> rel.tag == Some(installed) && !force && installed != "dev"
    ensures v == Refused(LocalBuild) <==> installed == "dev" && !force
    ensures v == Refused(NoTag) <==> rel.tag.None? && (force || installed != "dev")
    ensures v == Refused(UnsupportedPlatform) <==> Wanted(installed, force, rel) && rel.asset.None?
    ensures v == Refused(NoBinary) <==> Downloads(installed, dryRun, force, rel) && rel.binary.None?
    ensures v == Refused(NoSums) <==> Downloads(installed, dryRun, force, rel) && rel.binary.Some? && rel.sums.None?
    ensures v == Refused(NoSumForAsset) <==>
      Downloads(installed, dryRun, force, rel) && rel.binary.Some? && rel.sums.Some? && SumOf(rel).None?
    ensures v == Refused(WrongSum) <==>
      && Downloads(installed, dryRun, force, rel) && rel.binary.Some? && rel.sums.Some?
      && SumOf(rel).Some? && SumOf(rel).value != digest(rel.binary.value)
    ensures Downloads(installed, dryRun, force, rel) && rel.binary.Some? && Verified(rel, digest, rel.binary.value) ==>
      match Course(fs.fate, old(fs.step)).outcome
      case Success => v == Installed
      case Failure => v == Refused(WriteError)
      case Dead => v == Crashed
    ensures fs.Faultless() && Downloads(installed, dryRun, force, rel) && rel.binary.Some? ==>
      (v == Installed <==> Verified(rel, digest, rel.binary.value))
  {
    var screened := Screen(installed, dryRun, force, rel, digest);
    if screened.Err? {
      return screened.error, true;
    }
    ghost var before, start := fs.disk, |fs.history|;
    var content := screened.value;
    var r, temp := ReplaceBinary(fs, dest, content);
    forall d | d in fs.history[start..] ensures SafeDestination(d, before, dest, rel, digest) {
      assert Intact(d, before, dest, content, temp);
      assert dest in d - {temp};
    }
    return VerdictOf(r), r.swept;
  }
}
