/** `pvecli update check` (cmd/update.go): a one-file cache with two lifetimes in
    front of one HTTP call. */
module UpdateCheck {
  import opened Results

  /** Nanoseconds, as time.Duration counts them. */
  const HOUR := 3_600_000_000_000
  const SUCCESS_TTL := 24 * HOUR
  const FAILURE_TTL := HOUR
  const SCHEMA := 2

  datatype Cache = Cache(schema: int, checkedAt: int, latestTag: string, success: bool)

  datatype Mode = Human | Refresh | Notify

  /** One invocation: when it starts, how long its HTTP call would take, the tag
      GitHub would answer (None: no usable answer), and whether the cache file
      can be written. */
  datatype Call = Call(mode: Mode, force: bool, now: int, took: nat, tag: Option<string>, writable: bool)

  datatype Output = Silent | LocalBuild | Impossible | UpToDate | Available(tag: string)

  /** A call that reached the network. */
  datatype Fetch = Fetch(start: int, end: int, success: bool, tag: string)

  // ------------------------------------------------------------- the rules

  function Ttl(c: Cache): int {
    if c.success then SUCCESS_TTL else FAILURE_TTL
  }

  /** readFreshUpdateCache: `file` is None when there is no readable cache. */
  function Fresh(file: Option<Cache>, now: int): Option<Cache> {
    if file.None? || file.value.schema != SCHEMA || now - file.value.checkedAt >= Ttl(file.value) then None else file
  }

  /** fetchLatestTag: an empty tag is an error. */
  function FetchOf(c: Call): Fetch {
    var ok := c.tag.Some? && c.tag.value != "";
    Fetch(c.now, c.now + c.took, ok, if ok then c.tag.value else "")
  }

  function CacheOf(f: Fetch): Cache {
    Cache(SCHEMA, f.end, f.tag, f.success)
  }

  predicate Fetches(installed: string, file: Option<Cache>, c: Call) {
    installed != "dev" && !c.mode.Notify? && (c.force || Fresh(file, c.now).None?)
  }

  function FileAfter(installed: string, file: Option<Cache>, c: Call): Option<Cache> {
    if Fetches(installed, file, c) && c.writable then Some(CacheOf(FetchOf(c))) else file
  }

  function OutputOf(installed: string, file: Option<Cache>, c: Call): Output {
    if installed == "dev" then (if c.mode.Human? then LocalBuild else Silent)
    else match c.mode
      case Refresh => Silent
      case Notify =>
        var cached := Fresh(file, c.now);
        if cached.None? || cached.value.latestTag == "" || cached.value.latestTag == installed then Silent
        else Available(cached.value.latestTag)
      case Human =>
        var tag := TagSeen(file, c);
        if tag == "" then Impossible else if tag == installed then UpToDate else Available(tag)
  }

  /** The tag resolveLatestTag answers with. */
  function TagSeen(file: Option<Cache>, c: Call): string {
    var cached := Fresh(file, c.now);
    if c.force || cached.None? then FetchOf(c).tag
    else if cached.value.success then cached.value.latestTag
    else ""
  }

  // ------------------------------------------------------------- the code

  class UpdateChecker {
    const installed: string
    var file: Option<Cache>

    method ReadFresh(now: int) returns (c: Option<Cache>)
      ensures c == Fresh(file, now)
    {
      if file.None? || file.value.schema != SCHEMA {
        return None;
      }
      var ttl := FAILURE_TTL;
      if file.value.success {
        ttl := SUCCESS_TTL;
      }
      if now - file.value.checkedAt >= ttl {
        return None;
      }
      return file;
    }

    /** resolveLatestTag. */
    method ResolveLatestTag(c: Call) returns (tag: string)
      modifies this
      ensures tag == TagSeen(old(file), c)
      ensures file == if (c.force || Fresh(old(file), c.now).None?) && c.writable then Some(CacheOf(FetchOf(c))) else old(file)
    {
      if !c.force {
        var cached := ReadFresh(c.now);
        if cached.Some? {
          return if cached.value.success then cached.value.latestTag else "";
        }
      }
      var f := FetchOf(c);
      if c.writable {
        file := Some(Cache(SCHEMA, f.end, f.tag, f.success));
      }
      return f.tag;
    }

    /** runUpdateCheck. */
    method RunUpdateCheck(c: Call) returns (out: Output)
      modifies this
      ensures out == OutputOf(installed, old(file), c)
      ensures file == FileAfter(installed, old(file), c)
    {
      if installed == "dev" {
        return if c.mode.Human? then LocalBuild else Silent;
      }
      if c.mode.Refresh? {
        var tag := ResolveLatestTag(c);
        return Silent;
      }
      if c.mode.Notify? {
        var cached := ReadFresh(c.now);
        if cached.None? || cached.value.latestTag == "" || cached.value.latestTag == installed {
          return Silent;
        }
        return Available(cached.value.latestTag);
      }
      var tag := ResolveLatestTag(c);
      return if tag == "" then Impossible else if tag == installed then UpToDate else Available(tag);
    }
  }

  // ----------------------------------------------------- what a call prints

  /** A cache file of the current schema, younger than a day if it records a
      success, than an hour if it records a failure. */
  predicate StillGood(file: Option<Cache>, now: int) {
    && file.Some? && file.value.schema == 2
    && now - file.value.checkedAt < if file.value.success then 86_400_000_000_000 else 3_600_000_000_000
  }

  lemma FreshIsStillGood(file: Option<Cache>, now: int)
    ensures Fresh(file, now) == if StillGood(file, now) then file else None
  {
    assert SUCCESS_TTL == 86_400_000_000_000;
  }

  /** --notify announces exactly the tag of a cache that is still good, when it is
      not the installed one. */
  lemma NotifyAnnounces(installed: string, file: Option<Cache>, c: Call, tag: string)
    requires c.mode.Notify?
    ensures OutputOf(installed, file, c) == Available(tag) <==>
      installed != "dev" && StillGood(file, c.now) && file.value.latestTag == tag && tag != "" && tag != installed
    ensures OutputOf(installed, file, c).Available? || OutputOf(installed, file, c).Silent?
  {
    FreshIsStillGood(file, c.now);
  }

  /** A human is told, without --force, what a good cache records, and else what
      GitHub answers: a failure, that the binary is up to date, or the other tag. */
  lemma HumanIsTold(installed: string, file: Option<Cache>, c: Call)
    requires c.mode.Human? && installed != "dev"
    ensures var seen :=
        if !c.force && StillGood(file, c.now) then (if file.value.success then Some(file.value.latestTag) else None)
        else c.tag;
      OutputOf(installed, file, c) ==
        if seen == None || seen == Some("") then Impossible
        else if seen == Some(installed) then UpToDate
        else Available(seen.value)
  {
    FreshIsStillGood(file, c.now);
  }

  /** A binary built from source is told so by hand and never asks; --refresh never
      prints. */
  lemma OthersAreSilent(installed: string, file: Option<Cache>, c: Call)
    ensures installed == "dev" ==> OutputOf(installed, file, c) == if c.mode.Human? then LocalBuild else Silent
    ensures installed == "dev" || c.mode.Notify? ==> FileAfter(installed, file, c) == file
    ensures c.mode.Refresh? ==> OutputOf(installed, file, c) == Silent
  {
  }

  /** The other calls rewrite the file exactly when they are forced or find no good
      cache, and can write: with the outcome, dated at the end of the call. */
  lemma FetchIsRecorded(installed: string, file: Option<Cache>, c: Call)
    requires installed != "dev" && !c.mode.Notify?
    ensures FileAfter(installed, file, c) ==
      if !c.writable || (!c.force && StillGood(file, c.now)) then file
      else if c.tag == None || c.tag == Some("") then Some(Cache(2, c.now + c.took, "", false))
      else Some(Cache(2, c.now + c.took, c.tag.value, true))
  {
    FreshIsStillGood(file, c.now);
  }

  // -------------------------------------------------------------- every run

  function FileAfterRun(installed: string, file: Option<Cache>, calls: seq<Call>): Option<Cache> {
    if calls == [] then file
    else FileAfter(installed, FileAfterRun(installed, file, calls[..|calls| - 1]), calls[|calls| - 1])
  }

  /** The network calls of a run, in order. */
  function FetchesOfRun(installed: string, file: Option<Cache>, calls: seq<Call>): seq<Fetch> {
    if calls == [] then []
    else
      var front, last := calls[..|calls| - 1], calls[|calls| - 1];
      var before := FetchesOfRun(installed, file, front);
      if Fetches(installed, FileAfterRun(installed, file, front), last) then before + [FetchOf(last)] else before
  }

  /** No --force, and the cache file can be written. No assumption is made on the
      clock. */
  predicate Ordinary(calls: seq<Call>) {
    forall i | 0 <= i < |calls| :: !calls[i].force && calls[i].writable
  }

  /** The lifetime of the answer a fetch brought back. */
  function Rest(f: Fetch): int {
    if f.success then SUCCESS_TTL else FAILURE_TTL
  }

  /** The file always tells of the last fetch. */
  lemma {:induction false} FileTellsTheLastFetch(installed: string, file: Option<Cache>, calls: seq<Call>)
    requires Ordinary(calls)
    ensures var log := FetchesOfRun(installed, file, calls);
      FileAfterRun(installed, file, calls) == if log == [] then file else Some(CacheOf(log[|log| - 1]))
    decreases |calls|
  {
    if calls != [] {
      FileTellsTheLastFetch(installed, file, calls[..|calls| - 1]);
    }
  }

  /** After a fetch the network is left alone for the lifetime of its answer: a day
      after a success, an hour after a failure. */
  lemma {:induction false} FetchesKeepTheirDistance(installed: string, file: Option<Cache>, calls: seq<Call>)
    requires Ordinary(calls)
    ensures var log := FetchesOfRun(installed, file, calls);
      && (forall i | 0 <= i < |log| :: log[i].start <= log[i].end)
      && (forall i | 0 <= i < |log| - 1 :: log[i + 1].start >= log[i].end + Rest(log[i]))
    decreases |calls|
  {
    if calls != [] {
      var front := calls[..|calls| - 1];
      FetchesKeepTheirDistance(installed, file, front);
      FileTellsTheLastFetch(installed, file, front);
    }
  }

  lemma {:induction false} FetchesSpread(installed: string, file: Option<Cache>, calls: seq<Call>, i: nat, j: nat)
    requires Ordinary(calls) && i <= j < |FetchesOfRun(installed, file, calls)|
    ensures var log := FetchesOfRun(installed, file, calls); log[j].start >= log[i].start + (j - i) * HOUR
    decreases j - i
  {
    if i < j {
      FetchesKeepTheirDistance(installed, file, calls);
      FetchesSpread(installed, file, calls, i, j - 1);
      var log := FetchesOfRun(installed, file, calls);
      assert log[j - 1 + 1].start >= log[j - 1].end + Rest(log[j - 1]);
      assert (j - i) * HOUR == (j - 1 - i) * HOUR + HOUR;
    }
  }

  /** How many fetches of the log start inside the window. */
  function CountIn(log: seq<Fetch>, from: int, length: int): nat {
    if log == [] then 0
    else CountIn(log[..|log| - 1], from, length) + (if from <= log[|log| - 1].start <= from + length then 1 else 0)
  }

  ghost predicate Spread(log: seq<Fetch>) {
    forall i, j | 0 <= i <= j < |log| :: log[j].start >= log[i].start + (j - i) * HOUR
  }

  /** In a spread-out log the fetches of a window are consecutive, so the last one
      counted is at least count - 1 hours after the window opens. */
  lemma {:induction false} CountIsSpread(log: seq<Fetch>, from: int, length: int)
    requires Spread(log)
    ensures CountIn(log, from, length) > 0 ==> exists j | 0 <= j < |log| ::
      from + (CountIn(log, from, length) - 1) * HOUR <= log[j].start <= from + length
    decreases |log|
  {
    if log != [] {
      var front, last := log[..|log| - 1], log[|log| - 1];
      assert Spread(front);
      CountIsSpread(front, from, length);
      var n := CountIn(front, from, length);
      if n > 0 {
        var j :| 0 <= j < |front| && from + (n - 1) * HOUR <= front[j].start <= from + length;
        assert log[j] == front[j];
        if from <= last.start <= from + length {
          assert last.start >= log[j].start + (|log| - 1 - j) * HOUR;
          AtLeastOne(|log| - 1 - j);
          assert from + n * HOUR <= last.start by { assert n * HOUR == (n - 1) * HOUR + HOUR; }
          assert log[|log| - 1].start <= from + length;
        }
      } else if from <= last.start <= from + length {
        assert from + 0 * HOUR <= log[|log| - 1].start <= from + length;
      }
    }
  }

  lemma AtLeastOne(k: int)
    requires k >= 1
    ensures k * HOUR >= HOUR
  {
  }

  /** In any window of the run at most one fetch starts per hour, plus one. */
  lemma WindowBound(installed: string, file: Option<Cache>, calls: seq<Call>, from: int, length: nat)
    requires Ordinary(calls)
    ensures CountIn(FetchesOfRun(installed, file, calls), from, length) <= length / HOUR + 1
  {
    var log := FetchesOfRun(installed, file, calls);
    forall i, j | 0 <= i <= j < |log| ensures log[j].start >= log[i].start + (j - i) * HOUR {
      FetchesSpread(installed, file, calls, i, j);
    }
    CountIsSpread(log, from, length);
    var n := CountIn(log, from, length);
    if n > 0 {
      assert (n - 1) * HOUR <= length;
    }
  }

  // ----------------------------------------------------------------- notify

  /** A cache this program could have written: a failure records no tag. */
  predicate Sincere(file: Option<Cache>) {
    file.Some? && file.value.schema == SCHEMA && !file.value.success ==> file.value.latestTag == ""
  }

  /** What --notify announces at `now` was the answer of a success less than a day
      old: the last fetch of the run or, before any, what the file recorded. */
  lemma NotifyTellsRecentNews(installed: string, file: Option<Cache>, calls: seq<Call>, c: Call)
    requires Ordinary(calls) && Sincere(file) && c.mode.Notify?
    ensures var log := FetchesOfRun(installed, file, calls);
      var out := OutputOf(installed, FileAfterRun(installed, file, calls), c);
      out.Available? ==>
        && out.tag != installed && out.tag != ""
        && (if log != [] then
              var last := log[|log| - 1];
              last.success && last.tag == out.tag && c.now - last.end < SUCCESS_TTL
            else
              file.Some? && file.value.success && file.value.latestTag == out.tag && c.now - file.value.checkedAt < SUCCESS_TTL)
  {
    FileTellsTheLastFetch(installed, file, calls);
  }

  /** Once a run has reached the network, --notify announces exactly the tag its last
      fetch brought back, for a day, if it is not the installed one; after a failure
      it is silent. */
  lemma NotifyAfterAFetch(installed: string, file: Option<Cache>, calls: seq<Call>, c: Call)
    requires Ordinary(calls) && c.mode.Notify? && FetchesOfRun(installed, file, calls) != []
    ensures var log := FetchesOfRun(installed, file, calls); var last := log[|log| - 1];
      OutputOf(installed, FileAfterRun(installed, file, calls), c) ==
        if installed != "dev" && last.success && last.tag != "" && last.tag != installed && c.now - last.end < 86_400_000_000_000
        then Available(last.tag) else Silent
  {
    FileTellsTheLastFetch(installed, file, calls);
    FetchesAreSincere(installed, file, calls);
    FreshIsStillGood(FileAfterRun(installed, file, calls), c.now);
  }

  /** What --notify prints was recorded with a failure. */
  ghost predicate AnnouncesAFailure(installed: string, file: Option<Cache>, c: Call) {
    OutputOf(installed, file, c).Available? && file.Some? && !file.value.success
  }

  /** --notify never looks at the success bit itself. After a run it announces the
      tag of a failure exactly when the run never reached the network and the file
      it started from was a failure, still remembered, with another tag: a file no
      run writes. */
  lemma NotifyTrustsTheTag(installed: string, file: Option<Cache>, calls: seq<Call>, c: Call)
    requires Ordinary(calls) && c.mode.Notify?
    ensures AnnouncesAFailure(installed, FileAfterRun(installed, file, calls), c) <==>
      && FetchesOfRun(installed, file, calls) == [] && installed != "dev"
      && Fresh(file, c.now).Some? && !file.value.success
      && file.value.latestTag != "" && file.value.latestTag != installed
    ensures AnnouncesAFailure(installed, FileAfterRun(installed, file, calls), c) ==> !Sincere(file)
  {
    FileTellsTheLastFetch(installed, file, calls);
    FetchesAreSincere(installed, file, calls);
  }

  lemma {:induction false} FetchesAreSincere(installed: string, file: Option<Cache>, calls: seq<Call>)
    ensures forall f | f in FetchesOfRun(installed, file, calls) :: !f.success ==> f.tag == ""
    decreases |calls|
  {
    if calls != [] {
      FetchesAreSincere(installed, file, calls[..|calls| - 1]);
    }
  }

  /** A run leaves sincere caches sincere, --force and unwritable files included. */
  lemma {:induction false} RunsStaySincere(installed: string, file: Option<Cache>, calls: seq<Call>)
    requires Sincere(file)
    ensures Sincere(FileAfterRun(installed, file, calls))
    decreases |calls|
  {
    if calls != [] {
      RunsStaySincere(installed, file, calls[..|calls| - 1]);
    }
  }
}
