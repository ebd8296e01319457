/** The partial update of a backup job (cmd/backup_job.go:
    changedBackupJobValues): only the flags given are sent, retention counters
    are merged into what the node holds, and an emptied field is deleted by
    name. */
module BackupJob {
  import opened Results
  import opened Text
  import R = Retention

  /** A job as the node holds it: the fields that are set. */
  type Job = map<string, string>

  /** The flags given. `simple` maps each string flag given to its value. */
  datatype Flags = Flags(
    keep: seq<Option<int>>, prune: Option<bool>, vmid: Option<seq<int>>, pool: Option<string>, all: Option<bool>,
    enabled: Option<bool>, simple: map<StringFlag, string>)

  datatype SetError = NegativeCounter(key: string) | NoRetentionLeft | RetentionInert | CannotEmpty(flag: string)

  datatype StringFlag = Schedule | Storage | Mode | Compress | Comment | RunOn | Notes | MailNotification | Mailto

  /** The key a string flag sets. */
  function Key(flag: StringFlag): string {
    match flag
    case Schedule => "schedule"
    case Storage => "storage"
    case Mode => "mode"
    case Compress => "compress"
    case Comment => "comment"
    case RunOn => "node"
    case Notes => "notes-template"
    case MailNotification => "mailnotification"
    case Mailto => "mailto"
  }

  function FlagOf(key: string): Option<StringFlag> {
    if key == "schedule" then Some(Schedule)
    else if key == "storage" then Some(Storage)
    else if key == "mode" then Some(Mode)
    else if key == "compress" then Some(Compress)
    else if key == "comment" then Some(Comment)
    else if key == "node" then Some(RunOn)
    else if key == "notes-template" then Some(Notes)
    else if key == "mailnotification" then Some(MailNotification)
    else if key == "mailto" then Some(Mailto)
    else None
  }

  lemma KeysAreDistinct(flag: StringFlag)
    ensures FlagOf(Key(flag)) == Some(flag)
  {
  }

  /** The other keys of the job are no string flag's. */
  lemma OtherKeys()
    ensures forall key | key in SWITCHES :: FlagOf(key) == None
    ensures FlagOf("delete") == None && "delete" !in SWITCHES
  {
  }

  predicate WellFormed(f: Flags) {
    |f.keep| == 6
  }

  // ------------------------------------------------------- reading the job

  function FieldOf(job: Job, key: string): string {
    if key in job then job[key] else ""
  }

  /** BackupJob.Prunes: remove is on unless it says 0. */
  predicate Prunes(job: Job) {
    "remove" !in job || job["remove"] != "0"
  }

  function Current(job: Job): (counts: seq<int>)
    ensures |counts| == 6
  {
    R.Parse(FieldOf(job, "prune-backups"))
  }

  // --------------------------------------------------------------- retention

  predicate RetentionTouched(f: Flags)
    requires WellFormed(f)
  {
    exists i | 0 <= i < 6 :: f.keep[i].Some?
  }

  /** The counters given, over those the node holds. */
  function Merged(f: Flags, job: Job): (counts: seq<int>)
    requires WellFormed(f)
    ensures |counts| == 6
  {
    seq(6, i requires 0 <= i < 6 => if f.keep[i].Some? then f.keep[i].value else Current(job)[i])
  }

  predicate AllZero(counts: seq<int>) {
    forall i | 0 <= i < |counts| :: counts[i] == 0
  }

  /** The retention part of the update, or the refusal. */
  method MergeRetention(f: Flags, job: Job) returns (r: Result<Option<string>, SetError>)
    requires WellFormed(f)
    ensures r.Ok? <==> RetentionAccepted(f, job)
    ensures r.Ok? ==> r.value == if RetentionTouched(f) then Some(R.Print(Merged(f, job))) else None
    ensures r.Err? ==> match r.error
      case NegativeCounter(key) => exists i | 0 <= i < 6 :: R.KEYS[i] == key && f.keep[i].Some? && f.keep[i].value < 0
      case NoRetentionLeft => RetentionTouched(f) && AllZero(Merged(f, job))
      case RetentionInert => RetentionTouched(f) && !Prunes(job) && !AllZero(Merged(f, job))
      case CannotEmpty(_) => false
  {
    var touched := false;
    var merged := Current(job);
    var i := 0;
    while i < 6
      invariant 0 <= i <= 6 && |merged| == 6
      invariant touched <==> exists j | 0 <= j < i :: f.keep[j].Some?
      invariant forall j | 0 <= j < i && f.keep[j].Some? :: f.keep[j].value >= 0
      invariant forall j | 0 <= j < 6 :: merged[j] == if j < i then Merged(f, job)[j] else Current(job)[j]
    {
      if f.keep[i].Some? {
        touched := true;
        var n := f.keep[i].value;
        if n < 0 {
          return Err(NegativeCounter(R.KEYS[i]));
        }
        merged := merged[i := n];
      }
      i := i + 1;
    }
    assert merged == Merged(f, job);
    if !touched {
      return Ok(None);
    }
    if AllZero(merged) {
      return Err(NoRetentionLeft);
    }
    var printed := R.Print(merged);
    if !Prunes(job) {
      return Err(RetentionInert);
    }
    return Ok(Some(printed));
  }

  predicate RetentionAccepted(f: Flags, job: Job)
    requires WellFormed(f)
  {
    RetentionTouched(f) ==>
      (forall i | 0 <= i < 6 && f.keep[i].Some? :: f.keep[i].value >= 0) && !AllZero(Merged(f, job)) && Prunes(job)
  }

  // ----------------------------------------------------------------- targets

  function Numbers(ids: seq<int>): seq<string> {
    if ids == [] then [] else [Decimal(ids[0])] + Numbers(ids[1..])
  }

  function Decimal(n: int): string {
    if n < 0 then "-" + R.Itoa(-n) else R.Itoa(n)
  }

  /** What Values() renders for vmid: nothing once another target is chosen. */
  function RenderedVmid(f: Flags): string {
    if f.all == Some(true) || (f.pool.Some? && f.pool.value != "") || f.vmid.None? then ""
    else Join(Numbers(f.vmid.value), ',')
  }

  function Switch(on: bool): string {
    if on then "1" else "0"
  }

  // ---------------------------------------------- what the update is to say

  const SWITCHES := {"prune-backups", "remove", "vmid", "pool", "all", "enabled"}

  /** The value a key is set to, if the update sets it. */
  function ValueFor(f: Flags, job: Job, key: string): (v: Option<string>)
    requires WellFormed(f)
  {
    if key in SWITCHES then SwitchValue(f, job, key) else SimpleValue(f, key)
  }

  function SwitchValue(f: Flags, job: Job, key: string): (v: Option<string>)
    requires WellFormed(f)
  {
    if key == "prune-backups" then (if RetentionTouched(f) then Some(R.Print(Merged(f, job))) else None)
    else if key == "remove" then (if f.prune.Some? then Some(Switch(f.prune.value)) else None)
    else if key == "vmid" then (if f.vmid.Some? then Some(RenderedVmid(f)) else None)
    else if key == "pool" then (if f.pool.Some? && f.pool.value != "" then f.pool else None)
    else if key == "all" then (if f.all == Some(true) then Some("1") else None)
    else (if f.enabled.Some? then Some(Switch(f.enabled.value)) else None)
  }

  function SimpleValue(f: Flags, key: string): (v: Option<string>) {
    match FlagOf(key)
    case Some(flag) => if flag in f.simple && f.simple[flag] != "" then Some(f.simple[flag]) else None
    case None => None
  }

  /** The keys the update deletes by name. */
  predicate Deletes(f: Flags, key: string) {
    || (key == "pool" && f.pool == Some(""))
    || (key == "all" && f.all == Some(false))
    || Emptied(f, FlagOf(key))
  }

  predicate Emptied(f: Flags, flag: Option<StringFlag>) {
    flag.Some? && flag.value in f.simple && f.simple[flag.value] == ""
  }

  predicate Accepted(f: Flags, job: Job)
    requires WellFormed(f)
  {
    RetentionAccepted(f, job) && !Emptied(f, Some(Schedule)) && !Emptied(f, Some(Storage))
  }

  // --------------------------------------------------------- the payload

  /** An update: the keys set, and the keys listed under "delete". */
  datatype Update = Update(values: map<string, string>, deletes: seq<string>) {
    /** The request body: url.Values, with the deletes sorted and joined. */
    function Body(): map<string, string> {
      if deletes == [] then values else values["delete" := Join(Sort(Before, deletes), ',')]
    }
  }

  ghost predicate Says(f: Flags, job: Job, u: Update)
    requires WellFormed(f)
  {
    && (forall key :: key in u.values <==> ValueFor(f, job, key).Some?)
    && (forall key | key in u.values :: Some(u.values[key]) == ValueFor(f, job, key))
    && (forall key :: key in u.deletes <==> Deletes(f, key))
    && Distinct(u.deletes)
  }

  // ---------------------------------------------------------- the string flags

  /** One visit to every string flag, in some order: Go leaves the order of a map
      range open. */
  ghost predicate EveryFlagOnce(order: seq<StringFlag>) {
    (forall flag: StringFlag :: flag in order) && Distinct(order)
  }

  ghost predicate SimpleSays(f: Flags, done: seq<StringFlag>, values: map<string, string>, deletes: seq<string>) {
    && (forall key :: key in values <==> SimpleValue(f, key).Some? && FlagOf(key).value in done)
    && (forall key | key in values :: Some(values[key]) == SimpleValue(f, key))
    && (forall key :: key in deletes <==> Emptied(f, FlagOf(key)) && FlagOf(key).value in done)
    && Distinct(deletes)
  }

  lemma KeyOfFlag(flag: StringFlag)
    ensures forall key :: FlagOf(key) == Some(flag) <==> key == Key(flag)
  {
    KeysAreDistinct(flag);
  }

  lemma SkippedFlag(f: Flags, done: seq<StringFlag>, values: map<string, string>, deletes: seq<string>, flag: StringFlag)
    requires SimpleSays(f, done, values, deletes) && flag !in f.simple
    ensures SimpleSays(f, done + [flag], values, deletes)
  {
    assert forall x :: x in done + [flag] <==> x in done || x == flag;
  }

  lemma EmptiedFlag(f: Flags, done: seq<StringFlag>, values: map<string, string>, deletes: seq<string>, flag: StringFlag)
    requires SimpleSays(f, done, values, deletes) && flag !in done && flag in f.simple && f.simple[flag] == ""
    ensures SimpleSays(f, done + [flag], values, deletes + [Key(flag)])
  {
    KeyOfFlag(flag);
    assert forall x :: x in done + [flag] <==> x in done || x == flag;
    assert Key(flag) !in deletes;
  }

  lemma SetFlag(f: Flags, done: seq<StringFlag>, values: map<string, string>, deletes: seq<string>, flag: StringFlag)
    requires SimpleSays(f, done, values, deletes) && flag in f.simple && f.simple[flag] != ""
    ensures SimpleSays(f, done + [flag], values[Key(flag) := f.simple[flag]], deletes)
  {
    KeyOfFlag(flag);
    assert forall x :: x in done + [flag] <==> x in done || x == flag;
  }

  /** The loop over the string flags. A refusal names a flag that was emptied
      though the job needs it. */
  method CollectSimple(f: Flags, order: seq<StringFlag>) returns (r: Result<Update, SetError>)
    requires EveryFlagOnce(order)
    ensures r.Ok? <==> !Emptied(f, Some(Schedule)) && !Emptied(f, Some(Storage))
    ensures r.Ok? ==> SimpleSays(f, order, r.value.values, r.value.deletes)
    ensures r.Err? ==> exists flag | flag in {Schedule, Storage} :: r.error == CannotEmpty(Key(flag)) && Emptied(f, Some(flag))
  {
    var values: map<string, string> := map[];
    var deletes: seq<string> := [];
    var i := 0;
    while i < |order|
      invariant 0 <= i <= |order|
      invariant SimpleSays(f, order[..i], values, deletes)
      invariant forall flag | flag in order[..i] && (flag == Schedule || flag == Storage) :: !Emptied(f, Some(flag))
    {
      var flag := order[i];
      assert flag !in order[..i];
      assert order[..i + 1] == order[..i] + [flag];
      i := i + 1;
      if flag !in f.simple {
        SkippedFlag(f, order[..i - 1], values, deletes, flag);
        continue;
      }
      if f.simple[flag] == "" {
        if flag == Schedule || flag == Storage {
          return Err(CannotEmpty(Key(flag)));
        }
        EmptiedFlag(f, order[..i - 1], values, deletes, flag);
        deletes := deletes + [Key(flag)];
        continue;
      }
      SetFlag(f, order[..i - 1], values, deletes, flag);
      values := values[Key(flag) := f.simple[flag]];
    }
    assert order[..|order|] == order;
    return Ok(Update(values, deletes));
  }

  // ------------------------------------------------------------- the command

  function SetIf(values: map<string, string>, key: string, value: Option<string>): map<string, string> {
    if value.Some? then values[key := value.value] else values
  }

  /** The update so far: what it says about every key but those in `rest`. */
  ghost predicate SaysBut(f: Flags, job: Job, values: map<string, string>, rest: set<string>)
    requires WellFormed(f)
  {
    && (forall key :: key in values <==> key !in rest && ValueFor(f, job, key).Some?)
    && (forall key | key in values :: Some(values[key]) == ValueFor(f, job, key))
  }

  lemma SetOneMore(f: Flags, job: Job, values: map<string, string>, rest: set<string>, key: string, value: Option<string>)
    requires WellFormed(f) && SaysBut(f, job, values, rest + {key}) && key !in rest && value == ValueFor(f, job, key)
    ensures SaysBut(f, job, SetIf(values, key, value), rest)
  {
  }

  lemma SimpleSaysBut(f: Flags, job: Job, order: seq<StringFlag>, values: map<string, string>, deletes: seq<string>)
    requires WellFormed(f) && EveryFlagOnce(order) && SimpleSays(f, order, values, deletes)
    ensures SaysBut(f, job, values, SWITCHES)
  {
    OtherKeys();
  }

  /** The keys other than the string flags' are set one after the other. */
  method AddSwitches(f: Flags, ghost job: Job, retention: Option<string>, values: map<string, string>) returns (v: map<string, string>)
    requires WellFormed(f) && SaysBut(f, job, values, SWITCHES)
    requires retention == ValueFor(f, job, "prune-backups")
    ensures SaysBut(f, job, v, {})
  {
    assert SWITCHES == {"remove", "vmid", "pool", "all", "enabled"} + {"prune-backups"};
    v := AddSwitch(f, job, values, {"remove", "vmid", "pool", "all", "enabled"}, "prune-backups", retention);
    v := AddSwitch(f, job, v, {"vmid", "pool", "all", "enabled"}, "remove", if f.prune.Some? then Some(Switch(f.prune.value)) else None);
    v := AddSwitch(f, job, v, {"pool", "all", "enabled"}, "vmid", if f.vmid.Some? then Some(RenderedVmid(f)) else None);
    v := AddTargets(f, job, v);
  }

  method AddTargets(f: Flags, ghost job: Job, values: map<string, string>) returns (v: map<string, string>)
    requires WellFormed(f) && SaysBut(f, job, values, {"pool", "all", "enabled"})
    ensures SaysBut(f, job, v, {})
  {
    v := AddSwitch(f, job, values, {"all", "enabled"}, "pool", if f.pool.Some? && f.pool.value != "" then f.pool else None);
    v := AddSwitch(f, job, v, {"enabled"}, "all", if f.all == Some(true) then Some("1") else None);
    v := AddSwitch(f, job, v, {}, "enabled", if f.enabled.Some? then Some(Switch(f.enabled.value)) else None);
  }

  method AddSwitch(f: Flags, ghost job: Job, values: map<string, string>, ghost rest: set<string>, key: string, value: Option<string>)
    returns (v: map<string, string>)
    requires WellFormed(f) && SaysBut(f, job, values, rest + {key}) && key !in rest && value == ValueFor(f, job, key)
    ensures SaysBut(f, job, v, rest)
  {
    SetOneMore(f, job, values, rest, key, value);
    return SetIf(values, key, value);
  }

  /** The fields emptied, "pool" and "all" among them. */
  method AddDeletes(f: Flags, order: seq<StringFlag>, ghost values: map<string, string>, simple: seq<string>) returns (deletes: seq<string>)
    requires EveryFlagOnce(order) && SimpleSays(f, order, values, simple)
    ensures forall key :: key in deletes <==> Deletes(f, key)
    ensures Distinct(deletes)
  {
    OtherKeys();
    deletes := simple;
    if f.pool == Some("") {
      deletes := deletes + ["pool"];
    }
    if f.all == Some(false) {
      deletes := deletes + ["all"];
    }
  }

  /** changedBackupJobValues, before the deletes are joined. */
  method ComposeUpdate(f: Flags, job: Job, order: seq<StringFlag>) returns (r: Result<Update, SetError>)
    requires WellFormed(f) && EveryFlagOnce(order)
    ensures r.Ok? <==> Accepted(f, job)
    ensures r.Ok? ==> Says(f, job, r.value)
  {
    var retention := MergeRetention(f, job);
    if retention.Err? {
      return Err(retention.error);
    }
    var simple := CollectSimple(f, order);
    if simple.Err? {
      return Err(simple.error);
    }
    SimpleSaysBut(f, job, order, simple.value.values, simple.value.deletes);
    var values := AddSwitches(f, job, retention.value, simple.value.values);
    var deletes := AddDeletes(f, order, simple.value.values, simple.value.deletes);
    return Ok(Update(values, deletes));
  }

  /** changedBackupJobValues: the request body. */
  method ChangedBackupJobValues(f: Flags, job: Job, order: seq<StringFlag>) returns (r: Result<map<string, string>, SetError>)
    requires WellFormed(f) && EveryFlagOnce(order)
    ensures r.Ok? <==> Accepted(f, job)
    ensures r.Ok? ==> exists u: Update :: Says(f, job, u) && r.value == u.Body()
  {
    var u := ComposeUpdate(f, job, order);
    if u.Err? {
      return Err(u.error);
    }
    return Ok(u.value.Body());
  }

  // ---------------------------------------------------------- what it means

  /** The order in which Go visits the flags does not show in the request. */
  lemma BodyIgnoresTheOrder(f: Flags, job: Job, u: Update, v: Update)
    requires WellFormed(f) && Says(f, job, u) && Says(f, job, v)
    ensures u.Body() == v.Body()
  {
    assert u.values == v.values;
    DistinctPermutation(u.deletes, v.deletes);
    SortSorts(Before, u.deletes);
    SortSorts(Before, v.deletes);
    BeforeIsStrictTotal(Sort(Before, u.deletes));
    BeforeIsStrictTotal(u.deletes);
    BeforeIsStrictTotal(v.deletes);
    SortedIsUnique(Before, Sort(Before, u.deletes), Sort(Before, v.deletes));
    assert u.deletes == [] <==> v.deletes == [] by {
      assert |multiset(u.deletes)| == |u.deletes| && |multiset(v.deletes)| == |v.deletes|;
    }
  }

  const TARGETS := {"vmid", "pool", "all"}

  /** The node's PUT, as assumed: listed keys are deleted, sent keys are set, and
      setting one of the three targets clears the other two. */
  function NodePut(job: Job, body: map<string, string>): Job {
    var dropped := if "delete" in body then (set k | k in Split(body["delete"], ',')) else {};
    var sent := body - {"delete"};
    var displaced := if exists t | t in TARGETS :: t in sent then TARGETS - sent.Keys else {};
    ((job - dropped) - displaced) + sent
  }

  predicate SetsTarget(f: Flags) {
    f.vmid.Some? || (f.pool.Some? && f.pool.value != "") || f.all == Some(true)
  }

  lemma KeyIsPlain(flag: StringFlag)
    ensures ',' !in Key(flag)
  {
  }

  lemma DeletedKeysArePlain(f: Flags, key: string)
    requires Deletes(f, key)
    ensures ',' !in key
  {
    if FlagOf(key).Some? {
      var flag := FlagOf(key).value;
      KeyOfFlag(flag);
      KeyIsPlain(flag);
    }
  }

  lemma DeleteIsNoField(f: Flags, job: Job, u: Update)
    requires WellFormed(f) && Says(f, job, u)
    ensures "delete" !in u.values
  {
    OtherKeys();
  }

  lemma SortedSplits(deletes: seq<string>)
    requires deletes != [] && forall k | k in deletes :: ',' !in k
    ensures forall k :: k in Split(Join(Sort(Before, deletes), ','), ',') <==> k in deletes
  {
    var sorted := Sort(Before, deletes);
    SortSorts(Before, deletes);
    SameElements(sorted, deletes);
    assert deletes[0] in sorted;
    SplitJoin(sorted, ',');
  }

  /** The node reads back the deletes it is sent. */
  lemma DroppedAreDeleted(f: Flags, job: Job, u: Update)
    requires WellFormed(f) && Says(f, job, u)
    ensures var body := u.Body();
      && ("delete" in body <==> u.deletes != [])
      && ("delete" in body ==> forall k :: k in Split(body["delete"], ',') <==> k in u.deletes)
      && body - {"delete"} == u.values
  {
    DeleteIsNoField(f, job, u);
    if u.deletes != [] {
      forall k | k in u.deletes ensures ',' !in k {
        DeletedKeysArePlain(f, k);
      }
      SortedSplits(u.deletes);
    }
  }

  /** A key is set, deleted, or neither; never set and deleted at once. */
  lemma NeverSetAndDeleted(f: Flags, job: Job, key: string)
    requires WellFormed(f) && Deletes(f, key)
    ensures ValueFor(f, job, key).None?
  {
    OtherKeys();
  }

  /** Applying an accepted update gives each field passed its value, removes each
      field emptied, and leaves every other field alone, but for the two targets
      the node clears when it is given a third. */
  lemma OnlyPassedFieldsChange(f: Flags, job: Job, u: Update, key: string)
    requires WellFormed(f) && Accepted(f, job) && Says(f, job, u)
    ensures var after := NodePut(job, u.Body());
      if ValueFor(f, job, key).Some? then key in after && after[key] == ValueFor(f, job, key).value
      else if Deletes(f, key) || (key in TARGETS && SetsTarget(f)) then key !in after
      else (key in after <==> key in job) && (key in after ==> after[key] == job[key])
  {
    DroppedAreDeleted(f, job, u);
    var body := u.Body();
    var sent := body - {"delete"};
    assert sent == u.values;
    assert (exists t | t in TARGETS :: t in sent) <==> SetsTarget(f) by {
      assert "vmid" in TARGETS && "pool" in TARGETS && "all" in TARGETS;
      assert "vmid" in sent <==> f.vmid.Some?;
      assert "pool" in sent <==> f.pool.Some? && f.pool.value != "";
      assert "all" in sent <==> f.all == Some(true);
    }
    assert Deletes(f, key) <==> key in u.deletes;
  }

  // ------------------------------------------------- what the job says then

  ghost predicate Carries(after: Job, key: string, value: string) {
    key in after && after[key] == value
  }

  ghost predicate Unmoved(job: Job, after: Job, key: string) {
    (key in after <==> key in job) && (key in after ==> after[key] == job[key])
  }

  /** A field holds what its flag says: unmoved without it, absent when emptied. */
  ghost predicate Follows(f: Flags, flag: StringFlag, job: Job, after: Job, key: string) {
    if flag !in f.simple then Unmoved(job, after, key)
    else if f.simple[flag] == "" then key !in after
    else Carries(after, key, f.simple[flag])
  }

  /** Each string flag arrives in the field of the job it is for. */
  lemma StringFlagsArrive(f: Flags, job: Job, u: Update, flag: StringFlag, key: string)
    requires WellFormed(f) && Accepted(f, job) && Says(f, job, u)
    requires (flag, key) in {
      (Schedule, "schedule"), (Storage, "storage"), (Mode, "mode"), (Compress, "compress"), (Comment, "comment"),
      (RunOn, "node"), (Notes, "notes-template"), (MailNotification, "mailnotification"), (Mailto, "mailto")}
    ensures Follows(f, flag, job, NodePut(job, u.Body()), key)
  {
    assert key == Key(flag);
    KeysAreDistinct(flag);
    OtherKeys();
    assert key !in SWITCHES;
    OnlyPassedFieldsChange(f, job, u, key);
  }

  /** The job is enabled exactly as the flag says, and as it was without the flag; it
      is suspended by a field that says 0. */
  lemma EnabledArrives(f: Flags, job: Job, u: Update)
    requires WellFormed(f) && Accepted(f, job) && Says(f, job, u)
    ensures var after := NodePut(job, u.Body());
      match f.enabled
      case Some(on) => Carries(after, "enabled", if on then "1" else "0")
      case None => Unmoved(job, after, "enabled")
  {
    OtherKeys();
    OnlyPassedFieldsChange(f, job, u, "enabled");
  }

  /** It prunes exactly as the flag says, and as it did without the flag. */
  lemma PruneArrives(f: Flags, job: Job, u: Update)
    requires WellFormed(f) && Accepted(f, job) && Says(f, job, u)
    ensures var after := NodePut(job, u.Body());
      ("remove" in after && after["remove"] == "0") <==>
        match f.prune
        case Some(on) => !on
        case None => "remove" in job && job["remove"] == "0"
  {
    OtherKeys();
    OnlyPassedFieldsChange(f, job, u, "remove");
  }

  /** The pool and the whole-node target are set by their flags, removed by an
      empty pool or --all=false, and cleared by any other target. */
  lemma TargetsArrive(f: Flags, job: Job, u: Update)
    requires WellFormed(f) && Accepted(f, job) && Says(f, job, u)
    ensures var after := NodePut(job, u.Body());
      && (match f.pool
          case Some(pool) => if pool != "" then Carries(after, "pool", pool) else "pool" !in after
          case None => if f.vmid.Some? || f.all == Some(true) then "pool" !in after else Unmoved(job, after, "pool"))
      && (match f.all
          case Some(all) => if all then Carries(after, "all", "1") else "all" !in after
          case None =>
            if f.vmid.Some? || (f.pool.Some? && f.pool.value != "") then "all" !in after else Unmoved(job, after, "all"))
  {
    OtherKeys();
    OnlyPassedFieldsChange(f, job, u, "pool");
    OnlyPassedFieldsChange(f, job, u, "all");
  }

  /** Go's int. */
  predicate IsInt(n: int) {
    -R.MAX_INT - 1 <= n <= R.MAX_INT
  }

  lemma DecimalReadsBack(n: int)
    requires IsInt(n)
    ensures R.Atoi(Decimal(n)) == Some(n) && ',' !in Decimal(n)
  {
    if n >= 0 {
      R.AtoiItoa(n);
      R.DigitsAreNotSeparators(R.Itoa(n));
    } else {
      R.ValueOfItoa(-n);
      R.DigitsAreNotSeparators(R.Itoa(-n));
      assert Decimal(n)[1..] == R.Itoa(-n);
    }
  }

  lemma {:induction false} NumbersReadBack(ids: seq<int>)
    requires forall id | id in ids :: IsInt(id)
    ensures |Numbers(ids)| == |ids|
    ensures forall i | 0 <= i < |ids| :: R.Atoi(Numbers(ids)[i]) == Some(ids[i])
    ensures forall s | s in Numbers(ids) :: ',' !in s
  {
    if ids != [] {
      assert ids[0] in ids;
      DecimalReadsBack(ids[0]);
      NumbersReadBack(ids[1..]);
    }
  }

  /** The guests given, with no other target chosen beside them, are read back from
      the job one by one; beside another target the list is empty, and without the
      flag it stays, unless another target clears it. */
  lemma GuestsArrive(f: Flags, job: Job, u: Update)
    requires WellFormed(f) && Accepted(f, job) && Says(f, job, u)
    requires f.vmid.Some? ==> f.vmid.value != [] && forall id | id in f.vmid.value :: IsInt(id)
    ensures var after := NodePut(job, u.Body());
      var others := f.all == Some(true) || (f.pool.Some? && f.pool.value != "");
      match f.vmid
      case None => if others then "vmid" !in after else Unmoved(job, after, "vmid")
      case Some(ids) =>
        if others then Carries(after, "vmid", "")
        else
          && "vmid" in after
          && var parts := Split(after["vmid"], ',');
             |parts| == |ids| && forall i | 0 <= i < |ids| :: R.Atoi(parts[i]) == Some(ids[i])
  {
    OtherKeys();
    OnlyPassedFieldsChange(f, job, u, "vmid");
    if f.vmid.Some? {
      NumbersReadBack(f.vmid.value);
      SplitJoin(Numbers(f.vmid.value), ',');
    }
  }

  /** No other field moves, and the retention only with a counter. */
  lemma OtherFieldsStay(f: Flags, job: Job, u: Update, key: string)
    requires WellFormed(f) && Accepted(f, job) && Says(f, job, u)
    requires key !in {"schedule", "storage", "mode", "compress", "comment", "node", "notes-template", "mailnotification", "mailto"}
    requires key !in {"remove", "vmid", "pool", "all", "enabled"}
    requires key == "prune-backups" ==> forall i | 0 <= i < 6 :: f.keep[i].None?
    ensures Unmoved(job, NodePut(job, u.Body()), key)
  {
    OnlyPassedFieldsChange(f, job, u, key);
  }

  /** An update is refused exactly when it empties the schedule or the storage, or
      gives a negative counter, leaves no counter, or changes the retention of a
      job that does not prune. */
  lemma RefusedExactly(f: Flags, job: Job)
    requires WellFormed(f)
    ensures !Accepted(f, job) <==>
      || (Schedule in f.simple && f.simple[Schedule] == "")
      || (Storage in f.simple && f.simple[Storage] == "")
      || (exists i | 0 <= i < 6 :: f.keep[i].Some? && f.keep[i].value < 0)
      || ((exists i | 0 <= i < 6 :: f.keep[i].Some?) &&
          (("remove" in job && job["remove"] == "0") ||
           forall i | 0 <= i < 6 :: if f.keep[i].Some? then f.keep[i].value == 0 else Current(job)[i] == 0))
  {
    assert AllZero(Merged(f, job)) <==>
      forall i | 0 <= i < 6 :: if f.keep[i].Some? then f.keep[i].value == 0 else Current(job)[i] == 0 by {
      forall i | 0 <= i < 6 ensures Merged(f, job)[i] == if f.keep[i].Some? then f.keep[i].value else Current(job)[i] {
      }
    }
  }

  // ------------------------------------------------------- retention changes

  function Kept(f: Flags, job: Job, i: nat): int
    requires WellFormed(f) && i < 6
  {
    if f.keep[i].Some? then f.keep[i].value
    else if Current(job)[i] > 0 then Current(job)[i]
    else 0
  }

  /** After an accepted change of retention the node reads back each counter
      given, and each counter not given as it was; a negative one, which the
      printed form cannot carry, comes back as zero. */
  lemma OtherCountersAreKept(f: Flags, job: Job, u: Update)
    requires WellFormed(f) && Accepted(f, job) && Says(f, job, u) && RetentionTouched(f)
    requires forall i | 0 <= i < 6 && f.keep[i].Some? :: f.keep[i].value <= R.MAX_INT
    ensures forall i | 0 <= i < 6 :: Current(NodePut(job, u.Body()))[i] == Kept(f, job, i)
  {
    var after := NodePut(job, u.Body());
    OnlyPassedFieldsChange(f, job, u, "prune-backups");
    assert FieldOf(after, "prune-backups") == R.Print(Merged(f, job));
    assert R.Counters(Merged(f, job)) by {
      forall i | 0 <= i < 6 ensures Merged(f, job)[i] <= R.MAX_INT {
        CurrentIsInRange(job, i);
      }
    }
    R.ParsePrint(Merged(f, job));
  }

  lemma CurrentIsInRange(job: Job, i: nat)
    requires i < 6
    ensures Current(job)[i] <= R.MAX_INT
  {
  }

  /** A job with remove=0 refuses any change of its retention, even with --prune
      in the same command, although the refusal recommends it. */
  lemma PruneInTheSameCommandDoesNotHelp(f: Flags, job: Job)
    requires WellFormed(f) && RetentionTouched(f) && !Prunes(job)
    ensures !Accepted(f, job) && !Accepted(f.(prune := Some(true)), job)
  {
  }

  /** Two commands do: --prune alone is accepted, and after it the change of
      retention is accepted exactly when its counters are. */
  lemma PruneFirstHelps(f: Flags, job: Job, prune: Flags, u: Update)
    requires WellFormed(f) && RetentionTouched(f)
    requires prune == Flags(seq(6, _ => None), Some(true), None, None, None, None, map[])
    requires Says(prune, job, u)
    ensures Accepted(prune, job)
    ensures var after := NodePut(job, u.Body());
      Prunes(after) && Current(after) == Current(job)
      && (RetentionAccepted(f, after) <==>
          (forall i | 0 <= i < 6 && f.keep[i].Some? :: f.keep[i].value >= 0) && !AllZero(Merged(f, job)))
  {
    assert !RetentionTouched(prune);
    OnlyPassedFieldsChange(prune, job, u, "remove");
    OtherKeys();
    OnlyPassedFieldsChange(prune, job, u, "prune-backups");
    var after := NodePut(job, u.Body());
    assert FieldOf(after, "prune-backups") == FieldOf(job, "prune-backups");
    assert Merged(f, after) == Merged(f, job);
  }
}
