/** Switching a node from the enterprise repositories to the free ones: the plan
    (internal/aptcheck/aptcheck.go: PlanNoSubscription) and the guarded writes
    that carry it out (cmd/node_apt.go: applyNoSub). */
module NoSubscription {
  import opened Results
  import opened Text

  /** One stanza of a sources file. `enterprise` is IsEnterprise(), the test on
      the host of its URIs. */
  datatype Stanza = Stanza(text: string, enterprise: bool, enabled: int)

  datatype RepoFile = RepoFile(path: string, stanzas: seq<Stanza>)

  /** A repository Proxmox knows by handle; no status means not configured. */
  datatype Standard = Standard(handle: string, status: Option<int>) {
    predicate Enabled() {
      status == Some(1)
    }
  }

  datatype Repos = Repos(digest: string, files: seq<RepoFile>, standard: seq<Standard>)

  datatype RepoRef = RepoRef(path: string, index: nat)

  datatype NoSubPlan = NoSubPlan(add: seq<string>, disable: seq<RepoRef>) {
    predicate Empty() {
      add == [] && disable == []
    }
  }

  function FindStandard(standard: seq<Standard>, handle: string): (r: Option<Standard>)
    ensures r.Some? ==> r.value in standard && r.value.handle == handle
    ensures r.None? ==> forall s | s in standard :: s.handle != handle
  {
    if standard == [] then None
    else if standard[0].handle == handle then Some(standard[0])
    else FindStandard(standard[1..], handle)
  }

  predicate IsEnabled(r: Repos, handle: string) {
    var s := FindStandard(r.standard, handle);
    s.Some? && s.value.Enabled()
  }

  // ------------------------------------------------------------------ plan

  const NO_SUBSCRIPTION := "no-subscription"
  const TEST := "test"
  const ENTERPRISE := "enterprise"

  /** An enabled enterprise repository other than PVE's own. */
  predicate NeedsCounterpart(s: Standard) {
    s.handle != ENTERPRISE && s.Enabled() && HasSuffix(s.handle, "-enterprise")
  }

  /** Its free counterpart, of the same release. */
  function Counterpart(s: Standard): string
    requires NeedsCounterpart(s)
  {
    s.handle[..|s.handle| - |ENTERPRISE|] + NO_SUBSCRIPTION
  }

  predicate WantsCounterpart(r: Repos, s: Standard) {
    NeedsCounterpart(s) &&
    var free := FindStandard(r.standard, Counterpart(s));
    free.Some? && !free.value.Enabled()
  }

  function CounterpartsToAdd(r: Repos, standard: seq<Standard>): seq<string> {
    if standard == [] then []
    else
      var rest := CounterpartsToAdd(r, standard[1..]);
      if WantsCounterpart(r, standard[0]) then [Counterpart(standard[0])] + rest else rest
  }

  function StanzasToDisable(path: string, stanzas: seq<Stanza>, from: nat): seq<RepoRef>
    requires from <= |stanzas|
    decreases |stanzas| - from
  {
    if from == |stanzas| then []
    else
      var rest := StanzasToDisable(path, stanzas, from + 1);
      if stanzas[from].enabled == 1 && stanzas[from].enterprise then [RepoRef(path, from)] + rest else rest
  }

  function FilesToDisable(files: seq<RepoFile>): seq<RepoRef> {
    if files == [] then []
    else StanzasToDisable(files[0].path, files[0].stanzas, 0) + FilesToDisable(files[1..])
  }

  function PlanOf(r: Repos): NoSubPlan {
    NoSubPlan(
      (if IsEnabled(r, NO_SUBSCRIPTION) || IsEnabled(r, TEST) then [] else [NO_SUBSCRIPTION])
        + CounterpartsToAdd(r, r.standard),
      FilesToDisable(r.files))
  }

  method PlanNoSubscription(r: Repos) returns (plan: NoSubPlan)
    ensures plan == PlanOf(r)
  {
    var add := CollectAdditions(r);
    var disable := CollectDisables(r.files);
    return NoSubPlan(add, disable);
  }

  method CollectAdditions(r: Repos) returns (add: seq<string>)
    ensures add == PlanOf(r).add
  {
    add := [];
    var s := FindStandard(r.standard, NO_SUBSCRIPTION);
    if s.None? || !s.value.Enabled() {
      var t := FindStandard(r.standard, TEST);
      if t.None? || !t.value.Enabled() {
        add := add + [NO_SUBSCRIPTION];
      }
    }
    var counterparts := CollectCounterparts(r);
    add := add + counterparts;
  }

  method CollectCounterparts(r: Repos) returns (add: seq<string>)
    ensures add == CounterpartsToAdd(r, r.standard)
  {
    add := [];
    var i := 0;
    while i < |r.standard|
      invariant 0 <= i <= |r.standard|
      invariant add + CounterpartsToAdd(r, r.standard[i..]) == CounterpartsToAdd(r, r.standard)
    {
      var s := r.standard[i];
      assert r.standard[i..][0] == s && r.standard[i..][1..] == r.standard[i + 1..];
      i := i + 1;
      if s.handle == ENTERPRISE || !s.Enabled() || !HasSuffix(s.handle, "-enterprise") {
        continue;
      }
      var free := s.handle[..|s.handle| - |ENTERPRISE|] + NO_SUBSCRIPTION;
      var f := FindStandard(r.standard, free);
      if f.Some? && !f.value.Enabled() {
        add := add + [free];
      }
    }
    assert r.standard[|r.standard|..] == [];
  }

  method CollectDisables(files: seq<RepoFile>) returns (disable: seq<RepoRef>)
    ensures disable == FilesToDisable(files)
  {
    disable := [];
    var i := 0;
    while i < |files|
      invariant 0 <= i <= |files|
      invariant disable + FilesToDisable(files[i..]) == FilesToDisable(files)
    {
      var f := files[i];
      assert files[i..][0] == f && files[i..][1..] == files[i + 1..];
      var j := 0;
      ghost var before := disable;
      while j < |f.stanzas|
        invariant 0 <= j <= |f.stanzas|
        invariant disable + StanzasToDisable(f.path, f.stanzas, j) == before + StanzasToDisable(f.path, f.stanzas, 0)
      {
        if f.stanzas[j].enabled == 1 && f.stanzas[j].enterprise {
          disable := disable + [RepoRef(f.path, j)];
        }
        j := j + 1;
      }
      assert disable + [] == disable;
      assert before + (StanzasToDisable(f.path, f.stanzas, 0) + FilesToDisable(files[i + 1..]))
          == disable + FilesToDisable(files[i + 1..]);
      i := i + 1;
    }
    assert files[|files|..] == [];
  }

  // ------------------------------------------------------ reading the files

  /** No two files of one node share a path. */
  ghost predicate UniquePaths(files: seq<RepoFile>) {
    forall i, j | 0 <= i < j < |files| :: files[i].path != files[j].path
  }

  /** The stanza a path and an index address. */
  function StanzaAt(files: seq<RepoFile>, path: string, index: nat): Option<Stanza> {
    if files == [] then None
    else if files[0].path == path then
      (if index < |files[0].stanzas| then Some(files[0].stanzas[index]) else None)
    else StanzaAt(files[1..], path, index)
  }

  ghost predicate ActiveEnterprise(files: seq<RepoFile>, ref: RepoRef) {
    var s := StanzaAt(files, ref.path, ref.index);
    s.Some? && s.value.enabled == 1 && s.value.enterprise
  }

  lemma {:induction false} StanzasToDisableMembers(path: string, stanzas: seq<Stanza>, from: nat)
    requires from <= |stanzas|
    ensures forall ref :: ref in StanzasToDisable(path, stanzas, from) <==>
      ref.path == path && from <= ref.index < |stanzas| && stanzas[ref.index].enabled == 1 && stanzas[ref.index].enterprise
    decreases |stanzas| - from
  {
    if from < |stanzas| {
      StanzasToDisableMembers(path, stanzas, from + 1);
    }
  }

  lemma {:induction false} StanzaAtNamesAFile(files: seq<RepoFile>, path: string, index: nat)
    ensures StanzaAt(files, path, index).Some? ==> exists i | 0 <= i < |files| :: files[i].path == path
  {
    if files != [] && files[0].path != path {
      StanzaAtNamesAFile(files[1..], path, index);
      if StanzaAt(files, path, index).Some? {
        var i :| 0 <= i < |files[1..]| && files[1..][i].path == path;
        assert files[i + 1].path == path;
      }
    }
  }

  /** The plan disables exactly the enabled stanzas on the enterprise mirror. */
  lemma {:induction false} FilesToDisableMembers(files: seq<RepoFile>)
    requires UniquePaths(files)
    ensures forall ref :: ref in FilesToDisable(files) <==> ActiveEnterprise(files, ref)
  {
    if files != [] {
      var f := files[0];
      FilesToDisableMembers(files[1..]);
      StanzasToDisableMembers(f.path, f.stanzas, 0);
      forall ref ensures ref in FilesToDisable(files) <==> ActiveEnterprise(files, ref) {
        if ref.path == f.path {
          StanzaAtNamesAFile(files[1..], ref.path, ref.index);
        }
      }
    }
  }

  lemma {:induction false} CounterpartsMembers(r: Repos, standard: seq<Standard>)
    ensures forall h :: h in CounterpartsToAdd(r, standard) <==>
      exists s | s in standard :: WantsCounterpart(r, s) && h == Counterpart(s)
  {
    if standard != [] {
      CounterpartsMembers(r, standard[1..]);
      assert standard == [standard[0]] + standard[1..];
      forall h ensures h in CounterpartsToAdd(r, standard) <==>
        exists s | s in standard :: WantsCounterpart(r, s) && h == Counterpart(s)
      {
        if h in CounterpartsToAdd(r, standard[1..]) {
          var s :| s in standard[1..] && WantsCounterpart(r, s) && h == Counterpart(s);
          assert s in standard;
        }
      }
    }
  }

  // ----------------------------------------------------- what the plan says

  lemma {:induction false} FirstOfTheHandle(standard: seq<Standard>, handle: string, s: Standard)
    ensures FindStandard(standard, handle) == Some(s) <==> exists i | 0 <= i < |standard| ::
      standard[i] == s && s.handle == handle && forall j | 0 <= j < i :: standard[j].handle != handle
  {
    if standard != [] {
      var rest := standard[1..];
      FirstOfTheHandle(rest, handle, s);
      assert forall i | 0 < i < |standard| :: standard[i] == rest[i - 1];
      if standard[0].handle != handle && FindStandard(rest, handle) == Some(s) {
        var i :| 0 <= i < |rest| && rest[i] == s && s.handle == handle && forall j | 0 <= j < i :: rest[j].handle != handle;
        assert standard[i + 1] == s;
      }
    }
  }

  lemma SuffixIsTheEnd(s: string, x: string, suffix: string)
    ensures s == x + suffix <==> HasSuffix(s, suffix) && x == s[..|s| - |suffix|]
  {
    if HasSuffix(s, suffix) {
      assert s == s[..|s| - |suffix|] + s[|s| - |suffix|..];
    }
  }

  /** A counterpart carries the name of its own release, and only that. */
  lemma CounterpartOfRelease(s: Standard, x: string)
    ensures NeedsCounterpart(s) && Counterpart(s) == x + "-no-subscription" <==>
      s.handle == x + "-enterprise" && s.status == Some(1)
  {
    SuffixIsTheEnd(s.handle, x, "-enterprise");
    assert |"-enterprise"| == |ENTERPRISE| + 1;
    if HasSuffix(s.handle, "-enterprise") {
      var release := s.handle[..|s.handle| - |"-enterprise"|];
      assert s.handle[|s.handle| - |"-enterprise"|] == '-';
      assert s.handle[..|s.handle| - |ENTERPRISE|] == release + "-";
      assert release + "-" + NO_SUBSCRIPTION == release + "-no-subscription";
      SuffixIsTheEnd(x + "-no-subscription", release, "-no-subscription");
      SuffixIsTheEnd(x + "-no-subscription", x, "-no-subscription");
    }
  }

  lemma CounterpartHasItsRelease(s: Standard)
    requires NeedsCounterpart(s)
    ensures exists x :: Counterpart(s) == x + "-no-subscription"
  {
    var x := s.handle[..|s.handle| - |"-enterprise"|];
    SuffixIsTheEnd(s.handle, x, "-enterprise");
    CounterpartOfRelease(s, x);
    assert Counterpart(s) == x + "-no-subscription";
  }

  lemma ReleaseIsNotBare(x: string)
    ensures x + "-no-subscription" != NO_SUBSCRIPTION
  {
    assert |"-no-subscription"| == |NO_SUBSCRIPTION| + 1;
  }

  /** The plan adds the free repository of a release exactly when an enabled
      enterprise repository of the same release is listed, and the free one is
      listed and off. */
  lemma PlanAddsTheSameRelease(r: Repos, x: string)
    ensures x + "-no-subscription" in PlanOf(r).add <==>
      && (exists s | s in r.standard :: s.handle == x + "-enterprise" && s.status == Some(1))
      && var free := FindStandard(r.standard, x + "-no-subscription"); free.Some? && free.value.status != Some(1)
  {
    var h := x + "-no-subscription";
    ReleaseIsNotBare(x);
    CounterpartsMembers(r, r.standard);
    forall s ensures NeedsCounterpart(s) && Counterpart(s) == h <==> s.handle == x + "-enterprise" && s.status == Some(1) {
      CounterpartOfRelease(s, x);
    }
  }

  /** It adds the free PVE repository, first, exactly when neither that one nor the
      test one is on; everything else it adds is the free repository of a release,
      so no test repository is. */
  lemma PlanAddsNothingElse(r: Repos)
    ensures "no-subscription" in PlanOf(r).add <==>
      !(exists s: Standard :: s.status == Some(1) &&
          (FindStandard(r.standard, "no-subscription") == Some(s) || FindStandard(r.standard, "test") == Some(s)))
    ensures "no-subscription" in PlanOf(r).add ==> PlanOf(r).add[0] == "no-subscription"
    ensures forall h | h in PlanOf(r).add && h != "no-subscription" :: exists x :: h == x + "-no-subscription"
  {
    var rest := CounterpartsToAdd(r, r.standard);
    CounterpartsMembers(r, r.standard);
    forall h | h in rest ensures exists x :: h == x + "-no-subscription" {
      var s :| s in r.standard && WantsCounterpart(r, s) && h == Counterpart(s);
      CounterpartHasItsRelease(s);
    }
    forall h | h in rest ensures h != NO_SUBSCRIPTION {
      var x :| h == x + "-no-subscription";
      ReleaseIsNotBare(x);
    }
    assert NO_SUBSCRIPTION in [NO_SUBSCRIPTION];
  }

  /** Additions keep the order in which the node lists the repositories, disablings
      the order of the files and of the stanzas in each. */
  lemma {:induction false} AdditionsInOrder(r: Repos, a: seq<Standard>, b: seq<Standard>)
    ensures CounterpartsToAdd(r, a + b) == CounterpartsToAdd(r, a) + CounterpartsToAdd(r, b)
  {
    if a == [] {
      assert a + b == b;
    } else {
      AdditionsInOrder(r, a[1..], b);
      assert (a + b)[1..] == a[1..] + b;
    }
  }

  lemma {:induction false} FilesInOrder(a: seq<RepoFile>, b: seq<RepoFile>)
    ensures FilesToDisable(a + b) == FilesToDisable(a) + FilesToDisable(b)
  {
    if a == [] {
      assert a + b == b;
    } else {
      FilesInOrder(a[1..], b);
      assert (a + b)[1..] == a[1..] + b;
      ConcatIsAssociative(StanzasToDisable(a[0].path, a[0].stanzas, 0), FilesToDisable(a[1..]), FilesToDisable(b));
    }
  }

  lemma ConcatIsAssociative<T>(a: seq<T>, b: seq<T>, c: seq<T>)
    ensures a + (b + c) == (a + b) + c
  {
  }

  ghost predicate Ascending(refs: seq<RepoRef>) {
    forall i, j | 0 <= i < j < |refs| :: refs[i].index < refs[j].index
  }

  lemma AscendingFrom(first: RepoRef, rest: seq<RepoRef>)
    requires Ascending(rest) && forall ref | ref in rest :: first.index < ref.index
    ensures Ascending([first] + rest)
  {
    var refs := [first] + rest;
    forall i, j | 0 <= i < j < |refs| ensures refs[i].index < refs[j].index {
      assert refs[j] == rest[j - 1] && rest[j - 1] in rest;
      assert i == 0 || refs[i] == rest[i - 1];
    }
  }

  lemma {:induction false} StanzasInOrder(path: string, stanzas: seq<Stanza>, from: nat)
    requires from <= |stanzas|
    ensures Ascending(StanzasToDisable(path, stanzas, from))
    decreases |stanzas| - from
  {
    if from < |stanzas| {
      StanzasInOrder(path, stanzas, from + 1);
      StanzasToDisableMembers(path, stanzas, from + 1);
      AscendingFrom(RepoRef(path, from), StanzasToDisable(path, stanzas, from + 1));
    }
  }

  lemma NoMembers<T>(xs: seq<T>)
    ensures (forall x :: x !in xs) ==> xs == []
  {
    if xs != [] {
      assert xs[0] in xs;
    }
  }

  ghost predicate FreeSource(r: Repos) {
    IsEnabled(r, NO_SUBSCRIPTION) || IsEnabled(r, TEST)
  }

  /** Nothing is left to do exactly when a free PVE repository is on, every
      other enterprise repository has its counterpart on or unknown to the node,
      and no stanza on the enterprise mirror is enabled. */
  lemma EmptyPlanMeansSwitched(r: Repos)
    requires UniquePaths(r.files)
    ensures PlanOf(r).Empty() <==>
      && FreeSource(r)
      && (forall s | s in r.standard :: !WantsCounterpart(r, s))
      && (forall ref :: !ActiveEnterprise(r.files, ref))
  {
    FilesToDisableMembers(r.files);
    CounterpartsMembers(r, r.standard);
    if forall s | s in r.standard :: !WantsCounterpart(r, s) {
      NoMembers(CounterpartsToAdd(r, r.standard));
    }
    if forall ref :: !ActiveEnterprise(r.files, ref) {
      NoMembers(FilesToDisable(r.files));
    }
    forall s | s in r.standard && WantsCounterpart(r, s) ensures CounterpartsToAdd(r, r.standard) != [] {
      assert Counterpart(s) in CounterpartsToAdd(r, r.standard);
    }
    forall ref | ActiveEnterprise(r.files, ref) ensures FilesToDisable(r.files) != [] {
      assert ref in FilesToDisable(r.files);
    }
  }

  // ------------------------------------------------- the node, as assumed

  /** What happened to one call: it was answered, the request never arrived, or
      the answer was lost after the node had acted. */
  datatype Delivery = Answered | RequestLost | AnswerLost

  predicate IsEnterpriseHandle(h: string) {
    HasSuffix(h, ENTERPRISE)
  }

  /** Assumption on PUT: the handle ends up enabled, the other handles keep
      their status; stanzas keep their places, what is added is not on the
      enterprise mirror, and only a stanza off that mirror may be switched on. */
  ghost predicate AddsHandle(r: Repos, handle: string, after: Repos) {
    && UniquePaths(after.files)
    && IsEnabled(after, handle)
    && (forall h | h != handle :: FindStandard(after.standard, h) == FindStandard(r.standard, h))
    && (forall s | s in after.standard && s.handle != handle :: s in r.standard)
    && (forall ref :: StanzaKept(r.files, after.files, ref))
  }

  ghost predicate StanzaKept(before: seq<RepoFile>, after: seq<RepoFile>, ref: RepoRef) {
    var b, a := StanzaAt(before, ref.path, ref.index), StanzaAt(after, ref.path, ref.index);
    if b.Some? then a == b || (a.Some? && !b.value.enterprise && a.value == b.value.(enabled := 1))
    else a.Some? ==> !a.value.enterprise
  }

  /** Assumption on POST enabled=0 for a stanza on the enterprise mirror: that
      stanza is switched off, the others stay as they are, and only the status
      of enterprise handles may fall. */
  ghost predicate DisablesStanza(r: Repos, path: string, index: nat, after: Repos) {
    && UniquePaths(after.files)
    && (forall h | !IsEnterpriseHandle(h) :: FindStandard(after.standard, h) == FindStandard(r.standard, h))
    && (forall s | s in after.standard && s.Enabled() :: s in r.standard)
    && (forall p, i | RepoRef(p, i) != RepoRef(path, index) :: StanzaAt(after.files, p, i) == StanzaAt(r.files, p, i))
    && StanzaAt(r.files, path, index).Some?
    && StanzaAt(after.files, path, index) == Some(StanzaAt(r.files, path, index).value.(enabled := 0))
  }

  /** The handles a node knows: those it lists, and no-subscription. */
  predicate Offers(r: Repos, handle: string) {
    handle == NO_SUBSCRIPTION || FindStandard(r.standard, handle).Some?
  }

  /** A node: its repositories, how it carries out writes (None: it refuses), the
      fate of each call, and how many writes took effect. */
  class AptNode {
    var repos: Repos
    var calls: nat
    ghost var written: nat
    const add: (Repos, string) -> Option<Repos>
    const disable: (Repos, string, nat) -> Option<Repos>
    const delivery: nat -> Delivery

    constructor (repos: Repos, add: (Repos, string) -> Option<Repos>, disable: (Repos, string, nat) -> Option<Repos>,
                 delivery: nat -> Delivery)
      ensures this.repos == repos && this.add == add && this.disable == disable && this.delivery == delivery
    {
      this.repos, this.calls, this.written := repos, 0, 0;
      this.add, this.disable, this.delivery := add, disable, delivery;
    }

    ghost predicate BehavesAsAssumed() {
      && (forall r: Repos, h | UniquePaths(r.files) && !IsEnterpriseHandle(h) && add(r, h).Some? ::
            AddsHandle(r, h, add(r, h).value))
      && (forall r: Repos, p, i | UniquePaths(r.files) && ActiveEnterprise(r.files, RepoRef(p, i)) && disable(r, p, i).Some? ::
            DisablesStanza(r, p, i, disable(r, p, i).value))
    }

    /** Every call is answered and no sound write is refused. */
    ghost predicate Cooperative() {
      && (forall n :: delivery(n) == Answered)
      && (forall r: Repos, h | UniquePaths(r.files) && Offers(r, h) :: add(r, h).Some?)
      && (forall r: Repos, p, i | UniquePaths(r.files) && StanzaAt(r.files, p, i).Some? :: disable(r, p, i).Some?)
    }

    /** The digest sent with a write guards it; an empty one is not sent. */
    predicate Accepts(digest: string)
      reads this
    {
      digest == "" || digest == repos.digest
    }

    method Read() returns (r: Option<Repos>)
      modifies this`calls
      ensures r.Some? ==> r.value == repos
      ensures Cooperative() ==> r.Some?
    {
      var d := delivery(calls);
      calls := calls + 1;
      return if d == Answered then Some(repos) else None;
    }

    method AddStandardRepo(handle: string, digest: string) returns (ok: bool)
      modifies this
      ensures written == old(written) ==> !ok && repos == old(repos)
      ensures written != old(written) ==>
        written == old(written) + 1 && old(Accepts(digest)) && Some(repos) == old(add(repos, handle))
      ensures Cooperative() && old(Accepts(digest)) && UniquePaths(old(repos.files)) && old(Offers(repos, handle)) ==> ok
    {
      var d := delivery(calls);
      calls := calls + 1;
      var after := add(repos, handle);
      if d == RequestLost || !Accepts(digest) || after.None? {
        return false;
      }
      repos, written := after.value, written + 1;
      return d == Answered;
    }

    method DisableRepo(path: string, index: nat, digest: string) returns (ok: bool)
      modifies this
      ensures written == old(written) ==> !ok && repos == old(repos)
      ensures written != old(written) ==>
        written == old(written) + 1 && old(Accepts(digest)) && Some(repos) == old(disable(repos, path, index))
      ensures Cooperative() && old(Accepts(digest)) && UniquePaths(old(repos.files)) ==>
        old(StanzaAt(repos.files, path, index)).Some? ==> ok
    {
      var d := delivery(calls);
      calls := calls + 1;
      var after := disable(repos, path, index);
      if d == RequestLost || !Accepts(digest) || after.None? {
        return false;
      }
      repos, written := after.value, written + 1;
      return d == Answered;
    }
  }

  // -------------------------------------------------------- how far a run is

  ghost function Elements<T>(xs: seq<T>): set<T> {
    set x | x in xs
  }

  lemma ElementsStep<T>(xs: seq<T>, i: nat)
    requires i < |xs|
    ensures Elements(xs[..i + 1]) == Elements(xs[..i]) + {xs[i]}
  {
    assert xs[..i + 1] == xs[..i] + [xs[i]];
  }

  /** `now` is `before` after adding `added` and disabling `disabled`. */
  ghost predicate Progress(before: Repos, now: Repos, added: set<string>, disabled: set<RepoRef>) {
    && UniquePaths(now.files)
    && (forall h | h in added :: IsEnabled(now, h))
    && (forall h | !IsEnterpriseHandle(h) && h !in added :: FindStandard(now.standard, h) == FindStandard(before.standard, h))
    && (forall s | s in now.standard && s.Enabled() && IsEnterpriseHandle(s.handle) :: s in before.standard)
    && (forall ref :: Touched(before.files, now.files, ref, disabled))
  }

  /** A planned stanza is only ever switched off; any other is as it was, unless
      it is off the enterprise mirror and was switched on. */
  ghost predicate Touched(before: seq<RepoFile>, now: seq<RepoFile>, ref: RepoRef, disabled: set<RepoRef>) {
    var b, n := StanzaAt(before, ref.path, ref.index), StanzaAt(now, ref.path, ref.index);
    if ref in disabled then b.Some? && n == Some(b.value.(enabled := 0))
    else StanzaKept(before, now, ref)
  }

  lemma ProgressStarts(r: Repos)
    requires UniquePaths(r.files)
    ensures Progress(r, r, {}, {})
  {
  }

  lemma ProgressAdds(before: Repos, now: Repos, after: Repos, added: set<string>, handle: string)
    requires Progress(before, now, added, {}) && AddsHandle(now, handle, after)
    requires !IsEnterpriseHandle(handle)
    ensures Progress(before, after, added + {handle}, {})
  {
    forall h | h in added + {handle} ensures IsEnabled(after, h) {
    }
    forall ref ensures Touched(before.files, after.files, ref, {}) {
      assert Touched(before.files, now.files, ref, {});
      assert StanzaKept(now.files, after.files, ref);
    }
  }

  lemma ProgressDisables(before: Repos, now: Repos, after: Repos, added: set<string>, disabled: set<RepoRef>, ref: RepoRef)
    requires Progress(before, now, added, disabled) && DisablesStanza(now, ref.path, ref.index, after)
    requires ActiveEnterprise(before.files, ref) && ref !in disabled
    requires forall h | h in added :: !IsEnterpriseHandle(h)
    ensures Progress(before, after, added, disabled + {ref})
  {
    forall h | h in added ensures IsEnabled(after, h) {
      assert IsEnabled(now, h);
    }
    forall x ensures Touched(before.files, after.files, x, disabled + {ref}) {
      assert Touched(before.files, now.files, x, disabled);
      if x != ref {
        assert StanzaAt(after.files, x.path, x.index) == StanzaAt(now.files, x.path, x.index);
      }
    }
  }

  lemma PlannedHandles(before: Repos)
    ensures forall h | h in PlanOf(before).add :: !IsEnterpriseHandle(h)
    ensures forall s | s in before.standard && WantsCounterpart(before, s) :: Counterpart(s) in PlanOf(before).add
    ensures !FreeSource(before) ==> NO_SUBSCRIPTION in PlanOf(before).add
  {
    CounterpartsMembers(before, before.standard);
    forall h | h in PlanOf(before).add ensures !IsEnterpriseHandle(h) {
      if h != NO_SUBSCRIPTION {
        var s :| s in before.standard && WantsCounterpart(before, s) && h == Counterpart(s);
      }
      assert HasSuffix(h, NO_SUBSCRIPTION);
      assert h[|h| - 1] == 'n';
    }
  }

  /** Once every addition is made, a free PVE repository is on. */
  lemma AdditionsGiveFreeSource(before: Repos, now: Repos, disabled: set<RepoRef>)
    requires Progress(before, now, Elements(PlanOf(before).add), disabled)
    ensures FreeSource(now)
  {
    PlannedHandles(before);
    assert TEST[|TEST| - 1] == 't' && ENTERPRISE[|ENTERPRISE| - 1] == 'e' && NO_SUBSCRIPTION[|NO_SUBSCRIPTION| - 1] == 'n';
    assert !IsEnterpriseHandle(TEST) && !IsEnterpriseHandle(NO_SUBSCRIPTION);
  }

  /** A run that got to its end leaves nothing to plan. */
  lemma DoneMeansEmptyPlan(before: Repos, now: Repos)
    requires UniquePaths(before.files)
    requires Progress(before, now, Elements(PlanOf(before).add), Elements(PlanOf(before).disable))
    ensures PlanOf(now).Empty()
  {
    AdditionsGiveFreeSource(before, now, Elements(PlanOf(before).disable));
    PlannedHandles(before);
    FilesToDisableMembers(before.files);
    forall s | s in now.standard ensures !WantsCounterpart(now, s) {
      if NeedsCounterpart(s) {
        CounterpartCovered(before, now, s);
      }
    }
    forall ref ensures !ActiveEnterprise(now.files, ref) {
      assert Touched(before.files, now.files, ref, Elements(PlanOf(before).disable));
    }
    EmptyPlanMeansSwitched(now);
  }

  lemma CounterpartIsFree(s: Standard)
    requires NeedsCounterpart(s)
    ensures IsEnterpriseHandle(s.handle) && !IsEnterpriseHandle(Counterpart(s))
  {
    assert s.handle[|s.handle| - |"-enterprise"|..] == "-enterprise";
    assert s.handle[|s.handle| - |ENTERPRISE|..] == "-enterprise"[1..];
    var free := Counterpart(s);
    assert free[|free| - 1] == 'n' && ENTERPRISE[|ENTERPRISE| - 1] == 'e';
  }

  lemma CounterpartCovered(before: Repos, now: Repos, s: Standard)
    requires Progress(before, now, Elements(PlanOf(before).add), Elements(PlanOf(before).disable))
    requires s in now.standard && NeedsCounterpart(s)
    ensures !WantsCounterpart(now, s)
  {
    PlannedHandles(before);
    var free := Counterpart(s);
    CounterpartIsFree(s);
    assert s in before.standard;
    if free !in PlanOf(before).add {
      assert !WantsCounterpart(before, s);
      assert FindStandard(now.standard, free) == FindStandard(before.standard, free);
    } else {
      assert IsEnabled(now, free);
    }
  }

  // -------------------------------------------------------------- the writes

  /** nextDigest: the digest the plan was read with for the first write, a fresh
      read for each later one. None when that read fails. */
  method NextDigest(node: AptNode, first: bool, digest: string) returns (d: Option<string>)
    modifies node`calls
    ensures d.Some? ==> d.value == if first then digest else node.repos.digest
    ensures node.Cooperative() ==> d.Some?
  {
    if first {
      return Some(digest);
    }
    var r := node.Read();
    return if r.Some? then Some(r.value.digest) else None;
  }

  /** The state a run of the plan may be found in, whether it went to its end,
      failed, or was cut off: additions come before any disabling. */
  ghost predicate Reachable(plan: NoSubPlan, before: Repos, now: Repos) {
    exists a: nat, d: nat | a <= |plan.add| && d <= |plan.disable| ::
      (d > 0 ==> a == |plan.add|) && ProgressAt(plan, before, now, a, d)
  }

  ghost predicate ProgressAt(plan: NoSubPlan, before: Repos, now: Repos, a: nat, d: nat)
    requires a <= |plan.add| && d <= |plan.disable|
  {
    Progress(before, now, Elements(plan.add[..a]), Elements(plan.disable[..d]))
  }

  lemma DistinctConcat<T>(xs: seq<T>, ys: seq<T>)
    requires Distinct(xs) && Distinct(ys) && forall x | x in xs :: x !in ys
    ensures Distinct(xs + ys)
  {
    forall i, j | 0 <= i < j < |xs + ys| ensures (xs + ys)[i] != (xs + ys)[j] {
      if i < |xs| <= j {
        assert xs[i] in xs && ys[j - |xs|] in ys;
      }
    }
  }

  lemma {:induction false} DisablesAreDistinct(files: seq<RepoFile>)
    requires UniquePaths(files)
    ensures Distinct(FilesToDisable(files))
  {
    if files != [] {
      var f := files[0];
      var here, rest := StanzasToDisable(f.path, f.stanzas, 0), FilesToDisable(files[1..]);
      DisablesAreDistinct(files[1..]);
      StanzasAreDistinct(f.path, f.stanzas, 0);
      StanzasToDisableMembers(f.path, f.stanzas, 0);
      FilesToDisableMembers(files[1..]);
      forall ref | ref in here ensures ref !in rest {
        StanzaAtNamesAFile(files[1..], ref.path, ref.index);
      }
      DistinctConcat(here, rest);
    }
  }

  lemma {:induction false} StanzasAreDistinct(path: string, stanzas: seq<Stanza>, from: nat)
    requires from <= |stanzas|
    ensures Distinct(StanzasToDisable(path, stanzas, from))
    decreases |stanzas| - from
  {
    if from < |stanzas| {
      StanzasAreDistinct(path, stanzas, from + 1);
      StanzasToDisableMembers(path, stanzas, from + 1);
      DistinctConcat([RepoRef(path, from)], StanzasToDisable(path, stanzas, from + 1));
    }
  }

  lemma NextAddition(plan: NoSubPlan, before: Repos, now: Repos, after: Repos, a: nat)
    requires plan == PlanOf(before)
    requires a < |plan.add| && ProgressAt(plan, before, now, a, 0)
    requires AddsHandle(now, plan.add[a], after)
    ensures ProgressAt(plan, before, after, a + 1, 0)
  {
    var add := plan.add;
    PlannedHandles(before);
    assert add[a] in add;
    assert Elements(plan.disable[..0]) == {};
    ProgressAdds(before, now, after, Elements(add[..a]), add[a]);
    ElementsStep(add, a);
  }

  /** A planned stanza is still on the enterprise mirror and enabled when its
      turn comes: additions moved no index. */
  lemma StillActive(plan: NoSubPlan, before: Repos, now: Repos, a: nat, d: nat)
    requires plan == PlanOf(before) && UniquePaths(before.files)
    requires a <= |plan.add| && d < |plan.disable| && ProgressAt(plan, before, now, a, d)
    ensures var ref := plan.disable[d];
      ActiveEnterprise(before.files, ref) && ActiveEnterprise(now.files, ref) && ref !in plan.disable[..d]
  {
    var disable := plan.disable;
    FilesToDisableMembers(before.files);
    DisablesAreDistinct(before.files);
    assert disable[d] in disable;
    assert forall j | 0 <= j < d :: disable[..d][j] == disable[j] != disable[d];
    assert Touched(before.files, now.files, disable[d], Elements(disable[..d]));
  }

  /** What a run may leave behind at any point is safe: either a free PVE
      repository is on or every enterprise stanza is still enabled, and a stanza
      the plan does not name is untouched but for a free one switched on. */
  lemma ReachableIsSafe(plan: NoSubPlan, before: Repos, now: Repos)
    requires plan == PlanOf(before)
    requires UniquePaths(before.files) && Reachable(plan, before, now)
    ensures FreeSource(now) || forall ref | ActiveEnterprise(before.files, ref) :: ActiveEnterprise(now.files, ref)
    ensures forall ref | !ActiveEnterprise(before.files, ref) :: StanzaKept(before.files, now.files, ref)
  {
    FilesToDisableMembers(before.files);
    var a: nat, d: nat :| a <= |plan.add| && d <= |plan.disable|
      && (d > 0 ==> a == |plan.add|) && ProgressAt(plan, before, now, a, d);
    var off := Elements(plan.disable[..d]);
    forall ref | !ActiveEnterprise(before.files, ref) ensures StanzaKept(before.files, now.files, ref) {
      assert Touched(before.files, now.files, ref, off);
      assert ref in off ==> ref in plan.disable;
    }
    if d > 0 {
      assert plan.add[..|plan.add|] == plan.add;
      AdditionsGiveFreeSource(before, now, off);
    } else {
      forall ref | ActiveEnterprise(before.files, ref) ensures ActiveEnterprise(now.files, ref) {
        assert Touched(before.files, now.files, ref, off);
      }
    }
  }

  /** Whether the digest sent lets a write through: later ones carry the digest
      just read, and an empty one is not sent. */
  predicate Passes(first: bool, digest: string, now: Repos) {
    first ==> digest == "" || digest == now.digest
  }

  /** One addition, nextDigest included. */
  method SendAddition(node: AptNode, first: bool, digest: string, handle: string) returns (ok: bool)
    modifies node
    ensures Written(first, digest, old(node.repos), old(node.add(node.repos, handle)), ok, node.repos)
    ensures old(node.written) + (if ok then 1 else 0) <= node.written
    ensures node.written > old(node.written) ==> Passes(first, digest, old(node.repos))
    ensures node.Cooperative() && UniquePaths(old(node.repos.files)) && Offers(old(node.repos), handle) ==>
      (ok <==> Passes(first, digest, old(node.repos)))
  {
    var d := NextDigest(node, first, digest);
    if d.None? {
      return false;
    }
    ok := node.AddStandardRepo(handle, d.value);
  }

  /** One disabling, nextDigest included. */
  method SendDisable(node: AptNode, first: bool, digest: string, ref: RepoRef) returns (ok: bool)
    modifies node
    ensures Written(first, digest, old(node.repos), old(node.disable(node.repos, ref.path, ref.index)), ok, node.repos)
    ensures old(node.written) + (if ok then 1 else 0) <= node.written
    ensures node.written > old(node.written) ==> Passes(first, digest, old(node.repos))
    ensures node.Cooperative() && UniquePaths(old(node.repos.files)) ==>
      StanzaAt(old(node.repos.files), ref.path, ref.index).Some? ==> (ok <==> Passes(first, digest, old(node.repos)))
  {
    var d := NextDigest(node, first, digest);
    if d.None? {
      return false;
    }
    ok := node.DisableRepo(ref.path, ref.index, d.value);
  }

  /** Outcome of one write: done, or not done, or done without an answer; and a
      first write whose digest is stale is never done. */
  ghost predicate Written(first: bool, digest: string, now: Repos, effect: Option<Repos>, ok: bool, after: Repos) {
    && (Some(after) == effect || (!ok && after == now))
    && (!Passes(first, digest, now) ==> !ok && after == now)
  }

  /** Where a run stands after `a` additions and `d` disablings, started from
      `start`: on course if nobody else wrote, not begun if the digest is stale. */
  ghost predicate OnCourse(plan: NoSubPlan, before: Repos, start: Repos, now: Repos, a: nat, d: nat)
    requires a <= |plan.add| && d <= |plan.disable|
  {
    && (start == before ==> ProgressAt(plan, before, now, a, d))
    && (a + d == 0 ==> now == start)
    && (a + d > 0 && before.digest != "" ==> start.digest == before.digest)
  }

  /** Where a failed run stands. */
  ghost predicate Stopped(plan: NoSubPlan, before: Repos, start: Repos, now: Repos) {
    && (start == before ==> Reachable(plan, before, now))
    && (before.digest != "" && start.digest != before.digest ==> now == start)
  }

  lemma AfterAddition(plan: NoSubPlan, before: Repos, start: Repos, now: Repos, after: Repos, a: nat, effect: Option<Repos>, ok: bool)
    requires plan == PlanOf(before)
    requires a < |plan.add| && OnCourse(plan, before, start, now, a, 0)
    requires effect.Some? && UniquePaths(now.files) && !IsEnterpriseHandle(plan.add[a]) ==>
      AddsHandle(now, plan.add[a], effect.value)
    requires Written(a == 0, before.digest, now, effect, ok, after)
    ensures ok ==> OnCourse(plan, before, start, after, a + 1, 0)
    ensures !ok ==> Stopped(plan, before, start, after)
  {
    PlannedHandles(before);
    assert plan.add[a] in plan.add;
    if start == before && Some(after) == effect {
      NextAddition(plan, before, now, after, a);
    }
    if start == before {
      assert ProgressAt(plan, before, after, a, 0) || ProgressAt(plan, before, after, a + 1, 0);
    }
  }

  lemma AfterDisable(plan: NoSubPlan, before: Repos, start: Repos, now: Repos, after: Repos, d: nat, effect: Option<Repos>, ok: bool)
    requires plan == PlanOf(before) && UniquePaths(before.files)
    requires d < |plan.disable| && OnCourse(plan, before, start, now, |plan.add|, d)
    requires var ref := plan.disable[d];
      effect.Some? && UniquePaths(now.files) && ActiveEnterprise(now.files, ref) ==>
        DisablesStanza(now, ref.path, ref.index, effect.value)
    requires Written(|plan.add| + d == 0, before.digest, now, effect, ok, after)
    ensures ok ==> OnCourse(plan, before, start, after, |plan.add|, d + 1)
    ensures !ok ==> Stopped(plan, before, start, after)
  {
    var n := |plan.add|;
    if start == before {
      StillActive(plan, before, now, n, d);
      if Some(after) == effect {
        var done := Elements(plan.disable[..d]);
        PlannedHandles(before);
        assert plan.add[..n] == plan.add;
        ProgressDisables(before, now, after, Elements(plan.add), done, plan.disable[d]);
        ElementsStep(plan.disable, d);
      }
      assert ProgressAt(plan, before, after, n, d) || ProgressAt(plan, before, after, n, d + 1);
    }
  }

  datatype Course = Kept | Lost

  /** The digest and plan are those read at `before`, and the run is OnCourse: one
      verdict on the state a loop is in, so that the loops below carry it whole. */
  ghost function CourseOf(plan: NoSubPlan, before: Repos, start: Repos, now: Repos, a: nat, d: nat): Course {
    if && plan == PlanOf(before) && UniquePaths(before.files)
       && a <= |plan.add| && d <= |plan.disable| && OnCourse(plan, before, start, now, a, d)
    then Kept else Lost
  }

  ghost function CourseAt(r: Run, now: Repos, a: nat, d: nat): Course {
    CourseOf(r.plan, r.before, r.start, now, a, d)
  }

  /** Stopped, likewise. */
  ghost function CourseWhenStopped(r: Run, now: Repos): Course {
    if Stopped(r.plan, r.before, r.start, now) then Kept else Lost
  }

  /** A plan, the state it was read from, the state the writes start from, and the
      two verdicts as values: the loops pass them on without looking inside. */
  datatype Run = Run(plan: NoSubPlan, before: Repos, start: Repos,
                     course: (Repos, nat, nat) -> Course, stopped: Repos -> Course)

  /** The verdicts of a run are the ones above. */
  ghost function Judged(r: Run): Course {
    if && (forall now, a, d {:trigger CourseAt(r, now, a, d)} :: r.course(now, a, d) == CourseAt(r, now, a, d))
       && (forall now {:trigger CourseWhenStopped(r, now)} :: r.stopped(now) == CourseWhenStopped(r, now))
    then Kept else Lost
  }

  ghost function RunFrom(before: Repos, start: Repos): (r: Run)
    ensures r.plan == PlanOf(before) && r.before == before && r.start == start && Judged(r) == Kept
  {
    Run(PlanOf(before), before, start,
        (now: Repos, a: nat, d: nat) => CourseOf(PlanOf(before), before, start, now, a, d),
        (now: Repos) => if Stopped(PlanOf(before), before, start, now) then Kept else Lost)
  }

  /** A planned handle is one the node knows when its turn comes. */
  lemma StillOffered(plan: NoSubPlan, before: Repos, now: Repos, a: nat)
    requires plan == PlanOf(before)
    requires a < |plan.add| && ProgressAt(plan, before, now, a, 0)
    ensures Offers(now, plan.add[a])
  {
    var handle := plan.add[a];
    PlannedHandles(before);
    CounterpartsMembers(before, before.standard);
    assert handle in plan.add;
    if handle in plan.add[..a] {
      assert IsEnabled(now, handle);
    } else {
      assert FindStandard(now.standard, handle) == FindStandard(before.standard, handle);
    }
  }

  /** What the node makes of a first write: turned away for its digest, admitted,
      or admitted but not one it can carry out. */
  datatype Admission = TurnedAway | Admitted | Unsound

  ghost function AddAdmission(now: Repos, handle: string, digest: string): Admission {
    if !Passes(true, digest, now) then TurnedAway
    else if UniquePaths(now.files) && Offers(now, handle) then Admitted
    else Unsound
  }

  ghost function DisableAdmission(now: Repos, ref: RepoRef, digest: string): Admission {
    if !Passes(true, digest, now) then TurnedAway
    else if UniquePaths(now.files) && StanzaAt(now.files, ref.path, ref.index).Some? then Admitted
    else Unsound
  }

  /** One turn of the first loop of applyNoSub. */
  method AddNext(node: AptNode, ghost r: Run, digest: string, handle: string, i: nat) returns (ok: bool)
    requires node.BehavesAsAssumed() && Judged(r) == Kept
    requires r.course(node.repos, i, 0) == Kept
    requires i < |r.plan.add| && handle == r.plan.add[i] && digest == r.before.digest
    modifies node
    ensures ok ==> r.course(node.repos, i + 1, 0) == Kept
    ensures !ok ==> r.stopped(node.repos) == Kept
    ensures r.start == r.before && node.Cooperative() ==> ok
    ensures old(node.written) + (if ok then 1 else 0) <= node.written
    ensures i == 0 && AddAdmission(old(node.repos), handle, digest) == TurnedAway ==> node.written == old(node.written)
    ensures i == 0 && AddAdmission(old(node.repos), handle, digest) == Admitted && node.Cooperative() ==> ok
  {
    ghost var now := node.repos;
    assert CourseAt(r, now, i, 0) == Kept;
    if r.start == r.before {
      StillOffered(r.plan, r.before, now, i);
    }
    ok := SendAddition(node, i == 0, digest, handle);
    AfterAddition(r.plan, r.before, r.start, now, node.repos, i, node.add(now, handle), ok);
    assert if ok then CourseAt(r, node.repos, i + 1, 0) == Kept else CourseWhenStopped(r, node.repos) == Kept;
  }

  /** One turn of the second loop of applyNoSub. */
  method DisableNext(node: AptNode, ghost r: Run, first: bool, digest: string, ref: RepoRef, ghost i: nat) returns (ok: bool)
    requires node.BehavesAsAssumed() && Judged(r) == Kept
    requires r.course(node.repos, |r.plan.add|, i) == Kept
    requires i < |r.plan.disable| && ref == r.plan.disable[i] && digest == r.before.digest
    requires first <==> |r.plan.add| + i == 0
    modifies node
    ensures ok ==> r.course(node.repos, |r.plan.add|, i + 1) == Kept
    ensures !ok ==> r.stopped(node.repos) == Kept
    ensures r.start == r.before && node.Cooperative() ==> ok
    ensures old(node.written) + (if ok then 1 else 0) <= node.written
    ensures first && DisableAdmission(old(node.repos), ref, digest) == TurnedAway ==> node.written == old(node.written)
    ensures first && DisableAdmission(old(node.repos), ref, digest) == Admitted && node.Cooperative() ==> ok
  {
    ghost var now := node.repos;
    assert CourseAt(r, now, |r.plan.add|, i) == Kept;
    if r.start == r.before {
      StillActive(r.plan, r.before, now, |r.plan.add|, i);
    }
    ok := SendDisable(node, first, digest, ref);
    AfterDisable(r.plan, r.before, r.start, now, node.repos, i, node.disable(now, ref.path, ref.index), ok);
    assert if ok then CourseAt(r, node.repos, |r.plan.add|, i + 1) == Kept else CourseWhenStopped(r, node.repos) == Kept;
  }

  /** The first loop of applyNoSub. */
  method SendAdditions(node: AptNode, digest: string, plan: NoSubPlan, ghost r: Run) returns (ok: bool, first: bool)
    requires node.BehavesAsAssumed() && Judged(r) == Kept
    requires r.course(node.repos, 0, 0) == Kept
    requires plan == r.plan && digest == r.before.digest
    modifies node
    ensures ok ==> r.course(node.repos, |plan.add|, 0) == Kept && (first <==> |plan.add| == 0)
    ensures !ok ==> r.stopped(node.repos) == Kept
    ensures r.start == r.before && node.Cooperative() ==> ok
    ensures old(node.written) <= node.written
    ensures |plan.add| == 0 ==> ok && node.repos == old(node.repos) && node.written == old(node.written)
    ensures |plan.add| > 0 && AddAdmission(old(node.repos), plan.add[0], digest) == TurnedAway ==>
      !ok && node.written == old(node.written)
    ensures |plan.add| > 0 && AddAdmission(old(node.repos), plan.add[0], digest) == Admitted && node.Cooperative() ==>
      node.written > old(node.written)
  {
    first := true;
    var i := 0;
    while i < |plan.add|
      invariant 0 <= i <= |plan.add| && (first <==> i == 0)
      invariant old(node.written) <= node.written
      invariant i == 0 ==> node.repos == old(node.repos) && node.written == old(node.written)
      invariant i > 0 ==> node.written > old(node.written)
      invariant i > 0 ==> AddAdmission(old(node.repos), plan.add[0], digest) != TurnedAway
      invariant r.course(node.repos, i, 0) == Kept
    {
      ok := AddNext(node, r, digest, plan.add[i], i);
      if !ok {
        return;
      }
      first := false;
      i := i + 1;
    }
    ok := true;
  }

  /** The second loop. `first` is still set when it starts if there was nothing
      to add. */
  method SendDisables(node: AptNode, first: bool, digest: string, plan: NoSubPlan, ghost r: Run) returns (ok: bool)
    requires node.BehavesAsAssumed() && Judged(r) == Kept
    requires r.course(node.repos, |plan.add|, 0) == Kept
    requires plan == r.plan && digest == r.before.digest && (first <==> |plan.add| == 0)
    modifies node
    ensures ok ==> r.course(node.repos, |plan.add|, |plan.disable|) == Kept
    ensures !ok ==> r.stopped(node.repos) == Kept
    ensures r.start == r.before && node.Cooperative() ==> ok
    ensures old(node.written) <= node.written
    ensures first && |plan.disable| > 0 && DisableAdmission(old(node.repos), plan.disable[0], digest) == TurnedAway ==>
      !ok && node.written == old(node.written)
    ensures first && |plan.disable| > 0 && DisableAdmission(old(node.repos), plan.disable[0], digest) == Admitted ==>
      node.Cooperative() ==> node.written > old(node.written)
  {
    var guarded := first;
    var i := 0;
    while i < |plan.disable|
      invariant 0 <= i <= |plan.disable| && (guarded <==> |plan.add| + i == 0)
      invariant old(node.written) <= node.written
      invariant i == 0 ==> node.repos == old(node.repos) && node.written == old(node.written)
      invariant i > 0 ==> node.written > old(node.written)
      invariant i > 0 && first ==> DisableAdmission(old(node.repos), plan.disable[0], digest) != TurnedAway
      invariant r.course(node.repos, |plan.add|, i) == Kept
    {
      ok := DisableNext(node, r, guarded, digest, plan.disable[i], i);
      if !ok {
        return;
      }
      guarded := false;
      i := i + 1;
    }
    return true;
  }

  /** What the node makes of the first write of a plan. */
  ghost function FirstAdmission(plan: NoSubPlan, now: Repos, digest: string): Admission {
    if |plan.add| > 0 then AddAdmission(now, plan.add[0], digest)
    else if |plan.disable| > 0 then DisableAdmission(now, plan.disable[0], digest)
    else Unsound
  }

  /** The two loops. */
  method SendWrites(node: AptNode, digest: string, plan: NoSubPlan, ghost r: Run) returns (ok: bool)
    requires node.BehavesAsAssumed() && Judged(r) == Kept
    requires r.course(node.repos, 0, 0) == Kept
    requires plan == r.plan && digest == r.before.digest
    modifies node
    ensures ok ==> r.course(node.repos, |plan.add|, |plan.disable|) == Kept
    ensures !ok ==> r.stopped(node.repos) == Kept
    ensures r.start == r.before && node.Cooperative() ==> ok
    ensures FirstAdmission(plan, old(node.repos), digest) == TurnedAway ==> node.written == old(node.written)
    ensures FirstAdmission(plan, old(node.repos), digest) == Admitted && node.Cooperative() ==>
      node.written > old(node.written)
  {
    var first;
    ok, first := SendAdditions(node, digest, plan, r);
    if ok {
      ok := SendDisables(node, first, digest, plan, r);
    }
  }

  lemma CourseStarts(before: Repos, start: Repos)
    requires UniquePaths(before.files)
    ensures CourseAt(RunFrom(before, start), start, 0, 0) == Kept
  {
    var plan := PlanOf(before);
    ProgressStarts(before);
    assert Elements(plan.add[..0]) == {} && Elements(plan.disable[..0]) == {};
  }

  /** What it means for a run to have gone to its end. */
  lemma CourseEnds(r: Run, now: Repos)
    requires CourseAt(r, now, |r.plan.add|, |r.plan.disable|) == Kept
    ensures r.start == r.before ==> Reachable(r.plan, r.before, now) && PlanOf(now).Empty()
    ensures r.before.digest != "" && r.start.digest != r.before.digest ==> now == r.start && r.plan.Empty()
  {
    var a, d := |r.plan.add|, |r.plan.disable|;
    if r.start == r.before {
      assert ProgressAt(r.plan, r.before, now, a, d);
      assert r.plan.add[..a] == r.plan.add && r.plan.disable[..d] == r.plan.disable;
      DoneMeansEmptyPlan(r.before, now);
    }
  }

  lemma AdmissionIsByDigest(plan: NoSubPlan, now: Repos, digest: string)
    ensures FirstWriteSound(plan, now) ==>
      FirstAdmission(plan, now, digest) == if digest == "" || digest == now.digest then Admitted else TurnedAway
  {
  }

  /** The plan has a first write, and the node can carry it out: it knows the
      handle, or a stanza stands where the plan says. */
  ghost predicate FirstWriteSound(plan: NoSubPlan, now: Repos) {
    UniquePaths(now.files) &&
    if |plan.add| > 0 then Offers(now, plan.add[0])
    else |plan.disable| > 0 && StanzaAt(now.files, plan.disable[0].path, plan.disable[0].index).Some?
  }

  /** applyNoSub. With no writer besides it, additions come first at every point
      and a success leaves nothing to plan; with every call answered it does
      succeed. If the node changed since the plan was read, a digest that is not
      empty makes the first write fail and nothing is written. That is exact: a
      cooperative node that can carry out the first write is written to if and only
      if the digest is empty or current. */
  method ApplyNoSub(node: AptNode, digest: string, plan: NoSubPlan, ghost before: Repos) returns (ok: bool)
    requires node.BehavesAsAssumed() && UniquePaths(before.files)
    requires plan == PlanOf(before) && digest == before.digest
    modifies node
    ensures old(node.repos) == before ==> Reachable(plan, before, node.repos)
    ensures old(node.repos) == before && ok ==> PlanOf(node.repos).Empty()
    ensures old(node.repos) == before && node.Cooperative() ==> ok
    ensures digest != "" && old(node.repos.digest) != digest ==>
      node.repos == old(node.repos) && (plan.Empty() || !ok)
    ensures FirstWriteSound(plan, old(node.repos)) && node.Cooperative() ==>
      (node.written > old(node.written) <==> digest == "" || digest == old(node.repos.digest))
  {
    ghost var run := RunFrom(before, node.repos);
    CourseStarts(before, node.repos);
    AdmissionIsByDigest(plan, node.repos, digest);
    ok := SendWrites(node, digest, plan, run);
    if ok {
      assert CourseAt(run, node.repos, |plan.add|, |plan.disable|) == Kept;
      CourseEnds(run, node.repos);
    } else {
      assert CourseWhenStopped(run, node.repos) == Kept;
    }
  }
}
