/** The verdict on a node (internal/aptcheck/aptcheck.go: Assess,
    RebootRequired): what apt would upgrade, and whether a newer kernel than the
    running one is installed. */
module Assess {
  import opened Results
  import opened Text
  import opened Versions

  datatype AptPackage = AptPackage(
    name: string, origin: string, installed: string, candidate: string,
    state: string, runningKernel: string, managerVersion: string)

  datatype Upgrade = Upgrade(name: string, origin: string, installed: string, candidate: string, important: bool)

  datatype Report = Report(
    node: string, pending: seq<Upgrade>, partial: bool, manager: Upgrade,
    runningKernel: string, newestKernel: string, kernelUpdate: bool, restartDaemons: bool)
  {
    predicate RebootRequired() {
      runningKernel != "" && newestKernel != "" && Order(newestKernel, runningKernel) > 0
    }
  }

  const NO_UPGRADE := Upgrade("", "", "", "", false)

  // --------------------------------------------------------- package names

  const KERNEL_PREFIX := "proxmox-kernel-"

  /** \d+\.\d+ */
  predicate IsSeries(s: string) {
    exists k | 0 <= k < |s| :: s[k] == '.' && DigitsOnly(s[..k]) && DigitsOnly(s[k + 1..])
  }

  /** ^proxmox-kernel-\d+\.\d+$ */
  predicate IsKernelMeta(name: string) {
    HasPrefix(name, KERNEL_PREFIX) && IsSeries(name[|KERNEL_PREFIX|..])
  }

  /** \d[^ ]*-pve */
  predicate IsAbi(s: string) {
    |s| >= 5 && IsDigit(s[0]) && ' ' !in s && HasSuffix(s, "-pve")
  }

  const SIGNED := "-signed"

  /** The group of ^(\d[^ ]*-pve)(?:-signed)?$ */
  function AbiIn(rest: string): (abi: Option<string>)
    ensures abi.Some? ==> IsAbi(abi.value)
  {
    if IsAbi(rest) then Some(rest)
    else if HasSuffix(rest, SIGNED) && IsAbi(rest[..|rest| - |SIGNED|]) then Some(rest[..|rest| - |SIGNED|])
    else None
  }

  /** The group of ^proxmox-kernel-(\d[^ ]*-pve)(?:-signed)?$ */
  function KernelAbi(name: string): (abi: Option<string>) {
    if HasPrefix(name, KERNEL_PREFIX) then AbiIn(name[|KERNEL_PREFIX|..]) else None
  }

  lemma SignedIsNoAbi(s: string)
    requires HasSuffix(s, SIGNED)
    ensures !IsAbi(s)
  {
    assert s[|s| - 7..][6] == s[|s| - 1] == 'd';
    assert s[|s| - 4..][3] == s[|s| - 1] && "-pve"[3] == 'e';
  }

  lemma AbiInMatches(rest: string, abi: string)
    ensures AbiIn(rest) == Some(abi) <==> IsAbi(abi) && (rest == abi || rest == abi + SIGNED)
  {
    if rest == abi + SIGNED {
      SignedIsNoAbi(rest);
      assert rest[..|rest| - |SIGNED|] == abi;
    }
    if HasSuffix(rest, SIGNED) {
      assert rest == rest[..|rest| - |SIGNED|] + SIGNED;
    }
  }

  lemma AfterPrefix(name: string, prefix: string, rest: string)
    ensures name == prefix + rest <==> HasPrefix(name, prefix) && name[|prefix|..] == rest
  {
    if HasPrefix(name, prefix) {
      assert name == name[..|prefix|] + name[|prefix|..];
    }
  }

  /** The extraction follows the expression: it takes an ABI that makes up the rest
      of the name, "-signed" apart, and there is at most one such. */
  lemma KernelAbiMatches(name: string, abi: string)
    ensures KernelAbi(name) == Some(abi) <==>
      IsAbi(abi) && (name == KERNEL_PREFIX + abi || name == KERNEL_PREFIX + (abi + SIGNED))
  {
    AfterPrefix(name, KERNEL_PREFIX, abi);
    AfterPrefix(name, KERNEL_PREFIX, abi + SIGNED);
    if HasPrefix(name, KERNEL_PREFIX) {
      AbiInMatches(name[|KERNEL_PREFIX|..], abi);
    }
  }

  /** The kernel a package installs, if it is an installed kernel image. */
  function InstalledKernel(p: AptPackage): Option<string> {
    if p.state == "Installed" then KernelAbi(p.name) else None
  }

  // --------------------------------------------------------------- pending

  predicate Upgradable(p: AptPackage) {
    p.candidate != "" && p.candidate != p.installed
  }

  function UpgradeOf(p: AptPackage, important: set<string>): Upgrade {
    Upgrade(p.name, p.origin, p.installed, p.candidate, p.name in important)
  }

  function Names(ps: seq<AptPackage>): (r: set<string>)
    ensures forall p | p in ps :: p.name in r
    ensures forall n | n in r :: exists p | p in ps :: p.name == n
  {
    set p | p in ps :: p.name
  }

  /** The upgradable packages, each name at its first such entry. */
  function Chosen(source: seq<AptPackage>): (r: seq<AptPackage>) {
    if source == [] then []
    else
      var before, p := Chosen(source[..|source| - 1]), source[|source| - 1];
      if Upgradable(p) && p.name !in Names(before) then before + [p] else before
  }

  function UpgradesOf(ps: seq<AptPackage>, important: set<string>): (r: seq<Upgrade>)
    ensures |r| == |ps| && forall i | 0 <= i < |r| :: r[i] == UpgradeOf(ps[i], important)
  {
    seq(|ps|, i requires 0 <= i < |ps| => UpgradeOf(ps[i], important))
  }

  /** The three-level order of the list: tracked packages, then Proxmox's own,
      then by name. */
  predicate ListedBefore(a: Upgrade, b: Upgrade) {
    if a.important != b.important then a.important
    else if (a.origin == "Proxmox") != (b.origin == "Proxmox") then a.origin == "Proxmox"
    else Before(a.name, b.name)
  }

  function Pending(source: seq<AptPackage>, important: set<string>): seq<Upgrade> {
    Sort(ListedBefore, UpgradesOf(Chosen(source), important))
  }

  // --------------------------------------------------------------- kernels

  function Running(versions: seq<AptPackage>): string {
    if versions == [] then ""
    else
      var p := versions[|versions| - 1];
      if p.name == "proxmox-ve" && p.runningKernel != "" then p.runningKernel
      else Running(versions[..|versions| - 1])
  }

  /** The newer of the kernel kept so far and the one a package installs. */
  function Newer(kept: string, k: Option<string>): string {
    if k.Some? && (kept == "" || Order(k.value, kept) > 0) then k.value else kept
  }

  function Newest(versions: seq<AptPackage>): string {
    if versions == [] then ""
    else Newer(Newest(versions[..|versions| - 1]), InstalledKernel(versions[|versions| - 1]))
  }

  // --------------------------------------------------------------- manager

  function CutBefore(s: string, sep: char): string {
    if s == [] || s[0] == sep then [] else [s[0]] + CutBefore(s[1..], sep)
  }

  /** The pve-manager entry, and whether the daemons run an older version. */
  function ManagerEntry(p: AptPackage): (Upgrade, bool) {
    var running := CutBefore(p.managerVersion, '/');
    (Upgrade(p.name, p.origin, p.installed, p.candidate, false),
     running != "" && p.installed != "" && Order(p.installed, running) > 0)
  }

  function Manager(versions: seq<AptPackage>): (Upgrade, bool) {
    if versions == [] then (NO_UPGRADE, false)
    else if versions[|versions| - 1].name == "pve-manager" then ManagerEntry(versions[|versions| - 1])
    else Manager(versions[..|versions| - 1])
  }

  // ---------------------------------------------------------------- report

  predicate BringsKernel(p: AptPackage) {
    IsKernelMeta(p.name) || (p.installed == "" && KernelAbi(p.name).Some?)
  }

  predicate BringsKernelSeries(p: AptPackage) {
    IsKernelMeta(p.name) && Upgradable(p)
  }

  predicate KernelUpdate(versions: seq<AptPackage>, source: seq<AptPackage>) {
    || (exists p | p in Chosen(source) :: BringsKernel(p))
    || (exists p | p in versions :: BringsKernelSeries(p))
  }

  function ReportOf(node: string, versions: seq<AptPackage>, updates: seq<AptPackage>, full: bool): Report {
    var source := if full then updates else versions;
    Report(node, Pending(source, Names(versions)), !full, Manager(versions).0,
           Running(versions), Newest(versions), KernelUpdate(versions, source), Manager(versions).1)
  }

  lemma SliceStep<T>(xs: seq<T>, i: nat)
    requires i < |xs|
    ensures xs[..i + 1][..i] == xs[..i] && xs[..i + 1] == xs[..i] + [xs[i]]
  {
  }

  lemma ChosenStep(source: seq<AptPackage>, i: nat, important: set<string>)
    requires i < |source|
    ensures var before, p := Chosen(source[..i]), source[i];
      var taken := Upgradable(p) && p.name !in Names(before);
      && Chosen(source[..i + 1]) == (if taken then before + [p] else before)
      && UpgradesOf(before + [p], important) == UpgradesOf(before, important) + [UpgradeOf(p, important)]
      && Names(before + [p]) == Names(before) + {p.name}
      && forall q :: q in before + [p] <==> q in before || q == p
  {
    SliceStep(source, i);
    var p := source[i];
    assert Chosen(source[..i + 1]) == if Upgradable(p) && p.name !in Names(Chosen(source[..i])) then Chosen(source[..i]) + [p] else Chosen(source[..i]);
  }

  /** How many entries pass a test. */
  function Count(ps: seq<AptPackage>, test: AptPackage -> bool): nat {
    if ps == [] then 0 else Count(ps[..|ps| - 1], test) + (if test(ps[|ps| - 1]) then 1 else 0)
  }

  lemma {:induction false} CountFindsAny(ps: seq<AptPackage>, test: AptPackage -> bool)
    ensures Count(ps, test) > 0 <==> exists p | p in ps :: test(p)
  {
    if ps != [] {
      var front, last := ps[..|ps| - 1], ps[|ps| - 1];
      CountFindsAny(front, test);
      assert ps == front + [last];
    }
  }

  lemma CountStep(ps: seq<AptPackage>, p: AptPackage, test: AptPackage -> bool)
    ensures Count(ps + [p], test) == Count(ps, test) + (if test(p) then 1 else 0)
  {
    assert (ps + [p])[..|ps|] == ps;
  }

  /** First loop of Assess: the pending upgrades, before they are sorted. */
  method Collect(source: seq<AptPackage>, important: set<string>)
    returns (pending: seq<Upgrade>, kernelUpdate: bool)
    ensures pending == UpgradesOf(Chosen(source), important)
    ensures kernelUpdate <==> exists p | p in Chosen(source) :: BringsKernel(p)
  {
    var seen: set<string> := {};
    pending, kernelUpdate := [], false;
    var i := 0;
    while i < |source|
      invariant 0 <= i <= |source|
      invariant seen == Names(Chosen(source[..i]))
      invariant pending == UpgradesOf(Chosen(source[..i]), important)
      invariant kernelUpdate <==> Count(Chosen(source[..i]), BringsKernel) > 0
    {
      var p := source[i];
      ChosenStep(source, i, important);
      CountStep(Chosen(source[..i]), p, BringsKernel);
      i := i + 1;
      if !Upgradable(p) || p.name in seen {
        continue;
      }
      seen := seen + {p.name};
      pending := pending + [UpgradeOf(p, important)];
      if BringsKernel(p) {
        kernelUpdate := true;
      }
    }
    assert source[..|source|] == source;
    CountFindsAny(Chosen(source), BringsKernel);
  }

  method KeepNewer(kept: string, abi: Option<string>) returns (r: string)
    ensures r == Newer(kept, abi)
  {
    if abi.None? {
      return kept;
    }
    var c := CompareVersions(abi.value, kept);
    return if kept == "" || c > 0 then abi.value else kept;
  }

  method ReadManager(p: AptPackage) returns (manager: Upgrade, restart: bool)
    ensures (manager, restart) == ManagerEntry(p)
  {
    manager := Upgrade(p.name, p.origin, p.installed, p.candidate, false);
    var running := CutBefore(p.managerVersion, '/');
    var c := CompareVersions(p.installed, running);
    restart := running != "" && p.installed != "" && c > 0;
  }

  /** What one more entry changes in what the second loop looks for. */
  lemma VersionsStep(versions: seq<AptPackage>, i: nat)
    requires i < |versions|
    ensures var before, after, p := versions[..i], versions[..i + 1], versions[i];
      && Manager(after) == (if p.name == "pve-manager" then ManagerEntry(p) else Manager(before))
      && Running(after) == (if p.name == "proxmox-ve" && p.runningKernel != "" then p.runningKernel else Running(before))
      && Newest(after) == Newer(Newest(before), InstalledKernel(p))
      && Count(after, BringsKernelSeries) == Count(before, BringsKernelSeries) + (if BringsKernelSeries(p) then 1 else 0)
  {
    SliceStep(versions, i);
  }

  lemma NamesDiffer()
    ensures "pve-manager" != "proxmox-ve"
  {
    assert "pve-manager"[1] == 'v' && "proxmox-ve"[1] == 'r';
  }

  /** Second loop of Assess: the manager, the kernels and the restart verdict. */
  method Inspect(versions: seq<AptPackage>)
    returns (manager: Upgrade, restart: bool, running: string, newest: string, kernelUpdate: bool)
    ensures (manager, restart) == Manager(versions)
    ensures running == Running(versions) && newest == Newest(versions)
    ensures kernelUpdate <==> exists p | p in versions :: BringsKernelSeries(p)
  {
    manager, restart, running, newest, kernelUpdate := NO_UPGRADE, false, "", "", false;
    var i := 0;
    while i < |versions|
      invariant 0 <= i <= |versions|
      invariant (manager, restart) == Manager(versions[..i])
      invariant running == Running(versions[..i])
      invariant newest == Newest(versions[..i])
      invariant kernelUpdate <==> Count(versions[..i], BringsKernelSeries) > 0
    {
      VersionsStep(versions, i);
      NamesDiffer();
      var p := versions[i];
      if p.name == "pve-manager" {
        manager, restart := ReadManager(p);
      } else if p.name == "proxmox-ve" && p.runningKernel != "" {
        running := p.runningKernel;
      }
      if BringsKernelSeries(p) {
        kernelUpdate := true;
      }
      newest := KeepNewer(newest, InstalledKernel(p));
      i := i + 1;
    }
    assert versions[..|versions|] == versions;
    CountFindsAny(versions, BringsKernelSeries);
  }

  method Assess(node: string, versions: seq<AptPackage>, updates: seq<AptPackage>, full: bool)
    returns (rep: Report)
    ensures rep == ReportOf(node, versions, updates, full)
  {
    var source := if full then updates else versions;
    var important := set p | p in versions :: p.name;
    var collected, fromSource := Collect(source, important);
    var manager, restart, running, newest, fromVersions := Inspect(versions);
    return Report(node, Sort(ListedBefore, collected), !full, manager, running, newest,
                  fromSource || fromVersions, restart);
  }

  // -------------------------------------------- what the list of upgrades is

  /** Entry i is the first upgradable one of its name. */
  ghost predicate FirstOfItsName(source: seq<AptPackage>, i: nat)
    requires i < |source|
  {
    Upgradable(source[i]) && forall j | 0 <= j < i && Upgradable(source[j]) :: source[j].name != source[i].name
  }

  lemma {:induction false} ChosenAreFirst(source: seq<AptPackage>, p: AptPackage)
    ensures p in Chosen(source) <==> exists i | 0 <= i < |source| :: source[i] == p && FirstOfItsName(source, i)
  {
    if source != [] {
      var n := |source| - 1;
      var front, last := source[..n], source[n];
      ChosenAreFirst(front, p);
      ChosenNames(front);
      assert source == front + [last];
      assert forall i | 0 <= i < n :: source[i] == front[i] && FirstOfItsName(source, i) == FirstOfItsName(front, i);
      assert FirstOfItsName(source, n) <==> Upgradable(last) && last.name !in Names(Chosen(front)) by {
        NamesChosen(front, last.name);
      }
    }
  }

  lemma {:induction false} ChosenNames(source: seq<AptPackage>)
    ensures forall i, j | 0 <= i < j < |Chosen(source)| :: Chosen(source)[i].name != Chosen(source)[j].name
  {
    if source != [] {
      ChosenNames(source[..|source| - 1]);
    }
  }

  lemma {:induction false} NamesChosen(source: seq<AptPackage>, name: string)
    ensures name in Names(Chosen(source)) <==> exists i | 0 <= i < |source| :: Upgradable(source[i]) && source[i].name == name
  {
    if source != [] {
      var n := |source| - 1;
      NamesChosen(source[..n], name);
      assert forall i | 0 <= i < n :: source[..n][i] == source[i];
      var before := Chosen(source[..n]);
      assert Names(before + [source[n]]) == Names(before) + {source[n].name};
    }
  }

  lemma ChosenMembers(source: seq<AptPackage>)
    ensures forall p :: p in Chosen(source) <==> exists i | 0 <= i < |source| :: source[i] == p && FirstOfItsName(source, i)
    ensures forall p | p in source && Upgradable(p) :: p.name in Names(Chosen(source))
  {
    forall p ensures p in Chosen(source) <==> exists i | 0 <= i < |source| :: source[i] == p && FirstOfItsName(source, i) {
      ChosenAreFirst(source, p);
    }
    forall p | p in source && Upgradable(p) ensures p.name in Names(Chosen(source)) {
      NamesChosen(source, p.name);
    }
  }

  lemma ListedBeforeIsStrictTotal(us: seq<Upgrade>)
    requires forall i, j | 0 <= i < j < |us| :: us[i].name != us[j].name
    ensures StrictTotalOn(ListedBefore, us)
  {
    forall x, y | x in us && y in us && x != y ensures ListedBefore(x, y) || ListedBefore(y, x) {
      CompareIsAntisymmetric(x.name, y.name);
    }
    forall x, y | x in us && y in us && ListedBefore(x, y) ensures !ListedBefore(y, x) {
      CompareIsAntisymmetric(x.name, y.name);
    }
    forall x, y, z | x in us && y in us && z in us && ListedBefore(x, y) && ListedBefore(y, z) ensures ListedBefore(x, z) {
      if Compare(x.name, y.name) < 0 && Compare(y.name, z.name) < 0 {
        CompareIsTransitive(x.name, y.name, z.name);
      }
    }
  }

  lemma UpgradesAreNamedOnce(source: seq<AptPackage>, important: set<string>)
    ensures var us := UpgradesOf(Chosen(source), important);
      && (forall i, j | 0 <= i < j < |us| :: us[i].name != us[j].name)
      && StrictTotalOn(ListedBefore, us)
  {
    ChosenNames(source);
    ListedBeforeIsStrictTotal(UpgradesOf(Chosen(source), important));
  }

  lemma UpgradesMembers(source: seq<AptPackage>, important: set<string>, u: Upgrade)
    ensures u in UpgradesOf(Chosen(source), important) <==>
      exists i | 0 <= i < |source| :: FirstOfItsName(source, i) && u == UpgradeOf(source[i], important)
  {
    var us, ps := UpgradesOf(Chosen(source), important), Chosen(source);
    if k :| 0 <= k < |us| && us[k] == u {
      ChosenAreFirst(source, ps[k]);
    }
    if i :| 0 <= i < |source| && FirstOfItsName(source, i) && u == UpgradeOf(source[i], important) {
      ChosenAreFirst(source, source[i]);
      var k :| 0 <= k < |ps| && ps[k] == source[i];
      assert us[k] == u;
    }
  }

  /** The list holds one upgrade for each name with an upgradable entry, built
      from the first such entry, tracked packages first, then Proxmox's, then by
      name. */
  lemma PendingDescribesTheAnswer(source: seq<AptPackage>, important: set<string>)
    ensures Sorted(ListedBefore, Pending(source, important))
    ensures forall u :: u in Pending(source, important) <==>
      exists i | 0 <= i < |source| :: FirstOfItsName(source, i) && u == UpgradeOf(source[i], important)
    ensures forall u :: multiset(Pending(source, important))[u] <= 1
  {
    var us := UpgradesOf(Chosen(source), important);
    UpgradesAreNamedOnce(source, important);
    SortSorts(ListedBefore, us);
    SameElements(Pending(source, important), us);
    forall u ensures multiset(us)[u] <= 1 {
      DistinctCountsOne(us, u);
    }
    forall u ensures u in us <==> exists i | 0 <= i < |source| :: FirstOfItsName(source, i) && u == UpgradeOf(source[i], important) {
      UpgradesMembers(source, important, u);
    }
  }

  // ------------------------------------------- when the order does not matter

  /** Upgradable entries of one name announce the same upgrade. */
  ghost predicate Agreeing(source: seq<AptPackage>) {
    forall p, q | p in source && q in source && Upgradable(p) && Upgradable(q) && p.name == q.name ::
      p.origin == q.origin && p.installed == q.installed && p.candidate == q.candidate
  }

  lemma PendingOfAgreeing(source: seq<AptPackage>, important: set<string>, u: Upgrade)
    requires Agreeing(source)
    ensures u in Pending(source, important) <==>
      exists p | p in source :: Upgradable(p) && u == UpgradeOf(p, important)
  {
    PendingDescribesTheAnswer(source, important);
    ChosenMembers(source);
    if p :| p in source && Upgradable(p) && u == UpgradeOf(p, important) {
      assert p.name in Names(Chosen(source));
      var q :| q in Chosen(source) && q.name == p.name;
      var i :| 0 <= i < |source| && source[i] == q && FirstOfItsName(source, i);
      assert source[i] in source && u == UpgradeOf(source[i], important);
    }
  }

  lemma BringToFront(source: seq<AptPackage>, i: nat) returns (moved: seq<AptPackage>)
    requires i < |source|
    ensures multiset(moved) == multiset(source) && moved != [] && moved[0] == source[i]
  {
    moved := [source[i]] + source[..i] + source[i + 1..];
    assert source == source[..i] + [source[i]] + source[i + 1..];
  }

  lemma FirstIsListed(source: seq<AptPackage>, important: set<string>)
    requires source != [] && Upgradable(source[0])
    ensures UpgradeOf(source[0], important) in Pending(source, important)
  {
    PendingDescribesTheAnswer(source, important);
    assert FirstOfItsName(source, 0);
  }

  lemma OneUpgradePerName(source: seq<AptPackage>, important: set<string>, u: Upgrade, v: Upgrade)
    requires u in Pending(source, important) && v in Pending(source, important) && u.name == v.name
    ensures u == v
  {
    PendingDescribesTheAnswer(source, important);
    var i :| 0 <= i < |source| && FirstOfItsName(source, i) && u == UpgradeOf(source[i], important);
    var j :| 0 <= j < |source| && FirstOfItsName(source, j) && v == UpgradeOf(source[j], important);
    assert i == j;
  }

  /** The order in which the node lists its packages is invisible in the result
      exactly when the entries of each name agree; with one entry per name they
      always do. */
  lemma PendingIgnoresOrder(source: seq<AptPackage>, important: set<string>)
    ensures Agreeing(source) <==>
      forall other | multiset(other) == multiset(source) :: Pending(other, important) == Pending(source, important)
    ensures (forall i, j | 0 <= i < j < |source| :: source[i].name != source[j].name) ==> Agreeing(source)
  {
    if Agreeing(source) {
      forall other | multiset(other) == multiset(source) ensures Pending(other, important) == Pending(source, important) {
        SameElements(other, source);
        PendingOfEqualSets(source, other, important);
      }
    } else {
      var p, q :| p in source && q in source && Upgradable(p) && Upgradable(q) && p.name == q.name
        && UpgradeOf(p, important) != UpgradeOf(q, important);
      var i :| 0 <= i < |source| && source[i] == p;
      var j :| 0 <= j < |source| && source[j] == q;
      var a := BringToFront(source, i);
      var b := BringToFront(source, j);
      FirstIsListed(a, important);
      FirstIsListed(b, important);
      if Pending(a, important) == Pending(source, important) == Pending(b, important) {
        OneUpgradePerName(source, important, UpgradeOf(p, important), UpgradeOf(q, important));
      }
    }
  }

  lemma SameUpgrades(a: seq<AptPackage>, b: seq<AptPackage>, important: set<string>)
    requires Agreeing(a) && forall p :: p in a <==> p in b
    ensures multiset(UpgradesOf(Chosen(a), important)) == multiset(UpgradesOf(Chosen(b), important))
  {
    var us, vs := UpgradesOf(Chosen(a), important), UpgradesOf(Chosen(b), important);
    assert Agreeing(b);
    UpgradesAreNamedOnce(a, important);
    UpgradesAreNamedOnce(b, important);
    SortKeepsElements(ListedBefore, us);
    SortKeepsElements(ListedBefore, vs);
    SameElements(Pending(a, important), us);
    SameElements(Pending(b, important), vs);
    forall u ensures u in us <==> u in vs {
      PendingOfAgreeing(a, important, u);
      PendingOfAgreeing(b, important, u);
    }
    DistinctPermutation(us, vs);
  }

  lemma PendingOfEqualSets(a: seq<AptPackage>, b: seq<AptPackage>, important: set<string>)
    requires Agreeing(a) && forall p :: p in a <==> p in b
    ensures Pending(a, important) == Pending(b, important)
  {
    var us, vs := UpgradesOf(Chosen(a), important), UpgradesOf(Chosen(b), important);
    SameUpgrades(a, b, important);
    UpgradesAreNamedOnce(a, important);
    UpgradesAreNamedOnce(b, important);
    SortSorts(ListedBefore, us);
    SortSorts(ListedBefore, vs);
    SameElements(Pending(a, important), us);
    StrictTotalOnFewer(ListedBefore, us, Pending(a, important));
    SortedIsUnique(ListedBefore, Pending(a, important), Pending(b, important));
  }

  // --------------------------------------------------------------- reboot

  ghost predicate NewerKernelInstalled(versions: seq<AptPackage>, than: string) {
    exists p | p in versions :: InstalledKernel(p).Some? && Order(InstalledKernel(p).value, than) > 0
  }

  lemma {:induction false} NewestIsInstalled(versions: seq<AptPackage>)
    ensures Newest(versions) == "" <==> forall p | p in versions :: InstalledKernel(p).None?
    ensures Newest(versions) != "" ==> exists p | p in versions :: InstalledKernel(p) == Some(Newest(versions))
  {
    if versions != [] {
      var front, last := versions[..|versions| - 1], versions[|versions| - 1];
      NewestIsInstalled(front);
      assert versions == front + [last];
      assert forall p :: p in versions <==> p in front || p == last;
    }
  }

  lemma NewerIsAtLeast(kept: string, k: Option<string>)
    ensures kept != "" ==> Order(kept, Newer(kept, k)) <= 0
    ensures k.Some? ==> Order(k.value, Newer(kept, k)) <= 0
  {
    OrderIsAntisymmetric(kept, kept);
    if k.Some? {
      OrderIsAntisymmetric(k.value, k.value);
      OrderIsAntisymmetric(k.value, kept);
    }
  }

  /** The loop keeps a maximum: no installed kernel is newer than Newest. */
  lemma {:induction false} NewestIsMaximal(versions: seq<AptPackage>)
    ensures forall p | p in versions && InstalledKernel(p).Some? :: Order(InstalledKernel(p).value, Newest(versions)) <= 0
  {
    if versions != [] {
      var front, last := versions[..|versions| - 1], versions[|versions| - 1];
      NewestIsMaximal(front);
      NewestIsInstalled(front);
      assert versions == front + [last];
      NewerIsAtLeast(Newest(front), InstalledKernel(last));
      forall p | p in front && InstalledKernel(p).Some?
        ensures Order(InstalledKernel(p).value, Newest(versions)) <= 0
      {
        OrderIsTransitive(InstalledKernel(p).value, Newest(front), Newest(versions));
      }
    }
  }

  /** A reboot is called for exactly when the running kernel is known and some
      installed kernel image is strictly newer. */
  lemma RebootMeansNewerKernel(node: string, versions: seq<AptPackage>, updates: seq<AptPackage>, full: bool)
    ensures ReportOf(node, versions, updates, full).RebootRequired() <==>
      Running(versions) != "" && NewerKernelInstalled(versions, Running(versions))
  {
    NewestIsMaximal(versions);
    NewestIsInstalled(versions);
    var newest, running := Newest(versions), Running(versions);
    if NewerKernelInstalled(versions, running) {
      var p :| p in versions && InstalledKernel(p).Some? && Order(InstalledKernel(p).value, running) > 0;
      var k := InstalledKernel(p).value;
      OrderIsAntisymmetric(k, running);
      OrderIsTransitive(running, k, newest);
      OrderIsAntisymmetric(running, newest);
    }
  }

  ghost predicate IsRunningKernel(versions: seq<AptPackage>, k: string) {
    k != "" && exists p | p in versions :: p.name == "proxmox-ve" && p.runningKernel == k
  }

  lemma {:induction false} RunningIsReported(versions: seq<AptPackage>)
    ensures Running(versions) != "" ==> IsRunningKernel(versions, Running(versions))
    ensures Running(versions) == "" ==> forall k :: !IsRunningKernel(versions, k)
  {
    if versions != [] {
      var front, last := versions[..|versions| - 1], versions[|versions| - 1];
      RunningIsReported(front);
      assert versions == front + [last];
      assert forall p :: p in versions <==> p in front || p == last;
      assert forall k | IsRunningKernel(versions, k) :: IsRunningKernel(front, k) || last.runningKernel == k != "";
    }
  }

  /** The running kernels an answer names agree on whether a newer one is
      installed. */
  ghost predicate KernelsAgree(versions: seq<AptPackage>) {
    forall k, l | IsRunningKernel(versions, k) && IsRunningKernel(versions, l) ::
      NewerKernelInstalled(versions, k) == NewerKernelInstalled(versions, l)
  }

  lemma SamePackagesSameKernels(a: seq<AptPackage>, b: seq<AptPackage>, k: string)
    requires multiset(a) == multiset(b)
    ensures IsRunningKernel(a, k) <==> IsRunningKernel(b, k)
    ensures NewerKernelInstalled(a, k) <==> NewerKernelInstalled(b, k)
  {
    SameElements(a, b);
  }

  ghost predicate Verdict(versions: seq<AptPackage>) {
    Running(versions) != "" && NewerKernelInstalled(versions, Running(versions))
  }

  lemma AgreeingKernelsOneVerdict(a: seq<AptPackage>, b: seq<AptPackage>)
    requires multiset(a) == multiset(b) && KernelsAgree(a)
    ensures Verdict(a) == Verdict(b)
  {
    RunningIsReported(a);
    RunningIsReported(b);
    SamePackagesSameKernels(a, b, Running(a));
    SamePackagesSameKernels(a, b, Running(b));
  }

  lemma DisagreeingKernelsTwoVerdicts(versions: seq<AptPackage>) returns (a: seq<AptPackage>, b: seq<AptPackage>)
    requires !KernelsAgree(versions)
    ensures multiset(a) == multiset(versions) && multiset(b) == multiset(versions) && Verdict(a) != Verdict(b)
  {
    var k, l :| IsRunningKernel(versions, k) && IsRunningKernel(versions, l)
      && NewerKernelInstalled(versions, k) != NewerKernelInstalled(versions, l);
    a := RunLast(versions, k);
    b := RunLast(versions, l);
    SamePackagesSameKernels(a, versions, k);
    SamePackagesSameKernels(b, versions, l);
  }

  /** Whatever the order of the packages, the verdict is the same exactly when
      the running kernels the answer names agree on it. */
  lemma RebootIgnoresOrder(node: string, versions: seq<AptPackage>, updates: seq<AptPackage>, full: bool)
    ensures KernelsAgree(versions) <==> forall other | multiset(other) == multiset(versions) ::
      ReportOf(node, other, updates, full).RebootRequired() == ReportOf(node, versions, updates, full).RebootRequired()
  {
    forall other ensures ReportOf(node, other, updates, full).RebootRequired() == Verdict(other) {
      RebootMeansNewerKernel(node, other, updates, full);
    }
    if KernelsAgree(versions) {
      forall other | multiset(other) == multiset(versions) ensures Verdict(other) == Verdict(versions) {
        AgreeingKernelsOneVerdict(versions, other);
      }
    } else {
      var a, b := DisagreeingKernelsTwoVerdicts(versions);
      assert ReportOf(node, a, updates, full).RebootRequired() != ReportOf(node, b, updates, full).RebootRequired();
    }
  }

  lemma RunLast(versions: seq<AptPackage>, k: string) returns (moved: seq<AptPackage>)
    requires IsRunningKernel(versions, k)
    ensures multiset(moved) == multiset(versions) && Running(moved) == k
  {
    var p :| p in versions && p.name == "proxmox-ve" && p.runningKernel == k;
    var i :| 0 <= i < |versions| && versions[i] == p;
    moved := versions[..i] + versions[i + 1..] + [p];
    assert versions == versions[..i] + [p] + versions[i + 1..];
  }

  // ------------------------------------------------- what the report says

  lemma SeriesMatches(rest: string)
    ensures IsSeries(rest) <==> exists a, b :: DigitsOnly(a) && DigitsOnly(b) && rest == a + "." + b
  {
    if IsSeries(rest) {
      var k :| 0 <= k < |rest| && rest[k] == '.' && DigitsOnly(rest[..k]) && DigitsOnly(rest[k + 1..]);
      assert rest == rest[..k] + "." + rest[k + 1..];
    }
    if a, b :| DigitsOnly(a) && DigitsOnly(b) && rest == a + "." + b {
      assert rest[|a|] == '.' && rest[..|a|] == a && rest[|a| + 1..] == b;
    }
  }

  lemma KernelMetaMatches(name: string)
    ensures IsKernelMeta(name) <==>
      exists rest :: name == "proxmox-kernel-" + rest && exists a, b :: DigitsOnly(a) && DigitsOnly(b) && rest == a + "." + b
  {
    if IsKernelMeta(name) {
      AfterPrefix(name, KERNEL_PREFIX, name[|KERNEL_PREFIX|..]);
      SeriesMatches(name[|KERNEL_PREFIX|..]);
    }
    if rest :| name == KERNEL_PREFIX + rest && exists a, b :: DigitsOnly(a) && DigitsOnly(b) && rest == a + "." + b {
      AfterPrefix(name, KERNEL_PREFIX, rest);
      SeriesMatches(rest);
    }
  }

  /** An ABI is a digit, then anything without a space, then "-pve". */
  lemma AbiMatches(s: string)
    ensures IsAbi(s) <==> exists d, middle :: '0' <= d <= '9' && ' ' !in middle && s == [d] + middle + "-pve"
  {
    if IsAbi(s) {
      assert s == [s[0]] + s[1..|s| - 4] + "-pve";
    }
    if d, middle :| '0' <= d <= '9' && ' ' !in middle && s == [d] + middle + "-pve" {
      assert s[|s| - 4..] == "-pve";
      assert s == [d] + (middle + "-pve");
    }
  }

  lemma ListedNames(source: seq<AptPackage>, important: set<string>, name: string)
    ensures (exists u | u in Pending(source, important) :: u.name == name) <==>
      exists p | p in source :: p.name == name && p.candidate != "" && p.candidate != p.installed
  {
    PendingDescribesTheAnswer(source, important);
    if u :| u in Pending(source, important) && u.name == name {
      var i :| 0 <= i < |source| && FirstOfItsName(source, i) && u == UpgradeOf(source[i], important);
      assert source[i] in source;
    }
    if p :| p in source && p.name == name && Upgradable(p) {
      var i := FirstEntry(source, p);
      assert UpgradeOf(source[i], important) in Pending(source, important);
    }
  }

  lemma FirstEntry(source: seq<AptPackage>, p: AptPackage) returns (i: nat)
    requires p in source && Upgradable(p)
    ensures i < |source| && source[i].name == p.name && FirstOfItsName(source, i)
  {
    ChosenMembers(source);
    var q :| q in Chosen(source) && q.name == p.name;
    i :| 0 <= i < |source| && source[i] == q && FirstOfItsName(source, i);
  }

  /** What is read is the full answer when it was obtained, the tracked packages
      otherwise. A name is listed exactly when some entry read has a candidate
      other than what is installed. */
  lemma ReportListsNames(node: string, versions: seq<AptPackage>, updates: seq<AptPackage>, full: bool, name: string)
    ensures var rep, source := ReportOf(node, versions, updates, full), if full then updates else versions;
      && (rep.partial <==> !full) && rep.node == node
      && ((exists u | u in rep.pending :: u.name == name) <==>
          exists p | p in source :: p.name == name && p.candidate != "" && p.candidate != p.installed)
  {
    ListedNames(if full then updates else versions, Names(versions), name);
  }

  /** Each upgrade listed copies the first upgradable entry of its name, and is
      important exactly when its package is tracked. */
  lemma ReportListsEntries(node: string, versions: seq<AptPackage>, updates: seq<AptPackage>, full: bool, u: Upgrade)
    ensures var rep, source := ReportOf(node, versions, updates, full), if full then updates else versions;
      u in rep.pending <==> exists i | 0 <= i < |source| ::
        var p := source[i];
        && p.candidate != "" && p.candidate != p.installed
        && (forall j | 0 <= j < i && source[j].name == p.name :: source[j].candidate in {"", source[j].installed})
        && u.name == p.name && u.origin == p.origin && u.installed == p.installed && u.candidate == p.candidate
        && (u.important <==> exists v | v in versions :: v.name == p.name)
  {
    var rep, source := ReportOf(node, versions, updates, full), if full then updates else versions;
    PendingDescribesTheAnswer(source, Names(versions));
    forall i | 0 <= i < |source|
      ensures FirstOfItsName(source, i) && u == UpgradeOf(source[i], Names(versions)) <==>
        var p := source[i];
        && p.candidate != "" && p.candidate != p.installed
        && (forall j | 0 <= j < i && source[j].name == p.name :: source[j].candidate in {"", source[j].installed})
        && u.name == p.name && u.origin == p.origin && u.installed == p.installed && u.candidate == p.candidate
        && (u.important <==> exists v | v in versions :: v.name == p.name)
    {
    }
  }

  /** Tracked packages come before the others, inside that Proxmox's own before
      the others, and then each name before every greater one. */
  lemma ReportIsOrdered(node: string, versions: seq<AptPackage>, updates: seq<AptPackage>, full: bool, i: nat, j: nat)
    requires i < j < |ReportOf(node, versions, updates, full).pending|
    ensures var pending := ReportOf(node, versions, updates, full).pending; var a, b := pending[i], pending[j];
      && (b.important ==> a.important)
      && (a.important == b.important && b.origin == "Proxmox" ==> a.origin == "Proxmox")
      && (a.important == b.important && (a.origin == "Proxmox") == (b.origin == "Proxmox") ==> Compare(a.name, b.name) < 0)
  {
    var source := if full then updates else versions;
    PendingDescribesTheAnswer(source, Names(versions));
    UpgradesAreNamedOnce(source, Names(versions));
    var us, pending := UpgradesOf(Chosen(source), Names(versions)), Pending(source, Names(versions));
    SortKeepsElements(ListedBefore, us);
    SameElements(pending, us);
    NamedOnce(us, pending, i, j);
    CompareIsAntisymmetric(pending[i].name, pending[j].name);
  }

  lemma TwoPlaces<T>(xs: seq<T>, i: nat, j: nat)
    requires i < j < |xs| && xs[i] == xs[j]
    ensures multiset(xs)[xs[i]] >= 2
  {
    var front, back := xs[..j], xs[j..];
    assert xs == front + back;
    assert front[i] in multiset(front) && back[0] in multiset(back);
  }

  lemma OneOfAName(us: seq<Upgrade>, x: Upgrade, y: Upgrade)
    requires x in us && y in us && x.name == y.name
    requires forall k, l | 0 <= k < l < |us| :: us[k].name != us[l].name
    ensures x == y
  {
    var k :| 0 <= k < |us| && us[k] == x;
    var l :| 0 <= l < |us| && us[l] == y;
    assert k == l;
  }

  lemma NamedOnce(us: seq<Upgrade>, vs: seq<Upgrade>, i: nat, j: nat)
    requires multiset(us) == multiset(vs) && i < j < |vs|
    requires forall k, l | 0 <= k < l < |us| :: us[k].name != us[l].name
    ensures vs[i].name != vs[j].name
  {
    if vs[i].name == vs[j].name {
      SameElements(us, vs);
      OneOfAName(us, vs[i], vs[j]);
      DistinctCountsOne(us, vs[i]);
      TwoPlaces(vs, i, j);
    }
  }

  lemma ChosenSatisfy(source: seq<AptPackage>, test: AptPackage -> bool)
    ensures (exists p | p in Chosen(source) :: test(p)) <==>
      exists i | 0 <= i < |source| :: FirstOfItsName(source, i) && test(source[i])
  {
    ChosenMembers(source);
    if i :| 0 <= i < |source| && FirstOfItsName(source, i) && test(source[i]) {
      assert source[i] in Chosen(source);
    }
  }

  /** The upgrade brings a kernel exactly when a listed entry is the package of a
      kernel series, or a kernel image not installed yet, or when a tracked series
      package is upgradable. */
  lemma KernelUpdateCauses(node: string, versions: seq<AptPackage>, updates: seq<AptPackage>, full: bool)
    ensures var rep, source := ReportOf(node, versions, updates, full), if full then updates else versions;
      rep.kernelUpdate <==>
        || (exists i | 0 <= i < |source| :: FirstOfItsName(source, i) &&
              (IsKernelMeta(source[i].name) || (source[i].installed == "" && KernelAbi(source[i].name).Some?)))
        || (exists p | p in versions :: IsKernelMeta(p.name) && p.candidate != "" && p.candidate != p.installed)
  {
    ChosenSatisfy(if full then updates else versions, BringsKernel);
  }

  /** strings.Cut up to the separator, or all of it when there is none. */
  lemma {:induction false} CutBeforeCuts(s: string, sep: char)
    ensures sep !in CutBefore(s, sep)
    ensures CutBefore(s, sep) <= s
    ensures var rest := s[|CutBefore(s, sep)|..]; rest == [] || rest[0] == sep
  {
    if s != [] && s[0] != sep {
      CutBeforeCuts(s[1..], sep);
      assert s == [s[0]] + s[1..];
      assert s[|CutBefore(s, sep)|..] == s[1..][|CutBefore(s[1..], sep)|..];
    }
  }

  lemma {:induction false} LastEntryDecides(versions: seq<AptPackage>, i: nat)
    requires i < |versions| && versions[i].name == "pve-manager"
    requires forall j | i < j < |versions| :: versions[j].name != "pve-manager"
    ensures Manager(versions) == ManagerEntry(versions[i])
    decreases |versions|
  {
    var n := |versions| - 1;
    if i < n {
      LastEntryDecides(versions[..n], i);
    }
  }

  /** The manager is the last pve-manager entry; its daemons are to be restarted
      exactly when what is installed is newer than the version they report before
      the slash, both known. */
  lemma ManagerIsTheLastEntry(node: string, versions: seq<AptPackage>, updates: seq<AptPackage>, full: bool, i: nat)
    requires i < |versions| && versions[i].name == "pve-manager"
    requires forall j | i < j < |versions| :: versions[j].name != "pve-manager"
    ensures var p, rep := versions[i], ReportOf(node, versions, updates, full);
      && rep.manager == Upgrade("pve-manager", p.origin, p.installed, p.candidate, false)
      && (rep.restartDaemons <==> exists k | 0 < k <= |p.managerVersion| ::
            && (forall m | 0 <= m < k :: p.managerVersion[m] != '/')
            && (k < |p.managerVersion| ==> p.managerVersion[k] == '/')
            && p.installed != "" && Order(p.installed, p.managerVersion[..k]) > 0)
  {
    LastEntryDecides(versions, i);
    DaemonsAreOlder(versions[i]);
  }

  lemma DaemonsAreOlder(p: AptPackage)
    ensures ManagerEntry(p).1 <==> exists k | 0 < k <= |p.managerVersion| ::
      && (forall m | 0 <= m < k :: p.managerVersion[m] != '/')
      && (k < |p.managerVersion| ==> p.managerVersion[k] == '/')
      && p.installed != "" && Order(p.installed, p.managerVersion[..k]) > 0
  {
    var v := p.managerVersion;
    var cut := CutBefore(v, '/');
    CutBeforeCuts(v, '/');
    assert v[..|cut|] == cut;
    assert forall m | 0 <= m < |cut| :: v[m] == cut[m] && v[m] != '/';
    assert |cut| < |v| ==> v[|cut|] == v[|cut|..][0];
    assert forall k | 0 < k <= |v| && (forall m | 0 <= m < k :: v[m] != '/') && (k < |v| ==> v[k] == '/') :: k == |cut|;
  }

  lemma {:induction false} NoManagerEntry(node: string, versions: seq<AptPackage>, updates: seq<AptPackage>, full: bool)
    requires forall p | p in versions :: p.name != "pve-manager"
    ensures var rep := ReportOf(node, versions, updates, full);
      rep.manager == Upgrade("", "", "", "", false) && !rep.restartDaemons
    decreases |versions|
  {
    if versions != [] {
      assert versions[|versions| - 1] in versions;
      NoManagerEntry(node, versions[..|versions| - 1], updates, full);
    }
  }

  /** The running kernel is what the last proxmox-ve entry that knows it says. */
  lemma RunningIsTheLastReport(node: string, versions: seq<AptPackage>, updates: seq<AptPackage>, full: bool, k: string)
    ensures ReportOf(node, versions, updates, full).runningKernel == k && k != "" <==> exists i | 0 <= i < |versions| ::
      && versions[i].name == "proxmox-ve" && versions[i].runningKernel == k && k != ""
      && forall j | i < j < |versions| && versions[j].name == "proxmox-ve" :: versions[j].runningKernel == ""
  {
    LastReportDecides(versions, k);
  }

  lemma {:induction false} LastReportDecides(versions: seq<AptPackage>, k: string)
    ensures Running(versions) == k && k != "" <==> exists i | 0 <= i < |versions| ::
      && versions[i].name == "proxmox-ve" && versions[i].runningKernel == k && k != ""
      && forall j | i < j < |versions| && versions[j].name == "proxmox-ve" :: versions[j].runningKernel == ""
  {
    if versions != [] {
      var n := |versions| - 1;
      var front, last := versions[..n], versions[n];
      LastReportDecides(front, k);
      assert forall i | 0 <= i < n :: versions[i] == front[i];
      if last.name == "proxmox-ve" && last.runningKernel != "" {
      } else if Running(front) == k && k != "" {
        var i :| 0 <= i < |front| && front[i].name == "proxmox-ve" && front[i].runningKernel == k
          && forall j | i < j < |front| && front[j].name == "proxmox-ve" :: front[j].runningKernel == "";
        assert versions[i].runningKernel == k;
      }
    }
  }

  /** The package is an installed image of the kernel. */
  ghost predicate Installs(p: AptPackage, abi: string) {
    p.state == "Installed" && KernelAbi(p.name) == Some(abi)
  }

  lemma ReplacedIsOlder(front: seq<AptPackage>, last: AptPackage, p: AptPackage, abi: string)
    requires p in front && Installs(p, abi) && Newest(front) != Newer(Newest(front), InstalledKernel(last))
    ensures Order(abi, Newer(Newest(front), InstalledKernel(last))) < 0
  {
    var newest := Newer(Newest(front), InstalledKernel(last));
    NewestIsMaximal(front);
    NewestIsInstalled(front);
    assert InstalledKernel(p) == Some(abi);
    OrderIsAntisymmetric(newest, Newest(front));
    OrderIsTransitive(abi, Newest(front), newest);
  }

  /** Entry i installs the kernel, and every image installed before it is older. */
  ghost predicate FirstOfTheNewest(versions: seq<AptPackage>, i: nat, newest: string)
    requires i < |versions|
  {
    Installs(versions[i], newest) && forall j, abi | 0 <= j < i && Installs(versions[j], abi) :: Order(abi, newest) < 0
  }

  /** The newest kernel is the first of the greatest, over the installed images. */
  lemma NewestIsFirstAmongEquals(node: string, versions: seq<AptPackage>, updates: seq<AptPackage>, full: bool)
    ensures var newest := ReportOf(node, versions, updates, full).newestKernel;
      && (forall p, abi | p in versions && Installs(p, abi) :: newest != "" && Order(abi, newest) <= 0)
      && (newest != "" ==> exists i | 0 <= i < |versions| :: FirstOfTheNewest(versions, i, newest))
  {
    NewestIsInstalled(versions);
    NewestIsMaximal(versions);
    assert forall p, abi | Installs(p, abi) :: InstalledKernel(p) == Some(abi);
    if Newest(versions) != "" {
      NewestComesFirst(versions);
    }
  }

  lemma {:induction false} NewestComesFirst(versions: seq<AptPackage>)
    requires Newest(versions) != ""
    ensures exists i | 0 <= i < |versions| :: FirstOfTheNewest(versions, i, Newest(versions))
  {
    var n, newest := |versions| - 1, Newest(versions);
    var front, last := versions[..n], versions[n];
    if Newest(front) == newest {
      NewestComesFirst(front);
      var i :| 0 <= i < n && FirstOfTheNewest(front, i, newest);
      assert forall j | 0 <= j <= i :: versions[j] == front[j];
      assert FirstOfTheNewest(versions, i, newest);
    } else {
      forall j, abi | 0 <= j < n && Installs(versions[j], abi) ensures Order(abi, newest) < 0 {
        assert versions[j] == front[j];
        ReplacedIsOlder(front, last, front[j], abi);
      }
      assert FirstOfTheNewest(versions, n, newest);
    }
  }
}
