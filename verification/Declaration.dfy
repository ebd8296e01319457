/** The declaration file and the two commands that write it (cmd/declare.go,
    cmd/lxc_declare.go, cmd/suggest_id.go, internal/iac/declare.go). The two
    commands do the same with different fields, on two maps that share one vmid
    namespace. */
module Declaration {
  import opened Results
  import opened Text
  import C = Catalog
  import L = CatalogLimits
  import Resolve

  /** A declared guest; the fields the two kinds share carry the same names. */
  datatype Guest =
    | VM(vmid: int, cores: int, memory: int, disk: int, template: int, ip: string, gateway: string, node: string,
         balloon: int, user: string, services: seq<string>, tags: seq<string>)
    | LXC(vmid: int, cores: int, memory: int, disk: int, template: int, ip: string, gateway: string, node: string,
          unprivileged: bool, services: seq<string>, tags: seq<string>)

  datatype Kind = KindVM | KindLXC

  datatype Decl = Decl(vms: map<string, Guest>, lxcs: map<string, Guest>)

  // ---------------------------------------------------------- what is typed

  /** The value flags; None is a flag that was not given, or one the command does
      not have. The fields a terminal asks for have the same shape: there None is
      a blank answer. */
  datatype Flags = Flags(
    vmid: Option<int>, cores: Option<int>, memory: Option<int>, disk: Option<int>, template: Option<int>,
    ip: Option<string>, gateway: Option<string>, node: Option<string>,
    balloon: Option<int>, user: Option<string>, unprivileged: Option<bool>)

  /** The rest of one invocation: --with, --remove, --suggest-id, the ids picked
      from the list (None: no terminal to pick on, or the choice was given up), the
      node's proposal (None: the node did not answer), and how the run ends. */
  datatype Session = Session(
    with: Option<seq<string>>, remove: bool, suggestId: bool, picked: Option<seq<string>>, proposed: Option<int>,
    dryRun: bool, allowed: bool, saved: bool)

  datatype DeclareError =
    | TwoSourcesForVmid | SuggestWithRemove | SuggestOnExisting | NodeSilent
    | NothingToRemove
    | NothingPicked
    | UnknownService(error: Resolve.UnknownService)
    | MissingFields
    | Invalid
    | VmidTaken(vmid: int)

  function Or<T>(given: Option<T>, otherwise: T): T {
    if given.Some? then given.value else otherwise
  }

  // --------------------------------------------------------- vmid namespace

  function Of(d: Decl, kind: Kind): map<string, Guest> {
    match kind
    case KindVM => d.vms
    case KindLXC => d.lxcs
  }

  function At(d: Decl, kind: Kind, name: string): Option<Guest> {
    if name in Of(d, kind) then Some(Of(d, kind)[name]) else None
  }

  /** vmidClaimedLocally. */
  predicate Claimed(d: Decl, vmid: int) {
    (exists n | n in d.vms :: d.vms[n].vmid == vmid) || (exists n | n in d.lxcs :: d.lxcs[n].vmid == vmid)
  }

  /** VMIDOwner: another entry, by name and kind together, holds this vmid. */
  predicate HeldByOther(d: Decl, vmid: int, name: string, kind: Kind) {
    || (exists n | n in d.vms :: (n != name || kind != KindVM) && d.vms[n].vmid == vmid)
    || (exists n | n in d.lxcs :: (n != name || kind != KindLXC) && d.lxcs[n].vmid == vmid)
  }

  ghost predicate Clash(d: Decl, k: Kind, n: string, l: Kind, o: string) {
    n in Of(d, k) && o in Of(d, l) && (k, n) != (l, o) && Of(d, k)[n].vmid == Of(d, l)[o].vmid
  }

  ghost predicate UniqueVmids(d: Decl) {
    forall k, n, l, o :: !Clash(d, k, n, l, o)
  }

  // -------------------------------------------------------------- suggest-id

  ghost function ClaimedIds(d: Decl): set<int> {
    (set n | n in d.vms :: d.vms[n].vmid) + (set n | n in d.lxcs :: d.lxcs[n].vmid)
  }

  /** The ids at or above the proposal that stand in its way. */
  ghost function Ahead(d: Decl, id: int): set<int> {
    set x | x in ClaimedIds(d) && x >= id
  }

  ghost function LeastFree(d: Decl, id: int): (r: int)
    ensures id <= r && !Claimed(d, r)
    ensures forall x | id <= x < r :: Claimed(d, x)
    decreases |Ahead(d, id)|
  {
    if Claimed(d, id) then
      AheadShrinks(d, id);
      LeastFree(d, id + 1)
    else id
  }

  lemma ClaimedIsMember(d: Decl, id: int)
    ensures Claimed(d, id) <==> id in ClaimedIds(d)
  {
  }

  lemma AheadShrinks(d: Decl, id: int)
    requires Claimed(d, id)
    ensures |Ahead(d, id + 1)| < |Ahead(d, id)|
  {
    ClaimedIsMember(d, id);
    assert Ahead(d, id) == Ahead(d, id + 1) + {id};
    assert id !in Ahead(d, id + 1);
  }

  /** resolveSuggestedID; 0 when no suggestion was asked for. */
  ghost function Suggestion(d: Decl, s: Session, vmidGiven: bool, known: bool): Result<int, DeclareError> {
    if !s.suggestId then Ok(0)
    else if vmidGiven then Err(TwoSourcesForVmid)
    else if s.remove then Err(SuggestWithRemove)
    else if known then Err(SuggestOnExisting)
    else if s.proposed.None? then Err(NodeSilent)
    else Ok(LeastFree(d, s.proposed.value))
  }

  method ResolveSuggestedId(d: Decl, s: Session, vmidGiven: bool, known: bool) returns (r: Result<int, DeclareError>)
    ensures r == Suggestion(d, s, vmidGiven, known)
  {
    if !s.suggestId {
      return Ok(0);
    }
    if vmidGiven {
      return Err(TwoSourcesForVmid);
    }
    if s.remove {
      return Err(SuggestWithRemove);
    }
    if known {
      return Err(SuggestOnExisting);
    }
    if s.proposed.None? {
      return Err(NodeSilent);
    }
    var id := s.proposed.value;
    while Claimed(d, id)
      invariant LeastFree(d, id) == LeastFree(d, s.proposed.value)
      decreases |Ahead(d, id)|
    {
      AheadShrinks(d, id);
      id := id + 1;
    }
    return Ok(id);
  }

  // ---------------------------------------------------------------- services

  const OWNER_TAGS := ["managed", "pvecli"]

  function GuestTags(serviceTags: seq<string>): seq<string> {
    Sort(Before, OWNER_TAGS + serviceTags)
  }

  /** The recorded services and the tags: from --with, from the list picked for a
      new guest, or the recorded services again, whose tags are re-derived. */
  function Asking(recorded: Option<seq<string>>, s: Session): Option<seq<string>> {
    if s.with.Some? then s.with else if recorded.Some? then recorded else s.picked
  }

  ghost function ServicesFor(cat: C.Catalog, recorded: Option<seq<string>>, s: Session)
    : Result<(seq<string>, seq<string>), DeclareError>
    requires C.Valid(cat)
  {
    var asked := Asking(recorded, s);
    if asked.None? then Err(NothingPicked)
    else match Resolve.Resolution(cat, asked.value)
      case Err(e) => Err(UnknownService(e))
      case Ok(out) =>
        Ok((if s.with.None? && recorded.Some? then recorded.value else C.Ids(out), GuestTags(Resolve.Tags(out))))
  }

  method ResolveServices(cat: C.Catalog, recorded: Option<seq<string>>, s: Session)
    returns (r: Result<(seq<string>, seq<string>), DeclareError>)
    requires C.Valid(cat)
    ensures r == ServicesFor(cat, recorded, s)
  {
    var asked := recorded;
    if s.with.Some? {
      asked := s.with;
    } else if recorded.None? {
      if s.picked.None? {
        return Err(NothingPicked);
      }
      asked := s.picked;
    }
    var out := Resolve.Resolve(cat, asked.value);
    match out {
      case Err(e) =>
        return Err(UnknownService(e));
      case Ok(services) =>
        var ids := C.Ids(services);
        if s.with.None? && recorded.Some? {
          ids := recorded.value;
        }
        return Ok((ids, GuestTags(Resolve.Tags(services))));
    }
  }

  // ---------------------------------------------------------------- validity

  predicate LowerAlnum(c: char) {
    'a' <= c <= 'z' || '0' <= c <= '9'
  }

  /** ^[a-z0-9]([a-z0-9-]{0,61}[a-z0-9])?$ */
  predicate IsHostname(name: string) {
    && 1 <= |name| <= 63
    && LowerAlnum(name[0]) && LowerAlnum(name[|name| - 1])
    && forall i | 0 <= i < |name| :: LowerAlnum(name[i]) || name[i] == '-'
  }

  predicate ValidAddress(ip: string, gateway: string) {
    && (ip == "" || ip == "dhcp" || '/' in ip)
    && !(ip == "dhcp" && gateway != "")
  }

  predicate ValidGuest(name: string, g: Guest) {
    && IsHostname(name) && g.vmid >= 100 && g.cores >= 1 && g.memory >= 512
    && (g.LXC? ==> g.template >= 100)
    && ValidAddress(g.ip, g.gateway)
  }

  // ------------------------------------------------------------- the fields

  function NewGuest(kind: Kind): Guest {
    match kind
    case KindVM => VM(0, 0, 0, 20, 0, "dhcp", "", "", 0, "ops", [], [])
    case KindLXC => LXC(0, 0, 0, 8, 0, "dhcp", "", "", true, [], [])
  }

  /** A prompt: skipped when the flag was given, a blank answer keeps the default. */
  function Asked<T>(flag: Option<T>, answer: Option<T>, otherwise: T): T {
    if flag.Some? then otherwise else Or(answer, otherwise)
  }

  function Field<T>(base: T, flag: Option<T>, ask: bool, answer: Option<T>): T {
    if flag.Some? then flag.value else if ask then Or(answer, base) else base
  }

  /** The fields of the new entry: flags given, the suggested vmid, then, for a
      new entry on a terminal, the answers to what no flag settled. */
  function Fields(kind: Kind, before: Option<Guest>, f: Flags, suggested: int, answers: Option<Flags>): Guest {
    var ask := before.None? && answers.Some?;
    FieldsOver(Or(before, NewGuest(kind)), f, suggested, ask, if ask then answers.value else f)
  }

  function FieldsOver(base: Guest, f: Flags, suggested: int, ask: bool, a: Flags): Guest {
    var ip := Field(base.ip, f.ip, ask, a.ip);
    var gateway :=
      if f.gateway.None? && ip == "dhcp" then ""
      else Field(base.gateway, f.gateway, ask, a.gateway);
    var vmid := if suggested != 0 then suggested else Or(f.vmid, base.vmid);
    var g := base.(
      vmid := if f.vmid.None? && ask then Or(a.vmid, vmid) else vmid,
      cores := Field(base.cores, f.cores, ask, a.cores),
      memory := Field(base.memory, f.memory, ask, a.memory),
      disk := Field(base.disk, f.disk, ask, a.disk),
      template := Field(base.template, f.template, ask, a.template),
      ip := ip, gateway := gateway,
      node := Field(base.node, f.node, ask, a.node));
    if g.VM? then g.(balloon := Or(f.balloon, g.balloon), user := Field(g.user, f.user, ask, a.user))
    else g.(unprivileged := Field(g.unprivileged, f.unprivileged, ask, a.unprivileged))
  }

  /** The flags over an entry. */
  function Flagged(g: Guest, f: Flags): Guest {
    var h := g.(
      vmid := Or(f.vmid, g.vmid), cores := Or(f.cores, g.cores), memory := Or(f.memory, g.memory),
      disk := Or(f.disk, g.disk), template := Or(f.template, g.template),
      ip := Or(f.ip, g.ip), gateway := Or(f.gateway, g.gateway), node := Or(f.node, g.node));
    if g.VM? then h.(balloon := Or(f.balloon, g.balloon), user := Or(f.user, g.user))
    else h.(unprivileged := Or(f.unprivileged, g.unprivileged))
  }

  /** The answers over an entry; no gateway is asked for on dhcp. */
  function Answered(g: Guest, f: Flags, a: Flags): Guest {
    var ip := Asked(f.ip, a.ip, g.ip);
    var h := g.(
      vmid := Asked(f.vmid, a.vmid, g.vmid), cores := Asked(f.cores, a.cores, g.cores),
      memory := Asked(f.memory, a.memory, g.memory), disk := Asked(f.disk, a.disk, g.disk),
      template := Asked(f.template, a.template, g.template),
      ip := ip, gateway := if ip == "dhcp" then g.gateway else Asked(f.gateway, a.gateway, g.gateway),
      node := Asked(f.node, a.node, g.node));
    if g.VM? then h.(user := Asked(f.user, a.user, g.user))
    else h.(unprivileged := Asked(f.unprivileged, a.unprivileged, g.unprivileged))
  }

  /** The gateway dhcp drops. */
  function Settled(g: Guest, f: Flags): Guest {
    if g.ip == "dhcp" && f.gateway.None? then g.(gateway := "") else g
  }

  /** promptMissingVMFields and promptMissingLXCFields. */
  method Ask(start: Guest, f: Flags, a: Flags) returns (g: Guest)
    ensures g == Answered(start, f, a)
  {
    g := start;
    g := g.(vmid := Asked(f.vmid, a.vmid, g.vmid));
    g := g.(cores := Asked(f.cores, a.cores, g.cores));
    g := g.(memory := Asked(f.memory, a.memory, g.memory));
    g := g.(disk := Asked(f.disk, a.disk, g.disk));
    g := g.(template := Asked(f.template, a.template, g.template));
    g := g.(ip := Asked(f.ip, a.ip, g.ip));
    if g.ip != "dhcp" {
      g := g.(gateway := Asked(f.gateway, a.gateway, g.gateway));
    }
    g := g.(node := Asked(f.node, a.node, g.node));
    if g.VM? {
      g := g.(user := Asked(f.user, a.user, g.user));
    } else {
      g := g.(unprivileged := Asked(f.unprivileged, a.unprivileged, g.unprivileged));
    }
  }

  /** The flags, one at a time. */
  method ApplyFlags(start: Guest, f: Flags) returns (g: Guest)
    ensures g == Flagged(start, f)
  {
    g := start;
    g := g.(vmid := Or(f.vmid, g.vmid));
    g := g.(cores := Or(f.cores, g.cores));
    g := g.(memory := Or(f.memory, g.memory));
    g := g.(disk := Or(f.disk, g.disk));
    g := g.(template := Or(f.template, g.template));
    g := g.(ip := Or(f.ip, g.ip));
    g := g.(gateway := Or(f.gateway, g.gateway));
    g := g.(node := Or(f.node, g.node));
    if g.VM? {
      g := g.(balloon := Or(f.balloon, g.balloon));
      g := g.(user := Or(f.user, g.user));
    } else {
      g := g.(unprivileged := Or(f.unprivileged, g.unprivileged));
    }
  }

  function Suggested(g: Guest, vmid: int): Guest {
    if vmid != 0 then g.(vmid := vmid) else g
  }

  /** The stages of buildDeclaration leave in each field what Fields says. */
  lemma StagesWithoutPrompts(g: Guest, f: Flags, suggested: int)
    ensures Settled(Suggested(Flagged(g, f), suggested), f) == FieldsOver(g, f, suggested, false, f)
  {
  }

  lemma StagesWithPrompts(g: Guest, f: Flags, suggested: int, a: Flags)
    ensures Settled(Answered(Suggested(Flagged(g, f), suggested), f, a), f) == FieldsOver(g, f, suggested, true, a)
  {
  }

  /** The first half of buildDeclaration and of buildLXCDeclaration: flags, the
      suggested vmid, the prompts of a new entry, and the gateway dhcp drops. */
  method Merge(kind: Kind, before: Option<Guest>, f: Flags, suggested: int, answers: Option<Flags>) returns (g: Guest)
    ensures g == Fields(kind, before, f, suggested, answers)
  {
    ghost var base := Or(before, NewGuest(kind));
    g := ApplyFlags(if before.Some? then before.value else NewGuest(kind), f);
    if suggested != 0 {
      g := g.(vmid := suggested);
    }
    if before.None? && answers.Some? {
      g := Ask(g, f, answers.value);
    }
    if g.ip == "dhcp" && f.gateway.None? {
      g := g.(gateway := "");
    }
    if before.None? && answers.Some? {
      StagesWithPrompts(base, f, suggested, answers.value);
    } else {
      StagesWithoutPrompts(base, f, suggested);
    }
  }

  // -------------------------------------------------------------- the entry

  predicate Missing(g: Guest) {
    g.vmid == 0 || g.cores == 0 || g.memory == 0 || (g.LXC? && g.template == 0)
  }

  ghost function Built(cat: C.Catalog, kind: Kind, name: string, before: Option<Guest>, f: Flags, s: Session,
                       suggested: int, answers: Option<Flags>): Result<Guest, DeclareError>
    requires C.Valid(cat)
  {
    var g := Fields(kind, before, f, suggested, answers);
    match ServicesFor(cat, if before.Some? then Some(before.value.services) else None, s)
    case Err(e) => Err(e)
    case Ok((services, tags)) =>
      if before.None? && Missing(g) then Err(MissingFields)
      else if !ValidGuest(name, g) then Err(Invalid)
      else Ok(g.(services := services, tags := tags))
  }

  /** buildDeclaration and buildLXCDeclaration. */
  method Build(cat: C.Catalog, kind: Kind, name: string, before: Option<Guest>, f: Flags, s: Session,
               suggested: int, answers: Option<Flags>) returns (r: Result<Guest, DeclareError>)
    requires C.Valid(cat)
    ensures r == Built(cat, kind, name, before, f, s, suggested, answers)
  {
    var g := Merge(kind, before, f, suggested, answers);
    var services := ResolveServices(cat, if before.Some? then Some(before.value.services) else None, s);
    if services.Err? {
      return Err(services.error);
    }
    if before.None? && Missing(g) {
      return Err(MissingFields);
    }
    if !ValidGuest(name, g) {
      return Err(Invalid);
    }
    return Ok(g.(services := services.value.0, tags := services.value.1));
  }

  // ------------------------------------------------------------ one command

  datatype Command = Declare(kind: Kind, name: string, flags: Flags, answers: Option<Flags>, session: Session)

  /** What Diff and DiffLXC compare: zero numbers and missing entries both render
      as nothing, lists are joined. A field a kind does not have renders as
      nothing. */
  datatype Rendering = Rendering(numbers: seq<int>, texts: seq<string>)

  function Render(g: Option<Guest>): Rendering {
    match g
    case None => Rendering([0, 0, 0, 0, 0, 0], ["", "", "", "", "", "", ""])
    case Some(VM(vmid, cores, memory, disk, template, ip, gateway, node, balloon, user, services, tags)) =>
      Rendering([vmid, cores, memory, disk, template, balloon],
                [ip, gateway, node, user, "", Join(services, ','), Join(tags, ',')])
    case Some(LXC(vmid, cores, memory, disk, template, ip, gateway, node, unprivileged, services, tags)) =>
      Rendering([vmid, cores, memory, disk, template, 0],
                [ip, gateway, node, "", if unprivileged then "true" else "false", Join(services, ','), Join(tags, ',')])
  }

  /** What the command would leave for the entry: None removes it. */
  ghost function After(cat: C.Catalog, d: Decl, c: Command): Result<Option<Guest>, DeclareError>
    requires C.Valid(cat)
  {
    var before := At(d, c.kind, c.name);
    match Suggestion(d, c.session, c.flags.vmid.Some?, before.Some?)
    case Err(e) => Err(e)
    case Ok(suggested) =>
      if c.session.remove then (if before.None? then Err(NothingToRemove) else Ok(None))
      else match Built(cat, c.kind, c.name, before, c.flags, c.session, suggested, c.answers)
        case Err(e) => Err(e)
        case Ok(g) => if HeldByOther(d, g.vmid, c.name, c.kind) then Err(VmidTaken(g.vmid)) else Ok(Some(g))
  }

  function ErrorOf<T>(r: Result<T, DeclareError>): Option<DeclareError> {
    if r.Err? then Some(r.error) else None
  }

  function Changed(m: map<string, Guest>, name: string, g: Option<Guest>): map<string, Guest> {
    match g
    case None => m - {name}
    case Some(x) => m[name := x]
  }

  function Put(d: Decl, kind: Kind, name: string, g: Option<Guest>): Decl {
    match kind
    case KindVM => d.(vms := Changed(d.vms, name, g))
    case KindLXC => d.(lxcs := Changed(d.lxcs, name, g))
  }

  predicate Writes(s: Session) {
    !s.dryRun && s.allowed && s.saved
  }

  /** Nothing is written on an error, an empty difference, a dry run, a refusal
      at the prompt or a failed save. */
  function Save(d: Decl, kind: Kind, name: string, after: Result<Option<Guest>, DeclareError>, s: Session): Decl {
    if after.Err? || Render(At(d, kind, name)) == Render(after.value) || !Writes(s) then d
    else Put(d, kind, name, after.value)
  }

  /** The declaration on disk after the command. */
  ghost function Step(cat: C.Catalog, d: Decl, c: Command): Decl
    requires C.Valid(cat)
  {
    Save(d, c.kind, c.name, After(cat, d, c), c.session)
  }

  /** The reading half of runDeclare and runLXCDeclare: what the command would
      leave. */
  method Plan(cat: C.Catalog, decl: Decl, c: Command) returns (after: Result<Option<Guest>, DeclareError>)
    requires C.Valid(cat)
    ensures after == After(cat, decl, c)
    ensures after.Ok? ==> (after.value.None? <==> c.session.remove)
  {
    var before := At(decl, c.kind, c.name);
    var suggested := ResolveSuggestedId(decl, c.session, c.flags.vmid.Some?, before.Some?);
    if suggested.Err? {
      return Err(suggested.error);
    }
    if c.session.remove {
      return if before.None? then Err(NothingToRemove) else Ok(None);
    }
    var next := Build(cat, c.kind, c.name, before, c.flags, c.session, suggested.value, c.answers);
    if next.Err? {
      return Err(next.error);
    }
    if HeldByOther(decl, next.value.vmid, c.name, c.kind) {
      return Err(VmidTaken(next.value.vmid));
    }
    return Ok(Some(next.value));
  }

  /** The declaration file: loaded at the start of a command, replaced whole by
      its Save. */
  class DeclarationFile {
    var onDisk: Decl

    /** runDeclare and runLXCDeclare. */
    method RunDeclare(cat: C.Catalog, c: Command) returns (err: Option<DeclareError>)
      requires C.Valid(cat)
      modifies this
      ensures onDisk == Step(cat, old(onDisk), c)
      ensures err == ErrorOf(After(cat, old(onDisk), c))
    {
      var decl := onDisk;
      var after := Plan(cat, decl, c);
      if after.Err? {
        return Some(after.error);
      }
      if Render(At(decl, c.kind, c.name)) == Render(after.value) || c.session.dryRun || !c.session.allowed {
        return None;
      }
      decl := Put(decl, c.kind, c.name, if c.session.remove then None else after.value);
      if c.session.saved {
        onDisk := decl;
      }
      return None;
    }
  }

  // -------------------------------------------------------------- every run

  ghost function Run(cat: C.Catalog, d: Decl, commands: seq<Command>): Decl
    requires C.Valid(cat)
  {
    if commands == [] then d
    else Step(cat, Run(cat, d, commands[..|commands| - 1]), commands[|commands| - 1])
  }

  /** Writing an entry whose vmid nobody else holds makes no new clash. */
  lemma SaveMakesNoClash(d: Decl, kind: Kind, name: string, after: Result<Option<Guest>, DeclareError>, s: Session)
    requires after.Ok? && after.value.Some? ==> !HeldByOther(d, after.value.value.vmid, name, kind)
    ensures var e := Save(d, kind, name, after, s);
      && (forall k, n, l, o | Clash(e, k, n, l, o) :: Clash(d, k, n, l, o))
      && (forall k, n | (k, n) != (kind, name) :: At(e, k, n) == At(d, k, n))
  {
  }

  /** Over any run of creations, resizes, removals and suggestions, vmids stay
      unique across VMs and containers; a hand-made clash can only go away. */
  lemma {:induction false} EveryRunKeepsVmidsUnique(cat: C.Catalog, d: Decl, commands: seq<Command>)
    requires C.Valid(cat)
    ensures forall k, n, l, o | Clash(Run(cat, d, commands), k, n, l, o) :: Clash(d, k, n, l, o)
    ensures UniqueVmids(d) ==> UniqueVmids(Run(cat, d, commands))
    decreases |commands|
  {
    if commands != [] {
      var front, last := commands[..|commands| - 1], commands[|commands| - 1];
      EveryRunKeepsVmidsUnique(cat, d, front);
      var e := Run(cat, d, front);
      SaveMakesNoClash(e, last.kind, last.name, After(cat, e, last), last.session);
    }
  }

  // ------------------------------------------------------- fields not typed

  /** What two invocations typed together, the later one counting. */
  function Both(f: Flags, g: Flags): Flags {
    Flags(Later(f.vmid, g.vmid), Later(f.cores, g.cores), Later(f.memory, g.memory), Later(f.disk, g.disk),
          Later(f.template, g.template), Later(f.ip, g.ip), Later(f.gateway, g.gateway), Later(f.node, g.node),
          Later(f.balloon, g.balloon), Later(f.user, g.user), Later(f.unprivileged, g.unprivileged))
  }

  function Later<T>(a: Option<T>, b: Option<T>): Option<T> {
    if b.Some? then b else a
  }

  const NO_FLAGS := Flags(None, None, None, None, None, None, None, None, None, None, None)

  predicate Kept<T(==)>(flag: Option<T>, before: T, after: T) {
    flag.None? ==> before == after
  }

  /** Every field no flag names is the same; the gateway also moves with the ip,
      and the services with --with. */
  predicate SameButTyped(f: Flags, with: bool, g: Guest, h: Guest) {
    && g.VM? == h.VM?
    && Kept(f.vmid, g.vmid, h.vmid) && Kept(f.cores, g.cores, h.cores) && Kept(f.memory, g.memory, h.memory)
    && Kept(f.disk, g.disk, h.disk) && Kept(f.template, g.template, h.template) && Kept(f.ip, g.ip, h.ip)
    && Kept(f.node, g.node, h.node) && (f.ip.None? ==> Kept(f.gateway, g.gateway, h.gateway))
    && (g.VM? && h.VM? ==> Kept(f.balloon, g.balloon, h.balloon) && Kept(f.user, g.user, h.user))
    && (g.LXC? && h.LXC? ==> Kept(f.unprivileged, g.unprivileged, h.unprivileged))
    && (!with ==> g.services == h.services)
  }

  predicate Names(c: Command, kind: Kind, name: string) {
    c.kind == kind && c.name == name
  }

  /** The flags a run typed for one guest, and whether it typed --with. */
  function TypedFor(commands: seq<Command>, kind: Kind, name: string): (Flags, bool) {
    if commands == [] then (NO_FLAGS, false)
    else
      var before, last := TypedFor(commands[..|commands| - 1], kind, name), commands[|commands| - 1];
      if Names(last, kind, name) then (Both(before.0, last.flags), before.1 || last.session.with.Some?) else before
  }

  /** No gateway beside dhcp, as Validate asks. */
  predicate Consistent(g: Guest) {
    g.ip == "dhcp" ==> g.gateway == ""
  }

  lemma BuiltKeepsUntyped(cat: C.Catalog, kind: Kind, name: string, g: Guest, f: Flags, s: Session, answers: Option<Flags>)
    requires C.Valid(cat) && Consistent(g)
    ensures var r := Built(cat, kind, name, Some(g), f, s, 0, answers);
      r.Ok? ==> SameButTyped(f, s.with.Some?, g, r.value) && Consistent(r.value)
  {
    var h := Fields(kind, Some(g), f, 0, answers);
    assert SameButTyped(f, true, g, h);
  }

  lemma StepKeepsUntyped(cat: C.Catalog, d: Decl, c: Command)
    requires C.Valid(cat) && c.name in Of(d, c.kind) && Consistent(Of(d, c.kind)[c.name]) && !c.session.remove
    ensures var e := Step(cat, d, c);
      && c.name in Of(e, c.kind) && Consistent(Of(e, c.kind)[c.name])
      && SameButTyped(c.flags, c.session.with.Some?, Of(d, c.kind)[c.name], Of(e, c.kind)[c.name])
  {
    BuiltKeepsUntyped(cat, c.kind, c.name, Of(d, c.kind)[c.name], c.flags, c.session, c.answers);
  }

  lemma UntypedCompose(f: Flags, v: bool, g: Guest, h: Guest, e: Flags, w: bool, k: Guest)
    requires SameButTyped(f, v, g, h) && SameButTyped(e, w, h, k)
    ensures SameButTyped(Both(f, e), v || w, g, k)
  {
  }

  /** Over any run that does not remove a guest, only what was typed for it moves:
      a field no command of the run gave a flag for ends as it began. */
  lemma {:induction false} EveryRunKeepsUntypedFields(cat: C.Catalog, d: Decl, commands: seq<Command>, kind: Kind, name: string)
    requires C.Valid(cat) && name in Of(d, kind) && Consistent(Of(d, kind)[name])
    requires forall c | c in commands && Names(c, kind, name) :: !c.session.remove
    ensures var e := Run(cat, d, commands); name in Of(e, kind)
    ensures var e, typed := Run(cat, d, commands), TypedFor(commands, kind, name);
      Consistent(Of(e, kind)[name]) && SameButTyped(typed.0, typed.1, Of(d, kind)[name], Of(e, kind)[name])
    decreases |commands|
  {
    if commands != [] {
      var front, last := commands[..|commands| - 1], commands[|commands| - 1];
      assert last in commands;
      EveryRunKeepsUntypedFields(cat, d, front, kind, name);
      var e := Run(cat, d, front);
      if Names(last, kind, name) {
        StepKeepsUntyped(cat, e, last);
        var typed := TypedFor(front, kind, name);
        UntypedCompose(typed.0, typed.1, Of(d, kind)[name], Of(e, kind)[name],
                       last.flags, last.session.with.Some?, Of(Step(cat, e, last), kind)[name]);
      } else {
        OthersAreUntouched(e, last.kind, last.name, After(cat, e, last), last.session, kind, name);
      }
    }
  }

  lemma OthersAreUntouched(d: Decl, kind: Kind, name: string, after: Result<Option<Guest>, DeclareError>, s: Session,
                                  k: Kind, n: string)
    requires (k, n) != (kind, name)
    ensures At(Save(d, kind, name, after, s), k, n) == At(d, k, n)
  {
  }

  // ------------------------------------------------------------ suggestions

  /** `vmid` is the least id at or above `from` that neither map holds. */
  ghost predicate LeastFreeFrom(d: Decl, from: int, vmid: int) {
    from <= vmid && !Claimed(d, vmid) && forall x | from <= x < vmid :: Claimed(d, x)
  }

  lemma BuiltTakesTheSuggestion(cat: C.Catalog, c: Command, suggested: int)
    requires C.Valid(cat) && suggested != 0
    requires c.flags.vmid.None? && (c.answers.Some? ==> c.answers.value.vmid.None?)
    ensures var r := Built(cat, c.kind, c.name, None, c.flags, c.session, suggested, c.answers);
      if r.Ok? then r.value.vmid == suggested else !r.error.VmidTaken?
  {
    assert Fields(c.kind, None, c.flags, suggested, c.answers).vmid == suggested;
  }

  /** A suggested vmid is the least at or above the node's proposal that neither
      map holds, so a creation that keeps it is never refused for its vmid. */
  lemma SuggestedVmidIsFree(cat: C.Catalog, d: Decl, c: Command)
    requires C.Valid(cat) && c.session.suggestId && c.session.proposed.Some? && c.session.proposed.value > 0
    requires c.answers.Some? ==> c.answers.value.vmid.None?
    ensures var r := After(cat, d, c);
      (r.Ok? ==> r.value.Some? && LeastFreeFrom(d, c.session.proposed.value, r.value.value.vmid))
      && (r.Err? ==> !r.error.VmidTaken?)
  {
    var before := At(d, c.kind, c.name);
    var suggestion := Suggestion(d, c.session, c.flags.vmid.Some?, before.Some?);
    if suggestion.Ok? {
      BuiltTakesTheSuggestion(cat, c, suggestion.value);
    }
  }

  /** Two suggestions in a row, before anything is applied, never give the same
      vmid, whatever the node proposes: the first one, once written, is claimed. */
  lemma SuggestionsDiffer(cat: C.Catalog, d: Decl, c: Command, commands: seq<Command>, proposed: int)
    requires C.Valid(cat) && c.name in Of(Run(cat, Step(cat, d, c), commands), c.kind)
    requires After(cat, d, c).Ok? && After(cat, d, c).value.Some? && Step(cat, d, c) == Put(d, c.kind, c.name, After(cat, d, c).value)
    requires forall e | e in commands && Names(e, c.kind, c.name) :: !e.session.remove && e.flags.vmid.None?
    ensures LeastFree(Run(cat, Step(cat, d, c), commands), proposed) != After(cat, d, c).value.value.vmid
  {
    var d1, g := Step(cat, d, c), After(cat, d, c).value.value;
    BuiltIsValid(cat, c, d);
    assert At(d1, c.kind, c.name) == Some(g);
    EveryRunKeepsUntypedFields(cat, d1, commands, c.kind, c.name);
    NeverTypedVmid(commands, c.kind, c.name);
    var e := Run(cat, d1, commands);
    assert Of(e, c.kind)[c.name].vmid == g.vmid;
    assert Claimed(e, g.vmid);
  }

  lemma BuiltIsValid(cat: C.Catalog, c: Command, d: Decl)
    requires C.Valid(cat) && After(cat, d, c).Ok? && After(cat, d, c).value.Some?
    ensures ValidGuest(c.name, After(cat, d, c).value.value) && Consistent(After(cat, d, c).value.value)
  {
  }

  lemma {:induction false} NeverTypedVmid(commands: seq<Command>, kind: Kind, name: string)
    requires forall e | e in commands && Names(e, kind, name) :: e.flags.vmid.None?
    ensures TypedFor(commands, kind, name).0.vmid.None?
    decreases |commands|
  {
    if commands != [] {
      assert commands[|commands| - 1] in commands;
      NeverTypedVmid(commands[..|commands| - 1], kind, name);
    }
  }

  // ------------------------------------------------------- the same command

  /** A guest's entry has settled: the same flags leave every field as it is. */
  lemma FieldsSettle(kind: Kind, before: Option<Guest>, f: Flags, answers: Option<Flags>, services: seq<string>, tags: seq<string>)
    ensures var g := Fields(kind, before, f, 0, answers).(services := services, tags := tags);
      Fields(kind, Some(g), f, 0, answers) == g
  {
  }

  /** Building again from what was built gives it back, but for the tags of a
      guest whose services were picked: those are resolved from the recorded ids. */
  lemma BuildingAgain(cat: C.Catalog, kind: Kind, name: string, before: Option<Guest>, f: Flags, s: Session,
                      answers: Option<Flags>, g: Guest)
    requires C.Valid(cat) && Built(cat, kind, name, before, f, s, 0, answers) == Ok(g)
    ensures Built(cat, kind, name, Some(g), f, s, 0, answers) ==
      if s.with.Some? || before.Some? then Ok(g)
      else match Resolve.Resolution(cat, g.services)
        case Err(e) => Err(UnknownService(e))
        case Ok(out) => Ok(g.(tags := GuestTags(Resolve.Tags(out))))
  {
    FieldsSettle(kind, before, f, answers, g.services, g.tags);
    var h := Fields(kind, before, f, 0, answers);
    assert ValidGuest(name, h) <==> ValidGuest(name, g);
  }

  /** The recorded services of g resolve, and lead to others: some id, once
      trimmed, is not one of them. */
  ghost predicate RecordsOthers(cat: C.Catalog, g: Guest)
    requires C.Valid(cat)
  {
    Resolve.Resolution(cat, g.services).Ok? && !Resolve.TrimStaysListed(g.services)
  }

  /** Resolving recorded ids again brings in at least the services recorded. */
  lemma SecondAnswerCovers(cat: C.Catalog, asked: seq<string>, out: seq<C.Service>, second: seq<C.Service>)
    requires C.Valid(cat) && Resolve.Resolution(cat, asked) == Ok(out)
    requires Resolve.Resolution(cat, C.Ids(out)) == Ok(second)
    ensures forall x | x in C.Ids(out) :: x in C.Ids(second)
    ensures !Resolve.TrimStaysListed(C.Ids(out)) ==> exists x | x in C.Ids(second) :: x !in C.Ids(out)
    ensures Distinct(C.Ids(out))
  {
    var again := Resolve.Requested(C.Ids(out));
    Resolve.ResolutionIsTheClosure(cat, asked);
    Resolve.ResolutionIsTheClosure(cat, C.Ids(out));
    Resolve.RecordedCoversRequest(cat, asked, out);
    C.ClosureIsMonotonic(cat, Resolve.Requested(asked), again);
    Resolve.TrimmedAreListed(C.Ids(out));
    C.ClosureMembers(cat, again);
    if !Resolve.TrimStaysListed(C.Ids(out)) {
      var x :| x in again && x !in C.Ids(out);
      assert x in C.Ids(second);
    }
  }

  /** The tag line shows it: with more services it is longer. */
  lemma RetaggingShows(cat: C.Catalog, asked: seq<string>, out: seq<C.Service>, second: seq<C.Service>)
    requires C.Valid(cat) && Resolve.Resolution(cat, asked) == Ok(out)
    requires Resolve.Resolution(cat, C.Ids(out)) == Ok(second)
    ensures Join(GuestTags(Resolve.Tags(second)), ',') == Join(GuestTags(Resolve.Tags(out)), ',')
      <==> Resolve.TrimStaysListed(C.Ids(out))
  {
    SecondAnswerCovers(cat, asked, out, second);
    if Resolve.TrimStaysListed(C.Ids(out)) {
      TagsComeBack(cat, asked, out);
    } else {
      var x :| x in C.Ids(second) && x !in C.Ids(out);
      TotalOfConcat(C.Ids(out), [x]);
      TotalOfFewer(C.Ids(out) + [x], C.Ids(second));
      TagLineLength(out);
      TagLineLength(second);
    }
  }

  /** The command creates the guest with services picked from the list. */
  ghost predicate PicksServices(d: Decl, c: Command) {
    At(d, c.kind, c.name).None? && c.session.with.None? && !c.session.suggestId
  }

  /** Giving a command twice leaves the file as giving it once did, if and only if
      it did not create a guest with picked services whose recorded ids resolve to
      others. */
  lemma RepeatingIsANoOp(cat: C.Catalog, d: Decl, c: Command)
    requires C.Valid(cat)
    ensures var d1 := Step(cat, d, c); var g := At(d1, c.kind, c.name);
      Step(cat, d1, c) == d1 <==> !(PicksServices(d, c) && g.Some? && RecordsOthers(cat, g.value))
  {
    var d1, after := Step(cat, d, c), After(cat, d, c);
    if after.Ok? && d1 != d {
      assert d1 == Put(d, c.kind, c.name, after.value);
      if after.value.Some? {
        RepeatingACreation(cat, d, c, after.value.value);
      }
    } else {
      assert At(d1, c.kind, c.name) == At(d, c.kind, c.name);
    }
  }

  lemma PutIsReadBack(d: Decl, kind: Kind, name: string, g: Guest, vmid: int)
    ensures At(Put(d, kind, name, Some(g)), kind, name) == Some(g)
    ensures HeldByOther(Put(d, kind, name, Some(g)), vmid, name, kind) <==> HeldByOther(d, vmid, name, kind)
    ensures forall h :: Put(Put(d, kind, name, Some(g)), kind, name, Some(h)) == Put(d, kind, name, Some(g)) <==> h == g
  {
    var e := Put(d, kind, name, Some(g));
    if kind == KindVM {
      assert forall n | n != name :: n in e.vms <==> n in d.vms;
      assert forall n | n in d.vms && n != name :: e.vms[n] == d.vms[n];
    } else {
      assert forall n | n != name :: n in e.lxcs <==> n in d.lxcs;
      assert forall n | n in d.lxcs && n != name :: e.lxcs[n] == d.lxcs[n];
    }
    forall h ensures Put(Put(d, kind, name, Some(g)), kind, name, Some(h)) == Put(d, kind, name, Some(g)) <==> h == g {
      assert At(Put(Put(d, kind, name, Some(g)), kind, name, Some(h)), kind, name) == Some(h);
      assert At(Put(d, kind, name, Some(g)), kind, name) == Some(g);
      if h == g {
        assert Changed(Changed(Of(d, kind), name, Some(g)), name, Some(g)) == Changed(Of(d, kind), name, Some(g));
      }
    }
  }

  lemma TagsShow(g: Guest, tags: seq<string>)
    ensures Render(Some(g.(tags := tags))) == Render(Some(g)) <==> Join(tags, ',') == Join(g.tags, ',')
  {
    assert Render(Some(g)).texts[6] == Join(g.tags, ',');
    assert Render(Some(g.(tags := tags))).texts[6] == Join(tags, ',');
  }

  lemma PickedIsDerived(cat: C.Catalog, d: Decl, c: Command, g: Guest)
    requires C.Valid(cat) && After(cat, d, c) == Ok(Some(g)) && PicksServices(d, c)
    ensures c.session.picked.Some? && Resolve.Resolution(cat, c.session.picked.value).Ok?
    ensures Derived(g, Resolve.Resolution(cat, c.session.picked.value).value)
  {
  }

  lemma RepeatingACreation(cat: C.Catalog, d: Decl, c: Command, g: Guest)
    requires C.Valid(cat) && After(cat, d, c) == Ok(Some(g)) && Writes(c.session)
    ensures var d1 := Put(d, c.kind, c.name, Some(g));
      Step(cat, d1, c) == d1 <==> !(PicksServices(d, c) && RecordsOthers(cat, g))
  {
    var d1 := Put(d, c.kind, c.name, Some(g));
    PutIsReadBack(d, c.kind, c.name, g, g.vmid);
    if !c.session.suggestId {
      BuildingAgain(cat, c.kind, c.name, At(d, c.kind, c.name), c.flags, c.session, c.answers, g);
      if PicksServices(d, c) && Resolve.Resolution(cat, g.services).Ok? {
        var second := Resolve.Resolution(cat, g.services).value;
        TagsShow(g, GuestTags(Resolve.Tags(second)));
        PickedIsDerived(cat, d, c, g);
        RetaggingShows(cat, c.session.picked.value, Resolve.Resolution(cat, c.session.picked.value).value, second);
      }
    }
  }

  // ----------------------------------------------------------- redeclaration

  /** Declaring a guest again with no flag at all rebuilds exactly the recorded
      entry if and only if each recorded service id trims to nothing or to a
      recorded id; Parse does not ask for trimmed ids. */
  lemma RedeclaringIsANoOp(cat: C.Catalog, kind: Kind, name: string, before: Option<Guest>, f: Flags, s: Session,
                           suggested: int, answers: Option<Flags>, again: Session, g: Guest)
    requires C.Valid(cat) && again.with.None? && (s.with.Some? || before.None?)
    requires Built(cat, kind, name, before, f, s, suggested, answers) == Ok(g)
    ensures Built(cat, kind, name, Some(g), NO_FLAGS, again, 0, None) == Ok(g)
      <==> Resolve.TrimStaysListed(g.services)
  {
    var asked := Asking(None, s).value;
    var out := Resolve.Resolution(cat, asked).value;
    assert g.services == C.Ids(out) && g.tags == GuestTags(Resolve.Tags(out));
    TagsComeBack(cat, asked, out);
    RebuildingAsksForTagsOnly(cat, kind, name, g, again);
  }

  lemma RebuildingAsksForTagsOnly(cat: C.Catalog, kind: Kind, name: string, g: Guest, again: Session)
    requires C.Valid(cat) && ValidGuest(name, g) && again.with.None?
    ensures Built(cat, kind, name, Some(g), NO_FLAGS, again, 0, None) ==
      match Resolve.Resolution(cat, g.services)
      case Err(e) => Err(UnknownService(e))
      case Ok(out) => Ok(g.(tags := GuestTags(Resolve.Tags(out))))
  {
    assert Fields(kind, Some(g), NO_FLAGS, 0, None) == g;
  }

  /** Resolving recorded ids again gives the recorded guest tags exactly when each
      id trims to nothing or to a recorded id. */
  lemma TagsComeBack(cat: C.Catalog, asked: seq<string>, out: seq<C.Service>)
    requires C.Valid(cat) && Resolve.Resolution(cat, asked) == Ok(out)
    ensures var second := Resolve.Resolution(cat, C.Ids(out));
      second.Ok? && GuestTags(Resolve.Tags(second.value)) == GuestTags(Resolve.Tags(out)) <==> Resolve.TrimStaysListed(C.Ids(out))
  {
    Resolve.RedeclareKeepsTags(cat, asked, out);
    var second := Resolve.Resolution(cat, C.Ids(out));
    if second.Ok? {
      TagsAreSorted(out);
      TagsAreSorted(second.value);
      GuestTagsAreFaithful(Resolve.Tags(out), Resolve.Tags(second.value));
    }
  }

  lemma TagsAreSorted(services: seq<C.Service>)
    ensures Sorted(Before, Resolve.Tags(services))
  {
    BeforeIsStrictTotal(Resolve.TagList(services));
    SortSorts(Before, Resolve.TagList(services));
  }

  /** Adding the owner tags and sorting loses nothing about the service tags. */
  lemma GuestTagsAreFaithful(a: seq<string>, b: seq<string>)
    requires Sorted(Before, a) && Sorted(Before, b)
    ensures GuestTags(a) == GuestTags(b) <==> a == b
  {
    SortSorts(Before, OWNER_TAGS + a);
    SortSorts(Before, OWNER_TAGS + b);
    if GuestTags(a) == GuestTags(b) {
      assert multiset(OWNER_TAGS + a) == multiset(OWNER_TAGS + b);
      assert multiset(a) == multiset(OWNER_TAGS + a) - multiset(OWNER_TAGS);
      assert multiset(b) == multiset(OWNER_TAGS + b) - multiset(OWNER_TAGS);
      BeforeIsStrictTotal(a);
      SortedIsUnique(Before, a, b);
    }
  }

  // ------------------------------------------------------ the empty difference

  /** Two entries that differ in their lists only, and whose lists are cut alike at
      commas. */
  predicate ReadAlike(g: Guest, h: Guest) {
    && g.VM? == h.VM? && g == h.(services := g.services, tags := g.tags)
    && Cut(g.services, ',') == Cut(h.services, ',') && Cut(g.tags, ',') == Cut(h.tags, ',')
  }

  /** An entry that reads as nothing at all. */
  predicate Blank(g: Guest) {
    ReadAlike(g, VM(0, 0, 0, 0, 0, "", "", "", 0, "", [], []))
  }

  predicate Alike(a: Option<Guest>, b: Option<Guest>) {
    match (a, b)
    case (None, None) => true
    case (Some(g), Some(h)) => ReadAlike(g, h)
    case (Some(g), None) => Blank(g)
    case (None, Some(h)) => Blank(h)
  }

  /** Exactly when a difference is empty, for any two entries a file can hold:
      comparing joined lines sees everything but where, between commas, one element
      of a list ends and the next begins. */
  lemma EmptyDifferenceExactly(a: Option<Guest>, b: Option<Guest>)
    ensures Render(a) == Render(b) <==> Alike(a, b)
  {
    var blank := VM(0, 0, 0, 0, 0, "", "", "", 0, "", [], []);
    assert Join([], ',') == "" && Render(None) == Render(Some(blank));
    var g, h := Or(a, blank), Or(b, blank);
    TwoEntries(g, h);
    assert Alike(a, b) <==> ReadAlike(g, h) by {
      ReadAlikeIsSymmetric(g, h);
    }
  }

  lemma ReadAlikeIsSymmetric(g: Guest, h: Guest)
    ensures ReadAlike(g, g) && (ReadAlike(g, h) <==> ReadAlike(h, g))
  {
  }

  lemma TwoEntries(g: Guest, h: Guest)
    ensures Render(Some(g)) == Render(Some(h)) <==> ReadAlike(g, h)
  {
    SameLine(g.services, h.services, ',');
    SameLine(g.tags, h.tags, ',');
    var r, t := Render(Some(g)), Render(Some(h));
    if r == t {
      assert forall i | 0 <= i < 6 :: r.numbers[i] == t.numbers[i];
      assert forall i | 0 <= i < 7 :: r.texts[i] == t.texts[i];
      assert |r.texts[4]| == |t.texts[4]|;
    }
  }

  /** So a command that may write leaves the file alone exactly when the entry it
      leaves reads like the one it found. */
  lemma FileChangesWithTheEntry(cat: C.Catalog, d: Decl, c: Command)
    requires C.Valid(cat) && !c.session.dryRun && c.session.allowed && c.session.saved && After(cat, d, c).Ok?
    ensures Step(cat, d, c) == d <==> Alike(At(d, c.kind, c.name), After(cat, d, c).value)
  {
    var before, after := At(d, c.kind, c.name), After(cat, d, c).value;
    EmptyDifferenceExactly(before, after);
    if Render(before) != Render(after) {
      assert At(Put(d, c.kind, c.name, after), c.kind, c.name) == after != before;
    }
  }

  /** The entry of a guest whose tags are derived from its services, as every entry
      resolved by --with or from the list is. */
  ghost predicate Derived(g: Guest, out: seq<C.Service>) {
    g.services == C.Ids(out) && g.tags == GuestTags(Resolve.Tags(out))
  }

  predicate CommaFree(ids: seq<string>) {
    forall id | id in ids :: ',' !in id
  }

  lemma {:induction false} TotalOfTags(services: seq<C.Service>)
    ensures Total(Resolve.TagList(services)) == Total(C.Ids(services)) + 4 * |services|
  {
    if services != [] {
      TotalOfTags(services[1..]);
      assert Resolve.TagList(services)[1..] == Resolve.TagList(services[1..]);
      assert C.Ids(services)[1..] == C.Ids(services[1..]);
      assert |Resolve.Tag(services[0].id)| == 4 + |services[0].id|;
    }
  }

  /** How long the line of tags of some services is. */
  lemma TagLineLength(out: seq<C.Service>)
    ensures |Join(GuestTags(Resolve.Tags(out)), ',')| == Total(C.Ids(out)) + 5 * |out| + 14
  {
    var tags := Resolve.Tags(out);
    TotalOfTags(out);
    TotalOfSort(Before, Resolve.TagList(out));
    TotalOfConcat(OWNER_TAGS, tags);
    assert OWNER_TAGS[1..] == ["pvecli"] && ["pvecli"][1..] == [];
    assert |"managed"| == 7 && |"pvecli"| == 6;
    assert Total(OWNER_TAGS) == 13;
    TotalOfSort(Before, OWNER_TAGS + tags);
    JoinLength(GuestTags(tags), ',');
  }

  /** The two lines together tell how many services there are. */
  lemma LinesTellTheNumber(a: seq<C.Service>, b: seq<C.Service>)
    requires Join(C.Ids(a), ',') == Join(C.Ids(b), ',')
    requires Join(GuestTags(Resolve.Tags(a)), ',') == Join(GuestTags(Resolve.Tags(b)), ',')
    ensures |a| == |b|
  {
    TagLineLength(a);
    TagLineLength(b);
    if a != [] {
      JoinLength(C.Ids(a), ',');
    }
    if b != [] {
      JoinLength(C.Ids(b), ',');
    }
  }

  lemma OneReading(a: seq<C.Service>, b: seq<C.Service>)
    requires Join(C.Ids(a), ',') == Join(C.Ids(b), ',') && |a| == |b| && CommaFree(C.Ids(a))
    ensures C.Ids(a) == C.Ids(b)
  {
    if a != [] {
      SplitJoin(C.Ids(a), ',');
      FieldCount(C.Ids(b), ',');
      SplitJoin(C.Ids(b), ',');
    }
  }

  /** The empty difference means that nothing changes, for entries whose tags are
      derived from their services, as soon as the service ids of one of them hold
      no comma: the tags tell how many services there are. */
  lemma EmptyDifferenceMeansSame(g: Guest, a: seq<C.Service>, h: Guest, b: seq<C.Service>)
    requires Derived(g, a) && Derived(h, b)
    requires CommaFree(g.services) || CommaFree(h.services)
    ensures Render(Some(g)) == Render(Some(h)) <==> g == h
  {
    if Render(Some(g)) == Render(Some(h)) {
      EmptyDifferenceExactly(Some(g), Some(h));
      SameLine(g.services, h.services, ',');
      SameLine(g.tags, h.tags, ',');
      LinesTellTheNumber(a, b);
      if CommaFree(g.services) {
        OneReading(a, b);
      } else {
        OneReading(b, a);
      }
      SameIdsSameTags(a, b);
    }
  }

  lemma SameIdsSameTags(a: seq<C.Service>, b: seq<C.Service>)
    requires C.Ids(a) == C.Ids(b)
    ensures Resolve.Tags(a) == Resolve.Tags(b)
  {
    assert |a| == |C.Ids(a)| == |C.Ids(b)| == |b|;
    forall i | 0 <= i < |a| ensures Resolve.TagList(a)[i] == Resolve.TagList(b)[i] {
      assert C.Ids(a)[i] == C.Ids(b)[i];
    }
    assert Resolve.TagList(a) == Resolve.TagList(b);
  }

  /** For derived entries, one of them with ids without commas, a command that may
      write leaves the file alone exactly when it leaves the entry as it was. */
  lemma DerivedEntriesChangeVisibly(cat: C.Catalog, d: Decl, c: Command, g: Guest, a: seq<C.Service>, h: Guest, b: seq<C.Service>)
    requires C.Valid(cat) && !c.session.dryRun && c.session.allowed && c.session.saved
    requires At(d, c.kind, c.name) == Some(g) && After(cat, d, c) == Ok(Some(h))
    requires Derived(g, a) && Derived(h, b) && (CommaFree(g.services) || CommaFree(h.services))
    ensures Step(cat, d, c) == d <==> h == g
  {
    EmptyDifferenceMeansSame(g, a, h, b);
    FileChangesWithTheEntry(cat, d, c);
    EmptyDifferenceExactly(Some(g), Some(h));
  }

  // ------------------------------------------------------ differences not seen

  /** What `--with` alone leaves of an entry. */
  lemma WithReplacesTheLists(cat: C.Catalog, d: Decl, c: Command, g: Guest, out: seq<C.Service>)
    requires C.Valid(cat) && c.flags == NO_FLAGS && c.session.with.Some? && !c.session.remove && !c.session.suggestId
    requires At(d, c.kind, c.name) == Some(g) && ValidGuest(c.name, g) && !HeldByOther(d, g.vmid, c.name, c.kind)
    requires Resolve.Resolution(cat, c.session.with.value) == Ok(out)
    ensures After(cat, d, c) == Ok(Some(g.(services := C.Ids(out), tags := GuestTags(Resolve.Tags(out)))))
  {
    assert Fields(c.kind, Some(g), NO_FLAGS, 0, c.answers) == g;
  }

  /** `vm declare app --with ids` on a file that holds one entry, said yes to. */
  function With(ids: seq<string>): Command {
    Declare(KindVM, "app", NO_FLAGS, None, Session(Some(ids), false, false, None, None, false, true, true))
  }

  function Entry(services: seq<string>, tags: seq<string>): Guest {
    VM(100, 1, 512, 20, 0, "dhcp", "", "", 0, "ops", services, tags)
  }

  function Holding(services: seq<string>, tags: seq<string>): Decl {
    Decl(map["app" := Entry(services, tags)], map[])
  }

  lemma EntryIsValid(services: seq<string>, tags: seq<string>)
    ensures ValidGuest("app", Entry(services, tags))
  {
    assert IsHostname("app");
  }

  lemma WithOnHolding(cat: C.Catalog, ids: seq<string>, out: seq<C.Service>, services: seq<string>, tags: seq<string>)
    requires C.Valid(cat) && Resolve.Resolution(cat, ids) == Ok(out)
    ensures After(cat, Holding(services, tags), With(ids)) == Ok(Some(Entry(C.Ids(out), GuestTags(Resolve.Tags(out)))))
  {
    EntryIsValid(services, tags);
    WithReplacesTheLists(cat, Holding(services, tags), With(ids), Entry(services, tags), out);
  }

  /** An entry edited by hand so that each list is one string, commas and all, is
      taken for the entry it should be, whatever the ids: the command that would
      put it right says that there is nothing to do. */
  lemma HandEditedListsStay(cat: C.Catalog, ids: seq<string>, out: seq<C.Service>)
    requires C.Valid(cat) && Resolve.Resolution(cat, ids) == Ok(out)
    ensures var tags := GuestTags(Resolve.Tags(out));
      var d := Holding([Join(C.Ids(out), ',')], [Join(tags, ',')]);
      var after := After(cat, d, With(ids));
      after.Ok? && after.value != Some(d.vms["app"]) && Step(cat, d, With(ids)) == d
  {
    var tags := GuestTags(Resolve.Tags(out));
    var services := [Join(C.Ids(out), ',')];
    var d := Holding(services, [Join(tags, ',')]);
    WithOnHolding(cat, ids, out, services, [Join(tags, ',')]);
    TotalOfSort(Before, OWNER_TAGS + Resolve.Tags(out));
    assert |tags| >= 2;
    SameLine(services, C.Ids(out), ',');
    SameLine([Join(tags, ',')], tags, ',');
    FileChangesWithTheEntry(cat, d, With(ids));
  }

  const K := C.Service("k", "k", [])
  const KK := C.Service("k,k", "k", [])
  const COMMAS := C.Catalog(1, [K, KK])

  lemma CommasIsValid()
    ensures C.Valid(COMMAS)
    ensures C.Find(COMMAS.services, "k") == Some(K) && C.Find(COMMAS.services, "k,k") == Some(KK)
  {
    assert |"k"| != |"k,k"|;
    L.ValidIfSettled(COMMAS, ["k", "k,k"]);
  }

  /** Services that need nothing resolve to themselves, in the order asked. */
  lemma AskedInOrder(cat: C.Catalog, s: C.Service, t: C.Service)
    requires C.Valid(cat) && s in cat.services && t in cat.services && s.id != t.id && s.needs == t.needs == []
    requires Trim(s.id) == s.id && Trim(t.id) == t.id
    ensures Resolve.Resolution(cat, [s.id, t.id]) == Ok([s, t])
  {
    C.FindOfUnique(cat.services, s);
    C.FindOfUnique(cat.services, t);
    Resolve.RequestedOfTrimmed([s.id, t.id]);
    assert [s.id, t.id][1..] == [t.id] && [t.id][1..] == [];
    assert Resolve.FirstUnknown(cat, [s.id, t.id]).None?;
    assert Resolve.PostOrderAll(cat, [], []) == [] && Resolve.PostOrderAll(cat, [], [s]) == [s];
    assert Resolve.PostOrder(cat, s.id, []) == [s];
    assert C.Ids([s]) == [s.id];
    assert Resolve.PostOrder(cat, t.id, [s]) == [s, t];
    assert Resolve.PostOrderAll(cat, [t.id], [s]) == Resolve.PostOrderAll(cat, [], [s, t]);
  }

  lemma SwappedTags(s: C.Service, t: C.Service)
    ensures Resolve.Tags([s, t]) == Resolve.Tags([t, s])
  {
    var a, b := Resolve.TagList([s, t]), Resolve.TagList([t, s]);
    assert a == [Resolve.Tag(s.id)] + [Resolve.Tag(t.id)] && b == [Resolve.Tag(t.id)] + [Resolve.Tag(s.id)];
    assert multiset(a) == multiset(b);
    BeforeIsStrictTotal(a);
    BeforeIsStrictTotal(b);
    SortSorts(Before, a);
    SortSorts(Before, b);
    BeforeIsStrictTotal(Sort(Before, a));
    SortedIsUnique(Before, Sort(Before, a), Sort(Before, b));
  }

  lemma SwappedLine()
    ensures Join(["k", "k,k"], ',') == Join(["k,k", "k"], ',')
  {
    assert ["k", "k,k"][1..] == ["k,k"] && ["k,k", "k"][1..] == ["k"];
    assert Join(["k,k"], ',') == "k,k" && Join(["k"], ',') == "k";
    assert Join(["k", "k,k"], ',') == "k" + [','] + "k,k" == "k,k,k";
    assert Join(["k,k", "k"], ',') == "k,k" + [','] + "k" == "k,k,k";
  }

  /** With commas in ids a change can go unseen between derived entries too: asking
      for the same two services in the other order leaves the file alone, although
      it would record them in that order. */
  lemma CommasHideAChange()
    ensures C.Valid(COMMAS) && Resolve.Resolution(COMMAS, ["k", "k,k"]) == Ok([K, KK])
    ensures var d := Holding(["k", "k,k"], GuestTags(Resolve.Tags([K, KK])));
      var after := After(COMMAS, d, With(["k,k", "k"]));
      && Derived(d.vms["app"], [K, KK])
      && after == Ok(Some(Entry(["k,k", "k"], GuestTags(Resolve.Tags([K, KK])))))
      && after.value != Some(d.vms["app"]) && Step(COMMAS, d, With(["k,k", "k"])) == d
  {
    var tags := GuestTags(Resolve.Tags([K, KK]));
    var d := Holding(["k", "k,k"], tags);
    CommasIsValid();
    L.Plain("k");
    L.Plain("k,k");
    assert |"k"| != |"k,k"|;
    AskedInOrder(COMMAS, K, KK);
    AskedInOrder(COMMAS, KK, K);
    assert C.Ids([K, KK]) == ["k", "k,k"] && C.Ids([KK, K]) == ["k,k", "k"];
    WithOnHolding(COMMAS, ["k,k", "k"], [KK, K], ["k", "k,k"], tags);
    SwappedTags(K, KK);
    SwappedLine();
    SameLine(["k", "k,k"], ["k,k", "k"], ',');
    FileChangesWithTheEntry(COMMAS, d, With(["k,k", "k"]));
  }

  // ------------------------------------------------------- the excepted repeat

  /** `vm declare app --vmid 100 --cores 1 --memory 512`, one service picked. */
  const PICKING := Declare(
    KindVM, "app", NO_FLAGS.(vmid := Some(100), cores := Some(1), memory := Some(512)), None,
    Session(None, false, false, Some(["app"]), None, false, true, true))

  const NOTHING := Decl(map[], map[])

  lemma PickingCreates(cat: C.Catalog, out: seq<C.Service>)
    requires C.Valid(cat) && Resolve.Resolution(cat, ["app"]) == Ok(out)
    ensures After(cat, NOTHING, PICKING) == Ok(Some(Entry(C.Ids(out), GuestTags(Resolve.Tags(out)))))
  {
    EntryIsValid(C.Ids(out), GuestTags(Resolve.Tags(out)));
    EntryIsValid([], []);
    assert Fields(KindVM, None, PICKING.flags, 0, None) == Entry([], []);
  }

  lemma PickedFieldsOnly(cat: C.Catalog, g: Guest)
    requires C.Valid(cat) && After(cat, NOTHING, PICKING) == Ok(Some(g)) && g.vmid != 0
    ensures At(Step(cat, NOTHING, PICKING), KindVM, "app") == Some(g)
  {
    FileChangesWithTheEntry(cat, NOTHING, PICKING);
    PutIsReadBack(NOTHING, KindVM, "app", g, g.vmid);
  }

  /** The exception of RepeatingIsANoOp: creating a guest and repeating the command
      gives it the tag of a service it was never given. */
  lemma RepeatingCanRetag()
    ensures C.Valid(L.TWO_DBS)
    ensures var d1 := Step(L.TWO_DBS, NOTHING, PICKING); Step(L.TWO_DBS, d1, PICKING) != d1
  {
    L.SpacedIdResolvesToAnother();
    var out := [L.SPACED, L.APP];
    PickingCreates(L.TWO_DBS, out);
    PickedFieldsOnly(L.TWO_DBS, Entry(C.Ids(out), GuestTags(Resolve.Tags(out))));
    RepeatingIsANoOp(L.TWO_DBS, NOTHING, PICKING);
  }
}
