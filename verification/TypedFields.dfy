/** What the commands of Declaration leave in each field of an entry, over one
    command and over whole runs (cmd/declare.go:205-311, cmd/lxc_declare.go:184-274). */
module TypedFields {
  import opened Results
  import opened Text
  import opened Declaration
  import C = Catalog
  import Resolve

  // ------------------------------------------------------------ one command

  /** The suggested vmid a command goes on with: 0 when none was asked for. */
  ghost function SuggestedIn(d: Decl, c: Command): int {
    var s := Suggestion(d, c.session, c.flags.vmid.Some?, At(d, c.kind, c.name).Some?);
    if s.Ok? then s.value else 0
  }

  lemma AcceptedEntry(cat: C.Catalog, d: Decl, c: Command, g: Guest)
    requires C.Valid(cat) && After(cat, d, c) == Ok(Some(g))
    ensures g == Fields(c.kind, At(d, c.kind, c.name), c.flags, SuggestedIn(d, c), c.answers).(services := g.services, tags := g.tags)
    ensures c.flags.vmid.Some? || At(d, c.kind, c.name).Some? ==> SuggestedIn(d, c) == 0
    ensures if c.session.suggestId then c.session.proposed.Some? && SuggestedIn(d, c) == LeastFree(d, c.session.proposed.value)
      else SuggestedIn(d, c) == 0
  {
  }

  /** Every flag typed arrives: an accepted entry carries its value, for a new
      guest as for a declared one, whatever was recorded, suggested or answered. */
  lemma TypedFlagsArrive(cat: C.Catalog, d: Decl, c: Command, g: Guest)
    requires C.Valid(cat) && After(cat, d, c) == Ok(Some(g))
    ensures var f := c.flags;
      && (f.vmid.Some? ==> g.vmid == f.vmid.value)
      && (f.cores.Some? ==> g.cores == f.cores.value)
      && (f.memory.Some? ==> g.memory == f.memory.value)
      && (f.disk.Some? ==> g.disk == f.disk.value)
      && (f.template.Some? ==> g.template == f.template.value)
      && (f.ip.Some? ==> g.ip == f.ip.value)
      && (f.gateway.Some? ==> g.gateway == f.gateway.value)
      && (f.node.Some? ==> g.node == f.node.value)
      && (g.VM? && f.balloon.Some? ==> g.balloon == f.balloon.value)
      && (g.VM? && f.user.Some? ==> g.user == f.user.value)
      && (g.LXC? && f.unprivileged.Some? ==> g.unprivileged == f.unprivileged.value)
  {
    AcceptedEntry(cat, d, c, g);
  }

  /** h is g with what was typed over it; the gateway, which also moves with the
      ip, is apart. */
  predicate TypedOver(f: Flags, g: Guest, h: Guest) {
    && g.VM? == h.VM?
    && h.vmid == (if f.vmid.Some? then f.vmid.value else g.vmid)
    && h.cores == (if f.cores.Some? then f.cores.value else g.cores)
    && h.memory == (if f.memory.Some? then f.memory.value else g.memory)
    && h.disk == (if f.disk.Some? then f.disk.value else g.disk)
    && h.template == (if f.template.Some? then f.template.value else g.template)
    && h.ip == (if f.ip.Some? then f.ip.value else g.ip)
    && h.node == (if f.node.Some? then f.node.value else g.node)
    && (g.VM? && h.VM? ==>
          && h.balloon == (if f.balloon.Some? then f.balloon.value else g.balloon)
          && h.user == (if f.user.Some? then f.user.value else g.user))
    && (g.LXC? && h.LXC? ==> h.unprivileged == (if f.unprivileged.Some? then f.unprivileged.value else g.unprivileged))
  }

  /** The gateway of a declared guest is the one typed; else dhcp drops it, and
      nothing else moves it. */
  predicate GatewayFollows(f: Flags, g: Guest, h: Guest) {
    h.gateway == if f.gateway.Some? then f.gateway.value else if h.ip == "dhcp" then "" else g.gateway
  }

  /** A declared guest: each field is the one typed, and otherwise the recorded
      one. */
  lemma RedeclaredFields(cat: C.Catalog, d: Decl, c: Command, g: Guest, h: Guest)
    requires C.Valid(cat) && At(d, c.kind, c.name) == Some(g) && After(cat, d, c) == Ok(Some(h))
    ensures TypedOver(c.flags, g, h) && GatewayFollows(c.flags, g, h)
  {
    AcceptedEntry(cat, d, c, h);
  }

  /** What a new guest starts from: the answers given at the terminal, over the
      defaults of its kind and the suggested vmid. */
  predicate StartsFrom(kind: Kind, a: Flags, suggested: int, g: Guest) {
    && g.VM? == kind.KindVM?
    && g.vmid == (if a.vmid.Some? then a.vmid.value else suggested)
    && g.cores == (if a.cores.Some? then a.cores.value else 0)
    && g.memory == (if a.memory.Some? then a.memory.value else 0)
    && g.disk == (if a.disk.Some? then a.disk.value else if kind.KindVM? then 20 else 8)
    && g.template == (if a.template.Some? then a.template.value else 0)
    && g.ip == (if a.ip.Some? then a.ip.value else "dhcp")
    && g.gateway == (if a.gateway.Some? then a.gateway.value else "")
    && g.node == (if a.node.Some? then a.node.value else "")
    && (g.VM? ==> g.balloon == 0 && g.user == if a.user.Some? then a.user.value else "ops")
    && (g.LXC? ==> g.unprivileged == if a.unprivileged.Some? then a.unprivileged.value else true)
  }

  /** A new guest: each field is the one typed, else the one answered, else the
      default of its kind; the vmid, if neither typed nor answered, the least free
      one from the proposal on, when a suggestion was asked for. */
  lemma CreatedFields(cat: C.Catalog, d: Decl, c: Command, h: Guest)
    requires C.Valid(cat) && At(d, c.kind, c.name).None? && After(cat, d, c) == Ok(Some(h))
    ensures c.session.suggestId ==> c.session.proposed.Some?
    ensures var suggested := if c.session.suggestId then LeastFree(d, c.session.proposed.value) else 0;
      var a := if c.answers.Some? then c.answers.value else NO_FLAGS;
      exists g :: StartsFrom(c.kind, a, suggested, g) && TypedOver(c.flags, g, h) && GatewayFollows(c.flags, g, h)
  {
    AcceptedEntry(cat, d, c, h);
    var suggested := SuggestedIn(d, c);
    var a := if c.answers.Some? then c.answers.value else NO_FLAGS;
    StartedStarts(c.kind, a, suggested);
    FieldsOverStart(c.kind, c.flags, suggested, c.answers, h.services, h.tags);
    assert StartsFrom(c.kind, a, suggested, Started(c.kind, a, suggested));
  }

  lemma StartedStarts(kind: Kind, a: Flags, suggested: int)
    ensures StartsFrom(kind, a, suggested, Started(kind, a, suggested))
  {
  }

  lemma FieldsOverStart(kind: Kind, f: Flags, suggested: int, answers: Option<Flags>, services: seq<string>, tags: seq<string>)
    requires f.vmid.Some? ==> suggested == 0
    ensures var g := Started(kind, if answers.Some? then answers.value else NO_FLAGS, suggested);
      var h := Fields(kind, None, f, suggested, answers).(services := services, tags := tags);
      TypedOver(f, g, h) && GatewayFollows(f, g, h)
  {
  }

  function Started(kind: Kind, a: Flags, suggested: int): Guest {
    var vmid, cores, memory := Or(a.vmid, suggested), Or(a.cores, 0), Or(a.memory, 0);
    var template, ip, gateway, node := Or(a.template, 0), Or(a.ip, "dhcp"), Or(a.gateway, ""), Or(a.node, "");
    match kind
    case KindVM => VM(vmid, cores, memory, Or(a.disk, 20), template, ip, gateway, node, 0, Or(a.user, "ops"), [], [])
    case KindLXC => LXC(vmid, cores, memory, Or(a.disk, 8), template, ip, gateway, node, Or(a.unprivileged, true), [], [])
  }

  // ------------------------------------------------- acceptance and refusal

  /** The rules of Validate and of VMIDOwner, for an entry about to be written. */
  predicate KeepsTheRules(name: string, g: Guest) {
    && 1 <= |name| <= 63
    && (forall i | 0 <= i < |name| :: 'a' <= name[i] <= 'z' || '0' <= name[i] <= '9' || (name[i] == '-' && 0 < i < |name| - 1))
    && g.vmid >= 100 && g.cores >= 1 && g.memory >= 512 && (g.LXC? ==> g.template >= 100)
    && (g.ip == "" || (g.ip == "dhcp" && g.gateway == "") || (g.ip != "dhcp" && '/' in g.ip))
  }

  lemma RulesAreValidity(name: string, g: Guest)
    ensures ValidGuest(name, g) <==> KeepsTheRules(name, g)
  {
    if KeepsTheRules(name, g) {
      assert name[0] != '-' && name[|name| - 1] != '-';
    }
  }

  /** The services a command resolves: those typed, else those recorded, else those
      picked from the list. */
  function AskedFor(d: Decl, c: Command): Option<seq<string>> {
    if c.session.with.Some? then c.session.with
    else match At(d, c.kind, c.name)
      case Some(g) => Some(g.services)
      case None => c.session.picked
  }

  lemma AcceptedIsFree(cat: C.Catalog, d: Decl, c: Command, g: Guest)
    requires C.Valid(cat) && After(cat, d, c) == Ok(Some(g))
    ensures ValidGuest(c.name, g) && !HeldByOther(d, g.vmid, c.name, c.kind)
  {
    BuiltIsValid(cat, c, d);
  }

  lemma HeldIsSeen(d: Decl, vmid: int, name: string, kind: Kind)
    ensures HeldByOther(d, vmid, name, kind) <==>
      exists k, n | (k, n) != (kind, name) && At(d, k, n).Some? :: At(d, k, n).value.vmid == vmid
  {
    forall n | n in d.vms ensures At(d, KindVM, n) == Some(d.vms[n]) {
    }
    forall n | n in d.lxcs ensures At(d, KindLXC, n) == Some(d.lxcs[n]) {
    }
  }

  /** An accepted entry keeps the rules, and no other guest holds its vmid. */
  lemma AcceptedKeepsTheRules(cat: C.Catalog, d: Decl, c: Command, g: Guest)
    requires C.Valid(cat) && After(cat, d, c) == Ok(Some(g))
    ensures KeepsTheRules(c.name, g)
    ensures !exists k, n | (k, n) != (c.kind, c.name) && At(d, k, n).Some? :: At(d, k, n).value.vmid == g.vmid
  {
    AcceptedIsFree(cat, d, c, g);
    RulesAreValidity(c.name, g);
    HeldIsSeen(d, g.vmid, c.name, c.kind);
  }

  /** The refusals of resolveSuggestedID, in their order. */
  ghost predicate SuggestionFault(d: Decl, c: Command, e: DeclareError) {
    var s, known := c.session, At(d, c.kind, c.name).Some?;
    s.suggestId &&
    match e
    case TwoSourcesForVmid => c.flags.vmid.Some?
    case SuggestWithRemove => c.flags.vmid.None? && s.remove
    case SuggestOnExisting => c.flags.vmid.None? && !s.remove && known
    case NodeSilent => c.flags.vmid.None? && !s.remove && !known && s.proposed.None?
    case _ => false
  }

  /** The refusals of buildDeclaration, in their order, for the fields h. */
  ghost predicate BuildFault(cat: C.Catalog, d: Decl, c: Command, h: Guest, e: DeclareError)
    requires C.Valid(cat)
  {
    var asked, known := AskedFor(d, c), At(d, c.kind, c.name).Some?;
    var missing := !known && (h.vmid == 0 || h.cores == 0 || h.memory == 0 || (h.LXC? && h.template == 0));
    match e
    case NothingPicked => asked.None?
    case UnknownService(u) => asked.Some? && Resolve.Resolution(cat, asked.value) == Err(u)
    case MissingFields => asked.Some? && Resolve.Resolution(cat, asked.value).Ok? && missing
    case Invalid => asked.Some? && Resolve.Resolution(cat, asked.value).Ok? && !missing && !KeepsTheRules(c.name, h)
    case _ => false
  }

  lemma SuggestionRefusedExactly(d: Decl, c: Command, e: DeclareError)
    ensures Suggestion(d, c.session, c.flags.vmid.Some?, At(d, c.kind, c.name).Some?) == Err(e) <==> SuggestionFault(d, c, e)
  {
  }

  lemma BuildRefusedExactly(cat: C.Catalog, d: Decl, c: Command, e: DeclareError)
    requires C.Valid(cat)
    ensures var h := Fields(c.kind, At(d, c.kind, c.name), c.flags, SuggestedIn(d, c), c.answers);
      Built(cat, c.kind, c.name, At(d, c.kind, c.name), c.flags, c.session, SuggestedIn(d, c), c.answers) == Err(e)
      <==> BuildFault(cat, d, c, h, e)
  {
    RulesAreValidity(c.name, Fields(c.kind, At(d, c.kind, c.name), c.flags, SuggestedIn(d, c), c.answers));
  }

  /** A command is refused exactly when it has a fault, and with the first one: of
      the suggestion, then a removal of nothing, then of the entry it would build,
      then a vmid another guest holds. */
  lemma RefusedExactly(cat: C.Catalog, d: Decl, c: Command)
    requires C.Valid(cat)
    ensures var after := After(cat, d, c);
      var h := Fields(c.kind, At(d, c.kind, c.name), c.flags, SuggestedIn(d, c), c.answers);
      if exists e :: SuggestionFault(d, c, e) then after.Err? && SuggestionFault(d, c, after.error)
      else if c.session.remove then after == if At(d, c.kind, c.name).None? then Err(NothingToRemove) else Ok(None)
      else if exists e :: BuildFault(cat, d, c, h, e) then after.Err? && BuildFault(cat, d, c, h, after.error)
      else if HeldByOther(d, h.vmid, c.name, c.kind) then after == Err(VmidTaken(h.vmid))
      else after.Ok? && after.value.Some?
  {
    var before := At(d, c.kind, c.name);
    var h := Fields(c.kind, before, c.flags, SuggestedIn(d, c), c.answers);
    var suggestion := Suggestion(d, c.session, c.flags.vmid.Some?, before.Some?);
    var built := Built(cat, c.kind, c.name, before, c.flags, c.session, SuggestedIn(d, c), c.answers);
    forall e ensures SuggestionFault(d, c, e) <==> suggestion == Err(e) {
      SuggestionRefusedExactly(d, c, e);
    }
    forall e ensures BuildFault(cat, d, c, h, e) <==> built == Err(e) {
      BuildRefusedExactly(cat, d, c, e);
    }
  }

  /** The services recorded are what --with or the list resolves to, and otherwise
      stay; the tags are those of what was resolved, with the two owner tags, in
      order. */
  lemma RecordedServices(cat: C.Catalog, d: Decl, c: Command, g: Guest)
    requires C.Valid(cat) && After(cat, d, c) == Ok(Some(g))
    ensures AskedFor(d, c).Some? && Resolve.Resolution(cat, AskedFor(d, c).value).Ok?
    ensures var out := Resolve.Resolution(cat, AskedFor(d, c).value).value;
      && g.services == (if c.session.with.None? && At(d, c.kind, c.name).Some? then AskedFor(d, c).value else C.Ids(out))
      && (forall t :: t in g.tags <==> t in {"managed", "pvecli"} || exists id | id in C.Ids(out) :: t == "svc_" + id)
      && Sorted(Before, g.tags) && |g.tags| == 2 + |out|
  {
    var out := Resolve.Resolution(cat, AskedFor(d, c).value).value;
    assert g.tags == GuestTags(Resolve.Tags(out));
    GuestTagsHold(out);
  }

  lemma GuestTagsHold(out: seq<C.Service>)
    ensures var tags := GuestTags(Resolve.Tags(out));
      && (forall t :: t in tags <==> t in {"managed", "pvecli"} || exists id | id in C.Ids(out) :: t == "svc_" + id)
      && Sorted(Before, tags) && |tags| == 2 + |out|
  {
    GuestTagsMembers(out);
    var tags := Resolve.Tags(out);
    BeforeIsStrictTotal(OWNER_TAGS + tags);
    SortSorts(Before, OWNER_TAGS + tags);
    TotalOfSort(Before, Resolve.TagList(out));
    TotalOfSort(Before, OWNER_TAGS + tags);
    forall t ensures t in Resolve.TagList(out) <==> exists id | id in C.Ids(out) :: t == "svc_" + id {
      TagListHolds(out, t);
    }
  }

  lemma GuestTagsMembers(out: seq<C.Service>)
    ensures forall t :: t in GuestTags(Resolve.Tags(out)) <==> t in {"managed", "pvecli"} || t in Resolve.TagList(out)
  {
    var tags, list := Resolve.Tags(out), Resolve.TagList(out);
    SortKeepsElements(Before, list);
    SortKeepsElements(Before, OWNER_TAGS + tags);
    SameElements(tags, list);
    SameElements(GuestTags(tags), OWNER_TAGS + tags);
  }

  lemma TagListHolds(out: seq<C.Service>, t: string)
    ensures t in Resolve.TagList(out) <==> exists id | id in C.Ids(out) :: t == "svc_" + id
  {
    var list := Resolve.TagList(out);
    if id :| id in C.Ids(out) && t == "svc_" + id {
      var i :| 0 <= i < |out| && C.Ids(out)[i] == id;
      assert list[i] == t;
    }
    if t in list {
      var i :| 0 <= i < |list| && list[i] == t;
      assert C.Ids(out)[i] == out[i].id;
    }
  }

  // ------------------------------------------------------------ what is written

  lemma SaveWrites(d: Decl, kind: Kind, name: string, after: Result<Option<Guest>, DeclareError>, s: Session)
    ensures var e := Save(d, kind, name, after, s);
      && (s.dryRun || !s.allowed || !s.saved || after.Err? ==> e == d)
      && (!s.dryRun && s.allowed && s.saved && after.Ok? ==>
            At(e, kind, name) == after.value || (e == d && Render(At(d, kind, name)) == Render(after.value)))
      && forall k, n | (k, n) != (kind, name) :: At(e, k, n) == At(d, k, n)
  {
  }

  /** A dry run, a refusal at the prompt, a failed save and a refused command leave
      the file alone; any other command leaves the entry it announced, or one that
      reads alike, and no other entry moves. */
  lemma OnlyAcceptedCommandsWrite(cat: C.Catalog, d: Decl, c: Command)
    requires C.Valid(cat)
    ensures var s, e, after := c.session, Step(cat, d, c), After(cat, d, c);
      && (s.dryRun || !s.allowed || !s.saved || after.Err? ==> e == d)
      && (!s.dryRun && s.allowed && s.saved && after.Ok? ==>
            At(e, c.kind, c.name) == after.value || (e == d && Alike(At(d, c.kind, c.name), after.value)))
      && forall k, n | (k, n) != (c.kind, c.name) :: At(e, k, n) == At(d, k, n)
  {
    var before, after := At(d, c.kind, c.name), After(cat, d, c);
    SaveWrites(d, c.kind, c.name, after, c.session);
    if after.Ok? {
      EmptyDifferenceExactly(before, after.value);
    }
  }

  // --------------------------------------------------------------- every run

  /** The command was accepted where it stood in the run, and carried out. */
  ghost predicate CarriedOut(cat: C.Catalog, d: Decl, commands: seq<Command>, k: nat)
    requires C.Valid(cat) && k < |commands|
  {
    var s := commands[k].session;
    After(cat, Run(cat, d, commands[..k]), commands[k]).Ok? && !s.remove && !s.dryRun && s.allowed && s.saved
  }

  /** Without a change of ip, the gateway is the one typed, or stays. */
  predicate GatewayTyped(f: Flags, g: Guest, h: Guest) {
    f.ip.None? ==> h.gateway == if f.gateway.Some? then f.gateway.value else g.gateway
  }

  /** An entry that reads like the one announced holds the same fields. */
  lemma AlikeTypesOver(f: Flags, g: Guest, h: Guest)
    requires Consistent(g) && TypedOver(f, g, h) && GatewayFollows(f, g, h)
    ensures GatewayTyped(f, g, h)
    ensures Alike(Some(g), Some(h)) ==> TypedOver(f, g, g) && GatewayTyped(f, g, g)
  {
  }

  lemma StepTypesOver(cat: C.Catalog, d: Decl, c: Command, g: Guest)
    requires C.Valid(cat) && At(d, c.kind, c.name) == Some(g) && Consistent(g) && After(cat, d, c).Ok?
    requires var s := c.session; !s.remove && !s.dryRun && s.allowed && s.saved
    ensures var h := At(Step(cat, d, c), c.kind, c.name);
      h.Some? && Consistent(h.value) && TypedOver(c.flags, g, h.value) && GatewayTyped(c.flags, g, h.value)
  {
    var h := After(cat, d, c).value.value;
    RedeclaredFields(cat, d, c, g, h);
    AlikeTypesOver(c.flags, g, h);
    OnlyAcceptedCommandsWrite(cat, d, c);
  }

  lemma TypedOverComposes(f: Flags, g: Guest, h: Guest, e: Flags, k: Guest)
    requires TypedOver(f, g, h) && GatewayTyped(f, g, h) && TypedOver(e, h, k) && GatewayTyped(e, h, k)
    ensures TypedOver(Both(f, e), g, k) && GatewayTyped(Both(f, e), g, k)
  {
  }

  /** What the commands so far typed, over what the guest was. */
  ghost predicate RunTypedOver(typed: Flags, g: Guest, h: Option<Guest>) {
    h.Some? && Consistent(h.value) && TypedOver(typed, g, h.value) && GatewayTyped(typed, g, h.value)
  }

  lemma NextTypesOver(cat: C.Catalog, d: Decl, c: Command, typed: Flags, g: Guest)
    requires C.Valid(cat) && RunTypedOver(typed, g, At(d, c.kind, c.name)) && After(cat, d, c).Ok?
    requires var s := c.session; !s.remove && !s.dryRun && s.allowed && s.saved
    ensures RunTypedOver(Both(typed, c.flags), g, At(Step(cat, d, c), c.kind, c.name))
  {
    var h := At(d, c.kind, c.name).value;
    StepTypesOver(cat, d, c, h);
    TypedOverComposes(typed, g, h, c.flags, At(Step(cat, d, c), c.kind, c.name).value);
  }

  lemma StaysTypedOver(cat: C.Catalog, d: Decl, c: Command, kind: Kind, name: string, typed: Flags, g: Guest)
    requires C.Valid(cat) && RunTypedOver(typed, g, At(d, kind, name)) && !Names(c, kind, name)
    ensures RunTypedOver(typed, g, At(Step(cat, d, c), kind, name))
  {
    OthersAreUntouched(d, c.kind, c.name, After(cat, d, c), c.session, kind, name);
  }

  lemma LastOfTheRun(cat: C.Catalog, d: Decl, commands: seq<Command>, kind: Kind, name: string, g: Guest)
    requires C.Valid(cat) && commands != []
    requires var front := commands[..|commands| - 1];
      RunTypedOver(TypedFor(front, kind, name).0, g, At(Run(cat, d, front), kind, name))
    requires Names(commands[|commands| - 1], kind, name) ==> CarriedOut(cat, d, commands, |commands| - 1)
    ensures RunTypedOver(TypedFor(commands, kind, name).0, g, At(Run(cat, d, commands), kind, name))
  {
    var front, last := commands[..|commands| - 1], commands[|commands| - 1];
    var typed := TypedFor(front, kind, name).0;
    if Names(last, kind, name) {
      NextTypesOver(cat, Run(cat, d, front), last, typed, g);
    } else {
      StaysTypedOver(cat, Run(cat, d, front), last, kind, name, typed, g);
    }
  }

  lemma CarriedOutBefore(cat: C.Catalog, d: Decl, commands: seq<Command>, k: nat)
    requires C.Valid(cat) && k < |commands| - 1 && CarriedOut(cat, d, commands, k)
    ensures CarriedOut(cat, d, commands[..|commands| - 1], k)
  {
    assert commands[..|commands| - 1][..k] == commands[..k];
  }

  /** Over any run whose commands for a guest are all accepted and carried out,
      each field ends as the last value typed for it, and if none was, as it
      began. */
  lemma {:induction false} EveryRunKeepsWhatWasTyped(cat: C.Catalog, d: Decl, commands: seq<Command>, kind: Kind, name: string, g: Guest)
    requires C.Valid(cat) && At(d, kind, name) == Some(g) && Consistent(g)
    requires forall k | 0 <= k < |commands| && Names(commands[k], kind, name) :: CarriedOut(cat, d, commands, k)
    ensures RunTypedOver(TypedFor(commands, kind, name).0, g, At(Run(cat, d, commands), kind, name))
    decreases |commands|
  {
    if commands != [] {
      var front := commands[..|commands| - 1];
      forall k | 0 <= k < |front| && Names(front[k], kind, name) ensures CarriedOut(cat, d, front, k) {
        CarriedOutBefore(cat, d, commands, k);
      }
      EveryRunKeepsWhatWasTyped(cat, d, front, kind, name, g);
      LastOfTheRun(cat, d, commands, kind, name, g);
    }
  }
}
