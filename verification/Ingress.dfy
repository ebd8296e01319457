/** A tunnel's ingress table (internal/cf/tunnel.go): an ordered list of rules
    read by first match, with a catch-all that must stay last. */
module Ingress {
  import opened Results
  import opened Text

  datatype OriginRequest = OriginRequest(noTLSVerify: bool)

  datatype IngressRule = IngressRule(hostname: string, path: string, service: string, origin: Option<OriginRequest>) {
    predicate IsCatchAll() {
      hostname == "" && path == ""
    }
  }

  const CATCH_ALL_SERVICE := "http_status:404"
  const DEFAULT_CATCH_ALL := IngressRule("", "", CATCH_ALL_SERVICE, None)

  // --------------------------------------------------- the table as a value

  /** The rules that are not catch-alls, in order. */
  function Ordinary(rules: seq<IngressRule>): (r: seq<IngressRule>) {
    if rules == [] then []
    else if rules[0].IsCatchAll() then Ordinary(rules[1..])
    else [rules[0]] + Ordinary(rules[1..])
  }

  /** The first catch-all, or the default one. */
  function CatchAll(rules: seq<IngressRule>): (r: IngressRule)
    ensures r.IsCatchAll()
  {
    if rules == [] then DEFAULT_CATCH_ALL
    else if rules[0].IsCatchAll() then rules[0]
    else CatchAll(rules[1..])
  }

  function Normalised(rules: seq<IngressRule>): seq<IngressRule> {
    Ordinary(rules) + [CatchAll(rules)]
  }

  /** The rules RemoveRoute keeps. */
  function Without(rules: seq<IngressRule>, hostname: string): (r: seq<IngressRule>) {
    if rules == [] then []
    else if !rules[0].IsCatchAll() && rules[0].hostname == hostname then Without(rules[1..], hostname)
    else [rules[0]] + Without(rules[1..], hostname)
  }

  function Removed(rules: seq<IngressRule>, hostname: string): seq<IngressRule> {
    Normalised(Without(rules, hostname))
  }

  function Added(rules: seq<IngressRule>, hostname: string, service: string, origin: Option<OriginRequest>): seq<IngressRule> {
    Normalised(Removed(rules, hostname) + [IngressRule(hostname, "", service, origin)])
  }

  predicate Names(rules: seq<IngressRule>, hostname: string) {
    exists i | 0 <= i < |rules| :: !rules[i].IsCatchAll() && rules[i].hostname == hostname
  }

  // ----------------------------------------------------------- the methods

  datatype ConfigError = EmptyTable | LastNotCatchAll | EarlyCatchAll(position: nat) | NoService(position: nat)

  class Config {
    var ingress: seq<IngressRule>

    constructor (ingress: seq<IngressRule>)
      ensures this.ingress == ingress
    {
      this.ingress := ingress;
    }

    method Normalise()
      modifies this
      ensures ingress == Normalised(old(ingress))
    {
      var kept: seq<IngressRule> := [];
      var catchAll := DEFAULT_CATCH_ALL;
      var found := false;
      var i := 0;
      while i < |ingress|
        invariant 0 <= i <= |ingress| && ingress == old(ingress)
        invariant kept + Ordinary(ingress[i..]) == Ordinary(ingress)
        invariant (if found then catchAll else CatchAll(ingress[i..])) == CatchAll(ingress)
        invariant !found ==> catchAll == DEFAULT_CATCH_ALL
      {
        var r := ingress[i];
        assert ingress[i..][0] == r && ingress[i..][1..] == ingress[i + 1..];
        i := i + 1;
        if r.IsCatchAll() {
          if !found {
            catchAll := r;
            found := true;
          }
          continue;
        }
        kept := kept + [r];
      }
      assert ingress[|ingress|..] == [];
      ingress := kept + [catchAll];
    }

    method RemoveRoute(hostname: string) returns (removed: bool)
      modifies this
      ensures ingress == Removed(old(ingress), hostname)
      ensures removed == Names(old(ingress), hostname)
    {
      var kept: seq<IngressRule> := [];
      removed := false;
      var i := 0;
      while i < |ingress|
        invariant 0 <= i <= |ingress| && ingress == old(ingress)
        invariant kept + Without(ingress[i..], hostname) == Without(ingress, hostname)
        invariant removed == Names(ingress[..i], hostname)
      {
        var r := ingress[i];
        assert ingress[i..][0] == r && ingress[i..][1..] == ingress[i + 1..];
        assert ingress[..i + 1] == ingress[..i] + [r];
        i := i + 1;
        if !r.IsCatchAll() && r.hostname == hostname {
          removed := true;
          assert !ingress[..i][i - 1].IsCatchAll() && ingress[..i][i - 1].hostname == hostname;
          continue;
        }
        if removed {
          ghost var j :| 0 <= j < i - 1 && !ingress[..i - 1][j].IsCatchAll() && ingress[..i - 1][j].hostname == hostname;
          assert ingress[..i][j] == ingress[..i - 1][j];
        }
        kept := kept + [r];
      }
      assert ingress[|ingress|..] == [] && ingress[..|ingress|] == ingress;
      assert kept + [] == kept;
      ingress := kept;
      Normalise();
    }

    method AddRoute(hostname: string, service: string, origin: Option<OriginRequest>)
      modifies this
      ensures ingress == Added(old(ingress), hostname, service, origin)
    {
      var removed := RemoveRoute(hostname);
      ingress := ingress + [IngressRule(hostname, "", service, origin)];
      Normalise();
    }
  }

  /** A table cloudflared starts with: one catch-all, last, and a service on every
      other rule. */
  ghost predicate Acceptable(rules: seq<IngressRule>) {
    && rules != []
    && rules[|rules| - 1].IsCatchAll()
    && forall i | 0 <= i < |rules| - 1 :: !rules[i].IsCatchAll() && rules[i].service != ""
  }

  /** The rules before position k have no fault. */
  ghost predicate FirstFault(rules: seq<IngressRule>, k: nat)
    requires k < |rules|
  {
    forall j | 0 <= j < k :: !rules[j].IsCatchAll() && rules[j].service != ""
  }

  /** Validate; positions count from 1, as the messages do. */
  method Validate(ingress: seq<IngressRule>) returns (err: Option<ConfigError>)
    ensures err.None? <==> Acceptable(ingress)
    ensures err == Some(EmptyTable) <==> ingress == []
    ensures err == Some(LastNotCatchAll) <==> ingress != [] && !ingress[|ingress| - 1].IsCatchAll()
    ensures err.Some? && err.value.EarlyCatchAll? ==>
      && 1 <= err.value.position < |ingress| && ingress[err.value.position - 1].IsCatchAll()
      && FirstFault(ingress, err.value.position - 1)
    ensures err.Some? && err.value.NoService? ==>
      && 1 <= err.value.position < |ingress| && ingress[err.value.position - 1].service == ""
      && !ingress[err.value.position - 1].IsCatchAll() && FirstFault(ingress, err.value.position - 1)
  {
    if |ingress| == 0 {
      return Some(EmptyTable);
    }
    if !ingress[|ingress| - 1].IsCatchAll() {
      return Some(LastNotCatchAll);
    }
    var i := 0;
    while i < |ingress| - 1
      invariant 0 <= i <= |ingress| - 1
      invariant forall j | 0 <= j < i :: !ingress[j].IsCatchAll() && ingress[j].service != ""
    {
      if ingress[i].IsCatchAll() {
        return Some(EarlyCatchAll(i + 1));
      }
      if ingress[i].service == "" {
        return Some(NoService(i + 1));
      }
      i := i + 1;
    }
    return None;
  }

  // ------------------------------------------------------------- structure

  lemma {:induction false} OrdinaryConcat(a: seq<IngressRule>, b: seq<IngressRule>)
    ensures Ordinary(a + b) == Ordinary(a) + Ordinary(b)
  {
    if a == [] {
      assert [] + b == b;
    } else {
      assert (a + b)[1..] == a[1..] + b;
      OrdinaryConcat(a[1..], b);
    }
  }

  /** The catch-all chosen is the first of the table, and the default one exactly
      when there is none to choose. */
  lemma {:induction false} CatchAllIsTheFirst(rules: seq<IngressRule>) returns (i: nat)
    ensures i <= |rules| && forall j | 0 <= j < i :: !rules[j].IsCatchAll()
    ensures CatchAll(rules) == if i < |rules| then rules[i] else IngressRule("", "", "http_status:404", None)
    ensures i < |rules| ==> rules[i].IsCatchAll()
  {
    if rules == [] || rules[0].IsCatchAll() {
      i := 0;
    } else {
      var k := CatchAllIsTheFirst(rules[1..]);
      i := k + 1;
      assert forall j | 1 <= j < i :: rules[j] == rules[1..][j - 1];
    }
  }

  ghost predicate HasCatchAll(rules: seq<IngressRule>) {
    exists r | r in rules :: r.IsCatchAll()
  }

  lemma {:induction false} CatchAllOfConcat(a: seq<IngressRule>, b: seq<IngressRule>)
    ensures CatchAll(a + b) == if HasCatchAll(a) then CatchAll(a) else CatchAll(b)
  {
    if a == [] {
      assert [] + b == b;
    } else {
      assert (a + b)[1..] == a[1..] + b;
      CatchAllOfConcat(a[1..], b);
      assert a == [a[0]] + a[1..];
      assert a[0] in a;
      assert HasCatchAll(a) <==> a[0].IsCatchAll() || HasCatchAll(a[1..]);
    }
  }

  lemma {:induction false} OrdinaryMembers(rules: seq<IngressRule>)
    ensures forall r :: r in Ordinary(rules) <==> r in rules && !r.IsCatchAll()
    ensures Ordinary(Ordinary(rules)) == Ordinary(rules)
  {
    if rules != [] {
      assert rules == [rules[0]] + rules[1..];
      OrdinaryMembers(rules[1..]);
      if !rules[0].IsCatchAll() {
        assert Ordinary(rules)[1..] == Ordinary(rules[1..]);
      }
    }
  }

  lemma OneCatchAll(c: IngressRule)
    requires c.IsCatchAll()
    ensures Ordinary([c]) == [] && CatchAll([c]) == c
  {
  }

  lemma OneOrdinary(r: IngressRule)
    requires !r.IsCatchAll()
    ensures Ordinary([r]) == [r]
  {
    assert [r][1..] == [];
  }

  /** Normalising separates the table into its two parts, for good. */
  lemma NormalisedParts(rules: seq<IngressRule>)
    ensures Ordinary(Normalised(rules)) == Ordinary(rules)
    ensures CatchAll(Normalised(rules)) == CatchAll(rules)
    ensures Normalised(Normalised(rules)) == Normalised(rules)
  {
    var c := CatchAll(rules);
    OneCatchAll(c);
    OrdinaryMembers(rules);
    OrdinaryConcat(Ordinary(rules), [c]);
    CatchAllOfConcat(Ordinary(rules), [c]);
    assert Ordinary(rules) + [] == Ordinary(rules);
  }

  lemma {:induction false} WithoutParts(rules: seq<IngressRule>, hostname: string)
    ensures Ordinary(Without(rules, hostname)) == Without(Ordinary(rules), hostname)
    ensures CatchAll(Without(rules, hostname)) == CatchAll(rules)
  {
    if rules != [] {
      WithoutParts(rules[1..], hostname);
      assert Without(rules, hostname) != [] && Without(rules, hostname)[0] == rules[0] ==>
        Without(rules, hostname)[1..] == Without(rules[1..], hostname) || rules[0].hostname == hostname;
    }
  }

  /** What each operation does to the two parts. */
  lemma RemovedParts(rules: seq<IngressRule>, hostname: string)
    ensures Removed(rules, hostname) == Without(Ordinary(rules), hostname) + [CatchAll(rules)]
    ensures Ordinary(Removed(rules, hostname)) == Without(Ordinary(rules), hostname)
    ensures CatchAll(Removed(rules, hostname)) == CatchAll(rules)
  {
    WithoutParts(rules, hostname);
    NormalisedParts(Without(rules, hostname));
  }

  lemma AddedParts(rules: seq<IngressRule>, hostname: string, service: string, origin: Option<OriginRequest>)
    requires hostname != ""
    ensures var r := IngressRule(hostname, "", service, origin);
      && Added(rules, hostname, service, origin) == Without(Ordinary(rules), hostname) + [r] + [CatchAll(rules)]
      && Ordinary(Added(rules, hostname, service, origin)) == Without(Ordinary(rules), hostname) + [r]
      && CatchAll(Added(rules, hostname, service, origin)) == CatchAll(rules)
  {
    var r := IngressRule(hostname, "", service, origin);
    var before := Removed(rules, hostname);
    RemovedParts(rules, hostname);
    OneOrdinary(r);
    OrdinaryConcat(before, [r]);
    assert before[|before| - 1] in before;
    CatchAllOfConcat(before, [r]);
    NormalisedParts(before + [r]);
  }

  // --------------------------------------------------------------- routing

  /** How cloudflared matches the path of a rule against a request; any relation
      will do, since the table never looks inside. */
  type PathMatch = (string, string) -> bool

  predicate Matches(m: PathMatch, r: IngressRule, host: string, path: string) {
    (r.hostname == "" || r.hostname == host) && (r.path == "" || m(r.path, path))
  }

  /** The first rule that matches. */
  function Route(m: PathMatch, rules: seq<IngressRule>, host: string, path: string): (r: Option<IngressRule>)
    ensures r.Some? ==> r.value in rules && Matches(m, r.value, host, path)
    ensures r.None? ==> forall x | x in rules :: !Matches(m, x, host, path)
  {
    if rules == [] then None
    else if Matches(m, rules[0], host, path) then Some(rules[0])
    else Route(m, rules[1..], host, path)
  }

  lemma {:induction false} RouteConcat(m: PathMatch, a: seq<IngressRule>, b: seq<IngressRule>, host: string, path: string)
    ensures Route(m, a + b, host, path) == if Route(m, a, host, path).Some? then Route(m, a, host, path) else Route(m, b, host, path)
  {
    if a == [] {
      assert [] + b == b;
    } else {
      assert (a + b)[1..] == a[1..] + b;
      RouteConcat(m, a[1..], b, host, path);
    }
  }

  /** Once normalised, a request goes to the first ordinary rule that matches it,
      and otherwise to the catch-all, wherever that stood before. */
  lemma NormalisedRoutes(m: PathMatch, rules: seq<IngressRule>, host: string, path: string)
    ensures Route(m, Normalised(rules), host, path) ==
      if Route(m, Ordinary(rules), host, path).Some? then Route(m, Ordinary(rules), host, path) else Some(CatchAll(rules))
  {
    RouteConcat(m, Ordinary(rules), [CatchAll(rules)], host, path);
  }

  lemma {:induction false} WithoutRoutes(m: PathMatch, rules: seq<IngressRule>, hostname: string, host: string, path: string)
    requires hostname != "" && host != hostname
    ensures Route(m, Without(rules, hostname), host, path) == Route(m, rules, host, path)
  {
    if rules != [] {
      WithoutRoutes(m, rules[1..], hostname, host, path);
    }
  }

  /** Adding or removing a route leaves every request to another host on the very
      rule it had. */
  lemma OtherHostsKeepTheirRule(m: PathMatch, rules: seq<IngressRule>, hostname: string, service: string,
                                origin: Option<OriginRequest>, host: string, path: string)
    requires hostname != "" && host != hostname
    ensures Route(m, Removed(rules, hostname), host, path) == Route(m, Normalised(rules), host, path)
    ensures Route(m, Added(rules, hostname, service, origin), host, path) == Route(m, Normalised(rules), host, path)
  {
    var r := IngressRule(hostname, "", service, origin);
    RemovedParts(rules, hostname);
    AddedParts(rules, hostname, service, origin);
    NormalisedRoutes(m, rules, host, path);
    WithoutRoutes(m, Ordinary(rules), hostname, host, path);
    var kept := Without(Ordinary(rules), hostname);
    RouteConcat(m, kept, [CatchAll(rules)], host, path);
    RouteConcat(m, kept + [r], [CatchAll(rules)], host, path);
    RouteConcat(m, kept, [r], host, path);
  }

  /** The first rule for every host that matches the path. */
  function HostlessRoute(m: PathMatch, rules: seq<IngressRule>, path: string): (r: Option<IngressRule>)
    ensures r.None? <==> forall x | x in rules && x.hostname == "" && x.path != "" :: !m(x.path, path)
    ensures r.Some? ==> r.value.hostname == "" && r.value.path != ""
  {
    if rules == [] then None
    else if rules[0].hostname == "" && rules[0].path != "" && m(rules[0].path, path) then Some(rules[0])
    else HostlessRoute(m, rules[1..], path)
  }

  lemma {:induction false} WithoutOwnHost(m: PathMatch, rules: seq<IngressRule>, hostname: string, path: string)
    requires hostname != "" && forall r | r in rules :: !r.IsCatchAll()
    ensures Route(m, Without(rules, hostname), hostname, path) == HostlessRoute(m, rules, path)
  {
    if rules != [] {
      assert rules == [rules[0]] + rules[1..];
      assert rules[0] in rules;
      WithoutOwnHost(m, rules[1..], hostname, path);
      if rules[0].hostname != hostname {
        assert Without(rules, hostname)[1..] == Without(rules[1..], hostname);
      }
    }
  }

  /** After AddRoute a request to the host reaches the new service, unless a
      path rule for every host matches it first. */
  lemma AddedHostIsReached(m: PathMatch, rules: seq<IngressRule>, hostname: string, service: string,
                           origin: Option<OriginRequest>, path: string)
    requires hostname != ""
    ensures var r := Route(m, Added(rules, hostname, service, origin), hostname, path);
      && (r == Some(IngressRule(hostname, "", service, origin)) <==> HostlessRoute(m, Ordinary(rules), path).None?)
      && (HostlessRoute(m, Ordinary(rules), path).Some? ==> r == HostlessRoute(m, Ordinary(rules), path))
  {
    var r := IngressRule(hostname, "", service, origin);
    AddedParts(rules, hostname, service, origin);
    OrdinaryMembers(rules);
    WithoutOwnHost(m, Ordinary(rules), hostname, path);
    var kept := Without(Ordinary(rules), hostname);
    RouteConcat(m, kept + [r], [CatchAll(rules)], hostname, path);
    RouteConcat(m, kept, [r], hostname, path);
  }

  // -------------------------------------------------------- combining edits

  lemma {:induction false} WithoutConcat(a: seq<IngressRule>, b: seq<IngressRule>, hostname: string)
    ensures Without(a + b, hostname) == Without(a, hostname) + Without(b, hostname)
  {
    if a == [] {
      assert [] + b == b;
    } else {
      assert (a + b)[1..] == a[1..] + b;
      WithoutConcat(a[1..], b, hostname);
    }
  }

  lemma {:induction false} WithoutTwice(rules: seq<IngressRule>, hostname: string)
    ensures Without(Without(rules, hostname), hostname) == Without(rules, hostname)
  {
    if rules != [] {
      WithoutTwice(rules[1..], hostname);
      if rules[0].IsCatchAll() || rules[0].hostname != hostname {
        assert Without(rules, hostname)[1..] == Without(rules[1..], hostname);
      }
    }
  }

  lemma {:induction false} WithoutCommutes(rules: seq<IngressRule>, g: string, h: string)
    ensures Without(Without(rules, g), h) == Without(Without(rules, h), g)
  {
    if rules != [] {
      WithoutCommutes(rules[1..], g, h);
      if rules[0].IsCatchAll() || rules[0].hostname != g {
        assert Without(rules, g)[1..] == Without(rules[1..], g);
      }
      if rules[0].IsCatchAll() || rules[0].hostname != h {
        assert Without(rules, h)[1..] == Without(rules[1..], h);
      }
    }
  }

  lemma WithoutOne(r: IngressRule, hostname: string)
    requires !r.IsCatchAll()
    ensures Without([r], hostname) == if r.hostname == hostname then [] else [r]
  {
    assert [r][1..] == [];
  }

  /** Removing a route just added is removing the route. */
  lemma AddThenRemove(rules: seq<IngressRule>, hostname: string, service: string, origin: Option<OriginRequest>)
    requires hostname != ""
    ensures Removed(Added(rules, hostname, service, origin), hostname) == Removed(rules, hostname)
  {
    var r := IngressRule(hostname, "", service, origin);
    var kept := Without(Ordinary(rules), hostname);
    AddedParts(rules, hostname, service, origin);
    RemovedParts(rules, hostname);
    RemovedParts(Added(rules, hostname, service, origin), hostname);
    WithoutConcat(kept, [r], hostname);
    WithoutOne(r, hostname);
    WithoutTwice(Ordinary(rules), hostname);
    assert kept + [] == kept;
  }

  lemma TwoAdds(rules: seq<IngressRule>, a: IngressRule, b: IngressRule)
    requires a.hostname != "" && b.hostname != "" && a.hostname != b.hostname && a.path == b.path == ""
    ensures Added(Added(rules, a.hostname, a.service, a.origin), b.hostname, b.service, b.origin)
      == Without(Without(Ordinary(rules), a.hostname), b.hostname) + [a] + [b] + [CatchAll(rules)]
  {
    var first := Added(rules, a.hostname, a.service, a.origin);
    AddedParts(rules, a.hostname, a.service, a.origin);
    AddedParts(first, b.hostname, b.service, b.origin);
    WithoutConcat(Without(Ordinary(rules), a.hostname), [a], b.hostname);
    WithoutOne(a, b.hostname);
  }

  /** Two hosts can be added in either order: every request is routed alike. */
  lemma AddsCommute(m: PathMatch, rules: seq<IngressRule>, a: IngressRule, b: IngressRule, host: string, path: string)
    requires a.hostname != "" && b.hostname != "" && a.hostname != b.hostname && a.path == b.path == ""
    ensures Route(m, Added(Added(rules, a.hostname, a.service, a.origin), b.hostname, b.service, b.origin), host, path)
      == Route(m, Added(Added(rules, b.hostname, b.service, b.origin), a.hostname, a.service, a.origin), host, path)
  {
    TwoAdds(rules, a, b);
    TwoAdds(rules, b, a);
    WithoutCommutes(Ordinary(rules), a.hostname, b.hostname);
    var kept, c := Without(Without(Ordinary(rules), a.hostname), b.hostname), [CatchAll(rules)];
    RouteConcat(m, kept + [a] + [b], c, host, path);
    RouteConcat(m, kept + [a], [b], host, path);
    RouteConcat(m, kept, [a], host, path);
    RouteConcat(m, kept + [b] + [a], c, host, path);
    RouteConcat(m, kept + [b], [a], host, path);
    RouteConcat(m, kept, [b], host, path);
  }

  // -------------------------------------------------------------- every run

  datatype Edit = Add(hostname: string, service: string, origin: Option<OriginRequest>) | Remove(hostname: string)

  function Edited(rules: seq<IngressRule>, edit: Edit): seq<IngressRule> {
    match edit
    case Add(h, s, o) => Added(rules, h, s, o)
    case Remove(h) => Removed(rules, h)
  }

  function Run(rules: seq<IngressRule>, edits: seq<Edit>): seq<IngressRule> {
    if edits == [] then rules else Edited(Run(rules, edits[..|edits| - 1]), edits[|edits| - 1])
  }

  ghost predicate Edits(edits: seq<Edit>, hostname: string) {
    exists e | e in edits :: e.hostname == hostname
  }

  /** The rule an edit adds, if it adds one. */
  function RuleOf(edit: Edit): seq<IngressRule> {
    if edit.Add? then [IngressRule(edit.hostname, "", edit.service, edit.origin)] else []
  }

  /** The rules of the additions that no later edit of their host undoes, in
      order. */
  ghost function LastAdds(edits: seq<Edit>): seq<IngressRule> {
    if edits == [] then []
    else Standing(edits[0], edits[1..]) + LastAdds(edits[1..])
  }

  /** What an edit adds, if none of the later ones is of its host. */
  ghost function Standing(edit: Edit, later: seq<Edit>): seq<IngressRule> {
    if Edits(later, edit.hostname) then [] else RuleOf(edit)
  }

  /** The rules of the hosts no edit names. */
  ghost function Unedited(rules: seq<IngressRule>, edits: seq<Edit>): seq<IngressRule> {
    if rules == [] then []
    else if Edits(edits, rules[0].hostname) then Unedited(rules[1..], edits)
    else [rules[0]] + Unedited(rules[1..], edits)
  }

  ghost predicate ProperEdits(edits: seq<Edit>) {
    forall e | e in edits :: e.hostname != "" && (e.Add? ==> e.service != "")
  }

  /** What one more edit does to the ordinary rules and the catch-all. */
  lemma EditedParts(rules: seq<IngressRule>, edit: Edit)
    requires edit.hostname != ""
    ensures Edited(rules, edit) == Ordinary(Edited(rules, edit)) + [CatchAll(rules)]
    ensures CatchAll(Edited(rules, edit)) == CatchAll(rules)
    ensures Ordinary(Edited(rules, edit)) == Without(Ordinary(rules), edit.hostname) + RuleOf(edit)
  {
    if edit.Remove? {
      RemovedParts(rules, edit.hostname);
      assert Without(Ordinary(rules), edit.hostname) + [] == Without(Ordinary(rules), edit.hostname);
    } else {
      AddedParts(rules, edit.hostname, edit.service, edit.origin);
    }
  }

  lemma EditsOfMore(front: seq<Edit>, last: Edit, hostname: string)
    ensures Edits(front + [last], hostname) <==> Edits(front, hostname) || last.hostname == hostname
  {
    if Edits(front, hostname) {
      var e :| e in front && e.hostname == hostname;
      assert e in front + [last];
    }
    assert last in front + [last];
  }

  /** One more edit takes the host's rules out of those not edited. */
  lemma {:induction false} UneditedShrinks(rules: seq<IngressRule>, front: seq<Edit>, last: Edit)
    requires forall r | r in rules :: !r.IsCatchAll()
    ensures Unedited(rules, front + [last]) == Without(Unedited(rules, front), last.hostname)
  {
    if rules != [] {
      assert rules == [rules[0]] + rules[1..];
      assert rules[0] in rules;
      UneditedShrinks(rules[1..], front, last);
      EditsOfMore(front, last, rules[0].hostname);
      if !Edits(front, rules[0].hostname) {
        assert Unedited(rules, front)[1..] == Unedited(rules[1..], front);
      }
    }
  }

  lemma HeadStands(first: Edit, rest: seq<Edit>, last: Edit)
    requires first.hostname != ""
    ensures Standing(first, rest + [last]) == Without(Standing(first, rest), last.hostname)
  {
    EditsOfMore(rest, last, first.hostname);
    if first.Add? {
      WithoutOne(RuleOf(first)[0], last.hostname);
    }
  }

  lemma {:induction false} LastAddsGrow(front: seq<Edit>, last: Edit)
    requires ProperEdits(front)
    ensures LastAdds(front + [last]) == Without(LastAdds(front), last.hostname) + RuleOf(last)
  {
    if front == [] {
      assert [last][1..] == [];
      assert RuleOf(last) + [] == RuleOf(last);
    } else {
      var first, rest := front[0], front[1..];
      assert front == [first] + rest && first in front;
      assert (front + [last])[1..] == rest + [last];
      LastAddsGrow(rest, last);
      HeadStands(first, rest, last);
      WithoutConcat(Standing(first, rest), LastAdds(rest), last.hostname);
      ConcatIsAssociative(Without(Standing(first, rest), last.hostname), Without(LastAdds(rest), last.hostname), RuleOf(last));
    }
  }

  lemma {:induction false} RunKeepsTheCatchAll(rules: seq<IngressRule>, edits: seq<Edit>)
    requires ProperEdits(edits)
    ensures CatchAll(Run(rules, edits)) == CatchAll(rules)
    ensures edits != [] ==> Run(rules, edits) == Ordinary(Run(rules, edits)) + [CatchAll(rules)]
    decreases |edits|
  {
    if edits != [] {
      assert edits[|edits| - 1] in edits;
      RunKeepsTheCatchAll(rules, edits[..|edits| - 1]);
      EditedParts(Run(rules, edits[..|edits| - 1]), edits[|edits| - 1]);
    }
  }

  lemma NoEdits(rules: seq<IngressRule>)
    ensures Unedited(rules, []) == rules
  {
    if rules != [] {
      NoEdits(rules[1..]);
      assert rules == [rules[0]] + rules[1..];
    }
  }

  lemma OneMoreEdit(rules: seq<IngressRule>, front: seq<Edit>, last: Edit)
    requires ProperEdits(front) && forall r | r in rules :: !r.IsCatchAll()
    ensures Without(Unedited(rules, front) + LastAdds(front), last.hostname) + RuleOf(last)
      == Unedited(rules, front + [last]) + LastAdds(front + [last])
  {
    WithoutConcat(Unedited(rules, front), LastAdds(front), last.hostname);
    UneditedShrinks(rules, front, last);
    LastAddsGrow(front, last);
    ConcatIsAssociative(Unedited(rules, front + [last]), Without(LastAdds(front), last.hostname), RuleOf(last));
  }

  /** After any run of edits the ordinary rules are those of the hosts not edited,
      in their order, then the additions that still stand, in theirs. */
  lemma {:induction false} RunGivesTheOrder(rules: seq<IngressRule>, edits: seq<Edit>)
    requires ProperEdits(edits)
    ensures Ordinary(Run(rules, edits)) == Unedited(Ordinary(rules), edits) + LastAdds(edits)
    decreases |edits|
  {
    if edits == [] {
      NoEdits(Ordinary(rules));
      assert Ordinary(rules) + [] == Ordinary(rules);
    } else {
      var front, last := edits[..|edits| - 1], edits[|edits| - 1];
      assert edits == front + [last] && last in edits;
      RunGivesTheOrder(rules, front);
      EditedParts(Run(rules, front), last);
      OrdinaryMembers(rules);
      OneMoreEdit(Ordinary(rules), front, last);
    }
  }

  /** The whole table after any non-empty run of edits: the rules of the hosts not
      edited, the additions that still stand, and the first catch-all of the
      original, which is the only one. */
  lemma EveryRunKeepsTheTable(rules: seq<IngressRule>, edits: seq<Edit>)
    requires ProperEdits(edits) && edits != []
    ensures Run(rules, edits) == Unedited(Ordinary(rules), edits) + LastAdds(edits) + [CatchAll(rules)]
    ensures forall r | r in Unedited(Ordinary(rules), edits) + LastAdds(edits) :: !r.IsCatchAll()
  {
    RunKeepsTheCatchAll(rules, edits);
    RunGivesTheOrder(rules, edits);
    OrdinaryMembers(Run(rules, edits));
  }

  /** A normalised table is acceptable exactly when its ordinary rules all name a
      service. */
  lemma NormalisedIsAcceptable(rules: seq<IngressRule>)
    ensures Acceptable(Normalised(rules)) <==> forall r | r in Ordinary(rules) :: r.service != ""
  {
    OrdinaryMembers(rules);
    var t, o := Normalised(rules), Ordinary(rules);
    assert forall i | 0 <= i < |o| :: t[i] == o[i] && o[i] in o;
  }

  lemma {:induction false} UneditedMembers(rules: seq<IngressRule>, edits: seq<Edit>)
    ensures forall r :: r in Unedited(rules, edits) <==> r in rules && !Edits(edits, r.hostname)
  {
    if rules != [] {
      assert rules == [rules[0]] + rules[1..];
      UneditedMembers(rules[1..], edits);
    }
  }

  lemma {:induction false} LastAddsNameAService(edits: seq<Edit>)
    requires ProperEdits(edits)
    ensures forall r | r in LastAdds(edits) :: r.service != ""
  {
    if edits != [] {
      assert edits == [edits[0]] + edits[1..];
      assert edits[0] in edits;
      LastAddsNameAService(edits[1..]);
    }
  }

  /** Validate accepts the table a run leaves exactly when the rules it did not
      touch all named a service. */
  lemma EveryRunIsAcceptable(rules: seq<IngressRule>, edits: seq<Edit>)
    requires ProperEdits(edits) && edits != []
    ensures Acceptable(Run(rules, edits)) <==>
      forall r | r in Ordinary(rules) && !Edits(edits, r.hostname) :: r.service != ""
  {
    var end := Run(rules, edits);
    RunKeepsTheCatchAll(rules, edits);
    RunGivesTheOrder(rules, edits);
    assert end == Normalised(end);
    NormalisedIsAcceptable(end);
    UneditedMembers(Ordinary(rules), edits);
    LastAddsNameAService(edits);
  }

  /** An empty hostname adds nothing: its rule would be a second catch-all, and
      Normalise keeps the first. */
  lemma AddingNoHostAddsNothing(rules: seq<IngressRule>, service: string, origin: Option<OriginRequest>)
    ensures Added(rules, "", service, origin) == Removed(rules, "")
  {
    var r := IngressRule("", "", service, origin);
    var before := Removed(rules, "");
    RemovedParts(rules, "");
    OneCatchAll(r);
    OrdinaryConcat(before, [r]);
    assert before[|before| - 1] in before;
    CatchAllOfConcat(before, [r]);
    assert Ordinary(before) + [] == Ordinary(before);
  }
}
