/** Two places where the catalogue does less than its documentation says, each
    with a manifest that shows it. */
module CatalogLimits {
  import opened Results
  import opened Text
  import opened Catalog
  import opened Resolve
  import CycleCheck

  // ------------------------------------------------------------------ ties

  /** Neither of two services needs the other, directly or not: whatever else
      they need, only a tie-break orders them. */
  ghost predicate Tied(c: Catalog, a: string, b: string) {
    a != b && !Reaches(c, a, b) && !Reaches(c, b, a)
  }

  ghost predicate TiedAt(c: Catalog, p: nat, q: nat)
    requires p < |c.services| && q < |c.services|
  {
    Tied(c, c.services[p].id, c.services[q].id)
  }

  ghost predicate NoTies(c: Catalog) {
    forall p, q | 0 <= p < q < |c.services| :: !TiedAt(c, p, q)
  }

  /** Tied services stand in `out` as they stand in the manifest. */
  ghost predicate TiesInManifestOrder(c: Catalog, out: seq<Service>) {
    forall p, q, i, j | 0 <= p < q < |c.services| && 0 <= i < j < |out| ::
      !(out[i] == c.services[q] && out[j] == c.services[p] && TiedAt(c, p, q))
  }

  /** What internal/catalog/catalog.go:147-150 says of every request. */
  ghost predicate ManifestBreaksTies(c: Catalog)
    requires Valid(c)
  {
    forall ids | Resolution(c, ids).Ok? :: TiesInManifestOrder(c, Resolution(c, ids).value)
  }

  /** An id a request can name: Resolve trims what it is asked for. */
  predicate Nameable(id: string) {
    Trim(id) == id
  }

  lemma IndexOf(c: Catalog, out: seq<Service>, s: Service) returns (i: nat)
    requires Installable(c, out) && s.id in Ids(out) && Find(c.services, s.id) == Some(s)
    ensures i < |out| && out[i] == s
  {
    var k :| 0 <= k < |out| && Ids(out)[k] == s.id;
    assert out[k] in out;
    i := k;
  }

  /** What a prefix holds stands before what it does not. */
  lemma PrefixStandsBefore(c: Catalog, first: seq<Service>, out: seq<Service>, s: Service, t: Service) returns (i: nat, j: nat)
    requires Installable(c, out) && first <= out
    requires Find(c.services, s.id) == Some(s) && Find(c.services, t.id) == Some(t)
    requires s.id in Ids(first) && t.id in Ids(out) && t.id !in Ids(first)
    ensures i < j < |out| && out[i] == s && out[j] == t
  {
    assert first == out[..|first|];
    PrefixIsInstallable(c, out, |first|);
    i := IndexOf(c, first, s);
    j := IndexOf(c, out, t);
    assert forall l | 0 <= l < |first| :: Ids(first)[l] == out[l].id != t.id;
  }

  /** Asking for the later of two tied services first lists it first. */
  lemma AskedFirstListedFirst(c: Catalog, a: Service, b: Service) returns (i: nat, j: nat)
    requires Valid(c) && a in c.services && b in c.services && Tied(c, a.id, b.id)
    requires Nameable(a.id) && Nameable(b.id)
    ensures Resolution(c, [b.id, a.id]).Ok?
    ensures var out := Resolution(c, [b.id, a.id]).value; i < j < |out| && out[i] == b && out[j] == a
  {
    var ids := [b.id, a.id];
    FindOfUnique(c.services, a);
    FindOfUnique(c.services, b);
    RequestedOfTrimmed(ids);
    assert FirstUnknown(c, ids).None?;
    ResolutionIsTheClosure(c, ids);
    ClosureMembers(c, ids);
    ClosureMembers(c, [b.id]);
    var first := OrderFollowsTheRequest(c, ids, 1);
    assert ids[..1] == [b.id];
    i, j := PrefixStandsBefore(c, first, Resolution(c, ids).value, b, a);
  }

  /** Exactly when the manifest breaks ties, as documented: when there is none to
      break. Any two tied services a request can name come out in the order of
      the request that names the later one first; a service whose id carries
      spaces cannot be named, only brought in. */
  lemma ManifestBreaksNoTie(c: Catalog)
    requires Valid(c)
    ensures NoTies(c) ==> ManifestBreaksTies(c)
    ensures ManifestBreaksTies(c) ==> forall p, q | 0 <= p < q < |c.services| && TiedAt(c, p, q) ::
      !Nameable(c.services[p].id) || !Nameable(c.services[q].id)
    ensures (forall s | s in c.services :: Nameable(s.id)) ==> (ManifestBreaksTies(c) <==> NoTies(c))
  {
    if p: nat, q: nat :| p < q < |c.services| && TiedAt(c, p, q) && Nameable(c.services[p].id) && Nameable(c.services[q].id) {
      var i, j := AskedFirstListedFirst(c, c.services[p], c.services[q]);
      assert !TiesInManifestOrder(c, Resolution(c, [c.services[q].id, c.services[p].id]).value);
    }
  }

  /** xs without what is in `seen`, each entry where it is first mentioned. */
  function FirstMentions(xs: seq<string>, seen: seq<string>): seq<string> {
    if xs == [] then []
    else if xs[0] in seen then FirstMentions(xs[1..], seen)
    else [xs[0]] + FirstMentions(xs[1..], seen + [xs[0]])
  }

  lemma {:induction false} IndependentKeepOrder(c: Catalog, ids: seq<string>, out: seq<Service>)
    requires Acyclic(c)
    requires forall d | d in ids :: Find(c.services, d).Some? && Needs(c, d) == []
    ensures Ids(PostOrderAll(c, ids, out)) == Ids(out) + FirstMentions(ids, Ids(out))
  {
    if ids != [] {
      var s := Find(c.services, ids[0]).value;
      if ids[0] in Ids(out) {
        IndependentKeepOrder(c, ids[1..], out);
      } else {
        assert PostOrderAll(c, s.needs, out) == out;
        IdsConcat(out, [s]);
        assert Ids(out + [s]) == Ids(out) + [ids[0]];
        IndependentKeepOrder(c, ids[1..], out + [s]);
      }
    }
  }

  /** Services that need nothing come out exactly in the order the request first
      mentions them. */
  lemma IndependentServicesFollowTheRequest(c: Catalog, ids: seq<string>)
    requires Valid(c)
    requires forall d | d in Requested(ids) :: Find(c.services, d).Some? && Needs(c, d) == []
    ensures Resolution(c, ids).Ok? && Ids(Resolution(c, ids).value) == FirstMentions(Requested(ids), [])
  {
    IndependentKeepOrder(c, Requested(ids), []);
  }

  const DOCKER := Service("docker", "docker", [])
  const PHP := Service("php", "php", [])
  const TIED_CATALOG := Catalog(1, [DOCKER, PHP])

  lemma TiedCatalogIsValid()
    ensures Valid(TIED_CATALOG)
  {
    ValidIfSettled(TIED_CATALOG, ["docker", "php"]);
  }

  /** internal/catalog/catalog.go:147-150 says ties are broken by manifest order;
      here the manifest says docker, php and the answer php, docker. */
  lemma TiesIgnoreTheManifest()
    ensures Valid(TIED_CATALOG) && Ids(TIED_CATALOG.services) == ["docker", "php"]
    ensures var r := Resolution(TIED_CATALOG, ["php", "docker"]); r.Ok? && Ids(r.value) == ["php", "docker"]
  {
    TiedCatalogIsValid();
    PlainRequest();
    assert Find(TIED_CATALOG.services, "php") == Some(PHP);
    IndependentServicesFollowTheRequest(TIED_CATALOG, ["php", "docker"]);
    assert ["php", "docker"][1..] == ["docker"] && ["docker"][1..] == [];
    assert FirstMentions(["docker"], ["php"]) == ["docker"];
  }

  lemma PlainRequest()
    ensures Requested(["php", "docker"]) == ["php", "docker"]
  {
    Plain("php");
    Plain("docker");
    assert Requested(["docker"]) == ["docker"];
    assert ["php", "docker"][1..] == ["docker"];
  }

  const SPACED := Service(" db", "db", [])
  const APP := Service("app", "app", [" db"])
  const SPACED_CATALOG := Catalog(1, [SPACED, APP])

  lemma SpacedCatalogIsValid()
    ensures Valid(SPACED_CATALOG)
  {
    var c := SPACED_CATALOG;
    assert Needs(c, " db") == [] && Needs(c, "app") == [" db"];
    assert [" db", "app"][..1] == [" db"];
    ValidIfSettled(c, [" db", "app"]);
  }

  lemma AppResolves(c: Catalog)
    requires Valid(c) && Find(c.services, " db") == Some(SPACED) && Find(c.services, "app") == Some(APP)
    ensures Resolution(c, ["app"]) == Ok([SPACED, APP])
  {
    Plain("app");
    assert Requested(["app"]) == ["app"];
    assert [" db"][1..] == [] && ["app"][1..] == [];
    assert PostOrder(c, " db", []) == [SPACED];
    assert PostOrderAll(c, [" db"], []) == PostOrderAll(c, [], [SPACED]);
    assert PostOrder(c, "app", []) == [SPACED, APP];
    assert PostOrderAll(c, ["app"], []) == PostOrderAll(c, [], [SPACED, APP]);
  }

  /** An id with a leading space passes Parse and installs as a dependency, but
      the declaration that records it can no longer be resolved. */
  lemma SpacedIdBreaksRedeclaration()
    ensures Valid(SPACED_CATALOG) && Resolution(SPACED_CATALOG, ["app"]) == Ok([SPACED, APP])
    ensures Resolution(SPACED_CATALOG, Ids([SPACED, APP])).Err?
  {
    SpacedCatalogIsValid();
    assert Find(SPACED_CATALOG.services, " db") == Some(SPACED) && Find(SPACED_CATALOG.services, "app") == Some(APP);
    AppResolves(SPACED_CATALOG);
    RecordedAreTrimmed();
  }

  lemma RecordedAreTrimmed()
    ensures Ids([SPACED, APP]) == [" db", "app"]
    ensures Trim(" db") == "db" && Requested([" db", "app"]) == ["db", "app"]
  {
    assert " db"[1..] == "db";
    Plain("db");
    Plain("app");
    assert [" db", "app"][1..] == ["app"] && Requested(["app"]) == ["app"];
  }

  const DB := Service("db", "db", [])
  const TWO_DBS := Catalog(1, [SPACED, DB, APP])

  lemma TwoDbsIsValid()
    ensures Valid(TWO_DBS)
    ensures Find(TWO_DBS.services, " db") == Some(SPACED) && Find(TWO_DBS.services, "db") == Some(DB)
    ensures Find(TWO_DBS.services, "app") == Some(APP)
  {
    var c := TWO_DBS;
    assert |" db"| != |"db"| && |"app"| != |"db"|;
    assert Needs(c, " db") == [] && Needs(c, "db") == [] && Needs(c, "app") == [" db"];
    assert [" db", "db", "app"][..2] == [" db", "db"];
    ValidIfSettled(c, [" db", "db", "app"]);
  }

  lemma DbIsNotRecorded()
    ensures !TrimStaysListed([" db", "app"])
  {
    RecordedAreTrimmed();
    assert |" db"| != |"db"| && |"app"| != |"db"|;
    assert " db" in [" db", "app"];
  }

  /** Where the trimmed id is a service too, the recorded ids resolve, to more
      services than were installed. */
  lemma SpacedIdResolvesToAnother()
    ensures Valid(TWO_DBS) && Resolution(TWO_DBS, ["app"]) == Ok([SPACED, APP])
    ensures Ids([SPACED, APP]) == [" db", "app"]
    ensures Resolution(TWO_DBS, [" db", "app"]).Ok? && !TrimStaysListed([" db", "app"])
  {
    TwoDbsIsValid();
    AppResolves(TWO_DBS);
    RecordedAreTrimmed();
    DbIsNotRecorded();
    assert ["db", "app"][1..] == ["app"] && ["app"][1..] == [];
    assert FirstUnknown(TWO_DBS, ["db", "app"]).None?;
  }

  lemma Plain(s: string)
    requires s != "" && !IsSpace(s[0]) && !IsSpace(s[|s| - 1])
    ensures Trim(s) == s && TrimLeft(s) == s
  {
  }

  lemma ValidIfSettled(c: Catalog, order: seq<string>)
    requires c.version == 1 && c.services != []
    requires forall s | s in c.services :: s.id != "" && s.role != ""
    requires UniqueIds(c.services) && ClosedNeeds(c.services)
    requires CycleCheck.Settled(c, order) && forall s | s in c.services :: s.id in order
    ensures Valid(c)
  {
    forall id ensures !Reaches(c, id, id) {
      if Reaches(c, id, id) {
        var d := ReachesFirstStep(c, id, id);
        assert order[..|order|] == order;
        CycleCheck.SettledIsAcyclic(c, order, id, |order|);
      }
    }
  }
}
