/** The service catalogue (internal/catalog/catalog.go): its entries, the
    dependency graph they form, and the facts about that graph on which both
    the cycle check and the resolution rest. */
module Catalog {
  import opened Results

  datatype Service = Service(id: string, role: string, needs: seq<string>)

  datatype Catalog = Catalog(version: int, services: seq<Service>)

  /** The first service with this id, as Get finds it. */
  function Find(services: seq<Service>, id: string): (r: Option<Service>)
    ensures r.Some? ==> r.value in services && r.value.id == id
    ensures r.None? ==> forall s | s in services :: s.id != id
  {
    if services == [] then None
    else if services[0].id == id then Some(services[0])
    else Find(services[1..], id)
  }

  function Ids(services: seq<Service>): (ids: seq<string>)
    ensures |ids| == |services|
    ensures forall i | 0 <= i < |ids| :: ids[i] == services[i].id
  {
    seq(|services|, i requires 0 <= i < |services| => services[i].id)
  }

  /** What a service depends on. An unknown id depends on nothing: Get then
      answers with an empty service. */
  function Needs(c: Catalog, id: string): seq<string> {
    match Find(c.services, id)
    case Some(s) => s.needs
    case None => []
  }

  // ------------------------------------------------------------- the graph

  /** A walk along dependencies, from each id to something it needs. */
  ghost predicate IsPath(c: Catalog, p: seq<string>) {
    p != [] && forall i | 0 <= i < |p| - 1 :: p[i + 1] in Needs(c, p[i])
  }

  ghost predicate PathBetween(c: Catalog, p: seq<string>, a: string, b: string) {
    |p| >= 2 && IsPath(c, p) && p[0] == a && p[|p| - 1] == b
  }

  /** `a` needs `b`, directly or through other services. */
  ghost predicate Reaches(c: Catalog, a: string, b: string) {
    exists p :: PathBetween(c, p, a, b)
  }

  ghost predicate Acyclic(c: Catalog) {
    forall id :: !Reaches(c, id, id)
  }

  lemma EdgeReaches(c: Catalog, a: string, b: string)
    requires b in Needs(c, a)
    ensures Reaches(c, a, b)
  {
    assert PathBetween(c, [a, b], a, b);
  }

  lemma ReachesIsTransitive(c: Catalog, x: string, y: string, z: string)
    requires Reaches(c, x, y) && Reaches(c, y, z)
    ensures Reaches(c, x, z)
  {
    var p :| PathBetween(c, p, x, y);
    var q :| PathBetween(c, q, y, z);
    assert PathBetween(c, p + q[1..], x, z);
  }

  /** Whatever is reached is a direct dependency or lies behind one. */
  lemma ReachesFirstStep(c: Catalog, a: string, b: string) returns (d: string)
    requires Reaches(c, a, b)
    ensures d in Needs(c, a) && (d == b || Reaches(c, d, b))
  {
    var p :| PathBetween(c, p, a, b);
    d := p[1];
    if |p| > 2 {
      assert PathBetween(c, p[1..], d, b);
    }
  }

  // ---------------------------------------------------- what lies below ids

  ghost function Mentioned(services: seq<Service>): (ids: set<string>)
    ensures forall s | s in services :: s.id in ids && forall d | d in s.needs :: d in ids
  {
    if services == [] then {}
    else {services[0].id} + (set d | d in services[0].needs) + Mentioned(services[1..])
  }

  /** Every id the manifest declares or mentions. */
  ghost function Universe(c: Catalog): set<string> {
    Mentioned(c.services)
  }

  lemma NeedsAreMentioned(c: Catalog, id: string)
    ensures Find(c.services, id).Some? ==> id in Universe(c)
    ensures forall d | d in Needs(c, id) :: d in Universe(c)
  {
  }

  /** The ids of a request together with everything they need. */
  ghost function Closure(c: Catalog, ids: seq<string>): set<string> {
    set x | x in Universe(c) + (set d | d in ids) && InClosure(c, ids, x)
  }

  ghost predicate InClosure(c: Catalog, ids: seq<string>, x: string) {
    x in ids || exists d | d in ids :: Reaches(c, d, x)
  }

  lemma ReachedIsMentioned(c: Catalog, a: string, b: string)
    requires Reaches(c, a, b)
    ensures b in Universe(c)
  {
    var p :| PathBetween(c, p, a, b);
    NeedsAreMentioned(c, p[|p| - 2]);
    assert p[|p| - 2 + 1] in Needs(c, p[|p| - 2]);
  }

  lemma ClosureMembers(c: Catalog, ids: seq<string>)
    ensures forall x :: x in Closure(c, ids) <==> InClosure(c, ids, x)
  {
    forall x | InClosure(c, ids, x) ensures x in Closure(c, ids) {
      if x !in ids {
        var d :| d in ids && Reaches(c, d, x);
        ReachedIsMentioned(c, d, x);
      }
    }
  }

  /** Narrowing a request narrows its closure. */
  lemma ClosureIsMonotonic(c: Catalog, some: seq<string>, all: seq<string>)
    requires forall d | d in some :: d in all
    ensures Closure(c, some) <= Closure(c, all)
  {
    ClosureMembers(c, some);
    ClosureMembers(c, all);
  }

  /** The closure of an id is the id and the closure of what it needs. */
  lemma ClosureUnfolds(c: Catalog, id: string)
    ensures Closure(c, [id]) == {id} + Closure(c, Needs(c, id))
  {
    ClosureMembers(c, [id]);
    ClosureMembers(c, Needs(c, id));
    forall x | x in Closure(c, [id]) && x != id ensures x in Closure(c, Needs(c, id)) {
      assert Reaches(c, id, x);
      var d := ReachesFirstStep(c, id, x);
    }
    forall x | x in Closure(c, Needs(c, id)) ensures x in Closure(c, [id]) {
      if x in Needs(c, id) {
        EdgeReaches(c, id, x);
      } else {
        var d :| d in Needs(c, id) && Reaches(c, d, x);
        EdgeReaches(c, id, d);
        ReachesIsTransitive(c, id, d, x);
      }
    }
  }

  /** In an acyclic graph the dependencies of an id lie strictly below it. */
  lemma NeedsLieBelow(c: Catalog, id: string)
    requires Acyclic(c)
    ensures Closure(c, Needs(c, id)) < Closure(c, [id])
  {
    ClosureUnfolds(c, id);
    ClosureMembers(c, Needs(c, id));
    if id in Closure(c, Needs(c, id)) {
      if id in Needs(c, id) {
        EdgeReaches(c, id, id);
      } else {
        var d :| d in Needs(c, id) && Reaches(c, d, id);
        EdgeReaches(c, id, d);
        ReachesIsTransitive(c, id, d, id);
      }
    }
  }

  lemma ClosureConcat(c: Catalog, a: seq<string>, b: seq<string>)
    ensures Closure(c, a + b) == Closure(c, a) + Closure(c, b)
  {
    ClosureMembers(c, a);
    ClosureMembers(c, b);
    ClosureMembers(c, a + b);
  }

  // ------------------------------------------------ what Parse guarantees

  ghost predicate UniqueIds(services: seq<Service>) {
    forall i, j | 0 <= i < j < |services| :: services[i].id != services[j].id
  }

  ghost predicate ClosedNeeds(services: seq<Service>) {
    forall i, d | 0 <= i < |services| && d in services[i].needs :: Find(services, d).Some?
  }

  /** A manifest Parse accepts. */
  ghost predicate Valid(c: Catalog) {
    && c.version == 1
    && c.services != []
    && (forall s | s in c.services :: s.id != "" && s.role != "")
    && UniqueIds(c.services)
    && ClosedNeeds(c.services)
    && Acyclic(c)
  }

  /** With unique ids, Get returns the very entry that carries the id. */
  lemma {:induction false} FindOfUnique(services: seq<Service>, s: Service)
    requires UniqueIds(services) && s in services
    ensures Find(services, s.id) == Some(s)
  {
    if services[0] != s {
      assert s in services[1..];
      var i :| 0 <= i < |services[1..]| && services[1..][i] == s;
      assert services[i + 1].id == s.id;
      FindOfUnique(services[1..], s);
    }
  }
}
