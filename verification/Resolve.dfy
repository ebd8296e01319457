/** Expanding a request into the services to install (internal/catalog/catalog.go:
    Resolve, Tags).

    PostOrder is the reference: it appends an id after everything it needs,
    asking only whether the id is already listed. Resolve marks an id before it
    visits what the id needs, which could hide an id still being visited; the
    class below is proved to give the reference order all the same, because the
    cycle check passed. */
module Resolve {
  import opened Results
  import opened Text
  import opened Catalog

  // ------------------------------------------------------------ reference

  ghost function PostOrder(c: Catalog, id: string, out: seq<Service>): (r: seq<Service>)
    requires Acyclic(c)
    decreases Closure(c, [id]), 0
  {
    if id in Ids(out) then out
    else match Find(c.services, id)
      case None => out
      case Some(s) =>
        NeedsLieBelow(c, id);
        PostOrderAll(c, s.needs, out) + [s]
  }

  ghost function PostOrderAll(c: Catalog, ids: seq<string>, out: seq<Service>): (r: seq<Service>)
    requires Acyclic(c)
    decreases Closure(c, ids), |ids| + 1
  {
    if ids == [] then out
    else
      ClosureIsMonotonic(c, [ids[0]], ids);
      ClosureIsMonotonic(c, ids[1..], ids);
      PostOrderAll(c, ids[1..], PostOrder(c, ids[0], out))
  }

  lemma PostOrderAllFrom(c: Catalog, ids: seq<string>, i: nat, out: seq<Service>)
    requires Acyclic(c) && i < |ids|
    ensures PostOrderAll(c, ids[i..], out) == PostOrderAll(c, ids[i + 1..], PostOrder(c, ids[i], out))
  {
    assert ids[i..][1..] == ids[i + 1..];
  }

  // ----------------------------------------------- what an install list is

  /** Every entry is the catalogue's own, no id twice, and each entry comes
      after everything it needs. */
  ghost predicate Installable(c: Catalog, out: seq<Service>) {
    && (forall s | s in out :: Find(c.services, s.id) == Some(s))
    && UniqueIds(out)
    && (forall k, d | 0 <= k < |out| && d in out[k].needs :: d in Ids(out[..k]))
  }

  lemma IdsOfPrefix(out: seq<Service>, k: nat)
    requires k <= |out|
    ensures Ids(out[..k]) == Ids(out)[..k]
  {
  }

  lemma IdsConcat(a: seq<Service>, b: seq<Service>)
    ensures Ids(a + b) == Ids(a) + Ids(b)
  {
  }

  /** An install list already holds whatever its entries reach. */
  lemma {:induction false} InstallableIsClosed(c: Catalog, out: seq<Service>, id: string, x: string)
    requires Installable(c, out) && id in Ids(out) && Reaches(c, id, x)
    ensures x in Ids(out)
    decreases |out|
  {
    var k :| 0 <= k < |out| && out[k].id == id;
    assert out[k] in out;
    var d := ReachesFirstStep(c, id, x);
    assert d in Ids(out[..k]);
    IdsOfPrefix(out, k);
    if d != x {
      PrefixIsInstallable(c, out, k);
      InstallableIsClosed(c, out[..k], d, x);
    }
  }

  lemma PrefixIsInstallable(c: Catalog, out: seq<Service>, k: nat)
    requires Installable(c, out) && k <= |out|
    ensures Installable(c, out[..k])
  {
    var pre := out[..k];
    forall j, d | 0 <= j < |pre| && d in pre[j].needs ensures d in Ids(pre[..j]) {
      assert pre[..j] == out[..j];
    }
  }

  lemma InstallableGrows(c: Catalog, out: seq<Service>, s: Service)
    requires Installable(c, out) && Find(c.services, s.id) == Some(s)
    requires s.id !in Ids(out) && forall d | d in s.needs :: d in Ids(out)
    ensures Installable(c, out + [s])
  {
    var next := out + [s];
    forall i, j | 0 <= i < j < |next| ensures next[i].id != next[j].id {
      assert next[i].id == Ids(out)[i];
    }
    forall k, d | 0 <= k < |next| && d in next[k].needs ensures d in Ids(next[..k]) {
      assert next[..k] == out[..k];
      assert out[..|out|] == out;
    }
  }

  /** One visit keeps the list installable, leaves what was listed in place, and
      adds exactly the id and what it reaches. */
  lemma {:induction false} PostOrderResult(c: Catalog, id: string, out: seq<Service>)
    requires Acyclic(c) && ClosedNeeds(c.services) && Find(c.services, id).Some? && Installable(c, out)
    ensures var r := PostOrder(c, id, out);
      && Installable(c, r) && out <= r
      && (forall x :: x in Ids(r) <==> x in Ids(out) || x in Closure(c, [id]))
    decreases Closure(c, [id]), 0
  {
    ClosureMembers(c, [id]);
    if id in Ids(out) {
      forall x | Reaches(c, id, x) ensures x in Ids(out) {
        InstallableIsClosed(c, out, id, x);
      }
    } else {
      var s := Find(c.services, id).value;
      NeedsLieBelow(c, id);
      ClosureUnfolds(c, id);
      ClosureMembers(c, s.needs);
      PostOrderAllResult(c, s.needs, out);
      var before := PostOrderAll(c, s.needs, out);
      assert id !in Ids(before);
      InstallableGrows(c, before, s);
      IdsConcat(before, [s]);
      assert PostOrder(c, id, out) == before + [s];
      assert Ids([s]) == [id];
      assert forall x :: x in Ids(before + [s]) <==> x in Ids(before) || x == id;
    }
  }

  lemma ClosureSplits(c: Catalog, ids: seq<string>)
    requires ids != []
    ensures Closure(c, ids) == Closure(c, [ids[0]]) + Closure(c, ids[1..])
  {
    assert ids == [ids[0]] + ids[1..];
    ClosureConcat(c, [ids[0]], ids[1..]);
  }

  lemma {:induction false} PostOrderAllResult(c: Catalog, ids: seq<string>, out: seq<Service>)
    requires Acyclic(c) && ClosedNeeds(c.services) && Installable(c, out)
    requires forall d | d in ids :: Find(c.services, d).Some?
    ensures var r := PostOrderAll(c, ids, out);
      && Installable(c, r) && out <= r
      && (forall x :: x in Ids(r) <==> x in Ids(out) || x in Closure(c, ids))
    decreases Closure(c, ids), |ids| + 1
  {
    if ids != [] {
      var rest, first := ids[1..], PostOrder(c, ids[0], out);
      ClosureSplits(c, ids);
      PostOrderResult(c, ids[0], out);
      PostOrderAllResult(c, rest, first);
      var r := PostOrderAll(c, rest, first);
      assert PostOrderAll(c, ids, out) == r;
      forall x ensures x in Ids(r) <==> x in Ids(out) || x in Closure(c, ids) {
        assert x in Ids(r) <==> x in Ids(first) || x in Closure(c, rest);
      }
    }
  }

  // ------------------------------------------------------------- the code

  datatype UnknownService = UnknownService(id: string, known: seq<string>)

  /** A mark without an entry belongs to an id still being visited, of which
      `id` is a dependency. */
  ghost predicate OpenAbove(c: Catalog, done: set<string>, out: seq<Service>, id: string) {
    forall x | x in done && x !in Ids(out) :: Reaches(c, x, id)
  }

  ghost predicate Listed(done: set<string>, out: seq<Service>) {
    forall x | x in Ids(out) :: x in done
  }

  /** In an acyclic graph a marked id has its entry by the time it is asked for:
      it cannot be one of those still being visited above itself. */
  lemma MarkedMeansListed(c: Catalog, done: set<string>, out: seq<Service>, id: string)
    requires Acyclic(c) && OpenAbove(c, done, out, id) && id in done
    ensures id in Ids(out)
  {
  }

  lemma NotListed(c: Catalog, done: set<string>, out: seq<Service>, id: string)
    requires Listed(done, out) && id !in done
    ensures id !in Ids(out) && done + {id} - {id} == done
  {
  }

  lemma ListedGrows(done: set<string>, out: seq<Service>, s: Service)
    requires Listed(done, out) && s.id in done
    ensures Listed(done, out + [s])
    ensures forall x :: x in Ids(out + [s]) <==> x in Ids(out) || x == s.id
  {
    IdsConcat(out, [s]);
    assert Ids([s]) == [s.id];
  }

  lemma OpenBelow(c: Catalog, done: set<string>, out: seq<Service>, id: string, dep: string)
    requires OpenAbove(c, done - {id}, out, id) && dep in Needs(c, id)
    ensures OpenAbove(c, done, out, dep)
  {
    EdgeReaches(c, id, dep);
    forall x | x in done && x !in Ids(out) ensures Reaches(c, x, dep) {
      if x != id {
        ReachesIsTransitive(c, x, id, dep);
      }
    }
  }

  lemma NotBelowItself(c: Catalog, id: string, dep: string)
    requires Acyclic(c) && dep in Needs(c, id)
    ensures id !in Closure(c, [dep])
  {
    ClosureMembers(c, [dep]);
    EdgeReaches(c, id, dep);
    if Reaches(c, dep, id) {
      ReachesIsTransitive(c, id, dep, id);
    }
  }

  /** Visiting a dependency lists it, keeps what was listed, and does not list
      the service that needs it. */
  lemma BelowKnown(c: Catalog, s: Service, dep: string, out: seq<Service>)
    requires Valid(c) && Find(c.services, s.id) == Some(s) && dep in s.needs
    requires Installable(c, out) && s.id !in Ids(out)
    ensures Find(c.services, dep).Some?
    ensures dep in Ids(PostOrder(c, dep, out)) && s.id !in Ids(PostOrder(c, dep, out))
    ensures forall x | x in Ids(out) :: x in Ids(PostOrder(c, dep, out))
  {
    assert s in c.services;
    ClosureMembers(c, [dep]);
    PostOrderResult(c, dep, out);
    NotBelowItself(c, s.id, dep);
  }

  /** The closure `visit` of Resolve, with the two variables it captures. */
  class Resolver {
    const c: Catalog
    var done: set<string>
    var out: seq<Service>

    constructor (c: Catalog)
      ensures this.c == c && done == {} && out == []
    {
      this.c := c;
      done := {};
      out := [];
    }

    method Visit(id: string) returns (err: Option<UnknownService>)
      requires Valid(c) && Installable(c, out)
      requires Listed(done, out) && OpenAbove(c, done, out, id)
      modifies this`done, this`out
      ensures err == if Find(c.services, id).Some? then None else Some(UnknownService(id, Ids(c.services)))
      ensures err.None? ==> out == PostOrder(c, id, old(out))
      ensures err.None? ==> Installable(c, out) && Listed(done, out)
      ensures err.None? ==> forall x | x in done :: x in old(done) || x in Ids(out)
      ensures old(done) <= done
      ensures err.Some? ==> out == old(out) && done == old(done)
      decreases Closure(c, [id]), 0
    {
      if id in done {
        MarkedMeansListed(c, done, out, id);
        var k :| 0 <= k < |out| && out[k].id == id;
        assert out[k] in out;
        return None;
      }
      if Find(c.services, id).None? {
        return Some(UnknownService(id, Ids(c.services)));
      }
      var s := Find(c.services, id).value;
      done := done + {id};
      NotListed(c, old(done), out, id);
      NeedsLieBelow(c, id);
      VisitNeeds(s);
      InstallableGrows(c, out, s);
      ListedGrows(done, out, s);
      out := out + [s];
      return None;
    }

    /** The loop over what s needs. */
    method VisitNeeds(s: Service)
      requires Valid(c) && Installable(c, out) && Find(c.services, s.id) == Some(s)
      requires s.id in done && s.id !in Ids(out)
      requires Listed(done, out) && OpenAbove(c, done - {s.id}, out, s.id)
      modifies this`done, this`out
      ensures out == PostOrderAll(c, s.needs, old(out))
      ensures Installable(c, out) && Listed(done, out) && s.id !in Ids(out)
      ensures forall d | d in s.needs :: d in Ids(out)
      ensures forall x | x in done :: x in old(done) || x in Ids(out)
      ensures old(done) <= done
      decreases Closure(c, s.needs), 1
    {
      var i := 0;
      while i < |s.needs|
        invariant 0 <= i <= |s.needs|
        invariant Installable(c, out) && Listed(done, out) && s.id !in Ids(out)
        invariant s.id in done && OpenAbove(c, done - {s.id}, out, s.id)
        invariant PostOrderAll(c, s.needs[i..], out) == PostOrderAll(c, s.needs, old(out))
        invariant forall j | 0 <= j < i :: s.needs[j] in Ids(out)
        invariant forall x | x in done :: x in old(done) || x in Ids(out)
        invariant old(done) <= done
      {
        var dep := s.needs[i];
        BelowKnown(c, s, dep, out);
        OpenBelow(c, done, out, s.id, dep);
        ClosureIsMonotonic(c, [dep], s.needs);
        PostOrderAllFrom(c, s.needs, i, out);
        var err := Visit(dep);
        i := i + 1;
      }
    }
  }

  /** The entries of a request that name a service: trimmed, blanks dropped. */
  function Requested(ids: seq<string>): (r: seq<string>) {
    if ids == [] then []
    else if Trim(ids[0]) == "" then Requested(ids[1..])
    else [Trim(ids[0])] + Requested(ids[1..])
  }

  function FirstUnknown(c: Catalog, ids: seq<string>): (r: Option<string>)
    ensures r.None? ==> forall d | d in ids :: Find(c.services, d).Some?
    ensures r.Some? ==> r.value in ids && Find(c.services, r.value).None?
  {
    if ids == [] then None
    else if Find(c.services, ids[0]).None? then Some(ids[0])
    else FirstUnknown(c, ids[1..])
  }

  /** Resolve as a function of the catalogue and the request. */
  ghost function Resolution(c: Catalog, ids: seq<string>): (r: Result<seq<Service>, UnknownService>)
    requires Valid(c)
  {
    match FirstUnknown(c, Requested(ids))
    case Some(id) => Err(UnknownService(id, Ids(c.services)))
    case None => Ok(PostOrderAll(c, Requested(ids), []))
  }

  method Resolve(c: Catalog, ids: seq<string>) returns (r: Result<seq<Service>, UnknownService>)
    requires Valid(c)
    ensures r == Resolution(c, ids)
  {
    var v := new Resolver(c);
    var i := 0;
    while i < |ids|
      invariant 0 <= i <= |ids| && fresh(v) && v.c == c
      invariant Installable(c, v.out) && Listed(v.done, v.out)
      invariant forall x | x in v.done :: x in Ids(v.out)
      invariant FirstUnknown(c, Requested(ids[i..])) == FirstUnknown(c, Requested(ids))
      invariant PostOrderAll(c, Requested(ids[i..]), v.out) == PostOrderAll(c, Requested(ids), [])
    {
      assert ids[i..][0] == ids[i] && ids[i..][1..] == ids[i + 1..];
      var id := Trim(ids[i]);
      if id != "" {
        assert ([id] + Requested(ids[i + 1..]))[1..] == Requested(ids[i + 1..]);
        if Find(c.services, id).Some? {
          PostOrderResult(c, id, v.out);
        }
        var err := v.Visit(id);
        if err.Some? {
          return Err(err.value);
        }
      }
      i := i + 1;
    }
    assert ids[|ids|..] == [];
    return Ok(v.out);
  }

  // ------------------------------------------------------ what it promises

  /** The request fails exactly when a non-blank entry names no service; else
      the answer is the transitive closure of the request, each service once and
      after everything it needs. */
  lemma ResolutionIsTheClosure(c: Catalog, ids: seq<string>)
    requires Valid(c)
    ensures Resolution(c, ids).Err? <==>
      exists i | 0 <= i < |ids| :: Trim(ids[i]) != "" && Find(c.services, Trim(ids[i])).None?
    ensures Resolution(c, ids).Ok? ==> var out := Resolution(c, ids).value;
      && Installable(c, out)
      && (forall x :: x in Ids(out) <==> x in Closure(c, Requested(ids)))
  {
    RequestedMembers(ids);
    if Resolution(c, ids).Ok? {
      PostOrderAllResult(c, Requested(ids), []);
    }
  }

  /** Entries are asked for in the order they are given. */
  lemma {:induction false} RequestedConcat(a: seq<string>, b: seq<string>)
    ensures Requested(a + b) == Requested(a) + Requested(b)
  {
    if a == [] {
      assert a + b == b;
    } else {
      assert (a + b)[1..] == a[1..] + b;
      RequestedConcat(a[1..], b);
    }
  }

  lemma {:induction false} FirstUnknownIsFirst(c: Catalog, ids: seq<string>)
    ensures FirstUnknown(c, Requested(ids)).Some? ==> exists i | 0 <= i < |ids| ::
      && FirstUnknown(c, Requested(ids)) == Some(Trim(ids[i])) && IsUnknown(c, ids[i])
      && forall j | 0 <= j < i :: !IsUnknown(c, ids[j])
  {
    if ids != [] && !IsUnknown(c, ids[0]) {
      var rest := ids[1..];
      FirstUnknownIsFirst(c, rest);
      if Trim(ids[0]) != "" {
        assert ([Trim(ids[0])] + Requested(rest))[1..] == Requested(rest);
      }
      if FirstUnknown(c, Requested(rest)).Some? {
        var i :| 0 <= i < |rest| && FirstUnknown(c, Requested(rest)) == Some(Trim(rest[i])) && IsUnknown(c, rest[i])
          && forall j | 0 <= j < i :: !IsUnknown(c, rest[j]);
        assert ids[i + 1] == rest[i];
        assert forall j | 0 < j <= i :: ids[j] == rest[j - 1];
      }
    }
  }

  /** The entry is not blank and names no service. */
  predicate IsUnknown(c: Catalog, entry: string) {
    Trim(entry) != "" && forall s | s in c.services :: s.id != Trim(entry)
  }

  /** A refusal names the first entry that names no service, trimmed, beside the
      ids of the catalogue in their order. */
  lemma RefusalNamesTheFirst(c: Catalog, ids: seq<string>)
    requires Valid(c) && Resolution(c, ids).Err?
    ensures var e := Resolution(c, ids).error;
      && (exists i | 0 <= i < |ids| :: e.id == Trim(ids[i]) && IsUnknown(c, ids[i]) && forall j | 0 <= j < i :: !IsUnknown(c, ids[j]))
      && |e.known| == |c.services| && forall k | 0 <= k < |e.known| :: e.known[k] == c.services[k].id
  {
    FirstUnknownIsFirst(c, ids);
  }

  lemma {:induction false} RequestedMembers(ids: seq<string>)
    ensures forall x :: x in Requested(ids) <==> x != "" && exists i | 0 <= i < |ids| :: Trim(ids[i]) == x
  {
    if ids != [] {
      RequestedMembers(ids[1..]);
      forall x ensures x in Requested(ids) <==> x != "" && exists i | 0 <= i < |ids| :: Trim(ids[i]) == x {
        if x in Requested(ids[1..]) {
          var i :| 0 <= i < |ids[1..]| && Trim(ids[1..][i]) == x;
          assert Trim(ids[i + 1]) == x;
        }
        if x != "" && exists i | 0 <= i < |ids| :: Trim(ids[i]) == x {
          var i :| 0 <= i < |ids| && Trim(ids[i]) == x;
          assert i == 0 || Trim(ids[1..][i - 1]) == x;
        }
      }
    }
  }

  // -------------------------------------------------------------- the order

  /** A list visited in two parts. */
  lemma {:induction false} PostOrderAllConcat(c: Catalog, a: seq<string>, b: seq<string>, out: seq<Service>)
    requires Acyclic(c)
    ensures PostOrderAll(c, a + b, out) == PostOrderAll(c, b, PostOrderAll(c, a, out))
  {
    if a == [] {
      assert [] + b == b;
    } else {
      assert (a + b)[1..] == a[1..] + b;
      PostOrderAllConcat(c, a[1..], b, PostOrder(c, a[0], out));
    }
  }

  /** What the first k of some ids bring in stands before what the others add. */
  lemma OrderFollowsTheList(c: Catalog, ids: seq<string>, k: nat, out: seq<Service>) returns (first: seq<Service>)
    requires Acyclic(c) && ClosedNeeds(c.services) && Installable(c, out)
    requires k <= |ids| && forall d | d in ids :: Find(c.services, d).Some?
    ensures first <= PostOrderAll(c, ids, out)
    ensures forall x :: x in Ids(first) <==> x in Ids(out) || x in Closure(c, ids[..k])
  {
    var front, back := ids[..k], ids[k..];
    assert ids == front + back;
    assert forall d | d in front :: d in ids;
    assert forall d | d in back :: d in ids;
    first := PostOrderAll(c, front, out);
    PostOrderAllResult(c, front, out);
    PostOrderAllConcat(c, front, back, out);
    PostOrderAllResult(c, back, first);
  }

  /** The order follows the request: whatever its first k entries bring in stands
      before everything else, for every k. */
  lemma OrderFollowsTheRequest(c: Catalog, ids: seq<string>, k: nat) returns (first: seq<Service>)
    requires Valid(c) && Resolution(c, ids).Ok? && k <= |Requested(ids)|
    ensures first <= Resolution(c, ids).value
    ensures forall x :: x in Ids(first) <==> x in Closure(c, Requested(ids)[..k])
  {
    first := OrderFollowsTheList(c, Requested(ids), k, []);
  }

  /** Inside one entry the order follows its dependencies: what the first j of
      them bring in comes first, for every j, and the service itself is last. */
  lemma OrderFollowsTheNeeds(c: Catalog, id: string, out: seq<Service>, j: nat) returns (first: seq<Service>)
    requires Acyclic(c) && ClosedNeeds(c.services) && Installable(c, out)
    requires Find(c.services, id).Some? && id !in Ids(out) && j <= |Needs(c, id)|
    ensures var r := PostOrder(c, id, out);
      r != [] && r[|r| - 1].id == id && first <= r[..|r| - 1]
    ensures forall x :: x in Ids(first) <==> x in Ids(out) || x in Closure(c, Needs(c, id)[..j])
  {
    var s := Find(c.services, id).value;
    first := OrderFollowsTheList(c, s.needs, j, out);
    assert PostOrder(c, id, out) == PostOrderAll(c, s.needs, out) + [s];
  }

  // ----------------------------------------------------------- idempotence

  lemma {:induction false} NothingToAdd(c: Catalog, ids: seq<string>, out: seq<Service>)
    requires Acyclic(c) && forall d | d in ids :: d in Ids(out)
    ensures PostOrderAll(c, ids, out) == out
  {
    if ids != [] {
      NothingToAdd(c, ids[1..], out);
    }
  }

  /** Asking again for the entries of an install list, in its order, rebuilds it. */
  lemma {:induction false} ReplayFrom(c: Catalog, out: seq<Service>, k: nat)
    requires Acyclic(c) && Installable(c, out) && k <= |out|
    ensures PostOrderAll(c, Ids(out)[k..], out[..k]) == out
    decreases |out| - k
  {
    if k < |out| {
      var s := out[k];
      assert s in out;
      IdsOfPrefix(out, k);
      assert forall j | 0 <= j < k :: Ids(out[..k])[j] == out[j].id != s.id;
      NothingToAdd(c, s.needs, out[..k]);
      assert out[..k] + [s] == out[..k + 1];
      assert Ids(out)[k..][1..] == Ids(out)[k + 1..];
      ReplayFrom(c, out, k + 1);
    } else {
      assert out[..k] == out;
    }
  }

  lemma {:induction false} RequestedOfTrimmed(ids: seq<string>)
    requires forall id | id in ids :: Trim(id) == id && id != ""
    ensures Requested(ids) == ids
  {
    if ids != [] {
      RequestedOfTrimmed(ids[1..]);
      assert ids == [ids[0]] + ids[1..];
    }
  }

  /** Resolving the ids of an answer gives that answer, when they carry no
      surrounding spaces. */
  lemma ResolveAgain(c: Catalog, ids: seq<string>, out: seq<Service>)
    requires Valid(c) && Resolution(c, ids) == Ok(out)
    requires forall id | id in Ids(out) :: Trim(id) == id
    ensures Resolution(c, Ids(out)) == Ok(out)
  {
    ResolutionIsTheClosure(c, ids);
    forall id | id in Ids(out) ensures id != "" && Find(c.services, id).Some? {
      var k :| 0 <= k < |out| && out[k].id == id;
      assert out[k] in out && out[k] in c.services;
    }
    RequestedOfTrimmed(Ids(out));
    ReplayFrom(c, out, 0);
    assert Ids(out)[0..] == Ids(out) && out[..0] == [];
  }

  // ------------------------------------------------------------------ tags

  const TAG_PREFIX := "svc_"

  function Tag(id: string): string {
    TAG_PREFIX + id
  }

  function TagList(services: seq<Service>): (r: seq<string>)
    ensures |r| == |services| && forall i | 0 <= i < |r| :: r[i] == Tag(services[i].id)
  {
    seq(|services|, i requires 0 <= i < |services| => Tag(services[i].id))
  }

  function Tags(services: seq<Service>): seq<string> {
    Sort(Before, TagList(services))
  }

  lemma TagsHoldTheIds(services: seq<Service>)
    ensures forall id :: Tag(id) in Tags(services) <==> id in Ids(services)
  {
    SortSorts(Before, TagList(services));
    SameElements(Tags(services), TagList(services));
    forall id ensures Tag(id) in TagList(services) <==> id in Ids(services) {
      if Tag(id) in TagList(services) {
        var i :| 0 <= i < |services| && TagList(services)[i] == Tag(id);
        assert Tag(id)[|TAG_PREFIX|..] == id;
        assert Tag(services[i].id)[|TAG_PREFIX|..] == services[i].id;
      }
      if id in Ids(services) {
        var i :| 0 <= i < |services| && Ids(services)[i] == id;
        assert TagList(services)[i] == Tag(id);
      }
    }
  }

  /** Install lists of the same services carry the same tag list, to the byte. */
  lemma TagsDependOnTheIdsOnly(c: Catalog, a: seq<Service>, b: seq<Service>)
    requires Installable(c, a) && Installable(c, b)
    ensures Tags(a) == Tags(b) <==> forall id :: id in Ids(a) <==> id in Ids(b)
  {
    TagsHoldTheIds(a);
    TagsHoldTheIds(b);
    if forall id :: id in Ids(a) <==> id in Ids(b) {
      TagListsAreDistinct(a);
      TagListsAreDistinct(b);
      SortSorts(Before, TagList(a));
      SortSorts(Before, TagList(b));
      assert multiset(TagList(a)) == multiset(TagList(b)) by {
        forall t ensures t in TagList(a) <==> t in TagList(b) {
          SameTags(a, b, t);
          SameTags(b, a, t);
        }
        DistinctPermutation(TagList(a), TagList(b));
      }
      BeforeIsStrictTotal(TagList(a));
      BeforeIsStrictTotal(TagList(b));
      BeforeIsStrictTotal(Tags(a));
      SortedIsUnique(Before, Tags(a), Tags(b));
    } else {
      var id :| !(id in Ids(a) <==> id in Ids(b));
      assert !(Tag(id) in Tags(a) <==> Tag(id) in Tags(b));
    }
  }

  lemma SameTags(a: seq<Service>, b: seq<Service>, t: string)
    requires forall id | id in Ids(a) :: id in Ids(b)
    ensures t in TagList(a) ==> t in TagList(b)
  {
    if t in TagList(a) {
      var i :| 0 <= i < |a| && TagList(a)[i] == t;
      assert Ids(a)[i] in Ids(b);
      var j :| 0 <= j < |b| && Ids(b)[j] == a[i].id;
      assert TagList(b)[j] == t;
    }
  }

  lemma TagListsAreDistinct(services: seq<Service>)
    requires UniqueIds(services)
    ensures Distinct(TagList(services))
  {
    forall i, j | 0 <= i < j < |services| ensures TagList(services)[i] != TagList(services)[j] {
      assert Tag(services[i].id)[|TAG_PREFIX|..] == services[i].id;
      assert Tag(services[j].id)[|TAG_PREFIX|..] == services[j].id;
    }
  }

  /** Order, repetition, blanks and surrounding spaces in a request change
      neither whether it resolves nor the tags it leads to. */
  lemma TagsDependOnTheRequestedSet(c: Catalog, ids: seq<string>, others: seq<string>)
    requires Valid(c)
    requires forall x :: x in Requested(ids) <==> x in Requested(others)
    ensures Resolution(c, ids).Ok? <==> Resolution(c, others).Ok?
    ensures Resolution(c, ids).Ok? ==> Tags(Resolution(c, ids).value) == Tags(Resolution(c, others).value)
  {
    if Resolution(c, ids).Ok? {
      ResolutionIsTheClosure(c, ids);
      ResolutionIsTheClosure(c, others);
      ClosureIsMonotonic(c, Requested(ids), Requested(others));
      ClosureIsMonotonic(c, Requested(others), Requested(ids));
      TagsDependOnTheIdsOnly(c, Resolution(c, ids).value, Resolution(c, others).value);
    }
  }

  /** Recorded ids come from a trimmed request, so requesting them asks for at
      least what was asked for. */
  lemma RecordedCoversRequest(c: Catalog, ids: seq<string>, out: seq<Service>)
    requires Valid(c) && Resolution(c, ids) == Ok(out)
    ensures forall t | t in Requested(ids) :: t in Requested(Ids(out))
  {
    ResolutionIsTheClosure(c, ids);
    RequestedMembers(ids);
    RequestedMembers(Ids(out));
    ClosureMembers(c, Requested(ids));
    forall t | t in Requested(ids) ensures t in Requested(Ids(out)) {
      var i :| 0 <= i < |ids| && Trim(ids[i]) == t;
      TrimIsIdempotent(ids[i]);
      assert t in Ids(out);
      var k :| 0 <= k < |out| && Ids(out)[k] == t;
      assert Trim(Ids(out)[k]) == t;
    }
  }

  /** What install-list ids lead to is in the install list. */
  lemma ListedClosureIsListed(c: Catalog, out: seq<Service>, ids: seq<string>)
    requires Installable(c, out) && forall d | d in ids :: d in Ids(out)
    ensures forall x | x in Closure(c, ids) :: x in Ids(out)
    ensures forall d | d in ids :: Find(c.services, d).Some?
  {
    forall x | x in Closure(c, ids) ensures x in Ids(out) {
      if x !in ids {
        var d :| d in ids && Reaches(c, d, x);
        InstallableIsClosed(c, out, d, x);
      }
    }
    forall d | d in ids ensures Find(c.services, d).Some? {
      var j :| 0 <= j < |out| && out[j].id == d;
      assert out[j] in out;
    }
  }

  /** Each id, once trimmed, is blank or listed. */
  ghost predicate TrimStaysListed(ids: seq<string>) {
    forall id | id in ids :: Trim(id) == "" || Trim(id) in ids
  }

  lemma TrimmedAreListed(ids: seq<string>)
    ensures TrimStaysListed(ids) <==> forall d | d in Requested(ids) :: d in ids
  {
    RequestedMembers(ids);
    forall id | id in ids && Trim(id) != "" ensures Trim(id) in Requested(ids) {
      var k :| 0 <= k < |ids| && ids[k] == id;
      assert Trim(ids[k]) in Requested(ids);
    }
  }

  /** Redeclaring a guest resolves its recorded service ids again. That succeeds
      and leads to the same tags exactly when each recorded id trims to nothing
      or to a recorded id. */
  lemma RedeclareKeepsTags(c: Catalog, ids: seq<string>, out: seq<Service>)
    requires Valid(c) && Resolution(c, ids) == Ok(out)
    ensures (Resolution(c, Ids(out)).Ok? && Tags(Resolution(c, Ids(out)).value) == Tags(out))
      <==> TrimStaysListed(Ids(out))
  {
    var again := Requested(Ids(out));
    ResolutionIsTheClosure(c, ids);
    ResolutionIsTheClosure(c, Ids(out));
    RecordedCoversRequest(c, ids, out);
    ClosureIsMonotonic(c, Requested(ids), again);
    TrimmedAreListed(Ids(out));
    if TrimStaysListed(Ids(out)) {
      ListedClosureIsListed(c, out, again);
      TagsDependOnTheIdsOnly(c, Resolution(c, Ids(out)).value, out);
    } else if Resolution(c, Ids(out)).Ok? {
      ClosureMembers(c, again);
      TagsDependOnTheIdsOnly(c, Resolution(c, Ids(out)).value, out);
    }
  }
}
