/** The three-colour walk that refuses a manifest whose dependencies loop, and
    the validation that calls it (internal/catalog/catalog.go: Parse,
    checkCycles). */
module CycleCheck {
  import opened Results
  import opened Catalog

  datatype Colour = White | Grey | Black

  /** Ids in the order the walk finished them: each one after all it needs. */
  ghost predicate Settled(c: Catalog, finished: seq<string>) {
    forall k, d | 0 <= k < |finished| && d in Needs(c, finished[k]) :: d in finished[..k]
  }

  lemma SettledGrows(c: Catalog, finished: seq<string>, id: string)
    requires Settled(c, finished)
    requires forall d | d in Needs(c, id) :: d in finished
    ensures Settled(c, finished + [id])
  {
    var next := finished + [id];
    forall k, d | 0 <= k < |next| && d in Needs(c, next[k]) ensures d in next[..k] {
      assert next[..k] == finished[..k];
      assert finished[..|finished|] == finished;
    }
  }

  lemma PathGrows(c: Catalog, path: seq<string>, dep: string)
    requires IsPath(c, path) && dep in Needs(c, path[|path| - 1])
    ensures IsPath(c, path + [dep])
  {
  }

  /** A settled id lies on no cycle: going round one would have to come back to
      an id settled strictly earlier. */
  lemma {:induction false} SettledIsAcyclic(c: Catalog, finished: seq<string>, id: string, k: nat)
    requires Settled(c, finished) && k <= |finished|
    requires id in finished[..k]
    ensures !Reaches(c, id, id)
    decreases k
  {
    if Reaches(c, id, id) {
      var j :| 0 <= j < k && finished[j] == id;
      var p :| PathBetween(c, p, id, id);
      var d := p[1];
      assert d in Needs(c, id);
      var round := p[1..] + [d];
      forall i | 0 <= i < |round| - 1 ensures round[i + 1] in Needs(c, round[i]) {
        if i < |p| - 2 {
          assert p[(i + 1) + 1] in Needs(c, p[i + 1]);
        }
      }
      assert PathBetween(c, round, d, d);
      SettledIsAcyclic(c, finished, d, j);
    }
  }

  /** The walk's `state` map, and the order in which ids turned black. */
  class Walker {
    const c: Catalog
    var state: map<string, Colour>
    ghost var finished: seq<string>

    constructor (c: Catalog)
      ensures this.c == c && state == map[] && finished == []
    {
      this.c := c;
      state := map[];
      finished := [];
    }

    /** An id the map does not hold is white, Go's zero value. */
    function ColourOf(id: string): (r: Colour)
      reads this
    {
      if id in state then state[id] else White
    }

    /** Grey ids are exactly the walk's current path; black ids are settled. */
    ghost predicate Valid(path: seq<string>)
      reads this
    {
      && (forall id :: ColourOf(id) == Grey <==> id in path)
      && (forall id :: ColourOf(id) == Black <==> id in finished)
      && Settled(c, finished)
    }

    ghost function Unvisited(): set<string>
      reads this
    {
      set id | id in Universe(c) && ColourOf(id) == White
    }

    /** walk: colours `id` and everything below it black, or reports an id that
        lies on a cycle. `path` is the chain of calls in progress. */
    method Walk(id: string, ghost path: seq<string>) returns (err: Option<string>)
      requires Valid(path) && IsPath(c, path + [id])
      requires id in Universe(c)
      modifies this`state, this`finished
      ensures err.None? ==> Valid(path) && id in finished && old(finished) <= finished
      ensures err.Some? ==> Reaches(c, err.value, err.value)
      ensures Unvisited() <= old(Unvisited())
      decreases Unvisited(), 0
    {
      match ColourOf(id) {
        case Grey =>
          ghost var k :| 0 <= k < |path| && path[k] == id;
          ghost var p := path[k..] + [id];
          assert p == (path + [id])[k..];
          assert PathBetween(c, p, id, id);
          return Some(id);
        case Black =>
          return None;
        case White =>
      }
      state := state[id := Grey];
      assert id in old(Unvisited()) && id !in Unvisited();
      assert Unvisited() < old(Unvisited());
      err := WalkNeeds(id, path + [id]);
      if err.Some? {
        return;
      }
      SettledGrows(c, finished, id);
      state := state[id := Black];
      finished := finished + [id];
      return None;
    }

    /** The loop of walk over what a grey id needs. */
    method WalkNeeds(id: string, ghost path: seq<string>) returns (err: Option<string>)
      requires Valid(path) && IsPath(c, path) && path[|path| - 1] == id
      modifies this`state, this`finished
      ensures err.None? ==> Valid(path) && old(finished) <= finished
      ensures err.None? ==> forall d | d in Needs(c, id) :: d in finished
      ensures err.Some? ==> Reaches(c, err.value, err.value)
      ensures Unvisited() <= old(Unvisited())
      decreases Unvisited(), 1
    {
      var needs := Needs(c, id);
      NeedsAreMentioned(c, id);
      var i := 0;
      while i < |needs|
        invariant 0 <= i <= |needs|
        invariant Valid(path) && old(finished) <= finished
        invariant forall j | 0 <= j < i :: needs[j] in finished
        invariant Unvisited() <= old(Unvisited())
      {
        PathGrows(c, path, needs[i]);
        err := Walk(needs[i], path);
        if err.Some? {
          return;
        }
        i := i + 1;
      }
      return None;
    }
  }

  /** checkCycles: no error if and only if the dependencies do not loop, and an
      error names a service that ends up needing itself. */
  method CheckCycles(c: Catalog) returns (err: Option<string>)
    ensures err.None? <==> Acyclic(c)
    ensures err.Some? ==> Reaches(c, err.value, err.value)
  {
    var w := new Walker(c);
    var i := 0;
    while i < |c.services|
      invariant 0 <= i <= |c.services|
      invariant w.c == c && fresh(w) && w.Valid([])
      invariant forall j | 0 <= j < i :: c.services[j].id in w.finished
    {
      assert c.services[i] in c.services;
      err := w.Walk(c.services[i].id, []);
      if err.Some? {
        return;
      }
      i := i + 1;
    }
    forall id ensures !Reaches(c, id, id) {
      if Reaches(c, id, id) {
        var d := ReachesFirstStep(c, id, id);
        assert Find(c.services, id).Some?;
        assert w.finished[..|w.finished|] == w.finished;
        SettledIsAcyclic(c, w.finished, id, |w.finished|);
      }
    }
    return None;
  }

  // ----------------------------------------------------------------- Parse

  datatype ParseError =
    | Unreadable
    | UnsupportedVersion(version: int)
    | NoServices
    | MissingId
    | MissingRole(id: string)
    | DeclaredTwice(id: string)
    | UnknownDependency(id: string, dep: string)
    | Circular(around: string)

  /** The fault Parse's first pass finds in entry i, the earlier ones being sound. */
  function EntryFault(services: seq<Service>, i: nat): (r: Option<ParseError>)
    requires i < |services|
  {
    var s := services[i];
    if s.id == "" then Some(MissingId)
    else if s.role == "" then Some(MissingRole(s.id))
    else if exists j | 0 <= j < i :: services[j].id == s.id then Some(DeclaredTwice(s.id))
    else None
  }

  /** The entry has the fault, and none that is looked for before it. */
  ghost predicate HasFault(services: seq<Service>, i: nat, e: ParseError)
    requires i < |services|
  {
    match e
    case MissingId => services[i].id == ""
    case MissingRole(id) => services[i].id == id != "" && services[i].role == ""
    case DeclaredTwice(id) =>
      services[i].id == id != "" && services[i].role != "" && exists j | 0 <= j < i :: services[j].id == id
    case _ => false
  }

  lemma FaultIsHad(services: seq<Service>, i: nat, e: ParseError)
    requires i < |services|
    ensures EntryFault(services, i) == Some(e) <==> HasFault(services, i, e)
  {
  }

  ghost predicate EntriesSound(services: seq<Service>, upTo: nat)
    requires upTo <= |services|
  {
    forall i | 0 <= i < upTo :: EntryFault(services, i).None?
  }

  ghost predicate DependencyFault(services: seq<Service>, i: nat, d: nat)
    requires i < |services| && d < |services[i].needs|
  {
    Find(services, services[i].needs[d]).None?
  }

  /** Every dependency listed before that one is declared. */
  ghost predicate NoFaultBefore(services: seq<Service>, i: nat, d: nat)
    requires i < |services| && d < |services[i].needs|
  {
    && (forall j, e | 0 <= j < i && e in services[j].needs :: Find(services, e).Some?)
    && (forall k | 0 <= k < d :: Find(services, services[i].needs[k]).Some?)
  }

  /** What each refusal says about the manifest, faults being looked for in this
      order: version, emptiness, entries, dependencies, cycles. */
  ghost predicate Explains(c: Catalog, e: ParseError) {
    match e
    case Unreadable => false
    case UnsupportedVersion(v) => v == c.version != 1
    case NoServices => c.version == 1 && c.services == []
    case MissingId | MissingRole(_) | DeclaredTwice(_) =>
      c.version == 1 && exists i | 0 <= i < |c.services| ::
        HasFault(c.services, i, e) && EntriesSound(c.services, i)
    case UnknownDependency(id, dep) =>
      c.version == 1 && EntriesSound(c.services, |c.services|)
      && exists i, d | 0 <= i < |c.services| && 0 <= d < |c.services[i].needs| ::
        c.services[i].id == id && c.services[i].needs[d] == dep && DependencyFault(c.services, i, d)
        && NoFaultBefore(c.services, i, d)
    case Circular(around) =>
      c.version == 1 && EntriesSound(c.services, |c.services|) && ClosedNeeds(c.services)
      && Reaches(c, around, around)
  }

  lemma SoundEntriesAreUnique(services: seq<Service>)
    requires EntriesSound(services, |services|)
    ensures UniqueIds(services)
    ensures forall s | s in services :: s.id != "" && s.role != ""
  {
    forall i, j | 0 <= i < j < |services| ensures services[i].id != services[j].id {
      assert EntryFault(services, j).None?;
    }
    forall s | s in services ensures s.id != "" && s.role != "" {
      var i :| 0 <= i < |services| && services[i] == s;
      assert EntryFault(services, i).None?;
    }
  }

  /** No refusal is ever a false alarm. */
  lemma ExplainedIsInvalid(c: Catalog, e: ParseError)
    requires Explains(c, e)
    ensures !Valid(c)
  {
    match e
    case Unreadable =>
    case UnsupportedVersion(_) =>
    case NoServices =>
    case MissingId | MissingRole(_) | DeclaredTwice(_) =>
      var i :| 0 <= i < |c.services| && HasFault(c.services, i, e) && EntriesSound(c.services, i);
      assert c.services[i] in c.services;
    case UnknownDependency(id, dep) =>
      var i, d :| 0 <= i < |c.services| && 0 <= d < |c.services[i].needs|
        && c.services[i].id == id && c.services[i].needs[d] == dep && DependencyFault(c.services, i, d);
      assert c.services[i].needs[d] in c.services[i].needs;
    case Circular(around) =>
  }

  /** Parse after YAML decoding; None stands for bytes that are not YAML. It
      accepts exactly the valid manifests, unchanged, and a refusal states a
      fault the manifest really has. */
  method Parse(decoded: Option<Catalog>) returns (r: Result<Catalog, ParseError>)
    ensures r.Ok? <==> decoded.Some? && Valid(decoded.value)
    ensures r.Ok? ==> r.value == decoded.value
    ensures r.Err? ==> if decoded.None? then r.error == Unreadable else Explains(decoded.value, r.error)
  {
    if decoded.None? {
      return Err(Unreadable);
    }
    var c := decoded.value;
    if c.version != 1 {
      return Err(UnsupportedVersion(c.version));
    }
    if |c.services| == 0 {
      return Err(NoServices);
    }
    var seen: set<string> := {};
    var i := 0;
    while i < |c.services|
      invariant 0 <= i <= |c.services|
      invariant EntriesSound(c.services, i)
      invariant forall id :: id in seen <==> exists j | 0 <= j < i :: c.services[j].id == id
    {
      var s := c.services[i];
      var fault: Option<ParseError> := None;
      if s.id == "" {
        fault := Some(MissingId);
      } else if s.role == "" {
        fault := Some(MissingRole(s.id));
      } else if s.id in seen {
        fault := Some(DeclaredTwice(s.id));
      }
      assert fault == EntryFault(c.services, i);
      if fault.Some? {
        FaultIsHad(c.services, i, fault.value);
        ExplainedIsInvalid(c, fault.value);
        return Err(fault.value);
      }
      seen := seen + {s.id};
      i := i + 1;
    }
    SoundEntriesAreUnique(c.services);
    assert forall id :: id in seen <==> Find(c.services, id).Some? by {
      forall id ensures id in seen <==> Find(c.services, id).Some? {
        if id in seen {
          var j :| 0 <= j < i && c.services[j].id == id;
          assert c.services[j] in c.services;
        }
      }
    }
    i := 0;
    while i < |c.services|
      invariant 0 <= i <= |c.services|
      invariant forall j, d | 0 <= j < i && d in c.services[j].needs :: Find(c.services, d).Some?
    {
      var needs := c.services[i].needs;
      var d := 0;
      while d < |needs|
        invariant 0 <= d <= |needs|
        invariant forall e | 0 <= e < d :: Find(c.services, needs[e]).Some?
      {
        if needs[d] !in seen {
          assert DependencyFault(c.services, i, d) && NoFaultBefore(c.services, i, d);
          ExplainedIsInvalid(c, UnknownDependency(c.services[i].id, needs[d]));
          return Err(UnknownDependency(c.services[i].id, needs[d]));
        }
        d := d + 1;
      }
      i := i + 1;
    }
    var cycle := CheckCycles(c);
    if cycle.Some? {
      return Err(Circular(cycle.value));
    }
    return Ok(c);
  }
}
