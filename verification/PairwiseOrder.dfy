/** Which of two services comes first is settled by at most two entries of a
    request (internal/catalog/catalog.go: Resolve), so requests of two entries
    decide whether a catalogue ever breaks a tie against its manifest. */
module PairwiseOrder {
  import opened Results
  import opened Text
  import opened Catalog
  import opened Resolve
  import opened CatalogLimits

  /** The services of xs that out does not list. */
  ghost function Except(xs: seq<Service>, out: seq<Service>): seq<Service> {
    if xs == [] then []
    else if xs[0].id in Ids(out) then Except(xs[1..], out)
    else [xs[0]] + Except(xs[1..], out)
  }

  lemma {:induction false} ExceptConcat(xs: seq<Service>, ys: seq<Service>, out: seq<Service>)
    ensures Except(xs + ys, out) == Except(xs, out) + Except(ys, out)
  {
    if xs == [] {
      assert [] + ys == ys;
    } else {
      assert (xs + ys)[1..] == xs[1..] + ys;
      ExceptConcat(xs[1..], ys, out);
    }
  }

  lemma {:induction false} ExceptNothing(xs: seq<Service>, out: seq<Service>)
    requires forall x | x in Ids(xs) :: x in Ids(out)
    ensures Except(xs, out) == []
  {
    if xs != [] {
      assert xs[0].id == Ids(xs)[0];
      TailIds(xs);
      ExceptNothing(xs[1..], out);
    }
  }

  lemma TailIds(xs: seq<Service>)
    requires xs != []
    ensures Ids(xs)[1..] == Ids(xs[1..]) && forall x | x in Ids(xs[1..]) :: x in Ids(xs)
  {
    assert Ids(xs)[1..] == Ids(xs[1..]);
  }

  lemma {:induction false} ExceptSame(xs: seq<Service>, a: seq<Service>, b: seq<Service>)
    requires forall x | x in Ids(xs) :: x in Ids(a) <==> x in Ids(b)
    ensures Except(xs, a) == Except(xs, b)
  {
    if xs != [] {
      assert xs[0].id == Ids(xs)[0];
      TailIds(xs);
      ExceptSame(xs[1..], a, b);
    }
  }

  lemma {:induction false} ExceptMembers(xs: seq<Service>, out: seq<Service>)
    ensures forall x | x in Ids(Except(xs, out)) :: x in Ids(xs) && x !in Ids(out)
  {
    if xs != [] {
      TailIds(xs);
      ExceptMembers(xs[1..], out);
      assert xs[0].id == Ids(xs)[0];
      if xs[0].id !in Ids(out) {
        IdsConcat([xs[0]], Except(xs[1..], out));
        assert Ids([xs[0]]) == [xs[0].id];
      }
    }
  }

  /** `big` lists at least what `small` lists. */
  ghost predicate Covers(small: seq<Service>, big: seq<Service>) {
    forall x | x in Ids(small) :: x in Ids(big)
  }

  lemma IdsOfSuffix(out: seq<Service>, k: nat)
    requires k <= |out|
    ensures Ids(out[k..]) == Ids(out)[k..] && forall x | x in Ids(out[k..]) :: x in Ids(out)
  {
    assert Ids(out[k..]) == Ids(out)[k..];
  }

  /** What a visit adds, it adds in an order of its own: on a longer list it adds
      the same services in the same order, but for those listed there. */
  lemma {:induction false} VisitAddsInOneOrder(c: Catalog, id: string, small: seq<Service>, big: seq<Service>)
    requires Acyclic(c) && ClosedNeeds(c.services) && Find(c.services, id).Some?
    requires Installable(c, small) && Installable(c, big) && Covers(small, big)
    ensures small <= PostOrder(c, id, small)
    ensures PostOrder(c, id, big) == big + Except(PostOrder(c, id, small)[|small|..], big)
    decreases Closure(c, [id]), 0
  {
    PostOrderResult(c, id, small);
    PostOrderResult(c, id, big);
    var r := PostOrder(c, id, small);
    if id in Ids(small) {
      assert r[|small|..] == [];
    } else if id in Ids(big) {
      IdsOfSuffix(r, |small|);
      ExceptNothing(r[|small|..], big);
    } else {
      var s := Find(c.services, id).value;
      assert s in c.services;
      NeedsLieBelow(c, id);
      PostOrderAllResult(c, s.needs, small);
      ListAddsInOneOrder(c, s.needs, small, big);
      var below := PostOrderAll(c, s.needs, small);
      OneMoreAdded(below[|small|..], s, big);
      SuffixAppend(below, |small|, s);
    }
  }

  lemma OneMoreAdded(added: seq<Service>, s: Service, big: seq<Service>)
    requires s.id !in Ids(big)
    ensures big + Except(added + [s], big) == big + Except(added, big) + [s]
  {
    ExceptConcat(added, [s], big);
    assert [s][1..] == [] && Except([s], big) == [s];
    ConcatIsAssociative(big, Except(added, big), [s]);
  }

  lemma SuffixAppend(xs: seq<Service>, k: nat, s: Service)
    requires k <= |xs|
    ensures (xs + [s])[k..] == xs[k..] + [s]
  {
  }

  lemma {:induction false} ListAddsInOneOrder(c: Catalog, ids: seq<string>, small: seq<Service>, big: seq<Service>)
    requires Acyclic(c) && ClosedNeeds(c.services) && forall d | d in ids :: Find(c.services, d).Some?
    requires Installable(c, small) && Installable(c, big) && Covers(small, big)
    ensures small <= PostOrderAll(c, ids, small)
    ensures PostOrderAll(c, ids, big) == big + Except(PostOrderAll(c, ids, small)[|small|..], big)
    decreases Closure(c, ids), |ids| + 1
  {
    PostOrderAllResult(c, ids, small);
    if ids == [] {
      assert small[|small|..] == [];
    } else {
      ClosureIsMonotonic(c, [ids[0]], ids);
      ClosureIsMonotonic(c, ids[1..], ids);
      var a, b := PostOrder(c, ids[0], small), PostOrder(c, ids[0], big);
      PostOrderResult(c, ids[0], small);
      PostOrderResult(c, ids[0], big);
      VisitAddsInOneOrder(c, ids[0], small, big);
      ListAddsInOneOrder(c, ids[1..], a, b);
      PostOrderAllResult(c, ids[1..], a);
      TwoPartsAdded(small, a, PostOrderAll(c, ids[1..], a), big, b);
    }
  }

  lemma TwoPartsAdded(small: seq<Service>, a: seq<Service>, all: seq<Service>, big: seq<Service>, b: seq<Service>)
    requires small <= a <= all && UniqueIds(all) && b == big + Except(a[|small|..], big)
    ensures b + Except(all[|a|..], b) == big + Except(all[|small|..], big)
  {
    var first, second := a[|small|..], all[|a|..];
    CutInTwo(all, |small|, |a|);
    assert all[|small|..|a|] == first;
    ExceptConcat(first, second, big);
    LaterPartIsNew(first, second, big, b);
    ExceptSame(second, b, big);
    ConcatIsAssociative(big, Except(first, big), Except(second, big));
  }

  lemma CutInTwo(all: seq<Service>, k: nat, l: nat)
    requires k <= l <= |all|
    ensures all[k..] == all[k..l] + all[l..]
    ensures UniqueIds(all) ==> UniqueIds(all[k..l] + all[l..])
  {
    var out := all[k..l] + all[l..];
    assert all[k..] == out;
    if UniqueIds(all) {
      forall i, j | 0 <= i < j < |out| ensures out[i].id != out[j].id {
        assert out[i] == all[k + i] && out[j] == all[k + j];
      }
    }
  }

  lemma LaterPartIsNew(first: seq<Service>, second: seq<Service>, big: seq<Service>, b: seq<Service>)
    requires UniqueIds(first + second) && b == big + Except(first, big)
    ensures forall x | x in Ids(second) :: x in Ids(b) <==> x in Ids(big)
  {
    ExceptMembers(first, big);
    IdsConcat(big, Except(first, big));
    forall x | x in Ids(second) ensures x !in Ids(first) {
      var k :| 0 <= k < |second| && Ids(second)[k] == x;
      forall i | 0 <= i < |first| ensures Ids(first)[i] != x {
        assert (first + second)[i] == first[i] && (first + second)[|first| + k] == second[k];
      }
    }
  }

  // -------------------------------------------------------- who comes first

  ghost predicate Precedes(out: seq<Service>, s: Service, t: Service) {
    exists i, j | 0 <= i < j < |out| :: out[i] == s && out[j] == t
  }

  lemma {:induction false} PrecedesExcept(xs: seq<Service>, out: seq<Service>, s: Service, t: Service)
    requires Precedes(Except(xs, out), s, t)
    ensures Precedes(xs, s, t)
  {
    var ys := Except(xs, out);
    var i, j :| 0 <= i < j < |ys| && ys[i] == s && ys[j] == t;
    if xs[0].id in Ids(out) {
      PrecedesExcept(xs[1..], out, s, t);
      var k, l :| 0 <= k < l < |xs[1..]| && xs[1..][k] == s && xs[1..][l] == t;
      assert xs[k + 1] == s && xs[l + 1] == t;
    } else {
      var rest := Except(xs[1..], out);
      assert ys == [xs[0]] + rest;
      if i == 0 {
        assert rest[j - 1] == t;
        ExceptOccurs(xs[1..], out, t);
        var l :| 0 <= l < |xs[1..]| && xs[1..][l] == t;
        assert xs[0] == s && xs[l + 1] == t;
      } else {
        assert rest[i - 1] == s && rest[j - 1] == t;
        PrecedesExcept(xs[1..], out, s, t);
        var k, l :| 0 <= k < l < |xs[1..]| && xs[1..][k] == s && xs[1..][l] == t;
        assert xs[k + 1] == s && xs[l + 1] == t;
      }
    }
  }

  lemma {:induction false} ExceptOccurs(xs: seq<Service>, out: seq<Service>, t: Service)
    requires t in Except(xs, out)
    ensures t in xs
  {
    if xs[0].id in Ids(out) || t != xs[0] {
      ExceptOccurs(xs[1..], out, t);
    }
  }

  /** The first entry of a list to bring in an id. */
  lemma {:induction false} FirstToBring(c: Catalog, t: seq<string>, id: string) returns (k: nat)
    requires id in Closure(c, t)
    ensures k < |t| && id in Closure(c, [t[k]]) && id !in Closure(c, t[..k])
    decreases |t|
  {
    ClosureMembers(c, t);
    var n := |t| - 1;
    assert t != [];
    assert t == t[..n] + [t[n]];
    ClosureConcat(c, t[..n], [t[n]]);
    if id in Closure(c, t[..n]) {
      k := FirstToBring(c, t[..n], id);
      assert t[..n][..k] == t[..k];
    } else {
      k := n;
    }
  }

  lemma KnownRequest(c: Catalog, x: string, y: string)
    requires Valid(c) && Find(c.services, x).Some? && Find(c.services, y).Some?
    requires Trim(x) == x && Trim(y) == y
    ensures Requested([x, y]) == [x, y] && Resolution(c, [x, y]) == Ok(PostOrderAll(c, [x, y], []))
  {
    assert Find(c.services, x).value in c.services && Find(c.services, y).value in c.services;
    RequestedOfTrimmed([x, y]);
    assert FirstUnknown(c, [x, y]).None?;
  }

  /** In a unique list, what precedes in the whole precedes in any part that holds
      both. */
  lemma PrecedesInPart(pre: seq<Service>, mid: seq<Service>, post: seq<Service>, s: Service, t: Service)
    requires UniqueIds(pre + mid + post) && Precedes(pre + mid + post, s, t)
    requires s in mid && t in mid
    ensures Precedes(mid, s, t)
  {
    var out := pre + mid + post;
    var i, j :| 0 <= i < j < |out| && out[i] == s && out[j] == t;
    var k :| 0 <= k < |mid| && mid[k] == s;
    var l :| 0 <= l < |mid| && mid[l] == t;
    assert out[|pre| + k] == s && out[|pre| + l] == t;
    assert i == |pre| + k && j == |pre| + l;
  }

  /** If a request lists s before t, so does a request of two of its entries. */
  lemma TwoEntriesSettle(c: Catalog, ids: seq<string>, s: Service, t: Service) returns (x: string, y: string)
    requires Valid(c) && s in c.services && t in c.services
    requires Resolution(c, ids).Ok? && Precedes(Resolution(c, ids).value, s, t)
    ensures x in Requested(ids) && y in Requested(ids)
    ensures Resolution(c, [x, y]).Ok? && Precedes(Resolution(c, [x, y]).value, s, t)
  {
    var asked, out := Requested(ids), Resolution(c, ids).value;
    ResolutionIsTheClosure(c, ids);
    RequestedMembers(ids);
    FindOfUnique(c.services, s);
    FindOfUnique(c.services, t);
    ListedOf(out, s, t);
    var k := FirstToBring(c, asked, s.id);
    var m := FirstToBring(c, asked, t.id);
    x, y := asked[k], asked[m];
    TrimmedEntries(ids);
    KnownRequest(c, x, y);
    KnownRequest(c, x, x);
    if t.id in Closure(c, [x]) {
      y := x;
      OneEntrySettles(c, ids, s, t, k);
      TwiceIsOnce(c, x);
    } else {
      BothListed(c, x, y, s, t);
    }
  }

  lemma ListedOf(out: seq<Service>, s: Service, t: Service)
    requires Precedes(out, s, t)
    ensures s.id in Ids(out) && t.id in Ids(out)
  {
    var i, j :| 0 <= i < j < |out| && out[i] == s && out[j] == t;
    assert Ids(out)[i] == s.id && Ids(out)[j] == t.id;
  }

  lemma TrimmedEntries(ids: seq<string>)
    ensures forall x | x in Requested(ids) :: Trim(x) == x && x != ""
  {
    RequestedMembers(ids);
    forall x | x in Requested(ids) ensures Trim(x) == x && x != "" {
      var i :| 0 <= i < |ids| && Trim(ids[i]) == x;
      TrimIsIdempotent(ids[i]);
    }
  }

  /** The first of two entries brings in s and not t: s comes first. */
  lemma BothListed(c: Catalog, x: string, y: string, s: Service, t: Service)
    requires Valid(c) && Find(c.services, s.id) == Some(s) && Find(c.services, t.id) == Some(t)
    requires Resolution(c, [x, y]).Ok? && Requested([x, y]) == [x, y]
    requires s.id in Closure(c, [x]) && t.id !in Closure(c, [x]) && t.id in Closure(c, [y])
    ensures Precedes(Resolution(c, [x, y]).value, s, t)
  {
    ResolutionIsTheClosure(c, [x, y]);
    assert [x, y] == [x] + [y];
    ClosureConcat(c, [x], [y]);
    var first := OrderFollowsTheRequest(c, [x, y], 1);
    assert [x, y][..1] == [x];
    var i, j := PrefixStandsBefore(c, first, Resolution(c, [x, y]).value, s, t);
  }

  /** One entry brings in both: alone it lists them in the same order. */
  lemma OneEntrySettles(c: Catalog, ids: seq<string>, s: Service, t: Service, k: nat)
    requires Valid(c) && Find(c.services, s.id) == Some(s) && Find(c.services, t.id) == Some(t)
    requires Resolution(c, ids).Ok? && Precedes(Resolution(c, ids).value, s, t) && k < |Requested(ids)|
    requires s.id in Closure(c, [Requested(ids)[k]]) && t.id in Closure(c, [Requested(ids)[k]])
    requires s.id !in Closure(c, Requested(ids)[..k])
    ensures Find(c.services, Requested(ids)[k]).Some?
    ensures Precedes(PostOrder(c, Requested(ids)[k], []), s, t)
  {
    var asked, out := Requested(ids), Resolution(c, ids).value;
    ResolutionIsTheClosure(c, ids);
    assert asked[k] in asked;
    var pre, upTo := AroundAVisit(c, asked, k);
    NotBefore(c, pre, out, s, t);
    MembersOf(c, upTo, s, t);
    OneVisitSettles(c, asked[k], pre, out, s, t);
  }

  lemma OneVisitSettles(c: Catalog, x: string, pre: seq<Service>, out: seq<Service>, s: Service, t: Service)
    requires Valid(c) && Find(c.services, x).Some? && Installable(c, pre) && Installable(c, out)
    requires pre <= PostOrder(c, x, pre) <= out && Precedes(out, s, t)
    requires s in PostOrder(c, x, pre) && t in PostOrder(c, x, pre) && s.id !in Ids(pre) && t.id !in Ids(pre)
    ensures Precedes(PostOrder(c, x, []), s, t)
  {
    var upTo, alone := PostOrder(c, x, pre), PostOrder(c, x, []);
    VisitAddsInOneOrder(c, x, [], pre);
    assert alone[0..] == alone;
    var mid := Except(alone, pre);
    AddedPart(pre, mid, s, t);
    assert out == upTo + out[|upTo|..];
    PrecedesInPart(pre, mid, out[|upTo|..], s, t);
    PrecedesExcept(alone, pre, s, t);
  }

  /** The list before and after the visit of entry k. */
  lemma AroundAVisit(c: Catalog, asked: seq<string>, k: nat) returns (pre: seq<Service>, upTo: seq<Service>)
    requires Valid(c) && k < |asked| && forall d | d in asked :: Find(c.services, d).Some?
    ensures Find(c.services, asked[k]).Some? && upTo == PostOrder(c, asked[k], pre)
    ensures pre <= upTo <= PostOrderAll(c, asked, [])
    ensures Installable(c, pre)
    ensures Installable(c, upTo)
    ensures forall x :: x in Ids(pre) <==> x in Closure(c, asked[..k])
    ensures forall x :: x in Ids(upTo) <==> x in Ids(pre) || x in Closure(c, [asked[k]])
  {
    var front, x := asked[..k], asked[k];
    assert x in asked;
    KnownFront(c, asked, k);
    pre := PostOrderAll(c, front, []);
    PostOrderAllResult(c, front, []);
    upTo := PostOrder(c, x, pre);
    PostOrderResult(c, x, pre);
    VisitLast(c, front, x);
    assert asked[..k + 1] == front + [x];
    RestExtends(c, asked, k + 1);
  }

  lemma KnownFront(c: Catalog, asked: seq<string>, k: nat)
    requires k <= |asked| && forall d | d in asked :: Find(c.services, d).Some?
    ensures forall d | d in asked[..k] :: Find(c.services, d).Some?
    ensures forall d | d in asked[k..] :: Find(c.services, d).Some?
  {
  }

  lemma VisitLast(c: Catalog, front: seq<string>, x: string)
    requires Acyclic(c)
    ensures PostOrderAll(c, front + [x], []) == PostOrder(c, x, PostOrderAll(c, front, []))
  {
    var pre := PostOrderAll(c, front, []);
    PostOrderAllConcat(c, front, [x], []);
    assert [x][1..] == [];
    assert PostOrderAll(c, [], PostOrder(c, x, pre)) == PostOrder(c, x, pre);
  }

  lemma RestExtends(c: Catalog, asked: seq<string>, k: nat)
    requires Valid(c) && k <= |asked| && forall d | d in asked :: Find(c.services, d).Some?
    ensures PostOrderAll(c, asked[..k], []) <= PostOrderAll(c, asked, [])
  {
    assert asked == asked[..k] + asked[k..];
    KnownFront(c, asked, k);
    PostOrderAllResult(c, asked[..k], []);
    PostOrderAllConcat(c, asked[..k], asked[k..], []);
    PostOrderAllResult(c, asked[k..], PostOrderAll(c, asked[..k], []));
  }

  /** What s precedes cannot be in a prefix that does not hold s. */
  lemma NotBefore(c: Catalog, pre: seq<Service>, out: seq<Service>, s: Service, t: Service)
    requires Installable(c, out) && pre <= out && Precedes(out, s, t) && s.id !in Ids(pre)
    ensures t.id !in Ids(pre)
  {
    var i, j :| 0 <= i < j < |out| && out[i] == s && out[j] == t;
    assert forall l | 0 <= l < |pre| :: pre[l] == out[l] && Ids(pre)[l] == pre[l].id;
    assert i >= |pre|;
  }

  lemma MembersOf(c: Catalog, out: seq<Service>, s: Service, t: Service)
    requires Installable(c, out) && s.id in Ids(out) && t.id in Ids(out)
    requires Find(c.services, s.id) == Some(s) && Find(c.services, t.id) == Some(t)
    ensures s in out && t in out
  {
    var i := IndexOf(c, out, s);
    var j := IndexOf(c, out, t);
  }

  lemma AddedPart(pre: seq<Service>, mid: seq<Service>, s: Service, t: Service)
    requires s in pre + mid && t in pre + mid && s.id !in Ids(pre) && t.id !in Ids(pre)
    ensures s in mid && t in mid
  {
    forall i | 0 <= i < |pre| ensures pre[i] != s && pre[i] != t {
      assert Ids(pre)[i] == pre[i].id;
    }
  }

  lemma TwiceIsOnce(c: Catalog, x: string)
    requires Valid(c) && Find(c.services, x).Some?
    ensures PostOrderAll(c, [x, x], []) == PostOrder(c, x, [])
  {
    var r := PostOrder(c, x, []);
    PostOrderResult(c, x, []);
    ClosureMembers(c, [x]);
    assert [x, x][1..] == [x];
    NothingToAdd(c, [x], r);
  }

  lemma TiesAsPrecedence(c: Catalog, out: seq<Service>)
    ensures TiesInManifestOrder(c, out) <==>
      forall p, q | 0 <= p < q < |c.services| && TiedAt(c, p, q) :: !Precedes(out, c.services[q], c.services[p])
  {
  }

  /** A catalogue breaks ties by manifest order on every request, whatever its ids,
      exactly when it does on every request of two entries. */
  lemma RequestsOfTwoDecide(c: Catalog)
    requires Valid(c)
    ensures ManifestBreaksTies(c) <==>
      forall x, y | Resolution(c, [x, y]).Ok? :: TiesInManifestOrder(c, Resolution(c, [x, y]).value)
  {
    if forall x, y | Resolution(c, [x, y]).Ok? :: TiesInManifestOrder(c, Resolution(c, [x, y]).value) {
      forall ids | Resolution(c, ids).Ok? ensures TiesInManifestOrder(c, Resolution(c, ids).value) {
        SettledByTwo(c, ids);
      }
    }
  }

  lemma SettledByTwo(c: Catalog, ids: seq<string>)
    requires Valid(c) && Resolution(c, ids).Ok?
    requires forall x, y | Resolution(c, [x, y]).Ok? :: TiesInManifestOrder(c, Resolution(c, [x, y]).value)
    ensures TiesInManifestOrder(c, Resolution(c, ids).value)
  {
    var out := Resolution(c, ids).value;
    TiesAsPrecedence(c, out);
    forall x, y | Resolution(c, [x, y]).Ok? {
      TiesAsPrecedence(c, Resolution(c, [x, y]).value);
    }
    forall p, q | 0 <= p < q < |c.services| && TiedAt(c, p, q) ensures !Precedes(out, c.services[q], c.services[p]) {
      if Precedes(out, c.services[q], c.services[p]) {
        var x, y := TwoEntriesSettle(c, ids, c.services[q], c.services[p]);
      }
    }
  }
}
