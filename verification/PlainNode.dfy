/** A node that meets everything NoSubscription assumes of one: adding a handle
    lists it as enabled, disabling a stanza switches it off in place. */
module PlainNode {
  import opened Results
  import opened NoSubscription
  import opened Text

  function Listed(standard: seq<Standard>, handle: string): seq<Standard> {
    if standard == [] then [Standard(handle, Some(1))]
    else if standard[0].handle == handle then [Standard(handle, Some(1))] + standard[1..]
    else [standard[0]] + Listed(standard[1..], handle)
  }

  function Add(r: Repos, handle: string): Option<Repos> {
    Some(r.(standard := Listed(r.standard, handle)))
  }

  function SwitchedOff(files: seq<RepoFile>, path: string, index: nat): (after: seq<RepoFile>)
    ensures |after| == |files| && forall i | 0 <= i < |files| :: after[i].path == files[i].path
  {
    if files == [] then []
    else if files[0].path != path then [files[0]] + SwitchedOff(files[1..], path, index)
    else if index >= |files[0].stanzas| then files
    else
      var off := files[0].stanzas[index].(enabled := 0);
      [files[0].(stanzas := files[0].stanzas[index := off])] + files[1..]
  }

  function Disable(r: Repos, path: string, index: nat): Option<Repos> {
    if StanzaAt(r.files, path, index).Some? then Some(r.(files := SwitchedOff(r.files, path, index))) else None
  }

  lemma {:induction false} ListedFinds(standard: seq<Standard>, handle: string, h: string)
    ensures FindStandard(Listed(standard, handle), h) ==
      if h == handle then Some(Standard(handle, Some(1))) else FindStandard(standard, h)
    ensures forall s | s in Listed(standard, handle) && s.handle != handle :: s in standard
  {
    if standard != [] {
      assert standard == [standard[0]] + standard[1..];
      ListedFinds(standard[1..], handle, h);
      assert Listed(standard, handle)[1..] == standard[1..] || Listed(standard, handle)[1..] == Listed(standard[1..], handle);
    } else {
      assert Listed(standard, handle)[1..] == [];
    }
  }

  lemma {:induction false} SwitchedOffStanza(files: seq<RepoFile>, path: string, index: nat, p: string, i: nat)
    ensures StanzaAt(SwitchedOff(files, path, index), p, i) ==
      var s := StanzaAt(files, p, i);
      if s.Some? && RepoRef(p, i) == RepoRef(path, index) then Some(s.value.(enabled := 0)) else s
  {
    if files != [] && files[0].path != path {
      SwitchedOffStanza(files[1..], path, index, p, i);
      assert SwitchedOff(files, path, index)[1..] == SwitchedOff(files[1..], path, index);
    } else if files != [] && index < |files[0].stanzas| {
      assert SwitchedOff(files, path, index)[1..] == files[1..];
    }
  }

  lemma AddsAsAssumed(r: Repos, handle: string)
    requires UniquePaths(r.files)
    ensures AddsHandle(r, handle, Add(r, handle).value)
  {
    forall h ensures FindStandard(Listed(r.standard, handle), h) ==
      if h == handle then Some(Standard(handle, Some(1))) else FindStandard(r.standard, h)
    {
      ListedFinds(r.standard, handle, h);
    }
    ListedFinds(r.standard, handle, handle);
  }

  lemma DisablesAsAssumed(r: Repos, path: string, index: nat)
    requires UniquePaths(r.files) && ActiveEnterprise(r.files, RepoRef(path, index))
    ensures DisablesStanza(r, path, index, Disable(r, path, index).value)
  {
    forall p, i ensures StanzaAt(SwitchedOff(r.files, path, index), p, i) ==
      var s := StanzaAt(r.files, p, i);
      if s.Some? && RepoRef(p, i) == RepoRef(path, index) then Some(s.value.(enabled := 0)) else s
    {
      SwitchedOffStanza(r.files, path, index, p, i);
    }
  }

  /** The assumptions of ApplyNoSub can be met, from any state. */
  method NewNode(repos: Repos) returns (node: AptNode)
    ensures fresh(node) && node.repos == repos
    ensures node.add == Add && node.disable == Disable
    ensures node.BehavesAsAssumed() && node.Cooperative()
  {
    node := new AptNode(repos, Add, Disable, _ => Answered);
    forall r: Repos, h | UniquePaths(r.files) ensures AddsHandle(r, h, Add(r, h).value) {
      AddsAsAssumed(r, h);
    }
    forall r: Repos, p, i | UniquePaths(r.files) && ActiveEnterprise(r.files, RepoRef(p, i))
      ensures DisablesStanza(r, p, i, Disable(r, p, i).value)
    {
      DisablesAsAssumed(r, p, i);
    }
  }

  // ------------------------------------------------------------ stale index

  const SOURCES := "sources"
  const FREE := Stanza("free", false, 1)
  const PAID := Stanza("paid", true, 1)
  const SWITCHED_ON := [Standard(NO_SUBSCRIPTION, Some(1))]

  /** A node as it was read, without a digest, and after somebody put a stanza in
      front of the one the plan names. */
  const AS_READ := Repos("", [RepoFile(SOURCES, [PAID])], SWITCHED_ON)
  const AS_FOUND := Repos("", [RepoFile(SOURCES, [FREE, PAID])], SWITCHED_ON)

  lemma ThePlan()
    ensures PlanOf(AS_READ) == NoSubPlan([], [RepoRef(SOURCES, 0)])
  {
    assert FindStandard(SWITCHED_ON, NO_SUBSCRIPTION) == Some(SWITCHED_ON[0]);
    assert IsEnabled(AS_READ, NO_SUBSCRIPTION);
    NoCounterparts();
    assert StanzasToDisable(SOURCES, [PAID], 1) == [];
    assert StanzasToDisable(SOURCES, [PAID], 0) == [RepoRef(SOURCES, 0)];
    assert AS_READ.files[1..] == [] && FilesToDisable([]) == [];
    assert FilesToDisable(AS_READ.files) == [RepoRef(SOURCES, 0)];
    assert PlanOf(AS_READ).add == [];
  }

  lemma NoCounterparts()
    ensures CounterpartsToAdd(AS_READ, SWITCHED_ON) == []
  {
    assert !HasSuffix(NO_SUBSCRIPTION, "-enterprise") by {
      assert NO_SUBSCRIPTION[|NO_SUBSCRIPTION| - 1] == 'n' && "-enterprise"[10] == 'e';
    }
    assert SWITCHED_ON[1..] == [];
  }

  /** Sent with the empty digest of the plan, the first write switches off the
      free stanza, which the plan never named; the paid one stays on. */
  method StaleIndexHitsAnotherStanza() returns (node: AptNode, ok: bool)
    ensures PlanOf(AS_READ) == NoSubPlan([], [RepoRef(SOURCES, 0)])
    ensures ok && !ActiveEnterprise(AS_FOUND.files, PlanOf(AS_READ).disable[0])
    ensures node.repos.files == [RepoFile(SOURCES, [FREE.(enabled := 0), PAID])]
  {
    ThePlan();
    node := NewNode(AS_FOUND);
    assert StanzaAt(AS_FOUND.files, SOURCES, 0) == Some(FREE);
    ok := SendDisable(node, true, AS_READ.digest, RepoRef(SOURCES, 0));
    assert [FREE, PAID][0 := FREE.(enabled := 0)] == [FREE.(enabled := 0), PAID];
  }
}
