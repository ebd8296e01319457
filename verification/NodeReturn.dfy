/** Waiting for a node to come back from a reboot (cmd/node.go:
    nodeReturnProbe.wait): the only proof accepted is an uptime lower than the
    one read before. */
module NodeReturn {
  import opened Results

  // -------------------------------------------------------------- the node

  /** When the node booted: instants in increasing order, the first one before
      everything else that is said about it. */
  ghost predicate BootLog(boots: seq<int>) {
    boots != [] && forall i, j | 0 <= i < j < |boots| :: boots[i] < boots[j]
  }

  /** The uptime a reading taken at time t gives. */
  ghost function Uptime(boots: seq<int>, t: int): (u: int)
    requires BootLog(boots) && boots[0] <= t
    ensures u >= 0
    decreases |boots|
  {
    if boots[|boots| - 1] <= t then t - boots[|boots| - 1] else Uptime(boots[..|boots| - 1], t)
  }

  ghost predicate BootedBetween(boots: seq<int>, from: int, to: int) {
    exists i | 0 <= i < |boots| :: from < boots[i] <= to
  }

  /** Uptime falls across a boot and nowhere else: without one it grows by the
      time elapsed. */
  lemma {:induction false} UptimeGrowsWithoutBoot(boots: seq<int>, from: int, to: int)
    requires BootLog(boots) && boots[0] <= from <= to && !BootedBetween(boots, from, to)
    ensures Uptime(boots, to) == Uptime(boots, from) + (to - from)
    decreases |boots|
  {
    var last := boots[|boots| - 1];
    if last > to {
      var front := boots[..|boots| - 1];
      assert forall i | 0 <= i < |front| :: front[i] == boots[i];
      UptimeGrowsWithoutBoot(front, from, to);
    } else {
      assert !(from < last <= to);
    }
  }

  /** Uptime counts from the last boot. */
  lemma {:induction false} UptimeSinceTheLastBoot(boots: seq<int>, i: nat, t: int)
    requires BootLog(boots) && i < |boots| && boots[i] <= t
    requires forall j | i < j < |boots| :: t < boots[j]
    ensures boots[0] <= t && Uptime(boots, t) == t - boots[i]
    decreases |boots|
  {
    if i < |boots| - 1 {
      UptimeSinceTheLastBoot(boots[..|boots| - 1], i, t);
    }
  }

  /** A lower uptime is proof of a boot in between; the converse fails only when
      the node has since been up for longer than it had been then. */
  lemma LowerUptimeProvesBoot(boots: seq<int>, from: int, to: int)
    requires BootLog(boots) && boots[0] <= from <= to
    ensures Uptime(boots, to) < Uptime(boots, from) ==> BootedBetween(boots, from, to)
  {
    if !BootedBetween(boots, from, to) {
      UptimeGrowsWithoutBoot(boots, from, to);
    }
  }

  const SECOND := 1_000_000_000

  /** The node reports whole seconds; times are in nanoseconds. */
  ghost function Reported(boots: seq<int>, t: int): int
    requires BootLog(boots) && boots[0] <= t
  {
    Uptime(boots, t) / SECOND
  }

  /** After a boot the node reports less than before it until it has been up as long
      again, in whole seconds. */
  lemma RebootReadsLower(boots: seq<int>, reference: int, i: nat, t: int)
    requires BootLog(boots) && i < |boots| && boots[0] <= reference < boots[i] <= t
    requires forall j | i < j < |boots| :: t < boots[j]
    ensures Reported(boots, t) < Reported(boots, reference) <==>
      (t - boots[i]) / 1_000_000_000 < Uptime(boots, reference) / 1_000_000_000
  {
    UptimeSinceTheLastBoot(boots, i, t);
  }

  // ------------------------------------------------------------- the probe

  /** One turn of the loop: how long the status call takes, when within it the
      node is read (None: no answer), how long the pause after it lasts, and
      whether the context is cancelled during that pause. */
  datatype Turn = Turn(took: nat, readAfter: Option<nat>, pause: nat, cancelled: bool)

  datatype Verdict = Returned(uptime: int, readAt: int) | TimedOut | Cancelled

  /** A reading is taken within its call; a pause lasts at least the interval. */
  predicate Plausible(turn: Turn, interval: nat) {
    (turn.readAfter.Some? ==> turn.readAfter.value <= turn.took) && turn.pause >= interval
  }

  /** When turn n starts. */
  ghost function TurnStart(start: int, turns: nat -> Turn, n: nat): int {
    if n == 0 then start else TurnStart(start, turns, n - 1) + turns(n - 1).took + turns(n - 1).pause
  }

  /** When the call of turn n is over. */
  ghost function CallEnd(start: int, turns: nat -> Turn, n: nat): int {
    TurnStart(start, turns, n) + turns(n).took
  }

  /** Turn n reads an uptime lower than the reference. */
  ghost predicate ReadsLower(start: int, turns: nat -> Turn, n: nat, uptimeAt: int -> int, before: int) {
    turns(n).readAfter.Some? && uptimeAt(TurnStart(start, turns, n) + turns(n).readAfter.value) < before
  }

  /** Turn n neither succeeds, nor passes the deadline, nor is cancelled. */
  ghost predicate GoesOn(start: int, deadline: int, turns: nat -> Turn, n: nat, uptimeAt: int -> int, before: int) {
    !ReadsLower(start, turns, n, uptimeAt, before) && CallEnd(start, turns, n) <= deadline && !turns(n).cancelled
  }

  ghost predicate AllGoOn(start: int, deadline: int, turns: nat -> Turn, upTo: nat, uptimeAt: int -> int, before: int) {
    forall n | 0 <= n < upTo :: GoesOn(start, deadline, turns, n, uptimeAt, before)
  }

  /** The wait ends at turn n with this verdict. */
  ghost predicate Ends(start: int, deadline: int, turns: nat -> Turn, n: nat, uptimeAt: int -> int, before: int, v: Verdict) {
    && AllGoOn(start, deadline, turns, n, uptimeAt, before)
    && match v
       case Returned(u, t) =>
         ReadsLower(start, turns, n, uptimeAt, before) && u == uptimeAt(t)
         && t == TurnStart(start, turns, n) + turns(n).readAfter.value
       case TimedOut => !ReadsLower(start, turns, n, uptimeAt, before) && CallEnd(start, turns, n) > deadline
       case Cancelled =>
         !ReadsLower(start, turns, n, uptimeAt, before) && CallEnd(start, turns, n) <= deadline && turns(n).cancelled
  }

  ghost predicate EndsWith(start: int, deadline: int, turns: nat -> Turn, uptimeAt: int -> int, before: int, v: Verdict) {
    exists n: nat :: Ends(start, deadline, turns, n, uptimeAt, before, v)
  }

  /** wait, against any schedule of answers, errors, pauses and cancellation;
      `uptimeAt` is the uptime a reading taken at a given time reports. */
  method Wait(start: int, timeout: nat, interval: nat, before: int, turns: nat -> Turn, uptimeAt: int -> int)
    returns (v: Verdict)
    requires interval > 0 && forall n :: Plausible(turns(n), interval)
    ensures EndsWith(start, start + timeout, turns, uptimeAt, before, v)
  {
    var deadline := start + timeout;
    var now := start;
    var n := 0;
    while true
      invariant now == TurnStart(start, turns, n)
      invariant AllGoOn(start, deadline, turns, n, uptimeAt, before)
      invariant n > 0 ==> now <= deadline + turns(n - 1).pause
      decreases if n == 0 then 1 else 0, deadline - now + (if n == 0 then 0 else turns(n - 1).pause)
    {
      var turn := turns(n);
      assert Plausible(turn, interval);
      if turn.readAfter.Some? {
        var uptime := uptimeAt(now + turn.readAfter.value);
        if uptime < before {
          v := Returned(uptime, now + turn.readAfter.value);
          assert Ends(start, deadline, turns, n, uptimeAt, before, v);
          return;
        }
      }
      now := now + turn.took;
      if now > deadline {
        assert Ends(start, deadline, turns, n, uptimeAt, before, TimedOut);
        return TimedOut;
      }
      if turn.cancelled {
        assert Ends(start, deadline, turns, n, uptimeAt, before, Cancelled);
        return Cancelled;
      }
      now := now + turn.pause;
      n := n + 1;
    }
  }

  lemma {:induction false} TurnsMoveForward(start: int, turns: nat -> Turn, n: nat)
    ensures TurnStart(start, turns, n) >= start
  {
    if n > 0 {
      TurnsMoveForward(start, turns, n - 1);
    }
  }

  /** When wait returns success the node has booted since the reference uptime was
      read, whatever answers, errors and ticks came in between. */
  lemma SuccessProvesReboot(boots: seq<int>, reference: int, start: int, deadline: int, turns: nat -> Turn, n: nat,
                            uptimeAt: int -> int, v: Verdict)
    requires BootLog(boots) && boots[0] <= reference <= start
    requires forall t | t >= boots[0] :: uptimeAt(t) == Reported(boots, t)
    requires Ends(start, deadline, turns, n, uptimeAt, Reported(boots, reference), v) && v.Returned?
    ensures BootedBetween(boots, reference, v.readAt)
  {
    TurnsMoveForward(start, turns, n);
    LowerUptimeProvesBoot(boots, reference, v.readAt);
  }

  /** A node that did not boot after the reference is never reported back, however
      long it answers. */
  lemma NoRebootNoSuccess(boots: seq<int>, reference: int, start: int, turns: nat -> Turn, n: nat, uptimeAt: int -> int)
    requires BootLog(boots) && boots[0] <= reference <= start && boots[|boots| - 1] <= reference
    requires forall t | t >= boots[0] :: uptimeAt(t) == Reported(boots, t)
    ensures !ReadsLower(start, turns, n, uptimeAt, Reported(boots, reference))
  {
    TurnsMoveForward(start, turns, n);
    if turns(n).readAfter.Some? {
      var at := TurnStart(start, turns, n) + turns(n).readAfter.value;
      assert forall i | 0 <= i < |boots| :: boots[i] <= boots[|boots| - 1];
      assert !BootedBetween(boots, reference, at);
      UptimeGrowsWithoutBoot(boots, reference, at);
    }
  }

  /** The deadline is only looked at after a call, so the wait may outlast it, but
      by no more than one pause and one call. */
  lemma EndsNearTheDeadline(start: int, deadline: int, turns: nat -> Turn, n: nat, uptimeAt: int -> int, before: int, v: Verdict)
    requires Ends(start, deadline, turns, n, uptimeAt, before, v)
    ensures CallEnd(start, turns, n) <=
      if n == 0 then start + turns(0).took else deadline + turns(n - 1).pause + turns(n).took
  {
    if n > 0 {
      assert GoesOn(start, deadline, turns, n - 1, uptimeAt, before);
    }
  }

  /** The wait ends with success exactly when some call reads an uptime below the
      reference and no earlier one was over after the deadline or followed by a
      cancellation. */
  lemma ReturnsExactly(start: int, deadline: int, turns: nat -> Turn, n: nat, uptimeAt: int -> int, before: int, v: Verdict)
    requires Ends(start, deadline, turns, n, uptimeAt, before, v)
    ensures v.Returned? <==> exists k: nat ::
      && CallReads(start, turns, k, uptimeAt, before)
      && forall m | 0 <= m < k :: CallEnd(start, turns, m) <= deadline && !turns(m).cancelled
  {
    if v.Returned? {
      assert CallReads(start, turns, n, uptimeAt, before);
      forall m | 0 <= m < n ensures CallEnd(start, turns, m) <= deadline && !turns(m).cancelled {
        assert GoesOn(start, deadline, turns, m, uptimeAt, before);
      }
    } else {
      forall k: nat | CallReads(start, turns, k, uptimeAt, before) ensures k > n {
        assert k < n ==> GoesOn(start, deadline, turns, k, uptimeAt, before);
      }
    }
  }

  /** The call of turn k is answered with an uptime below the reference. */
  ghost predicate CallReads(start: int, turns: nat -> Turn, k: nat, uptimeAt: int -> int, before: int) {
    match turns(k).readAfter
    case None => false
    case Some(after) => uptimeAt(CallEnd(start, turns, k) - turns(k).took + after) < before
  }

  /** Turn k ends the wait if it is reached: it reads a lower uptime, or the
      context is cancelled after it. */
  ghost predicate Decides(start: int, turns: nat -> Turn, k: nat, uptimeAt: int -> int, before: int) {
    ReadsLower(start, turns, k, uptimeAt, before) || turns(k).cancelled
  }

  lemma {:induction false} LaterCallsEndLater(start: int, turns: nat -> Turn, n: nat, k: nat)
    requires n <= k
    ensures CallEnd(start, turns, n) <= CallEnd(start, turns, k)
    decreases k - n
  {
    if n < k {
      LaterCallsEndLater(start, turns, n, k - 1);
      assert TurnStart(start, turns, k) == TurnStart(start, turns, k - 1) + turns(k - 1).took + turns(k - 1).pause;
    }
  }

  /** Exactly when the wait ends by its deadline: when some call that is over by
      then reads a lower uptime or is followed by a cancellation. */
  lemma EndsByTheDeadline(start: int, deadline: int, turns: nat -> Turn, n: nat, uptimeAt: int -> int, before: int, v: Verdict)
    requires Ends(start, deadline, turns, n, uptimeAt, before, v)
    ensures CallEnd(start, turns, n) <= deadline <==>
      exists k: nat :: CallEnd(start, turns, k) <= deadline && Decides(start, turns, k, uptimeAt, before)
  {
    if CallEnd(start, turns, n) <= deadline {
      assert Decides(start, turns, n, uptimeAt, before);
    }
    if k: nat :| CallEnd(start, turns, k) <= deadline && Decides(start, turns, k, uptimeAt, before) {
      if k < n {
        assert GoesOn(start, deadline, turns, k, uptimeAt, before);
      } else {
        LaterCallsEndLater(start, turns, n, k);
      }
    }
  }

  /** A node that never answers, asked every 10 with a deadline at 5. */
  function SilentTurns(n: nat): Turn {
    Turn(0, None, 10, false)
  }

  /** There the wait ends at 10, twice its deadline. */
  lemma WaitOutlastsItsDeadline(uptimeAt: int -> int, before: int)
    ensures Ends(0, 5, SilentTurns, 1, uptimeAt, before, TimedOut)
    ensures CallEnd(0, SilentTurns, 1) == 10
  {
    assert TurnStart(0, SilentTurns, 1) == TurnStart(0, SilentTurns, 0) + 0 + 10;
  }
}
