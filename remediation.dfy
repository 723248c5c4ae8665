/**
 * The per-instance remediation sequence: skip check, claim, stop, wait with
 * heartbeats, start, delete. EC2 is abstracted as a script of its answers for
 * the instance; a rejected stop or start (where the daemon calls `log.Fatalf`)
 * is the outcome `Aborted`.
 *
 * `Wait` and `Handle` are the specification of one run on the ledger's
 * entries; the methods `WaitForInstanceStop` and `HandleDegradedInstance`
 * carry it out step by step on a `Ledger` and are proved to agree with them.
 */
module Remediation {
  import opened ProcessingLedger

  /** What the wait loop's `select` receives next. */
  datatype WaitEvent =
    | WaitErr          // the long-poll returned an error: it is relaunched
    | WaitOk           // the long-poll returned nil: the instance is stopped
    | Tick(at: int)    // the 2-minute timer fired; the clock now reads `at`

  /** EC2's answers for one instance: to the stop call, the waits, the start call. */
  datatype Ec2Script = Ec2Script(stopOk: bool, waits: seq<WaitEvent>, startOk: bool)

  /** The visible effects of a run, in the order they happen. */
  datatype Step =
    | Claim(at: int)      // the first `updateInstanceTime`
    | StopCall            // `StopInstances`
    | WaitCall            // a launch of `WaitUntilInstanceStopped`
    | Heartbeat(at: int)  // `updateInstanceTime` on a timer tick
    | StartCall           // `StartInstances`
    | Delete              // `deleteInstance`

  /** Why the process aborted. */
  datatype Fatal = StopRejected | StartRejected

  /** How a run of `handleDegradedInstance` ends. */
  datatype Outcome =
    | Skipped            // the handling check reported the instance
    | Completed          // stopped, started and removed from the ledger
    | Aborted(cause: Fatal)
    | StillWaiting       // the events ran out before the wait returned nil
  {
    /** True iff the call returns to its caller (no abort, no endless wait). */
    predicate Returns()
    {
      Skipped? || Completed?
    }
  }

  /** The ledger after the wait loop, and what the loop did. */
  datatype WaitRun = WaitRun(entries: map<string, int>, now: int, consumed: nat, stopped: bool, steps: seq<Step>)

  /** The ledger after one run, and what the run did. */
  datatype Run = Run(entries: map<string, int>, now: int, outcome: Outcome, steps: seq<Step>)

  /** The step the wait loop takes on an event other than `WaitOk`: a heartbeat on a tick, a relaunch on an error. */
  function StepFor(e: WaitEvent): (s: Step)
  {
    if e.Tick? then Heartbeat(e.at) else WaitCall
  }

  /**
   * The wait loop on `events`: a `WaitErr` relaunches the wait, a `Tick`
   * moves the clock and refreshes the entry of `id`, and only a `WaitOk`
   * ends the loop, which consumes the events up to and including the first
   * `WaitOk` (all of them if there is none).
   */
  function Wait(entries: map<string, int>, now: int, id: string, events: seq<WaitEvent>): (w: WaitRun)
    ensures w.consumed <= |events|
    ensures w.stopped <==> WaitOk in events
    ensures w.stopped ==> 0 < w.consumed && events[w.consumed - 1] == WaitOk
    ensures forall k :: 0 <= k < w.consumed - 1 ==> events[k] != WaitOk
    ensures !w.stopped ==> w.consumed == |events|
    decreases |events|
  {
    if events == [] then WaitRun(entries, now, 0, false, [])
    else
      assert events == [events[0]] + events[1..];
      match events[0]
      case WaitOk => WaitRun(entries, now, 1, true, [])
      case WaitErr =>
        var w := Wait(entries, now, id, events[1..]);
        w.(consumed := w.consumed + 1, steps := [WaitCall] + w.steps)
      case Tick(t) =>
        var w := Wait(entries[id := t], t, id, events[1..]);
        w.(consumed := w.consumed + 1, steps := [Heartbeat(t)] + w.steps)
  }

  /**
   * The wait loop launches waits and writes heartbeats, one step per event
   * other than the final `WaitOk`: a relaunch for a `WaitErr` and a heartbeat
   * at the tick's reading for a `Tick`.
   */
  lemma {:induction false} WaitSteps(entries: map<string, int>, now: int, id: string, events: seq<WaitEvent>)
    ensures var w := Wait(entries, now, id, events);
      && |w.steps| == (if w.stopped then w.consumed - 1 else w.consumed)
      && forall k :: 0 <= k < |w.steps| ==> w.steps[k] == StepFor(events[k])
    decreases |events|
  {
    if events != [] && events[0] != WaitOk {
      var t := if events[0].Tick? then events[0].at else now;
      var e := if events[0].Tick? then entries[id := t] else entries;
      var rest := events[1..];
      WaitSteps(e, t, id, rest);
      var w', w := Wait(e, t, id, rest), Wait(entries, now, id, events);
      assert w.steps == [StepFor(events[0])] + w'.steps;
      forall k | 0 <= k < |w.steps| ensures w.steps[k] == StepFor(events[k]) {
        if k > 0 {
          assert w.steps[k] == w'.steps[k - 1];
          assert rest[k - 1] == events[k];
        }
      }
    }
  }

  /** The wait loop only launches waits and writes heartbeats. */
  lemma WaitStepKinds(entries: map<string, int>, now: int, id: string, events: seq<WaitEvent>)
    ensures forall s :: s in Wait(entries, now, id, events).steps ==> s == WaitCall || s.Heartbeat?
  {
    WaitSteps(entries, now, id, events);
    var w := Wait(entries, now, id, events);
    forall s | s in w.steps ensures s == WaitCall || s.Heartbeat? {
      var k :| 0 <= k < |w.steps| && w.steps[k] == s;
    }
  }

  /** The wait loop touches no entry but that of `id`, and never removes it. */
  lemma {:induction false} WaitFrame(entries: map<string, int>, now: int, id: string, events: seq<WaitEvent>)
    ensures var w := Wait(entries, now, id, events);
      && w.entries - {id} == entries - {id}
      && (id in entries ==> id in w.entries)
    decreases |events|
  {
    if events != [] && events[0] != WaitOk {
      var t := if events[0].Tick? then events[0].at else now;
      var e := if events[0].Tick? then entries[id := t] else entries;
      WaitFrame(e, t, id, events[1..]);
      assert e - {id} == entries - {id};
    }
  }

  /** True iff none of the events from index `lo` up to (not including) `hi` is a tick. */
  predicate NoTick(events: seq<WaitEvent>, lo: int, hi: int)
    requires 0 <= lo && hi <= |events|
  {
    forall j :: lo <= j < hi ==> !events[j].Tick?
  }

  /** `NoTick` on a list from index 1 on is `NoTick` on its tail. */
  lemma NoTickTail(events: seq<WaitEvent>, lo: int, hi: int)
    requires 1 <= lo <= hi <= |events|
    ensures NoTick(events, lo, hi) <==> NoTick(events[1..], lo - 1, hi - 1)
  {
    if !NoTick(events[1..], lo - 1, hi - 1) {
      var j :| lo - 1 <= j < hi - 1 && events[1..][j].Tick?;
      assert events[j + 1].Tick?;
    }
  }

  /**
   * The clock and the heartbeats of the wait loop, in terms of the ticks it
   * consumes (those before the first `WaitOk`): without a tick the loop
   * changes neither the ledger nor the clock; after a tick the entry of `id`
   * holds the clock, and the clock holds the reading of the last tick.
   */
  lemma {:induction false} WaitHeartbeat(entries: map<string, int>, now: int, id: string, events: seq<WaitEvent>)
    ensures var w := Wait(entries, now, id, events);
      && (NoTick(events, 0, w.consumed) ==> w.entries == entries && w.now == now)
      && (!NoTick(events, 0, w.consumed) ==> id in w.entries && w.entries[id] == w.now)
      && forall k :: 0 <= k < w.consumed && events[k].Tick? && NoTick(events, k + 1, w.consumed) ==>
           w.now == events[k].at
    decreases |events|
  {
    if events != [] && events[0] != WaitOk {
      var t := if events[0].Tick? then events[0].at else now;
      var e := if events[0].Tick? then entries[id := t] else entries;
      var rest := events[1..];
      WaitHeartbeat(e, t, id, rest);
      var w', w := Wait(e, t, id, rest), Wait(entries, now, id, events);
      assert w.consumed == w'.consumed + 1 && w.entries == w'.entries && w.now == w'.now;
      NoTickTail(events, 1, w.consumed);
      assert NoTick(events, 0, w.consumed) <==> !events[0].Tick? && NoTick(events, 1, w.consumed);
      forall k | 1 <= k < w.consumed && events[k].Tick? && NoTick(events, k + 1, w.consumed)
        ensures w.now == events[k].at
      {
        NoTickTail(events, k + 1, w.consumed);
        assert rest[k - 1] == events[k];
      }
    }
  }

  /** An entry of `id` that holds the clock before the wait loop holds it afterwards. */
  lemma WaitEntryAtClock(entries: map<string, int>, now: int, id: string, events: seq<WaitEvent>)
    requires id in entries && entries[id] == now
    ensures var w := Wait(entries, now, id, events);
      id in w.entries && w.entries[id] == w.now
  {
    WaitHeartbeat(entries, now, id, events);
  }

  /**
   * When every tick reads a clock later than `floor`, a wait loop that
   * consumed a tick before the first `WaitOk` leaves the entry of `id`
   * strictly later than `floor`: each tick refreshes the heartbeat.
   */
  lemma {:induction false} WaitHeartbeatLater(entries: map<string, int>, now: int, id: string, events: seq<WaitEvent>, floor: int)
    requires forall e :: e in events && e.Tick? ==> e.at > floor
    ensures var w := Wait(entries, now, id, events);
      (exists k :: 0 <= k < w.consumed && events[k].Tick?) ==> id in w.entries && w.entries[id] > floor
    decreases |events|
  {
    if events != [] && events[0] != WaitOk {
      var t := if events[0].Tick? then events[0].at else now;
      var e := if events[0].Tick? then entries[id := t] else entries;
      var rest := events[1..];
      assert forall x :: x in rest ==> x in events;
      WaitHeartbeatLater(e, t, id, rest, floor);
      WaitHeartbeat(e, t, id, rest);
      var w', w := Wait(e, t, id, rest), Wait(entries, now, id, events);
      if events[0].Tick? {
        assert events[0] in events;
      } else if exists k :: 0 <= k < w.consumed && events[k].Tick? {
        var k :| 0 <= k < w.consumed && events[k].Tick?;
        assert rest[k - 1] == events[k];
      }
    }
  }

  /**
   * One run of `handleDegradedInstance` for `id`: unless `force`, skip when
   * the handling check reports `id`; otherwise claim, stop (abort if
   * rejected), launch the wait and run the wait loop, start (abort if
   * rejected) and delete the entry.
   */
  function Handle(entries: map<string, int>, now: int, id: string, force: bool, ec2: Ec2Script): (r: Run)
  {
    if !force && IsHandling(entries, now, id) then Run(entries, now, Skipped, [])
    else
      var claimed := entries[id := now];
      if !ec2.stopOk then Run(claimed, now, Aborted(StopRejected), [Claim(now), StopCall])
      else
        var w := Wait(claimed, now, id, ec2.waits);
        var steps := [Claim(now), StopCall, WaitCall] + w.steps;
        if !w.stopped then Run(w.entries, w.now, StillWaiting, steps)
        else if !ec2.startOk then Run(w.entries, w.now, Aborted(StartRejected), steps + [StartCall])
        else Run(w.entries - {id}, w.now, Completed, steps + [StartCall, Delete])
  }

  /**
   * A run is skipped exactly when it is not forced and the handling check
   * reports `id`; a skipped run changes nothing and calls nothing.
   */
  lemma HandleSkip(entries: map<string, int>, now: int, id: string, force: bool, ec2: Ec2Script)
    ensures var r := Handle(entries, now, id, force, ec2);
      && (r.outcome == Skipped <==> !force && IsHandling(entries, now, id))
      && (r.outcome == Skipped ==> r.entries == entries && r.now == now && r.steps == [])
  {
  }

  /**
   * A run changes no entry but that of `id`; it removes that entry exactly
   * when it completes, and leaves it in place when it aborts or is still
   * waiting.
   */
  lemma HandleFrame(entries: map<string, int>, now: int, id: string, force: bool, ec2: Ec2Script)
    ensures var r := Handle(entries, now, id, force, ec2);
      && r.entries - {id} == entries - {id}
      && (r.outcome == Completed ==> id !in r.entries)
      && (r.outcome.Aborted? || r.outcome == StillWaiting ==> id in r.entries)
  {
    var claimed := entries[id := now];
    WaitFrame(claimed, now, id, ec2.waits);
    assert claimed - {id} == entries - {id};
    var w := Wait(claimed, now, id, ec2.waits);
    assert w.entries - {id} - {id} == w.entries - {id};
  }

  /** A run that proceeds and whose stop, wait and start all succeed removes exactly the entry of `id`. */
  lemma HandleCompletes(entries: map<string, int>, now: int, id: string, force: bool, ec2: Ec2Script)
    requires force || !IsHandling(entries, now, id)
    requires ec2.stopOk && WaitOk in ec2.waits && ec2.startOk
    ensures var r := Handle(entries, now, id, force, ec2);
      r.outcome == Completed && r.entries == entries - {id}
  {
    HandleFrame(entries, now, id, force, ec2);
  }

  /**
   * A rejected stop aborts with the claim in the ledger; a rejected start
   * aborts with the entry holding the time of the last heartbeat (the claim
   * if there was none). Neither deletes the entry.
   */
  lemma HandleAborts(entries: map<string, int>, now: int, id: string, force: bool, ec2: Ec2Script)
    requires force || !IsHandling(entries, now, id)
    ensures var r := Handle(entries, now, id, force, ec2);
      && (!ec2.stopOk ==> r.outcome == Aborted(StopRejected) && r.entries == entries[id := now])
      && (ec2.stopOk && WaitOk in ec2.waits && !ec2.startOk ==>
            && r.outcome == Aborted(StartRejected)
            && r.entries - {id} == entries - {id}
            && id in r.entries && r.entries[id] == r.now
            && Delete !in r.steps
            && var c := Wait(entries[id := now], now, id, ec2.waits).consumed;
               && (NoTick(ec2.waits, 0, c) ==> r.entries[id] == now)
               && forall k :: 0 <= k < c && ec2.waits[k].Tick? && NoTick(ec2.waits, k + 1, c) ==>
                    r.entries[id] == ec2.waits[k].at)
  {
    if ec2.stopOk && WaitOk in ec2.waits && !ec2.startOk {
      var claimed := entries[id := now];
      var w := Wait(claimed, now, id, ec2.waits);
      WaitEntryAtClock(claimed, now, id, ec2.waits);
      WaitHeartbeat(claimed, now, id, ec2.waits);
      WaitFrame(claimed, now, id, ec2.waits);
      WaitStepKinds(claimed, now, id, ec2.waits);
      assert claimed - {id} == entries - {id};
      assert Handle(entries, now, id, force, ec2)
        == Run(w.entries, w.now, Aborted(StartRejected), [Claim(now), StopCall, WaitCall] + w.steps + [StartCall]);
      assert Delete !in [Claim(now), StopCall, WaitCall] + w.steps + [StartCall];
    }
  }

  /**
   * The order of a run's effects: the claim comes first and the stop call
   * second; the start call comes only after the wait loop has seen `WaitOk`
   * (and is the last call but the delete); the delete happens only when the
   * run completes, as its very last step.
   */
  lemma HandleOrder(entries: map<string, int>, now: int, id: string, force: bool, ec2: Ec2Script)
    ensures var r := Handle(entries, now, id, force, ec2);
      && (r.outcome != Skipped ==> 2 <= |r.steps| && r.steps[0] == Claim(now) && r.steps[1] == StopCall)
      && (forall i :: 0 <= i < |r.steps| && r.steps[i] == StopCall ==> i == 1)
      && (forall i :: 0 <= i < |r.steps| && r.steps[i] == StartCall ==>
            && ec2.stopOk && WaitOk in ec2.waits
            && i == |r.steps| - (if r.outcome == Completed then 2 else 1))
      && (forall i :: 0 <= i < |r.steps| && r.steps[i] == Delete ==>
            r.outcome == Completed && i == |r.steps| - 1)
      && (r.outcome == Completed ==> 2 <= |r.steps| && r.steps[|r.steps| - 2..] == [StartCall, Delete])
  {
    var claimed := entries[id := now];
    WaitStepKinds(claimed, now, id, ec2.waits);
    var w := Wait(claimed, now, id, ec2.waits);
    forall i | 0 <= i < |w.steps| ensures w.steps[i] == WaitCall || w.steps[i].Heartbeat? {
      assert w.steps[i] in w.steps;
    }
  }

  /**
   * The wait loop from event `i` on: a `WaitOk` ends it at once; any other
   * event contributes its step, then the loop goes on from event `i + 1`.
   */
  lemma WaitFrom(entries: map<string, int>, now: int, id: string, events: seq<WaitEvent>, i: nat)
    requires i < |events|
    ensures var w := Wait(entries, now, id, events[i..]);
      if events[i] == WaitOk then w == WaitRun(entries, now, 1, true, [])
      else
        var t := if events[i].Tick? then events[i].at else now;
        var step := if events[i].Tick? then Heartbeat(t) else WaitCall;
        var w' := Wait(if events[i].Tick? then entries[id := t] else entries, t, id, events[i + 1..]);
        && w.entries == w'.entries && w.now == w'.now && w.stopped == w'.stopped
        && w.consumed == w'.consumed + 1 && w.steps == [step] + w'.steps
  {
    assert events[i..][0] == events[i];
    assert events[i..][1..] == events[i + 1..];
  }

  /**
   * `w` is what the wait loop still does after `consumed` events, and
   * `steps` what it has done, of the whole loop `w0`.
   */
  ghost predicate Resumes(w0: WaitRun, w: WaitRun, consumed: nat, steps: seq<Step>)
  {
    && w.entries == w0.entries && w.now == w0.now && w.stopped == w0.stopped
    && consumed + w.consumed == w0.consumed && steps + w.steps == [WaitCall] + w0.steps
  }

  /** After one more step, the rest of the loop still resumes the whole loop. */
  lemma ResumesStep(w0: WaitRun, w: WaitRun, w': WaitRun, consumed: nat, steps: seq<Step>, step: Step)
    requires Resumes(w0, w, consumed, steps)
    requires w'.entries == w.entries && w'.now == w.now && w'.stopped == w.stopped
    requires w.consumed == w'.consumed + 1 && w.steps == [step] + w'.steps
    ensures Resumes(w0, w', consumed + 1, steps + [step])
  {
    assert steps + [step] + w'.steps == steps + ([step] + w'.steps);
  }

  /**
   * The wait loop of `waitForInstanceStop`, on the events its `select`
   * receives: the wait is launched once before the loop, relaunched on every
   * error, the entry of `id` refreshed on every tick, and only a nil result
   * ends the loop.
   */
  method WaitForInstanceStop(ledger: Ledger, id: string, events: seq<WaitEvent>)
    returns (consumed: nat, stopped: bool, steps: seq<Step>)
    requires ledger.Valid()
    modifies ledger
    ensures ledger.Valid()
    ensures var w := Wait(old(ledger.Entries()), old(ledger.now), id, events);
      && ledger.Entries() == w.entries && ledger.now == w.now
      && consumed == w.consumed && stopped == w.stopped && steps == [WaitCall] + w.steps
  {
    ghost var w0 := Wait(ledger.Entries(), ledger.now, id, events);
    consumed, stopped, steps := 0, false, [WaitCall];
    while consumed < |events|
      invariant ledger.Valid()
      invariant consumed <= |events|
      invariant Resumes(w0, Wait(ledger.Entries(), ledger.now, id, events[consumed..]), consumed, steps)
      decreases |events| - consumed
    {
      var e := events[consumed];
      ghost var w := Wait(ledger.Entries(), ledger.now, id, events[consumed..]);
      WaitFrom(ledger.Entries(), ledger.now, id, events, consumed);
      if e == WaitOk {
        consumed, stopped := consumed + 1, true;
        break;
      }
      var step: Step;
      if e.Tick? {
        ledger.SetClock(e.at);
        ledger.UpdateInstanceTime(id);
        step := Heartbeat(e.at);
      } else {
        step := WaitCall;
      }
      ResumesStep(w0, w, Wait(ledger.Entries(), ledger.now, id, events[consumed + 1..]), consumed, steps, step);
      steps := steps + [step];
      consumed := consumed + 1;
    }
  }

  /**
   * `handleDegradedInstance(id, ec2, force)` on the ledger: carries out
   * exactly the run that `Handle` describes.
   */
  method HandleDegradedInstance(ledger: Ledger, id: string, ec2: Ec2Script, force: bool)
    returns (outcome: Outcome, steps: seq<Step>)
    requires ledger.Valid()
    modifies ledger
    ensures ledger.Valid()
    ensures var r := Handle(old(ledger.Entries()), old(ledger.now), id, force, ec2);
      ledger.Entries() == r.entries && ledger.now == r.now && outcome == r.outcome && steps == r.steps
  {
    ghost var e0, n0 := ledger.Entries(), ledger.now;
    if !force {
      var handling := ledger.IsInstanceHandling(id);
      if handling {
        return Skipped, [];
      }
    }
    assert force || !IsHandling(e0, n0, id);
    ledger.UpdateInstanceTime(id);
    steps := [Claim(ledger.now), StopCall];
    if !ec2.stopOk {
      return Aborted(StopRejected), steps;
    }
    ghost var w := Wait(e0[id := n0], n0, id, ec2.waits);
    var consumed, stopped, waitSteps := WaitForInstanceStop(ledger, id, ec2.waits);
    steps := steps + waitSteps;
    assert steps == [Claim(n0), StopCall, WaitCall] + w.steps;
    if !stopped {
      return StillWaiting, steps;
    }
    steps := steps + [StartCall];
    if !ec2.startOk {
      return Aborted(StartRejected), steps;
    }
    ledger.DeleteInstance(id);
    steps := steps + [Delete];
    outcome := Completed;
  }
}
