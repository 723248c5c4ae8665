/**
 * The two places that hand instances to the remediation sequence: the poll
 * step, which runs the sequence unforced for every instance a scan reports
 * degraded, and the startup recovery, which runs it forced for every id left
 * in the ledger by a previous session. Both are modelled as sequential
 * iterations; a call that does not return (an abort, or a wait that never
 * ends) ends the iteration.
 */
module Dispatch {
  import opened ProcessingLedger
  import opened Remediation

  /** What `DescribeInstanceStatus` answered for the degraded-hardware filter. */
  datatype Scan = ScanFailed | Found(instanceIds: seq<string>)

  /** The ledger after a batch of runs, and the outcome of each run made. */
  datatype Batch = Batch(entries: map<string, int>, now: int, outcomes: seq<Outcome>)

  /** True iff EC2 accepts the stop, eventually reports the instance stopped, and accepts the start. */
  predicate Succeeds(s: Ec2Script)
  {
    s.stopOk && WaitOk in s.waits && s.startOk
  }

  /** The ids of a list, as a set. */
  function Listed(ids: seq<string>): (s: set<string>)
  {
    set i | 0 <= i < |ids| :: ids[i]
  }

  /**
   * `Handle` run for each id in turn with the answers `ec2` gives for it;
   * the first run that does not return is the last one made.
   */
  function HandleAll(entries: map<string, int>, now: int, ids: seq<string>, force: bool,
                     ec2: string -> Ec2Script): (b: Batch)
    ensures |b.outcomes| <= |ids|
    ensures ids != [] ==> b.outcomes != []
    ensures forall i :: 0 <= i < |b.outcomes| - 1 ==> b.outcomes[i].Returns()
    ensures 0 < |b.outcomes| < |ids| ==> !b.outcomes[|b.outcomes| - 1].Returns()
    decreases |ids|
  {
    if ids == [] then Batch(entries, now, [])
    else
      var r := Handle(entries, now, ids[0], force, ec2(ids[0]));
      if !r.outcome.Returns() then Batch(r.entries, r.now, [r.outcome])
      else
        var b := HandleAll(r.entries, r.now, ids[1..], force, ec2);
        Batch(b.entries, b.now, [r.outcome] + b.outcomes)
  }

  /** A batch changes no entry of an id outside its list. */
  lemma {:induction false} HandleAllFrame(entries: map<string, int>, now: int, ids: seq<string>, force: bool,
                                         ec2: string -> Ec2Script)
    ensures HandleAll(entries, now, ids, force, ec2).entries - Listed(ids) == entries - Listed(ids)
    decreases |ids|
  {
    if ids != [] {
      var r := Handle(entries, now, ids[0], force, ec2(ids[0]));
      HandleFrame(entries, now, ids[0], force, ec2(ids[0]));
      ListedCons(ids);
      MinusTwice(r.entries, entries, {ids[0]}, Listed(ids[1..]));
      if r.outcome.Returns() {
        HandleAllFrame(r.entries, r.now, ids[1..], force, ec2);
        var b := HandleAll(r.entries, r.now, ids[1..], force, ec2);
        MinusTwice(b.entries, r.entries, Listed(ids[1..]), {ids[0]});
        assert Listed(ids[1..]) + {ids[0]} == Listed(ids);
      }
    }
  }

  /** The ids of a non-empty list: its head and the ids of its tail. */
  lemma ListedCons(ids: seq<string>)
    requires ids != []
    ensures Listed(ids) == {ids[0]} + Listed(ids[1..])
  {
    forall id | id in Listed(ids) ensures id in {ids[0]} + Listed(ids[1..]) {
      var i :| 0 <= i < |ids| && ids[i] == id;
      if i > 0 {
        assert ids[1..][i - 1] == id;
      }
    }
  }

  /** Removing two sets of keys in turn removes their union. */
  lemma MinusUnion(m: map<string, int>, a: set<string>, b: set<string>)
    ensures m - a - b == m - (a + b)
  {
    assert (m - a - b).Keys == (m - (a + b)).Keys;
  }

  /** Maps that agree outside `a` agree outside `a + b`. */
  lemma MinusTwice(m: map<string, int>, n: map<string, int>, a: set<string>, b: set<string>)
    requires m - a == n - a
    ensures m - (a + b) == n - (a + b)
  {
    assert m - (a + b) == (m - a) - b;
    assert n - (a + b) == (n - a) - b;
  }

  /**
   * When EC2 succeeds for every listed id, and the runs are forced or no
   * listed id has an entry to begin with, every run completes.
   */
  lemma {:induction false} HandleAllSucceeds(entries: map<string, int>, now: int, ids: seq<string>, force: bool,
                                            ec2: string -> Ec2Script)
    requires forall id :: id in ids ==> Succeeds(ec2(id))
    requires force || forall id :: id in ids ==> id !in entries
    ensures var b := HandleAll(entries, now, ids, force, ec2);
      |b.outcomes| == |ids| && forall i :: 0 <= i < |ids| ==> b.outcomes[i] == Completed
    decreases |ids|
  {
    if ids != [] {
      assert ids[0] in ids;
      var r := Handle(entries, now, ids[0], force, ec2(ids[0]));
      HandleCompletes(entries, now, ids[0], force, ec2(ids[0]));
      HandleAllStep(entries, now, ids, force, ec2, r);
      assert forall id :: id in ids[1..] ==> id in ids;
      HandleAllSucceeds(r.entries, r.now, ids[1..], force, ec2);
    }
  }

  /**
   * Under the same conditions the batch removes exactly the listed ids from
   * the ledger.
   */
  lemma {:induction false} HandleAllRemoves(entries: map<string, int>, now: int, ids: seq<string>, force: bool,
                                           ec2: string -> Ec2Script)
    requires forall id :: id in ids ==> Succeeds(ec2(id))
    requires force || forall id :: id in ids ==> id !in entries
    ensures HandleAll(entries, now, ids, force, ec2).entries == entries - Listed(ids)
    decreases |ids|
  {
    if ids != [] {
      assert ids[0] in ids;
      var r := Handle(entries, now, ids[0], force, ec2(ids[0]));
      HandleCompletes(entries, now, ids[0], force, ec2(ids[0]));
      HandleAllStep(entries, now, ids, force, ec2, r);
      assert forall id :: id in ids[1..] ==> id in ids;
      assert force || forall id :: id in ids[1..] ==> id !in r.entries;
      HandleAllRemoves(r.entries, r.now, ids[1..], force, ec2);
      ListedCons(ids);
      MinusUnion(entries, {ids[0]}, Listed(ids[1..]));
    }
  }

  /**
   * The startup recovery: forced runs over ids that list the ledger's
   * entries exactly, with EC2 succeeding for each, leave the ledger empty.
   */
  lemma RecoveryClears(entries: map<string, int>, now: int, ids: seq<string>, ec2: string -> Ec2Script)
    requires forall id :: id in ids <==> id in entries
    requires forall id :: id in entries ==> Succeeds(ec2(id))
    ensures var b := HandleAll(entries, now, ids, true, ec2);
      b.entries == map[] && |b.outcomes| == |ids| && forall o :: o in b.outcomes ==> o == Completed
  {
    HandleAllSucceeds(entries, now, ids, true, ec2);
    HandleAllRemoves(entries, now, ids, true, ec2);
    assert Listed(ids) == entries.Keys by {
      forall id | id in entries ensures id in Listed(ids) {
        var i :| 0 <= i < |ids| && ids[i] == id;
      }
    }
  }

  /** A batch is its first run followed, if that run returns, by the batch of the rest. */
  lemma HandleAllStep(entries: map<string, int>, now: int, ids: seq<string>, force: bool,
                      ec2: string -> Ec2Script, r: Run)
    requires ids != []
    requires r == Handle(entries, now, ids[0], force, ec2(ids[0]))
    ensures var b := HandleAll(entries, now, ids, force, ec2);
      if r.outcome.Returns() then
        Continues(b, HandleAll(r.entries, r.now, ids[1..], force, ec2), [r.outcome])
      else
        b == Batch(r.entries, r.now, [r.outcome])
  {
  }

  /** `b` is what the batch still does after `outcomes`, of the whole batch `b0`. */
  ghost predicate Continues(b0: Batch, b: Batch, outcomes: seq<Outcome>)
  {
    b.entries == b0.entries && b.now == b0.now && outcomes + b.outcomes == b0.outcomes
  }

  /** Continuing a batch that itself continues the whole batch. */
  lemma ContinuesTrans(b0: Batch, b1: Batch, b2: Batch, o1: seq<Outcome>, o2: seq<Outcome>)
    requires Continues(b0, b1, o1) && Continues(b1, b2, o2)
    ensures Continues(b0, b2, o1 + o2)
  {
    assert o1 + o2 + b2.outcomes == o1 + (o2 + b2.outcomes);
  }

  /**
   * One pass of the loop in `HandleEach`: the run for `ids[i]` either
   * returns, and the rest of the batch still continues `b0`, or it does not,
   * and it ends `b0`.
   */
  lemma EachStep(b0: Batch, entries: map<string, int>, now: int, ids: seq<string>, i: nat, force: bool,
                 ec2: string -> Ec2Script, outcomes: seq<Outcome>)
    requires i < |ids|
    requires Continues(b0, HandleAll(entries, now, ids[i..], force, ec2), outcomes)
    ensures var r := Handle(entries, now, ids[i], force, ec2(ids[i]));
      if r.outcome.Returns() then
        Continues(b0, HandleAll(r.entries, r.now, ids[i + 1..], force, ec2), outcomes + [r.outcome])
      else
        b0 == Batch(r.entries, r.now, outcomes + [r.outcome])
  {
    var r := Handle(entries, now, ids[i], force, ec2(ids[i]));
    var b := HandleAll(entries, now, ids[i..], force, ec2);
    HandleAllStep(entries, now, ids[i..], force, ec2, r);
    if r.outcome.Returns() {
      assert ids[i..][1..] == ids[i + 1..];
      ContinuesTrans(b0, b, HandleAll(r.entries, r.now, ids[i + 1..], force, ec2), outcomes, [r.outcome]);
    }
  }

  /**
   * Hands each id to `handleDegradedInstance` in turn, synchronously; stops
   * at the first call that does not return.
   */
  method HandleEach(ledger: Ledger, ids: seq<string>, force: bool, ec2: string -> Ec2Script)
    returns (outcomes: seq<Outcome>)
    requires ledger.Valid()
    modifies ledger
    ensures ledger.Valid()
    ensures var b := HandleAll(old(ledger.Entries()), old(ledger.now), ids, force, ec2);
      ledger.Entries() == b.entries && ledger.now == b.now && outcomes == b.outcomes
  {
    ghost var b0 := HandleAll(ledger.Entries(), ledger.now, ids, force, ec2);
    outcomes := [];
    var i := 0;
    while i < |ids|
      invariant ledger.Valid()
      invariant 0 <= i <= |ids|
      invariant |outcomes| == i
      invariant Continues(b0, HandleAll(ledger.Entries(), ledger.now, ids[i..], force, ec2), outcomes)
      decreases |ids| - i
    {
      EachStep(b0, ledger.Entries(), ledger.now, ids, i, force, ec2, outcomes);
      var outcome, _ := HandleDegradedInstance(ledger, ids[i], ec2(ids[i]), force);
      outcomes := outcomes + [outcome];
      if !outcome.Returns() {
        break;
      }
      i := i + 1;
    }
  }

  /**
   * `checkDegradedResult`: a failed scan panics before any run; otherwise
   * every reported instance is handled unforced, in order.
   */
  method CheckDegradedResult(ledger: Ledger, scan: Scan, ec2: string -> Ec2Script)
    returns (panicked: bool, outcomes: seq<Outcome>)
    requires ledger.Valid()
    modifies ledger
    ensures ledger.Valid()
    ensures panicked <==> scan.ScanFailed?
    ensures panicked ==> outcomes == [] && ledger.Entries() == old(ledger.Entries()) && ledger.now == old(ledger.now)
    ensures !panicked ==>
      var b := HandleAll(old(ledger.Entries()), old(ledger.now), scan.instanceIds, false, ec2);
      ledger.Entries() == b.entries && ledger.now == b.now && outcomes == b.outcomes
  {
    match scan {
      case ScanFailed =>
        return true, [];
      case Found(ids) =>
        panicked := false;
        outcomes := HandleEach(ledger, ids, false, ec2);
    }
  }

  /**
   * The startup recovery in `main`: lists the ledger's ids and handles each
   * one forced. When EC2 succeeds for every listed instance, the ledger ends
   * empty.
   */
  method RecoverPreviousSession(ledger: Ledger, ec2: string -> Ec2Script)
    returns (ids: seq<string>, outcomes: seq<Outcome>)
    requires ledger.Valid()
    modifies ledger
    ensures ledger.Valid()
    ensures forall id :: id in ids <==> id in old(ledger.Entries())
    ensures |ids| == |old(ledger.Entries())|
    ensures var b := HandleAll(old(ledger.Entries()), old(ledger.now), ids, true, ec2);
      ledger.Entries() == b.entries && ledger.now == b.now && outcomes == b.outcomes
    ensures (forall id :: id in old(ledger.Entries()) ==> Succeeds(ec2(id))) ==>
      ledger.Entries() == map[] && |outcomes| == |ids| && forall o :: o in outcomes ==> o == Completed
  {
    ghost var e0, n0 := ledger.Entries(), ledger.now;
    ids := ledger.GetPreviousSessionUnfinishTasks();
    outcomes := HandleEach(ledger, ids, true, ec2);
    if forall id :: id in e0 ==> Succeeds(ec2(id)) {
      RecoveryClears(e0, n0, ids, ec2);
    }
  }

  /**
   * A scan reports `i-001` and the ledger is empty: the instance is claimed,
   * stopped, refreshed by one heartbeat while waiting, started and removed,
   * leaving the ledger empty.
   */
  lemma NewDegradedInstanceScenario()
    ensures var ec2 := (id: string) => Ec2Script(true, [Tick(1120), WaitOk], true);
      HandleAll(map[], 1000, ["i-001"], false, ec2)
      == Batch(map[], 1120, [Completed])
    ensures Handle(map[], 1000, "i-001", false, Ec2Script(true, [Tick(1120), WaitOk], true)).steps
      == [Claim(1000), StopCall, WaitCall, Heartbeat(1120), StartCall, Delete]
  {
  }

  /**
   * An entry last refreshed an hour ago: the forced recovery run drives it
   * through the whole cycle and clears it, while an unforced run from a scan
   * skips it, since the handling check reports entries older than 30 seconds.
   */
  lemma StaleEntryScenario()
    ensures var s := Ec2Script(true, [WaitErr, WaitOk], true);
      var ec2 := (_: string) => s;
      && HandleAll(map["i-777" := 1000 - 3600], 1000, ["i-777"], true, ec2)
         == Batch(map[], 1000, [Completed])
      && HandleAll(map["i-777" := 1000 - 3600], 1000, ["i-777"], false, ec2)
         == Batch(map["i-777" := 1000 - 3600], 1000, [Skipped])
  {
  }

  /**
   * An entry claimed at the current second does not stop an unforced run:
   * the instance is claimed and stopped again.
   */
  lemma FreshClaimScenario()
    ensures var s := Ec2Script(true, [], true);
      Handle(map["i-1" := 1000], 1000, "i-1", false, s)
      == Run(map["i-1" := 1000], 1000, StillWaiting, [Claim(1000), StopCall, WaitCall])
  {
  }
}
