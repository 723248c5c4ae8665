# EC2 degraded-instance restarter: processing ledger and remediation sequence

This project models the coordination core of a daemon that restarts EC2
instances running on degraded hardware. For each such instance the daemon
stops it, waits until it is stopped, and starts it again. It keeps a SQLite
table, `processing_instance`, as its ledger. The ledger has one row per
instance under remediation, holding the epoch second of the last heartbeat
(`last_update_time`).

The model has three modules.

- `ProcessingLedger` (ledger.dfy) models the table. The table is a sequence
  of rows. The UNIQUE constraint on `instance_id` is the invariant
  `UniqueIds`, and `View` reads the table as a map from instance id to last
  update time. The class `Ledger` holds the rows and the clock that
  `strftime('%s', 'now')` reads. Its four operations are methods. Each is
  proved to keep the constraint and to have the intended effect on the map.
- `Remediation` (remediation.dfy) models `handleDegradedInstance` and the wait
  loop of `waitForInstanceStop`.
  - EC2 becomes a script of answers (`Ec2Script`): the stop call succeeds or
    fails, the wait loop receives a finite sequence of events, and the start
    call succeeds or fails.
  - The wait events are `WaitErr`, `WaitOk` and `Tick(at)`: a wait error, a nil
    wait result, and the 2-minute timer firing with the clock at `at`.
  - A `log.Fatalf` becomes the outcome `Aborted`.
  - A wait that never sees `WaitOk` ends as `StillWaiting`.
  - The pure functions `Wait` and `Handle` specify a run on the ledger's map.
    The methods `WaitForInstanceStop` and `HandleDegradedInstance` carry the
    run out step by step on a `Ledger` and are proved equal to those
    functions.
  - A run also returns its `Step` trace, so that lemmas can state the order of
    its effects.
- `Dispatch` (dispatch.dfy) models the two loops that call
  `handleDegradedInstance`, both run one call after another:
  - the poll step `checkDegradedResult` (unforced);
  - the startup recovery in `main` (forced, over every id left in the ledger).

  The source comment at line 241 says that only one process of the program
  runs, and the model relies on that.

The handling check is modelled as the query is written. The comment at
line 86 says the check reports an instance whose row exists and was updated
recently. The query at line 39, with the threshold of line 27, instead
reports a row that is MORE than 30 seconds old. So an unforced run:

- skips an instance whose entry is stale;
- goes ahead (claims and stops again) for an instance claimed within the last
  30 seconds, or not claimed at all.

`ClaimStaleness`, `StaleEntryScenario` and `FreshClaimScenario` state this
behaviour. The heartbeat interval is 2 minutes, while the threshold is 30
seconds. So between two heartbeats of a run that is still waiting, its entry
is reported as handled for most of the interval.

## Model

| member | source | states |
|---|---|---|
| `ProcessingLedger.Replace` | ec2_degraded_instances_restarter.go:28-38 | INSERT OR REPLACE of `(id, t)` keeps the UNIQUE constraint on `instance_id`, sets the entry of `id` to `t` and leaves every other entry as it was |
| `ProcessingLedger.ViewWithout` | ec2_degraded_instances_restarter.go:41 | deleting the rows of `id` removes exactly the key `id` from the table's map, whether or not it was there |
| `ProcessingLedger.ClaimStaleness` | ec2_degraded_instances_restarter.go:39 | the handling query never reports an absent id, or an id claimed at the current second; for an entry claimed at `t` it reports the id iff `now > t + 30` |
| `ProcessingLedger.Ledger.constructor` | ec2_degraded_instances_restarter.go:28-37 | the ledger opens on a table that satisfies the UNIQUE constraint, possibly one left by a previous session |
| `ProcessingLedger.Ledger.UpdateInstanceTime` | ec2_degraded_instances_restarter.go:66-78 | the old row of `id` is replaced by `(id, now)` appended at the end; the constraint holds afterwards; the map gains or updates exactly the entry of `id`, which now holds `now` |
| `ProcessingLedger.Ledger.IsInstanceHandling` | ec2_degraded_instances_restarter.go:80-96 | true iff some row for `id` has `now - last_update_time > 30`, which under the constraint is the map-level `IsHandling`; it changes nothing (no modifies clause) |
| `ProcessingLedger.Ledger.GetPreviousSessionUnfinishTasks` | ec2_degraded_instances_restarter.go:98-121 | returns every id in the ledger, each exactly once, nothing else, as many ids as entries; it changes nothing |
| `ProcessingLedger.Ledger.DeleteInstance` | ec2_degraded_instances_restarter.go:123-133 | no entry for `id` remains, every other entry is kept, and deleting an absent id leaves the ledger as it was |
| `Remediation.Wait` | ec2_degraded_instances_restarter.go:174-194 | the wait loop ends iff a `WaitOk` arrives; it consumes the events up to and including the first `WaitOk`, or all events if none arrives |
| `Remediation.WaitSteps` | ec2_degraded_instances_restarter.go:177-193 | the loop makes one step per consumed event other than the final `WaitOk`, in order: step k is a relaunch of the wait when event k is `WaitErr`, and a heartbeat at time `t` when event k is `Tick(t)` |
| `Remediation.WaitFrame` | ec2_degraded_instances_restarter.go:189-193 | the wait loop changes no entry but that of `id`, and never removes it |
| `Remediation.WaitHeartbeat` | ec2_degraded_instances_restarter.go:177-193 | if no tick arrives before the first `WaitOk`, the loop leaves ledger and clock unchanged; otherwise the clock holds the reading of the last such tick and the entry of `id` holds that clock, so every tick refreshes the entry |
| `Remediation.WaitEntryAtClock` | ec2_degraded_instances_restarter.go:189-193 | an entry of `id` that holds the current clock before the wait loop (the claim) still holds the clock when the loop ends, whatever the events |
| `Remediation.WaitHeartbeatLater` | ec2_degraded_instances_restarter.go:189-193 | if every tick reads a clock later than the claim, a wait that received a tick before the first `WaitOk` leaves the entry strictly later than the claim |
| `Remediation.WaitForInstanceStop` | ec2_degraded_instances_restarter.go:164-195 | the loop launches the wait once, then consumes events exactly as `Wait` does and brings ledger and clock to `Wait`'s result |
| `Remediation.HandleSkip` | ec2_degraded_instances_restarter.go:136-139 | a run is skipped iff it is not forced and the handling check reports the id; a skipped run leaves the ledger unchanged and issues no stop or start |
| `Remediation.HandleFrame` | ec2_degraded_instances_restarter.go:135-162 | a run changes no other id's entry; the id's entry is gone after a completed run and present after an aborted or still-waiting one |
| `Remediation.HandleCompletes` | ec2_degraded_instances_restarter.go:141-161 | a run that goes ahead, with stop ok, a `WaitOk` among the wait events and start ok, completes and removes exactly the id's entry |
| `Remediation.HandleAborts` | ec2_degraded_instances_restarter.go:147-160 | a rejected stop aborts with the claim left in the ledger; a rejected start aborts with other entries unchanged and the entry of `id` at the current clock: the reading of the last tick received before `WaitOk`, or the claim time if there was none; neither deletes |
| `Remediation.HandleOrder` | ec2_degraded_instances_restarter.go:141-161 | the claim comes first and the stop call second; the start call comes only after the wait loop saw `WaitOk`; the delete happens only on completion and is the very last step |
| `Remediation.HandleDegradedInstance` | ec2_degraded_instances_restarter.go:135-162 | the method's outcome, step trace, ledger and clock are exactly those of `Handle` on the old ledger and clock |
| `Dispatch.HandleAll` | ec2_degraded_instances_restarter.go:224-227 | a batch makes at most one run per list entry (a repeated id gets one run per occurrence); every run but the last returns, and the batch ends early only after a run that does not return |
| `Dispatch.HandleAllFrame` | ec2_degraded_instances_restarter.go:224-227 | a batch changes no entry of an id outside its list |
| `Dispatch.HandleAllSucceeds` | ec2_degraded_instances_restarter.go:224-227 | when EC2 succeeds for each id, and the runs are forced or no listed id has an entry yet, every run completes |
| `Dispatch.HandleAllRemoves` | ec2_degraded_instances_restarter.go:224-227 | under the same conditions the batch removes exactly the listed ids from the ledger |
| `Dispatch.RecoveryClears` | ec2_degraded_instances_restarter.go:243-250 | forced runs over a listing of exactly the ledger's ids, with EC2 succeeding for each, complete them all and leave the ledger empty |
| `Dispatch.HandleEach` | ec2_degraded_instances_restarter.go:224-227 | the loop makes the runs of `HandleAll` in order, stopping after the first that does not return |
| `Dispatch.CheckDegradedResult` | ec2_degraded_instances_restarter.go:218-229 | a failed scan panics with the ledger untouched; otherwise every reported instance is handled unforced, as `HandleAll` says |
| `Dispatch.RecoverPreviousSession` | ec2_degraded_instances_restarter.go:241-250 | lists each of the ledger's ids once and handles each one forced; when EC2 succeeds for all of them, every run completes and the ledger ends empty |
| `Dispatch.NewDegradedInstanceScenario` | ec2_degraded_instances_restarter.go:135-162 | an unclaimed instance reported by a scan is claimed, stopped, refreshed once, started and removed, leaving the ledger empty |
| `Dispatch.StaleEntryScenario` | ec2_degraded_instances_restarter.go:137-139 | a batch over an entry an hour old: dispatched forced, as the startup recovery does, it completes and clears the ledger; dispatched unforced, as after a scan, it is skipped and the ledger is unchanged |
| `Dispatch.FreshClaimScenario` | ec2_degraded_instances_restarter.go:86-93 | an entry claimed at the current second does not stop an unforced run: the instance is claimed and stopped again |

## Left out

- Database plumbing is I/O and schema setup, so it is not modelled: `openDbConnection`, opening and closing connections, and `createTable` with its check for an already existing table (lines 44-64). The autoincrement `id` column, the `create_time` column and the index are also left out, since nothing reads them.
- A failing SQL statement or row scan in the ledger operations ends the process with `log.Fatalf`. The model assumes the database is always available.
- `db_write_lock` (line 18) and all goroutines are concurrency machinery. Each ledger operation is one atomic method.
- In `waitForInstanceStop`, the channel and the `select` with `time.After` (lines 167-194) become a supplied sequence of wait events.
- The `go` fan-out in `main` (lines 249 and 257) is concurrency, so both dispatch loops run one call after another. So in the model, a wait that never ends also stops the remaining recovery runs, while in the daemon it blocks only its own goroutine. An abort stops every run in both: `log.Fatalf` (lines 149 and 159) exits the whole process. But in the daemon the other runs are interleaved with the aborting one, so they may be left half done, for example claimed and stopped but not started. The model does not capture this interleaving.
- The goroutine at line 249 receives `&instanceId`, the address of the loop variable. Under the loop-variable semantics of Go before 1.22, every recovery goroutine may read the same, last id, so the other ids left in the ledger would not be recovered. The sequential model hands each run its own id, so `RecoveryClears` does not capture this. The unclosed `rows` at line 91 is a resource detail outside the model.
- AWS calls are remote services, so they are parameters:
  - `getEc2Service`, `getDegradedEventFilterRequest` and the `DescribeInstanceStatus` call (lines 197-221) become the `Scan` value passed to `CheckDegradedResult`;
  - `StopInstances`, `StartInstances` and `WaitUntilInstanceStopped` become the `Ec2Script` of each instance.
- The endless poll loop in `main` with its 10-minute sleep, the `DB_LOC` environment lookup and all printing (lines 231-260) are bootstrap and I/O.
- Real time is not modelled. The clock changes only when a `Tick` event brings its new reading. The model does not check that ticks come 2 minutes apart, and it does not model that `time.After` is restarted on every pass of the `select`.
- `GetPreviousSessionUnfinishTasks` lists the ids in table order. The query has no `ORDER BY`, so its order is unspecified; in practice SQLite answers it from the index of the UNIQUE column and returns the ids sorted by `instance_id`. The model only promises that each id is listed once.
