/**
 * The processing ledger: the `processing_instance` table in which the daemon
 * records, for every EC2 instance it is remediating, the epoch second of the
 * last heartbeat (`last_update_time`). A row's presence means "a stop/start
 * cycle for this instance is believed to be in flight".
 *
 * The table is a sequence of rows in insertion order; the UNIQUE constraint on
 * `instance_id` is the invariant `UniqueIds`, and `View` reads the table as a
 * map from instance id to last update time.
 */
module ProcessingLedger {

  /** Age, in seconds, above which the handling query reports a row. */
  const InstanceNotUpdateSec: int := 30

  /** One row of the table: its `instance_id` and `last_update_time` columns. */
  datatype Row = Row(instanceId: string, lastUpdateTime: int)

  /** The UNIQUE constraint on `instance_id`. */
  predicate UniqueIds(table: seq<Row>)
  {
    forall i, j :: 0 <= i < j < |table| ==> table[i].instanceId != table[j].instanceId
  }

  /** The instance ids that occur in the table. */
  function Ids(table: seq<Row>): (r: set<string>)
  {
    set r | r in table :: r.instanceId
  }

  /** The table after `DELETE ... WHERE instance_id = id`: the other rows, in order. */
  function Without(table: seq<Row>, id: string): (r: seq<Row>)
  {
    if table == [] then []
    else if table[0].instanceId == id then Without(table[1..], id)
    else [table[0]] + Without(table[1..], id)
  }

  /** The table read as a map from `instance_id` to `last_update_time`. */
  function View(table: seq<Row>): (m: map<string, int>)
  {
    if table == [] then map[]
    else View(table[1..])[table[0].instanceId := table[0].lastUpdateTime]
  }

  /** The delete keeps exactly the rows of the other ids. */
  lemma {:induction false} WithoutRows(table: seq<Row>, id: string)
    ensures forall r :: r in Without(table, id) <==> r in table && r.instanceId != id
  {
    if table != [] {
      WithoutRows(table[1..], id);
      assert forall r :: r in table <==> r == table[0] || r in table[1..];
    }
  }

  /** The delete preserves the UNIQUE constraint. */
  lemma {:induction false} WithoutUnique(table: seq<Row>, id: string)
    requires UniqueIds(table)
    ensures UniqueIds(Without(table, id))
  {
    if table != [] {
      var rest := table[1..];
      WithoutUnique(rest, id);
      WithoutRows(rest, id);
      if table[0].instanceId != id {
        var w := Without(rest, id);
        forall r | r in w ensures r.instanceId != table[0].instanceId {
          var j :| 0 <= j < |rest| && rest[j] == r;
          assert table[j + 1] == r;
        }
        assert Without(table, id) == [table[0]] + w;
      }
    }
  }

  /** The view's keys are the ids that occur in the table. */
  lemma {:induction false} ViewKeys(table: seq<Row>)
    ensures View(table).Keys == Ids(table)
  {
    if table != [] {
      ViewKeys(table[1..]);
      assert forall r :: r in table <==> r == table[0] || r in table[1..];
    }
  }

  /** True iff the handling query (`now - last_update_time > 30`) returns a row for `id`. */
  predicate IsHandling(entries: map<string, int>, now: int, id: string)
  {
    id in entries && now - entries[id] > InstanceNotUpdateSec
  }

  /** Under the UNIQUE constraint, the view holds each row's own time. */
  lemma {:induction false} ViewAt(table: seq<Row>, i: int)
    requires UniqueIds(table)
    requires 0 <= i < |table|
    ensures table[i].instanceId in View(table)
    ensures View(table)[table[i].instanceId] == table[i].lastUpdateTime
  {
    if i > 0 {
      ViewAt(table[1..], i - 1);
    }
  }

  /** Deleting the rows of `id` removes exactly the key `id` from the view. */
  lemma {:induction false} ViewWithout(table: seq<Row>, id: string)
    ensures View(Without(table, id)) == View(table) - {id}
  {
    if table != [] {
      var h, rest := table[0], table[1..];
      ViewWithout(rest, id);
      if h.instanceId != id {
        var w := Without(rest, id);
        assert ([h] + w)[0] == h && ([h] + w)[1..] == w;
        assert View(table) == View(rest)[h.instanceId := h.lastUpdateTime];
        assert View([h] + w) == (View(rest) - {id})[h.instanceId := h.lastUpdateTime];
        UpdateRemoveCommute(View(rest), h.instanceId, h.lastUpdateTime, id);
      }
    }
  }

  /** Setting one key and removing another commute. */
  lemma UpdateRemoveCommute(m: map<string, int>, k: string, v: int, id: string)
    requires k != id
    ensures (m - {id})[k := v] == m[k := v] - {id}
  {
    var a, b := (m - {id})[k := v], m[k := v] - {id};
    assert a.Keys == b.Keys;
    forall x | x in a ensures a[x] == b[x] {
    }
  }

  /** Appending a row for a fresh id adds exactly that key to the view. */
  lemma {:induction false} ViewAppend(table: seq<Row>, r: Row)
    requires r.instanceId !in Ids(table)
    ensures View(table + [r]) == View(table)[r.instanceId := r.lastUpdateTime]
  {
    if table == [] {
    } else {
      assert (table + [r])[1..] == table[1..] + [r];
      assert table[0] in table;
      assert r.instanceId !in Ids(table[1..]) by {
        assert forall x :: x in table[1..] ==> x in table;
      }
      ViewAppend(table[1..], r);
    }
  }

  /**
   * `INSERT OR REPLACE` (delete the row of `id`, append a new one) keeps the
   * UNIQUE constraint and sets the view's entry for `id`, and only that one.
   */
  lemma Replace(table: seq<Row>, id: string, t: int)
    requires UniqueIds(table)
    ensures UniqueIds(Without(table, id) + [Row(id, t)])
    ensures View(Without(table, id) + [Row(id, t)]) == View(table)[id := t]
  {
    var kept := Without(table, id);
    WithoutRows(table, id);
    WithoutUnique(table, id);
    ViewWithout(table, id);
    assert forall i :: 0 <= i < |kept| ==> kept[i] in kept;
    ViewAppend(kept, Row(id, t));
  }

  /** Under the UNIQUE constraint the view has one entry per row. */
  lemma {:induction false} ViewSize(table: seq<Row>)
    requires UniqueIds(table)
    ensures |View(table)| == |table|
  {
    if table != [] {
      ViewSize(table[1..]);
      ViewKeys(table[1..]);
      assert table[0].instanceId !in Ids(table[1..]) by {
        forall r | r in table[1..] ensures r.instanceId != table[0].instanceId {
          var j :| 0 <= j < |table[1..]| && table[1..][j] == r;
          assert table[j + 1] == r;
        }
      }
    }
  }

  /**
   * The handling check as the query is written: a row claimed at time `t` is
   * reported only once MORE than 30 seconds have passed, so an absent id and
   * a claim made at the current second are never reported.
   */
  lemma ClaimStaleness(entries: map<string, int>, id: string, t: int, now: int)
    ensures !IsHandling(entries - {id}, now, id)
    ensures !IsHandling(entries[id := now], now, id)
    ensures IsHandling(entries[id := t], now, id) <==> now > t + InstanceNotUpdateSec
  {
  }

  /**
   * The ledger: the table's rows and the clock that `strftime('%s', 'now')`
   * reads. Every operation is one atomic method, as the database lock makes
   * it in the daemon.
   */
  class Ledger {
    var table: seq<Row>
    var now: int

    /** The table's integrity constraint. */
    ghost predicate Valid()
      reads this
    {
      UniqueIds(table)
    }

    /** What the table records, as a map from instance id to last update time. */
    ghost function Entries(): map<string, int>
      reads this
    {
      View(table)
    }

    /** Opens a table (possibly left over by a previous session) at clock `clock`. */
    constructor (rows: seq<Row>, clock: int)
      requires UniqueIds(rows)
      ensures Valid()
      ensures table == rows && now == clock
    {
      table := rows;
      now := clock;
    }

    /** Wall-clock time passes: the clock now reads `t`. */
    method SetClock(t: int)
      modifies this`now
      ensures now == t
    {
      now := t;
    }

    /** `INSERT OR REPLACE` of `(id, now)`: the old row for `id` goes, a new one is appended. */
    method UpdateInstanceTime(id: string)
      requires Valid()
      modifies this`table
      ensures Valid()
      ensures table == Without(old(table), id) + [Row(id, now)]
      ensures Entries() == old(Entries())[id := now]
    {
      Replace(table, id, now);
      table := Without(table, id) + [Row(id, now)];
    }

    /** True iff a row for `id` exists that is more than 30 seconds old; the table is not changed. */
    method IsInstanceHandling(id: string) returns (handling: bool)
      requires Valid()
      ensures handling == IsHandling(Entries(), now, id)
    {
      handling := exists i | 0 <= i < |table| ::
        table[i].instanceId == id && now - table[i].lastUpdateTime > InstanceNotUpdateSec;
      ViewKeys(table);
      if id in Entries() {
        var r :| r in table && r.instanceId == id;
        var i :| 0 <= i < |table| && table[i] == r;
        ViewAt(table, i);
        forall j | 0 <= j < |table| && table[j].instanceId == id ensures j == i {
        }
      }
    }

    /** The `instance_id` of every row, each once, in table order; the table is not changed. */
    method GetPreviousSessionUnfinishTasks() returns (ids: seq<string>)
      requires Valid()
      ensures |ids| == |Entries()|
      ensures forall id :: id in ids <==> id in Entries()
      ensures forall i, j :: 0 <= i < j < |ids| ==> ids[i] != ids[j]
    {
      ids := [];
      var i := 0;
      while i < |table|
        invariant 0 <= i <= |table|
        invariant |ids| == i
        invariant forall k :: 0 <= k < i ==> ids[k] == table[k].instanceId
      {
        ids := ids + [table[i].instanceId];
        i := i + 1;
      }
      ViewSize(table);
      ViewKeys(table);
      forall id ensures id in ids <==> id in Entries() {
        if id in Entries() {
          var r :| r in table && r.instanceId == id;
          var k :| 0 <= k < |table| && table[k] == r;
          assert ids[k] == id;
        }
      }
    }

    /** `DELETE ... WHERE instance_id = id`; deleting an absent id changes nothing. */
    method DeleteInstance(id: string)
      requires Valid()
      modifies this`table
      ensures Valid()
      ensures table == Without(old(table), id)
      ensures Entries() == old(Entries()) - {id}
      ensures id !in old(Entries()) ==> Entries() == old(Entries())
    {
      ViewWithout(table, id);
      WithoutUnique(table, id);
      table := Without(table, id);
    }
  }
}
