/**
 The `sensor_readings` table and the batch insert of the sensor writer. The
 table's primary key is the timestamp, so the table is modelled as a map
 from timestamp to value; every batch row goes through `INSERT OR IGNORE`,
 one row after the other, so a row whose timestamp is already present is
 skipped and never overwrites what is stored.
 */
module SensorStore {
  import opened Seqs

  /** `timestamp INTEGER PRIMARY KEY` to `value REAL NOT NULL`. */
  type Store = map<int, real>

  /** One batch row `(timestamp, value)`. */
  datatype Reading = Reading(timestamp: int, value: real)

  /** The table after an insert, and the number of rows that insert added. */
  datatype InsertOutcome = InsertOutcome(store: Store, inserted: nat)

  function Timestamps(batch: seq<Reading>): seq<int> {
    seq(|batch|, i requires 0 <= i < |batch| => batch[i].timestamp)
  }

  /** The timestamps that occur in a batch. */
  function KeySet(batch: seq<Reading>): set<int> {
    set k | k in Timestamps(batch)
  }

  /** The value of the first row of `batch` with timestamp `k`. */
  function FirstValue(batch: seq<Reading>, k: int): real
    requires k in Timestamps(batch)
  {
    batch[IndexOf(Timestamps(batch), k)].value
  }

  /** `INSERT OR IGNORE` of one more row after an insert that produced `o`. */
  function InsertOrIgnore(o: InsertOutcome, row: Reading): InsertOutcome {
    if row.timestamp in o.store then o
    else InsertOutcome(o.store[row.timestamp := row.value], o.inserted + 1)
  }

  /**
   One `INSERT OR IGNORE`: afterwards the row's timestamp is stored, a value
   already stored under it is never overwritten, no other key changes, and
   the count grows by one exactly when the timestamp was new.
   */
  lemma InsertOrIgnoreSpec(o: InsertOutcome, row: Reading)
    ensures InsertOrIgnore(o, row).store.Keys == o.store.Keys + {row.timestamp}
    ensures forall k :: k in o.store ==> InsertOrIgnore(o, row).store[k] == o.store[k]
    ensures row.timestamp !in o.store ==> InsertOrIgnore(o, row).store[row.timestamp] == row.value
    ensures InsertOrIgnore(o, row).inserted == if row.timestamp in o.store then o.inserted else o.inserted + 1
  {
  }

  /**
   `after` is the table that inserting `batch` into `s` row by row with
   `INSERT OR IGNORE` leaves: stored values are untouched, every batch
   timestamp ends up stored, and a new timestamp takes the value of its
   first row in the batch.
   */
  ghost predicate StoredAsIgnoring(s: Store, batch: seq<Reading>, after: Store) {
    && (forall k :: k in s ==> k in after && after[k] == s[k])
    && after.Keys == s.Keys + KeySet(batch)
    && (forall k :: k in after && k !in s ==>
          k in Timestamps(batch) && after[k] == FirstValue(batch, k))
  }

  /**
   `insert_batch`: the rows of `batch` inserted in order with
   `INSERT OR IGNORE`, and the number of rows the insert added.
   */
  function InsertBatch(s: Store, batch: seq<Reading>): InsertOutcome {
    if |batch| == 0 then InsertOutcome(s, 0)
    else InsertOrIgnore(InsertBatch(s, batch[..|batch| - 1]), batch[|batch| - 1])
  }

  /**
   What `insert_batch` leaves behind: stored values are untouched, the
   table gains exactly the batch timestamps, a new timestamp takes the value
   of its first row in the batch, and the count is the number of distinct
   timestamps that were new.
   */
  lemma {:induction false} InsertBatchSpec(s: Store, batch: seq<Reading>)
    ensures forall k :: k in s ==>
              k in InsertBatch(s, batch).store && InsertBatch(s, batch).store[k] == s[k]
    ensures InsertBatch(s, batch).store.Keys == s.Keys + KeySet(batch)
    ensures forall k :: k in InsertBatch(s, batch).store && k !in s ==>
              k in Timestamps(batch) && InsertBatch(s, batch).store[k] == FirstValue(batch, k)
    ensures InsertBatch(s, batch).inserted == |KeySet(batch) - s.Keys|
  {
    if |batch| == 0 {
      assert KeySet(batch) == {};
    } else {
      var init, last := batch[..|batch| - 1], batch[|batch| - 1];
      assert batch == init + [last];
      InsertBatchSpec(s, init);
      var prev := InsertBatch(s, init);
      assert StoredAsIgnoring(s, init, prev.store);
      if last.timestamp in prev.store {
        StoreAfterOld(s, init, last, prev.store);
        CountAfterOld(s, init, last, prev.store);
      } else {
        StoreAfterNew(s, init, last, prev.store);
        CountAfterNew(s, init, last, prev.store);
      }
    }
  }

  /** A row whose timestamp is already stored leaves the table as it is. */
  lemma StoreAfterOld(s: Store, init: seq<Reading>, last: Reading, prev: Store)
    requires StoredAsIgnoring(s, init, prev)
    requires last.timestamp in prev
    ensures StoredAsIgnoring(s, init + [last], prev)
  {
    var batch := init + [last];
    TimestampsSnoc(init, last);
    forall k | k in prev && k !in s
      ensures k in Timestamps(batch) && prev[k] == FirstValue(batch, k)
    {
      FirstValuePrefix(init, last, k);
    }
  }

  /** A row whose timestamp is already stored adds nothing to the count. */
  lemma CountAfterOld(s: Store, init: seq<Reading>, last: Reading, prev: Store)
    requires prev.Keys == s.Keys + KeySet(init)
    requires last.timestamp in prev
    ensures KeySet(init + [last]) - s.Keys == KeySet(init) - s.Keys
  {
    TimestampsSnoc(init, last);
  }

  /** A row with a new timestamp adds exactly that timestamp with its value. */
  lemma StoreAfterNew(s: Store, init: seq<Reading>, last: Reading, prev: Store)
    requires StoredAsIgnoring(s, init, prev)
    requires last.timestamp !in prev
    ensures StoredAsIgnoring(s, init + [last], prev[last.timestamp := last.value])
  {
    var batch := init + [last];
    var t := last.timestamp;
    var next := prev[t := last.value];
    TimestampsSnoc(init, last);
    forall k | k in next && k !in s
      ensures k in Timestamps(batch) && next[k] == FirstValue(batch, k)
    {
      if k == t {
        FirstValueLast(init, last);
      } else {
        FirstValuePrefix(init, last, k);
      }
    }
  }

  /** A row with a new timestamp adds one to the count. */
  lemma CountAfterNew(s: Store, init: seq<Reading>, last: Reading, prev: Store)
    requires prev.Keys == s.Keys + KeySet(init)
    requires last.timestamp !in prev
    ensures |KeySet(init + [last]) - s.Keys| == |KeySet(init) - s.Keys| + 1
  {
    TimestampsSnoc(init, last);
    assert KeySet(init + [last]) - s.Keys == (KeySet(init) - s.Keys) + {last.timestamp};
  }

  /** Appending a row does not change the first value of an earlier timestamp. */
  lemma FirstValuePrefix(init: seq<Reading>, last: Reading, k: int)
    requires k in Timestamps(init)
    ensures k in Timestamps(init + [last])
    ensures FirstValue(init + [last], k) == FirstValue(init, k)
  {
    var batch := init + [last];
    TimestampsSnoc(init, last);
    IndexOfPrefix(Timestamps(batch), |init|);
  }

  /** The first value of a timestamp new to the batch is that of its row. */
  lemma FirstValueLast(init: seq<Reading>, last: Reading)
    requires last.timestamp !in Timestamps(init)
    ensures last.timestamp in Timestamps(init + [last])
    ensures FirstValue(init + [last], last.timestamp) == last.value
  {
    var batch := init + [last];
    TimestampsSnoc(init, last);
    var i := IndexOf(Timestamps(batch), last.timestamp);
  }

  /** Every row's timestamp is among the batch's timestamps. */
  lemma KeySetCovers(batch: seq<Reading>)
    ensures forall x :: x in batch ==> x.timestamp in KeySet(batch)
  {
    forall x | x in batch
      ensures x.timestamp in KeySet(batch)
    {
      var i :| 0 <= i < |batch| && batch[i] == x;
      assert Timestamps(batch)[i] == x.timestamp;
    }
  }

  /** Timestamps of a batch with one more row at the end. */
  lemma TimestampsSnoc(batch: seq<Reading>, row: Reading)
    ensures Timestamps(batch + [row]) == Timestamps(batch) + [row.timestamp]
    ensures Timestamps(batch + [row])[..|batch|] == Timestamps(batch)
    ensures KeySet(batch + [row]) == KeySet(batch) + {row.timestamp}
  {
    assert Timestamps(batch + [row]) == Timestamps(batch) + [row.timestamp];
  }

  /**
   Replaying a batch is harmless: the second insert leaves the table as the
   first one left it and reports no new rows.
   */
  lemma InsertBatchIdempotent(s: Store, batch: seq<Reading>)
    ensures InsertBatch(InsertBatch(s, batch).store, batch) ==
            InsertOutcome(InsertBatch(s, batch).store, 0)
  {
    var once := InsertBatch(s, batch).store;
    var twice := InsertBatch(once, batch);
    InsertBatchSpec(s, batch);
    InsertBatchSpec(once, batch);
    assert KeySet(batch) - once.Keys == {};
    SameStore(twice.store, once);
  }

  /** Two tables with the same timestamps and the same values are equal. */
  lemma SameStore(a: Store, b: Store)
    requires a.Keys == b.Keys
    requires forall k :: k in b ==> a[k] == b[k]
    ensures a == b
  {
    forall k | k in a
      ensures k in b && a[k] == b[k]
    {
      assert k in a.Keys;
    }
    assert a.Keys == b.Keys;
  }

  /**
   Inserting two batches one after the other is inserting their
   concatenation, and the counts add up.
   */
  lemma {:induction false} InsertBatchConcat(s: Store, a: seq<Reading>, b: seq<Reading>)
    ensures InsertBatch(InsertBatch(s, a).store, b).store == InsertBatch(s, a + b).store
    ensures InsertBatch(s, a).inserted + InsertBatch(InsertBatch(s, a).store, b).inserted ==
            InsertBatch(s, a + b).inserted
    decreases |b|
  {
    if |b| == 0 {
      assert a + b == a;
    } else {
      var init, last := b[..|b| - 1], b[|b| - 1];
      assert b == init + [last];
      assert a + b == (a + init) + [last];
      InsertBatchConcat(s, a, init);
      InsertBatchSnoc(InsertBatch(s, a).store, init, last);
      InsertBatchSnoc(s, a + init, last);
    }
  }

  /** A batch with one more row is the shorter batch followed by that row. */
  lemma InsertBatchSnoc(s: Store, init: seq<Reading>, last: Reading)
    ensures InsertBatch(s, init + [last]) == InsertOrIgnore(InsertBatch(s, init), last)
  {
    assert (init + [last])[..|init|] == init;
  }

  /**
   A batch of distinct timestamps none of which is stored yet is inserted
   whole: the count is the batch length.
   */
  lemma InsertFreshBatchCount(s: Store, batch: seq<Reading>)
    requires NoDuplicates(Timestamps(batch))
    requires forall i :: 0 <= i < |batch| ==> batch[i].timestamp !in s
    ensures InsertBatch(s, batch).inserted == |batch|
  {
    InsertBatchSpec(s, batch);
    assert KeySet(batch) - s.Keys == KeySet(batch);
    NoDuplicatesCardinality(Timestamps(batch));
    assert KeySet(batch) == Elements(Timestamps(batch));
  }

  /** The three rows of the writer's own example. */
  function ExampleBatch(): seq<Reading> {
    [Reading(1000, 23.5), Reading(1001, 24.1), Reading(1002, 23.8)]
  }

  /** On an empty table the example inserts three rows, and its replay none. */
  lemma ExampleBatchReplay()
    ensures InsertBatch(map[], ExampleBatch()).inserted == 3
    ensures InsertBatch(InsertBatch(map[], ExampleBatch()).store, ExampleBatch()).inserted == 0
  {
    var b := ExampleBatch();
    assert Timestamps(b) == [1000, 1001, 1002];
    InsertFreshBatchCount(map[], b);
    InsertBatchIdempotent(map[], b);
  }
}
