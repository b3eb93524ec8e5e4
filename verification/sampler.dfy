/**
 The sampling loop of the sensor writer: every reading is appended to the
 pending batch, and once the batch holds 100 readings it is inserted with
 `INSERT OR IGNORE` and cleared. The endless loop is modelled as a step
 function folded over a finite sequence of readings; the sensor, the clock
 and the pacing sleep are outside the model, so readings arrive as inputs.
 */
module Sampler {
  import opened SensorStore

  /** The batch size at which the loop commits. */
  const BatchCapacity: nat := 100

  /** The loop's state between iterations: the table and the pending batch. */
  datatype Loop = Loop(store: Store, batch: seq<Reading>)

  /** A reading is safe in `l`: still pending, or its timestamp is stored. */
  predicate Covered(x: Reading, l: Loop) {
    x in l.batch || x.timestamp in l.store
  }

  /**
   One iteration: append the reading, and flush the batch into the table
   when it has reached the capacity.
   */
  function Step(l: Loop, reading: Reading): (r: Loop)
    ensures |r.batch| < BatchCapacity
    ensures r.batch == [] <==> |l.batch| + 1 >= BatchCapacity
    ensures r.batch != [] ==> r.batch == l.batch + [reading] && r.store == l.store
    ensures forall k :: k in l.store ==> k in r.store && r.store[k] == l.store[k]
    ensures forall x :: x in l.batch + [reading] ==> Covered(x, r)
  {
    var pending := l.batch + [reading];
    if |pending| >= BatchCapacity then
      var flushed := InsertBatch(l.store, pending).store;
      InsertBatchSpec(l.store, pending);
      KeySetCovers(pending);
      Loop(flushed, [])
    else
      Loop(l.store, pending)
  }

  /** The loop after processing `readings` in order, starting from `l`. */
  function Run(l: Loop, readings: seq<Reading>): (r: Loop)
    ensures |readings| > 0 ==> |r.batch| < BatchCapacity
    ensures |readings| == 0 ==> r == l
    ensures forall k :: k in l.store ==> k in r.store && r.store[k] == l.store[k]
    ensures forall x :: x in l.batch + readings ==> Covered(x, r)
  {
    if |readings| == 0 then l
    else
      var init, last := readings[..|readings| - 1], readings[|readings| - 1];
      var prev := Run(l, init);
      var next := Step(prev, last);
      SplitLast(l.batch, readings);
      next
  }

  lemma SplitLast(front: seq<Reading>, readings: seq<Reading>)
    requires |readings| > 0
    ensures forall x :: x in front + readings ==>
      x in front + readings[..|readings| - 1] || x == readings[|readings| - 1]
  {
    assert front + readings == (front + readings[..|readings| - 1]) + [readings[|readings| - 1]];
  }

  /**
   How many of the readings `all` a loop started on them has committed: the
   largest multiple of the capacity not above `|all|`.
   */
  function FlushedCount(all: seq<Reading>): (n: nat)
    ensures n % BatchCapacity == 0
    ensures n <= |all| < n + BatchCapacity
  {
    WholeBatches(|all|)
  }

  function WholeBatches(n: nat): (w: nat)
    ensures w % BatchCapacity == 0
    ensures w <= n < w + BatchCapacity
  {
    if n < BatchCapacity then 0 else BatchCapacity + WholeBatches(n - BatchCapacity)
  }

  /**
   From a state whose batch is below capacity, the loop has committed
   exactly the longest prefix of the pending and new readings whose length
   is a multiple of 100, and still holds the rest: of `n` readings only the
   last `n % 100` are at risk.
   */
  lemma {:induction false} RunCommitsWholeBatches(l: Loop, readings: seq<Reading>)
    requires |l.batch| < BatchCapacity
    ensures Committed(l.store, l.batch + readings, Run(l, readings))
  {
    if |readings| == 0 {
      assert l.batch + readings == l.batch;
      assert l.batch[..0] == [];
    } else {
      var init, last := readings[..|readings| - 1], readings[|readings| - 1];
      assert readings == init + [last];
      assert l.batch + readings == (l.batch + init) + [last];
      RunCommitsWholeBatches(l, init);
      RunSnoc(l, init, last);
      StepCommits(l.store, l.batch + init, last, Run(l, init));
    }
  }

  /**
   `l` holds, of the readings `all` seen so far, the uncommitted tail in its
   batch, and in its table what inserting the committed prefix into `s`
   yields.
   */
  predicate Committed(s: Store, all: seq<Reading>, l: Loop) {
    && l.batch == all[FlushedCount(all)..]
    && l.store == InsertBatch(s, all[..FlushedCount(all)]).store
  }

  lemma RunSnoc(l: Loop, init: seq<Reading>, last: Reading)
    ensures Run(l, init + [last]) == Step(Run(l, init), last)
  {
    assert (init + [last])[..|init|] == init;
  }

  /** One more reading either completes a batch or extends the tail by one. */
  lemma {:induction false} WholeBatchesStep(n: nat)
    ensures n - WholeBatches(n) == BatchCapacity - 1 ==> WholeBatches(n + 1) == n + 1
    ensures n - WholeBatches(n) != BatchCapacity - 1 ==> WholeBatches(n + 1) == WholeBatches(n)
  {
    if n >= BatchCapacity {
      WholeBatchesStep(n - BatchCapacity);
    }
  }

  /** One more reading keeps the committed-prefix description true. */
  lemma StepCommits(s: Store, before: seq<Reading>, last: Reading, prev: Loop)
    requires Committed(s, before, prev)
    ensures Committed(s, before + [last], Step(prev, last))
  {
    FlushedCountSnoc(before, last);
    if |before| - FlushedCount(before) == BatchCapacity - 1 {
      var committed := before[..FlushedCount(before)];
      StepFlushes(s, committed, prev, last);
      StepCommitsFlush(s, before, last, prev, Step(prev, last));
    } else {
      StepKeeps(prev, last);
      StepCommitsKeep(s, before, last, prev, Step(prev, last));
    }
  }

  /** How the committed count moves when one more reading arrives. */
  lemma FlushedCountSnoc(before: seq<Reading>, last: Reading)
    ensures |before| - FlushedCount(before) == BatchCapacity - 1 ==>
      FlushedCount(before + [last]) == |before| + 1
    ensures |before| - FlushedCount(before) != BatchCapacity - 1 ==>
      FlushedCount(before + [last]) == FlushedCount(before)
  {
    WholeBatchesStep(|before|);
  }

  /** The reading that completes a batch commits everything seen so far. */
  lemma StepCommitsFlush(s: Store, before: seq<Reading>, last: Reading, prev: Loop, next: Loop)
    requires Committed(s, before, prev)
    requires FlushedCount(before + [last]) == |before| + 1
    requires next == Loop(InsertBatch(s, before[..FlushedCount(before)] + (prev.batch + [last])).store, [])
    ensures Committed(s, before + [last], next)
  {
    SplitAtCommitted(before, last, FlushedCount(before));
  }

  lemma SplitAtCommitted(before: seq<Reading>, last: Reading, cut: nat)
    requires cut <= |before|
    ensures before[..cut] + (before[cut..] + [last]) == before + [last]
    ensures (before + [last])[..|before| + 1] == before + [last]
    ensures (before + [last])[|before| + 1..] == []
  {
  }

  /** Completing a batch inserts it after the readings committed before. */
  lemma StepFlushes(s: Store, committed: seq<Reading>, prev: Loop, last: Reading)
    requires prev.store == InsertBatch(s, committed).store
    requires |prev.batch| + 1 == BatchCapacity
    ensures Step(prev, last) == Loop(InsertBatch(s, committed + (prev.batch + [last])).store, [])
  {
    InsertBatchConcat(s, committed, prev.batch + [last]);
  }

  /** A reading that does not complete a batch only joins the batch. */
  lemma StepCommitsKeep(s: Store, before: seq<Reading>, last: Reading, prev: Loop, next: Loop)
    requires Committed(s, before, prev)
    requires FlushedCount(before + [last]) == FlushedCount(before)
    requires next == Loop(prev.store, prev.batch + [last])
    ensures Committed(s, before + [last], next)
  {
    SplitBeforeCut(before, last, FlushedCount(before));
  }

  lemma SplitBeforeCut(before: seq<Reading>, last: Reading, cut: nat)
    requires cut <= |before|
    ensures (before + [last])[..cut] == before[..cut]
    ensures (before + [last])[cut..] == before[cut..] + [last]
  {
  }

  lemma StepKeeps(prev: Loop, last: Reading)
    requires |prev.batch| + 1 < BatchCapacity
    ensures Step(prev, last) == Loop(prev.store, prev.batch + [last])
  {
  }

  /** The empty table with an empty batch, where the writer starts. */
  function Fresh(): Loop {
    Loop(map[], [])
  }

  /**
   Started fresh, every reading outside the last incomplete batch has its
   timestamp in the table.
   */
  lemma FreshRunStoresCompleteBatches(readings: seq<Reading>)
    ensures forall i :: 0 <= i < FlushedCount(readings) ==>
              readings[i].timestamp in Run(Fresh(), readings).store
  {
    assert Fresh().batch + readings == readings;
    RunCommitsWholeBatches(Fresh(), readings);
    StoredPrefix(readings, FlushedCount(readings), Run(Fresh(), readings).store);
  }

  /** A table that is the fresh insert of a prefix holds every timestamp of it. */
  lemma StoredPrefix(readings: seq<Reading>, n: nat, store: Store)
    requires n <= |readings|
    requires store == InsertBatch(map[], readings[..n]).store
    ensures forall i :: 0 <= i < n ==> readings[i].timestamp in store
  {
    var committed := readings[..n];
    InsertBatchSpec(map[], committed);
    KeySetCovers(committed);
    forall i | 0 <= i < n
      ensures readings[i].timestamp in store
    {
      assert committed[i] in committed;
    }
  }
}
