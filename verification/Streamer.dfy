/** Cyclic batching over the metric table. */
module Streamers {
  import opened Wrappers
  import opened Division

  // ----- the cursor as a function of the number of ticks -----

  /** Where the next batch starts, given the cursor and the table's size. */
  function Low(n: nat, cursor: nat): nat {
    if cursor >= n then 0 else cursor
  }

  function High(n: nat, b: nat, cursor: nat): nat {
    if Low(n, cursor) + b > n then n else Low(n, cursor) + b
  }

  function Cursor(n: nat, b: nat, ticks: nat): nat {
    if ticks == 0 then 0 else High(n, b, Cursor(n, b, ticks - 1))
  }

  /** Ticks in one pass over the table. */
  function Cycle(n: nat, b: nat): (m: nat)
    requires n > 0 && b > 0
    ensures m > 0 && b * (m - 1) < n <= b * m
  {
    var m := (n + b - 1) / b;
    assert n + b - 1 == b * m + (n + b - 1) % b;
    assert b * (m - 1) == b * m - b;
    m
  }

  /** Where batch p of a pass starts, and batch p - 1 ends. */
  function Edge(n: nat, b: nat, p: nat): (e: nat)
    ensures e <= n
  {
    if b * p < n then b * p else n
  }

  lemma Edges(n: nat, b: nat, p: nat)
    requires n > 0 && b > 0 && p < Cycle(n, b)
    ensures Edge(n, b, p) < Edge(n, b, p + 1)
    ensures Edge(n, b, p + 1) == if Edge(n, b, p) + b > n then n else Edge(n, b, p) + b
    ensures Edge(n, b, p + 1) < n <==> p + 1 < Cycle(n, b)
    ensures Edge(n, b, 0) == 0
  {
    BatchEnds(n, b, Cycle(n, b), p);
    assert b * (p + 1) == b * p + b;
  }

  lemma CursorNext(n: nat, b: nat, k: nat)
    ensures Cursor(n, b, k) == if k == 0 then 0 else High(n, b, Cursor(n, b, k - 1))
  {
  }

  /** The tick after k ticks reads batch k % m of the table. */
  lemma {:induction false} NextBatch(n: nat, b: nat, k: nat)
    requires n > 0 && b > 0
    ensures var p, cursor := k % Cycle(n, b), Cursor(n, b, k);
            Low(n, cursor) == Edge(n, b, p) && High(n, b, cursor) == Edge(n, b, p + 1)
  {
    hide Edge, Cycle, Cursor;
    var m := Cycle(n, b);
    CursorNext(n, b, k);
    if k == 0 {
      Divides(m, 0, 0, 0);
      Edges(n, b, 0);
    } else {
      NextBatch(n, b, k - 1);
      Edges(n, b, (k - 1) % m);
      RemainderNext(k - 1, m);
      Edges(n, b, k % m);
    }
  }

  lemma RemainderNext(k: nat, m: nat)
    requires m > 0
    ensures (k + 1) % m == if k % m + 1 == m then 0 else k % m + 1
    ensures (k + 1) / m == if k % m + 1 == m then k / m + 1 else k / m
  {
    if k % m + 1 == m {
      assert k + 1 == m * (k / m + 1);
      Divides(m, k + 1, k / m + 1, 0);
    } else {
      Divides(m, k + 1, k / m, k % m + 1);
    }
  }

  /** Only the last batch of a pass reaches the end of the table. */
  lemma BatchEnds(n: nat, b: nat, m: nat, p: nat)
    requires b > 0 && p < m && b * (m - 1) < n <= b * m
    ensures b * (p + 1) < n <==> p + 1 < m
    ensures b * p < n
  {
    if p + 1 < m { AtLeast(b, p + 1, m - 1); }
    AtLeast(b, p, m - 1);
  }

  /** The cursor after any number of ticks. */
  lemma {:induction false} CursorIs(n: nat, b: nat, ticks: nat)
    requires n > 0 && b > 0 && ticks > 0
    ensures var end := b * ((ticks - 1) % Cycle(n, b) + 1);
            Cursor(n, b, ticks) == if end < n then end else n
  {
    NextBatch(n, b, ticks - 1);
  }

  // ----- what the ticks select -----

  function Batch<M>(table: seq<M>, b: nat, k: nat): seq<M> {
    var cursor := Cursor(|table|, b, k);
    table[Low(|table|, cursor)..High(|table|, b, cursor)]
  }

  /** The batches of ticks from until to, one after the other. */
  function Batches<M>(table: seq<M>, b: nat, from: nat, to: nat): seq<M> {
    if to <= from then [] else Batches(table, b, from, to - 1) + Batch(table, b, to - 1)
  }

  /** The tick after k ticks selects the rows of batch k % m, the last batch being shorter. */
  lemma TickIs<M>(table: seq<M>, b: nat, k: nat)
    requires table != []
    ensures b == 0 ==> Batch(table, b, k) == []
    ensures b > 0 ==>
              var n := |table|;
              var low := b * (k % ((n + b - 1) / b));
              low < n && Batch(table, b, k) == table[low..if low + b < n then low + b else n]
  {
    if b > 0 {
      var n := |table|;
      var p := k % Cycle(n, b);
      NextBatch(n, b, k);
      Edges(n, b, p);
      BatchEnds(n, b, Cycle(n, b), p);
      assert b * (p + 1) == b * p + b;
      hide Cursor;
    } else {
      StandsStill(|table|, k);
    }
  }

  lemma {:induction false} StandsStill(n: nat, k: nat)
    requires n > 0
    ensures Cursor(n, 0, k) == 0
  {
    if k == 0 {
    } else {
      StandsStill(n, k - 1);
    }
  }

  /** One pass, started with a fresh table or where a pass ended, selects the table once and in
      order. */
  lemma OnePass<M>(table: seq<M>, b: nat, k: nat)
    requires table != [] && b > 0 && k % Cycle(|table|, b) == 0
    ensures Batches(table, b, k, k + Cycle(|table|, b)) == table
  {
    var m := Cycle(|table|, b);
    PartOfPass(table, b, k, m);
    assert Edge(|table|, b, m) == |table|;
    assert table[..|table|] == table;
  }

  lemma {:induction false} PartOfPass<M>(table: seq<M>, b: nat, k: nat, p: nat)
    requires table != [] && b > 0 && k % Cycle(|table|, b) == 0 && p <= Cycle(|table|, b)
    ensures Batches(table, b, k, k + p) == table[..Edge(|table|, b, p)]
  {
    hide Edge, Cycle, Batch;
    Edges(|table|, b, 0);
    if p == 0 {
    } else {
      PartOfPass(table, b, k, p - 1);
      BatchIs(table, b, k, p - 1);
      Slices(table, Edge(|table|, b, p - 1), Edge(|table|, b, p));
      assert k + p - 1 == k + (p - 1);
    }
  }

  lemma BatchIs<M>(table: seq<M>, b: nat, k: nat, p: nat)
    requires table != [] && b > 0 && k % Cycle(|table|, b) == 0 && p < Cycle(|table|, b)
    ensures Edge(|table|, b, p) < Edge(|table|, b, p + 1)
    ensures Batch(table, b, k + p) == table[Edge(|table|, b, p)..Edge(|table|, b, p + 1)]
  {
    hide Edge, Cycle;
    InPass(k, Cycle(|table|, b), p);
    NextBatch(|table|, b, k + p);
    Edges(|table|, b, p);
  }

  lemma Slices<M>(table: seq<M>, low: nat, high: nat)
    requires low <= high <= |table|
    ensures table[..low] + table[low..high] == table[..high]
  {
  }

  lemma InPass(k: nat, m: nat, p: nat)
    requires m > 0 && k % m == 0 && p < m
    ensures (k + p) % m == p
  {
    Divides(m, k + p, k / m, p);
  }

  /** In how many of the first k ticks metric i was selected. */
  function Selected(n: nat, b: nat, i: nat, k: nat): nat {
    if k == 0 then 0
    else
      var cursor := Cursor(n, b, k - 1);
      Selected(n, b, i, k - 1) + if Low(n, cursor) <= i < High(n, b, cursor) then 1 else 0
  }

  lemma {:induction false} SelectedIs(n: nat, b: nat, i: nat, k: nat)
    requires i < n && b > 0
    ensures var m := Cycle(n, b);
            Selected(n, b, i, k) == k / m + if i < Edge(n, b, k % m) then 1 else 0
  {
    hide Edge, Cycle, Cursor, Low, High;
    var m := Cycle(n, b);
    Edges(n, b, 0);
    if k == 0 {
      Divides(m, 0, 0, 0);
    } else {
      SelectedIs(n, b, i, k - 1);
      NextBatch(n, b, k - 1);
      RemainderNext(k - 1, m);
      Edges(n, b, (k - 1) % m);
    }
  }

  /** At any time no metric was selected more than once more often than another. */
  lemma {:induction false} SelectedEvenly(n: nat, b: nat, i: nat, j: nat, k: nat)
    requires i < n && j < n && b > 0
    ensures Selected(n, b, i, k) <= Selected(n, b, j, k) + 1
  {
    SelectedIs(n, b, i, k);
    SelectedIs(n, b, j, k);
  }

  class Streamer<M> {
    const batchSize: int
    /** Empty until the table has been loaded. */
    var metrics: seq<M>
    var currentIdx: nat
    /** How often a batch was taken from a loaded table. */
    ghost var ticks: nat

    ghost predicate Valid()
      reads this
    {
      if metrics == [] || batchSize < 0 then currentIdx == 0 == ticks
      else currentIdx == Cursor(|metrics|, batchSize, ticks)
    }

    constructor (batchSize: int)
      ensures Valid() && metrics == [] && ticks == 0 && this.batchSize == batchSize
    {
      this.batchSize := batchSize;
      metrics, currentIdx, ticks := [], 0, 0;
    }

    /** One tick.  loaded is what reading the table yields, None if that fails; it is read until
        it has a row.  None stands for the panic of slicing backwards, which a negative batch size
        causes on every tick that has read the table. */
    method CollectAndProcess(loaded: Option<seq<M>>) returns (batch: Option<seq<M>>)
      requires Valid()
      modifies this
      ensures Valid()
      ensures metrics == if old(metrics) == [] && loaded.Some? then loaded.value else old(metrics)
      ensures batch.None? <==> batchSize < 0 && (old(metrics) != [] || loaded.Some?)
      ensures batch.Some? && metrics != [] ==>
                batch.value == Batch(metrics, batchSize, old(ticks)) && ticks == old(ticks) + 1
      ensures batch.Some? && metrics != [] && batchSize > 0 ==>
                var n := |metrics|;
                var low := batchSize * (old(ticks) % ((n + batchSize - 1) / batchSize));
                && 0 <= low < n
                && batch.value == metrics[low..if low + batchSize < n then low + batchSize else n]
      ensures batch.Some? && metrics == [] ==> batch.value == []
    {
      if |metrics| == 0 {
        if loaded.None? { return Some([]); }
        metrics := loaded.value;
      }
      if currentIdx >= |metrics| { currentIdx := 0; }
      var endIdx := currentIdx + batchSize;
      if endIdx > |metrics| { endIdx := |metrics|; }
      if endIdx < currentIdx { return None; }
      batch := Some(metrics[currentIdx..endIdx]);
      currentIdx := endIdx;
      if |metrics| > 0 {
        TickIs(metrics, batchSize, ticks);
        ticks := ticks + 1;
      }
    }
  }
}
