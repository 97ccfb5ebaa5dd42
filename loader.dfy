/**
 * The batch loader: a record stream is written to the database in batches,
 * each batch committed on its own, and the number of records is returned.
 * The database is modelled only as the list of committed batches.
 */
module BatchLoader {

  /** The rows a sequence of batches holds, in order. */
  function Flatten<T>(bs: seq<seq<T>>): (r: seq<T>)
  {
    if bs == [] then [] else Flatten(bs[..|bs| - 1]) + bs[|bs| - 1]
  }

  lemma {:induction false} FlattenAppend<T>(a: seq<seq<T>>, b: seq<seq<T>>)
    ensures Flatten(a + b) == Flatten(a) + Flatten(b)
    decreases |b|
  {
    if b == [] {
      assert a + b == a;
    } else {
      var ab, b', last := a + b, b[..|b| - 1], b[|b| - 1];
      assert ab[..|ab| - 1] == a + b' && ab[|ab| - 1] == last;
      FlattenAppend(a, b');
      assert Flatten(ab) == (Flatten(a) + Flatten(b')) + last;
      assert Flatten(b) == Flatten(b') + last;
    }
  }

  /** The store: every `executemany` + `commit` adds one batch of rows. */
  class Table<T> {
    var committed: seq<seq<T>>

    constructor ()
      ensures committed == []
    {
      committed := [];
    }

    /** `cursor.executemany(query, batch)` followed by `conn.commit()`. */
    method CommitBatch(batch: seq<T>)
      modifies this
      ensures committed == old(committed) + [batch]
    {
      committed := committed + [batch];
    }

    /** The rows committed so far. */
    function Rows(): seq<T>
      reads this
    {
      Flatten(committed)
    }
  }

  /**
   * The least non-empty batch length that passes `len(batch) >= batch_size`:
   * the test passes at `n` records and fails at any smaller positive length.
   */
  function EffectiveBatchSize(batchSize: int): (n: nat)
    ensures n >= 1 && n >= batchSize
    ensures n == 1 || n - 1 < batchSize
  {
    if batchSize <= 1 then 1 else batchSize
  }

  /** A batch of `k >= 1` records is flushed exactly when it has `EffectiveBatchSize` records or more. */
  lemma FlushTest(batchSize: int, k: int)
    requires k >= 1
    ensures k >= batchSize <==> k >= EffectiveBatchSize(batchSize)
  {
  }

  /** The batches the loader commits for `xs`: full batches of `n`, then the rest if any. */
  function Batches<T>(xs: seq<T>, n: nat): seq<seq<T>>
    requires n >= 1
    decreases |xs|
  {
    if xs == [] then []
    else if |xs| <= n then [xs]
    else [xs[..n]] + Batches(xs[n..], n)
  }

  /** `insert_in_batches`, committing into `table`. */
  method InsertInBatches<T>(table: Table<T>, records: seq<T>, batchSize: int) returns (count: int)
    modifies table
    ensures count == |records|
    ensures table.committed == old(table.committed) + Batches(records, EffectiveBatchSize(batchSize))
    ensures table.Rows() == old(table.Rows()) + records
  {
    ghost var n := EffectiveBatchSize(batchSize);
    ghost var full: nat := 0;
    var batch: seq<T> := [];
    count := 0;
    var i := 0;
    while i < |records|
      invariant 0 <= count <= i <= |records|
      invariant batch == records[count..i] && |batch| < n
      invariant count == full * n
      invariant table.committed == old(table.committed) + Batches(records[..count], n)
    {
      batch := batch + [records[i]];
      if |batch| >= batchSize {
        table.CommitBatch(batch);
        BatchesFullStep(records, full, n, batch);
        count := count + |batch|;
        full := full + 1;
        batch := [];
      }
      i := i + 1;
    }
    if batch != [] {
      table.CommitBatch(batch);
      BatchesLastStep(records, full, n, batch);
      count := count + |batch|;
    } else {
      assert records[..count] == records;
    }
    LoadedRows(old(table.committed), records, n);
  }

  /** One more full batch after `full` of them. */
  lemma {:induction false} BatchesFullStep<T>(xs: seq<T>, full: nat, n: nat, batch: seq<T>)
    requires n >= 1 && full * n + n <= |xs| && batch == xs[full * n..full * n + n]
    ensures full * n + |batch| == (full + 1) * n
    ensures Batches(xs[..full * n + |batch|], n) == Batches(xs[..full * n], n) + [batch]
  {
    var count := full * n;
    assert xs[..count + n] == xs[..count] + batch;
    BatchesAppend(xs[..count], batch, n, full);
  }

  /** The short last batch after `full` full ones. */
  lemma {:induction false} BatchesLastStep<T>(xs: seq<T>, full: nat, n: nat, batch: seq<T>)
    requires n >= 1 && full * n < |xs| <= full * n + n && batch == xs[full * n..]
    ensures Batches(xs, n) == Batches(xs[..full * n], n) + [batch]
  {
    var count := full * n;
    assert xs == xs[..count] + batch;
    BatchesAppend(xs[..count], batch, n, full);
  }

  /** Batching a prefix made of whole batches, then the rest, is batching the whole. */
  lemma {:induction false} BatchesAppend<T>(xs: seq<T>, ys: seq<T>, n: nat, full: nat)
    requires n >= 1 && |xs| == full * n
    ensures Batches(xs + ys, n) == Batches(xs, n) + Batches(ys, n)
    decreases full
  {
    if full == 0 {
      assert xs == [] && xs + ys == ys;
    } else if ys == [] {
      assert xs + ys == xs;
    } else {
      MulStep(full, n);
      var rest := xs[n..];
      BatchesAppend(rest, ys, n, full - 1);
      BatchesCons(xs, ys, n);
      var head, tail, more := [xs[..n]], Batches(rest, n), Batches(ys, n);
      assert head + (tail + more) == (head + tail) + more;
    }
  }

  /** The first batch of `xs + ys` is that of `xs` when `xs` fills one. */
  lemma {:induction false} BatchesCons<T>(xs: seq<T>, ys: seq<T>, n: nat)
    requires n >= 1 && |xs| >= n && ys != []
    ensures Batches(xs + ys, n) == [xs[..n]] + Batches(xs[n..] + ys, n)
    ensures Batches(xs, n) == [xs[..n]] + Batches(xs[n..], n)
  {
    var zs := xs + ys;
    assert zs[..n] == xs[..n] && zs[n..] == xs[n..] + ys;
    BatchesHead(zs, n);
    BatchesHead(xs, n);
  }

  lemma {:induction false} MulStep(full: nat, n: nat)
    requires full >= 1
    ensures full * n == (full - 1) * n + n && full * n >= n
  {
  }

  /** The first batch of at least `n` records is the first `n`. */
  lemma {:induction false} BatchesHead<T>(xs: seq<T>, n: nat)
    requires n >= 1 && |xs| >= n
    ensures Batches(xs, n) == [xs[..n]] + Batches(xs[n..], n)
  {
    if |xs| == n {
      assert xs[..n] == xs;
      assert xs[n..] == [];
    }
  }

  // ---------------------------------------------------------------------
  // What the committed batches are
  // ---------------------------------------------------------------------

  /** The batches, put back together, are the records in their order. */
  lemma {:induction false} FlattenBatches<T>(xs: seq<T>, n: nat)
    requires n >= 1
    ensures Flatten(Batches(xs, n)) == xs
    decreases |xs|
  {
    if xs != [] {
      if |xs| <= n {
        assert Flatten([xs]) == Flatten([]) + xs;
      } else {
        FlattenBatches(xs[n..], n);
        FlattenAppend([xs[..n]], Batches(xs[n..], n));
        assert Flatten([xs[..n]]) == Flatten([]) + xs[..n];
        assert xs[..n] + xs[n..] == xs;
      }
    }
  }

  /** Every batch but the last is full; the last holds between 1 and `n` records. */
  lemma {:induction false} BatchSizes<T>(xs: seq<T>, n: nat)
    requires n >= 1
    ensures var bs := Batches(xs, n);
      && (forall j :: 0 <= j < |bs| - 1 ==> |bs[j]| == n)
      && (bs != [] ==> 1 <= |bs[|bs| - 1]| <= n)
    decreases |xs|
  {
    if |xs| > n {
      var bs := Batches(xs, n);
      var rest := Batches(xs[n..], n);
      BatchSizes(xs[n..], n);
      assert bs == [xs[..n]] + rest;
      forall j | 0 <= j < |bs| - 1 ensures |bs[j]| == n {
        if j > 0 {
          assert bs[j] == rest[j - 1];
        }
      }
      assert bs[|bs| - 1] == rest[|rest| - 1];
    }
  }

  /** There are `ceil(|xs| / n)` batches; none for no records. */
  lemma {:induction false} BatchCount<T>(xs: seq<T>, n: nat)
    requires n >= 1
    ensures |Batches(xs, n)| == (|xs| + n - 1) / n
    ensures Batches(xs, n) == [] <==> xs == []
  {
    var k := |Batches(xs, n)|;
    BatchCountBounds(xs, n);
    if xs != [] {
      assert (k - 1) * n + n == k * n && k * n + n == (k + 1) * n;
    }
    DivUnique(|xs| + n - 1, n, k);
  }

  /** `k` batches of at most `n` hold more than `(k - 1) * n` and at most `k * n` records. */
  lemma {:induction false} BatchCountBounds<T>(xs: seq<T>, n: nat)
    requires n >= 1
    ensures xs == [] <==> Batches(xs, n) == []
    ensures xs != [] ==> (|Batches(xs, n)| - 1) * n < |xs| <= |Batches(xs, n)| * n
    decreases |xs|
  {
    if |xs| > n {
      BatchCountBounds(xs[n..], n);
      var k := |Batches(xs[n..], n)|;
      assert |Batches(xs, n)| == k + 1;
      assert (k + 1 - 1) * n == (k - 1) * n + n && (k + 1) * n == k * n + n;
    }
  }

  /** Integer division is determined by the bracketing multiples. */
  lemma {:induction false} DivUnique(t: int, n: nat, k: int)
    requires n >= 1 && k * n <= t < (k + 1) * n
    ensures t / n == k
  {
    var q, r := t / n, t % n;
    assert t == q * n + r && 0 <= r < n;
    if q > k {
      MulMono(k + 1, q, n);
    } else if q < k {
      MulMono(q + 1, k, n);
    }
  }

  lemma {:induction false} MulMono(a: int, b: int, n: nat)
    requires a <= b
    ensures a * n <= b * n
  {
    var d := b - a;
    assert b * n == a * n + d * n;
  }

  /** Batch `j` is the records `j * n` up to `(j + 1) * n`, cut at the end. */
  lemma {:induction false} BatchAt<T>(xs: seq<T>, n: nat, j: int)
    requires n >= 1 && 0 <= j < |Batches(xs, n)|
    ensures j * n < |xs|
    ensures Batches(xs, n)[j] == xs[j * n..if (j + 1) * n <= |xs| then (j + 1) * n else |xs|]
    decreases |xs|
  {
    if |xs| <= n {
      assert j == 0;
    } else if j > 0 {
      var rest := xs[n..];
      assert Batches(xs, n)[j] == Batches(rest, n)[j - 1];
      BatchAt(rest, n, j - 1);
      MulStep(j, n);
      var lo, hi := (j - 1) * n, if j * n <= |rest| then j * n else |rest|;
      DropSlice(xs, n, lo, hi);
      assert n + hi == if (j + 1) * n <= |xs| then (j + 1) * n else |xs|;
    }
  }

  /** A slice of `xs[n..]` is the slice of `xs` moved by `n`. */
  lemma {:induction false} DropSlice<T>(xs: seq<T>, n: nat, lo: int, hi: int)
    requires n <= |xs| && 0 <= lo <= hi <= |xs| - n
    ensures xs[n..][lo..hi] == xs[n + lo..n + hi]
  {
    assert forall k :: 0 <= k < hi - lo ==> xs[n..][lo..hi][k] == xs[n + lo + k];
  }

  /** After loading, the table holds the rows it held before and then the records, in order. */
  lemma {:induction false} LoadedRows<T>(before: seq<seq<T>>, records: seq<T>, n: nat)
    requires n >= 1
    ensures Flatten(before + Batches(records, n)) == Flatten(before) + records
  {
    FlattenAppend(before, Batches(records, n));
    FlattenBatches(records, n);
  }
}
