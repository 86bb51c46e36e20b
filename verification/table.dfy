/**
 The output of constraint evaluation (`ConstraintEvaluationTable`): one row per step
 of the constraint-evaluation domain and one column per divisor, together with the
 row ranges (`Fragment`s) the table is split into for filling it in parallel.
 */
module Table {
  import opened Field
  import opened Collaborators

  /** The table of evaluations. Column `k` of every row is divided later by `divisors[k]`. */
  datatype ConstraintEvaluationTable = ConstraintEvaluationTable(
    divisors: seq<Divisor>,
    rows: seq<seq<Ext>>
  ) {
    function NumRows(): nat { |rows| }

    function NumColumns(): nat { |divisors| }

    /** `update_row(step, row)`: row `step` becomes `row`; every other row is kept. */
    function UpdateRow(step: nat, row: seq<Ext>): (t: ConstraintEvaluationTable)
      requires step < |rows|
      ensures t.divisors == divisors && |t.rows| == |rows|
      ensures t.rows[step] == row
      ensures forall s :: 0 <= s < |rows| && s != step ==> t.rows[s] == rows[s]
    {
      this.(rows := rows[step := row])
    }
  }

  /** A fresh table over the constraint-evaluation domain, one column per divisor. The
      initial contents of the rows are zero; the evaluator overwrites every one of them. */
  function NewTable(ops: FieldOps, ceDomainSize: nat, divisors: seq<Divisor>): (t: ConstraintEvaluationTable)
    ensures t.divisors == divisors && t.NumRows() == ceDomainSize
    ensures forall s :: 0 <= s < ceDomainSize ==> |t.rows[s]| == |divisors|
  {
    ConstraintEvaluationTable(divisors, seq(ceDomainSize, _ => seq(|divisors|, _ => ops.extZero)))
  }

  /** A contiguous range of table rows: local row `i` is table row `offset + i`. */
  datatype Fragment = Fragment(offset: nat, numRows: nat)

  /** The fragments, in order, cover the rows `[lo, hi)` contiguously, without gap or overlap. */
  ghost predicate Tiles(fs: seq<Fragment>, lo: nat, hi: nat)
    decreases |fs|
  {
    if |fs| == 0 then lo == hi
    else
      && fs[0].offset == lo
      && lo + fs[0].numRows <= hi
      && Tiles(fs[1..], lo + fs[0].numRows, hi)
  }

  /** The steps `lo, lo + 1, ..., hi - 1`, in increasing order. */
  function Range(lo: nat, hi: nat): (r: seq<nat>)
    requires lo <= hi
    ensures |r| == hi - lo
    ensures forall i :: 0 <= i < |r| ==> r[i] == lo + i
  {
    seq(hi - lo, i => lo + i)
  }

  /** Every row of a tiled range lies in exactly one fragment. */
  lemma {:induction false} TilesPartition(fs: seq<Fragment>, lo: nat, hi: nat, s: nat)
    requires Tiles(fs, lo, hi)
    requires lo <= s < hi
    ensures exists j :: 0 <= j < |fs| && fs[j].offset <= s < fs[j].offset + fs[j].numRows
    ensures forall j, j' :: 0 <= j < |fs| && 0 <= j' < |fs|
                        && fs[j].offset <= s < fs[j].offset + fs[j].numRows
                        && fs[j'].offset <= s < fs[j'].offset + fs[j'].numRows
                        ==> j == j'
    decreases |fs|
  {
    TilesAbove(fs, lo, hi);
    if s < lo + fs[0].numRows {
      assert fs[0].offset <= s < fs[0].offset + fs[0].numRows;
      TilesAbove(fs[1..], lo + fs[0].numRows, hi);
      forall j | 0 < j < |fs|
        ensures s < fs[j].offset
      {
        assert fs[j] == fs[1..][j - 1];
      }
    } else {
      TilesPartition(fs[1..], lo + fs[0].numRows, hi, s);
      var j :| 0 <= j < |fs[1..]| && fs[1..][j].offset <= s < fs[1..][j].offset + fs[1..][j].numRows;
      assert fs[j + 1] == fs[1..][j];
      forall j, j' | 0 <= j < |fs| && 0 <= j' < |fs|
                  && fs[j].offset <= s < fs[j].offset + fs[j].numRows
                  && fs[j'].offset <= s < fs[j'].offset + fs[j'].numRows
        ensures j == j'
      {
        assert j > 0 && j' > 0;
        assert fs[j] == fs[1..][j - 1] && fs[j'] == fs[1..][j' - 1];
      }
    }
  }

  /** In a tiling of `[lo, hi)` every fragment starts at or after `lo` and ends by `hi`. */
  lemma {:induction false} TilesAbove(fs: seq<Fragment>, lo: nat, hi: nat)
    requires Tiles(fs, lo, hi)
    ensures lo <= hi
    ensures forall j :: 0 <= j < |fs| ==> lo <= fs[j].offset && fs[j].offset + fs[j].numRows <= hi
    decreases |fs|
  {
    if |fs| > 0 {
      TilesAbove(fs[1..], lo + fs[0].numRows, hi);
      forall j | 0 < j < |fs|
        ensures lo <= fs[j].offset && fs[j].offset + fs[j].numRows <= hi
      {
        assert fs[j] == fs[1..][j - 1];
      }
    }
  }

  /** Row `s` lies in fragment `f`. */
  predicate Covers(f: Fragment, s: int) {
    f.offset <= s < f.offset + f.numRows
  }

  /** Row `s` lies in some fragment of `fs`. */
  ghost predicate CoveredBy(fs: seq<Fragment>, s: int) {
    exists j :: 0 <= j < |fs| && Covers(fs[j], s)
  }

  /** The fragments, in any order, partition the rows `[0, n)`: each lies inside the table,
      every row lies in some fragment, and no row lies in two. */
  ghost predicate Partitions(fs: seq<Fragment>, n: nat) {
    && (forall j :: 0 <= j < |fs| ==> fs[j].offset + fs[j].numRows <= n)
    && (forall s :: 0 <= s < n ==> CoveredBy(fs, s))
    && (forall j, j', s :: 0 <= j < |fs| && 0 <= j' < |fs| && Covers(fs[j], s) && Covers(fs[j'], s) ==> j == j')
  }

  /** A contiguous tiling of `[0, n)`, listed in row order, is a partition of it. */
  lemma TilesArePartitions(fs: seq<Fragment>, n: nat)
    requires Tiles(fs, 0, n)
    ensures Partitions(fs, n)
  {
    TilesAbove(fs, 0, n);
    forall s | 0 <= s < n
      ensures CoveredBy(fs, s)
    {
      TilesPartition(fs, 0, n, s);
      var j :| 0 <= j < |fs| && fs[j].offset <= s < fs[j].offset + fs[j].numRows;
      assert Covers(fs[j], s);
    }
    forall j, j', s | 0 <= j < |fs| && 0 <= j' < |fs| && Covers(fs[j], s) && Covers(fs[j'], s)
      ensures j == j'
    {
      TilesPartition(fs, 0, n, s);
    }
  }

  /** No row appears twice in the write log. */
  ghost predicate Distinct(writes: seq<nat>) {
    forall a, b :: 0 <= a < b < |writes| ==> writes[a] != writes[b]
  }

  /** The write log `writes` names every row of `[0, n)` exactly once, and nothing else. */
  ghost predicate WrittenOnceEach(writes: seq<nat>, n: nat) {
    && Distinct(writes)
    && (forall a :: 0 <= a < |writes| ==> writes[a] < n)
    && (forall s: nat :: s < n ==> s in writes)
  }

  /** Writing the rows in increasing order writes each exactly once. */
  lemma RangeWrittenOnceEach(n: nat)
    ensures WrittenOnceEach(Range(0, n), n)
  {
    var r := Range(0, n);
    forall s: nat | s < n
      ensures s in r
    {
      assert r[s] == s;
    }
  }

  /** The chunks of at most `size` rows that `[offset, numRows)` is cut into, in order;
      only the last one may be shorter. */
  function Chunks(offset: nat, numRows: nat, size: nat): (fs: seq<Fragment>)
    requires 0 < size && offset <= numRows
    ensures Tiles(fs, offset, numRows)
    ensures forall j :: 0 <= j < |fs| ==> 0 < fs[j].numRows <= size
    ensures forall j :: 0 <= j < |fs| - 1 ==> fs[j].numRows == size
    decreases numRows - offset
  {
    if offset == numRows then []
    else
      var len := if numRows - offset < size then numRows - offset else size;
      [Fragment(offset, len)] + Chunks(offset + len, numRows, size)
  }

  /** A range of `count * size` rows is cut into exactly `count` chunks. */
  lemma {:induction false} ChunksCount(offset: nat, numRows: nat, size: nat, count: nat)
    requires 0 < size && offset <= numRows
    requires numRows - offset == count * size
    ensures |Chunks(offset, numRows, size)| == count
    decreases count
  {
    if count > 0 {
      var rest := count - 1;
      assert numRows - offset == rest * size + size;
      assert numRows - (offset + size) == rest * size;
      ChunksCount(offset + size, numRows, size, rest);
      assert Chunks(offset, numRows, size) == [Fragment(offset, size)] + Chunks(offset + size, numRows, size);
    }
  }

  /** `fragments(num_fragments)`: the table's rows cut into chunks of
      `num_rows / num_fragments` rows. */
  function Fragments(numRows: nat, numFragments: nat): (fs: seq<Fragment>)
    requires 0 < numFragments <= numRows
    ensures Tiles(fs, 0, numRows)
    ensures numRows % numFragments == 0 ==> |fs| == numFragments
  {
    ChunkCount(numRows, numFragments);
    Chunks(0, numRows, numRows / numFragments)
  }

  /** Cutting `numRows` rows into chunks of `numRows / numFragments` rows yields exactly
      `numFragments` chunks when the division is exact. */
  lemma ChunkCount(numRows: nat, numFragments: nat)
    requires 0 < numFragments <= numRows
    ensures numRows % numFragments == 0 ==>
              |Chunks(0, numRows, numRows / numFragments)| == numFragments
  {
    var size := numRows / numFragments;
    if numRows % numFragments == 0 {
      assert numRows == numFragments * size;
      ChunksCount(0, numRows, size, numFragments);
    }
  }

  /** Powers of two: 1, 2, 4, ... */
  predicate IsPowerOfTwo(p: nat)
    decreases p
  {
    p == 1 || (2 <= p && p % 2 == 0 && IsPowerOfTwo(p / 2))
  }

  /** A power of two below another is at most half of it. */
  lemma {:induction false} PowerOfTwoBelow(q: nat, p: nat)
    requires IsPowerOfTwo(q) && IsPowerOfTwo(p) && q < p
    ensures q <= p / 2
    decreases p
  {
    if q != 1 && p / 2 != 1 {
      PowerOfTwoBelow(q / 2, p / 2);
    }
  }

  /** A power of two divides every power of two at least as large. With a power-of-two
      constraint-evaluation domain and a power-of-two fragment count, `Fragments` therefore
      returns exactly the requested number of fragments. */
  lemma {:induction false} PowerOfTwoDivides(k: nat, n: nat)
    requires IsPowerOfTwo(k) && IsPowerOfTwo(n) && k <= n
    ensures n % k == 0
    decreases n
  {
    if k != 1 {
      var a, b := n / 2, k / 2;
      PowerOfTwoDivides(b, a);
      var m := a / b;
      assert a == b * m;
      assert n == 2 * a && k == 2 * b;
      assert n == k * m;
      MultipleMod(k, m);
    }
  }

  /** Over a power-of-two domain, the concurrent fill gets exactly
      `num_threads.next_power_of_two()` fragments. */
  lemma FragmentCount(numRows: nat, numThreads: nat)
    requires IsPowerOfTwo(numRows) && NextPowerOfTwo(numThreads) <= numRows
    ensures |Fragments(numRows, NextPowerOfTwo(numThreads))| == NextPowerOfTwo(numThreads)
  {
    PowerOfTwoDivides(NextPowerOfTwo(numThreads), numRows);
  }

  lemma MultipleMod(k: nat, m: nat)
    requires 0 < k
    ensures (k * m) % k == 0
  {
    var x := k * m;
    var q, r := x / k, x % k;
    assert x == k * q + r && 0 <= r < k;
    assert k * (m - q) == r;
    // k * (m - q) lies in [0, k), so m - q is neither positive nor negative
    if m - q >= 1 {
      assert false;
    } else if m - q <= -1 {
      assert false;
    }
  }

  /** `usize::next_power_of_two`: the smallest power of two that is at least `n`. */
  function NextPowerOfTwo(n: nat): (p: nat)
    ensures IsPowerOfTwo(p) && n <= p
    ensures forall q: nat :: IsPowerOfTwo(q) && n <= q ==> p <= q
  {
    var p := PowerAtLeast(1, n);
    NextPowerOfTwoLeast(n, p);
    p
  }

  lemma NextPowerOfTwoLeast(n: nat, p: nat)
    requires IsPowerOfTwo(p) && n <= p && (p == 1 || p / 2 < n)
    ensures forall q: nat :: IsPowerOfTwo(q) && n <= q ==> p <= q
  {
    forall q: nat | IsPowerOfTwo(q) && n <= q
      ensures p <= q
    {
      if q < p {
        PowerOfTwoBelow(q, p);
      }
    }
  }

  /** Doubles the power of two `p` until it reaches `n`. */
  function PowerAtLeast(p: nat, n: nat): (q: nat)
    requires IsPowerOfTwo(p)
    requires p == 1 || p / 2 < n
    ensures IsPowerOfTwo(q) && n <= q && p <= q
    ensures q == 1 || q / 2 < n
    decreases n - p
  {
    if n <= p then p
    else PowerAtLeast(2 * p, n)
  }
}
