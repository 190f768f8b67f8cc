/** Sparsity injection (`addSparsity` / `replaceValues`): rejection sampling
    that overwrites cells of the table with a sentinel until a target number
    of cells has newly become the sentinel.

    The calls to `Math.random()` are an oracle: a finite sequence of pairs
    of samples in [0, 1), one pair per iteration of the loop. The oracle is
    also the loop's fuel: when it runs out before the target is reached, the
    original would still be sampling. */
module Sparsity {
  import opened Tables

  /** The sentinel `addSparsity` writes. */
  const Sentinel: string := "0"

  /** `Math.round` on an exact real: the nearest integer, halves rounded up. */
  function Round(x: real): (n: int)
    ensures (n as real) - 0.5 <= x < (n as real) + 0.5
  {
    (x + 0.5).Floor
  }

  /** A fraction in [0, 1] of a non-negative quantity lies between zero and
      that quantity. */
  lemma FractionBetween(u: real, m: real)
    requires 0.0 <= u <= 1.0 && 0.0 <= m
    ensures 0.0 <= u * m <= m
  {
    assert (1.0 - u) * m >= 0.0;
  }

  /** Rounding a fraction in [0, 1] of `m` gives an integer in [0, m]. */
  lemma ScaledRound(u: real, m: int)
    requires 0.0 <= u <= 1.0 && 0 <= m
    ensures 0 <= Round(u * (m as real)) <= m
  {
    FractionBetween(u, m as real);
  }

  /** A sample in [0, 1) scaled to `n - 1` rounds to an index below `n`. */
  lemma PickBounds(u: real, n: nat)
    ensures 0.0 <= u < 1.0 && n >= 1 ==> 0 <= Round(u * ((n - 1) as real)) < n
  {
    if 0.0 <= u < 1.0 && n >= 1 {
      ScaledRound(u, n - 1);
    }
  }

  /** `Math.round(Math.random() * (n - 1))` for the sample `u`. */
  function PickIndex(u: real, n: nat): (i: int)
    ensures 0.0 <= u < 1.0 && n >= 1 ==> 0 <= i < n
  {
    PickBounds(u, n);
    Round(u * ((n - 1) as real))
  }

  /** One pair of samples: the first picks the row, the second the column. */
  type Draw = (real, real)

  predicate ValidDraws(draws: seq<Draw>) {
    forall k :: 0 <= k < |draws| ==> 0.0 <= draws[k].0 < 1.0 && 0.0 <= draws[k].1 < 1.0
  }

  /** A cell address: row, then column. */
  type Cell = (int, int)

  /** The cell a pair of samples picks. */
  function Pick(d: Draw, categories: nat, series: nat): Cell {
    (PickIndex(d.0, categories), PickIndex(d.1, series))
  }

  /** The cells the loop picks, one per pair of samples. */
  function Picks(draws: seq<Draw>, categories: nat, series: nat): (picks: seq<Cell>)
    ensures |picks| == |draws|
    ensures ValidDraws(draws) && categories >= 1 && series >= 1 ==>
      forall k :: 0 <= k < |picks| ==> 0 <= picks[k].0 < categories && 0 <= picks[k].1 < series
  {
    if draws == [] then []
    else
      var rest := Picks(draws[1..], categories, series);
      var picks := [Pick(draws[0], categories, series)] + rest;
      assert forall k :: 1 <= k < |picks| ==> picks[k] == rest[k - 1];
      picks
  }

  /** Pick `k` is the cell the `k`-th pair of samples picks. */
  lemma {:induction false} PicksAt(draws: seq<Draw>, categories: nat, series: nat, k: nat)
    requires k < |draws|
    ensures Picks(draws, categories, series)[k] == Pick(draws[k], categories, series)
    decreases k
  {
    if k > 0 {
      PicksAt(draws[1..], categories, series, k - 1);
    }
  }

  predicate InRange(t: Table, p: Cell) {
    0 <= p.0 < |t| && 0 <= p.1 < |t[p.0]|
  }

  /** Every pick from index `k` on addresses a cell of `t`. */
  predicate InRangeFrom(t: Table, picks: seq<Cell>, k: nat) {
    forall m :: k <= m < |picks| ==> InRange(t, picks[m])
  }

  /** Every cell the samples pick lies inside a table of `categories` rows
      of `series` cells. */
  lemma PicksInRange(t: Table, draws: seq<Draw>, categories: nat, series: nat)
    requires Rectangular(t, categories, series) && ValidDraws(draws)
    requires categories >= 1 && series >= 1
    ensures InRangeFrom(t, Picks(draws, categories, series), 0)
  {
  }

  /** `a` and `b` have the same number of rows and the same row lengths. */
  predicate SameShape(a: Table, b: Table) {
    |a| == |b| && forall r :: 0 <= r < |a| ==> |a[r]| == |b[r]|
  }

  /** The outcome of the sampling loop: the table, the final counter and
      the index of the first pair of samples left unused. */
  datatype Injection = Injection(table: Table, count: nat, stop: nat)

  /** The loop of `replaceValues` from iteration `k` on: while the counter
      is below the target, take pick `k`; if that cell does not hold
      `value`, overwrite it and count it, otherwise retry with the next. */
  function Inject(t: Table, picks: seq<Cell>, k: nat, count: nat, target: int, value: string): (res: Injection)
    requires k <= |picks|
    requires count >= target || InRangeFrom(t, picks, k)
    ensures k <= res.stop <= |picks|
    decreases |picks| - k
  {
    if count >= target || k == |picks| then Injection(t, count, k)
    else
      var (i, j) := picks[k];
      if t[i][j] != value then Inject(t[i := t[i][j := value]], picks, k + 1, count + 1, target, value)
      else Inject(t, picks, k + 1, count, target, value)
  }

  /** The loop only overwrites cells: the table keeps its shape. */
  lemma {:induction false} InjectShape(t: Table, picks: seq<Cell>, k: nat, count: nat, target: int, value: string)
    requires k <= |picks|
    requires count >= target || InRangeFrom(t, picks, k)
    ensures SameShape(t, Inject(t, picks, k, count, target, value).table)
    decreases |picks| - k
  {
    if !(count >= target || k == |picks|) {
      var (i, j) := picks[k];
      if t[i][j] != value {
        InjectShape(t[i := t[i][j := value]], picks, k + 1, count + 1, target, value);
      } else {
        InjectShape(t, picks, k + 1, count, target, value);
      }
    }
  }

  /** The cells that hold `value` in `after` but did not in `before`. */
  function Newly(before: Table, after: Table, value: string): set<Cell>
    requires SameShape(before, after)
  {
    set r, c | 0 <= r < |before| && 0 <= c < |before[r]| && after[r][c] == value && before[r][c] != value :: (r, c)
  }

  /** The cells of `t` that do not hold `value`. */
  function Candidates(t: Table, value: string): set<Cell>
  {
    set r, c | 0 <= r < |t| && 0 <= c < |t[r]| && t[r][c] != value :: (r, c)
  }

  /** Frame: a cell the loop changes now holds `value`, did not before, and
      was among the picks consumed; every other cell is unchanged. */
  lemma {:induction false} InjectCells(t: Table, picks: seq<Cell>, k: nat, count: nat, target: int, value: string)
    requires k <= |picks|
    requires count >= target || InRangeFrom(t, picks, k)
    ensures var res := Inject(t, picks, k, count, target, value);
      SameShape(t, res.table) &&
      forall r, c :: 0 <= r < |t| && 0 <= c < |t[r]| && res.table[r][c] != t[r][c] ==>
        res.table[r][c] == value && t[r][c] != value && (r, c) in picks[k..res.stop]
    decreases |picks| - k
  {
    InjectShape(t, picks, k, count, target, value);
    if !(count >= target || k == |picks|) {
      var (i, j) := picks[k];
      var res := Inject(t, picks, k, count, target, value);
      if t[i][j] != value {
        var t' := t[i := t[i][j := value]];
        InjectCells(t', picks, k + 1, count + 1, target, value);
        forall r, c | 0 <= r < |t| && 0 <= c < |t[r]| && res.table[r][c] != t[r][c]
          ensures res.table[r][c] == value && t[r][c] != value && (r, c) in picks[k..res.stop]
        {
          if (r, c) == (i, j) {
            assert picks[k..res.stop][0] == (r, c);
          } else {
            assert t'[r][c] == t[r][c];
            var m :| 0 <= m < res.stop - (k + 1) && picks[k + 1..res.stop][m] == (r, c);
            assert picks[k..res.stop][m + 1] == (r, c);
          }
        }
      } else {
        InjectCells(t, picks, k + 1, count, target, value);
        forall r, c | 0 <= r < |t| && 0 <= c < |t[r]| && res.table[r][c] != t[r][c]
          ensures (r, c) in picks[k..res.stop]
        {
          var m :| 0 <= m < res.stop - (k + 1) && picks[k + 1..res.stop][m] == (r, c);
          assert picks[k..res.stop][m + 1] == (r, c);
        }
      }
    }
  }

  /** Writing `value` into a cell that did not hold it, and that still holds
      it at the end, adds that one cell to the newly set ones. */
  lemma NewlyStep(t: Table, after: Table, i: int, j: int, value: string)
    requires 0 <= i < |t| && 0 <= j < |t[i]| && t[i][j] != value
    requires SameShape(t, after) && after[i][j] == value
    ensures SameShape(t[i := t[i][j := value]], after)
    ensures (i, j) !in Newly(t[i := t[i][j := value]], after, value)
    ensures Newly(t, after, value) == Newly(t[i := t[i][j := value]], after, value) + {(i, j)}
  {
    var t' := t[i := t[i][j := value]];
    forall p | p in Newly(t, after, value)
      ensures p in Newly(t', after, value) + {(i, j)}
    {
      var (r, c) := p;
      if p != (i, j) {
        assert t'[r][c] == t[r][c];
      }
    }
    forall p | p in Newly(t', after, value)
      ensures p in Newly(t, after, value)
    {
      var (r, c) := p;
      assert t'[r][c] == t[r][c];
    }
  }

  lemma NewlyNone(t: Table, value: string)
    ensures Newly(t, t, value) == {}
  {
  }

  /** The counter's invariant: it grows by exactly the number of cells that
      newly hold `value`. */
  lemma {:induction false} InjectCount(t: Table, picks: seq<Cell>, k: nat, count: nat, target: int, value: string)
    requires k <= |picks|
    requires count >= target || InRangeFrom(t, picks, k)
    ensures var res := Inject(t, picks, k, count, target, value);
      SameShape(t, res.table) && res.count == count + |Newly(t, res.table, value)|
    decreases |picks| - k
  {
    InjectShape(t, picks, k, count, target, value);
    var res := Inject(t, picks, k, count, target, value);
    if count >= target || k == |picks| {
      NewlyNone(t, value);
    } else {
      var (i, j) := picks[k];
      if t[i][j] != value {
        var t' := t[i := t[i][j := value]];
        assert res == Inject(t', picks, k + 1, count + 1, target, value);
        InjectCount(t', picks, k + 1, count + 1, target, value);
        InjectCells(t', picks, k + 1, count + 1, target, value);
        NewlyStep(t, res.table, i, j, value);
      } else {
        assert res == Inject(t, picks, k + 1, count, target, value);
        InjectCount(t, picks, k + 1, count, target, value);
      }
    }
  }

  /** The loop stops exactly when the counter reaches the target, or when
      the oracle is exhausted below it. */
  lemma {:induction false} InjectStops(t: Table, picks: seq<Cell>, k: nat, count: nat, target: int, value: string)
    requires k <= |picks|
    requires count >= target || InRangeFrom(t, picks, k)
    ensures var res := Inject(t, picks, k, count, target, value);
      (count >= target ==> res.table == t && res.count == count && res.stop == k) &&
      (count < target ==> res.count == target || (res.count < target && res.stop == |picks|))
    decreases |picks| - k
  {
    if !(count >= target || k == |picks|) {
      var (i, j) := picks[k];
      if t[i][j] != value {
        InjectStops(t[i := t[i][j := value]], picks, k + 1, count + 1, target, value);
      } else {
        InjectStops(t, picks, k + 1, count, target, value);
      }
    }
  }

  lemma SubsetCard<T>(a: set<T>, b: set<T>)
    requires a <= b
    ensures |a| <= |b|
    decreases |b|
  {
    if a != {} {
      var x :| x in a;
      SubsetCard(a - {x}, b - {x});
    }
  }

  /** What `replaceValues` promises, from a counter of zero: the table keeps
      its shape; a changed cell now holds `value`, did not before, and was
      picked; cells that held `value` are unchanged; the number of cells
      that newly hold `value` is the final counter; the loop ends exactly
      when that number reaches the target, which is only possible when the
      table had at least that many cells not holding `value`. */
  lemma ReplaceValuesSpec(t: Table, picks: seq<Cell>, target: int, value: string)
    requires target <= 0 || InRangeFrom(t, picks, 0)
    ensures var res := Inject(t, picks, 0, 0, target, value);
      && SameShape(t, res.table)
      && (forall r, c :: 0 <= r < |t| && 0 <= c < |t[r]| && res.table[r][c] != t[r][c] ==>
            res.table[r][c] == value && t[r][c] != value && (r, c) in picks[..res.stop])
      && (forall r, c :: 0 <= r < |t| && 0 <= c < |t[r]| && t[r][c] == value ==> res.table[r][c] == value)
      && res.count == |Newly(t, res.table, value)|
      && (res.count >= target <==> target <= 0 || |Newly(t, res.table, value)| == target)
      && (res.count < target ==> res.stop == |picks|)
      && (target >= 0 && res.count >= target ==> target <= |Candidates(t, value)|)
  {
    var res := Inject(t, picks, 0, 0, target, value);
    InjectCells(t, picks, 0, 0, target, value);
    assert picks[0..res.stop] == picks[..res.stop];
    InjectCount(t, picks, 0, 0, target, value);
    InjectStops(t, picks, 0, 0, target, value);
    assert Newly(t, res.table, value) <= Candidates(t, value);
    SubsetCard(Newly(t, res.table, value), Candidates(t, value));
  }

  /** One iteration of the loop from iteration `k`: the pick addresses a
      cell, and the loop goes on from `k + 1` to the same end. */
  lemma InjectStep(t: Table, picks: seq<Cell>, k: nat, count: nat, target: int, value: string)
    requires k < |picks| && count < target && InRangeFrom(t, picks, k)
    ensures InRange(t, picks[k])
    ensures var (i, j) := picks[k];
      var t' := if t[i][j] != value then t[i := t[i][j := value]] else t;
      var count' := if t[i][j] != value then count + 1 else count;
      InRangeFrom(t', picks, k + 1) &&
      Inject(t', picks, k + 1, count', target, value) == Inject(t, picks, k, count, target, value)
  {
  }

  /** One pick of the loop: the cell is overwritten with `value` and counted
      when it does not already hold it. */
  method Overwrite(rows: array<Row>, r: int, c: int, value: string) returns (written: bool)
    requires 0 <= r < rows.Length && 0 <= c < |rows[r]|
    modifies rows
    ensures written == (old(rows[..])[r][c] != value)
    ensures rows[..] == if written then old(rows[..])[r := old(rows[..])[r][c := value]] else old(rows[..])
  {
    written := rows[r][c] != value;
    if written {
      rows[r] := rows[r][c := value];
    }
  }

  /** `replaceValues`: the loop itself, over the table in place. */
  method ReplaceValues(rows: array<Row>, categories: nat, series: nat, targetCount: int, value: string,
                       draws: seq<Draw>) returns (finished: bool)
    requires Rectangular(rows[..], categories, series)
    requires targetCount > 0 ==> categories >= 1 && series >= 1
    requires ValidDraws(draws)
    modifies rows
    ensures var res := Inject(old(rows[..]), Picks(draws, categories, series), 0, 0, targetCount, value);
      rows[..] == res.table && finished == (res.count >= targetCount)
  {
    ghost var picks := Picks(draws, categories, series);
    ghost var spec := Inject(rows[..], picks, 0, 0, targetCount, value);
    if targetCount > 0 {
      PicksInRange(rows[..], draws, categories, series);
    }
    var count: nat := 0;
    var k: nat := 0;
    while count < targetCount && k < |draws|
      invariant k <= |draws|
      invariant count >= targetCount || InRangeFrom(rows[..], picks, k)
      invariant Inject(rows[..], picks, k, count, targetCount, value) == spec
    {
      var r := PickIndex(draws[k].0, categories);
      var c := PickIndex(draws[k].1, series);
      PicksAt(draws, categories, series, k);
      InjectStep(rows[..], picks, k, count, targetCount, value);
      var written := Overwrite(rows, r, c, value);
      if written {
        count := count + 1;
      }
      k := k + 1;
    }
    finished := count >= targetCount;
  }

  /** `Math.round(sparsity * dataPointCount)`: the number of cells to blank. */
  function SparsityTarget(sparsity: real, categories: nat, series: nat): (target: int)
    ensures categories == 0 || series == 0 ==> target == 0
    ensures 0.0 <= sparsity <= 1.0 ==> 0 <= target <= categories * series
  {
    TargetBounds(sparsity, categories, series);
    Round(sparsity * ((categories * series) as real))
  }

  /** A fraction in [0, 1] of the cells rounds to between none and all of
      them, and to none for an empty table. */
  lemma TargetBounds(sparsity: real, categories: nat, series: nat)
    ensures categories == 0 || series == 0 ==> Round(sparsity * ((categories * series) as real)) == 0
    ensures 0.0 <= sparsity <= 1.0 ==>
      0 <= Round(sparsity * ((categories * series) as real)) <= categories * series
  {
    if categories == 0 || series == 0 {
      assert categories * series == 0;
    }
    if 0.0 <= sparsity <= 1.0 {
      ScaledRound(sparsity, categories * series);
    }
  }

  /** `addSparsity`: blank `round(sparsity * cells)` cells with "0". */
  method AddSparsity(rows: array<Row>, categories: nat, series: nat, sparsity: real, draws: seq<Draw>)
      returns (finished: bool)
    requires Rectangular(rows[..], categories, series)
    requires ValidDraws(draws)
    modifies rows
    ensures var target := SparsityTarget(sparsity, categories, series);
      var res := Inject(old(rows[..]), Picks(draws, categories, series), 0, 0, target, Sentinel);
      rows[..] == res.table && finished == (res.count >= target)
  {
    var target := SparsityTarget(sparsity, categories, series);
    finished := ReplaceValues(rows, categories, series, target, Sentinel, draws);
  }
}
