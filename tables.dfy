/** The value table of the generator (`buildDataTable`): `categories` rows of
    `series` cells, filled in loop order from a stream of cell texts. */
module Tables {

  type Row = seq<string>
  type Table = seq<Row>

  /** `t` has `categories` rows and every row has `series` cells. */
  predicate Rectangular(t: Table, categories: nat, series: nat) {
    |t| == categories && forall r :: 0 <= r < |t| ==> |t[r]| == series
  }

  /** The cells of `t` read row by row. */
  function Flatten(t: Table): seq<string> {
    if t == [] then [] else t[0] + Flatten(t[1..])
  }

  /** Reference definition of the table built from `draws`: consecutive
      chunks of `series` cells, one chunk per row. */
  function Grid(draws: seq<string>, categories: nat, series: nat): (t: Table)
    requires |draws| == categories * series
    ensures Rectangular(t, categories, series)
    ensures Flatten(t) == draws
    decreases categories
  {
    if categories == 0 then []
    else
      var t := [draws[..series]] + Grid(draws[series..], categories - 1, series);
      assert t[1..] == Grid(draws[series..], categories - 1, series);
      t
  }

  lemma {:induction false} FlattenAppend(t: Table, row: Row)
    ensures Flatten(t + [row]) == Flatten(t) + row
    decreases |t|
  {
    if t != [] {
      assert (t + [row])[1..] == t[1..] + [row];
      FlattenAppend(t[1..], row);
    }
  }

  /** A rectangular table is determined by its shape and its cells in row
      order. */
  lemma {:induction false} GridUnique(t: Table, draws: seq<string>, categories: nat, series: nat)
    requires Rectangular(t, categories, series) && Flatten(t) == draws
    ensures |draws| == categories * series
    ensures t == Grid(draws, categories, series)
    decreases categories
  {
    if categories > 0 {
      MulPred(categories, series);
      assert Flatten(t) == t[0] + Flatten(t[1..]);
      assert t[0] == draws[..series];
      assert Flatten(t[1..]) == draws[series..];
      GridUnique(t[1..], draws[series..], categories - 1, series);
      assert t == [t[0]] + t[1..];
    }
  }

  /** Cell `s` of row `c` is the draw made at step `c * series + s` of the
      nested loop: rows in order, cells in order within a row. */
  lemma {:induction false} GridCell(draws: seq<string>, categories: nat, series: nat, c: nat, s: nat)
    requires |draws| == categories * series
    requires c < categories && s < series
    ensures c * series + s < |draws|
    ensures Grid(draws, categories, series)[c][s] == draws[c * series + s]
    decreases c
  {
    MulPred(categories, series);
    if c > 0 {
      MulPred(c, series);
      var rest := draws[series..];
      GridCell(rest, categories - 1, series, c - 1, s);
      assert Grid(draws, categories, series)[c] == Grid(rest, categories - 1, series)[c - 1];
      assert rest[(c - 1) * series + s] == draws[c * series + s];
    }
  }

  lemma MulPred(a: nat, m: nat)
    requires a >= 1
    ensures (a - 1) * m >= 0
    ensures (a - 1) * m + m == a * m
  {
  }

  lemma MulMonotone(a: nat, b: nat, m: nat)
    requires a <= b
    ensures a * m <= b * m
  {
  }

  /** `buildDataTable`: an outer loop over the rows and an inner loop over
      the cells of a row, each cell taking the next value of the stream. */
  method BuildDataTable(categories: nat, series: nat, draws: seq<string>) returns (rows: Table)
    requires |draws| == categories * series
    ensures Rectangular(rows, categories, series)
    ensures Flatten(rows) == draws
    ensures rows == Grid(draws, categories, series)
  {
    rows := [];
    var k := 0;
    var c := 0;
    while c < categories
      invariant 0 <= c <= categories
      invariant k == c * series
      invariant Rectangular(rows, c, series)
      invariant Flatten(rows) == draws[..k]
    {
      MulMonotone(c + 1, categories, series);
      var start := k;
      assert start + series <= |draws|;
      var row: Row := [];
      var s := 0;
      while s < series
        invariant 0 <= s <= series
        invariant k == start + s
        invariant row == draws[start .. k]
      {
        row := row + [draws[k]];
        k := k + 1;
        s := s + 1;
      }
      FlattenAppend(rows, row);
      assert draws[..start] + draws[start .. k] == draws[..k];
      assert k == (c + 1) * series;
      rows := rows + [row];
      c := c + 1;
    }
    assert draws[..k] == draws;
    GridUnique(rows, draws, categories, series);
  }
}
