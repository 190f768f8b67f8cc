/** `generateData`: build the table, blank a fraction of its cells, label
    each row, and produce the text that would be written to data.csv. */
module Generate {
  import opened Text
  import opened Tables
  import opened Sparsity
  import opened Render

  /** The script's settings: 200 rows ("categories"), 10 cells per row
      ("series"), a tenth of the cells blanked. */
  const Categories: nat := 200
  const Series: nat := 10
  const SparsityFraction: real := 0.10

  /** With the script's settings the target is 200 of the 2000 cells. */
  lemma DefaultTarget()
    ensures Categories * Series == 2000
    ensures SparsityTarget(SparsityFraction, Categories, Series) == 200
  {
  }

  /** How a run ends.
      Written: the content passed to the file write, and the `lines` list the
      script builds (header first) but never writes.
      StillSampling: the sampling loop had not reached its target when the
      samples given ran out; the script would still be looping.
      HeaderTypeError: the table has no row, so reading the width of row 0
      for the header throws. */
  datatype Run =
    | Written(content: string, lines: seq<string>)
    | StillSampling
    | HeaderTypeError

  /** The table after `buildDataTable` and `addSparsity`, as a value. */
  function Sparsified(categories: nat, series: nat, sparsity: real, cellDraws: seq<string>,
                      pickDraws: seq<Draw>): (res: Injection)
    requires |cellDraws| == categories * series
    requires ValidDraws(pickDraws)
  {
    Inject(Grid(cellDraws, categories, series), Picks(pickDraws, categories, series), 0, 0,
           SparsityTarget(sparsity, categories, series), Sentinel)
  }

  /** The run, as a value: sampling first, then the header, then the
      labelled rows joined into the content. */
  function Outcome(categories: nat, series: nat, sparsity: real, cellDraws: seq<string>,
                   pickDraws: seq<Draw>): Run
    requires |cellDraws| == categories * series
    requires ValidDraws(pickDraws)
  {
    var res := Sparsified(categories, series, sparsity, cellDraws, pickDraws);
    if res.count < SparsityTarget(sparsity, categories, series) then StillSampling
    else if categories == 0 then HeaderTypeError
    else
      var labelled := Labelled(res.table);
      Written(Content(labelled), [ToRowStr(Header(series))] + RowStrings(labelled))
  }

  /** Cells drawn free of delimiters stay so after sparsity, since the
      sentinel "0" is free of them too. */
  lemma SparsifiedClean(categories: nat, series: nat, sparsity: real, cellDraws: seq<string>,
                        pickDraws: seq<Draw>)
    requires |cellDraws| == categories * series
    requires ValidDraws(pickDraws)
    requires forall k :: 0 <= k < |cellDraws| ==> CleanCell(cellDraws[k])
    ensures CleanTable(Sparsified(categories, series, sparsity, cellDraws, pickDraws).table)
  {
    var g := Grid(cellDraws, categories, series);
    var target := SparsityTarget(sparsity, categories, series);
    var res := Sparsified(categories, series, sparsity, cellDraws, pickDraws);
    InjectCells(g, Picks(pickDraws, categories, series), 0, 0, target, Sentinel);
    forall r, c | 0 <= r < |res.table| && 0 <= c < |res.table[r]| ensures CleanCell(res.table[r][c]) {
      GridCell(cellDraws, categories, series, r, c);
      if res.table[r][c] == Sentinel {
        assert res.table[r][c] == ['0'];
      }
    }
  }

  /** The written content is the labelled rows joined by CRLF: the `lines`
      list without its header line. */
  lemma OutcomeOmitsHeader(categories: nat, series: nat, sparsity: real, cellDraws: seq<string>,
                           pickDraws: seq<Draw>)
    requires |cellDraws| == categories * series
    requires ValidDraws(pickDraws)
    ensures var run := Outcome(categories, series, sparsity, cellDraws, pickDraws);
      run.Written? ==> run.content == Join(run.lines[1..], RowSeparator)
  {
    var run := Outcome(categories, series, sparsity, cellDraws, pickDraws);
    if run.Written? {
      var res := Sparsified(categories, series, sparsity, cellDraws, pickDraws);
      assert run.lines[1..] == RowStrings(Labelled(res.table));
    }
  }

  /** Read back, the written content has one line per row of the table,
      and line `r` is the label of `r` followed by row `r` after sparsity. */
  lemma OutcomeDecodes(categories: nat, series: nat, sparsity: real, cellDraws: seq<string>,
                       pickDraws: seq<Draw>, sparse: Table)
    requires |cellDraws| == categories * series
    requires ValidDraws(pickDraws)
    requires forall k :: 0 <= k < |cellDraws| ==> CleanCell(cellDraws[k])
    requires sparse == Sparsified(categories, series, sparsity, cellDraws, pickDraws).table
    ensures var run := Outcome(categories, series, sparsity, cellDraws, pickDraws);
      run.Written? ==>
        |Decode(run.content)| == categories == |sparse| &&
        forall r :: 0 <= r < categories ==> Decode(run.content)[r] == [SeriesName(r)] + sparse[r]
  {
    var run := Outcome(categories, series, sparsity, cellDraws, pickDraws);
    if run.Written? {
      SparsifiedClean(categories, series, sparsity, cellDraws, pickDraws);
      InjectShape(Grid(cellDraws, categories, series), Picks(pickDraws, categories, series), 0, 0,
                  SparsityTarget(sparsity, categories, series), Sentinel);
      LabelledContent(sparse);
    }
  }

  /** After a complete run exactly the target number of cells newly hold
      the sentinel, and every cell that does not hold it is the cell the
      table was built with. */
  lemma OutcomeSparsity(categories: nat, series: nat, sparsity: real, cellDraws: seq<string>,
                        pickDraws: seq<Draw>, sparse: Table)
    requires |cellDraws| == categories * series
    requires ValidDraws(pickDraws)
    requires sparse == Sparsified(categories, series, sparsity, cellDraws, pickDraws).table
    ensures Rectangular(sparse, categories, series)
    ensures var target := SparsityTarget(sparsity, categories, series);
      Outcome(categories, series, sparsity, cellDraws, pickDraws).Written? ==>
        |Newly(Grid(cellDraws, categories, series), sparse, Sentinel)| == if target < 0 then 0 else target
    ensures forall r, c :: 0 <= r < categories && 0 <= c < series && sparse[r][c] != Sentinel ==>
      sparse[r][c] == Grid(cellDraws, categories, series)[r][c]
  {
    var grid := Grid(cellDraws, categories, series);
    var target := SparsityTarget(sparsity, categories, series);
    var res := Sparsified(categories, series, sparsity, cellDraws, pickDraws);
    ReplaceValuesSpec(grid, Picks(pickDraws, categories, series), target, Sentinel);
    InjectStops(grid, Picks(pickDraws, categories, series), 0, 0, target, Sentinel);
  }

  /** The run after the table has been labelled, in the case where sampling
      finished and the table has rows. */
  lemma WrittenOutcome(categories: nat, series: nat, sparsity: real, cellDraws: seq<string>,
                       pickDraws: seq<Draw>, sparse: Table)
    requires |cellDraws| == categories * series
    requires ValidDraws(pickDraws)
    requires sparse == Sparsified(categories, series, sparsity, cellDraws, pickDraws).table
    requires Sparsified(categories, series, sparsity, cellDraws, pickDraws).count >= SparsityTarget(sparsity, categories, series)
    requires |sparse| > 0
    ensures |sparse[0]| == series
    ensures Outcome(categories, series, sparsity, cellDraws, pickDraws) ==
      Written(Content(Labelled(sparse)), [ToRowStr(Header(|sparse[0]|))] + RowStrings(Labelled(sparse)))
  {
    InjectShape(Grid(cellDraws, categories, series), Picks(pickDraws, categories, series), 0, 0,
                SparsityTarget(sparsity, categories, series), Sentinel);
  }

  /** The labelling loop of `generateData`: `lines` starts with the header
      text; each row in turn gets its label put in front, in place, and its
      text appended to `lines`. */
  method LabelRows(table: array<Row>, header: Row) returns (lines: seq<string>)
    modifies table
    ensures table[..] == Labelled(old(table[..]))
    ensures lines == [ToRowStr(header)] + RowStrings(table[..])
  {
    ghost var rows := table[..];
    lines := [ToRowStr(header)];
    var r := 0;
    while r < table.Length
      invariant 0 <= r <= table.Length
      invariant forall i :: 0 <= i < r ==> table[i] == LabelRow(i, rows[i])
      invariant forall i :: r <= i < table.Length ==> table[i] == rows[i]
      invariant |lines| == r + 1 && lines[0] == ToRowStr(header)
      invariant forall i :: 0 <= i < r ==> lines[i + 1] == ToRowStr(table[i])
    {
      var row := table[r];
      row := LabelRow(r, row);
      table[r] := row;
      lines := lines + [ToRowStr(row)];
      r := r + 1;
    }
    assert table[..] == Labelled(rows);
    assert lines == [ToRowStr(header)] + RowStrings(table[..]);
  }

  /** `generateData`, step by step: the rows are built, become the shared
      table that `addSparsity` rewrites in place, and are then labelled in
      place by the loop that also fills `lines`; the content is the table
      joined by CRLF. */
  method GenerateData(categories: nat, series: nat, sparsity: real, cellDraws: seq<string>,
                      pickDraws: seq<Draw>) returns (run: Run)
    requires |cellDraws| == categories * series
    requires ValidDraws(pickDraws)
    ensures run == Outcome(categories, series, sparsity, cellDraws, pickDraws)
    ensures run.Written? ==> run.content == Join(run.lines[1..], RowSeparator)
    ensures categories == 0 <==> run.HeaderTypeError?
  {
    var built := BuildDataTable(categories, series, cellDraws);
    var table := new Row[|built|](i requires 0 <= i < |built| => built[i]);
    assert table[..] == built;
    var finished := AddSparsity(table, categories, series, sparsity, pickDraws);
    ghost var sparse := table[..];
    if !finished {
      return StillSampling;
    }
    if table.Length == 0 {
      return HeaderTypeError;
    }
    WrittenOutcome(categories, series, sparsity, cellDraws, pickDraws, sparse);
    var header := Header(|table[0]|);
    var lines := LabelRows(table, header);
    run := Written(Content(table[..]), lines);
    OutcomeOmitsHeader(categories, series, sparsity, cellDraws, pickDraws);
  }
}
