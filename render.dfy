/** Rendering of the table (`getSeriesName`, `getCategoryName`, `toRowStr`
    and the text `generateData` writes): row labels, the header, comma-joined
    rows and the CRLF-joined content, with the decoding that reads the
    content back. */
module Render {
  import opened Text
  import opened Tables

  const FieldSeparator: string := ","
  const RowSeparator: string := "\r\n"

  /** `getSeriesName`: "series" followed by the row number; the number can be
      read back from the label, so distinct rows get distinct labels. */
  function SeriesName(row: nat): (name: string)
    ensures |name| > 6 && name[..6] == "series"
    ensures IsDigits(name[6..]) && ParseDigits(name[6..]) == row
  {
    ParseNatToString(row);
    var name := "series" + NatToString(row);
    assert name[6..] == NatToString(row);
    name
  }

  /** `getCategoryName`: "category" followed by the column number, which can
      be read back from the name. */
  function CategoryName(column: nat): (name: string)
    ensures |name| > 8 && name[..8] == "category"
    ensures IsDigits(name[8..]) && ParseDigits(name[8..]) == column
  {
    ParseNatToString(column);
    var name := "category" + NatToString(column);
    assert name[8..] == NatToString(column);
    name
  }

  /** The header row `_.map(_.range(0, width), getCategoryName)`: one name
      per column, each naming its own index, no two alike. */
  function Header(width: nat): (h: Row)
    ensures |h| == width
    ensures forall i :: 0 <= i < width ==>
      |h[i]| > 8 && h[i][..8] == "category" && IsDigits(h[i][8..]) && ParseDigits(h[i][8..]) == i
    ensures forall i, j :: 0 <= i < j < width ==> h[i] != h[j]
  {
    seq(width, i requires 0 <= i => CategoryName(i))
  }

  /** `toRowStr`: the fields of a row joined with commas. */
  function ToRowStr(row: Row): string {
    Join(row, FieldSeparator)
  }

  /** `row.unshift(getSeriesName(r))`: the label in front of the row. */
  function LabelRow(r: nat, row: Row): Row {
    [SeriesName(r)] + row
  }

  /** The table after the labelling loop: row `r` led by its label. */
  function Labelled(t: Table): Table {
    seq(|t|, r requires 0 <= r < |t| => LabelRow(r, t[r]))
  }

  /** Each row as its comma-joined text, in table order. */
  function RowStrings(t: Table): seq<string> {
    seq(|t|, r requires 0 <= r < |t| => ToRowStr(t[r]))
  }

  /** `table.join('\r\n')`: every row turned into text by its implicit
      comma join, the rows separated by CRLF. */
  function Content(t: Table): string {
    Join(RowStrings(t), RowSeparator)
  }

  /** Reads content back: cut at CRLF, then cut every line at commas. */
  function Decode(content: string): Table {
    var lines := Split(content, RowSeparator);
    seq(|lines|, k requires 0 <= k < |lines| => Split(lines[k], FieldSeparator))
  }

  /** A cell that contains neither delimiter. */
  predicate CleanCell(cell: string) {
    ',' !in cell && '\r' !in cell
  }

  predicate CleanTable(t: Table) {
    forall r, c :: 0 <= r < |t| && 0 <= c < |t[r]| ==> CleanCell(t[r][c])
  }

  /** A row label contains neither delimiter. */
  lemma SeriesNameClean(r: nat)
    ensures CleanCell(SeriesName(r))
  {
    var name := SeriesName(r);
    assert name == name[..6] + name[6..];
    forall k | 0 <= k < |name[6..]| ensures name[6..][k] != ',' && name[6..][k] != '\r' {
      assert IsDigit(name[6..][k]);
    }
  }

  /** Splitting a row's text at commas gives the row back when its cells
      are free of commas. */
  lemma ToRowStrSplit(row: Row)
    requires |row| >= 1
    requires forall k :: 0 <= k < |row| ==> ',' !in row[k]
    ensures Split(ToRowStr(row), FieldSeparator) == row
  {
    JoinSplit(row, FieldSeparator);
  }

  /** Labelling keeps the table clean. */
  lemma LabelledClean(t: Table)
    requires CleanTable(t)
    ensures CleanTable(Labelled(t))
  {
    var l := Labelled(t);
    forall r, c | 0 <= r < |l| && 0 <= c < |l[r]| ensures CleanCell(l[r][c]) {
      if c == 0 {
        SeriesNameClean(r);
      } else {
        assert l[r][c] == l[r][1..][c - 1] == t[r][c - 1];
      }
    }
  }

  /** The content round trip: decoding the text of a non-empty table of
      clean cells whose rows are all non-empty gives the table back. */
  lemma ContentRoundTrip(t: Table)
    requires |t| >= 1 && CleanTable(t)
    requires forall r :: 0 <= r < |t| ==> |t[r]| >= 1
    ensures Decode(Content(t)) == t
  {
    var lines := RowStrings(t);
    forall r | 0 <= r < |t| ensures '\r' !in lines[r] && Split(lines[r], FieldSeparator) == t[r] {
      JoinExcludes(t[r], FieldSeparator, '\r');
      ToRowStrSplit(t[r]);
    }
    JoinSplit(lines, RowSeparator);
  }

  /** What the written text says: read back, it has one line per table row,
      line `r` is the label of `r` followed by row `r` after sparsity, and
      the label is the first field, never overwritten by the sentinel. */
  lemma LabelledContent(t: Table)
    requires |t| >= 1 && CleanTable(t)
    ensures var d := Decode(Content(Labelled(t)));
      |d| == |t| && forall r :: 0 <= r < |t| ==> d[r] == [SeriesName(r)] + t[r]
  {
    LabelledClean(t);
    ContentRoundTrip(Labelled(t));
  }
}
