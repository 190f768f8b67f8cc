# DataGen `generateData.ts` in Dafny

`generateData.ts` is a one-file script that writes test data. It builds a
table of 200 rows ("categories") with 10 measure cells each ("series"),
filled with random numbers rendered as text. It then blanks 10% of the cells
by overwriting them with the sentinel `"0"`. Each row is labelled
`"series<r>"` and the rows are rendered as comma-separated lines joined by
CRLF, which is the content passed to the write of `data.csv`.

The model has five modules:

- `Text` (`text.dfy`): the decimal numeral JavaScript produces for a
  non-negative integer in `"series" + r`, and `Array.prototype.join`. Each
  has an inverse (`ParseDigits`, `Split`) and a proved round trip.
- `Tables` (`tables.dfy`): `buildDataTable` as a method with the source's
  nested loops. It is proved equal to a reference chunking `Grid`. The random
  cell values are an oracle: a sequence of opaque strings consumed in loop
  order.
- `Sparsity` (`sparsity.dfy`): `addSparsity` and `replaceValues`.
  `replaceValues` is a method that rewrites an `array<Row>` in place, proved
  against the function `Inject`, which is the same loop written as
  recursion. The calls to `Math.random()` are an oracle: a sequence of pairs
  of samples in [0, 1). `Math.round` is written out as `floor(x + 0.5)` on
  exact reals, so the fact that every picked cell lies in
  `[0, categories-1] × [0, series-1]` is proved, not assumed. The oracle is
  also the loop's fuel. If it runs out before the target is reached, the
  result says so; the original would still be sampling.
- `Render` (`render.dfy`): `getSeriesName`, `getCategoryName`, `toRowStr`, the
  header, the row labels, and the content `table.join('\r\n')`, with a
  decoder and the round trip through it.
- `Generate` (`generate.dfy`): `generateData` as a method, its outcome as a
  function `Outcome`, and lemmas about what the written content says.

Behaviour reproduced as written:

- The content is `table.join('\r\n')`, not `lines.join(...)`. Each labelled
  row becomes its comma join, so the header line that `generateData` builds
  into `lines` never reaches the content. The model returns `lines` beside
  the content, and `OutcomeOmitsHeader` proves the content is the CRLF join
  of `lines[1..]`.
- Labelling runs after sparsity. The label cell is therefore never a
  sampling target, and the decoded content shows it as the first field of
  every line.
- With 0 rows, `table[0].length` throws while the header is built. The model
  returns `HeaderTypeError`, and `GenerateData` proves this happens exactly
  when `categories == 0`.
- The sampling loop has no retry cap. It ends only when the counter reaches
  the target, so a target above the number of cells not yet holding the
  sentinel never terminates. The model returns `StillSampling` when the
  samples run out.

## Model

| member | source | states |
|---|---|---|
| `Tables.Grid` | generateData.ts:42-59 | the reference table has `categories` rows of `series` cells, and its cells read row by row are exactly the values drawn |
| `Tables.GridCell` | generateData.ts:45-55 | cell `s` of row `c` is the value drawn at step `c * series + s` of the nested loop (rows outer, cells inner) |
| `Tables.GridUnique` | generateData.ts:42-59 | a table is determined by its shape and its cells in row order, so any loop producing that shape and order builds `Grid` |
| `Tables.BuildDataTable` | generateData.ts:42-59 | the nested loops return `categories` rows of `series` cells, filled in loop order, equal to `Grid` |
| `Sparsity.Round` | generateData.ts:24 | `Math.round`: the result is the integer nearest to its argument, with halves rounded up |
| `Sparsity.ScaledRound` | generateData.ts:24 | rounding a fraction in [0, 1] of `m` gives an integer between 0 and `m` |
| `Sparsity.PickIndex` | generateData.ts:32-33 | the row or column index one sample picks lies in `[0, n-1]` when the sample is in [0, 1) and `n >= 1` |
| `Sparsity.Pick` | generateData.ts:32-33 | definition of one `(r, c)` pick from a pair of samples; its property is carried by `Sparsity.PicksAt` and `Sparsity.Picks` |
| `Sparsity.Picks` | generateData.ts:32-33 | every picked cell lies in `[0, categories-1] × [0, series-1]`, one pick per pair of samples |
| `Sparsity.PicksAt` | generateData.ts:32-33 | pick `k` is the row and column picked by the `k`-th pair of samples, in loop order |
| `Sparsity.Inject` | generateData.ts:29-40 | the sampling loop from iteration `k` as a function of table, picks, counter and target; it stops at an iteration between `k` and the number of picks |
| `Sparsity.InjectShape` | generateData.ts:35-36 | the loop only overwrites cells, so the table keeps its number of rows and each row's length |
| `Sparsity.InjectCells` | generateData.ts:35-38 | a cell the loop changes now holds the value, did not hold it before, and was one of the consumed picks; every other cell is unchanged |
| `Sparsity.InjectCount` | generateData.ts:30-39 | loop invariant: the counter grows by exactly the number of cells that now hold the value and did not before |
| `Sparsity.InjectStops` | generateData.ts:31 | the loop stops with the counter equal to the target, or below it only when the samples are exhausted; with the counter already at the target nothing changes |
| `Sparsity.ReplaceValuesSpec` | generateData.ts:29-40 | from a counter of 0: shape kept; changed cells newly hold the value; cells already holding it are kept; finishing means exactly `targetCount` cells newly hold the value; finishing needs at least `targetCount` cells that did not hold it |
| `Sparsity.Overwrite` | generateData.ts:35-38 | one pick: the cell is overwritten with the value and reported as counted exactly when it did not hold the value; nothing else in the table changes |
| `Sparsity.ReplaceValues` | generateData.ts:29-40 | the in-place loop over the array leaves exactly the table `Inject` describes from iteration 0 and counter 0, and reports whether the target was reached; what that table satisfies is `ReplaceValuesSpec` |
| `Sparsity.SparsityTarget` | generateData.ts:24 | the target is 0 for an empty table, and between 0 and the number of cells when sparsity is in [0, 1] |
| `Sparsity.AddSparsity` | generateData.ts:23-27 | the table becomes `Inject` with target `round(sparsity * cells)` and sentinel `"0"` |
| `Generate.DefaultTarget` | generateData.ts:3-7 | with 200 rows, 10 series and sparsity 0.10 the target is 200 of 2000 cells |
| `Text.NatToString` | generateData.ts:62 | the numeral of a row number is non-empty, all digits, and starts with `0` only for the number 0 |
| `Text.ParseNatToString` | generateData.ts:62 | reading the numeral of `n` back gives `n` |
| `Text.NatToStringInjective` | generateData.ts:66 | distinct numbers give distinct numerals |
| `Text.Join` | generateData.ts:70 | definition of `Array.prototype.join` on strings; its properties are carried by `Text.JoinSplit` and `Text.JoinExcludes` |
| `Text.JoinSplit` | generateData.ts:70 | for a non-empty separator and at least one element, none containing the separator's first character, splitting the join at the separator gives the elements back |
| `Text.JoinExcludes` | generateData.ts:89 | a character absent from the elements and from the separator is absent from the join |
| `Render.SeriesName` | generateData.ts:61-63 | the label is `series` followed by digits that read back as the row number, so distinct rows get distinct labels |
| `Render.CategoryName` | generateData.ts:65-67 | the name is `category` followed by digits that read back as the column number |
| `Render.Header` | generateData.ts:82 | the header has one name per column; name `i` reads back as `i`; no two names are equal |
| `Render.SeriesNameClean` | generateData.ts:61-63 | a row label contains neither a comma nor a carriage return |
| `Render.ToRowStr` | generateData.ts:69-71 | definition of `toRowStr` (comma join); its property is carried by `Render.ToRowStrSplit` |
| `Render.ToRowStrSplit` | generateData.ts:69-71 | for a row of at least one cell, none containing a comma, splitting the row's text at commas gives the row back |
| `Render.ContentRoundTrip` | generateData.ts:89 | decoding the CRLF-joined rows gives the table back, for a non-empty table of non-empty rows whose cells contain no delimiter |
| `Render.LabelRow` | generateData.ts:85-86 | definition of `row.unshift(getSeriesName(r))` on a value; its property is carried by `Render.LabelledContent` |
| `Render.Labelled` | generateData.ts:84-88 | definition of the table after the labelling loop; `Generate.LabelRows` is proved equal to it and `Render.LabelledContent` states what it contains |
| `Render.Content` | generateData.ts:89 | definition of `table.join('\r\n')` with each row joined by commas; its property is carried by `Render.ContentRoundTrip` |
| `Render.LabelledContent` | generateData.ts:84-89 | for a table of at least one row whose cells contain no comma and no CR, the content of the labelled table decodes to one line per row: the row's label, then its cells |
| `Generate.Sparsified` | generateData.ts:75-78 | definition of the table after `buildDataTable` and `addSparsity`; its properties are carried by `Generate.SparsifiedClean` and `Generate.OutcomeSparsity` |
| `Generate.Outcome` | generateData.ts:73-92 | definition of a whole run; `Generate.GenerateData` is proved equal to it, and `Generate.OutcomeOmitsHeader`, `Generate.OutcomeDecodes` and `Generate.OutcomeSparsity` state its properties |
| `Generate.SparsifiedClean` | generateData.ts:26 | cells drawn without delimiters stay without delimiters after sparsity, since the sentinel `"0"` has none |
| `Generate.OutcomeOmitsHeader` | generateData.ts:81-89 | the content is the CRLF join of `lines` without the header line |
| `Generate.OutcomeDecodes` | generateData.ts:84-89 | when every drawn cell is free of commas and CRs, read back, the content has one line per row; line `r` is `series<r>` followed by row `r` after sparsity |
| `Generate.OutcomeSparsity` | generateData.ts:75-78 | after a finished run, exactly the target (0 if negative) number of cells newly hold `"0"`; every other cell is the one built for it |
| `Generate.LabelRows` | generateData.ts:83-88 | the loop puts label `r` in front of row `r` in place, and `lines` is the header text followed by each labelled row's text |
| `Generate.GenerateData` | generateData.ts:73-92 | the run equals `Outcome`; the content omits the header line; the run fails on the header exactly when there are no rows |

## Left out

- The file write `fs.writeFile("data.csv", content)` (generateData.ts:91) is I/O. The model stops at the content string.
- `Math.random()` is left out. The cell values and the index samples come from caller-supplied sequences, so the model does not capture the distribution of the picks or the bias of `Math.round(random * (n - 1))` towards interior indices.
- The numeric cell values (generateData.ts:48-52) are left out. Generating a float, snapping it to the precision and rendering it with `toString` are floating-point arithmetic and platform formatting. Cell values are opaque strings. The round trip through the content assumes they contain no comma and no carriage return, which decimal renderings of numbers never do.
- `Round`, `PickIndex` and `SparsityTarget` compute on exact reals, not IEEE doubles. For the script's constants, 0.1 × 2000 rounds to 200 either way.
- `_` (lodash) is used at generateData.ts:82 but never imported. As written, that line throws a ReferenceError unless a global `_` exists. The model takes `_.map(_.range(0, n), f)` as the sequence of `f(i)` for `i` below `n`.
- The module-level globals (generateData.ts:3-15) become parameters and constants. `isScalar`, `lowerBound`, `upperBound`, `range` and `precision` only feed the value generation or are unused.
- Sparsity.ReplaceValues: requires a table of `categories` rows of `series` cells. It also requires `categories` and `series` to be at least 1 when the target is positive. The source picks indices from the global sizes, not the table's, and with a size of 0 it would index outside the table. Its only caller, `addSparsity`, never reaches that case: the target is then 0.
- The endless sampling loop is modelled only as far as the samples given reach. `StillSampling` stands for a run that has not ended yet, not for an error the source reports. For the same reason `ReplaceValues` and `AddSparsity` return whether the target was reached, where the source functions return nothing.
- Object identity of the row arrays is not modelled. Rows are values inside one mutable `array<Row>`. The source never aliases two rows, so in-place updates of a row are updates of its slot.
