/** The column analyser run after parsing: one column per index up to the
    widest row, with a name, three samples and an inferred kind. */
module Columns {
  import opened Common
  import opened Text
  import opened Domain

  /** `row[i] || ''`: the cell, or the empty string past the end of the row. */
  function Cell(row: seq<string>, i: nat): string {
    if i < |row| then row[i] else ""
  }

  /** Width of the widest row (0 for no rows), the `Math.max` over row lengths. */
  function MaxWidth(data: seq<seq<string>>): (w: nat)
    ensures forall k | 0 <= k < |data| :: |data[k]| <= w
    ensures data != [] ==> exists k | 0 <= k < |data| :: |data[k]| == w
    ensures data == [] ==> w == 0
    decreases |data|
  {
    if |data| == 0 then 0
    else
      var w := MaxWidth(data[1..]);
      if |data[0]| >= w then |data[0]| else w
  }

  /** Column `i` of every row, empty past the end of a row
      (`rows.map(r => r[i] || '')`). */
  function Cells(rows: seq<seq<string>>, i: nat): (cs: seq<string>)
    ensures |cs| == |rows|
    ensures forall k | 0 <= k < |rows| :: cs[k] == Cell(rows[k], i)
  {
    seq(|rows|, k requires 0 <= k < |rows| => Cell(rows[k], i))
  }

  /** The non-empty cells of column `i`, in row order
      (`.filter(Boolean)` over the cells). */
  function ColumnValues(rows: seq<seq<string>>, i: nat): (vs: seq<string>)
    ensures forall k | 0 <= k < |vs| :: vs[k] != ""
    ensures forall k | 0 <= k < |rows| && Cell(rows[k], i) != "" :: Cell(rows[k], i) in vs
    ensures forall v | v in vs :: exists k | 0 <= k < |rows| :: Cell(rows[k], i) == v
  {
    var cs := Cells(rows, i);
    assert forall k | 0 <= k < |rows| && Cell(rows[k], i) != "" :: cs[k] in Filter(cs, NonEmpty);
    Filter(cs, NonEmpty)
  }

  /** The values keep their rows' order and multiplicity: the `k`-th value
      is the cell of the `k`-th row whose cell is not empty. */
  lemma ColumnValuesInOrder(rows: seq<seq<string>>, i: nat)
    ensures |ColumnValues(rows, i)| == |Positions(Cells(rows, i), NonEmpty)|
    ensures forall k | 0 <= k < |ColumnValues(rows, i)| ::
      var p := Positions(Cells(rows, i), NonEmpty)[k];
      p < |rows| && ColumnValues(rows, i)[k] == Cell(rows[p], i)
  {
    FilterInOrder(Cells(rows, i), NonEmpty);
  }

  /** Every value passes the numeric test (`every`, so true of no values). */
  predicate AllNumeric(vs: seq<string>, isNumeric: string -> bool)
    decreases |vs|
  {
    |vs| == 0 || (isNumeric(vs[0]) && vs[0] != "" && AllNumeric(vs[1..], isNumeric))
  }

  predicate AnyHasAt(vs: seq<string>)
    decreases |vs|
  {
    |vs| > 0 && ('@' in vs[0] || AnyHasAt(vs[1..]))
  }

  predicate AnyHasDate(vs: seq<string>)
    decreases |vs|
  {
    |vs| > 0 && (HasDate(vs[0]) || AnyHasDate(vs[1..]))
  }

  predicate DigitsAt(s: string, p: nat, n: nat) {
    p + n <= |s| && forall k | p <= k < p + n :: IsDigit(s[k])
  }

  /** `\d{a}\/\d{b}\/\d{4}` matched at position `p`. */
  predicate DateShapeAt(s: string, p: nat, a: nat, b: nat) {
    && DigitsAt(s, p, a)
    && p + a < |s| && s[p + a] == '/'
    && DigitsAt(s, p + a + 1, b)
    && p + a + 1 + b < |s| && s[p + a + 1 + b] == '/'
    && DigitsAt(s, p + a + b + 2, 4)
  }

  /** `\d{1,2}\/\d{1,2}\/\d{4}` matched at position `p`. */
  predicate DateAt(s: string, p: nat) {
    DateShapeAt(s, p, 1, 1) || DateShapeAt(s, p, 1, 2) || DateShapeAt(s, p, 2, 1) || DateShapeAt(s, p, 2, 2)
  }

  /** The unanchored date test: a match starts somewhere in `s`. */
  predicate HasDate(s: string) {
    exists p | 0 <= p < |s| :: DateAt(s, p)
  }

  /** Kind inference, first match wins: number, email, date, text. */
  function InferType(vs: seq<string>, isNumeric: string -> bool): (t: ColumnType)
    ensures t == NumberType <==> forall k | 0 <= k < |vs| :: isNumeric(vs[k]) && vs[k] != ""
    ensures t == EmailType <==>
      (exists k | 0 <= k < |vs| :: !(isNumeric(vs[k]) && vs[k] != "")) && exists k | 0 <= k < |vs| :: '@' in vs[k]
    ensures t == DateType <==>
      && (exists k | 0 <= k < |vs| :: !(isNumeric(vs[k]) && vs[k] != ""))
      && (forall k | 0 <= k < |vs| :: '@' !in vs[k])
      && exists k | 0 <= k < |vs| :: HasDate(vs[k])
  {
    AllNumericIff(vs, isNumeric);
    AnyHasAtIff(vs);
    AnyHasDateIff(vs);
    if AllNumeric(vs, isNumeric) then NumberType
    else if AnyHasAt(vs) then EmailType
    else if AnyHasDate(vs) then DateType
    else TextType
  }

  lemma {:induction false} AllNumericIff(vs: seq<string>, isNumeric: string -> bool)
    ensures AllNumeric(vs, isNumeric) <==> forall k | 0 <= k < |vs| :: isNumeric(vs[k]) && vs[k] != ""
    decreases |vs|
  {
    if |vs| > 0 {
      AllNumericIff(vs[1..], isNumeric);
      assert forall k | 1 <= k < |vs| :: vs[k] == vs[1..][k - 1];
    }
  }

  lemma {:induction false} AnyHasAtIff(vs: seq<string>)
    ensures AnyHasAt(vs) <==> exists k | 0 <= k < |vs| :: '@' in vs[k]
    decreases |vs|
  {
    if |vs| > 0 {
      AnyHasAtIff(vs[1..]);
      assert forall k | 1 <= k < |vs| :: vs[k] == vs[1..][k - 1];
    }
  }

  lemma {:induction false} AnyHasDateIff(vs: seq<string>)
    ensures AnyHasDate(vs) <==> exists k | 0 <= k < |vs| :: HasDate(vs[k])
    decreases |vs|
  {
    if |vs| > 0 {
      AnyHasDateIff(vs[1..]);
      assert forall k | 1 <= k < |vs| :: vs[k] == vs[1..][k - 1];
    }
  }

  /** The rows that carry data: all of them, or all but the first when the
      file has a header row. */
  function DataRows(data: seq<seq<string>>, hasHeader: bool): seq<seq<string>> {
    if hasHeader && |data| > 0 then data[1..] else data
  }

  /** The synthesised name `Column {i+1}`. */
  function DefaultName(i: nat): string {
    "Column " + NatToString(i + 1)
  }

  /** `c` is column `i` of the file: named by its header cell when that is
      non-empty, sampled from the first three non-empty values of the data
      rows only, and typed from all of them. */
  predicate ColumnOf(data: seq<seq<string>>, hasHeader: bool, isNumeric: string -> bool, i: nat, c: Column) {
    var values := ColumnValues(DataRows(data, hasHeader), i);
    && |data| > 0
    && c.index == i
    && |c.sample| <= 3
    && |c.sample| <= |values|
    && c.sample == values[..|c.sample|]
    && (|c.sample| < 3 ==> c.sample == values)
    && c.name == (if hasHeader && i < |data[0]| && data[0][i] != "" then data[0][i] else DefaultName(i))
    && c.kind == InferType(values, isNumeric)
  }

  function AnalyzeColumn(data: seq<seq<string>>, hasHeader: bool, isNumeric: string -> bool, i: nat): (c: Column)
    requires |data| > 0
    ensures ColumnOf(data, hasHeader, isNumeric, i, c)
  {
    var values := ColumnValues(DataRows(data, hasHeader), i);
    var name := if hasHeader && Cell(data[0], i) != "" then data[0][i] else DefaultName(i);
    Column(name, i, Take(values, 3), InferType(values, isNumeric))
  }

  /** The analyser: no columns for no rows; otherwise column `i` for every
      index below the widest row, named by the header cell when there is a
      non-empty one, sampled from the data rows only. */
  function Analyze(data: seq<seq<string>>, hasHeader: bool, isNumeric: string -> bool): (cols: seq<Column>)
    ensures data == [] ==> cols == []
    ensures |cols| == MaxWidth(data)
    ensures forall i | 0 <= i < |cols| :: ColumnOf(data, hasHeader, isNumeric, i, cols[i])
  {
    if |data| == 0 then []
    else seq(MaxWidth(data), i requires 0 <= i => AnalyzeColumn(data, hasHeader, isNumeric, i))
  }

  /** Every sample value is a non-empty cell of that column in some data row
      (never the header cell). */
  lemma SampleFromDataRows(data: seq<seq<string>>, hasHeader: bool, isNumeric: string -> bool, i: nat, v: string)
    requires i < |Analyze(data, hasHeader, isNumeric)|
    requires v in Analyze(data, hasHeader, isNumeric)[i].sample
    ensures v != ""
    ensures exists k | 0 <= k < |DataRows(data, hasHeader)| :: Cell(DataRows(data, hasHeader)[k], i) == v
  {
    var vs := ColumnValues(DataRows(data, hasHeader), i);
    assert v in vs;
  }

  /** A column with no non-empty data cell is typed `number`, because the
      "every value is numeric" test holds vacuously. */
  lemma EmptyColumnIsNumber(data: seq<seq<string>>, hasHeader: bool, isNumeric: string -> bool, i: nat)
    requires i < |Analyze(data, hasHeader, isNumeric)|
    requires forall k | 0 <= k < |DataRows(data, hasHeader)| :: Cell(DataRows(data, hasHeader)[k], i) == ""
    ensures Analyze(data, hasHeader, isNumeric)[i].kind == NumberType
    ensures Analyze(data, hasHeader, isNumeric)[i].sample == []
  {
    NoValuesInBlankColumn(DataRows(data, hasHeader), i);
  }

  lemma NoValuesInBlankColumn(rows: seq<seq<string>>, i: nat)
    requires forall k | 0 <= k < |rows| :: Cell(rows[k], i) == ""
    ensures ColumnValues(rows, i) == []
  {
    FilterEmpty(Cells(rows, i), NonEmpty);
  }
}
