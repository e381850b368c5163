/** The export of the mapped file: the confirmed slots, in display order,
    become the columns of a new CSV whose header line is their captions and
    whose data lines take each slot's source column from every data row. */
module Export {
  import opened Common
  import opened Text
  import opened Domain
  import opened Columns
  import opened Ordering
  import opened Csv
  import Slots

  /** Why no file is produced: nothing was uploaded, or the mapping is not
      complete (`confirmed` of `total` captions confirmed; the message for
      zero confirmations differs). */
  datatype ExportError = NoData | Incomplete(confirmed: nat, total: nat)

  /** The slots that become output columns. */
  predicate Exported(r: MappingRow) {
    r.caption != "" && r.confirmed && r.header != "" && r.header != Unassigned
  }

  function ExportedRows(rows: seq<MappingRow>): (r: seq<MappingRow>)
    ensures forall k | 0 <= k < |r| :: Exported(r[k])
    ensures multiset(r) == multiset(Filter(rows, Exported))
    ensures SortedByOrder(r)
  {
    var r := SortByOrder(Filter(rows, Exported));
    assert forall k | 0 <= k < |r| :: r[k] in multiset(Filter(rows, Exported));
    r
  }

  /** The source position of a slot's column, or -1 when no column has the
      slot's header as its name. */
  function SourceIndex(columns: seq<Column>, header: string): (i: int)
    ensures i == -1 <==> Slots.FindColumn(columns, header).None?
    ensures i >= 0 ==> i == Slots.FindColumn(columns, header).value.index
  {
    match Slots.FindColumn(columns, header)
    case Some(c) => c.index
    case None => -1
  }

  /** One output line's cells: the source cell for each column, empty for
      an unknown one. */
  function Project(row: seq<string>, indices: seq<int>): (r: seq<string>)
    ensures |r| == |indices|
    ensures forall k | 0 <= k < |indices| :: r[k] == if indices[k] >= 0 then Cell(row, indices[k] as nat) else ""
  {
    seq(|indices|, k requires 0 <= k < |indices| => if indices[k] >= 0 then Cell(row, indices[k] as nat) else "")
  }

  /** The output table before serialisation: the captions, then one
      projected line per data row. */
  function Table(slots: seq<MappingRow>, columns: seq<Column>, dataRows: seq<seq<string>>): (t: seq<Row>)
    ensures |t| == |dataRows| + 1
    ensures |t[0]| == |slots| && forall k | 0 <= k < |slots| :: t[0][k] == slots[k].caption
    ensures forall r | 1 <= r < |t| :: |t[r]| == |slots|
    ensures forall r, k | 1 <= r < |t| && 0 <= k < |slots| && k < |t[r]| ::
      t[r][k] == if SourceIndex(columns, slots[k].header) >= 0 then Cell(dataRows[r - 1], SourceIndex(columns, slots[k].header) as nat) else ""
  {
    var indices := seq(|slots|, k requires 0 <= k < |slots| => SourceIndex(columns, slots[k].header));
    [seq(|slots|, k requires 0 <= k < |slots| => slots[k].caption)]
      + seq(|dataRows|, r requires 0 <= r < |dataRows| => Project(dataRows[r], indices))
  }

  function SerializeAll(t: seq<Row>): (lines: seq<string>)
    ensures |lines| == |t|
    ensures forall k | 0 <= k < |t| :: lines[k] == SerializeRow(t[k])
  {
    seq(|t|, k requires 0 <= k < |t| => SerializeRow(t[k]))
  }

  /** The generated file, or the reason there is none. */
  function Generate(data: seq<seq<string>>, hasHeader: bool, table: seq<MappingRow>, columns: seq<Column>): (r: Result<string, ExportError>)
    ensures data == [] <==> r == Err(NoData)
    ensures r.Err? && r.error.Incomplete? ==>
      r.error.confirmed == Slots.ConfirmedCount(table) && r.error.total == Slots.TotalCaptions(table)
    ensures r.Ok? ==> Slots.AllConfirmed(table) && ExportedRows(table) != []
    ensures r.Ok? ==> r.value == Join(SerializeAll(Table(ExportedRows(table), columns, DataRows(data, hasHeader))), '\n')
  {
    if |data| == 0 then Err(NoData)
    else
      var slots := ExportedRows(table);
      var total := Slots.TotalCaptions(table);
      var confirmed := Slots.ConfirmedCount(table);
      if |slots| == 0 || confirmed != total then Err(Incomplete(confirmed, total))
      else
        assert total > 0 by {
          assert slots[0] in multiset(Filter(table, Exported));
          CountPositive(table, Slots.CaptionedConfirmed);
          assert Slots.CaptionedConfirmed(slots[0]);
        }
        Ok(Join(SerializeAll(Table(slots, columns, DataRows(data, hasHeader))), '\n'))
  }

  /** A file is produced only when every captioned slot is confirmed and
      some confirmed slot is mapped; whether it is depends on the slots only,
      given some data. */
  lemma GenerateIff(data: seq<seq<string>>, hasHeader: bool, table: seq<MappingRow>, columns: seq<Column>)
    requires data != []
    ensures Generate(data, hasHeader, table, columns).Ok? <==>
      && (forall k | 0 <= k < |table| && table[k].caption != "" :: table[k].confirmed)
      && (exists k | 0 <= k < |table| :: Exported(table[k]))
  {
    Slots.AllConfirmedIff(table);
    var f := Filter(table, Exported);
    FilterEmpty(table, Exported);
    if ExportedRows(table) == [] {
      assert |multiset(f)| == 0;
    } else {
      assert |multiset(f)| > 0;
    }
    if exists k | 0 <= k < |table| :: Exported(table[k]) {
      var k :| 0 <= k < |table| && Exported(table[k]);
      assert table[k].caption != "";
    }
  }

  /** The table the page starts with has nothing confirmed, so no file
      can be produced from it. */
  lemma InitialTableRefused(data: seq<seq<string>>, hasHeader: bool, columns: seq<Column>)
    ensures Generate(data, hasHeader, Slots.InitialRows, columns).Err?
  {
    if data != [] {
      GenerateIff(data, hasHeader, Slots.InitialRows, columns);
      assert !Exported(Slots.InitialRows[0]);
    }
  }

  // ---------------------------------------------------------------- reading the file back

  /** Cells as the parser returns them: trimmed, without quotes or line
      breaks. */
  predicate CleanTable(t: seq<Row>) {
    forall r | 0 <= r < |t| :: CleanFields(t[r]) && SingleLine(t[r])
  }

  /** Splitting the file at line breaks gives back its serialised lines when
      no cell contains a line break. */
  lemma LinesOfOutput(t: seq<Row>)
    requires |t| >= 1
    requires forall r | 0 <= r < |t| :: SingleLine(t[r]) && CleanFields(t[r])
    ensures Split(Join(SerializeAll(t), '\n'), '\n') == SerializeAll(t)
  {
    var lines := SerializeAll(t);
    forall r | 0 <= r < |t| ensures '\n' !in lines[r] {
      forall k | 0 <= k < |t[r]| ensures '\n' !in EscapeAll(t[r])[k] {
        EscapeAllNoNewline(t[r], k);
      }
      JoinNoSeparator(EscapeAll(t[r]), ',', '\n');
    }
    SplitJoin(lines, '\n');
  }

  /** Each line of the file reads back, through the page's own parser, as
      exactly the row it was written from, when the cells are clean and no
      row is a single empty cell. */
  lemma LineRoundTrip(t: seq<Row>, r: nat)
    requires r < |t|
    requires CleanTable(t)
    requires |t[r]| >= 1 && t[r] != [""]
    ensures |Split(Join(SerializeAll(t), '\n'), '\n')| == |t|
    ensures Parse(Split(Join(SerializeAll(t), '\n'), '\n')[r], Comma) == [t[r]]
  {
    LinesOfOutput(t);
    RoundTrip(t[r]);
  }
}
