/** The caption slots of the mapping table and the ways they change: the
    reset and application of suggestions after an upload, explicit confirms,
    and the row edits of the table. */
module Slots {
  import opened Common
  import opened Domain

  /** The table the page starts with: seven slots, the first a key field
      matched by id, none assigned. */
  const InitialRows: seq<MappingRow> := [
    MappingRow("row-0", 0, Unassigned, Unassigned, "Reference", true, true, None, false, false),
    MappingRow("row-1", 1, Unassigned, Unassigned, "Org Unit", false, false, None, false, false),
    MappingRow("row-2", 2, Unassigned, Unassigned, "Forename(s)", false, false, None, false, false),
    MappingRow("row-3", 3, Unassigned, Unassigned, "Surname", false, false, None, false, false),
    MappingRow("row-4", 4, Unassigned, Unassigned, "Email", false, false, None, false, false),
    MappingRow("row-5", 5, Unassigned, Unassigned, "Job Title", false, false, None, false, false),
    MappingRow("row-6", 6, Unassigned, Unassigned, "Manager Name", false, false, None, false, false)
  ]

  /** Two tables with the same slots: same length and, position by
      position, the same id, order, caption and flags. */
  predicate SameSkeleton(a: seq<MappingRow>, b: seq<MappingRow>) {
    && |a| == |b|
    && forall i | 0 <= i < |a| ::
      && a[i].id == b[i].id
      && a[i].order == b[i].order
      && a[i].caption == b[i].caption
      && a[i].keyField == b[i].keyField
      && a[i].matchById == b[i].matchById
  }

  /** Every slot confirmed in `a` is still confirmed in `b`. */
  predicate ConfirmedKept(a: seq<MappingRow>, b: seq<MappingRow>)
    requires |a| == |b|
  {
    forall i | 0 <= i < |a| :: a[i].confirmed ==> b[i].confirmed
  }

  // ---------------------------------------------------------------- lookups

  /** Position of the first slot with this caption (`find`). */
  function FindRow(rows: seq<MappingRow>, caption: string): (r: Option<nat>)
    ensures r.None? <==> forall k | 0 <= k < |rows| :: rows[k].caption != caption
    ensures r.Some? ==> r.value < |rows| && rows[r.value].caption == caption
    ensures r.Some? ==> forall k | 0 <= k < r.value :: rows[k].caption != caption
    decreases |rows|
  {
    if |rows| == 0 then None
    else if rows[0].caption == caption then Some(0)
    else match FindRow(rows[1..], caption)
      case None => None
      case Some(k) => Some(k + 1)
  }

  /** The first analysed column with this name (`find`). */
  function FindColumn(columns: seq<Column>, name: string): (r: Option<Column>)
    ensures r.None? <==> forall k | 0 <= k < |columns| :: columns[k].name != name
    ensures r.Some? ==> exists k | 0 <= k < |columns| ::
      columns[k] == r.value && r.value.name == name && forall j | 0 <= j < k :: columns[j].name != name
    decreases |columns|
  {
    if |columns| == 0 then None
    else if columns[0].name == name then Some(columns[0])
    else
      var r := FindColumn(columns[1..], name);
      assert forall k | 1 <= k < |columns| :: columns[k] == columns[1..][k - 1];
      r
  }

  /** `col.sample[0] || 'N/A'` */
  function FirstSample(c: Column): (r: string)
    ensures r != ""
    ensures |c.sample| > 0 && c.sample[0] != "" ==> r == c.sample[0]
    ensures !(|c.sample| > 0 && c.sample[0] != "") ==> r == Unassigned
  {
    if |c.sample| > 0 && c.sample[0] != "" then c.sample[0] else Unassigned
  }

  /** The slot pointed at a column, marked suggested, with the given
      confidence and confirmation. */
  function Fill(row: MappingRow, c: Column, confidence: real, confirmed: bool): MappingRow {
    row.(header := c.name, sample := FirstSample(c), confidence := Some(confidence), suggested := true, confirmed := confirmed)
  }

  // ---------------------------------------------------------------- reset

  /** An unconfirmed slot loses its assignment; a confirmed one is kept. */
  function ResetRow(row: MappingRow): MappingRow {
    if row.confirmed then row
    else row.(header := Unassigned, sample := Unassigned, confidence := None, suggested := false)
  }

  /** The clean slate before suggestions of a new upload are applied. */
  function Reset(rows: seq<MappingRow>): (r: seq<MappingRow>)
    ensures SameSkeleton(rows, r)
    ensures forall i | 0 <= i < |rows| :: r[i].confirmed == rows[i].confirmed
    ensures forall i | 0 <= i < |rows| && rows[i].confirmed :: r[i] == rows[i]
    ensures forall i | 0 <= i < |rows| && !rows[i].confirmed ::
      r[i].header == Unassigned && r[i].sample == Unassigned && r[i].confidence.None? && !r[i].suggested
  {
    seq(|rows|, i requires 0 <= i < |rows| => ResetRow(rows[i]))
  }

  // ---------------------------------------------------------------- apply

  /** A confirmed assignment of a suggestion (the certain list after an
      upload, a quick confirm, or a mapping proposed in chat): the first slot
      with the caption is pointed at the first column with the name and
      confirmed; nothing happens when either is missing. */
  function Confirm(rows: seq<MappingRow>, columns: seq<Column>, s: Suggestion): (r: seq<MappingRow>)
    ensures SameSkeleton(rows, r)
    ensures ConfirmedKept(rows, r)
    ensures forall i | 0 <= i < |rows| && rows[i].caption != s.targetCaption :: r[i] == rows[i]
    ensures FindRow(rows, s.targetCaption).None? || FindColumn(columns, s.csvColumn).None? ==> r == rows
    ensures FindRow(rows, s.targetCaption).Some? && FindColumn(columns, s.csvColumn).Some? ==>
      var i := FindRow(rows, s.targetCaption).value;
      && r == rows[i := r[i]]
      && r[i].confirmed && r[i].suggested
      && r[i].header == s.csvColumn
      && r[i].sample == FirstSample(FindColumn(columns, s.csvColumn).value)
      && r[i].confidence == Some(s.confidence)
  {
    match (FindRow(rows, s.targetCaption), FindColumn(columns, s.csvColumn))
    case (Some(i), Some(c)) => rows[i := Fill(rows[i], c, s.confidence, true)]
    case _ => rows
  }

  /** An unconfirmed suggestion: like `Confirm`, but the slot stays
      unconfirmed, and a slot already confirmed is left alone. */
  function Propose(rows: seq<MappingRow>, columns: seq<Column>, s: Suggestion): (r: seq<MappingRow>)
    ensures SameSkeleton(rows, r)
    ensures forall i | 0 <= i < |rows| :: r[i].confirmed == rows[i].confirmed
    ensures forall i | 0 <= i < |rows| && rows[i].confirmed :: r[i] == rows[i]
    ensures forall i | 0 <= i < |rows| && rows[i].caption != s.targetCaption :: r[i] == rows[i]
    ensures FindRow(rows, s.targetCaption).None? || FindColumn(columns, s.csvColumn).None? ==> r == rows
    ensures (&& FindRow(rows, s.targetCaption).Some? && FindColumn(columns, s.csvColumn).Some?
             && !rows[FindRow(rows, s.targetCaption).value].confirmed) ==>
      var i := FindRow(rows, s.targetCaption).value;
      && r == rows[i := r[i]]
      && r[i].suggested
      && r[i].header == s.csvColumn
      && r[i].sample == FirstSample(FindColumn(columns, s.csvColumn).value)
      && r[i].confidence == Some(s.confidence)
  {
    match (FindRow(rows, s.targetCaption), FindColumn(columns, s.csvColumn))
    case (Some(i), Some(c)) => if rows[i].confirmed then rows else rows[i := Fill(rows[i], c, s.confidence, false)]
    case _ => rows
  }

  /** Confirming the same suggestion twice is the same as confirming it once. */
  lemma ConfirmIdempotent(rows: seq<MappingRow>, columns: seq<Column>, s: Suggestion)
    ensures Confirm(Confirm(rows, columns, s), columns, s) == Confirm(rows, columns, s)
  {
    var r := Confirm(rows, columns, s);
    match (FindRow(rows, s.targetCaption), FindColumn(columns, s.csvColumn))
    case (Some(i), Some(c)) =>
      assert FindRow(r, s.targetCaption) == Some(i) by {
        assert forall k | 0 <= k < |r| :: r[k].caption == rows[k].caption;
      }
    case _ =>
  }

  /** `Confirm` for each suggestion in turn. */
  function ConfirmEach(rows: seq<MappingRow>, columns: seq<Column>, ss: seq<Suggestion>): (r: seq<MappingRow>)
    ensures SameSkeleton(rows, r)
    ensures ConfirmedKept(rows, r)
    ensures forall i | 0 <= i < |rows| && (forall k | 0 <= k < |ss| :: ss[k].targetCaption != rows[i].caption) :: r[i] == rows[i]
    decreases |ss|
  {
    if |ss| == 0 then rows else ConfirmEach(Confirm(rows, columns, ss[0]), columns, ss[1..])
  }

  /** `Propose` for each suggestion in turn. */
  function ProposeEach(rows: seq<MappingRow>, columns: seq<Column>, ss: seq<Suggestion>): (r: seq<MappingRow>)
    ensures SameSkeleton(rows, r)
    ensures forall i | 0 <= i < |rows| :: r[i].confirmed == rows[i].confirmed
    ensures forall i | 0 <= i < |rows| && rows[i].confirmed :: r[i] == rows[i]
    ensures forall i | 0 <= i < |rows| && (forall k | 0 <= k < |ss| :: ss[k].targetCaption != rows[i].caption) :: r[i] == rows[i]
    decreases |ss|
  {
    if |ss| == 0 then rows else ProposeEach(Propose(rows, columns, ss[0]), columns, ss[1..])
  }

  /** `quickConfirmAll`: an empty list changes nothing, so the early return
      agrees with confirming each item in turn. */
  function ConfirmAll(rows: seq<MappingRow>, columns: seq<Column>, items: seq<Suggestion>): (r: seq<MappingRow>)
    ensures r == ConfirmEach(rows, columns, items)
    ensures SameSkeleton(rows, r) && ConfirmedKept(rows, r)
    ensures forall k | 0 <= k < |items| && FindRow(rows, items[k].targetCaption).Some? && FindColumn(columns, items[k].csvColumn).Some? ::
      r[FindRow(rows, items[k].targetCaption).value].confirmed
  {
    assert forall k | 0 <= k < |items| && FindRow(rows, items[k].targetCaption).Some? && FindColumn(columns, items[k].csvColumn).Some? ::
      ConfirmEach(rows, columns, items)[FindRow(rows, items[k].targetCaption).value].confirmed by {
      forall k | 0 <= k < |items| && FindRow(rows, items[k].targetCaption).Some? && FindColumn(columns, items[k].csvColumn).Some?
        ensures ConfirmEach(rows, columns, items)[FindRow(rows, items[k].targetCaption).value].confirmed
      {
        ConfirmEachConfirms(rows, columns, items, k);
      }
    }
    if |items| == 0 then rows else ConfirmEach(rows, columns, items)
  }

  /** The table after an upload: reset, then the certain suggestions
      confirmed, then the uncertain ones proposed. */
  function ApplyUpload(rows: seq<MappingRow>, columns: seq<Column>, certain: seq<Suggestion>, uncertain: seq<Suggestion>): seq<MappingRow> {
    ProposeEach(ConfirmEach(Reset(rows), columns, certain), columns, uncertain)
  }

  lemma SkeletonTrans(a: seq<MappingRow>, b: seq<MappingRow>, c: seq<MappingRow>)
    requires SameSkeleton(a, b) && SameSkeleton(b, c)
    ensures SameSkeleton(a, c)
  {
  }

  /** What an upload does to the table: the slots stay the same slots, no
      confirmation is withdrawn, and an unconfirmed slot that no suggestion
      names is reset to unassigned. */
  lemma ApplyUploadFrame(rows: seq<MappingRow>, columns: seq<Column>, certain: seq<Suggestion>, uncertain: seq<Suggestion>)
    ensures SameSkeleton(rows, ApplyUpload(rows, columns, certain, uncertain))
    ensures ConfirmedKept(rows, ApplyUpload(rows, columns, certain, uncertain))
    ensures forall i | 0 <= i < |rows| && !rows[i].confirmed
      && (forall k | 0 <= k < |certain| :: certain[k].targetCaption != rows[i].caption)
      && (forall k | 0 <= k < |uncertain| :: uncertain[k].targetCaption != rows[i].caption) ::
      var r := ApplyUpload(rows, columns, certain, uncertain)[i];
      && r.header == Unassigned && r.sample == Unassigned && r.confidence.None? && !r.suggested && !r.confirmed
  {
    var a := Reset(rows);
    var b := ConfirmEach(a, columns, certain);
    var c := ProposeEach(b, columns, uncertain);
    SkeletonTrans(rows, a, b);
    SkeletonTrans(rows, b, c);
  }

  /** The uncertain list never touches a slot that is confirmed when it is
      applied. */
  lemma ProposalsSpareConfirmed(rows: seq<MappingRow>, columns: seq<Column>, certain: seq<Suggestion>, uncertain: seq<Suggestion>, i: nat)
    requires i < |rows|
    requires ConfirmEach(Reset(rows), columns, certain)[i].confirmed
    ensures ApplyUpload(rows, columns, certain, uncertain)[i] == ConfirmEach(Reset(rows), columns, certain)[i]
  {
  }

  /** Tables with the same slots find the same slot for a caption. */
  lemma FindRowSkeleton(a: seq<MappingRow>, b: seq<MappingRow>, caption: string)
    requires SameSkeleton(a, b)
    ensures FindRow(a, caption) == FindRow(b, caption)
  {
    if FindRow(a, caption).Some? {
      assert b[FindRow(a, caption).value].caption == caption;
    }
    if FindRow(b, caption).Some? {
      assert a[FindRow(b, caption).value].caption == caption;
    }
  }

  /** Confirming a list of suggestions leaves confirmed the slot of every
      suggestion in it whose caption and column exist, whatever comes after. */
  lemma {:induction false} ConfirmEachConfirms(rows: seq<MappingRow>, columns: seq<Column>, ss: seq<Suggestion>, k: nat)
    requires k < |ss|
    requires FindRow(rows, ss[k].targetCaption).Some? && FindColumn(columns, ss[k].csvColumn).Some?
    ensures ConfirmEach(rows, columns, ss)[FindRow(rows, ss[k].targetCaption).value].confirmed
    decreases |ss|
  {
    var next := Confirm(rows, columns, ss[0]);
    FindRowSkeleton(rows, next, ss[k].targetCaption);
    if k > 0 {
      ConfirmEachConfirms(next, columns, ss[1..], k - 1);
    }
  }

  // ---------------------------------------------------------------- completion

  predicate Captioned(r: MappingRow) {
    r.caption != ""
  }

  predicate CaptionedConfirmed(r: MappingRow) {
    r.caption != "" && r.confirmed
  }

  /** The number of captioned slots, or of all slots when none has a
      caption. */
  function TotalCaptions(rows: seq<MappingRow>): nat {
    var n := Count(rows, Captioned);
    if n == 0 then |rows| else n
  }

  function ConfirmedCount(rows: seq<MappingRow>): nat {
    Count(rows, CaptionedConfirmed)
  }

  /** The completion test shared by the validation prompt and the export. */
  predicate AllConfirmed(rows: seq<MappingRow>) {
    TotalCaptions(rows) > 0 && ConfirmedCount(rows) == TotalCaptions(rows)
  }

  /** The mapping is complete exactly when some slot has a caption and every
      captioned slot is confirmed; a table with no captions is never
      complete. */
  lemma AllConfirmedIff(rows: seq<MappingRow>)
    ensures AllConfirmed(rows) <==>
      && (exists k | 0 <= k < |rows| :: rows[k].caption != "")
      && (forall k | 0 <= k < |rows| && rows[k].caption != "" :: rows[k].confirmed)
  {
    CountStronger(rows, Captioned, CaptionedConfirmed);
    CountPositive(rows, Captioned);
    CountPositive(rows, CaptionedConfirmed);
    if Count(rows, Captioned) == 0 && |rows| > 0 {
      assert !Captioned(rows[0]);
    }
  }

  // ---------------------------------------------------------------- edits

  /** A field edit from the table: caption, header, key field or match-by-id. */
  datatype Edit = SetCaption(caption: string) | SetHeader(header: string) | SetKeyField(keyField: bool) | SetMatchById(matchById: bool)

  function ApplyEdit(row: MappingRow, e: Edit): MappingRow {
    match e
    case SetCaption(v) => row.(caption := v)
    case SetHeader(v) => row.(header := v)
    case SetKeyField(v) => row.(keyField := v)
    case SetMatchById(v) => row.(matchById := v)
  }

  /** `updateMappingRow`: every slot with the id gets the edit. */
  function UpdateRow(rows: seq<MappingRow>, id: string, e: Edit): (r: seq<MappingRow>)
    ensures |r| == |rows|
    ensures forall i | 0 <= i < |rows| && rows[i].id != id :: r[i] == rows[i]
    ensures forall i | 0 <= i < |rows| && rows[i].id == id ::
      && r[i].id == id && r[i].order == rows[i].order && r[i].confirmed == rows[i].confirmed
      && r[i].sample == rows[i].sample && r[i].confidence == rows[i].confidence
      && r[i].suggested == rows[i].suggested
      && r[i].caption == (if e.SetCaption? then e.caption else rows[i].caption)
      && r[i].header == (if e.SetHeader? then e.header else rows[i].header)
      && r[i].keyField == (if e.SetKeyField? then e.keyField else rows[i].keyField)
      && r[i].matchById == (if e.SetMatchById? then e.matchById else rows[i].matchById)
  {
    seq(|rows|, i requires 0 <= i < |rows| => if rows[i].id == id then ApplyEdit(rows[i], e) else rows[i])
  }

  /** A slot with another id. */
  function Keeps(id: string): MappingRow -> bool {
    (x: MappingRow) => x.id != id
  }

  /** `removeMappingRow`: every slot with the id goes, the rest stay in
      order: the `k`-th remaining slot is the `k`-th slot with another id. */
  function RemoveRow(rows: seq<MappingRow>, id: string): (r: seq<MappingRow>)
    ensures forall k | 0 <= k < |r| :: r[k].id != id
    ensures forall x | x in rows && x.id != id :: x in r
    ensures forall x | x in r :: x in rows
    ensures |r| == |Positions(rows, Keeps(id))|
    ensures forall k | 0 <= k < |r| :: r[k] == rows[Positions(rows, Keeps(id))[k]]
  {
    FilterInOrder(rows, Keeps(id));
    Filter(rows, Keeps(id))
  }

  /** The slot `addMappingRow` appends: its order is the row count (which
      after removals need not exceed every order in the table), unassigned,
      no caption. */
  function NewRow(id: string, order: nat): MappingRow {
    MappingRow(id, order, Unassigned, Unassigned, "", false, false, None, false, false)
  }

  /** `addMappingRow`, with the time-based id passed in. */
  function AddRow(rows: seq<MappingRow>, id: string): (r: seq<MappingRow>)
    ensures |r| == |rows| + 1 && r[..|rows|] == rows
    ensures r[|rows|].id == id && r[|rows|].order == |rows|
    ensures r[|rows|].caption == "" && r[|rows|].header == Unassigned && r[|rows|].sample == Unassigned
    ensures !r[|rows|].keyField && !r[|rows|].matchById
    ensures r[|rows|].confidence.None? && !r[|rows|].suggested && !r[|rows|].confirmed
  {
    rows + [NewRow(id, |rows|)]
  }

  /** Removing a freshly added slot restores the table. */
  lemma RemoveUndoesAdd(rows: seq<MappingRow>, id: string)
    requires forall k | 0 <= k < |rows| :: rows[k].id != id
    ensures RemoveRow(AddRow(rows, id), id) == rows
  {
    var p := Keeps(id);
    FilterConcat(rows, [NewRow(id, |rows|)], p);
    FilterKeepsAll(rows, p);
    assert Filter([NewRow(id, |rows|)], p) == [];
  }
}
