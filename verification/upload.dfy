/** The upload of a file: it is parsed and analysed, suggestions are asked
    of the mapping service and of the local engine, merged, split into the
    certain and the uncertain ones, and applied to the mapping table. */
module Upload {
  import opened Common
  import opened Text
  import opened Domain
  import opened Csv
  import opened Columns
  import Heuristic
  import Certainty
  import Mock
  import Slots

  /** Why an upload is refused: the name does not end in ".csv", or the
      file has no non-blank line. */
  datatype UploadError = NotCsv | EmptyFile

  /** What an accepted upload leaves behind: the parsed rows, the analysed
      columns, the two suggestion lists and the new table. */
  datatype Outcome = Outcome(
    data: seq<Row>,
    columns: seq<Column>,
    certain: seq<Suggestion>,
    uncertain: seq<Suggestion>,
    table: seq<MappingRow>)

  predicate EndsWith(s: string, suffix: string) {
    |suffix| <= |s| && s[|s| - |suffix|..] == suffix
  }

  /** The caption of every slot (`mappingRows.map(row => row.caption)`). */
  function CaptionList(rows: seq<MappingRow>): (r: seq<string>)
    ensures |r| == |rows|
    ensures forall i | 0 <= i < |rows| :: r[i] == rows[i].caption
  {
    seq(|rows|, i requires 0 <= i < |rows| => rows[i].caption)
  }

  /** The captions of the table that are not empty, in table order. */
  function Captions(rows: seq<MappingRow>): (r: seq<string>)
    ensures forall c :: c in r <==> c != "" && exists i | 0 <= i < |rows| :: rows[i].caption == c
  {
    var cs := CaptionList(rows);
    assert forall i | 0 <= i < |rows| && rows[i].caption != "" :: cs[i] in Filter(cs, NonEmpty);
    Filter(cs, NonEmpty)
  }

  /** The captions are sent in table order, a caption once per slot that
      carries it: the `k`-th is the caption of the `k`-th captioned slot. */
  lemma CaptionsInOrder(rows: seq<MappingRow>)
    ensures |Captions(rows)| == |Positions(CaptionList(rows), NonEmpty)|
    ensures forall k | 0 <= k < |Captions(rows)| ::
      var p := Positions(CaptionList(rows), NonEmpty)[k];
      p < |rows| && Captions(rows)[k] == rows[p].caption
  {
    FilterInOrder(CaptionList(rows), NonEmpty);
  }

  /** How the page reads the service's reply: the list when there is one,
      else the single mapping as a list of one, else nothing. */
  function ReplyList(r: Mock.Reply): (l: seq<Suggestion>)
    ensures r.mappingSuggestions.Some? ==> l == r.mappingSuggestions.value
    ensures r.mappingSuggestions.None? && r.mappingSuggestion.Some? ==> l == [r.mappingSuggestion.value]
    ensures r.mappingSuggestions.None? && r.mappingSuggestion.None? ==> l == []
  {
    match r.mappingSuggestions
    case Some(l) => l
    case None => match r.mappingSuggestion
      case Some(s) => [s]
      case None => []
  }

  /** The service's suggestions for the initial request, or nothing when it
      does not answer with success (`served` is false). */
  function ProviderSuggestions(served: bool, names: seq<string>, captions: seq<string>): seq<Suggestion> {
    if served then ReplyList(Mock.Respond(Mock.InitialSuggestions, names, captions, None)) else []
  }

  /** The service's list, then the local engine's suggestions it did not
      already give. */
  function Suggestions(served: bool, columns: seq<Column>, captions: seq<string>): seq<Suggestion> {
    Certainty.Merge(ProviderSuggestions(served, Heuristic.Names(columns), captions), Heuristic.Suggest(columns, captions))
  }

  /** A merged list split into the certain and the uncertain suggestions
      and applied to the table. */
  function Apply(data: seq<Row>, columns: seq<Column>, merged: seq<Suggestion>, table: seq<MappingRow>): Outcome {
    var parts := Certainty.Partition(merged);
    Outcome(data, columns, parts.0, parts.1, Slots.ApplyUpload(table, columns, parts.0, parts.1))
  }

  /** The steps after a file is accepted: suggestions from both sources,
      merged, split, and applied to the table. */
  function Accept(data: seq<Row>, columns: seq<Column>, served: bool, table: seq<MappingRow>): Outcome {
    Apply(data, columns, Suggestions(served, columns, Captions(table)), table)
  }

  /** `handleFileUpload`, with the file's name and text, the delimiter and
      header settings, the numeric test and whether the service answered
      passed in. */
  function Upload(name: string, text: string, d: Delimiter, hasHeader: bool, isNumeric: string -> bool,
                  served: bool, table: seq<MappingRow>): (r: Result<Outcome, UploadError>)
    ensures r == Err(NotCsv) <==> !EndsWith(name, ".csv")
    ensures r == Err(EmptyFile) <==> EndsWith(name, ".csv") && AllBlank(Split(text, '\n'))
    ensures r.Ok? ==> r.value.data != [] && r.value.data == Parse(text, d)
    ensures r.Ok? ==> r.value == Accept(r.value.data, Analyze(r.value.data, hasHeader, isNumeric), served, table)
  {
    ParseEmptyIffBlank(text, d);
    if !EndsWith(name, ".csv") then Err(NotCsv)
    else
      var data := Parse(text, d);
      if data == [] then Err(EmptyFile)
      else Ok(Accept(data, Analyze(data, hasHeader, isNumeric), served, table))
  }

  /** Every suggestion of the list pairs one of the names with one of the
      captions. */
  predicate Valid(ss: seq<Suggestion>, names: seq<string>, captions: seq<string>) {
    forall s | s in ss :: s.csvColumn in names && s.targetCaption in captions
  }

  /** The service only suggests the columns and captions it was sent. */
  lemma ProviderValid(served: bool, names: seq<string>, captions: seq<string>)
    ensures Valid(ProviderSuggestions(served, names, captions), names, captions)
  {
    if served {
      Mock.SuggestionsWellFormed(names, captions);
      assert ProviderSuggestions(served, names, captions) == Mock.BuildSuggestions(names, captions);
    }
  }

  /** The merge adds nothing the two lists did not hold. */
  lemma MergeValid(provider: seq<Suggestion>, local: seq<Suggestion>, names: seq<string>, captions: seq<string>)
    requires Valid(provider, names, captions) && Valid(local, names, captions)
    ensures Valid(Certainty.Merge(provider, local), names, captions)
  {
    var m := Certainty.Merge(provider, local);
    forall s | s in m ensures s in provider || s in local {
      var k :| 0 <= k < |m| && m[k] == s;
      if k < |provider| {
        assert s == provider[k];
      } else {
        assert s in m[|provider|..];
      }
    }
  }

  /** Every suggestion either source makes pairs a column of the file with
      a non-empty caption of the table. */
  lemma SuggestionsValid(served: bool, columns: seq<Column>, captions: seq<string>)
    ensures Valid(Suggestions(served, columns, captions), Heuristic.Names(columns), captions)
  {
    var names := Heuristic.Names(columns);
    ProviderValid(served, names, captions);
    Heuristic.SuggestSpec(columns, captions);
    MergeValid(ProviderSuggestions(served, names, captions), Heuristic.Suggest(columns, captions), names, captions);
  }

  /** The two lists: the certain suggestions and the others, together
      exactly the merged list. */
  lemma ApplySplits(data: seq<Row>, columns: seq<Column>, merged: seq<Suggestion>, table: seq<MappingRow>)
    ensures var o := Apply(data, columns, merged, table);
      && (forall s | s in o.certain :: Certainty.CertainSuggestion(s))
      && (forall s | s in o.uncertain :: !Certainty.CertainSuggestion(s))
      && multiset(o.certain) + multiset(o.uncertain) == multiset(merged)
  {
    Certainty.PartitionIsSplit(merged);
  }

  /** Both lists of an accepted upload hold only suggestions of a column of
      the file for a captioned slot of the table. */
  lemma AcceptSuggestions(data: seq<Row>, columns: seq<Column>, served: bool, table: seq<MappingRow>)
    ensures var o := Accept(data, columns, served, table);
      forall s | s in o.certain + o.uncertain ::
        s.csvColumn in Heuristic.Names(columns) && s.targetCaption in Captions(table)
  {
    var merged := Suggestions(served, columns, Captions(table));
    var o := Apply(data, columns, merged, table);
    ApplySplits(data, columns, merged, table);
    SuggestionsValid(served, columns, Captions(table));
    forall s | s in o.certain + o.uncertain ensures s in merged {
      assert s in multiset(o.certain) + multiset(o.uncertain);
    }
  }

  /** A slot left unassigned, unsuggested and unconfirmed. */
  predicate Unset(r: MappingRow) {
    r.header == Unassigned && r.sample == Unassigned && r.confidence.None? && !r.suggested && !r.confirmed
  }

  /** What applying suggestions does to the table: the same slots, no
      confirmation withdrawn, every unconfirmed slot that no suggestion
      names reset to unassigned. */
  lemma ApplyFrame(data: seq<Row>, columns: seq<Column>, merged: seq<Suggestion>, table: seq<MappingRow>)
    ensures Slots.SameSkeleton(table, Apply(data, columns, merged, table).table)
    ensures Slots.ConfirmedKept(table, Apply(data, columns, merged, table).table)
    ensures forall i | 0 <= i < |table| && !table[i].confirmed
      && (forall s | s in merged :: s.targetCaption != table[i].caption) ::
      Unset(Apply(data, columns, merged, table).table[i])
  {
    var parts := Certainty.Partition(merged);
    var certain, uncertain := parts.0, parts.1;
    assert Apply(data, columns, merged, table).table == Slots.ApplyUpload(table, columns, certain, uncertain);
    Slots.ApplyUploadFrame(table, columns, certain, uncertain);
    forall i | 0 <= i < |table| && !table[i].confirmed
      && (forall s | s in merged :: s.targetCaption != table[i].caption)
      ensures Unset(Slots.ApplyUpload(table, columns, certain, uncertain)[i])
    {
      UnnamedUnset(table, columns, merged, certain, uncertain, i);
    }
  }

  /** An unconfirmed slot that no suggestion of the merged list names is
      left unset by applying any two parts of that list. */
  lemma UnnamedUnset(table: seq<MappingRow>, columns: seq<Column>, merged: seq<Suggestion>,
                     certain: seq<Suggestion>, uncertain: seq<Suggestion>, i: nat)
    requires forall s | s in certain :: s in merged
    requires forall s | s in uncertain :: s in merged
    requires i < |table| && !table[i].confirmed
    requires forall s | s in merged :: s.targetCaption != table[i].caption
    ensures Unset(Slots.ApplyUpload(table, columns, certain, uncertain)[i])
  {
    Slots.ApplyUploadFrame(table, columns, certain, uncertain);
    NotNamed(certain, merged, table[i].caption);
    NotNamed(uncertain, merged, table[i].caption);
  }

  /** A caption no suggestion of a list names is named by no suggestion of
      a part of it either. */
  lemma NotNamed(part: seq<Suggestion>, all: seq<Suggestion>, caption: string)
    requires forall s | s in part :: s in all
    requires forall s | s in all :: s.targetCaption != caption
    ensures forall k | 0 <= k < |part| :: part[k].targetCaption != caption
  {
  }

  /** Every certain suggestion for a slot and a column that exist leaves
      the first slot with its caption confirmed (a later certain suggestion
      for the same caption may point it at another column). */
  lemma CertainConfirmed(data: seq<Row>, columns: seq<Column>, merged: seq<Suggestion>, table: seq<MappingRow>, k: nat)
    requires k < |Apply(data, columns, merged, table).certain|
    requires Slots.FindRow(table, Apply(data, columns, merged, table).certain[k].targetCaption).Some?
    requires Slots.FindColumn(columns, Apply(data, columns, merged, table).certain[k].csvColumn).Some?
    ensures var o := Apply(data, columns, merged, table);
      o.table[Slots.FindRow(table, o.certain[k].targetCaption).value].confirmed
  {
    var o := Apply(data, columns, merged, table);
    var s := o.certain[k];
    var reset := Slots.Reset(table);
    Slots.FindRowSkeleton(table, reset, s.targetCaption);
    Slots.ConfirmEachConfirms(reset, columns, o.certain, k);
  }

  /** After an accepted upload, the slot of every certain suggestion is
      confirmed: both sources only name columns of the file and captions of
      the table. */
  lemma UploadConfirmsCertain(data: seq<Row>, columns: seq<Column>, served: bool, table: seq<MappingRow>, k: nat)
    requires k < |Accept(data, columns, served, table).certain|
    ensures var o := Accept(data, columns, served, table);
      Slots.FindRow(table, o.certain[k].targetCaption).Some? &&
      o.table[Slots.FindRow(table, o.certain[k].targetCaption).value].confirmed
  {
    var o := Accept(data, columns, served, table);
    var s := o.certain[k];
    AcceptSuggestions(data, columns, served, table);
    assert s in o.certain + o.uncertain;
    assert Slots.FindColumn(columns, s.csvColumn).Some? by {
      var j :| 0 <= j < |columns| && Heuristic.Names(columns)[j] == s.csvColumn;
    }
    CertainConfirmed(data, columns, Suggestions(served, columns, Captions(table)), table, k);
  }

  /** When the service does not answer, the suggestions are the local
      engine's alone. */
  lemma UnservedIsLocal(columns: seq<Column>, captions: seq<string>)
    ensures Suggestions(false, columns, captions) == Heuristic.Suggest(columns, captions)
  {
    var h := Heuristic.Suggest(columns, captions);
    assert Certainty.KeySet([]) == {};
    FreshAll(h);
  }

  /** With nothing already given, no local suggestion is left out. */
  lemma FreshAll(hs: seq<Suggestion>)
    ensures Certainty.Fresh({}, hs) == hs
  {
    FilterKeepsAll(hs, Certainty.Unseen({}));
  }
}
