/** The CSV codec of the import page: the quote-toggling line parser used on
    upload and the field escaping used when the mapped file is exported. */
module Csv {
  import opened Common
  import opened Text

  /** The delimiter setting: `comma`, anything else selects a tab. */
  datatype Delimiter = Comma | Tab

  function DelimChar(d: Delimiter): char {
    if d == Comma then ',' else '\t'
  }

  type Row = seq<string>

  /** A parsed field: trimmed, and never holding a quote character. */
  predicate CleanField(f: string) {
    IsTrimmed(f) && '"' !in f
  }

  predicate CleanFields(fs: seq<string>) {
    forall k | 0 <= k < |fs| :: CleanField(fs[k])
  }

  predicate SingleLine(fs: seq<string>) {
    forall k | 0 <= k < |fs| :: '\n' !in fs[k]
  }

  /** Number of delimiters that the scan meets while outside quotes, starting
      in the given quote state. Each `"` flips the state. */
  function DelimsOutside(line: string, delim: char, inQuotes: bool): nat
    decreases |line|
  {
    if |line| == 0 then 0
    else if line[0] == '"' then DelimsOutside(line[1..], delim, !inQuotes)
    else (if line[0] == delim && !inQuotes then 1 else 0) + DelimsOutside(line[1..], delim, inQuotes)
  }

  /** The character loop of the line parser. `current` is the field being
      accumulated and `fields` those already closed. */
  function Scan(line: string, delim: char, inQuotes: bool, current: string, fields: seq<string>): seq<string>
    decreases |line|
  {
    if |line| == 0 then fields + [Trim(current)]
    else if line[0] == '"' then Scan(line[1..], delim, !inQuotes, current, fields)
    else if line[0] == delim && !inQuotes then Scan(line[1..], delim, inQuotes, "", fields + [Trim(current)])
    else Scan(line[1..], delim, inQuotes, current + [line[0]], fields)
  }

  /** The scan closes one field per delimiter met outside quotes plus a last
      one, keeps the fields already closed, and every field it closes is
      trimmed and quote-free. */
  lemma {:induction false} ScanShape(line: string, delim: char, inQuotes: bool, current: string, fields: seq<string>)
    requires '"' !in current
    requires CleanFields(fields)
    ensures |Scan(line, delim, inQuotes, current, fields)| == |fields| + 1 + DelimsOutside(line, delim, inQuotes)
    ensures Scan(line, delim, inQuotes, current, fields)[..|fields|] == fields
    ensures CleanFields(Scan(line, delim, inQuotes, current, fields))
    decreases |line|
  {
    if |line| == 0 {
      var r := fields + [Trim(current)];
      assert r[..|fields|] == fields;
    } else if line[0] == '"' {
      ScanShape(line[1..], delim, !inQuotes, current, fields);
    } else if line[0] == delim && !inQuotes {
      var fs := fields + [Trim(current)];
      ScanShape(line[1..], delim, inQuotes, "", fs);
      var r := Scan(line[1..], delim, inQuotes, "", fs);
      assert r[..|fields|] == r[..|fs|][..|fields|];
    } else {
      assert '"' !in current + [line[0]];
      ScanShape(line[1..], delim, inQuotes, current + [line[0]], fields);
    }
  }

  /** A scan of a line without line breaks closes only fields without one. */
  lemma {:induction false} ScanSingleLine(line: string, delim: char, inQuotes: bool, current: string, fields: seq<string>)
    ensures '\n' !in line && '\n' !in current && SingleLine(fields) ==>
      SingleLine(Scan(line, delim, inQuotes, current, fields))
    decreases |line|
  {
    if '\n' in line || '\n' in current || !SingleLine(fields) {
    } else if |line| == 0 {
      CloseSingleLine(current, fields);
    } else {
      var rest := line[1..];
      assert '\n' !in rest by {
        forall c | c in rest ensures c in line { }
      }
      if line[0] == '"' {
        assert Scan(line, delim, inQuotes, current, fields) == Scan(rest, delim, !inQuotes, current, fields);
        ScanSingleLine(rest, delim, !inQuotes, current, fields);
      } else if line[0] == delim && !inQuotes {
        var fs := fields + [Trim(current)];
        assert Scan(line, delim, inQuotes, current, fields) == Scan(rest, delim, inQuotes, "", fs);
        CloseSingleLine(current, fields);
        ScanSingleLine(rest, delim, inQuotes, "", fs);
      } else {
        var cur := current + [line[0]];
        assert Scan(line, delim, inQuotes, current, fields) == Scan(rest, delim, inQuotes, cur, fields);
        assert '\n' !in cur by {
          assert line[0] in line;
        }
        ScanSingleLine(rest, delim, inQuotes, cur, fields);
      }
    }
  }

  /** Closing a field without line breaks keeps the fields single-line. */
  lemma CloseSingleLine(current: string, fields: seq<string>)
    requires '\n' !in current && SingleLine(fields)
    ensures SingleLine(fields + [Trim(current)])
  {
    var fs := fields + [Trim(current)];
    assert forall k | 0 <= k < |fs| :: fs[k] == if k < |fields| then fields[k] else Trim(current);
  }

  /** One line split into fields: quotes only toggle the in-quote state and
      are dropped; the delimiter splits only outside quotes; fields are trimmed. */
  function ParseLine(line: string, delim: char): (r: Row)
    ensures |r| == 1 + DelimsOutside(line, delim, false)
    ensures forall k | 0 <= k < |r| :: CleanField(r[k])
    ensures '\n' !in line ==> forall k | 0 <= k < |r| :: '\n' !in r[k]
  {
    ScanShape(line, delim, false, "", []);
    ScanSingleLine(line, delim, false, "", []);
    Scan(line, delim, false, "", [])
  }

  predicate IsBlank(line: string) {
    Trim(line) == ""
  }

  predicate HasContent(line: string) {
    !IsBlank(line)
  }

  predicate AllBlank(lines: seq<string>) {
    forall k | 0 <= k < |lines| :: IsBlank(lines[k])
  }

  /** The lines of `text` that are not blank, in order. */
  function Lines(text: string): (r: seq<string>)
    ensures forall k | 0 <= k < |r| :: !IsBlank(r[k]) && '\n' !in r[k]
  {
    Filter(Split(text, '\n'), HasContent)
  }

  /** The parser applied to the whole upload: one row per non-blank line. */
  function Parse(text: string, d: Delimiter): (rows: seq<Row>)
    ensures |rows| == |Lines(text)|
    ensures forall i | 0 <= i < |rows| ::
      |rows[i]| == 1 + DelimsOutside(Lines(text)[i], DelimChar(d), false)
    ensures forall i, k | 0 <= i < |rows| && 0 <= k < |rows[i]| ::
      CleanField(rows[i][k]) && '\n' !in rows[i][k]
  {
    var lines := Lines(text);
    seq(|lines|, i requires 0 <= i < |lines| => ParseLine(lines[i], DelimChar(d)))
  }

  /** A text parses to no rows exactly when every one of its lines is blank. */
  lemma ParseEmptyIffBlank(text: string, d: Delimiter)
    ensures Parse(text, d) == [] <==> AllBlank(Split(text, '\n'))
  {
    var lines := Split(text, '\n');
    FilterEmpty(lines, HasContent);
    assert (forall k | 0 <= k < |lines| :: !HasContent(lines[k])) <==>
      (forall k | 0 <= k < |lines| :: IsBlank(lines[k]));
    assert Parse(text, d) == [] <==> Lines(text) == [];
  }

  // ---------------------------------------------------------------- export side

  predicate IsQuote(c: char) {
    c == '"'
  }

  predicate NotQuote(c: char) {
    c != '"'
  }

  /** Every `"` doubled: one character more per quote, and the other
      characters kept in order. */
  function DoubleQuotes(v: string): (r: string)
    ensures |r| >= |v|
    ensures |r| == |v| + Count(v, IsQuote)
    ensures Filter(r, NotQuote) == Filter(v, NotQuote)
    ensures '"' !in v ==> r == v
    decreases |v|
  {
    if |v| == 0 then ""
    else
      var head := if v[0] == '"' then "\"\"" else [v[0]];
      var rest := DoubleQuotes(v[1..]);
      DoubleQuotesStep(v, head, rest);
      head + rest
  }

  /** One step of the doubling keeps the characters other than quotes. */
  lemma DoubleQuotesStep(v: string, head: string, rest: string)
    requires |v| > 0
    requires head == if v[0] == '"' then "\"\"" else [v[0]]
    requires Filter(rest, NotQuote) == Filter(v[1..], NotQuote)
    ensures Filter(head + rest, NotQuote) == Filter(v, NotQuote)
  {
    FilterCons(v[0], v[1..], NotQuote);
    assert [v[0]] + v[1..] == v;
    if v[0] == '"' {
      QuotePairDropped(rest);
    } else {
      FilterCons(v[0], rest, NotQuote);
    }
  }

  lemma QuotePairDropped(rest: string)
    ensures Filter("\"\"" + rest, NotQuote) == Filter(rest, NotQuote)
  {
    FilterCons('"', rest, NotQuote);
    FilterCons('"', ['"'] + rest, NotQuote);
    assert "\"\"" + rest == ['"'] + (['"'] + rest);
  }

  /** How a CSV reader takes a quoted field's content back: each `""` is
      one `"`. */
  function UndoubleQuotes(s: string): string
    decreases |s|
  {
    if |s| == 0 then ""
    else if |s| >= 2 && s[0] == '"' && s[1] == '"' then "\"" + UndoubleQuotes(s[2..])
    else [s[0]] + UndoubleQuotes(s[1..])
  }

  /** Doubling the quotes loses nothing: reading `""` as `"` gives the
      value back. */
  lemma {:induction false} UndoubleDoubleQuotes(v: string)
    ensures UndoubleQuotes(DoubleQuotes(v)) == v
    decreases |v|
  {
    if |v| > 0 {
      UndoubleDoubleQuotes(v[1..]);
      var rest := DoubleQuotes(v[1..]);
      if v[0] == '"' {
        var d := "\"\"" + rest;
        assert d[2..] == rest;
      } else {
        var d := [v[0]] + rest;
        assert d[1..] == rest;
      }
      assert v == [v[0]] + v[1..];
    }
  }

  predicate NeedsQuote(v: string) {
    '"' in v || ',' in v || '\n' in v
  }

  /** The export escaping: quote-doubling, and surrounding quotes when the
      value holds a quote, a comma or a newline. */
  function EscapeField(v: string): (r: string)
    ensures !NeedsQuote(v) ==> r == v
    ensures NeedsQuote(v) ==> |r| >= |v| + 2 && r[0] == '"' && r[|r| - 1] == '"'
    ensures '"' !in v ==> r == v || r == "\"" + v + "\""
  {
    var escaped := DoubleQuotes(v);
    if NeedsQuote(v) then "\"" + escaped + "\"" else escaped
  }

  function EscapeAll(row: Row): (r: seq<string>)
    ensures |r| == |row|
    decreases |row|
  {
    if |row| == 0 then [] else [EscapeField(row[0])] + EscapeAll(row[1..])
  }

  /** One exported line: escaped fields joined by commas. */
  function SerializeRow(row: Row): string {
    Join(EscapeAll(row), ',')
  }

  /** Scanning a chunk with no quote character, and no delimiter unless in
      quotes, only appends the chunk to the current field. */
  lemma {:induction false} ScanChunk(w: string, tail: string, delim: char, q: bool, cur: string, fields: seq<string>)
    requires '"' !in w
    requires q || delim !in w
    ensures Scan(w + tail, delim, q, cur, fields) == Scan(tail, delim, q, cur + w, fields)
    decreases |w|
  {
    if |w| > 0 {
      assert (w + tail)[0] == w[0];
      assert (w + tail)[1..] == w[1..] + tail;
      assert cur + [w[0]] + w[1..] == cur + w;
      ScanChunk(w[1..], tail, delim, q, cur + [w[0]], fields);
    } else {
      assert w + tail == tail;
      assert cur + w == cur;
    }
  }

  lemma ScanQuote(rest: string, delim: char, q: bool, cur: string, fields: seq<string>)
    ensures Scan(['"'] + rest, delim, q, cur, fields) == Scan(rest, delim, !q, cur, fields)
  {
    assert (['"'] + rest)[1..] == rest;
  }

  lemma ScanDelim(rest: string, cur: string, fields: seq<string>)
    ensures Scan([','] + rest, ',', false, cur, fields) == Scan(rest, ',', false, "", fields + [Trim(cur)])
  {
    assert ([','] + rest)[1..] == rest;
  }

  /** An escaped clean field is read back whole, and the scan leaves quotes closed. */
  lemma ScanEscaped(f: string, tail: string, fields: seq<string>)
    requires CleanField(f) && '\n' !in f
    ensures Scan(EscapeField(f) + tail, ',', false, "", fields) == Scan(tail, ',', false, f, fields)
  {
    assert "" + f == f;
    if NeedsQuote(f) {
      var t := ['"'] + tail;
      var e := EscapeField(f);
      assert e == ['"'] + f + ['"'];
      calc {
        e + tail;
        (['"'] + f + ['"']) + tail;
        { SeqAssoc(['"'], f, ['"'], tail); }
        ['"'] + (f + t);
      }
      ScanQuote(f + t, ',', false, "", fields);
      ScanChunk(f, t, ',', true, "", fields);
      ScanQuote(tail, ',', true, f, fields);
    } else {
      ScanChunk(f, tail, ',', false, "", fields);
    }
  }

  lemma AppendHead<T>(fields: seq<T>, row: seq<T>)
    requires |row| >= 1
    ensures fields + [row[0]] + row[1..] == fields + row
  {
    assert [row[0]] + row[1..] == row;
  }

  lemma SeqAssoc(a: string, b: string, c: string, d: string)
    ensures (a + b + c) + d == a + (b + (c + d))
  {
  }

  lemma SerializeCons(row: Row)
    requires |row| >= 2
    ensures SerializeRow(row) == EscapeField(row[0]) + ([','] + SerializeRow(row[1..]))
  {
    var e := EscapeAll(row);
    assert e[1..] == EscapeAll(row[1..]);
  }

  lemma {:induction false} ScanSerialized(row: Row, fields: seq<string>)
    requires |row| >= 1
    requires CleanFields(row) && SingleLine(row)
    ensures Scan(SerializeRow(row), ',', false, "", fields) == fields + row
    decreases |row|
  {
    if |row| == 1 {
      assert SerializeRow(row) == EscapeField(row[0]) + "";
      ScanEscaped(row[0], "", fields);
    } else {
      var rest := SerializeRow(row[1..]);
      var f := row[0];
      assert CleanField(f);
      assert Trim(f) == f;
      calc {
        Scan(SerializeRow(row), ',', false, "", fields);
        { SerializeCons(row); }
        Scan(EscapeField(f) + ([','] + rest), ',', false, "", fields);
        { ScanEscaped(f, [','] + rest, fields); }
        Scan([','] + rest, ',', false, f, fields);
        { ScanDelim(rest, f, fields); }
        Scan(rest, ',', false, "", fields + [f]);
        { ScanSerialized(row[1..], fields + [f]); }
        fields + [f] + row[1..];
        { AppendHead(fields, row); }
        fields + row;
      }
    }
  }

  /** Round trip: a row of trimmed, quote-free, single-line fields, other than
      the lone empty field (whose line is blank), survives export followed by
      parsing with the comma delimiter. */
  lemma RoundTrip(row: Row)
    requires |row| >= 1 && row != [""]
    requires CleanFields(row) && SingleLine(row)
    ensures Parse(SerializeRow(row), Comma) == [row]
  {
    var line := SerializeRow(row);
    forall k | 0 <= k < |EscapeAll(row)|
      ensures '\n' !in EscapeAll(row)[k]
    {
      EscapeAllNoNewline(row, k);
    }
    JoinNoSeparator(EscapeAll(row), ',', '\n');
    SplitNoSeparator(line, '\n');
    NotBlank(row);
    assert Lines(line) == [line];
    ScanSerialized(row, []);
    assert ParseLine(line, ',') == row;
  }

  lemma {:induction false} EscapeAllNoNewline(row: Row, k: nat)
    requires k < |row|
    requires CleanFields(row) && SingleLine(row)
    ensures '\n' !in EscapeAll(row)[k]
    decreases |row|
  {
    if k > 0 {
      EscapeAllNoNewline(row[1..], k - 1);
    } else {
      assert EscapeAll(row)[0] == EscapeField(row[0]);
    }
  }

  lemma NotBlank(row: Row)
    requires |row| >= 1 && row != [""]
    requires CleanFields(row) && SingleLine(row)
    ensures !IsBlank(SerializeRow(row))
  {
    var line := SerializeRow(row);
    var e := EscapeAll(row);
    if |row| == 1 {
      assert row[0] != "";
      assert line == EscapeField(row[0]);
      assert !IsSpace(line[0]);
    } else {
      assert line == e[0] + [','] + Join(e[1..], ',');
      assert line[|e[0]|] == ',';
    }
  }
}
