/** The validation pass run once every captioned slot is confirmed: each
    mapped slot whose caption has a rule has its column's data values checked,
    and every caption with offending values yields an issue with a count, the
    first five row numbers and values, and the rule's text. */
module Validation {
  import opened Common
  import opened Text
  import opened Domain
  import opened Columns
  import opened Ordering
  import Slots

  // ---------------------------------------------------------------- value checks

  /** The characters `.` matches in a JavaScript regular expression without
      the `s` flag: all but the line terminators. */
  predicate LineChar(c: char) {
    c != '\n' && c != '\r' && c != '\U{2028}' && c != '\U{2029}'
  }

  /** `.+@.+\..+` matched with its `@` at `p` and its `.` at `q`: one line
      character on either side of each, and nothing but line characters in
      between. */
  predicate EmailAt(s: string, p: nat, q: nat) {
    && 1 <= p && p + 1 < q && q + 1 < |s|
    && s[p] == '@' && s[q] == '.'
    && forall k | p - 1 <= k <= q + 1 :: LineChar(s[k])
  }

  /** The unanchored email test `/.+@.+\..+/.test(v)`. */
  predicate EmailShape(s: string) {
    exists p, q | 0 <= p < q < |s| :: EmailAt(s, p, q)
  }

  /** `v.replace(/\D/g, '').length >= 7` */
  predicate PhoneOk(v: string) {
    Count(v, IsDigit) >= 7
  }

  /** `[0-9A-ZaZ\-_.]` as the page writes it: digits, upper-case letters,
      the letter `a` (and `Z` again), `-`, `_` and `.`. */
  predicate IdTailCharAsWritten(c: char) {
    IsDigit(c) || 'A' <= c <= 'Z' || c == 'a' || c == 'Z' || c == '-' || c == '_' || c == '.'
  }

  /** `[0-9A-Za-z\-_.]`: letters of both cases, digits, `-`, `_`, `.`. */
  predicate IdTailChar(c: char) {
    IsAlnum(c) || c == '-' || c == '_' || c == '.'
  }

  /** `^(?:[0-9A-Za-z][0-9A-ZaZ\-_.]*)$` as written. */
  predicate EmployeeIdAsWritten(s: string) {
    |s| > 0 && IsAlnum(s[0]) && forall k | 1 <= k < |s| :: IdTailCharAsWritten(s[k])
  }

  /** The employee id test with the character class it evidently means. */
  predicate EmployeeIdOk(s: string) {
    |s| > 0 && IsAlnum(s[0]) && forall k | 1 <= k < |s| :: IdTailChar(s[k])
  }

  /** `^\d{2}\/\d{2}\/\d{4}$` */
  predicate SlashDate(s: string) {
    |s| == 10 && DigitsAt(s, 0, 2) && s[2] == '/' && DigitsAt(s, 3, 2) && s[5] == '/' && DigitsAt(s, 6, 4)
  }

  /** `^\d{4}-\d{2}-\d{2}$` */
  predicate IsoDate(s: string) {
    |s| == 10 && DigitsAt(s, 0, 4) && s[4] == '-' && DigitsAt(s, 5, 2) && s[7] == '-' && DigitsAt(s, 8, 2)
  }

  /** The check a caption's values are held to. */
  datatype Check = EmailCheck | PhoneCheck | EmployeeIdCheck | PresentCheck | DateCheck(iso: bool)

  predicate Passes(check: Check, v: string) {
    match check
    case EmailCheck => EmailShape(Trim(v))
    case PhoneCheck => PhoneOk(v)
    case EmployeeIdCheck => EmployeeIdAsWritten(Trim(v))
    case PresentCheck => Trim(v) != ""
    case DateCheck(iso) => if iso then IsoDate(Trim(v)) else SlashDate(Trim(v))
  }

  /** A check and the text shown with its failures. */
  datatype Rule = Rule(check: Check, text: string)

  /** The rule for a caption: the chosen date format for "Start Date" (the
      two slash formats share one pattern, and an unknown format falls back
      to DD/MM/YYYY), a fixed validator for five other captions, none for the
      rest. */
  function RuleFor(caption: string, dateFormat: string): (r: Option<Rule>)
    ensures r.Some? <==> caption in ["Start Date", "Email", "Phone", "Employee ID", "Reference", "Username"]
    ensures caption == "Start Date" ==> r == Some(Rule(DateCheck(dateFormat == "YYYY-MM-DD"), "Expected date format " + dateFormat))
    ensures r.Some? && caption != "Start Date" ==> r.value.text == "Invalid " + Lower(caption)
    ensures caption == "Email" ==> r.Some? && r.value.check == EmailCheck
    ensures caption == "Phone" ==> r.Some? && r.value.check == PhoneCheck
    ensures caption == "Employee ID" ==> r.Some? && r.value.check == EmployeeIdCheck
    ensures caption == "Reference" || caption == "Username" ==> r.Some? && r.value.check == PresentCheck
  {
    if caption == "Start Date" then Some(Rule(DateCheck(dateFormat == "YYYY-MM-DD"), "Expected date format " + dateFormat))
    else if caption == "Email" then Some(Rule(EmailCheck, "Invalid " + Lower(caption)))
    else if caption == "Phone" then Some(Rule(PhoneCheck, "Invalid " + Lower(caption)))
    else if caption == "Employee ID" then Some(Rule(EmployeeIdCheck, "Invalid " + Lower(caption)))
    else if caption == "Reference" || caption == "Username" then Some(Rule(PresentCheck, "Invalid " + Lower(caption)))
    else None
  }

  // ---------------------------------------------------------------- facts about the checks

  /** Any local part, domain and suffix of line characters form an address
      the email test accepts. */
  lemma EmailParts(a: string, b: string, c: string)
    requires |a| >= 1 && |b| >= 1 && |c| >= 1
    requires forall k | 0 <= k < |a| :: LineChar(a[k])
    requires forall k | 0 <= k < |b| :: LineChar(b[k])
    requires forall k | 0 <= k < |c| :: LineChar(c[k])
    ensures EmailShape(a + "@" + b + "." + c)
  {
    var s := a + "@" + b + "." + c;
    var p := |a|;
    var q := |a| + 1 + |b|;
    forall k | p - 1 <= k <= q + 1 ensures LineChar(s[k]) {
      if k < p { assert s[k] == a[k]; }
      else if p < k < q { assert s[k] == b[k - p - 1]; }
      else if k == q + 1 { assert s[k] == c[0]; }
    }
    assert EmailAt(s, p, q);
  }

  /** Without a `.` after an `@` the email test fails; "abc@x" is one such
      value. */
  lemma EmailNeedsDotAfterAt(s: string)
    requires forall p, q | 0 <= p < q < |s| && s[p] == '@' :: s[q] != '.'
    ensures !EmailShape(s)
  {
  }

  /** Characters other than digits do not count towards a phone number. */
  lemma PhoneIgnoresNonDigits(a: string, c: char, b: string)
    requires !IsDigit(c)
    ensures PhoneOk(a + [c] + b) == PhoneOk(a + b)
  {
    FilterConcat(a + [c], b, IsDigit);
    FilterConcat(a, [c], IsDigit);
    FilterConcat(a, b, IsDigit);
    assert Filter([c], IsDigit) == [];
  }

  /** A value passing the DD/MM/YYYY test also looks like a date to the
      column analyser. */
  lemma SlashDateIsDate(s: string)
    requires SlashDate(s)
    ensures HasDate(s)
  {
    assert DateShapeAt(s, 0, 2, 2);
    assert DateAt(s, 0);
  }

  /** No value passes both date patterns. */
  lemma DateFormatsDisjoint(s: string)
    ensures !(SlashDate(s) && IsoDate(s))
  {
  }

  /** The class as written accepts no identifier the intended class
      rejects. */
  lemma EmployeeIdAsWrittenNarrower(s: string)
    requires EmployeeIdAsWritten(s)
    ensures EmployeeIdOk(s)
  {
  }

  /** The intended test ignores letter case. */
  lemma EmployeeIdIgnoresCase(s: string)
    ensures EmployeeIdOk(Lower(s)) == EmployeeIdOk(s)
  {
    var l := Lower(s);
    assert forall k | 0 <= k < |s| :: IsAlnum(l[k]) == IsAlnum(s[k]);
    assert forall k | 0 <= k < |s| :: IdTailChar(l[k]) == IdTailChar(s[k]);
  }

  /** The class as written does not: "AB" passes and "ab" fails, so most
      lower-case identifiers are reported as invalid. */
  lemma EmployeeIdAsWrittenCaseSensitive()
    ensures EmployeeIdAsWritten("AB") && !EmployeeIdAsWritten(Lower("AB"))
    ensures EmployeeIdOk("ab")
  {
    assert Lower("AB") == "ab";
    assert !IdTailCharAsWritten("ab"[1]);
  }

  /** The pass holds identifiers to the class as written: "EMP01" passes,
      while "emp01", which the intended test accepts, fails. */
  lemma EmployeeIdPassRejectsLowerCase()
    ensures Passes(EmployeeIdCheck, "EMP01")
    ensures !Passes(EmployeeIdCheck, "emp01") && EmployeeIdOk("emp01")
  {
    assert IsTrimmed("EMP01") && IsTrimmed("emp01");
    assert !IdTailCharAsWritten("emp01"[1]);
  }

  // ---------------------------------------------------------------- scanning one column

  /** The trimmed cell of data row `r` in column `idx`. */
  function Value(rows: seq<seq<string>>, idx: nat, r: nat): string
    requires r < |rows|
  {
    Trim(Cell(rows[r], idx))
  }

  /** An offending value: present and failing the check. */
  predicate Flagged(rows: seq<seq<string>>, idx: nat, check: Check, r: nat)
    requires r < |rows|
  {
    Value(rows, idx, r) != "" && !Passes(check, Value(rows, idx, r))
  }

  /** `Flagged` as a predicate on row positions. */
  function Offends(rows: seq<seq<string>>, idx: nat, check: Check): nat -> bool {
    (r: nat) => r < |rows| && Flagged(rows, idx, check, r)
  }

  /** The positions below `n` that satisfy `bad`, in increasing order. */
  function FlaggedBelow(bad: nat -> bool, n: nat): seq<nat> {
    if n == 0 then []
    else FlaggedBelow(bad, n - 1) + (if bad(n - 1) then [n - 1] else [])
  }

  /** The list holds exactly the positions below `n` that satisfy `bad`,
      each once, in increasing order. */
  lemma {:induction false} FlaggedBelowSpec(bad: nat -> bool, n: nat)
    ensures forall j | 0 <= j < |FlaggedBelow(bad, n)| :: FlaggedBelow(bad, n)[j] < n && bad(FlaggedBelow(bad, n)[j])
    ensures forall r | 0 <= r < n && bad(r) :: r in FlaggedBelow(bad, n)
    ensures forall i, j | 0 <= i < j < |FlaggedBelow(bad, n)| :: FlaggedBelow(bad, n)[i] < FlaggedBelow(bad, n)[j]
  {
    if n > 0 {
      FlaggedBelowSpec(bad, n - 1);
    }
  }

  /** Some position fails exactly when the list is not empty. */
  lemma FlaggedBelowEmptyIff(bad: nat -> bool, n: nat)
    ensures FlaggedBelow(bad, n) == [] <==> forall r | 0 <= r < n :: !bad(r)
  {
    FlaggedBelowSpec(bad, n);
    var fl := FlaggedBelow(bad, n);
    if fl != [] {
      assert bad(fl[0]);
    }
  }

  /** A data row's number in the file: 1-based, counting the header line. */
  function RowNumber(r: nat, hasHeader: bool): nat {
    r + 1 + (if hasHeader then 1 else 0)
  }

  function RowNumberOf(hasHeader: bool): nat -> nat {
    (r: nat) => RowNumber(r, hasHeader)
  }

  /** The trimmed cell of a data row, as a function of the row position. */
  function ValueOf(rows: seq<seq<string>>, idx: nat): nat -> string {
    (r: nat) => if r < |rows| then Value(rows, idx, r) else ""
  }

  /** `f` applied to each position of `fl`. */
  function Image<T>(fl: seq<nat>, f: nat -> T): (r: seq<T>)
    ensures |r| == |fl|
    ensures forall i | 0 <= i < |fl| :: r[i] == f(fl[i])
  {
    seq(|fl|, i requires 0 <= i < |fl| => f(fl[i]))
  }

  lemma ImageSnoc<T>(fl: seq<nat>, x: nat, f: nat -> T)
    ensures Image(fl + [x], f) == Image(fl, f) + [f(x)]
  {
  }

  /** The loop over the data rows, for any test `bad` of a row position:
      it counts the positions that fail and keeps the number and value of
      the first five. */
  method Scan<T>(n: nat, bad: nat -> bool, number: nat -> nat, value: nat -> T)
    returns (count: nat, samples: seq<nat>, values: seq<T>)
    ensures count == |FlaggedBelow(bad, n)|
    ensures samples == Image(Take(FlaggedBelow(bad, n), 5), number)
    ensures values == Image(Take(FlaggedBelow(bad, n), 5), value)
  {
    count, samples, values := 0, [], [];
    var r := 0;
    ghost var fl: seq<nat> := [];
    while r < n
      invariant r <= n
      invariant fl == FlaggedBelow(bad, r)
      invariant count == |fl|
      invariant samples == Image(Take(fl, 5), number)
      invariant values == Image(Take(fl, 5), value)
    {
      if bad(r) {
        count := count + 1;
        if |samples| < 5 {
          assert Take(fl + [r], 5) == Take(fl, 5) + [r];
          ImageSnoc(Take(fl, 5), r, number);
          ImageSnoc(Take(fl, 5), r, value);
          samples := samples + [number(r)];
          values := values + [value(r)];
        } else {
          assert Take(fl + [r], 5) == Take(fl, 5);
        }
        fl := fl + [r];
      }
      r := r + 1;
    }
  }

  /** The scan of one column's data values against a check. */
  method ScanColumn(rows: seq<seq<string>>, idx: nat, check: Check, hasHeader: bool)
    returns (count: nat, samples: seq<nat>, values: seq<string>)
    ensures count == |FlaggedBelow(Offends(rows, idx, check), |rows|)|
    ensures samples == Image(Take(FlaggedBelow(Offends(rows, idx, check), |rows|), 5), RowNumberOf(hasHeader))
    ensures values == Image(Take(FlaggedBelow(Offends(rows, idx, check), |rows|), 5), ValueOf(rows, idx))
    ensures |samples| == |values| == Min(count, 5)
  {
    count, samples, values := Scan(|rows|, Offends(rows, idx, check), RowNumberOf(hasHeader), ValueOf(rows, idx));
  }

  // ---------------------------------------------------------------- issues

  datatype Issue = Issue(caption: string, count: nat, samples: seq<nat>, rule: string, sampleValues: seq<string>)

  /** The slots the pass looks at: captioned and pointed at a column, in
      display order. */
  predicate Mapped(r: MappingRow) {
    r.caption != "" && r.header != "" && r.header != Unassigned
  }

  function EffectiveRows(rows: seq<MappingRow>): (r: seq<MappingRow>)
    ensures forall k | 0 <= k < |r| :: Mapped(r[k])
    ensures multiset(r) == multiset(Filter(rows, Mapped))
    ensures SortedByOrder(r)
  {
    var r := SortByOrder(Filter(rows, Mapped));
    assert forall k | 0 <= k < |r| :: r[k] in multiset(Filter(rows, Mapped));
    r
  }

  /** The issue one slot yields, if any: none when its header names no
      column, its caption has no rule, or no value offends. */
  function IssueOf(slot: MappingRow, columns: seq<Column>, rows: seq<seq<string>>, hasHeader: bool, dateFormat: string): (r: Option<Issue>)
    ensures r.Some? ==>
      && Slots.FindColumn(columns, slot.header).Some?
      && RuleFor(slot.caption, dateFormat).Some?
      && r.value.caption == slot.caption
      && r.value.rule == RuleFor(slot.caption, dateFormat).value.text
      && r.value.count > 0
      && |r.value.samples| == |r.value.sampleValues| == Min(r.value.count, 5)
  {
    match (Slots.FindColumn(columns, slot.header), RuleFor(slot.caption, dateFormat))
    case (Some(c), Some(rule)) =>
      var fl := FlaggedBelow(Offends(rows, c.index, rule.check), |rows|);
      if |fl| == 0 then None
      else
        var first := Take(fl, 5);
        Some(Issue(slot.caption, |fl|, Image(first, RowNumberOf(hasHeader)), rule.text, Image(first, ValueOf(rows, c.index))))
    case _ => None
  }

  /** The issues of a list of slots, in slot order. */
  function IssuesOf(slots: seq<MappingRow>, columns: seq<Column>, rows: seq<seq<string>>, hasHeader: bool, dateFormat: string): (r: seq<Issue>)
    ensures |r| <= |slots|
    ensures forall k | 0 <= k < |r| :: r[k].count > 0 && exists j | 0 <= j < |slots| :: r[k].caption == slots[j].caption
    decreases |slots|
  {
    if |slots| == 0 then []
    else
      var last := slots[|slots| - 1];
      var init := IssuesOf(slots[..|slots| - 1], columns, rows, hasHeader, dateFormat);
      assert forall k | 0 <= k < |init| :: exists j | 0 <= j < |slots| - 1 :: init[k].caption == slots[j].caption;
      match IssueOf(last, columns, rows, hasHeader, dateFormat)
      case Some(issue) => init + [issue]
      case None => init
  }

  /** One slot more: its issue, if any, comes last. */
  lemma IssuesOfSnoc(slots: seq<MappingRow>, i: nat, columns: seq<Column>, rows: seq<seq<string>>, hasHeader: bool, dateFormat: string)
    requires i < |slots|
    ensures var o := IssueOf(slots[i], columns, rows, hasHeader, dateFormat);
      IssuesOf(slots[..i + 1], columns, rows, hasHeader, dateFormat) ==
        IssuesOf(slots[..i], columns, rows, hasHeader, dateFormat) + (if o.Some? then [o.value] else [])
  {
    assert slots[..i + 1][..i] == slots[..i];
  }

  /** What the scan of a slot's column yields is the slot's issue. */
  lemma IssueOfScan(slot: MappingRow, columns: seq<Column>, rows: seq<seq<string>>, hasHeader: bool, dateFormat: string,
                    c: Column, rule: Rule, count: nat, samples: seq<nat>, values: seq<string>)
    requires Slots.FindColumn(columns, slot.header) == Some(c) && RuleFor(slot.caption, dateFormat) == Some(rule)
    requires count == |FlaggedBelow(Offends(rows, c.index, rule.check), |rows|)|
    requires samples == Image(Take(FlaggedBelow(Offends(rows, c.index, rule.check), |rows|), 5), RowNumberOf(hasHeader))
    requires values == Image(Take(FlaggedBelow(Offends(rows, c.index, rule.check), |rows|), 5), ValueOf(rows, c.index))
    ensures IssueOf(slot, columns, rows, hasHeader, dateFormat) ==
      if count > 0 then Some(Issue(slot.caption, count, samples, rule.text, values)) else None
  {
  }

  /** The pass over the table: each effective slot's column scanned in
      display order. */
  method Validate(table: seq<MappingRow>, columns: seq<Column>, data: seq<seq<string>>, hasHeader: bool, dateFormat: string)
    returns (issues: seq<Issue>)
    ensures issues == IssuesOf(EffectiveRows(table), columns, DataRows(data, hasHeader), hasHeader, dateFormat)
  {
    var slots := EffectiveRows(table);
    var rows := DataRows(data, hasHeader);
    issues := [];
    var i := 0;
    while i < |slots|
      invariant i <= |slots|
      invariant issues == IssuesOf(slots[..i], columns, rows, hasHeader, dateFormat)
    {
      var slot := slots[i];
      IssuesOfSnoc(slots, i, columns, rows, hasHeader, dateFormat);
      var col := Slots.FindColumn(columns, slot.header);
      var rule := RuleFor(slot.caption, dateFormat);
      if col.Some? && rule.Some? {
        var count, samples, values := ScanColumn(rows, col.value.index, rule.value.check, hasHeader);
        IssueOfScan(slot, columns, rows, hasHeader, dateFormat, col.value, rule.value, count, samples, values);
        if count > 0 {
          issues := issues + [Issue(slot.caption, count, samples, rule.value.text, values)];
        }
      }
      i := i + 1;
    }
    assert slots[..|slots|] == slots;
  }

  /** The pass runs once per upload, when the mapping has just become
      complete. */
  predicate ShouldValidate(table: seq<MappingRow>, uploaded: bool, alreadyPrompted: bool) {
    uploaded && !alreadyPrompted && Slots.AllConfirmed(table)
  }

  /** The pass runs only after an upload that has not prompted yet, and only
      when some slot has a caption and every captioned slot is confirmed. */
  lemma ShouldValidateIff(table: seq<MappingRow>, uploaded: bool, alreadyPrompted: bool)
    ensures ShouldValidate(table, uploaded, alreadyPrompted) <==>
      && uploaded && !alreadyPrompted
      && (exists k | 0 <= k < |table| :: table[k].caption != "")
      && (forall k | 0 <= k < |table| && table[k].caption != "" :: table[k].confirmed)
  {
    Slots.AllConfirmedIff(table);
  }

  /** A slot's own values are never reported when its caption only asks for
      a value: the pass skips empty values before checking, so "Reference"
      and "Username" never yield an issue. */
  lemma PresentNeverFlagged(rows: seq<seq<string>>, idx: nat, n: nat)
    ensures FlaggedBelow(Offends(rows, idx, PresentCheck), n) == []
  {
    var fl := FlaggedBelow(Offends(rows, idx, PresentCheck), n);
    if |fl| > 0 {
      assert false;
    }
  }

  lemma PresentCaptionsNoIssue(slot: MappingRow, columns: seq<Column>, rows: seq<seq<string>>, hasHeader: bool, dateFormat: string)
    requires slot.caption == "Reference" || slot.caption == "Username"
    ensures IssueOf(slot, columns, rows, hasHeader, dateFormat).None?
  {
    match Slots.FindColumn(columns, slot.header)
    case Some(c) =>
      assert RuleFor(slot.caption, dateFormat).value.check == PresentCheck;
      PresentNeverFlagged(rows, c.index, |rows|);
    case None =>
  }

  /** An "Employee ID" slot whose column holds "emp01" in some data row is
      reported, although the identifier is well formed. */
  lemma LowerCaseIdReported(slot: MappingRow, columns: seq<Column>, rows: seq<seq<string>>, hasHeader: bool, dateFormat: string, r: nat)
    requires slot.caption == "Employee ID"
    requires Slots.FindColumn(columns, slot.header).Some?
    requires r < |rows| && Value(rows, Slots.FindColumn(columns, slot.header).value.index, r) == "emp01"
    ensures IssueOf(slot, columns, rows, hasHeader, dateFormat).Some?
  {
    IssueIff(slot, columns, rows, hasHeader, dateFormat);
    EmployeeIdPassRejectsLowerCase();
    assert RuleFor(slot.caption, dateFormat).value.check == EmployeeIdCheck;
    assert Flagged(rows, Slots.FindColumn(columns, slot.header).value.index, EmployeeIdCheck, r);
  }

  /** A slot whose caption has a rule yields an issue exactly when one of
      its column's data values is present and fails the rule. */
  lemma IssueIff(slot: MappingRow, columns: seq<Column>, rows: seq<seq<string>>, hasHeader: bool, dateFormat: string)
    requires Slots.FindColumn(columns, slot.header).Some?
    requires RuleFor(slot.caption, dateFormat).Some?
    ensures IssueOf(slot, columns, rows, hasHeader, dateFormat).Some? <==>
      exists r | 0 <= r < |rows| :: Flagged(rows, Slots.FindColumn(columns, slot.header).value.index, RuleFor(slot.caption, dateFormat).value.check, r)
  {
    var idx := Slots.FindColumn(columns, slot.header).value.index;
    var check := RuleFor(slot.caption, dateFormat).value.check;
    var bad := Offends(rows, idx, check);
    assert IssueOf(slot, columns, rows, hasHeader, dateFormat).Some? <==> FlaggedBelow(bad, |rows|) != [];
    FlaggedBelowEmptyIff(bad, |rows|);
    assert forall r | 0 <= r < |rows| :: bad(r) == Flagged(rows, idx, check, r);
  }
}
