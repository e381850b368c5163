/** The page's local suggestion engine: every caption is scored against every
    analysed column, the strictly best column is kept when it scores at least
    0.72, and collisions on the same column are then resolved in favour of
    the higher confidence. */
module Heuristic {
  import opened Common
  import opened Text
  import opened Normal
  import opened Domain
  import Synonyms

  function Max(a: real, b: real): real {
    if a >= b then a else b
  }

  /** `Math.max(0, Math.min(1, x))` */
  function Clamp(x: real): (r: real)
    ensures 0.0 <= r <= 1.0
    ensures 0.0 <= x <= 1.0 ==> r == x
    ensures x >= 1.0 ==> r == 1.0
  {
    Max(0.0, if x < 1.0 then x else 1.0)
  }

  lemma ClampAtLeast(x: real, b: real)
    requires b <= x && b <= 1.0
    ensures Clamp(x) >= b
  {
  }

  // ---------------------------------------------------------------- signals

  /** The phrasings scored against a column: the caption's table entry, or
      the caption itself when the table has none. */
  function ScoringSynonyms(caption: string): seq<string> {
    match Synonyms.Lookup(caption)
    case Some(l) => l
    case None => [caption]
  }

  function NormalizeAll(ss: seq<string>): (r: seq<string>)
    ensures |r| == |ss|
    ensures forall k | 0 <= k < |ss| :: r[k] == Normalize(ss[k])
  {
    seq(|ss|, k requires 0 <= k < |ss| => Normalize(ss[k]))
  }

  /** The synonym loop: an empty synonym is skipped; an equal one lifts the
      score to 0.98, one contained in the name (or containing it) to 0.92. */
  function SynonymFold(col: string, syns: seq<string>, score: real): (r: real)
    ensures score <= r <= Max(score, 0.98)
    decreases |syns|
  {
    if |syns| == 0 then score
    else
      var s := syns[0];
      var next :=
        if s == "" then score
        else
          var a := if col == s then Max(score, 0.98) else score;
          if Contains(col, s) || Contains(s, col) then Max(a, 0.92) else a;
      SynonymFold(col, syns[1..], next)
  }

  /** The words of a normalised name: its pieces between single spaces,
      as a set (`new Set(s.split(' '))`; the empty name gives `{""}`). */
  function TokenSet(s: string): set<string> {
    set t | t in Split(s, ' ')
  }

  /** Token overlap `|A ∩ B| / |A ∪ B|` of the two names' word sets. */
  function Jaccard(a: string, b: string): (j: real)
    ensures 0.0 <= j <= 1.0
    ensures a == b ==> j == 1.0
  {
    assert Split(a, ' ')[0] in TokenSet(a);
    Overlap(TokenSet(a), TokenSet(b))
  }

  /** `w` stands at `p` between whitespace or the ends of `s`
      (`(^|\s)w($|\s)`). */
  predicate TokenAt(s: string, p: nat, w: string) {
    && p + |w| <= |s|
    && s[p..p + |w|] == w
    && (p == 0 || IsSpace(s[p - 1]))
    && (p + |w| == |s| || IsSpace(s[p + |w|]))
  }

  /** `/(^|\s)(id|code|number|no)($|\s)/` */
  predicate IdLike(s: string) {
    exists p | 0 <= p <= |s| :: TokenAt(s, p, "id") || TokenAt(s, p, "code") || TokenAt(s, p, "number") || TokenAt(s, p, "no")
  }

  /** `w` (which starts and ends with word characters) stands at `p` between
      word boundaries `\b`. */
  predicate WordAt(s: string, p: nat, w: string) {
    && p + |w| <= |s|
    && s[p..p + |w|] == w
    && (p == 0 || !IsWordChar(s[p - 1]))
    && (p + |w| == |s| || !IsWordChar(s[p + |w|]))
  }

  /** `/\bdept\b|department/` */
  predicate DeptLike(s: string) {
    (exists p | 0 <= p <= |s| :: WordAt(s, p, "dept")) || Contains(s, "department")
  }

  /** `/org|organisation|organization|business unit|division/`: a plain
      substring test, so any name containing "org" qualifies. */
  predicate OrgLike(s: string) {
    || Contains(s, "org")
    || Contains(s, "organisation")
    || Contains(s, "organization")
    || Contains(s, "business unit")
    || Contains(s, "division")
  }

  /** The kind recorded for a column index in the boost table: the table is
      keyed by index and rebuilt per column, so the last column carrying the
      index decides. */
  function BoostKind(columns: seq<Column>, index: nat): Option<ColumnType>
    decreases |columns|
  {
    if |columns| == 0 then None
    else if columns[|columns| - 1].index == index then Some(columns[|columns| - 1].kind)
    else BoostKind(columns[..|columns| - 1], index)
  }

  /** A kind is found for an index exactly when some column carries it, and
      it is the kind of the last such column. */
  lemma {:induction false} BoostKindSpec(columns: seq<Column>, index: nat)
    ensures BoostKind(columns, index).Some? <==> exists k | 0 <= k < |columns| :: columns[k].index == index
    ensures BoostKind(columns, index).Some? ==> exists k | 0 <= k < |columns| ::
      && columns[k].index == index && columns[k].kind == BoostKind(columns, index).value
      && forall j | k < j < |columns| :: columns[j].index != index
    decreases |columns|
  {
    if |columns| > 0 {
      var last := |columns| - 1;
      if columns[last].index != index {
        var init := columns[..last];
        assert forall k | 0 <= k < last :: init[k] == columns[k];
        BoostKindSpec(init, index);
        if BoostKind(init, index).Some? {
          var k :| 0 <= k < |init| && init[k].index == index && init[k].kind == BoostKind(init, index).value
            && forall j | k < j < |init| :: init[j].index != index;
          assert columns[k] == init[k];
        }
      }
    }
  }

  /** Type boosts: email columns favour Email (0.3) and Username (0.1),
      date columns Start Date (0.3), number columns Employee ID (0.15) and
      Reference (0.1). */
  function KindBoost(kind: Option<ColumnType>, caption: string): (b: real)
    ensures 0.0 <= b <= 0.3
  {
    match kind
    case Some(EmailType) => if caption == "Email" then 0.3 else if caption == "Username" then 0.1 else 0.0
    case Some(DateType) => if caption == "Start Date" then 0.3 else 0.0
    case Some(NumberType) => if caption == "Employee ID" then 0.15 else if caption == "Reference" then 0.1 else 0.0
    case _ => 0.0
  }

  // ---------------------------------------------------------------- score

  /** The name-based part of the score before the boosts: exact match 1.0,
      containment either way 0.9, the synonym loop, then 0.6 × Jaccard. */
  function BaseScore(normCol: string, normCap: string, normSyns: seq<string>): real {
    var s0 := if normCol == normCap then 1.0 else 0.0;
    var s1 := if Contains(normCol, normCap) || Contains(normCap, normCol) then Max(s0, 0.9) else s0;
    var s2 := SynonymFold(normCol, normSyns, s1);
    Max(s2, 0.6 * Jaccard(normCol, normCap))
  }

  /** The boosts, in order: ID-like names, department-like names, org-like
      names, then the column kind. */
  function Boosted(base: real, normCol: string, caption: string, kind: Option<ColumnType>): real {
    var s4 := if IdLike(normCol) then
      base + (if caption == "Employee ID" then 0.25 else 0.0) + (if caption == "Reference" then 0.15 else 0.0)
      else base;
    var s5 := if DeptLike(normCol) then
      s4 + (if caption == "Department" then 0.25 else 0.0) - (if caption == "Org Unit" then 0.05 else 0.0)
      else s4;
    var s6 := if OrgLike(normCol) && caption == "Org Unit" then s5 + 0.2 else s5;
    s6 + KindBoost(kind, caption)
  }

  /** The unclamped score of a column name against a caption. */
  function RawScore(colName: string, caption: string, kind: Option<ColumnType>): real {
    var normCol := Normalize(colName);
    var base := BaseScore(normCol, Normalize(caption), NormalizeAll(ScoringSynonyms(caption)));
    Boosted(base, normCol, caption, kind)
  }

  /** The clamped score of column `idx` against `caption`. */
  function Score(columns: seq<Column>, idx: nat, caption: string): (r: real)
    requires idx < |columns|
    ensures 0.0 <= r <= 1.0
  {
    Clamp(RawScore(columns[idx].name, caption, BoostKind(columns, columns[idx].index)))
  }

  /** The boosts never take more than 0.05 off, and that only for Org Unit
      on a department-like name that is not also org-like. */
  lemma BoostedLowerBound(base: real, normCol: string, caption: string, kind: Option<ColumnType>)
    ensures Boosted(base, normCol, caption, kind) >= base - 0.05
    ensures !(caption == "Org Unit" && DeptLike(normCol) && !OrgLike(normCol)) ==> Boosted(base, normCol, caption, kind) >= base
  {
  }

  lemma {:induction false} SynonymFoldExact(col: string, syns: seq<string>, score: real, s: string)
    requires s in syns && s != "" && col == s
    ensures SynonymFold(col, syns, score) >= 0.98
    decreases |syns|
  {
    var next :=
      if syns[0] == "" then score
      else
        var a := if col == syns[0] then Max(score, 0.98) else score;
        if Contains(col, syns[0]) || Contains(syns[0], col) then Max(a, 0.92) else a;
    if syns[0] == s {
      assert next >= 0.98;
    } else {
      assert s in syns[1..];
      SynonymFoldExact(col, syns[1..], next, s);
    }
  }

  /** The normalised Org Unit caption and all its normalised synonyms are
      org-like, so its department penalty is always outweighed. */
  lemma OrgUnitNamesOrgLike(s: string)
    requires s == "Org Unit" || s in ScoringSynonyms("Org Unit")
    ensures OrgLike(Normalize(s))
  {
    if s == "Org Unit" {
      OrgUnitCaptionOrgLike();
    } else {
      OrgUnitSynonymList();
      if s in ["org unit", "organisation unit", "organization unit"] {
        OrgUnitSynonymsA(s);
      } else if s in ["business unit", "division"] {
        OrgUnitSynonymsB(s);
      } else {
        OrgUnitSynonymsC(s);
      }
    }
  }

  lemma OrgUnitSynonymList()
    ensures ScoringSynonyms("Org Unit") == ["org unit", "organisation unit", "organization unit", "business unit", "division", "org", "organization", "organisation"]
  {
  }

  lemma OrgUnitSynonymsA(s: string)
    requires s in ["org unit", "organisation unit", "organization unit"]
    ensures OrgLike(Normalize(s))
  {
    assert NormalForm(s);
    OrgPrefixed(s);
  }

  lemma OrgUnitSynonymsB(s: string)
    requires s in ["business unit", "division"]
    ensures OrgLike(Normalize(s))
  {
    assert NormalForm(s);
    ContainsSelf(s);
    NormalFixed(s);
  }

  lemma OrgUnitSynonymsC(s: string)
    requires s in ["org", "organization", "organisation"]
    ensures OrgLike(Normalize(s))
  {
    assert NormalForm(s);
    OrgPrefixed(s);
  }

  lemma OrgUnitCaptionOrgLike()
    ensures OrgLike(Normalize("Org Unit"))
  {
    OrgUnitLowerOrgLike();
    LowerOrgUnit();
    NormalizeIgnoresCase("Org Unit");
  }

  lemma OrgUnitLowerOrgLike()
    ensures OrgLike(Normalize("org unit"))
  {
    assert NormalForm("org unit");
    OrgPrefixed("org unit");
  }

  lemma LowerOrgUnit()
    ensures Lower("Org Unit") == "org unit"
  {
  }

  lemma OrgPrefixed(n: string)
    requires NormalForm(n) && |n| >= 3 && n[..3] == "org"
    ensures OrgLike(Normalize(n))
  {
    assert StartsWith(n, "org");
    NormalFixed(n);
  }

  /** A lower bound on the boosted score carries over to the clamped score. */
  lemma ScoreAtLeast(columns: seq<Column>, idx: nat, caption: string, b: real)
    requires idx < |columns| && b <= 1.0
    requires
      var normCol := Normalize(columns[idx].name);
      Boosted(BaseScore(normCol, Normalize(caption), NormalizeAll(ScoringSynonyms(caption))), normCol, caption, BoostKind(columns, columns[idx].index)) >= b
    ensures Score(columns, idx, caption) >= b
  {
    ClampAtLeast(RawScore(columns[idx].name, caption, BoostKind(columns, columns[idx].index)), b);
  }

  /** A column whose normalised name equals the normalised caption scores 1. */
  lemma ExactMatchScoresOne(columns: seq<Column>, idx: nat, caption: string)
    requires idx < |columns|
    requires Normalize(columns[idx].name) == Normalize(caption)
    ensures Score(columns, idx, caption) == 1.0
  {
    var normCol := Normalize(columns[idx].name);
    var kind := BoostKind(columns, columns[idx].index);
    var base := BaseScore(normCol, Normalize(caption), NormalizeAll(ScoringSynonyms(caption)));
    ContainsSelf(normCol);
    assert base >= 1.0;
    BoostedLowerBound(base, normCol, caption, kind);
    if caption == "Org Unit" {
      OrgUnitNamesOrgLike(caption);
    }
    ScoreAtLeast(columns, idx, caption, 1.0);
  }

  /** A column whose normalised name equals a normalised synonym of the
      caption scores at least 0.98. */
  lemma SynonymMatchScoresHigh(columns: seq<Column>, idx: nat, caption: string, syn: string)
    requires idx < |columns|
    requires syn in ScoringSynonyms(caption)
    requires Normalize(columns[idx].name) == Normalize(syn) != ""
    ensures Score(columns, idx, caption) >= 0.98
  {
    var normCol := Normalize(columns[idx].name);
    var normCap := Normalize(caption);
    var syns := NormalizeAll(ScoringSynonyms(caption));
    var kind := BoostKind(columns, columns[idx].index);
    var k :| 0 <= k < |ScoringSynonyms(caption)| && ScoringSynonyms(caption)[k] == syn;
    assert syns[k] == normCol;
    var base := BaseScore(normCol, normCap, syns);
    BaseScoreSynonym(normCol, normCap, syns);
    BoostedLowerBound(base, normCol, caption, kind);
    if caption == "Org Unit" {
      OrgUnitNamesOrgLike(syn);
    }
    ScoreAtLeast(columns, idx, caption, 0.98);
  }

  lemma BaseScoreSynonym(normCol: string, normCap: string, syns: seq<string>)
    requires normCol in syns && normCol != ""
    ensures BaseScore(normCol, normCap, syns) >= 0.98
  {
    var s0 := if normCol == normCap then 1.0 else 0.0;
    var s1 := if Contains(normCol, normCap) || Contains(normCap, normCol) then Max(s0, 0.9) else s0;
    SynonymFoldExact(normCol, syns, s1, normCol);
  }

  lemma BaseScoreEmpty(normCap: string, syns: seq<string>)
    ensures BaseScore("", normCap, syns) >= 0.9
  {
    ContainsEmpty(normCap);
  }

  /** A name that normalises to nothing (say `"#"`) is contained in every
      caption, so it scores at least 0.9 against all of them. */
  lemma EmptyNameScoresHigh(columns: seq<Column>, idx: nat, caption: string)
    requires idx < |columns|
    requires Normalize(columns[idx].name) == ""
    ensures Score(columns, idx, caption) >= 0.9
  {
    EmptyBoosted(Normalize(caption), NormalizeAll(ScoringSynonyms(caption)), caption, BoostKind(columns, columns[idx].index));
    ScoreAtLeast(columns, idx, caption, 0.9);
  }

  /** The empty name keeps its base score of at least 0.9 through the
      boosts: it is not department-like, so no penalty applies. */
  lemma EmptyBoosted(normCap: string, syns: seq<string>, caption: string, kind: Option<ColumnType>)
    ensures Boosted(BaseScore("", normCap, syns), "", caption, kind) >= 0.9
  {
    BaseScoreEmpty(normCap, syns);
    assert !Contains("", "department");
    assert !DeptLike("");
    BoostedLowerBound(BaseScore("", normCap, syns), "", caption, kind);
  }

  /** When column indices are distinct (as the analyser produces them),
      each column's type boost comes from its own kind. */
  lemma BoostFromOwnKind(columns: seq<Column>, idx: nat)
    requires idx < |columns|
    requires forall i, j | 0 <= i < j < |columns| :: columns[i].index != columns[j].index
    ensures BoostKind(columns, columns[idx].index) == Some(columns[idx].kind)
  {
    BoostKindSpec(columns, columns[idx].index);
  }

  // ---------------------------------------------------------------- selection

  /** Acceptance bar for a caption's best column. */
  const Threshold: real := 0.72

  /** The scan for the best column: starting from (-1, 0), a later position
      replaces the best only with a strictly higher score. */
  function Best(scores: seq<real>): (r: (int, real))
    ensures r.0 == -1 <==> forall k | 0 <= k < |scores| :: scores[k] <= 0.0
    ensures r.0 == -1 ==> r.1 == 0.0
    ensures r.0 != -1 ==> 0 <= r.0 < |scores| && scores[r.0] == r.1 > 0.0
    ensures forall k | 0 <= k < |scores| :: scores[k] <= r.1
    ensures r.0 != -1 ==> forall k | 0 <= k < r.0 :: scores[k] < r.1
    decreases |scores|
  {
    if |scores| == 0 then (-1, 0.0)
    else
      var p := Best(scores[..|scores| - 1]);
      if scores[|scores| - 1] > p.1 then (|scores| - 1, scores[|scores| - 1]) else p
  }

  /** `Number(x.toFixed(2))`, read as rounding half up to hundredths. */
  function Round2(x: real): real {
    ((x * 100.0 + 0.5).Floor as real) / 100.0
  }

  /** Rounding keeps an accepted score within [0.72, 1]. */
  lemma Round2Bounds(x: real)
    requires Threshold <= x <= 1.0
    ensures Threshold <= Round2(x) <= 1.0
  {
    var f := (x * 100.0 + 0.5).Floor;
    assert 72.5 <= x * 100.0 + 0.5 <= 100.5;
    assert 72 <= f <= 100;
  }

  /** Rounding moves a value by at most half a hundredth. */
  lemma Round2Close(x: real)
    ensures x - 0.005 < Round2(x) <= x + 0.005
  {
  }

  /** Rounding is monotone. */
  lemma Round2Monotone(x: real, y: real)
    requires x <= y
    ensures Round2(x) <= Round2(y)
  {
    var fx := (x * 100.0 + 0.5).Floor;
    var fy := (y * 100.0 + 0.5).Floor;
    assert x * 100.0 <= y * 100.0;
    assert fx as real <= y * 100.0 + 0.5 < fy as real + 1.0;
    assert fx <= fy;
  }

  /** Rounding leaves two-decimal values alone. */
  lemma Round2Exact(n: int)
    ensures Round2(n as real / 100.0) == n as real / 100.0
  {
    var y := n as real / 100.0;
    assert y * 100.0 == n as real;
    assert (y * 100.0 + 0.5).Floor == n;
  }

  function Scores(columns: seq<Column>, caption: string): (r: seq<real>)
    ensures |r| == |columns|
    ensures forall k | 0 <= k < |columns| :: r[k] == Score(columns, k, caption)
  {
    seq(|columns|, k requires 0 <= k < |columns| => Score(columns, k, caption))
  }

  /** Position `i` holds the first strictly highest score, and that score
      clears the bar. */
  predicate Wins(scores: seq<real>, i: nat) {
    && i < |scores|
    && scores[i] >= Threshold
    && (forall k | 0 <= k < |scores| :: scores[k] <= scores[i])
    && (forall k | 0 <= k < i :: scores[k] < scores[i])
  }

  /** The candidate for one caption given the columns' names and scores:
      the winning column's name with its score rounded to hundredths, or
      nothing when no column clears the bar. */
  function Pick(names: seq<string>, caption: string, scores: seq<real>): (r: Option<Suggestion>)
    requires |names| == |scores|
    requires forall k | 0 <= k < |scores| :: scores[k] <= 1.0
    ensures r.Some? <==> exists i | 0 <= i < |scores| :: Wins(scores, i)
    ensures forall i | 0 <= i < |scores| && Wins(scores, i) ::
      r == Some(Suggestion(names[i], caption, Round2(scores[i])))
    ensures r.Some? ==> r.value.csvColumn in names && r.value.targetCaption == caption
    ensures r.Some? ==> Threshold <= r.value.confidence <= 1.0
  {
    var b := Best(scores);
    if b.0 >= 0 && b.1 >= Threshold then
      Round2Bounds(b.1);
      assert Wins(scores, b.0);
      Some(Suggestion(names[b.0], caption, Round2(b.1)))
    else
      assert forall i | 0 <= i < |scores| :: !Wins(scores, i);
      None
  }

  function Names(columns: seq<Column>): (r: seq<string>)
    ensures |r| == |columns|
    ensures forall k | 0 <= k < |columns| :: r[k] == columns[k].name
  {
    seq(|columns|, k requires 0 <= k < |columns| => columns[k].name)
  }

  /** The candidate for one caption. */
  function Match(columns: seq<Column>, caption: string): Option<Suggestion> {
    Pick(Names(columns), caption, Scores(columns, caption))
  }

  /** The scores of every column for every caption, one row per caption. */
  function ScoreMatrix(columns: seq<Column>, captions: seq<string>): (m: seq<seq<real>>)
    ensures |m| == |captions|
    ensures forall c | 0 <= c < |captions| :: m[c] == Scores(columns, captions[c])
    ensures forall c | 0 <= c < |captions| :: |m[c]| == |columns| && forall k | 0 <= k < |columns| :: 0.0 <= m[c][k] <= 1.0
  {
    seq(|captions|, c requires 0 <= c < |captions| => Scores(columns, captions[c]))
  }

  /** One candidate per caption at most, in caption order, from the score
      rows of the captions. */
  function Candidates(names: seq<string>, captions: seq<string>, matrix: seq<seq<real>>): (r: seq<Suggestion>)
    requires |matrix| == |captions|
    requires forall c | 0 <= c < |captions| :: |matrix[c]| == |names| && forall k | 0 <= k < |names| :: matrix[c][k] <= 1.0
    ensures |r| <= |captions|
    ensures forall k | 0 <= k < |r| ::
      && r[k].targetCaption in captions
      && Threshold <= r[k].confidence <= 1.0
      && r[k].csvColumn in names
    decreases |captions|
  {
    if |captions| == 0 then []
    else
      var n := |captions| - 1;
      var rest := Candidates(names, captions[..n], matrix[..n]);
      assert forall c | c in captions[..n] :: c in captions;
      match Pick(names, captions[n], matrix[n])
      case None => rest
      case Some(s) => rest + [s]
  }

  /** The pick for every caption, from its row of scores. */
  function Picks(names: seq<string>, captions: seq<string>, matrix: seq<seq<real>>): (r: seq<Option<Suggestion>>)
    requires |matrix| == |captions|
    requires forall c | 0 <= c < |captions| :: |matrix[c]| == |names| && forall k | 0 <= k < |names| :: matrix[c][k] <= 1.0
    ensures |r| == |captions|
    ensures forall c | 0 <= c < |captions| :: r[c] == Pick(names, captions[c], matrix[c])
  {
    seq(|captions|, c requires 0 <= c < |captions| => Pick(names, captions[c], matrix[c]))
  }

  /** The candidate loop keeps the picks that found a column, in caption
      order. */
  lemma {:induction false} CandidatesArePicks(names: seq<string>, captions: seq<string>, matrix: seq<seq<real>>)
    requires |matrix| == |captions|
    requires forall c | 0 <= c < |captions| :: |matrix[c]| == |names| && forall k | 0 <= k < |names| :: matrix[c][k] <= 1.0
    ensures Candidates(names, captions, matrix) == Somes(Picks(names, captions, matrix))
    decreases |captions|
  {
    if |captions| > 0 {
      var n := |captions| - 1;
      CandidatesArePicks(names, captions[..n], matrix[..n]);
      assert Picks(names, captions, matrix)[..n] == Picks(names, captions[..n], matrix[..n]);
    }
  }

  /** Where the candidates come from: `w` lists, in increasing order,
      exactly the caption positions whose pick found a column, and the
      `k`-th candidate is the pick for caption `w[k]`. */
  lemma CandidatesOrigin(names: seq<string>, captions: seq<string>, matrix: seq<seq<real>>) returns (w: seq<nat>)
    requires |matrix| == |captions|
    requires forall c | 0 <= c < |captions| :: |matrix[c]| == |names| && forall k | 0 <= k < |names| :: matrix[c][k] <= 1.0
    ensures |w| == |Candidates(names, captions, matrix)|
    ensures forall k | 0 <= k < |w| ::
      w[k] < |captions| && Pick(names, captions[w[k]], matrix[w[k]]) == Some(Candidates(names, captions, matrix)[k])
    ensures forall k, m | 0 <= k < m < |w| :: w[k] < w[m]
    ensures forall c | 0 <= c < |captions| && Pick(names, captions[c], matrix[c]).Some? :: c in w
  {
    CandidatesArePicks(names, captions, matrix);
    w := SomesOrigin(Picks(names, captions, matrix));
  }

  // ---------------------------------------------------------------- collisions

  /** Position of the first entry for column `col`. */
  function FindColumn(m: seq<Suggestion>, col: string): (r: Option<nat>)
    ensures r.None? <==> forall k | 0 <= k < |m| :: m[k].csvColumn != col
    ensures r.Some? ==> r.value < |m| && m[r.value].csvColumn == col
    decreases |m|
  {
    if |m| == 0 then None
    else if m[0].csvColumn == col then Some(0)
    else match FindColumn(m[1..], col)
      case None => None
      case Some(k) => Some(k + 1)
  }

  /** `Map.set` on a map keyed by column name: a new column is appended; an
      existing entry is replaced, in place, only by a strictly higher
      confidence. */
  function Keep(m: seq<Suggestion>, s: Suggestion): seq<Suggestion> {
    match FindColumn(m, s.csvColumn)
    case None => m + [s]
    case Some(k) => if s.confidence > m[k].confidence then m[k := s] else m
  }

  /** The collision pass over the candidates, in order. */
  function Dedupe(rs: seq<Suggestion>): seq<Suggestion>
    decreases |rs|
  {
    if |rs| == 0 then [] else Keep(Dedupe(rs[..|rs| - 1]), rs[|rs| - 1])
  }

  predicate UniqueColumns(m: seq<Suggestion>) {
    forall i, j | 0 <= i < j < |m| :: m[i].csvColumn != m[j].csvColumn
  }

  /** `rs[j]` is the first of the entries with the highest confidence among
      those for its column. */
  predicate FirstBest(rs: seq<Suggestion>, j: nat) {
    && j < |rs|
    && (forall k | 0 <= k < |rs| && rs[k].csvColumn == rs[j].csvColumn :: rs[k].confidence <= rs[j].confidence)
    && (forall k | 0 <= k < j && rs[k].csvColumn == rs[j].csvColumn :: rs[k].confidence < rs[j].confidence)
  }

  predicate KeptFirstBest(out: seq<Suggestion>, rs: seq<Suggestion>) {
    forall i | 0 <= i < |out| :: exists j | 0 <= j < |rs| :: FirstBest(rs, j) && out[i] == rs[j]
  }

  predicate CoversColumns(out: seq<Suggestion>, rs: seq<Suggestion>) {
    forall k | 0 <= k < |rs| :: FindColumn(out, rs[k].csvColumn).Some?
  }

  /** `w` names, for every kept entry, the candidate it is. */
  predicate Witnessed(out: seq<Suggestion>, rs: seq<Suggestion>, w: seq<nat>) {
    && |w| == |out|
    && forall i | 0 <= i < |w| :: w[i] < |rs| && FirstBest(rs, w[i]) && out[i] == rs[w[i]]
  }

  /** After the collision pass no two entries share a column, every
      candidate's column is still represented, and each column is
      represented by its highest-confidence candidate, the earliest one on
      a tie. The kept entries stand in the order in which their columns
      first appear among the candidates, as a `Map` keeps insertion order;
      `Dedupe` builds them in that order, and this lemma does not state it. */
  lemma DedupeSpec(rs: seq<Suggestion>)
    ensures UniqueColumns(Dedupe(rs))
    ensures CoversColumns(Dedupe(rs), rs)
    ensures KeptFirstBest(Dedupe(rs), rs)
    ensures |Dedupe(rs)| <= |rs|
  {
    var w := DedupeWitness(rs);
    forall i | 0 <= i < |Dedupe(rs)|
      ensures exists j | 0 <= j < |rs| :: FirstBest(rs, j) && Dedupe(rs)[i] == rs[j]
    {
      assert FirstBest(rs, w[i]) && Dedupe(rs)[i] == rs[w[i]];
    }
  }

  lemma {:induction false} DedupeWitness(rs: seq<Suggestion>) returns (w: seq<nat>)
    ensures UniqueColumns(Dedupe(rs))
    ensures CoversColumns(Dedupe(rs), rs)
    ensures Witnessed(Dedupe(rs), rs, w)
    ensures |Dedupe(rs)| <= |rs|
    decreases |rs|
  {
    if |rs| == 0 {
      w := [];
    } else {
      var pre := rs[..|rs| - 1];
      var x := rs[|rs| - 1];
      assert rs == pre + [x];
      var w0 := DedupeWitness(pre);
      var m := Dedupe(pre);
      KeepUnique(m, x);
      KeepCovers(pre, x, m);
      if FindColumn(m, x.csvColumn).None? {
        w := KeepNew(pre, x, m, w0);
      } else {
        w := KeepExisting(pre, x, m, w0);
      }
    }
  }

  lemma KeepUnique(m: seq<Suggestion>, x: Suggestion)
    requires UniqueColumns(m)
    ensures UniqueColumns(Keep(m, x))
    ensures |Keep(m, x)| <= |m| + 1
  {
  }

  /** Keeping a candidate never loses a column and always has its column. */
  lemma KeepCovers(pre: seq<Suggestion>, x: Suggestion, m: seq<Suggestion>)
    requires CoversColumns(m, pre)
    ensures CoversColumns(Keep(m, x), pre + [x])
  {
    var rs := pre + [x];
    var n := |pre|;
    var out := Keep(m, x);
    assert forall k | 0 <= k < n :: rs[k] == pre[k];
    assert |out| >= |m|;
    assert forall i | 0 <= i < |m| :: out[i].csvColumn == m[i].csvColumn;
    forall k | 0 <= k < |rs|
      ensures FindColumn(out, rs[k].csvColumn).Some?
    {
      if k < n {
        var q := FindColumn(m, pre[k].csvColumn).value;
        assert out[q].csvColumn == rs[k].csvColumn;
      } else if FindColumn(m, x.csvColumn).None? {
        assert out[|m|].csvColumn == rs[k].csvColumn;
      } else {
        var p := FindColumn(m, x.csvColumn).value;
        assert out[p].csvColumn == rs[k].csvColumn;
      }
    }
  }

  /** A candidate for a column not yet kept is appended, and it is the
      best (so far the only) candidate for its column. */
  lemma KeepNew(pre: seq<Suggestion>, x: Suggestion, m: seq<Suggestion>, w0: seq<nat>) returns (w: seq<nat>)
    requires CoversColumns(m, pre) && Witnessed(m, pre, w0)
    requires FindColumn(m, x.csvColumn).None?
    ensures Witnessed(Keep(m, x), pre + [x], w)
  {
    var rs := pre + [x];
    var n := |pre|;
    var out := Keep(m, x);
    assert out == m + [x];
    assert forall k | 0 <= k < n :: rs[k] == pre[k];
    forall k | 0 <= k < n
      ensures rs[k].csvColumn != x.csvColumn
    {
      assert FindColumn(m, pre[k].csvColumn).Some?;
    }
    assert FirstBest(rs, n);
    w := w0 + [n];
    forall i | 0 <= i < |m|
      ensures FirstBest(rs, w[i]) && out[i] == rs[w[i]]
    {
      assert FirstBest(pre, w0[i]);
    }
  }

  /** A candidate for a column already kept replaces the kept entry only
      when its confidence is strictly higher. */
  lemma KeepExisting(pre: seq<Suggestion>, x: Suggestion, m: seq<Suggestion>, w0: seq<nat>) returns (w: seq<nat>)
    requires UniqueColumns(m) && Witnessed(m, pre, w0)
    requires FindColumn(m, x.csvColumn).Some?
    ensures Witnessed(Keep(m, x), pre + [x], w)
  {
    var rs := pre + [x];
    var n := |pre|;
    var out := Keep(m, x);
    var p := FindColumn(m, x.csvColumn).value;
    assert forall k | 0 <= k < n :: rs[k] == pre[k];
    var replaced := x.confidence > m[p].confidence;
    w := if replaced then w0[p := n] else w0;
    forall i | 0 <= i < |out|
      ensures FirstBest(rs, w[i]) && out[i] == rs[w[i]]
    {
      assert FirstBest(pre, w0[i]);
      if i == p && replaced {
        assert out[i] == rs[n];
        assert FirstBest(rs, n);
      } else if i == p {
        assert out[i] == rs[w0[p]];
        assert FirstBest(rs, w0[p]);
      } else {
        assert m[i].csvColumn != x.csvColumn;
        assert out[i] == rs[w0[i]];
        assert FirstBest(rs, w0[i]);
      }
    }
  }

  /** The engine: candidates per caption, then the collision pass. */
  function Suggest(columns: seq<Column>, captions: seq<string>): seq<Suggestion> {
    Dedupe(Candidates(Names(columns), captions, ScoreMatrix(columns, captions)))
  }

  /** What the engine promises: one suggestion per column at most, each for
      a listed caption and an existing column, with a confidence in
      [0.72, 1]; nothing comes out of no columns or no captions. */
  lemma SuggestSpec(columns: seq<Column>, captions: seq<string>)
    ensures UniqueColumns(Suggest(columns, captions))
    ensures forall k | 0 <= k < |Suggest(columns, captions)| ::
      && Suggest(columns, captions)[k].targetCaption in captions
      && Threshold <= Suggest(columns, captions)[k].confidence <= 1.0
      && Suggest(columns, captions)[k].csvColumn in Names(columns)
    ensures |columns| == 0 || |captions| == 0 ==> Suggest(columns, captions) == []
  {
    var rs := Candidates(Names(columns), captions, ScoreMatrix(columns, captions));
    var w := DedupeWitness(rs);
    var out := Suggest(columns, captions);
    forall k | 0 <= k < |out|
      ensures out[k].targetCaption in captions && Threshold <= out[k].confidence <= 1.0
      ensures out[k].csvColumn in Names(columns)
    {
      assert out[k] == rs[w[k]];
    }
    if |columns| == 0 && |captions| > 0 {
      NoCandidatesWithoutColumns(captions, ScoreMatrix(columns, captions));
    }
  }

  /** Every suggestion the engine returns is the winning column of one of
      the captions: the first column with the strictly highest score,
      clearing the bar. */
  lemma SuggestWinners(columns: seq<Column>, captions: seq<string>)
    ensures forall k | 0 <= k < |Suggest(columns, captions)| ::
      exists c | 0 <= c < |captions| :: Match(columns, captions[c]) == Some(Suggest(columns, captions)[k])
  {
    var names := Names(columns);
    var m := ScoreMatrix(columns, captions);
    var rs := Candidates(names, captions, m);
    var w := DedupeWitness(rs);
    var wc := CandidatesOrigin(names, captions, m);
    forall k | 0 <= k < |Suggest(columns, captions)|
      ensures exists c | 0 <= c < |captions| :: Match(columns, captions[c]) == Some(Suggest(columns, captions)[k])
    {
      var c := wc[w[k]];
      assert Match(columns, captions[c]) == Pick(names, captions[c], m[c]);
    }
  }

  lemma {:induction false} NoCandidatesWithoutColumns(captions: seq<string>, matrix: seq<seq<real>>)
    requires |matrix| == |captions|
    requires forall c | 0 <= c < |captions| :: |matrix[c]| == 0
    ensures Candidates([], captions, matrix) == []
    decreases |captions|
  {
    if |captions| > 0 {
      var n := |captions| - 1;
      NoCandidatesWithoutColumns(captions[..n], matrix[..n]);
    }
  }
}
