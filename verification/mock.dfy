/** The local suggestion service the page calls after an upload: a token
    and substring similarity between column names and captions, and a greedy
    assignment that gives each column in turn its best caption not yet
    taken. */
module Mock {
  import opened Common
  import opened Text
  import opened Normal
  import opened Domain

  // ---------------------------------------------------------------- normalising

  /** `.replace(/[^a-z0-9\s]/g, ' ')`: every character other than a lower-case
      letter, a digit or whitespace becomes a space. */
  function ReplaceSymbols(s: string): (r: string)
    ensures |r| == |s|
    ensures forall k | 0 <= k < |s| :: r[k] == if IsLowerAlnum(s[k]) || IsSpace(s[k]) then s[k] else ' '
  {
    seq(|s|, k requires 0 <= k < |s| => if IsLowerAlnum(s[k]) || IsSpace(s[k]) then s[k] else ' ')
  }

  function SkipSpaces(s: string): (r: string)
    ensures |r| <= |s|
    decreases |s|
  {
    if |s| > 0 && IsSpace(s[0]) then SkipSpaces(s[1..]) else s
  }

  /** `.replace(/\s+/g, ' ')`: every run of whitespace becomes one space. */
  function CollapseSpaces(s: string): string
    decreases |s|
  {
    if |s| == 0 then ""
    else if !IsSpace(s[0]) then [s[0]] + CollapseSpaces(s[1..])
    else " " + CollapseSpaces(SkipSpaces(s[1..]))
  }

  /** The service's `normalize`: lower-case, symbols to spaces, whitespace
      runs to one space, trim. */
  function MockNormalize(s: string): (r: string)
    ensures NormalForm(r)
  {
    CollapseReplaced(Lower(s));
    TrimCollapseNormal(Lower(s));
    Trim(CollapseSpaces(ReplaceSymbols(Lower(s))))
  }

  /** The service's normaliser is the page's without the group removal. */
  lemma MockNormalizeCollapse(s: string)
    ensures MockNormalize(s) == Trim(Collapse(Lower(s)))
  {
    CollapseReplaced(Lower(s));
  }

  lemma ReplaceTail(t: string)
    requires |t| > 0
    ensures ReplaceSymbols(t)[1..] == ReplaceSymbols(t[1..])
  {
  }

  lemma {:induction false} SkipReplaced(t: string)
    ensures SkipSpaces(ReplaceSymbols(t)) == ReplaceSymbols(SkipSeparators(t))
    decreases |t|
  {
    if |t| > 0 {
      ReplaceTail(t);
      if IsSeparator(t[0]) {
        assert IsSpace(ReplaceSymbols(t)[0]);
        SkipReplaced(t[1..]);
      }
    }
  }

  /** Replacing symbols and collapsing whitespace is the same as turning
      each run of characters outside `[a-z0-9]` into one space. */
  lemma {:induction false} CollapseReplaced(t: string)
    ensures CollapseSpaces(ReplaceSymbols(t)) == Collapse(t)
    decreases |t|
  {
    if |t| > 0 {
      ReplaceTail(t);
      if IsSeparator(t[0]) {
        assert IsSpace(ReplaceSymbols(t)[0]);
        SkipReplaced(t[1..]);
        CollapseReplaced(SkipSeparators(t[1..]));
      } else {
        CollapseReplaced(t[1..]);
      }
    }
  }

  /** Without a `(` the service and the page normalise a name alike. */
  lemma AgreesWithPage(s: string)
    requires '(' !in s
    ensures MockNormalize(s) == Normalize(s)
  {
    MockNormalizeCollapse(s);
    LowerKeepsParen(s);
  }

  /** The service's normaliser is idempotent. */
  lemma MockNormalizeIdempotent(s: string)
    ensures MockNormalize(MockNormalize(s)) == MockNormalize(s)
  {
    var m := MockNormalize(s);
    forall k | 0 <= k < |m| ensures m[k] != '(' {
      assert IsLowerAlnum(m[k]) || m[k] == ' ';
    }
    AgreesWithPage(m);
    NormalFixed(m);
  }

  lemma LowerKeepsParen(s: string)
    requires '(' !in s
    ensures StripGroups(Lower(s)) == Lower(s)
  {
    var l := Lower(s);
    forall k | 0 <= k < |l| ensures l[k] != '(' {
      assert s[k] != '(';
    }
  }

  // ---------------------------------------------------------------- tokens

  /** `normalize(text).split(' ').filter(Boolean)` */
  function Tokenize(s: string): (ts: seq<string>)
    ensures forall k | 0 <= k < |ts| :: ts[k] != "" && ' ' !in ts[k]
  {
    Words(MockNormalize(s))
  }

  /** The non-empty pieces of `t` between spaces. */
  function Words(t: string): (ws: seq<string>)
    ensures forall k | 0 <= k < |ws| :: ws[k] != "" && ' ' !in ws[k]
  {
    var parts := Split(t, ' ');
    var ws := Filter(parts, NonEmpty);
    assert forall k | 0 <= k < |ws| :: ws[k] in parts;
    ws
  }

  /** In a normal form every part after the first is non-empty. */
  lemma {:induction false} SplitLaterParts(s: string)
    requires NoDoubleSpace(s)
    requires s == [] || s[|s| - 1] != ' '
    ensures forall k | 1 <= k < |Split(s, ' ')| :: Split(s, ' ')[k] != ""
    decreases |s|
  {
    if |s| > 0 {
      var t := Split(s[1..], ' ');
      SplitLaterParts(s[1..]);
      if s[0] == ' ' {
        assert s[1] != ' ';
        assert t[0] != "";
      }
    }
  }

  /** The tokens, joined with single spaces, give back the normalised name. */
  lemma TokensJoin(s: string)
    ensures Join(Tokenize(s), ' ') == MockNormalize(s)
  {
    var n := MockNormalize(s);
    var parts := Split(n, ' ');
    if n == "" {
      assert parts == [""];
    } else {
      SplitLaterParts(n);
      assert parts[0] != "";
      FilterKeepsAll(parts, NonEmpty);
    }
  }

  // ---------------------------------------------------------------- similarity

  function TokenSet(s: string): set<string> {
    set t | t in Tokenize(s)
  }

  /** Shared tokens over all tokens; the divisor `|union| || 1` makes two
      empty token sets score 0, as `Overlap` does. */
  function SetJaccard(ta: set<string>, tb: set<string>): (r: real)
    ensures 0.0 <= r <= 1.0
    ensures ta == {} && tb == {} ==> r == 0.0
    ensures ta == tb != {} ==> r == 1.0
  {
    Overlap(ta, tb)
  }

  lemma SetJaccardSymmetric(ta: set<string>, tb: set<string>)
    ensures SetJaccard(ta, tb) == SetJaccard(tb, ta)
  {
    assert ta * tb == tb * ta && ta + tb == tb + ta;
  }

  /** `jaccardSimilarity` */
  function Jaccard(a: string, b: string): real {
    SetJaccard(TokenSet(a), TokenSet(b))
  }

  /** `stringContainmentBoost` */
  function Containment(a: string, b: string): (r: real)
    ensures r == 0.0 || r == 0.35 || r == 0.6
    ensures r == 0.6 <==> MockNormalize(a) == MockNormalize(b) != ""
    ensures r > 0.0 <==>
      && MockNormalize(a) != "" && MockNormalize(b) != ""
      && (Contains(MockNormalize(a), MockNormalize(b)) || Contains(MockNormalize(b), MockNormalize(a)))
  {
    var na := MockNormalize(a);
    var nb := MockNormalize(b);
    ContainsSelf(na);
    if na == "" || nb == "" then 0.0
    else if na == nb then 0.6
    else if Contains(na, nb) || Contains(nb, na) then 0.35
    else 0.0
  }

  /** The service's six synonym groups. */
  const SynonymGroups: seq<seq<string>> := [
    ["name", "full name", "employee name", "username"],
    ["email", "e-mail", "mail", "email address"],
    ["phone", "telephone", "mobile", "cell"],
    ["date", "timestamp", "time", "datetime"],
    ["address", "location", "site", "worksite"],
    ["id", "identifier", "uid", "code"]
  ]

  /** `new Set(group.map((g) => normalize(g)))`, kept as a sequence. */
  function NormalizeGroup(group: seq<string>): (r: seq<string>)
    ensures |r| == |group|
  {
    seq(|group|, k requires 0 <= k < |group| => MockNormalize(group[k]))
  }

  function NormalGroups(groups: seq<seq<string>>): (r: seq<seq<string>>)
    ensures |r| == |groups|
  {
    seq(|groups|, g requires 0 <= g < |groups| => NormalizeGroup(groups[g]))
  }

  /** Some normalised group member occurs in `n` as a substring. */
  predicate Mentions(n: string, group: seq<string>) {
    exists k | 0 <= k < |group| :: Contains(n, group[k])
  }

  /** The loop over the groups: 0.25 at the first group both names mention. */
  function BoostFrom(na: string, nb: string, groups: seq<seq<string>>): (r: real)
    ensures r == 0.0 || r == 0.25
    decreases |groups|
  {
    if |groups| == 0 then 0.0
    else if Mentions(na, groups[0]) && Mentions(nb, groups[0]) then 0.25
    else BoostFrom(na, nb, groups[1..])
  }

  lemma {:induction false} BoostFromIff(na: string, nb: string, groups: seq<seq<string>>)
    ensures BoostFrom(na, nb, groups) == 0.25 <==>
      exists g | 0 <= g < |groups| :: Mentions(na, groups[g]) && Mentions(nb, groups[g])
    decreases |groups|
  {
    if |groups| > 0 {
      BoostFromIff(na, nb, groups[1..]);
      assert forall g | 1 <= g < |groups| :: groups[g] == groups[1..][g - 1];
    }
  }

  /** `synonymBoost` */
  function SynonymBoost(a: string, b: string): real {
    BoostFrom(MockNormalize(a), MockNormalize(b), NormalGroups(SynonymGroups))
  }

  /** The boost is 0.25 exactly when one group is mentioned by both names. */
  lemma SynonymBoostIff(a: string, b: string)
    ensures SynonymBoost(a, b) == 0.0 || SynonymBoost(a, b) == 0.25
    ensures SynonymBoost(a, b) == 0.25 <==>
      exists g | 0 <= g < |SynonymGroups| ::
        Mentions(MockNormalize(a), NormalGroups(SynonymGroups)[g]) && Mentions(MockNormalize(b), NormalGroups(SynonymGroups)[g])
  {
    BoostFromIff(MockNormalize(a), MockNormalize(b), NormalGroups(SynonymGroups));
  }

  /** The boost does not depend on the order of the two names. */
  lemma SynonymBoostSymmetric(a: string, b: string)
    ensures SynonymBoost(a, b) == SynonymBoost(b, a)
  {
    SynonymBoostIff(a, b);
    SynonymBoostIff(b, a);
  }

  function RMin(a: real, b: real): real {
    if a < b then a else b
  }

  function RMax(a: real, b: real): real {
    if a > b then a else b
  }

  /** `scorePair`: the weighted sum of the three measures plus 0.05, capped
      at 1 (a cap the weights never reach). */
  function ScorePair(column: string, caption: string): (r: real)
    ensures 0.05 <= r <= 0.88
  {
    SynonymBoostIff(column, caption);
    RMin(1.0, Jaccard(column, caption) * 0.6 + Containment(column, caption) * 0.3 + SynonymBoost(column, caption) * 0.2 + 0.05)
  }

  /** Every measure, and so the score, is symmetric in its two names. */
  lemma ScoreSymmetric(a: string, b: string)
    ensures ScorePair(a, b) == ScorePair(b, a)
  {
    SetJaccardSymmetric(TokenSet(a), TokenSet(b));
    SynonymBoostIff(a, b);
    SynonymBoostIff(b, a);
  }

  /** A name with any word in it scores at least 0.83 against itself: full
      token overlap and exact containment. */
  lemma SameNameScore(x: string)
    requires MockNormalize(x) != ""
    ensures ScorePair(x, x) >= 0.83
  {
    TokensJoin(x);
    var ts := Tokenize(x);
    assert ts != [];
    assert ts[0] in TokenSet(x);
    SynonymBoostIff(x, x);
  }

  // ---------------------------------------------------------------- assignment

  /** The scores every assignment uses lie in [0.05, 0.88]. */
  ghost predicate InRange(score: (string, string) -> real) {
    forall a, b :: 0.05 <= score(a, b) <= 0.88
  }

  lemma ScorePairInRange()
    ensures InRange(ScorePair)
  {
    forall a, b ensures 0.05 <= ScorePair(a, b) <= 0.88 {
      var r := ScorePair(a, b);
    }
  }

  /** The scores of one column against every caption. */
  function Scores(column: string, captions: seq<string>, score: (string, string) -> real): (r: seq<real>)
    ensures |r| == |captions|
    ensures forall k | 0 <= k < |captions| :: r[k] == score(column, captions[k])
  {
    seq(|captions|, k requires 0 <= k < |captions| => score(column, captions[k]))
  }

  /** The inner loop: the first caption not yet taken with the highest
      score, starting from ("", 0) and replacing only on a strictly higher
      score. */
  function Best(captions: seq<string>, taken: set<string>, scores: seq<real>): (b: (string, real))
    requires |scores| == |captions|
    ensures b.1 >= 0.0
    ensures forall k | 0 <= k < |captions| && captions[k] !in taken :: scores[k] <= b.1
    ensures b.1 > 0.0 ==> exists i | 0 <= i < |captions| ::
      && captions[i] == b.0 && b.0 !in taken && scores[i] == b.1
      && forall j | 0 <= j < i && captions[j] !in taken :: scores[j] < b.1
    ensures b.1 == 0.0 ==> b.0 == ""
    decreases |captions|
  {
    if |captions| == 0 then ("", 0.0)
    else
      var n := |captions| - 1;
      var prev := Best(captions[..n], taken, scores[..n]);
      assert forall j | 0 <= j < n :: captions[..n][j] == captions[j] && scores[..n][j] == scores[j];
      if captions[n] in taken then prev
      else if scores[n] > prev.1 then (captions[n], scores[n])
      else prev
  }

  /** The outer loop over the columns, with the set of captions taken. */
  function BuildFrom(columns: seq<string>, captions: seq<string>, score: (string, string) -> real): (r: (seq<Suggestion>, set<string>))
    ensures |r.0| <= |columns|
    decreases |columns|
  {
    if |columns| == 0 then ([], {})
    else
      var n := |columns| - 1;
      var prev := BuildFrom(columns[..n], captions, score);
      var b := Best(captions, prev.1, Scores(columns[n], captions, score));
      if b.0 != "" then (prev.0 + [Suggestion(columns[n], b.0, RMax(0.55, RMin(0.93, b.1)))], prev.1 + {b.0})
      else prev
  }

  /** The captions a list of suggestions targets. */
  function Targets(s: seq<Suggestion>): set<string>
    decreases |s|
  {
    if |s| == 0 then {} else Targets(s[..|s| - 1]) + {s[|s| - 1].targetCaption}
  }

  lemma {:induction false} TargetsHas(s: seq<Suggestion>, c: string)
    ensures c in Targets(s) <==> exists i | 0 <= i < |s| :: s[i].targetCaption == c
    decreases |s|
  {
    if |s| > 0 {
      var n := |s| - 1;
      TargetsHas(s[..n], c);
      assert forall i | 0 <= i < n :: s[..n][i] == s[i];
    }
  }

  /** No caption is suggested twice. */
  predicate DistinctTargets(s: seq<Suggestion>) {
    forall i, j | 0 <= i < j < |s| :: s[i].targetCaption != s[j].targetCaption
  }

  /** Every suggestion pairs one of the columns with a non-empty caption,
      at a confidence in [0.55, 0.88]. */
  predicate WellFormed(s: seq<Suggestion>, columns: seq<string>, captions: seq<string>) {
    forall i | 0 <= i < |s| ::
      && s[i].targetCaption in captions && s[i].targetCaption != ""
      && s[i].csvColumn in columns
      && 0.55 <= s[i].confidence <= 0.88
  }

  /** What the outer loop keeps: the taken set is the set of suggested
      captions, one per suggestion, each caption at most once. */
  lemma {:induction false} BuildFacts(columns: seq<string>, captions: seq<string>, score: (string, string) -> real)
    requires InRange(score)
    ensures BuildFrom(columns, captions, score).1 == Targets(BuildFrom(columns, captions, score).0)
    ensures |BuildFrom(columns, captions, score).1| == |BuildFrom(columns, captions, score).0|
    ensures DistinctTargets(BuildFrom(columns, captions, score).0)
    ensures WellFormed(BuildFrom(columns, captions, score).0, columns, captions)
    decreases |columns|
  {
    if |columns| > 0 {
      var n := |columns| - 1;
      BuildFacts(columns[..n], captions, score);
      var prev := BuildFrom(columns[..n], captions, score);
      var b := Best(captions, prev.1, Scores(columns[n], captions, score));
      if b.0 != "" {
        BuildStep(prev.0, prev.1, columns, captions, score, n, b);
        assert BuildFrom(columns, captions, score) == (prev.0 + [Suggestion(columns[n], b.0, RMax(0.55, RMin(0.93, b.1)))], prev.1 + {b.0});
      } else {
        assert BuildFrom(columns, captions, score) == prev;
        assert forall i | 0 <= i < |prev.0| :: prev.0[i].csvColumn in columns by {
          forall i | 0 <= i < |prev.0| ensures prev.0[i].csvColumn in columns {
            assert prev.0[i].csvColumn in columns[..n];
          }
        }
      }
    }
  }

  /** One column of the outer loop when it finds a caption. */
  lemma BuildStep(p: seq<Suggestion>, taken: set<string>, columns: seq<string>, captions: seq<string>,
                  score: (string, string) -> real, n: nat, b: (string, real))
    requires InRange(score)
    requires n < |columns|
    requires taken == Targets(p) && |taken| == |p| && DistinctTargets(p) && WellFormed(p, columns[..n], captions)
    requires b == Best(captions, taken, Scores(columns[n], captions, score)) && b.0 != ""
    ensures var r := p + [Suggestion(columns[n], b.0, RMax(0.55, RMin(0.93, b.1)))];
      && taken + {b.0} == Targets(r) && |taken + {b.0}| == |r|
      && DistinctTargets(r) && WellFormed(r, columns, captions)
  {
    var r := p + [Suggestion(columns[n], b.0, RMax(0.55, RMin(0.93, b.1)))];
    assert r[..|p|] == p;
    assert b.0 !in taken && b.0 in captions && b.1 <= 0.88 by {
      var i :| 0 <= i < |captions| && captions[i] == b.0 && b.0 !in taken && Scores(columns[n], captions, score)[i] == b.1;
    }
    forall i | 0 <= i < |p| ensures p[i].targetCaption != b.0 && p[i].csvColumn in columns {
      TargetsHas(p, p[i].targetCaption);
      assert p[i].csvColumn in columns[..n];
    }
  }

  /** The outer loop takes the columns in order and suggests at most once
      for each: `w` gives, in increasing order, the column position of every
      suggestion. */
  lemma {:induction false} BuildPositions(columns: seq<string>, captions: seq<string>, score: (string, string) -> real) returns (w: seq<nat>)
    ensures |w| == |BuildFrom(columns, captions, score).0|
    ensures forall k | 0 <= k < |w| :: w[k] < |columns| && BuildFrom(columns, captions, score).0[k].csvColumn == columns[w[k]]
    ensures forall k, m | 0 <= k < m < |w| :: w[k] < w[m]
    decreases |columns|
  {
    if |columns| == 0 {
      w := [];
    } else {
      var n := |columns| - 1;
      var w0 := BuildPositions(columns[..n], captions, score);
      BuildFromShape(columns, captions, score);
      assert forall k | 0 <= k < |w0| :: columns[..n][w0[k]] == columns[w0[k]];
      w := ExtendPositions(columns, BuildFrom(columns[..n], captions, score).0, BuildFrom(columns, captions, score).0, w0);
    }
  }

  /** The step of `BuildPositions`: a list that either stays as it is or
      gains one suggestion for the last column keeps its positions and, in
      the second case, gains the last one. */
  lemma ExtendPositions(columns: seq<string>, prev: seq<Suggestion>, r: seq<Suggestion>, w0: seq<nat>) returns (w: seq<nat>)
    requires |columns| > 0 && |w0| == |prev|
    requires forall k | 0 <= k < |w0| :: w0[k] < |columns| - 1 && prev[k].csvColumn == columns[w0[k]]
    requires forall k, m | 0 <= k < m < |w0| :: w0[k] < w0[m]
    requires || r == prev
             || (|r| == |prev| + 1 && r[..|prev|] == prev && r[|prev|].csvColumn == columns[|columns| - 1])
    ensures |w| == |r|
    ensures forall k | 0 <= k < |w| :: w[k] < |columns| && r[k].csvColumn == columns[w[k]]
    ensures forall k, m | 0 <= k < m < |w| :: w[k] < w[m]
  {
    if r == prev {
      w := w0;
    } else {
      w := w0 + [|columns| - 1];
      assert forall k | 0 <= k < |prev| :: r[k] == prev[k];
    }
  }

  /** One column of the outer loop either adds nothing or appends one
      suggestion for that column. */
  lemma BuildFromShape(columns: seq<string>, captions: seq<string>, score: (string, string) -> real)
    requires |columns| > 0
    ensures var prev := BuildFrom(columns[..|columns| - 1], captions, score).0;
      var r := BuildFrom(columns, captions, score).0;
      || r == prev
      || (|r| == |prev| + 1 && r[..|prev|] == prev && r[|prev|].csvColumn == columns[|columns| - 1])
  {
  }

  /** `buildMockSuggestions` */
  function BuildSuggestions(columns: seq<string>, captions: seq<string>): seq<Suggestion> {
    BuildFrom(columns, captions, ScorePair).0
  }

  /** The suggestions name each caption at most once, pair a column with a
      non-empty caption, and carry a confidence in [0.55, 0.88]. */
  lemma SuggestionsWellFormed(columns: seq<string>, captions: seq<string>)
    ensures |BuildSuggestions(columns, captions)| <= |columns|
    ensures DistinctTargets(BuildSuggestions(columns, captions))
    ensures WellFormed(BuildSuggestions(columns, captions), columns, captions)
  {
    ScorePairInRange();
    BuildFacts(columns, captions, ScorePair);
  }

  /** The distinct captions. */
  function CaptionSet(captions: seq<string>): (r: set<string>)
    ensures forall c :: c in r <==> c in captions
  {
    set k | 0 <= k < |captions| :: captions[k]
  }

  lemma {:induction false} BuildCountWith(columns: seq<string>, captions: seq<string>, score: (string, string) -> real)
    requires InRange(score)
    requires forall k | 0 <= k < |captions| :: captions[k] != ""
    ensures |BuildFrom(columns, captions, score).0| == Min(|columns|, |CaptionSet(captions)|)
    decreases |columns|
  {
    var all := CaptionSet(captions);
    if |columns| > 0 {
      var n := |columns| - 1;
      BuildCountWith(columns[..n], captions, score);
      TakenWithin(columns[..n], captions, score);
      var prev := BuildFrom(columns[..n], captions, score);
      var scores := Scores(columns[n], captions, score);
      var b := Best(captions, prev.1, scores);
      var r := BuildFrom(columns, captions, score);
      assert |r.0| == if prev.1 == all then |prev.0| else |prev.0| + 1 by {
        BuildFromStep(columns, captions, score);
        ScoresPositive(columns[n], captions, score);
        BestFindsIff(captions, prev.1, scores);
      }
      CountStep(|prev.0|, |r.0|, prev.1, all, n);
    }
  }

  /** The captions taken are listed captions, one per suggestion. */
  lemma TakenWithin(columns: seq<string>, captions: seq<string>, score: (string, string) -> real)
    requires InRange(score)
    ensures BuildFrom(columns, captions, score).1 <= CaptionSet(captions)
    ensures |BuildFrom(columns, captions, score).1| == |BuildFrom(columns, captions, score).0|
  {
    var r := BuildFrom(columns, captions, score);
    BuildFacts(columns, captions, score);
    forall c | c in r.1 ensures c in captions {
      TargetsHas(r.0, c);
    }
  }

  /** One step of the outer loop: a column either adds one suggestion or
      leaves the result as it was. */
  lemma BuildFromStep(columns: seq<string>, captions: seq<string>, score: (string, string) -> real)
    requires |columns| > 0
    ensures var prev := BuildFrom(columns[..|columns| - 1], captions, score);
      var b := Best(captions, prev.1, Scores(columns[|columns| - 1], captions, score));
      && (b.0 == "" ==> BuildFrom(columns, captions, score) == prev)
      && (b.0 != "" ==> |BuildFrom(columns, captions, score).0| == |prev.0| + 1)
  {
  }

  /** Under a score in range every caption scores above 0. */
  lemma ScoresPositive(column: string, captions: seq<string>, score: (string, string) -> real)
    requires InRange(score)
    ensures forall k | 0 <= k < |captions| :: Scores(column, captions, score)[k] > 0.0
  {
  }

  /** With every score positive and no caption empty, the inner loop finds
      a caption exactly when one is left untaken. */
  lemma BestFindsIff(captions: seq<string>, taken: set<string>, scores: seq<real>)
    requires |scores| == |captions|
    requires forall k | 0 <= k < |scores| :: scores[k] > 0.0
    requires forall k | 0 <= k < |captions| :: captions[k] != ""
    requires taken <= CaptionSet(captions)
    ensures Best(captions, taken, scores).0 == "" <==> taken == CaptionSet(captions)
  {
    var all := CaptionSet(captions);
    var b := Best(captions, taken, scores);
    if taken != all {
      var c :| c in all && c !in taken;
      var k :| 0 <= k < |captions| && captions[k] == c;
      assert scores[k] <= b.1;
    } else {
      assert forall k | 0 <= k < |captions| :: captions[k] in taken;
    }
  }

  /** One column more: the count grows by one while captions are left. */
  lemma CountStep(before: nat, after: nat, taken: set<string>, all: set<string>, n: nat)
    requires before == Min(n, |all|) && |taken| == before && taken <= all
    requires taken == all ==> after == before
    requires taken != all ==> after == before + 1
    ensures after == Min(n + 1, |all|)
  {
    if taken != all {
      ProperSubsetCard(taken, all);
    }
  }

  /** With no empty caption, every column gets a caption until the distinct
      captions run out. */
  lemma BuildCount(columns: seq<string>, captions: seq<string>)
    requires forall k | 0 <= k < |captions| :: captions[k] != ""
    ensures |BuildSuggestions(columns, captions)| == Min(|columns|, |CaptionSet(captions)|)
  {
    ScorePairInRange();
    BuildCountWith(columns, captions, ScorePair);
  }

  lemma ProperSubsetCard<T>(a: set<T>, b: set<T>)
    requires a < b
    ensures |a| < |b|
  {
    var x :| x in b && x !in a;
    SubsetCard(a, b - {x});
  }

  // ---------------------------------------------------------------- responses

  datatype RequestType = InitialSuggestions | Chat

  /** The structured part of a reply: the list for an initial request, or
      the one mapping a chat message asked for. */
  datatype Reply = Reply(mappingSuggestions: Option<seq<Suggestion>>, mappingSuggestion: Option<Suggestion>)

  /** `generateMockResponse`, with the (column, caption) pair a chat message
      names passed in already extracted. */
  function Respond(kind: RequestType, columns: seq<string>, captions: seq<string>, asked: Option<(string, string)>): (r: Reply)
    ensures kind == InitialSuggestions <==> r.mappingSuggestions.Some?
    ensures kind == InitialSuggestions ==> r.mappingSuggestions == Some(BuildSuggestions(columns, captions))
    ensures r.mappingSuggestion.Some? <==>
      kind == Chat && asked.Some? && asked.value.0 in columns && asked.value.1 in captions
    ensures r.mappingSuggestion.Some? ==>
      && r.mappingSuggestion.value.csvColumn == asked.value.0
      && r.mappingSuggestion.value.targetCaption == asked.value.1
      && 0.6 <= r.mappingSuggestion.value.confidence <= 0.88
    ensures r.mappingSuggestion.Some? ==>
      var c := r.mappingSuggestion.value.confidence;
      var score := ScorePair(asked.value.0, asked.value.1);
      c >= 0.6 && c >= score && (c == 0.6 || c == score)
  {
    if kind == InitialSuggestions then Reply(Some(BuildSuggestions(columns, captions)), None)
    else if asked.Some? && asked.value.0 in columns && asked.value.1 in captions then
      var col := asked.value.0;
      var cap := asked.value.1;
      assert kind == Chat;
      Reply(None, Some(Suggestion(col, cap, RMax(0.6, ScorePair(col, cap)))))
    else Reply(None, None)
  }
}
