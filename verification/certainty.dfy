/** What happens to the suggestions after an upload: the provider's list is
    extended with the local engine's, and each suggestion is classified as
    certain (applied and confirmed at once) or uncertain (shown for the user
    to confirm). */
module Certainty {
  import opened Common
  import opened Text
  import opened Normal
  import opened Domain
  import Synonyms

  /** The certainty test looks the caption up in the synonym table and uses
      no synonyms when it has no entry. */
  function CertaintySynonyms(caption: string): seq<string> {
    match Synonyms.Lookup(caption)
    case Some(l) => l
    case None => []
  }

  /** `syns.some((s) => normalize(s) === n)` */
  predicate AnyNormalizesTo(syns: seq<string>, n: string) {
    Any(syns, NormalizesTo(n))
  }

  function NormalizesTo(n: string): string -> bool {
    (s: string) => Normalize(s) == n
  }

  /** Confidence from which a suggestion counts as certain on its own. */
  const StrongConfidence: real := 0.97

  /** `isCertain`: never when either name normalises to nothing; always
      when the normalised names agree or the column is a synonym of the
      caption; otherwise only with a confidence of at least 0.97. */
  function IsCertain(colName: string, caption: string, confidence: real): bool {
    var nCol := Normalize(colName);
    var nCap := Normalize(caption);
    if nCol == "" || nCap == "" then false
    else if nCol == nCap then true
    else if AnyNormalizesTo(CertaintySynonyms(caption), nCol) then true
    else confidence >= StrongConfidence
  }

  predicate CertainSuggestion(s: Suggestion) {
    IsCertain(s.csvColumn, s.targetCaption, s.confidence)
  }

  predicate UncertainSuggestion(s: Suggestion) {
    !CertainSuggestion(s)
  }

  lemma AnyNormalizesToIff(syns: seq<string>, n: string)
    ensures AnyNormalizesTo(syns, n) <==> exists k | 0 <= k < |syns| :: Normalize(syns[k]) == n
  {
    AnyIff(syns, NormalizesTo(n));
  }

  /** Both directions of the classification, in terms of the normalised
      names, the synonym table and the confidence. */
  lemma IsCertainIff(colName: string, caption: string, confidence: real)
    ensures IsCertain(colName, caption, confidence) <==>
      && Normalize(colName) != ""
      && Normalize(caption) != ""
      && (|| Normalize(colName) == Normalize(caption)
          || (exists k | 0 <= k < |CertaintySynonyms(caption)| :: Normalize(CertaintySynonyms(caption)[k]) == Normalize(colName))
          || confidence >= StrongConfidence)
  {
    AnyNormalizesToIff(CertaintySynonyms(caption), Normalize(colName));
  }

  /** Raising the confidence never makes a certain suggestion uncertain. */
  lemma IsCertainMonotone(colName: string, caption: string, c1: real, c2: real)
    requires c1 <= c2
    requires IsCertain(colName, caption, c1)
    ensures IsCertain(colName, caption, c2)
  {
  }

  /** Below 0.97, a suggestion is certain only through its names. */
  lemma WeakNeedsNames(colName: string, caption: string, c1: real, c2: real)
    requires c1 < StrongConfidence && c2 < StrongConfidence
    ensures IsCertain(colName, caption, c1) == IsCertain(colName, caption, c2)
  {
  }

  /** An ASCII letter or digit at the front survives normalisation. */
  lemma NormalizeKeepsLeadingAlnum(s: string)
    requires |s| > 0 && IsAlnum(s[0])
    ensures Normalize(s) != ""
  {
    var l := Lower(s);
    assert IsLowerAlnum(l[0]);
    var g := StripGroups(l);
    assert g[0] == l[0];
    var c := Collapse(g);
    assert c[0] == l[0];
    assert !IsSpace(c[0]);
  }

  lemma ForenameSynonyms()
    ensures |CertaintySynonyms("Forename(s)")| > 2 && CertaintySynonyms("Forename(s)")[2] == "first name"
  {
    assert CertaintySynonyms("Forename(s)") == ["forename", "forenames", "first name", "firstname", "given name", "givenname", "given"];
  }

  lemma EmailSynonyms()
    ensures |CertaintySynonyms("Email")| > 2 && CertaintySynonyms("Email")[2] == "email address"
  {
    assert CertaintySynonyms("Email") == ["email", "e-mail", "email address", "mail"];
  }

  lemma LowerFirstName()
    ensures Lower("First Name") == "first name"
  {
  }

  lemma LowerEmailAddress()
    ensures Lower("Email Address") == "email address"
  {
  }

  /** A column headed "First Name" is certain for the Forename(s) caption
      at any confidence: "first name" is one of its synonyms. */
  lemma FirstNameCertainForForename(confidence: real)
    ensures IsCertain("First Name", "Forename(s)", confidence)
  {
    NormalizeKeepsLeadingAlnum("First Name");
    NormalizeKeepsLeadingAlnum("Forename(s)");
    LowerFirstName();
    NormalizeIgnoresCase("First Name");
    ForenameSynonyms();
    IsCertainIff("First Name", "Forename(s)", confidence);
  }

  /** A column headed "Email Address" is certain for the Email caption at
      any confidence: "email address" is one of its synonyms. */
  lemma EmailAddressCertainForEmail(confidence: real)
    ensures IsCertain("Email Address", "Email", confidence)
  {
    NormalizeKeepsLeadingAlnum("Email Address");
    NormalizeKeepsLeadingAlnum("Email");
    LowerEmailAddress();
    NormalizeIgnoresCase("Email Address");
    EmailSynonyms();
    IsCertainIff("Email Address", "Email", confidence);
  }

  // ---------------------------------------------------------------- partition

  /** The loop that sorts the suggestions into the certain and the
      uncertain list, each in the original order. */
  function Partition(ss: seq<Suggestion>): (r: (seq<Suggestion>, seq<Suggestion>))
    ensures r.0 == Filter(ss, CertainSuggestion)
    ensures r.1 == Filter(ss, UncertainSuggestion)
    decreases |ss|
  {
    if |ss| == 0 then ([], [])
    else
      var rest := Partition(ss[1..]);
      if CertainSuggestion(ss[0]) then ([ss[0]] + rest.0, rest.1) else (rest.0, [ss[0]] + rest.1)
  }

  /** The two lists together are exactly the merged suggestions. */
  lemma PartitionIsSplit(ss: seq<Suggestion>)
    ensures multiset(Partition(ss).0) + multiset(Partition(ss).1) == multiset(ss)
    ensures forall s | s in Partition(ss).0 :: CertainSuggestion(s)
    ensures forall s | s in Partition(ss).1 :: !CertainSuggestion(s)
  {
    FilterSplitsMultiset(ss, CertainSuggestion, UncertainSuggestion);
  }

  // ---------------------------------------------------------------- merge

  /** `${csvColumn}::${targetCaption}` */
  function MergeKey(s: Suggestion): string {
    s.csvColumn + "::" + s.targetCaption
  }

  function KeySet(ss: seq<Suggestion>): set<string> {
    set s | s in ss :: MergeKey(s)
  }

  /** A suggestion whose key is not among those already given. */
  function Unseen(already: set<string>): Suggestion -> bool {
    s => MergeKey(s) !in already
  }

  /** The local suggestions whose key the provider did not already give:
      the loop pushing each one in turn, the set of keys fixed beforehand. */
  function Fresh(already: set<string>, hs: seq<Suggestion>): (r: seq<Suggestion>)
    ensures forall s | s in r :: s in hs && MergeKey(s) !in already
    ensures forall h | h in hs && MergeKey(h) !in already :: h in r
    ensures |r| <= |hs|
  {
    Filter(hs, Unseen(already))
  }

  /** The kept local suggestions keep their order and multiplicity: the
      `k`-th is the `k`-th local suggestion whose key is not already given. */
  lemma FreshInOrder(already: set<string>, hs: seq<Suggestion>)
    ensures |Fresh(already, hs)| == |Positions(hs, Unseen(already))|
    ensures forall k | 0 <= k < |Fresh(already, hs)| :: Fresh(already, hs)[k] == hs[Positions(hs, Unseen(already))[k]]
  {
    FilterInOrder(hs, Unseen(already));
  }

  /** The provider's list, followed by every local suggestion whose
      (column, caption) key the provider did not give, in local order. */
  function Merge(provider: seq<Suggestion>, local: seq<Suggestion>): (r: seq<Suggestion>)
    ensures |provider| <= |r| && r[..|provider|] == provider
    ensures forall s | s in r[|provider|..] :: s in local && MergeKey(s) !in KeySet(provider)
    ensures forall h | h in local && MergeKey(h) !in KeySet(provider) :: h in r
    ensures r[|provider|..] == Filter(local, Unseen(KeySet(provider)))
  {
    var r := provider + Fresh(KeySet(provider), local);
    assert r[|provider|..] == Fresh(KeySet(provider), local);
    r
  }

  /** The key joins the two names with "::", so different pairs can share
      a key and a local suggestion can be dropped for a pair the provider
      never made. */
  lemma MergeKeyAmbiguous(c1: real, c2: real)
    ensures MergeKey(Suggestion("a::b", "c", c1)) == MergeKey(Suggestion("a", "b::c", c2))
  {
  }
}
