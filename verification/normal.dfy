/** The name normaliser of the import page's matcher: lower-case, drop
    parenthesised groups, turn every run of characters outside `[a-z0-9]`
    into one space, trim. Both the scorer and the certainty test use it. */
module Normal {
  import opened Common
  import opened Text

  /** No `(` is followed, anywhere later, by a `)`. */
  predicate NoGroup(s: string) {
    forall i, j | 0 <= i < j < |s| :: !(s[i] == '(' && s[j] == ')')
  }

  function FirstIndex(s: string, c: char): (i: nat)
    requires c in s
    ensures i < |s| && s[i] == c && c !in s[..i]
    decreases |s|
  {
    if s[0] == c then 0
    else
      assert c in s[1..] by {
        var k :| 0 <= k < |s| && s[k] == c;
        assert s[1..][k - 1] == c;
      }
      var j := FirstIndex(s[1..], c);
      assert s[..j + 1] == [s[0]] + s[1..][..j];
      j + 1
  }

  /** `.replace(/\([^)]*\)/g, ' ')`: each `(` that has a `)` after it, up to
      the first such `)`, becomes one space; an unmatched `(` stays. */
  function StripGroups(s: string): (r: string)
    ensures NoGroup(r)
    ensures forall c | c in r :: c in s || c == ' '
    ensures '(' !in s ==> r == s
    ensures ')' !in s ==> r == s
    decreases |s|
  {
    if |s| == 0 then ""
    else if s[0] == '(' && ')' in s then
      var q := FirstIndex(s, ')');
      var rest := StripGroups(s[q + 1..]);
      assert forall c | c in rest :: c in s || c == ' ';
      " " + rest
    else
      var rest := StripGroups(s[1..]);
      assert forall c | c in rest :: c in s || c == ' ';
      assert s[0] == '(' ==> ')' !in rest;
      [s[0]] + rest
  }

  /** Text before the first `(` is kept as it is. */
  lemma {:induction false} StripKeepsPlain(a: string, b: string)
    requires '(' !in a
    ensures StripGroups(a + b) == a + StripGroups(b)
    decreases |a|
  {
    if |a| == 0 {
      assert a + b == b;
    } else {
      var s := a + b;
      assert s[0] == a[0] != '(';
      assert s[1..] == a[1..] + b;
      assert StripGroups(s) == [s[0]] + StripGroups(s[1..]);
      StripKeepsPlain(a[1..], b);
      ConsConcat(a, StripGroups(b));
    }
  }

  lemma ConsConcat(a: string, v: string)
    requires |a| > 0
    ensures [a[0]] + (a[1..] + v) == a + v
  {
    assert a == [a[0]] + a[1..];
  }

  /** A `(`, any text without `)`, and the `)` that closes it become one
      space; the scan carries on after the `)`. */
  lemma StripReplacesGroup(g: string, t: string)
    requires ')' !in g
    ensures StripGroups("(" + g + ")" + t) == " " + StripGroups(t)
  {
    var s := "(" + g + ")" + t;
    var n := |g| + 1;
    assert s[n] == ')';
    var q := FirstIndex(s, ')');
    assert forall k | 1 <= k < n :: s[k] == g[k - 1];
    assert q == n;
    assert s[q + 1..] == t;
  }

  predicate IsSeparator(c: char) {
    !IsLowerAlnum(c)
  }

  predicate NoDoubleSpace(s: string) {
    forall k | 0 <= k < |s| - 1 :: !(s[k] == ' ' && s[k + 1] == ' ')
  }

  /** Output alphabet of the normaliser: `[a-z0-9 ]`. */
  predicate NormalChars(s: string) {
    forall k | 0 <= k < |s| :: IsLowerAlnum(s[k]) || s[k] == ' '
  }

  /** Only `[a-z0-9 ]`, single-spaced, no space at either end. */
  predicate NormalForm(s: string) {
    NormalChars(s) && NoDoubleSpace(s) && (s == [] || (s[0] != ' ' && s[|s| - 1] != ' '))
  }

  function SkipSeparators(s: string): (r: string)
    ensures |r| <= |s| && r == s[|s| - |r|..]
    ensures r == [] || !IsSeparator(r[0])
    decreases |s|
  {
    if |s| > 0 && IsSeparator(s[0]) then SkipSeparators(s[1..]) else s
  }

  /** `.replace(/[^a-z0-9]+/g, ' ')`: each maximal run of separators becomes
      one space. (The page's following `\s+` replacement has nothing left to
      collapse.) */
  function Collapse(s: string): (r: string)
    ensures NormalChars(r) && NoDoubleSpace(r)
    ensures r == [] <==> s == []
    ensures r != [] ==> (r[0] == ' ' <==> IsSeparator(s[0]))
    decreases |s|
  {
    if |s| == 0 then ""
    else if !IsSeparator(s[0]) then [s[0]] + Collapse(s[1..])
    else " " + Collapse(SkipSeparators(s[1..]))
  }

  /** Skipping separators drops no letter or digit. */
  lemma {:induction false} SkipKeepsAlnum(s: string)
    ensures Filter(SkipSeparators(s), IsLowerAlnum) == Filter(s, IsLowerAlnum)
    decreases |s|
  {
    if |s| > 0 && IsSeparator(s[0]) {
      SkipKeepsAlnum(s[1..]);
      FilterDropHead(s, IsLowerAlnum);
    }
  }

  /** Collapsing only replaces separators: the letters and digits are
      those of the input, in the same order. */
  lemma {:induction false} CollapseKeepsAlnum(s: string)
    ensures Filter(Collapse(s), IsLowerAlnum) == Filter(s, IsLowerAlnum)
    decreases |s|
  {
    if |s| > 0 {
      FilterCons(s[0], s[1..], IsLowerAlnum);
      assert [s[0]] + s[1..] == s;
      if !IsSeparator(s[0]) {
        CollapseKeepsAlnum(s[1..]);
        FilterCons(s[0], Collapse(s[1..]), IsLowerAlnum);
      } else {
        var t := SkipSeparators(s[1..]);
        CollapseKeepsAlnum(t);
        SkipKeepsAlnum(s[1..]);
        FilterCons(' ', Collapse(t), IsLowerAlnum);
      }
    }
  }

  /** Text without separators is left as it is. */
  lemma {:induction false} CollapsePlain(x: string)
    requires forall k | 0 <= k < |x| :: !IsSeparator(x[k])
    ensures Collapse(x) == x
    decreases |x|
  {
    if |x| > 0 {
      CollapsePlain(x[1..]);
    }
  }

  /** A run of separators followed by text that does not start with one is
      skipped whole. */
  lemma {:induction false} SkipRun(sep: string, y: string)
    requires forall k | 0 <= k < |sep| :: IsSeparator(sep[k])
    requires y == [] || !IsSeparator(y[0])
    ensures SkipSeparators(sep + y) == y
    decreases |sep|
  {
    if |sep| == 0 {
      assert sep + y == y;
    } else {
      assert (sep + y)[0] == sep[0];
      assert (sep + y)[1..] == sep[1..] + y;
      SkipRun(sep[1..], y);
    }
  }

  /** Skipping stops inside `a`, short of its end, when `a` ends in a
      letter or digit. */
  lemma {:induction false} SkipWithin(a: string, b: string)
    requires |a| > 0 && !IsSeparator(a[|a| - 1])
    ensures SkipSeparators(a + b) == SkipSeparators(a) + b
    ensures |SkipSeparators(a)| > 0 && SkipSeparators(a)[|SkipSeparators(a)| - 1] == a[|a| - 1]
    decreases |a|
  {
    assert (a + b)[0] == a[0];
    if IsSeparator(a[0]) {
      assert (a + b)[1..] == a[1..] + b;
      SkipWithin(a[1..], b);
    }
  }

  /** A non-empty run of separators becomes exactly one space, and the text
      after it is collapsed on its own. */
  lemma CollapseRun(sep: string, y: string)
    requires |sep| > 0 && forall k | 0 <= k < |sep| :: IsSeparator(sep[k])
    requires y == [] || !IsSeparator(y[0])
    ensures Collapse(sep + y) == " " + Collapse(y)
  {
    assert (sep + y)[0] == sep[0];
    assert (sep + y)[1..] == sep[1..] + y;
    SkipRun(sep[1..], y);
  }

  /** Collapsing splits at a letter or digit: a prefix that is empty or ends
      in one collapses independently of what follows. */
  lemma {:induction false} CollapseConcat(x: string, y: string)
    requires x == [] || !IsSeparator(x[|x| - 1])
    ensures Collapse(x + y) == Collapse(x) + Collapse(y)
    decreases |x|
  {
    if |x| == 0 {
      assert x + y == y;
    } else if !IsSeparator(x[0]) {
      TailKeepsLast(x);
      CollapseConcat(x[1..], y);
      CollapseKeepStep(x, y, Collapse(x[1..]), Collapse(y));
    } else {
      var t := SkipSeparators(x[1..]);
      SkipWithin(x[1..], y);
      CollapseConcat(t, y);
      CollapseSkipStep(x, y, t, Collapse(y));
    }
  }

  /** One step of `CollapseConcat` at a letter or digit. */
  lemma CollapseKeepStep(x: string, y: string, cx: string, cy: string)
    requires |x| > 0 && !IsSeparator(x[0])
    requires Collapse(x[1..] + y) == cx + cy && Collapse(x[1..]) == cx
    ensures Collapse(x + y) == Collapse(x) + cy
  {
    var xy := x + y;
    TailConcat(x, y);
    assert Collapse(xy) == [x[0]] + (cx + cy);
    assert Collapse(x) == [x[0]] + cx;
    SeqAssoc3([x[0]], cx, cy);
  }

  lemma TailKeepsLast(x: string)
    requires |x| > 0
    ensures x[1..] == [] || x[1..][|x[1..]| - 1] == x[|x| - 1]
  {
  }

  lemma TailConcat(x: string, y: string)
    requires |x| > 0
    ensures (x + y)[0] == x[0] && (x + y)[1..] == x[1..] + y
  {
  }

  lemma SeqAssoc3(a: string, b: string, c: string)
    ensures a + (b + c) == (a + b) + c
  {
  }

  /** One step of `CollapseConcat` at a separator. */
  lemma CollapseSkipStep(x: string, y: string, t: string, cy: string)
    requires |x| > 0 && IsSeparator(x[0])
    requires t == SkipSeparators(x[1..]) && SkipSeparators(x[1..] + y) == t + y
    requires Collapse(t + y) == Collapse(t) + cy
    ensures Collapse(x + y) == Collapse(x) + cy
  {
    var xy := x + y;
    TailConcat(x, y);
    var rest := SkipSeparators(xy[1..]);
    assert Collapse(xy) == " " + Collapse(rest);
    assert rest == t + y;
    assert Collapse(x) == " " + Collapse(t);
    SeqAssoc3(" ", Collapse(t), cy);
  }

  /** Trimming a collapsed string leaves a normal form. */
  lemma TrimCollapseNormal(s: string)
    ensures NormalForm(Trim(Collapse(s)))
  {
    TrimNormal(Collapse(s));
  }

  /** Trimming a single-spaced string over `[a-z0-9 ]` leaves a normal form. */
  lemma TrimNormal(c: string)
    requires NormalChars(c) && NoDoubleSpace(c)
    ensures NormalForm(Trim(c))
  {
    TrimSlice(c);
    var i := TrimOffset(c);
    SliceNormal(c, i, i + |Trim(c)|);
    assert IsTrimmed(Trim(c));
  }

  /** A piece of a single-spaced string over `[a-z0-9 ]` is one too. */
  lemma SliceNormal(c: string, i: nat, j: nat)
    requires i <= j <= |c|
    requires NormalChars(c) && NoDoubleSpace(c)
    ensures NormalChars(c[i..j]) && NoDoubleSpace(c[i..j])
  {
    var r := c[i..j];
    assert forall k | 0 <= k < |r| :: r[k] == c[i + k];
  }

  /** The page's `normalize`. */
  function Normalize(s: string): (r: string)
    ensures NormalForm(r)
  {
    TrimCollapseNormal(StripGroups(Lower(s)));
    Trim(Collapse(StripGroups(Lower(s))))
  }

  lemma {:induction false} CollapseNormal(s: string)
    requires NormalChars(s) && NoDoubleSpace(s)
    ensures Collapse(s) == s
    decreases |s|
  {
    if |s| > 0 {
      if !IsSeparator(s[0]) {
        CollapseNormal(s[1..]);
      } else {
        assert s[0] == ' ';
        assert SkipSeparators(s[1..]) == s[1..];
        CollapseNormal(s[1..]);
      }
    }
  }

  /** Normalising a normal form changes nothing. */
  lemma NormalFixed(s: string)
    requires NormalForm(s)
    ensures Normalize(s) == s
  {
    assert forall k | 0 <= k < |s| :: LowerChar(s[k]) == s[k];
    assert Lower(s) == s;
    assert '(' !in s by {
      forall k | 0 <= k < |s| ensures s[k] != '(' {
        assert IsLowerAlnum(s[k]) || s[k] == ' ';
      }
    }
    assert StripGroups(s) == s;
    CollapseNormal(s);
    assert IsTrimmed(s);
  }

  /** The normaliser is idempotent. */
  lemma NormalizeIdempotent(s: string)
    ensures Normalize(Normalize(s)) == Normalize(s)
  {
    NormalFixed(Normalize(s));
  }

  /** Case does not matter to the normaliser. */
  lemma NormalizeIgnoresCase(s: string)
    ensures Normalize(Lower(s)) == Normalize(s)
  {
    LowerIdempotent(s);
  }
}
