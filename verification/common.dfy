/** Small generic building blocks: optional values, results with an error
    branch, and order-preserving filtering of sequences. */
module Common {

  datatype Option<T> = None | Some(value: T)

  datatype Result<T, E> = Ok(value: T) | Err(error: E)

  /** The elements of `s` that satisfy `p`, in their original order
      (`Array.prototype.filter`). */
  function Filter<T>(s: seq<T>, p: T -> bool): (r: seq<T>)
    ensures |r| <= |s|
    ensures forall k | 0 <= k < |r| :: p(r[k])
    ensures forall x | x in r :: x in s
    ensures forall x | x in s && p(x) :: x in r
    decreases |s|
  {
    if |s| == 0 then []
    else (if p(s[0]) then [s[0]] else []) + Filter(s[1..], p)
  }

  lemma {:induction false} FilterConcat<T>(a: seq<T>, b: seq<T>, p: T -> bool)
    ensures Filter(a + b, p) == Filter(a, p) + Filter(b, p)
    decreases |a|
  {
    if |a| > 0 {
      assert (a + b)[1..] == a[1..] + b;
      FilterConcat(a[1..], b, p);
    } else {
      assert a + b == b;
    }
  }

  /** Filtering a sequence that starts with `x` keeps `x` exactly when it
      passes the test. */
  lemma FilterCons<T>(x: T, t: seq<T>, p: T -> bool)
    ensures Filter([x] + t, p) == (if p(x) then [x] else []) + Filter(t, p)
  {
    assert ([x] + t)[1..] == t;
  }

  /** A first element that fails the test is dropped. */
  lemma FilterDropHead<T>(s: seq<T>, p: T -> bool)
    requires |s| > 0 && !p(s[0])
    ensures Filter(s, p) == Filter(s[1..], p)
  {
    assert Filter(s, p) == [] + Filter(s[1..], p);
  }

  /** A first element that passes the test is kept in front. */
  lemma FilterKeepHead<T>(s: seq<T>, p: T -> bool)
    requires |s| > 0 && p(s[0])
    ensures Filter(s, p) == [s[0]] + Filter(s[1..], p)
    ensures Filter(s[1..], p) == s[1..] ==> Filter(s, p) == s
  {
    assert [s[0]] + s[1..] == s;
  }

  lemma FilterEmpty<T>(s: seq<T>, p: T -> bool)
    ensures Filter(s, p) == [] <==> forall k | 0 <= k < |s| :: !p(s[k])
  {
    if Filter(s, p) != [] {
      var x := Filter(s, p)[0];
      var k :| 0 <= k < |s| && s[k] == x;
    }
  }

  /** Splitting a sequence by a predicate and its negation loses and invents nothing. */
  lemma {:induction false} FilterSplitsMultiset<T>(s: seq<T>, p: T -> bool, q: T -> bool)
    requires forall x :: q(x) == !p(x)
    ensures multiset(Filter(s, p)) + multiset(Filter(s, q)) == multiset(s)
    decreases |s|
  {
    if |s| > 0 {
      var t := s[1..];
      FilterSplitsMultiset(t, p, q);
      assert s == [s[0]] + t;
      assert q(s[0]) == !p(s[0]);
      assert multiset(s) == multiset{s[0]} + multiset(t);
    }
  }

  /** Filtering by a predicate every element satisfies changes nothing. */
  lemma {:induction false} FilterKeepsAll<T>(s: seq<T>, p: T -> bool)
    requires forall k | 0 <= k < |s| :: p(s[k])
    ensures Filter(s, p) == s
    decreases |s|
  {
    if |s| > 0 {
      FilterKeepsAll(s[1..], p);
      FilterKeepHead(s, p);
    }
  }

  /** The positions of `s` whose element satisfies `p`, in increasing order. */
  function Positions<T>(s: seq<T>, p: T -> bool): (r: seq<nat>)
    ensures forall k | 0 <= k < |r| :: r[k] < |s| && p(s[r[k]])
    ensures forall k, m | 0 <= k < m < |r| :: r[k] < r[m]
    ensures forall j | 0 <= j < |s| && p(s[j]) :: j in r
    decreases |s|
  {
    if |s| == 0 then []
    else
      var n := |s| - 1;
      assert forall j | 0 <= j < n :: s[..n][j] == s[j];
      Positions(s[..n], p) + (if p(s[n]) then [n] else [])
  }

  /** Filtering keeps order and multiplicity: the `k`-th kept element is the
      element at the `k`-th position whose element satisfies `p`. */
  lemma {:induction false} FilterInOrder<T>(s: seq<T>, p: T -> bool)
    ensures |Filter(s, p)| == |Positions(s, p)|
    ensures forall k | 0 <= k < |Filter(s, p)| :: Filter(s, p)[k] == s[Positions(s, p)[k]]
    decreases |s|
  {
    if |s| > 0 {
      var n := |s| - 1;
      var pre := s[..n];
      FilterInOrder(pre, p);
      FilterSnoc(pre, s[n], p);
      assert s == pre + [s[n]];
      PicksSnoc(Filter(pre, p), Positions(pre, p), pre, s[n], p(s[n]));
    }
  }

  /** Filtering a sequence that ends with `x` keeps `x` last exactly when it
      passes the test. */
  lemma FilterSnoc<T>(s: seq<T>, x: T, p: T -> bool)
    ensures Filter(s + [x], p) == Filter(s, p) + (if p(x) then [x] else [])
  {
    FilterConcat(s, [x], p);
    assert Filter([x], p) == (if p(x) then [x] else []) + Filter([], p);
  }

  /** Picking from `pre` by positions `ps`, then from `pre + [x]` with `x`
      picked or not at position `|pre|`, gives the old picks followed by
      `x` when it is picked. */
  lemma PicksSnoc<T>(f: seq<T>, ps: seq<nat>, pre: seq<T>, x: T, keep: bool)
    requires |f| == |ps|
    requires forall k | 0 <= k < |f| :: ps[k] < |pre| && f[k] == pre[ps[k]]
    ensures var f' := f + (if keep then [x] else []);
      var ps' := ps + (if keep then [|pre|] else []);
      |f'| == |ps'| && forall k | 0 <= k < |f'| :: f'[k] == (pre + [x])[ps'[k]]
  {
  }

  /** The values of the `Some` entries, in order. */
  function Somes<T>(os: seq<Option<T>>): seq<T>
    decreases |os|
  {
    if |os| == 0 then []
    else
      var n := |os| - 1;
      Somes(os[..n]) + (if os[n].Some? then [os[n].value] else [])
  }

  /** Where each value comes from: `w` lists, in increasing order, exactly
      the positions holding a `Some`, and the `k`-th value is the one at
      position `w[k]`. */
  lemma {:induction false} SomesOrigin<T>(os: seq<Option<T>>) returns (w: seq<nat>)
    ensures |w| == |Somes(os)|
    ensures forall k | 0 <= k < |w| :: w[k] < |os| && os[w[k]] == Some(Somes(os)[k])
    ensures forall k, m | 0 <= k < m < |w| :: w[k] < w[m]
    ensures forall c | 0 <= c < |os| && os[c].Some? :: c in w
    decreases |os|
  {
    if |os| == 0 {
      w := [];
    } else {
      var n := |os| - 1;
      var pre := os[..n];
      var w0 := SomesOrigin(pre);
      assert forall c | 0 <= c < n :: pre[c] == os[c];
      w := OriginSnoc(os, Somes(pre), w0);
    }
  }

  /** The step of `SomesOrigin`: positions for all but the last entry,
      extended by the last one when it holds a value. */
  lemma OriginSnoc<T>(os: seq<Option<T>>, vs: seq<T>, w0: seq<nat>) returns (w: seq<nat>)
    requires |os| > 0 && |w0| == |vs|
    requires forall k | 0 <= k < |w0| :: w0[k] < |os| - 1 && os[w0[k]] == Some(vs[k])
    requires forall k, m | 0 <= k < m < |w0| :: w0[k] < w0[m]
    requires forall c | 0 <= c < |os| - 1 && os[c].Some? :: c in w0
    ensures var last := os[|os| - 1];
      var vs' := vs + (if last.Some? then [last.value] else []);
      && |w| == |vs'|
      && (forall k | 0 <= k < |w| :: w[k] < |os| && os[w[k]] == Some(vs'[k]))
      && (forall k, m | 0 <= k < m < |w| :: w[k] < w[m])
      && (forall c | 0 <= c < |os| && os[c].Some? :: c in w)
  {
    w := w0 + (if os[|os| - 1].Some? then [|os| - 1] else []);
  }

  /** `Array.prototype.some`: the scan from the front meets an element that
      satisfies `p`. */
  predicate Any<T>(s: seq<T>, p: T -> bool)
    decreases |s|
  {
    |s| > 0 && (p(s[0]) || Any(s[1..], p))
  }

  lemma {:induction false} AnyIff<T>(s: seq<T>, p: T -> bool)
    ensures Any(s, p) <==> exists k | 0 <= k < |s| :: p(s[k])
    decreases |s|
  {
    if |s| > 0 {
      var t := s[1..];
      AnyIff(t, p);
      if Any(t, p) {
        var k :| 0 <= k < |t| && p(t[k]);
        assert s[k + 1] == t[k];
      } else {
        assert forall k | 1 <= k < |s| :: s[k] == t[k - 1];
      }
    }
  }

  /** Number of elements of `s` that satisfy `p`. */
  function Count<T>(s: seq<T>, p: T -> bool): (n: nat)
    ensures n <= |s|
    ensures n == |Filter(s, p)|
    decreases |s|
  {
    if |s| == 0 then 0 else (if p(s[0]) then 1 else 0) + Count(s[1..], p)
  }

  /** Counting by a stronger predicate gives no more, and exactly as many
      only when the two predicates agree on every element of `s`. */
  lemma {:induction false} CountStronger<T>(s: seq<T>, p: T -> bool, q: T -> bool)
    requires forall x :: q(x) ==> p(x)
    ensures Count(s, q) <= Count(s, p)
    ensures Count(s, q) == Count(s, p) <==> forall k | 0 <= k < |s| :: p(s[k]) ==> q(s[k])
    decreases |s|
  {
    if |s| > 0 {
      CountStronger(s[1..], p, q);
      assert forall k | 1 <= k < |s| :: s[k] == s[1..][k - 1];
    }
  }

  /** Some element satisfies `p` exactly when the count is positive. */
  lemma {:induction false} CountPositive<T>(s: seq<T>, p: T -> bool)
    ensures Count(s, p) > 0 <==> exists k | 0 <= k < |s| :: p(s[k])
    decreases |s|
  {
    if |s| > 0 {
      CountPositive(s[1..], p);
      assert forall k | 1 <= k < |s| :: s[k] == s[1..][k - 1];
    }
  }

  /** The first `n` elements of `s`, or all of them when there are fewer
      (`Array.prototype.slice(0, n)`). */
  function Take<T>(s: seq<T>, n: nat): (r: seq<T>)
    ensures |r| == if |s| < n then |s| else n
    ensures r == s[..|r|]
  {
    if |s| < n then s else s[..n]
  }

  function Min(a: int, b: int): int { if a < b then a else b }

  /** A subset is no larger than its superset. */
  lemma {:induction false} SubsetCard<T>(a: set<T>, b: set<T>)
    requires a <= b
    ensures |a| <= |b|
    decreases |a|
  {
    if a != {} {
      var x :| x in a;
      SubsetCard(a - {x}, b - {x});
    }
  }

  /** Shared elements over all elements (the Jaccard index of two sets),
      with two empty sets counted as sharing nothing. */
  function Overlap<T>(a: set<T>, b: set<T>): (r: real)
    ensures 0.0 <= r <= 1.0
    ensures a == {} && b == {} ==> r == 0.0
    ensures a == b != {} ==> r == 1.0
  {
    var u := a + b;
    SubsetCard(a * b, u);
    assert a == b ==> a * b == u;
    if u == {} then 0.0 else Ratio(|a * b|, |u|)
  }

  /** `n / d` as a real, for a part `n` of a positive whole `d`. */
  function Ratio(n: nat, d: nat): (r: real)
    requires 0 < d && n <= d
    ensures 0.0 <= r <= 1.0
    ensures n == d ==> r == 1.0
  {
    (n as real) / (d as real)
  }
}
