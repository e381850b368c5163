/** Display order of the mapping table: the stable sort by the `order`
    field that both the validation pass and the export apply to the slots
    they keep. */
module Ordering {
  import opened Common
  import opened Domain

  predicate SortedByOrder(s: seq<MappingRow>) {
    forall i, j | 0 <= i < j < |s| :: s[i].order <= s[j].order
  }

  /** `x` placed before the first slot whose order is not smaller, so that
      it stays ahead of the slots with its own order. */
  function Insert(x: MappingRow, s: seq<MappingRow>): (r: seq<MappingRow>)
    ensures |r| == |s| + 1
    ensures multiset(r) == multiset(s) + multiset{x}
    decreases |s|
  {
    if |s| == 0 || x.order <= s[0].order then [x] + s
    else
      assert s == [s[0]] + s[1..];
      [s[0]] + Insert(x, s[1..])
  }

  lemma {:induction false} InsertLowerBound(x: MappingRow, s: seq<MappingRow>, b: int)
    requires b <= x.order
    requires forall k | 0 <= k < |s| :: b <= s[k].order
    ensures forall j | 0 <= j < |Insert(x, s)| :: b <= Insert(x, s)[j].order
    decreases |s|
  {
    if |s| > 0 && x.order > s[0].order {
      InsertLowerBound(x, s[1..], b);
    }
  }

  lemma {:induction false} InsertSorted(x: MappingRow, s: seq<MappingRow>)
    requires SortedByOrder(s)
    ensures SortedByOrder(Insert(x, s))
    decreases |s|
  {
    if |s| > 0 && x.order > s[0].order {
      var t := Insert(x, s[1..]);
      InsertSorted(x, s[1..]);
      InsertLowerBound(x, s[1..], s[0].order);
      assert Insert(x, s) == [s[0]] + t;
    }
  }

  /** `.sort((a, b) => a.order - b.order)`, which is stable. */
  function SortByOrder(s: seq<MappingRow>): (r: seq<MappingRow>)
    ensures |r| == |s|
    ensures multiset(r) == multiset(s)
    ensures SortedByOrder(r)
    decreases |s|
  {
    if |s| == 0 then []
    else
      assert s == [s[0]] + s[1..];
      InsertSorted(s[0], SortByOrder(s[1..]));
      Insert(s[0], SortByOrder(s[1..]))
  }

  function OrderIs(k: int): MappingRow -> bool {
    (x: MappingRow) => x.order == k
  }

  /** The slots that share one order value. */
  function WithOrder(s: seq<MappingRow>, k: int): seq<MappingRow> {
    Filter(s, OrderIs(k))
  }

  /** One step of `InsertStable`: `x` passes over a slot with a smaller
      order, and the two never share a filter. */
  lemma PassOver(x: MappingRow, y: MappingRow, u: seq<MappingRow>, t: seq<MappingRow>, k: int)
    requires y.order < x.order
    requires Filter(u, OrderIs(k)) == Filter([x] + t, OrderIs(k))
    ensures Filter([y] + u, OrderIs(k)) == Filter([x] + ([y] + t), OrderIs(k))
  {
    var p := OrderIs(k);
    var a := Filter([y], p);
    var b := Filter([x], p);
    assert a == [] || b == [];
    FilterConcat([y], u, p);
    FilterConcat([x], t, p);
    FilterConcat([y], t, p);
    FilterConcat([x], [y] + t, p);
  }

  lemma {:induction false} InsertStable(x: MappingRow, s: seq<MappingRow>, k: int)
    requires SortedByOrder(s)
    ensures WithOrder(Insert(x, s), k) == WithOrder([x] + s, k)
    decreases |s|
  {
    if |s| > 0 && x.order > s[0].order {
      InsertStable(x, s[1..], k);
      PassOver(x, s[0], Insert(x, s[1..]), s[1..], k);
      assert [s[0]] + s[1..] == s;
    }
  }

  /** Stability: the slots that share an order value keep their relative
      order. */
  lemma {:induction false} SortStable(s: seq<MappingRow>, k: int)
    ensures WithOrder(SortByOrder(s), k) == WithOrder(s, k)
    decreases |s|
  {
    var p := OrderIs(k);
    if |s| > 0 {
      SortStable(s[1..], k);
      InsertStable(s[0], SortByOrder(s[1..]), k);
      FilterConcat([s[0]], SortByOrder(s[1..]), p);
      FilterConcat([s[0]], s[1..], p);
      assert s == [s[0]] + s[1..];
    }
  }

  /** A table already in order comes back unchanged. */
  lemma {:induction false} SortKeepsSorted(s: seq<MappingRow>)
    requires SortedByOrder(s)
    ensures SortByOrder(s) == s
    decreases |s|
  {
    if |s| > 0 {
      SortKeepsSorted(s[1..]);
      assert SortedByOrder(s[1..]);
      assert |s| == 1 || s[0].order <= s[1].order;
    }
  }
}
