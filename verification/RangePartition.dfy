/** Range partitioning: a tuple of attribute values goes to the partition between
    the two boundaries that enclose it in lexicographic order. */
module RangePartition {

  /** A type's comparators for one partitioning attribute: a strict total order
      and the equality that goes with it. */
  datatype Comparators<!V(!new)> = Comparators(less: (V, V) -> bool, equal: (V, V) -> bool)
  {
    ghost predicate IsTotalOrder() {
      && (forall a, b :: equal(a, b) <==> a == b)
      && (forall a :: !less(a, a))
      && (forall a, b :: less(a, b) || a == b || less(b, a))
      && (forall a, b, c {:trigger less(a, b), less(b, c)} :: less(a, b) && less(b, c) ==> less(a, c))
    }
  }

  ghost predicate AllOrders<V(!new)>(cs: seq<Comparators<V>>) {
    forall i | 0 <= i < |cs| :: cs[i].IsTotalOrder()
  }

  /** (l0, l1, ...) < (r0, r1, ...) iff l0 < r0, or l0 == r0 and (l1, ...) < (r1, ...). */
  predicate LexLess<V(!new, ==)>(cs: seq<Comparators<V>>, l: seq<V>, r: seq<V>)
    requires |cs| == |l| == |r|
  {
    |cs| > 0 && (cs[0].less(l[0], r[0]) || (l[0] == r[0] && LexLess(cs[1..], l[1..], r[1..])))
  }

  /** Less means less at the first difference. */
  lemma {:induction false} LexIsFirstDifference<V(!new)>(cs: seq<Comparators<V>>, l: seq<V>, r: seq<V>)
    requires |cs| == |l| == |r|
    ensures LexLess(cs, l, r) <==> exists i :: LessFirstAt(cs, l, r, i)
  {
    if |cs| > 0 {
      LexIsFirstDifference(cs[1..], l[1..], r[1..]);
      if LexLess(cs, l, r) {
        if cs[0].less(l[0], r[0]) {
          assert LessFirstAt(cs, l, r, 0);
        } else {
          var i :| LessFirstAt(cs[1..], l[1..], r[1..], i);
          assert LessFirstAt(cs, l, r, i + 1) by {
            assert forall j | 0 < j <= i :: l[j] == l[1..][j - 1] && r[j] == r[1..][j - 1];
          }
        }
      }
      if exists i :: LessFirstAt(cs, l, r, i) {
        var i :| LessFirstAt(cs, l, r, i);
        if i > 0 {
          assert LessFirstAt(cs[1..], l[1..], r[1..], i - 1);
        }
      }
    }
  }

  predicate LessFirstAt<V(!new, ==)>(cs: seq<Comparators<V>>, l: seq<V>, r: seq<V>, i: int)
    requires |cs| == |l| == |r|
  {
    0 <= i < |cs| && cs[i].less(l[i], r[i]) && forall j | 0 <= j < i :: l[j] == r[j]
  }

  lemma {:induction false} LexIrreflexive<V(!new)>(cs: seq<Comparators<V>>, a: seq<V>)
    requires |cs| == |a| && AllOrders(cs)
    ensures !LexLess(cs, a, a)
  {
    if |cs| > 0 {
      LexIrreflexive(cs[1..], a[1..]);
      assert cs[0].IsTotalOrder();
    }
  }

  lemma {:induction false} LexTransitive<V(!new)>(cs: seq<Comparators<V>>, a: seq<V>, b: seq<V>, c: seq<V>)
    requires |cs| == |a| == |b| == |c| && AllOrders(cs)
    requires LexLess(cs, a, b) && LexLess(cs, b, c)
    ensures LexLess(cs, a, c)
  {
    assert cs[0].IsTotalOrder();
    if a[0] == b[0] && b[0] == c[0] && !cs[0].less(a[0], c[0]) {
      LexTransitive(cs[1..], a[1..], b[1..], c[1..]);
    }
  }

  lemma {:induction false} LexTotal<V(!new)>(cs: seq<Comparators<V>>, a: seq<V>, b: seq<V>)
    requires |cs| == |a| == |b| && AllOrders(cs)
    ensures LexLess(cs, a, b) || a == b || LexLess(cs, b, a)
  {
    if |cs| > 0 {
      assert cs[0].IsTotalOrder();
      LexTotal(cs[1..], a[1..], b[1..]);
      assert a == [a[0]] + a[1..] && b == [b[0]] + b[1..];
    }
  }

  /** The comparison loop. It is the lexicographic order, except that two empty
      tuples compare as less. */
  method LessThan<V(!new)>(cs: seq<Comparators<V>>, lhs: seq<V>, rhs: seq<V>) returns (r: bool)
    requires |cs| == |lhs| == |rhs| && AllOrders(cs)
    ensures r <==> |cs| == 0 || LexLess(cs, lhs, rhs)
  {
    for i := 0 to |cs|
      invariant LexLess(cs, lhs, rhs) <==> LexLess(cs[i..], lhs[i..], rhs[i..])
      invariant i > 0 ==> i < |cs|
    {
      assert cs[i].IsTotalOrder();
      assert cs[i..][0] == cs[i] && cs[i..][1..] == cs[i + 1..];
      assert lhs[i..][1..] == lhs[i + 1..] && rhs[i..][1..] == rhs[i + 1..];
      if cs[i].less(lhs[i], rhs[i]) {
        break;
      } else if cs[i].equal(lhs[i], rhs[i]) {
        if i == |cs| - 1 {
          return false;
        }
      } else {
        return false;
      }
    }
    return true;
  }

  // ---------- Boundaries ----------

  /** The boundaries a range scheme may have: as many values as attributes, ascending. */
  ghost predicate ValidBoundaries<V(!new)>(cs: seq<Comparators<V>>, boundaries: seq<seq<V>>) {
    && (forall i | 0 <= i < |boundaries| :: |boundaries[i]| == |cs|)
    && (forall i, j | 0 <= i < j < |boundaries| :: LexLess(cs, boundaries[i], boundaries[j]))
  }

  /** The debug check compares neighbours only, which is enough. */
  method CheckPartitionRangeBoundaries<V(!new)>(cs: seq<Comparators<V>>, boundaries: seq<seq<V>>) returns (ok: bool)
    requires |cs| > 0 && AllOrders(cs)
    ensures ok <==> ValidBoundaries(cs, boundaries)
  {
    for i := 0 to |boundaries|
      invariant forall j | 0 <= j < i :: |boundaries[j]| == |cs|
    {
      if |boundaries[i]| != |cs| {
        return false;
      }
    }
    var i := 1;
    while i < |boundaries|
      invariant i >= 1
      invariant forall j, k | 0 <= j < k < i && k < |boundaries| :: LexLess(cs, boundaries[j], boundaries[k])
    {
      var ascending := LessThan(cs, boundaries[i - 1], boundaries[i]);
      if !ascending {
        return false;
      }
      forall j | 0 <= j < i ensures LexLess(cs, boundaries[j], boundaries[i]) {
        if j < i - 1 {
          LexTransitive(cs, boundaries[j], boundaries[i - 1], boundaries[i]);
        }
      }
      i := i + 1;
    }
    return true;
  }

  // ---------- Routing ----------

  /** How many boundaries are not greater than the tuple. */
  function NotGreater<V(!new, ==)>(cs: seq<Comparators<V>>, boundaries: seq<seq<V>>, v: seq<V>): nat
    requires |v| == |cs| && forall i | 0 <= i < |boundaries| :: |boundaries[i]| == |cs|
  {
    if boundaries == [] then 0
    else (if LexLess(cs, v, boundaries[0]) then 0 else 1) + NotGreater(cs, boundaries[1..], v)
  }

  /** With ascending boundaries the greater ones come last, so a cut point
      between the two kinds is their count. */
  lemma {:induction false} CutIsCount<V(!new)>(cs: seq<Comparators<V>>, boundaries: seq<seq<V>>, v: seq<V>, cut: nat)
    requires |v| == |cs| && forall i | 0 <= i < |boundaries| :: |boundaries[i]| == |cs|
    requires cut <= |boundaries|
    requires forall i | 0 <= i < |boundaries| :: LexLess(cs, v, boundaries[i]) <==> cut <= i
    ensures NotGreater(cs, boundaries, v) == cut
  {
    if boundaries != [] {
      CutIsCount(cs, boundaries[1..], v, if cut == 0 then 0 else cut - 1);
    }
  }

  lemma BelowStaysBelow<V(!new)>(cs: seq<Comparators<V>>, boundaries: seq<seq<V>>, v: seq<V>, m: nat)
    requires |v| == |cs| && AllOrders(cs) && ValidBoundaries(cs, boundaries) && m < |boundaries|
    ensures LexLess(cs, v, boundaries[m]) ==> forall i | m <= i < |boundaries| :: LexLess(cs, v, boundaries[i])
    ensures !LexLess(cs, v, boundaries[m]) ==> forall i | 0 <= i <= m :: !LexLess(cs, v, boundaries[i])
  {
    if LexLess(cs, v, boundaries[m]) {
      forall i | m < i < |boundaries| ensures LexLess(cs, v, boundaries[i]) {
        LexTransitive(cs, v, boundaries[m], boundaries[i]);
      }
    } else {
      forall i | 0 <= i < m ensures !LexLess(cs, v, boundaries[i]) {
        if LexLess(cs, v, boundaries[i]) {
          LexTransitive(cs, v, boundaries[i], boundaries[m]);
        }
      }
    }
  }

  /** Binary search for the partition. It reads the last boundary first, so there
      must be one, that is, at least two partitions. */
  method GetPartitionId<V(!new)>(cs: seq<Comparators<V>>, boundaries: seq<seq<V>>, numPartitions: nat, v: seq<V>)
    returns (id: nat)
    requires |cs| > 0 && |v| == |cs| && AllOrders(cs) && ValidBoundaries(cs, boundaries)
    requires numPartitions == |boundaries| + 1 >= 2
    ensures id == NotGreater(cs, boundaries, v) < numPartitions
    ensures forall i | 0 <= i < |boundaries| :: LexLess(cs, v, boundaries[i]) <==> id <= i
  {
    var start, end := 0, |boundaries| - 1;
    BelowStaysBelow(cs, boundaries, v, end);
    var below := LessThan(cs, v, boundaries[end]);
    if !below {
      CutIsCount(cs, boundaries, v, |boundaries|);
      return numPartitions - 1;
    }
    while start < end
      invariant 0 <= start <= end < |boundaries|
      invariant forall i | 0 <= i < start :: !LexLess(cs, v, boundaries[i])
      invariant forall i | end <= i < |boundaries| :: LexLess(cs, v, boundaries[i])
    {
      var mid := start + (end - start) / 2;
      BelowStaysBelow(cs, boundaries, v, mid);
      below := LessThan(cs, v, boundaries[mid]);
      if below {
        end := mid;
      } else {
        start := mid + 1;
      }
    }
    CutIsCount(cs, boundaries, v, start);
    return start;
  }

  /** The half-open interval of tuples that partition `k` stands for. */
  ghost predicate InPartition<V(!new)>(cs: seq<Comparators<V>>, boundaries: seq<seq<V>>, k: nat, v: seq<V>)
    requires |v| == |cs| && forall i | 0 <= i < |boundaries| :: |boundaries[i]| == |cs|
  {
    && (0 < k <= |boundaries| ==> !LexLess(cs, v, boundaries[k - 1]))
    && (k < |boundaries| ==> LexLess(cs, v, boundaries[k]))
  }

  /** The partitions tile the domain: a tuple is in exactly the one it is routed to. */
  lemma PartitionsTile<V(!new)>(cs: seq<Comparators<V>>, boundaries: seq<seq<V>>, v: seq<V>, k: nat)
    requires |v| == |cs| && AllOrders(cs) && ValidBoundaries(cs, boundaries) && k <= |boundaries|
    ensures InPartition(cs, boundaries, k, v) <==> k == NotGreater(cs, boundaries, v)
  {
    RoutedByCut(cs, boundaries, v);
    if InPartition(cs, boundaries, k, v) {
      if k > 0 {
        BelowStaysBelow(cs, boundaries, v, k - 1);
      }
      if k < |boundaries| {
        BelowStaysBelow(cs, boundaries, v, k);
      }
      CutIsCount(cs, boundaries, v, k);
    }
  }

  lemma {:induction false} RoutedByCut<V(!new)>(cs: seq<Comparators<V>>, boundaries: seq<seq<V>>, v: seq<V>)
    requires |v| == |cs| && AllOrders(cs) && ValidBoundaries(cs, boundaries)
    ensures NotGreater(cs, boundaries, v) <= |boundaries|
    ensures forall i | 0 <= i < |boundaries| :: LexLess(cs, v, boundaries[i]) <==> NotGreater(cs, boundaries, v) <= i
  {
    if boundaries != [] {
      RoutedByCut(cs, boundaries[1..], v);
      BelowStaysBelow(cs, boundaries, v, 0);
      if LexLess(cs, v, boundaries[0]) {
        CutIsCount(cs, boundaries, v, 0);
      } else {
        forall i | 0 < i < |boundaries|
          ensures LexLess(cs, v, boundaries[i]) <==> NotGreater(cs, boundaries[1..], v) <= i - 1
        {
          assert boundaries[i] == boundaries[1..][i - 1];
        }
      }
    }
  }

  /** A boundary belongs to the partition above it. */
  lemma BoundaryGoesUp<V(!new)>(cs: seq<Comparators<V>>, boundaries: seq<seq<V>>, k: nat)
    requires AllOrders(cs) && ValidBoundaries(cs, boundaries) && k < |boundaries|
    ensures NotGreater(cs, boundaries, boundaries[k]) == k + 1
  {
    LexIrreflexive(cs, boundaries[k]);
    BelowStaysBelow(cs, boundaries, boundaries[k], k);
    CutIsCount(cs, boundaries, boundaries[k], k + 1);
  }

  lemma RoutingIsMonotone<V(!new)>(cs: seq<Comparators<V>>, boundaries: seq<seq<V>>, u: seq<V>, v: seq<V>)
    requires |u| == |v| == |cs| && AllOrders(cs) && ValidBoundaries(cs, boundaries)
    requires LexLess(cs, u, v)
    ensures NotGreater(cs, boundaries, u) <= NotGreater(cs, boundaries, v)
  {
    RoutedByCut(cs, boundaries, u);
    RoutedByCut(cs, boundaries, v);
    var k := NotGreater(cs, boundaries, v);
    if k < |boundaries| {
      LexTransitive(cs, u, v, boundaries[k]);
    }
  }
}
