/** Order statistics of a burst of samples, and the in-place bubble sort that finds its median
    (firmware/node_nrf54l15/src/sensor/sensor_control.c, the aggregation step). */
module Median {

  // ------------------------------------------------------------- order statistics

  function CountBelow(s: seq<int>, x: int): (n: nat)
    ensures n <= |s|
  {
    if s == [] then 0 else (if s[0] < x then 1 else 0) + CountBelow(s[1..], x)
  }

  function CountUpTo(s: seq<int>, x: int): (n: nat)
    ensures n <= |s|
  {
    if s == [] then 0 else (if s[0] <= x then 1 else 0) + CountUpTo(s[1..], x)
  }

  function CountWithin(s: seq<int>, lo: int, hi: int): (n: nat)
    ensures n <= |s|
  {
    if s == [] then 0 else (if lo <= s[0] <= hi then 1 else 0) + CountWithin(s[1..], lo, hi)
  }

  /** x is the element of the given rank: rank samples may precede it, no more are below it. */
  predicate HasRank(s: seq<int>, rank: nat, x: int) {
    CountBelow(s, x) <= rank < CountUpTo(s, x)
  }

  predicate IsMedian(s: seq<int>, x: int) { HasRank(s, |s| / 2, x) }

  lemma {:induction false} CountsInLine(s: seq<int>, x: int, y: int)
    requires x < y
    ensures CountUpTo(s, x) <= CountBelow(s, y) <= CountUpTo(s, y)
  {
    if s != [] {
      CountsInLine(s[1..], x, y);
    }
  }

  /** An element of given rank is unique. */
  lemma RankUnique(s: seq<int>, rank: nat, x: int, y: int)
    requires HasRank(s, rank, x) && HasRank(s, rank, y)
    ensures x == y
  {
    if x < y {
      CountsInLine(s, x, y);
    } else if y < x {
      CountsInLine(s, y, x);
    }
  }

  lemma Without(t: seq<int>, i: nat)
    requires i < |t|
    ensures multiset(t[..i] + t[i + 1..]) == multiset(t) - multiset{t[i]}
  {
    assert t == t[..i] + [t[i]] + t[i + 1..];
  }

  lemma WithoutFirst(s: seq<int>)
    requires s != []
    ensures multiset(s[1..]) == multiset(s) - multiset{s[0]}
  {
    assert s == [s[0]] + s[1..];
  }

  /** Two orders of the same samples: the first of one can be taken out of the other. */
  lemma Peel(s: seq<int>, t: seq<int>) returns (i: nat)
    requires s != [] && multiset(s) == multiset(t)
    ensures i < |t| && t[i] == s[0] && multiset(s[1..]) == multiset(t[..i] + t[i + 1..])
  {
    assert s[0] in multiset(t);
    i :| 0 <= i < |t| && t[i] == s[0];
    Without(t, i);
    WithoutFirst(s);
  }

  lemma CountsWithout(t: seq<int>, i: nat, x: int)
    requires i < |t|
    ensures CountBelow(t, x) == CountBelow(t[..i] + t[i + 1..], x) + (if t[i] < x then 1 else 0)
    ensures CountUpTo(t, x) == CountUpTo(t[..i] + t[i + 1..], x) + (if t[i] <= x then 1 else 0)
  {
    assert t == t[..i] + t[i..] && t[i..][1..] == t[i + 1..];
    CountsSplit(t[..i], t[i..], x);
    CountsSplit(t[..i], t[i + 1..], x);
  }

  /** Rank depends only on which samples there are, not on their order. */
  lemma {:induction false} CountsByMultiset(s: seq<int>, t: seq<int>, x: int)
    requires multiset(s) == multiset(t)
    ensures CountBelow(s, x) == CountBelow(t, x) && CountUpTo(s, x) == CountUpTo(t, x)
    decreases |s|
  {
    if s == [] {
      assert |t| == |multiset(t)| == 0;
    } else {
      var i := Peel(s, t);
      CountsByMultiset(s[1..], t[..i] + t[i + 1..], x);
      CountsWithout(t, i, x);
    }
  }

  lemma {:induction false} CountsSplit(a: seq<int>, b: seq<int>, x: int)
    ensures CountBelow(a + b, x) == CountBelow(a, x) + CountBelow(b, x)
    ensures CountUpTo(a + b, x) == CountUpTo(a, x) + CountUpTo(b, x)
  {
    if a == [] {
      assert a + b == b;
    } else {
      assert (a + b)[1..] == a[1..] + b;
      CountsSplit(a[1..], b, x);
    }
  }

  predicate Sorted(s: seq<int>) { forall i, j :: 0 <= i <= j < |s| ==> s[i] <= s[j] }

  lemma {:induction false} AllCounted(s: seq<int>, x: int)
    ensures (forall i :: 0 <= i < |s| ==> s[i] <= x) ==> CountUpTo(s, x) == |s|
    ensures (forall i :: 0 <= i < |s| ==> s[i] >= x) ==> CountBelow(s, x) == 0
  {
    if s != [] {
      AllCounted(s[1..], x);
    }
  }

  /** In a sorted sequence the element at an index has that index as its rank. */
  lemma SortedRank(s: seq<int>, k: nat)
    requires Sorted(s) && k < |s|
    ensures HasRank(s, k, s[k])
  {
    var x := s[k];
    assert s == s[..k] + s[k..] && s == s[..k + 1] + s[k + 1..];
    CountsSplit(s[..k], s[k..], x);
    CountsSplit(s[..k + 1], s[k + 1..], x);
    AllCounted(s[k..], x);
    AllCounted(s[..k + 1], x);
  }

  /** Breakdown: whatever the other samples are, a strict majority within [lo, hi] keeps the
      median there. */
  lemma MedianBreakdown(s: seq<int>, lo: int, hi: int, median: int)
    requires 2 * CountWithin(s, lo, hi) > |s| && IsMedian(s, median)
    ensures lo <= median <= hi
  {
    if median < lo {
      WithinAbove(s, lo, hi, median);
    } else if hi < median {
      WithinBelow(s, lo, hi, median);
    }
  }

  lemma {:induction false} WithinAbove(s: seq<int>, lo: int, hi: int, x: int)
    requires x < lo
    ensures CountWithin(s, lo, hi) + CountUpTo(s, x) <= |s|
  {
    if s != [] {
      WithinAbove(s[1..], lo, hi, x);
    }
  }

  lemma {:induction false} WithinBelow(s: seq<int>, lo: int, hi: int, x: int)
    requires hi < x
    ensures CountWithin(s, lo, hi) <= CountBelow(s, x)
  {
    if s != [] {
      WithinBelow(s[1..], lo, hi, x);
    }
  }

  lemma SameSize(s: seq<int>, t: seq<int>)
    requires multiset(s) == multiset(t)
    ensures |s| == |t|
  {
    assert |s| == |multiset(s)| == |multiset(t)| == |t|;
  }

  /** The median is the cell at half the length once the samples are sorted, and nothing else. */
  lemma MedianIff(samples: seq<int>, sorted: seq<int>, x: int)
    requires samples != [] && Sorted(sorted) && multiset(sorted) == multiset(samples)
    ensures |sorted| == |samples| && (IsMedian(samples, x) <==> x == sorted[|samples| / 2])
  {
    SameSize(sorted, samples);
    var m := sorted[|sorted| / 2];
    SortedRank(sorted, |sorted| / 2);
    CountsByMultiset(samples, sorted, m);
    if IsMedian(samples, x) {
      RankUnique(samples, |samples| / 2, x, m);
    }
  }

  /** Sample by sample, s lies below t. */
  predicate Pointwise(s: seq<int>, t: seq<int>) {
    |s| == |t| && forall i :: 0 <= i < |s| ==> s[i] <= t[i]
  }

  lemma {:induction false} CountsAntitone(s: seq<int>, t: seq<int>, x: int)
    requires Pointwise(s, t)
    ensures CountUpTo(t, x) <= CountUpTo(s, x)
  {
    if s != [] {
      CountsAntitone(s[1..], t[1..], x);
    }
  }

  /** Raising samples never lowers the element of a rank. */
  lemma RankMonotone(s: seq<int>, t: seq<int>, rank: nat, x: int, y: int)
    requires Pointwise(s, t) && HasRank(s, rank, x) && HasRank(t, rank, y)
    ensures x <= y
  {
    if y < x {
      CountsAntitone(s, t, y);
      CountsInLine(s, y, x);
    }
  }

  // ------------------------------------------------------------------- bubble sort

  /** What the in-place sort does to the first n cells. */
  predicate SortsPrefix(before: seq<int>, after: seq<int>, n: nat)
    requires n <= |before| == |after|
  {
    Sorted(after[..n]) && multiset(after[..n]) == multiset(before[..n]) && after[n..] == before[n..]
  }

  /** Everything in s[k..n] is at least everything in s[..k]. */
  predicate Partitioned(s: seq<int>, k: int, n: int)
    requires 0 <= k <= n <= |s|
  {
    forall i, j :: 0 <= i < k <= j < n ==> s[i] <= s[j]
  }

  method Swap(a: array<int>, j: nat, n: nat)
    requires j + 1 < n <= a.Length
    modifies a
    ensures a[..] == old(a[..])[j := old(a[j + 1])][j + 1 := old(a[j])]
    ensures multiset(a[..n]) == old(multiset(a[..n])) && a[n..] == old(a[n..])
  {
    var temp := a[j];
    a[j] := a[j + 1];
    a[j + 1] := temp;
    SwapKeeps(old(a[..n]), a[..n], j);
  }

  lemma SwapKeeps(s: seq<int>, t: seq<int>, j: nat)
    requires j + 1 < |s| == |t| && t == s[j := s[j + 1]][j + 1 := s[j]]
    ensures multiset(s) == multiset(t)
  {
    var a, b := s[..j], s[j + 2..];
    assert s == a + [s[j], s[j + 1]] + b && t == a + [s[j + 1], s[j]] + b;
    PartsOf(a, [s[j], s[j + 1]], b);
    PartsOf(a, [s[j + 1], s[j]], b);
    PairSwapped(s[j], s[j + 1]);
  }

  lemma PartsOf(a: seq<int>, b: seq<int>, c: seq<int>)
    ensures multiset(a + b + c) == multiset(a) + multiset(b) + multiset(c)
  {
  }

  lemma PairSwapped(x: int, y: int)
    ensures multiset([x, y]) == multiset([y, x])
  {
  }

  /** One pass of the inner loop over the first m cells: the largest of them ends at the end. */
  method BubblePass(a: array<int>, m: nat, n: nat)
    requires 0 < m <= n <= a.Length
    modifies a
    ensures multiset(a[..n]) == old(multiset(a[..n])) && a[m..] == old(a[m..])
    ensures multiset(a[..m]) == old(multiset(a[..m]))
    ensures forall i :: 0 <= i < m ==> a[i] <= a[m - 1]
  {
    for j := 0 to m - 1
      invariant multiset(a[..m]) == old(multiset(a[..m])) && a[m..] == old(a[m..])
      invariant forall i :: 0 <= i <= j ==> a[i] <= a[j]
    {
      if a[j] > a[j + 1] {
        Swap(a, j, m);
      }
    }
    SamePrefix(old(a[..]), a[..], m, n);
    assert a[..][..m] == a[..m] && a[..][m..] == a[m..] && a[..][..n] == a[..n];
  }

  lemma SamePrefix(s: seq<int>, t: seq<int>, m: nat, n: nat)
    requires m <= n <= |s| == |t|
    requires multiset(s[..m]) == multiset(t[..m]) && s[m..] == t[m..]
    ensures multiset(s[..n]) == multiset(t[..n])
  {
    assert s[..n] == s[..m] + s[m..][..n - m] && t[..n] == t[..m] + t[m..][..n - m];
  }

  /** The bubble sort of sensor_read, on the first n cells of the sample buffer. */
  method BubbleSort(a: array<int>, n: nat)
    requires 0 < n <= a.Length
    modifies a
    ensures SortsPrefix(old(a[..]), a[..], n)
  {
    for i := 0 to n - 1
      invariant multiset(a[..n]) == old(multiset(a[..n])) && a[n..] == old(a[n..])
      invariant Sorted(a[n - i..n])
      invariant Partitioned(a[..n], n - i, n)
    {
      ghost var before := a[..];
      var m := n - i;
      BubblePass(a, m, n);
      ghost var after := a[..];
      Slices(before, m, n);
      Slices(after, m, n);
      PassExtends(before[..n], after[..n], m);
    }
    assert a[..][..n] == a[..n] && a[..][n..] == a[n..];
    LastCellInPlace(a[..n]);
  }

  lemma Slices(s: seq<int>, m: nat, n: nat)
    requires m <= n <= |s|
    ensures s[..n][m..] == s[m..][..n - m] == s[m..n] && s[..n][..m] == s[..m]
  {
  }

  lemma LastCellInPlace(s: seq<int>)
    requires s != [] && Sorted(s[1..]) && Partitioned(s, 1, |s|)
    ensures Sorted(s)
  {
    forall i, j | 0 <= i <= j < |s|
      ensures s[i] <= s[j]
    {
      if i > 0 {
        assert s[i] == s[1..][i - 1] && s[j] == s[1..][j - 1];
      }
    }
  }

  lemma PassExtends(before: seq<int>, after: seq<int>, m: nat)
    requires 0 < m <= |before| == |after|
    requires Sorted(before[m..]) && Partitioned(before, m, |before|)
    requires after[m..] == before[m..] && multiset(after[..m]) == multiset(before[..m])
    requires forall i :: 0 <= i < m ==> after[i] <= after[m - 1]
    ensures Sorted(after[m - 1..]) && Partitioned(after, m - 1, |after|)
  {
    forall i, j | 0 <= i < m <= j < |after|
      ensures after[i] <= after[j]
    {
      assert after[i] in multiset(after[..m]);
      assert after[i] in multiset(before[..m]);
      var k :| 0 <= k < m && before[k] == after[i];
      assert after[j] == after[m..][j - m] == before[j];
    }
    var tail := after[m - 1..];
    forall i, j | 0 <= i <= j < |tail|
      ensures tail[i] <= tail[j]
    {
      if i > 0 {
        assert tail[i] == before[m..][i - 1] && tail[j] == before[m..][j - 1];
      }
    }
  }
}
