/**
 The three statistic reducers (mean, median, mode) and what each computes,
 stated independently of how it is computed.
 */
module Stats {
  import opened Sorting

  /** The reducer a stat view is built with. */
  datatype StatMethod = Mean | Median | Mode

  function Sum(s: seq<real>): real
    decreases |s|
  {
    if s == [] then 0.0 else Sum(s[..|s| - 1]) + s[|s| - 1]
  }

  /** The number of elements of `s` strictly below `x`. */
  function CountBelow(s: seq<real>, x: real): nat
    decreases |s|
  {
    if s == [] then 0 else (if s[0] < x then 1 else 0) + CountBelow(s[1..], x)
  }

  /** The number of elements of `s` at or below `x`. */
  function CountAtMost(s: seq<real>, x: real): nat
    decreases |s|
  {
    if s == [] then 0 else (if s[0] <= x then 1 else 0) + CountAtMost(s[1..], x)
  }

  /**
   `x` is the element of rank `n` of `s`: the one at index `n` once `s` is
   put in ascending order.
   */
  ghost predicate IsRank(s: seq<real>, n: nat, x: real)
  {
    CountBelow(s, x) <= n < CountAtMost(s, x)
  }

  /**
   `x` is the mode of the elements `m`: it occurs most often, and among the
   values that occur that often it is the smallest.
   */
  ghost predicate IsModeOf(m: multiset<real>, x: real)
  {
    && x in m
    && forall y :: y in m ==> m[y] <= m[x] && (m[y] == m[x] ==> x <= y)
  }

  /** `x` is what reducer `sm` makes of the (non-empty) sequence `vs`. */
  ghost predicate IsStat(sm: StatMethod, vs: seq<real>, x: real)
  {
    && |vs| > 0
    && match sm
       case Mean => x == Sum(vs) / (|vs| as real)
       case Median => IsRank(vs, |vs| / 2, x)
       case Mode => IsModeOf(multiset(vs), x)
  }

  ghost predicate Ascending(s: seq<real>)
  {
    forall i, j :: 0 <= i < j < |s| ==> s[i] <= s[j]
  }

  function RealLe(x: real, y: real): bool
  {
    x <= y
  }

  lemma RealLeTotalPreorder()
    ensures TotalPreorder(RealLe)
  {
  }

  // ---------------------------------------------------------------------
  // Counting
  // ---------------------------------------------------------------------

  lemma {:induction false} CountConcat(s: seq<real>, t: seq<real>, x: real)
    ensures CountBelow(s + t, x) == CountBelow(s, x) + CountBelow(t, x)
    ensures CountAtMost(s + t, x) == CountAtMost(s, x) + CountAtMost(t, x)
    decreases |s|
  {
    if s == [] {
      assert s + t == t;
    } else {
      assert (s + t)[1..] == s[1..] + t;
      CountConcat(s[1..], t, x);
    }
  }

  lemma CountBounds(s: seq<real>, x: real)
    ensures CountBelow(s, x) <= CountAtMost(s, x) <= |s|
    ensures (forall i :: 0 <= i < |s| ==> x <= s[i]) ==> CountBelow(s, x) == 0
    ensures (forall i :: 0 <= i < |s| ==> s[i] <= x) ==> CountAtMost(s, x) == |s|
    decreases |s|
  {
    if s != [] {
      CountBounds(s[1..], x);
    }
  }

  /** Removing the element at `j` removes one occurrence of it. */
  lemma RemoveAt(b: seq<real>, j: nat)
    requires j < |b|
    ensures multiset(b[..j] + b[j + 1..]) == multiset(b) - multiset{b[j]}
  {
    assert b == b[..j] + [b[j]] + b[j + 1..];
    assert multiset(b) == multiset(b[..j]) + multiset{b[j]} + multiset(b[j + 1..]);
  }

  lemma CountRemoveAt(b: seq<real>, j: nat, x: real)
    requires j < |b|
    ensures CountBelow(b, x) == CountBelow(b[..j] + b[j + 1..], x) + (if b[j] < x then 1 else 0)
    ensures CountAtMost(b, x) == CountAtMost(b[..j] + b[j + 1..], x) + (if b[j] <= x then 1 else 0)
  {
    assert b == b[..j] + [b[j]] + b[j + 1..];
    CountConcat(b[..j], b[j + 1..], x);
    CountConcat(b[..j] + [b[j]], b[j + 1..], x);
    CountConcat(b[..j], [b[j]], x);
  }

  /** The first element of `a` sits somewhere in any rearrangement `b`, and the rests agree. */
  lemma PermHead(a: seq<real>, b: seq<real>) returns (j: nat)
    requires multiset(a) == multiset(b) && |a| > 0
    ensures j < |b| && b[j] == a[0]
    ensures multiset(a[1..]) == multiset(b[..j] + b[j + 1..])
  {
    assert a[0] in multiset(b);
    assert a[0] in b;
    j :| 0 <= j < |b| && b[j] == a[0];
    RemoveAt(b, j);
    assert a == [a[0]] + a[1..];
    assert multiset(a) == multiset{a[0]} + multiset(a[1..]);
  }

  /** Counting depends only on which elements there are, not on their order. */
  lemma {:induction false} CountPerm(a: seq<real>, b: seq<real>, x: real)
    requires multiset(a) == multiset(b)
    ensures CountBelow(a, x) == CountBelow(b, x)
    ensures CountAtMost(a, x) == CountAtMost(b, x)
    decreases |a|
  {
    if a == [] {
      assert |b| == |multiset(b)| == 0;
    } else {
      var j := PermHead(a, b);
      CountPerm(a[1..], b[..j] + b[j + 1..], x);
      CountRemoveAt(b, j, x);
    }
  }

  /** Two values below and above one another split the counts. */
  lemma {:induction false} CountMonotone(s: seq<real>, x: real, y: real)
    requires x < y
    ensures CountAtMost(s, x) <= CountBelow(s, y)
    decreases |s|
  {
    if s != [] {
      CountMonotone(s[1..], x, y);
    }
  }

  // ---------------------------------------------------------------------
  // Median: rank selection
  // ---------------------------------------------------------------------

  /** The element at `n` of a sequence partitioned around `n` has rank `n`. */
  lemma PartitionRank(s: seq<real>, n: nat)
    requires n < |s|
    requires forall i :: 0 <= i < n ==> s[i] <= s[n]
    requires forall j :: n < j < |s| ==> s[n] <= s[j]
    ensures IsRank(s, n, s[n])
  {
    var x := s[n];
    var lo, hi := s[..n + 1], s[n + 1..];
    assert s == lo + hi;
    CountConcat(lo, hi, x);
    assert lo == s[..n] + [x];
    CountConcat(s[..n], [x], x);
    CountBounds(s[..n], x);
    CountBounds(lo, x);
    CountBounds(hi, x);
  }

  /** Ranks are unique: at most one value has rank `n`. */
  lemma RankUnique(s: seq<real>, n: nat, x: real, y: real)
    requires IsRank(s, n, x) && IsRank(s, n, y)
    ensures x == y
  {
    if x < y {
      CountMonotone(s, x, y);
    } else if y < x {
      CountMonotone(s, y, x);
    }
  }

  /** In an ascending sequence the element of rank `n` is the one at `n`. */
  lemma AscendingRank(s: seq<real>, n: nat)
    requires Ascending(s) && n < |s|
    ensures IsRank(s, n, s[n])
  {
    PartitionRank(s, n);
  }

  /**
   The element of rank `n` of `s` is the element at `n` of any ascending
   rearrangement of `s`.
   */
  lemma RankOfSorted(s: seq<real>, t: seq<real>, n: nat)
    requires multiset(s) == multiset(t) && Ascending(t) && n < |t|
    ensures IsRank(s, n, t[n])
  {
    AscendingRank(t, n);
    CountPerm(s, t, t[n]);
  }

  // ---------------------------------------------------------------------
  // Mode
  // ---------------------------------------------------------------------

  lemma ModeUnique(m: multiset<real>, x: real, y: real)
    requires IsModeOf(m, x) && IsModeOf(m, y)
    ensures x == y
  {
  }

  /** mode([3, 1, 2, 2, 1, 2]) is 2. */
  lemma ModeExampleMajority()
    ensures IsModeOf(multiset([3.0, 1.0, 2.0, 2.0, 1.0, 2.0]), 2.0)
  {
    var m := multiset([3.0, 1.0, 2.0, 2.0, 1.0, 2.0]);
    assert m == multiset{3.0} + multiset{1.0, 1.0} + multiset{2.0, 2.0, 2.0};
    assert m[2.0] == 3 && m[1.0] == 2 && m[3.0] == 1;
    assert forall y :: y in m ==> y == 1.0 || y == 2.0 || y == 3.0;
  }

  /** mode([5, 5, 1, 1]) is 1: on equal counts the smaller value wins. */
  lemma ModeExampleTie()
    ensures IsModeOf(multiset([5.0, 5.0, 1.0, 1.0]), 1.0)
  {
    var m := multiset([5.0, 5.0, 1.0, 1.0]);
    assert m == multiset{1.0, 1.0, 5.0, 5.0};
    assert m[5.0] == 2 && m[1.0] == 2;
  }

  // ---------------------------------------------------------------------
  // Mean
  // ---------------------------------------------------------------------

  lemma {:induction false} SumConcat(s: seq<real>, t: seq<real>)
    ensures Sum(s + t) == Sum(s) + Sum(t)
    decreases |t|
  {
    if t == [] {
      assert s + t == s;
    } else {
      assert (s + t)[..|s + t| - 1] == s + t[..|t| - 1];
      SumConcat(s, t[..|t| - 1]);
    }
  }

  /** The sum, hence the mean, does not depend on the order of the values. */
  lemma {:induction false} SumPerm(a: seq<real>, b: seq<real>)
    requires multiset(a) == multiset(b)
    ensures Sum(a) == Sum(b)
    decreases |a|
  {
    if a == [] {
      assert |b| == |multiset(b)| == 0;
    } else {
      var j := PermHead(a, b);
      SumPerm(a[1..], b[..j] + b[j + 1..]);
      assert a == [a[0]] + a[1..];
      SumConcat([a[0]], a[1..]);
      assert b == b[..j] + [b[j]] + b[j + 1..];
      SumConcat(b[..j], b[j + 1..]);
      SumConcat(b[..j] + [b[j]], b[j + 1..]);
      SumConcat(b[..j], [b[j]]);
      assert Sum([a[0]]) == a[0] by { assert [a[0]][..0] == []; }
    }
  }

  /** What each reducer computes depends only on the multiset of values. */
  lemma StatOrderIrrelevant(sm: StatMethod, a: seq<real>, b: seq<real>, x: real)
    requires multiset(a) == multiset(b)
    ensures IsStat(sm, a, x) <==> IsStat(sm, b, x)
  {
    assert |a| == |multiset(a)| == |multiset(b)| == |b|;
    SumPerm(a, b);
    CountPerm(a, b, x);
  }

  /** Each reducer has at most one result. */
  lemma StatUnique(sm: StatMethod, vs: seq<real>, x: real, y: real)
    requires IsStat(sm, vs, x) && IsStat(sm, vs, y)
    ensures x == y
  {
    match sm
    case Mean =>
    case Median => RankUnique(vs, |vs| / 2, x, y);
    case Mode => ModeUnique(multiset(vs), x, y);
  }

  // ---------------------------------------------------------------------
  // The reducers
  // ---------------------------------------------------------------------

  /** mean: the running total divided by the count. */
  method ComputeMean(v: seq<real>) returns (r: real)
    requires |v| > 0
    ensures r == Sum(v) / (|v| as real)
    ensures IsStat(Mean, v, r)
  {
    var res := 0.0;
    var count := 0;
    while count < |v|
      invariant 0 <= count <= |v|
      invariant res == Sum(v[..count])
    {
      assert v[..count + 1][..count] == v[..count];
      res := res + v[count];
      count := count + 1;
    }
    assert v[..count] == v;
    r := res / (count as real);
  }

  /**
   median: nth_element at n = |v| / 2, then the element at n.  The array is
   left a rearrangement of itself partitioned around n.
   */
  method ComputeMedian(a: array<real>) returns (r: real)
    requires a.Length > 0
    modifies a
    ensures multiset(a[..]) == multiset(old(a[..]))
    ensures r == a[a.Length / 2]
    ensures forall i :: 0 <= i < a.Length / 2 ==> a[i] <= r
    ensures forall j :: a.Length / 2 < j < a.Length ==> r <= a[j]
    ensures IsStat(Median, old(a[..]), r)
  {
    var n := a.Length / 2;
    RealLeTotalPreorder();
    SortPrefix(a, n + 1, RealLe);
    r := a[n];
    PartitionRank(a[..], n);
    CountPerm(a[..], old(a[..]), r);
  }

  /**
   mode: sort, then scan the runs of equal values.  The array is left in
   ascending order.
   */
  method ComputeMode(a: array<real>) returns (r: real)
    requires a.Length > 0
    modifies a
    ensures multiset(a[..]) == multiset(old(a[..]))
    ensures Ascending(a[..])
    ensures IsStat(Mode, old(a[..]), r)
  {
    RealLeTotalPreorder();
    SortPrefix(a, a.Length, RealLe);
    r := ModeOfSorted(a[..]);
  }

  /**
   The state of mode's scan after the values `seen`: the current run holds
   the largest value seen so far, `curD`, `curCount` times; every earlier
   run is at most `maxCount` long, and `mode` is the smallest value of an
   earlier run that long.
   */
  ghost predicate Scanned(seen: multiset<real>, curD: real, curCount: int, maxCount: int, mode: real)
  {
    && curCount == seen[curD] && curCount > 0
    && (forall y :: y in seen ==> y <= curD)
    && 0 <= maxCount
    && (maxCount > 0 ==> mode in seen && mode < curD && seen[mode] == maxCount)
    && (forall y :: y in seen && y != curD ==> seen[y] <= maxCount && (seen[y] == maxCount ==> mode <= y))
  }

  /** The next value repeats the current run. */
  lemma ScanSame(seen: multiset<real>, curD: real, curCount: int, maxCount: int, mode: real)
    requires Scanned(seen, curD, curCount, maxCount, mode)
    ensures Scanned(seen + multiset{curD}, curD, curCount + 1, maxCount, mode)
  {
  }

  /**
   A larger value starts a new run; the run just ended becomes the best one
   only when it is strictly longer than the best so far.
   */
  lemma ScanNew(seen: multiset<real>, curD: real, curCount: int, maxCount: int, mode: real, d: real)
    requires Scanned(seen, curD, curCount, maxCount, mode) && curD < d
    ensures curCount > maxCount ==> Scanned(seen + multiset{d}, d, 1, curCount, curD)
    ensures curCount <= maxCount ==> Scanned(seen + multiset{d}, d, 1, maxCount, mode)
  {
  }

  /** At the end, the last run is compared once more. */
  lemma ScanEnd(seen: multiset<real>, curD: real, curCount: int, maxCount: int, mode: real)
    requires Scanned(seen, curD, curCount, maxCount, mode)
    ensures IsModeOf(seen, if curCount > maxCount then curD else mode)
  {
  }

  /**
   The scan of mode over ascending values: a run replaces the best one so
   far only when it is strictly longer, so among equally long runs the
   first, holding the smallest value, wins.
   */
  method ModeOfSorted(b: seq<real>) returns (r: real)
    requires |b| > 0 && Ascending(b)
    ensures IsModeOf(multiset(b), r)
  {
    var curD := b[0];
    var curCount := 1;
    var maxCount := 0;
    var mode := curD;   // the C++ `mode` leaves it unset; it is always set before it is read
    ghost var seen := multiset{b[0]};
    assert b[..1] == [b[0]];
    for j := 1 to |b|
      invariant seen == multiset(b[..j])
      invariant curD == b[j - 1]
      invariant Scanned(seen, curD, curCount, maxCount, mode)
    {
      var d := b[j];
      PrefixStep(b, j);
      assert curD <= d;
      if d != curD {
        ScanNew(seen, curD, curCount, maxCount, mode, d);
        if curCount > maxCount {
          mode := curD;
          maxCount := curCount;
        }
        curD := d;
        curCount := 1;
      } else {
        ScanSame(seen, curD, curCount, maxCount, mode);
        curCount := curCount + 1;
      }
      seen := seen + multiset{d};
    }
    WholePrefix(b);
    ScanEnd(seen, curD, curCount, maxCount, mode);
    if curCount > maxCount {
      mode := curD;
    }
    r := mode;
  }
}
