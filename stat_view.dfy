/**
 A stat view: the statistic computed for each group key, and the two
 queries on views (keys where one view is above another, and the keys with
 the lowest values).
 */
module StatViews {
  import opened KeyOrder
  import opened Sorting
  import opened Stats

  /**
   A key's value as `map::operator[]` reads it: the stored value, or the
   0.0 it inserts for an absent key.
   */
  function Get0(m: map<string, real>, k: string): (v: real)
    ensures k in m ==> v == m[k]
    ensures k !in m ==> v == 0.0
  {
    if k in m then m[k] else 0.0
  }

  /** The keys among `ks`, in their order, where `mine` is above `theirs`. */
  function Above(mine: map<string, real>, theirs: map<string, real>, ks: seq<string>): (r: seq<string>)
    ensures |r| <= |ks|
    ensures forall k :: k in r ==> k in ks && k in theirs
    decreases |ks|
  {
    if ks == [] then []
    else
      var init := Above(mine, theirs, ks[..|ks| - 1]);
      var k := ks[|ks| - 1];
      if k in theirs && Get0(mine, k) > theirs[k] then init + [k] else init
  }

  /**
   `rs` is what `a.gt(b)` returns for views `mine` and `theirs`: in
   ascending order, exactly the keys `k` of `theirs` where `mine`'s value
   (0.0 when `mine` lacks `k`) is strictly above `theirs[k]`.
   */
  ghost predicate GreaterKeys(mine: map<string, real>, theirs: map<string, real>, rs: seq<string>)
  {
    && StrictlyAscending(rs)
    && forall k :: k in rs <==> k in theirs && Get0(mine, k) > theirs[k]
  }

  lemma {:induction false} AboveSpec(mine: map<string, real>, theirs: map<string, real>, ks: seq<string>)
    ensures forall k :: k in Above(mine, theirs, ks) <==> k in ks && k in theirs && Get0(mine, k) > theirs[k]
    ensures StrictlyAscending(ks) ==> StrictlyAscending(Above(mine, theirs, ks))
    ensures StrictlyAscending(ks) && |ks| > 0 ==>
              forall k :: k in Above(mine, theirs, ks) ==> k == ks[|ks| - 1] || Less(k, ks[|ks| - 1])
    decreases |ks|
  {
    if ks != [] {
      var init := ks[..|ks| - 1];
      var last := ks[|ks| - 1];
      AboveSpec(mine, theirs, init);
      var a := Above(mine, theirs, init);
      assert Above(mine, theirs, ks) == if last in theirs && Get0(mine, last) > theirs[last] then a + [last] else a;
      assert forall k :: k in ks <==> k in init || k == last;
      if StrictlyAscending(ks) {
        assert StrictlyAscending(init);
        forall k | k in init ensures Less(k, last) {
          var i :| 0 <= i < |init| && init[i] == k;
          assert ks[i] == k;
        }
      }
    }
  }

  /** The result of gt is determined by the two views. */
  lemma GreaterKeysUnique(mine: map<string, real>, theirs: map<string, real>, rs: seq<string>, ts: seq<string>)
    requires GreaterKeys(mine, theirs, rs) && GreaterKeys(mine, theirs, ts)
    ensures rs == ts
  {
    AscendingUnique(rs, ts);
  }

  /** No view is above itself. */
  lemma GtSelf(m: map<string, real>, rs: seq<string>)
    requires GreaterKeys(m, m, rs)
    ensures rs == []
  {
    HeadIn(rs);
  }

  lemma {:induction false} AboveSelf(m: map<string, real>, ks: seq<string>)
    ensures Above(m, m, ks) == []
    decreases |ks|
  {
    if ks != [] {
      AboveSelf(m, ks[..|ks| - 1]);
    }
  }

  lemma AboveStep(mine: map<string, real>, theirs: map<string, real>, ks: seq<string>, i: nat)
    requires i < |ks|
    ensures Above(mine, theirs, ks[..i + 1]) ==
      if ks[i] in theirs && Get0(mine, ks[i]) > theirs[ks[i]] then Above(mine, theirs, ks[..i]) + [ks[i]]
      else Above(mine, theirs, ks[..i])
  {
    assert ks[..i + 1][..i] == ks[..i];
  }

  /** std::pair ordering of (value, key): by value, then by key. */
  predicate PairLess(p: (real, string), q: (real, string))
    ensures p.0 < q.0 ==> PairLess(p, q)
    ensures PairLess(p, q) ==> p.0 <= q.0
  {
    p.0 < q.0 || (p.0 == q.0 && Less(p.1, q.1))
  }

  predicate PairLe(p: (real, string), q: (real, string))
  {
    PairLess(p, q) || p == q
  }

  lemma PairLeTotalPreorder()
    ensures TotalPreorder(PairLe)
  {
    forall p: (real, string), q: (real, string) ensures PairLe(p, q) || PairLe(q, p) {
      LessTotal(p.1, q.1);
    }
    forall p: (real, string), q: (real, string), r: (real, string) | PairLe(p, q) && PairLe(q, r)
      ensures PairLe(p, r)
    {
      if p.0 == q.0 == r.0 && p.1 != q.1 && q.1 != r.1 {
        LessTransitive(p.1, q.1, r.1);
      }
    }
  }

  /** A seq without repeats has each element at most once in its multiset. */
  lemma {:induction false} DistinctMultiset<T>(s: seq<T>)
    ensures (forall i, j :: 0 <= i < j < |s| ==> s[i] != s[j]) <==> (forall x :: multiset(s)[x] <= 1)
    decreases |s|
  {
    if s != [] {
      var t := s[1..];
      DistinctMultiset(t);
      assert s == [s[0]] + t;
      assert multiset(s) == multiset{s[0]} + multiset(t);
      if forall i, j :: 0 <= i < j < |s| ==> s[i] != s[j] {
        assert forall i, j :: 0 <= i < j < |t| ==> t[i] != t[j] by {
          forall i, j | 0 <= i < j < |t| ensures t[i] != t[j] { assert t[i] == s[i + 1] && t[j] == s[j + 1]; }
        }
        forall j | 0 <= j < |t| ensures t[j] != s[0] {
          assert t[j] == s[j + 1];
        }
      }
      if forall x :: multiset(s)[x] <= 1 {
        assert forall x :: multiset(t)[x] <= 1 by {
          forall x ensures multiset(t)[x] <= 1 { assert multiset(s)[x] >= multiset(t)[x]; }
        }
        assert multiset(t)[s[0]] == 0 by { assert multiset(s)[s[0]] == multiset(t)[s[0]] + 1; }
        forall i, j | 0 <= i < j < |s| ensures s[i] != s[j] {
          if i == 0 {
            assert s[j] == t[j - 1];
            assert s[j] in multiset(t);
          } else {
            assert s[i] == t[i - 1] && s[j] == t[j - 1];
          }
        }
      }
    }
  }

  /**
   `es` lists the entries (value, key) of `m`, each exactly once.
   */
  ghost predicate Entries(m: map<string, real>, es: seq<(real, string)>)
  {
    && (forall i :: 0 <= i < |es| ==> es[i].1 in m && es[i].0 == m[es[i].1])
    && (forall k :: k in m ==> (m[k], k) in es)
    && (forall i, j :: 0 <= i < j < |es| ==> es[i] != es[j])
  }

  lemma KeyEntries(m: map<string, real>, ks: seq<string>, es: seq<(real, string)>)
    requires StrictlyAscending(ks) && forall k :: k in ks <==> k in m
    requires |es| == |ks| && forall j :: 0 <= j < |ks| ==> es[j] == (m[ks[j]], ks[j])
    ensures Entries(m, es)
  {
    StrictlyAscendingDistinct(ks);
    forall k | k in m ensures (m[k], k) in es {
      var p :| 0 <= p < |ks| && ks[p] == k;
      assert es[p] == (m[k], k);
    }
    forall i, j | 0 <= i < j < |es| ensures es[i] != es[j] {
      assert es[i].1 == ks[i] && es[j].1 == ks[j];
    }
  }

  /** A rearrangement of an entry list is an entry list. */
  lemma EntriesPerm(m: map<string, real>, es: seq<(real, string)>, fs: seq<(real, string)>)
    requires Entries(m, es) && multiset(es) == multiset(fs)
    ensures Entries(m, fs)
  {
    DistinctMultiset(es);
    DistinctMultiset(fs);
    forall i | 0 <= i < |fs| ensures fs[i].1 in m && fs[i].0 == m[fs[i].1] {
      assert fs[i] in multiset(es);
    }
    forall k | k in m ensures (m[k], k) in fs {
      assert (m[k], k) in multiset(es);
    }
  }

  /**
   The keys of the first entries of an ascending entry list are distinct
   keys of the map, ascending by (value, key), and at or below every entry
   left out.
   */
  lemma LowestEntries(m: map<string, real>, es: seq<(real, string)>, ks: seq<string>)
    requires Entries(m, es)
    requires forall i, j :: 0 <= i < j < |es| ==> PairLe(es[i], es[j])
    requires |ks| <= |es| && forall j :: 0 <= j < |ks| ==> ks[j] == es[j].1
    ensures forall i :: 0 <= i < |ks| ==> ks[i] in m
    ensures forall i, j :: 0 <= i < j < |ks| ==> ks[i] != ks[j]
    ensures forall i, j :: 0 <= i < j < |ks| ==> PairLess((m[ks[i]], ks[i]), (m[ks[j]], ks[j]))
    ensures forall i, k :: 0 <= i < |ks| && k in m && k !in ks ==> PairLe((m[ks[i]], ks[i]), (m[k], k))
  {
    forall i | 0 <= i < |ks| ensures es[i] == (m[ks[i]], ks[i]) {
    }
    forall i, j | 0 <= i < j < |ks| ensures ks[i] != ks[j] {
      assert es[i] != es[j];
    }
    forall i, j | 0 <= i < j < |ks| ensures PairLess((m[ks[i]], ks[i]), (m[ks[j]], ks[j])) {
      assert es[i] != es[j] && PairLe(es[i], es[j]);
    }
    forall i, k | 0 <= i < |ks| && k in m && k !in ks ensures PairLe((m[ks[i]], ks[i]), (m[k], k)) {
      var q :| 0 <= q < |es| && es[q] == (m[k], k);
      assert es[q].1 == k;
      assert q >= |ks|;
      assert PairLe(es[i], es[q]);
    }
  }

  /**
   The loop filling inv_view_map: the (value, key) pair of every entry of
   `m`, in the map's key order.
   */
  method Inverted(m: map<string, real>) returns (inv: seq<(real, string)>)
    ensures Entries(m, inv) && |inv| == |m|
    ensures forall i, j :: 0 <= i < j < |inv| ==> Less(inv[i].1, inv[j].1)
  {
    var ks := OrderedKeys(m);
    inv := [];
    for i := 0 to |ks|
      invariant |inv| == i
      invariant forall j :: 0 <= j < i ==> inv[j] == (m[ks[j]], ks[j])
    {
      inv := inv + [(m[ks[i]], ks[i])];
    }
    KeyEntries(m, ks, inv);
  }

  /** std::sort of the pairs, ascending by value and then by key. */
  method SortEntries(es: seq<(real, string)>) returns (sorted: seq<(real, string)>)
    ensures multiset(sorted) == multiset(es) && |sorted| == |es|
    ensures forall i, j :: 0 <= i < j < |sorted| ==> PairLe(sorted[i], sorted[j])
  {
    var a := new (real, string)[|es|](j requires 0 <= j < |es| => es[j]);
    assert a[..] == es;
    PairLeTotalPreorder();
    SortPrefix(a, a.Length, PairLe);
    sorted := a[..];
  }

  /** The keys of the first `n` pairs: the loop `results.push_back(inv[i].second)`. */
  method TakeKeys(es: seq<(real, string)>, n: nat) returns (results: seq<string>)
    requires n <= |es|
    ensures |results| == n
    ensures forall j :: 0 <= j < n ==> results[j] == es[j].1
  {
    results := [];
    for i := 0 to n
      invariant |results| == i
      invariant forall j :: 0 <= j < i ==> results[j] == es[j].1
    {
      results := results + [es[i].1];
    }
  }

  /**
   A statistics view: the reducer it is built with, and the value for each
   group key.
   */
  class StatView {
    var view: map<string, real>
    const sm: StatMethod

    /** An empty view that will be populated with reducer `sm`. */
    constructor (sm: StatMethod)
      ensures view == map[] && this.sm == sm
    {
      view := map[];
      this.sm := sm;
    }

    /** The reducer the view was built with. */
    function GetSm(): (m: StatMethod)
      ensures m == sm
    {
      sm
    }

    /** Reading `view[s]`: a missing key is first inserted with value 0.0. */
    method At(s: string) returns (v: real)
      modifies this
      ensures view == if s in old(view) then old(view) else old(view)[s := 0.0]
      ensures v == Get0(old(view), s) && v == view[s]
    {
      if s !in view {
        view := view[s := 0.0];
      }
      v := view[s];
    }

    /** Writing `view[s] = x` through the reference operator[] returns. */
    method Set(s: string, x: real)
      modifies this
      ensures view == old(view)[s := x]
    {
      view := view[s := x];
    }

    /**
     The keys of `other`, ascending, whose value here is strictly greater
     than in `other`; each of them missing here is inserted with 0.0.
     */
    method Gt(other: StatView) returns (results: seq<string>)
      modifies this
      ensures view.Keys == old(view).Keys + old(other.view).Keys
      ensures forall k :: k in view ==> view[k] == Get0(old(view), k)
      ensures GreaterKeys(old(view), old(other.view), results)
    {
      ghost var mine := view;
      var theirs := other.view;
      var ks := OrderedKeys(theirs);
      results := [];
      for i := 0 to |ks|
        invariant forall k :: k in view <==> k in mine || k in ks[..i]
        invariant forall k :: k in view ==> view[k] == Get0(mine, k)
        invariant results == Above(mine, theirs, ks[..i])
      {
        var k := ks[i];
        var v := At(k);
        AboveStep(mine, theirs, ks, i);
        if v > theirs[k] {
          results := results + [k];
        }
        PrefixStep(ks, i);
      }
      WholePrefix(ks);
      AboveSpec(mine, theirs, ks);
    }

    /**
     The `n` keys with the lowest values; ties in value go to the smaller
     key.  The (value, key) pairs are collected in key order, sorted, and
     the keys of the first `n` taken.
     */
    method BottomN(n: int) returns (results: seq<string>)
      requires n <= |view|
      ensures |results| == if n < 0 then 0 else n
      ensures forall i :: 0 <= i < |results| ==> results[i] in view
      ensures forall i, j :: 0 <= i < j < |results| ==> results[i] != results[j]
      ensures forall i, j :: 0 <= i < j < |results| ==>
                PairLess((view[results[i]], results[i]), (view[results[j]], results[j]))
      ensures forall i, k :: 0 <= i < |results| && k in view && k !in results ==>
                PairLe((view[results[i]], results[i]), (view[k], k))
    {
      var vw := view;
      var inv := Inverted(vw);
      var sorted := SortEntries(inv);
      EntriesPerm(vw, inv, sorted);
      results := TakeKeys(sorted, if n < 0 then 0 else n);
      LowestEntries(vw, sorted, results);
    }
  }
}
