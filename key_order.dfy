/**
 The ordering of std::string keys (lexicographic, character by character,
 a proper prefix before its extensions) and the ascending order in which a
 std::map hands out its keys.
 */
module KeyOrder {

  /** Lexicographic "strictly less than" on strings. */
  predicate Less(a: string, b: string)
    ensures a < b ==> Less(a, b)
    ensures Less(a, b) ==> |b| > 0
    decreases |a|
  {
    if |a| == 0 then |b| > 0
    else |b| > 0 && (a[0] < b[0] || (a[0] == b[0] && Less(a[1..], b[1..])))
  }

  lemma LessIrreflexive(a: string)
    ensures !Less(a, a)
    decreases |a|
  {
    if |a| > 0 { LessIrreflexive(a[1..]); }
  }

  lemma LessTransitive(a: string, b: string, c: string)
    requires Less(a, b) && Less(b, c)
    ensures Less(a, c)
    decreases |a|
  {
    if |a| > 0 && a[0] == b[0] && b[0] == c[0] {
      LessTransitive(a[1..], b[1..], c[1..]);
    }
  }

  lemma LessTotal(a: string, b: string)
    ensures a == b || Less(a, b) || Less(b, a)
    decreases |a|
  {
    if |a| > 0 && |b| > 0 && a[0] == b[0] {
      LessTotal(a[1..], b[1..]);
      if a[1..] == b[1..] {
        assert a == [a[0]] + a[1..] && b == [b[0]] + b[1..];
      }
    }
  }

  /** Every pair of positions of `ks` is in strictly ascending order. */
  ghost predicate StrictlyAscending(ks: seq<string>)
  {
    forall i, j :: 0 <= i < j < |ks| ==> Less(ks[i], ks[j])
  }

  lemma StrictlyAscendingDistinct(ks: seq<string>)
    requires StrictlyAscending(ks)
    ensures forall i, j :: 0 <= i < j < |ks| ==> ks[i] != ks[j]
  {
    forall i, j | 0 <= i < j < |ks| ensures ks[i] != ks[j] {
      LessIrreflexive(ks[i]);
    }
  }

  predicate IsLeast(m: string, s: set<string>)
  {
    m in s && forall y :: y in s ==> !Less(y, m)
  }

  lemma {:induction false} LeastExists(s: set<string>)
    requires s != {}
    ensures exists m :: IsLeast(m, s)
    decreases |s|
  {
    var x :| x in s;
    if s == {x} {
      LessIrreflexive(x);
      assert IsLeast(x, s);
    } else {
      LeastExists(s - {x});
      var m :| IsLeast(m, s - {x});
      if Less(x, m) {
        forall y | y in s ensures !Less(y, x) {
          if y == x {
            LessIrreflexive(x);
          } else if Less(y, x) {
            LessTransitive(y, x, m);
          }
        }
        assert IsLeast(x, s);
      } else {
        assert IsLeast(m, s);
      }
    }
  }

  /** A non-empty sequence holds its first element. */
  lemma HeadIn(s: seq<string>)
    ensures s != [] ==> s[0] in s
  {
  }

  /**
   Two strictly ascending sequences with the same elements are equal, so
   "strictly ascending, with exactly the keys of the map" fixes the order
   in which a std::map is visited.
   */
  lemma {:induction false} AscendingUnique(a: seq<string>, b: seq<string>)
    requires StrictlyAscending(a) && StrictlyAscending(b)
    requires forall k :: k in a <==> k in b
    ensures a == b
    decreases |a|
  {
    if a == [] {
      HeadIn(b);
    } else {
      assert a[0] in b;
      assert b[0] in a;
      if a[0] != b[0] {
        var i :| 0 <= i < |b| && b[i] == a[0];
        var j :| 0 <= j < |a| && a[j] == b[0];
        assert Less(b[0], a[0]) && Less(a[0], b[0]);
        LessTransitive(a[0], b[0], a[0]);
        LessIrreflexive(a[0]);
      } else {
        forall k ensures k in a[1..] <==> k in b[1..] {
          if k in a[1..] {
            var i :| 1 <= i < |a| && a[i] == k;
            assert Less(a[0], k);
            LessIrreflexive(k);
            assert k in a && k in b;
            var j :| 0 <= j < |b| && b[j] == k;
            assert j != 0 && b[1..][j - 1] == k;
          }
          if k in b[1..] {
            var i :| 1 <= i < |b| && b[i] == k;
            assert Less(b[0], k);
            LessIrreflexive(k);
            assert k in b && k in a;
            var j :| 0 <= j < |a| && a[j] == k;
            assert j != 0 && a[1..][j - 1] == k;
          }
        }
        AscendingUnique(a[1..], b[1..]);
        assert a == [a[0]] + a[1..] && b == [b[0]] + b[1..];
      }
    }
  }

  /**
   Iteration over a std::map: the keys of `m` one at a time, least first.
   */
  method OrderedKeys<V>(m: map<string, V>) returns (ks: seq<string>)
    ensures StrictlyAscending(ks) && |ks| == |m|
    ensures forall k :: k in ks <==> k in m
  {
    ks := [];
    var todo := m.Keys;
    while todo != {}
      invariant todo <= m.Keys
      invariant forall k :: k in ks <==> k in m && k !in todo
      invariant StrictlyAscending(ks)
      invariant forall i, y :: 0 <= i < |ks| && y in todo ==> Less(ks[i], y)
      invariant |ks| + |todo| == |m|
      decreases |todo|
    {
      LeastExists(todo);
      var k :| IsLeast(k, todo);
      forall y | y in todo - {k} ensures Less(k, y) {
        LessTotal(k, y);
      }
      ks := ks + [k];
      todo := todo - {k};
    }
  }
}
