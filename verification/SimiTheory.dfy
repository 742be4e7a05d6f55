/** What set_found_in and set_jaccard compute, in terms of multisets. */
module SimiTheory {
  import opened RbTree
  import opened Simi

  /** The number of elements of `m` whose key lies in `s`. */
  ghost function SumOver(s: set<Key>, m: multiset<Key>): nat {
    if s == {} then 0 else var k :| k in s; m[k] + SumOver(s - {k}, m)
  }

  lemma {:induction false} SumOverAgree(s: set<Key>, m: multiset<Key>, n: multiset<Key>)
    requires forall k :: k in s ==> m[k] <= n[k]
    ensures SumOver(s, m) <= SumOver(s, n)
    ensures SumOver(s, m) == SumOver(s, n) <==> forall k :: k in s ==> m[k] == n[k]
  {
    if s != {} {
      var k :| k in s && SumOver(s, m) == m[k] + SumOver(s - {k}, m) && SumOver(s, n) == n[k] + SumOver(s - {k}, n);
      SumOverAgree(s - {k}, m, n);
    }
  }

  lemma {:induction false} SumOverAdd(s: set<Key>, m: multiset<Key>, n: multiset<Key>)
    ensures SumOver(s, m + n) == SumOver(s, m) + SumOver(s, n)
  {
    if s != {} {
      var k :| k in s
        && SumOver(s, m) == m[k] + SumOver(s - {k}, m)
        && SumOver(s, n) == n[k] + SumOver(s - {k}, n)
        && SumOver(s, m + n) == (m + n)[k] + SumOver(s - {k}, m + n);
      SumOverAdd(s - {k}, m, n);
    }
  }

  /** Counting all keys of a multiset gives its size. */
  lemma {:induction false} SumOverAll(s: set<Key>, m: multiset<Key>)
    requires forall k :: k in m ==> k in s
    ensures SumOver(s, m) == |m|
  {
    if s == {} {
      assert m == multiset{};
    } else {
      var k :| k in s && SumOver(s, m) == m[k] + SumOver(s - {k}, m);
      var rest := m[k := 0];
      SumOverAgree(s - {k}, rest, m);
      SumOverAll(s - {k}, rest);
    }
  }

  lemma {:induction false} SumOverOne(s: set<Key>, v: Key)
    ensures SumOver(s, multiset{v}) == if v in s then 1 else 0
  {
    if s != {} {
      var k :| k in s && SumOver(s, multiset{v}) == multiset{v}[k] + SumOver(s - {k}, multiset{v});
      SumOverOne(s - {k}, v);
    }
  }

  /** set_found_in(a, b) is the sum, over the keys present in b, of their multiplicities in a. */
  lemma {:induction false} FoundInIsSum(a: seq<Key>, s: set<Key>)
    ensures CountIn(a, s) == SumOver(s, multiset(a))
  {
    if a == [] {
      SumOverAgree(s, multiset{}, multiset(a));
      SumOverEmpty(s);
    } else {
      var init, last := a[..|a| - 1], a[|a| - 1];
      FoundInIsSum(init, s);
      assert a == init + [last];
      assert multiset(a) == multiset(init) + multiset{last};
      SumOverAdd(s, multiset(init), multiset{last});
      SumOverOne(s, last);
    }
  }

  lemma {:induction false} SumOverEmpty(s: set<Key>)
    ensures SumOver(s, multiset{}) == 0
  {
    if s != {} {
      var k :| k in s && SumOver(s, multiset{}) == multiset{}[k] + SumOver(s - {k}, multiset{});
      SumOverEmpty(s - {k});
    }
  }

  // ---------- set_found_in ----------

  /** set_found_in is additive in its first argument, bounded by its size, and sees of its second argument
      only which keys occur there. */
  lemma FoundInLaws(a: seq<Key>, a': seq<Key>, u: seq<Key>, b: seq<Key>, b': seq<Key>)
    requires multiset(u) == multiset(a) + multiset(a')
    requires forall k :: k in b <==> k in b'
    ensures CountIn(u, Support(b)) == CountIn(a, Support(b)) + CountIn(a', Support(b))
    ensures CountIn(a, Support(b)) == CountIn(a, Support(b')) <= |a|
    ensures CountIn(a, Support(b)) == |a| <==> forall k :: k in a ==> k in b
  {
    FoundInIsSum(u, Support(b));
    FoundInIsSum(a, Support(b));
    FoundInIsSum(a', Support(b));
    SumOverAdd(Support(b), multiset(a), multiset(a'));
    assert Support(b) == Support(b');
    CountInFull(a, Support(b));
  }

  lemma {:induction false} CountInFull(a: seq<Key>, s: set<Key>)
    ensures CountIn(a, s) == |a| <==> forall k :: k in a ==> k in s
  {
    if a != [] {
      var init, last := a[..|a| - 1], a[|a| - 1];
      assert a == init + [last];
      CountInFull(init, s);
    }
  }

  lemma {:induction false} CountInNone(a: seq<Key>, s: set<Key>)
    ensures CountIn(a, s) == 0 <==> forall k :: k in a ==> k !in s
  {
    if a != [] {
      var init, last := a[..|a| - 1], a[|a| - 1];
      assert a == init + [last];
      CountInNone(init, s);
    }
  }

  // ---------- set_jaccard ----------

  /** The Jaccard index of two multisets: the size of the intersection over the size of the union. */
  ghost function MultisetJaccard(a: multiset<Key>, b: multiset<Key>): Double {
    assert a == (a * b) + (a - b) && b == (a * b) + (b - a);
    Divide(|a * b|, |a| + |b| - |a * b|)
  }

  lemma RealQuotientsEqual(x: real, y: real, z: real, w: real)
    requires y > 0.0 && w > 0.0
    ensures x / y == z / w <==> x * w == z * y
  {
    var p, q := x / y, z / w;
    assert x == p * y && z == q * w;
    assert x * w - z * y == (p - q) * (y * w);
    assert y * w > 0.0;
  }

  lemma QuotientsEqual(x: int, y: int, z: int, w: int)
    requires y > 0 && w > 0
    ensures x as real / y as real == z as real / w as real <==> x * w == z * y
  {
    RealQuotientsEqual(x as real, y as real, z as real, w as real);
    assert (x * w) as real == x as real * w as real;
    assert (z * y) as real == z as real * y as real;
  }

  /** The three counts behind the index, and how they compare with the true intersection. */
  lemma JaccardCounts(a: seq<Key>, b: seq<Key>)
    ensures var p, q := CountIn(a, Support(b)), CountIn(b, Support(a));
            var m := |multiset(a) * multiset(b)|;
            && m <= p <= |a| && m <= q <= |b|
            && (p == m <==> forall k :: k in a && k in b ==> multiset(a)[k] <= multiset(b)[k])
            && (q == m <==> forall k :: k in a && k in b ==> multiset(b)[k] <= multiset(a)[k])
            && (p == |a| <==> forall k :: k in a ==> k in b)
            && (q == |b| <==> forall k :: k in b ==> k in a)
            && (p == 0 <==> q == 0)
            && (|b| > 0 && |a| == 0 ==> q == 0)
  {
    JaccardHalf(a, b);
    JaccardHalf(b, a);
    assert multiset(a) * multiset(b) == multiset(b) * multiset(a);
    CountInFull(a, Support(b));
    CountInFull(b, Support(a));
    CountInNone(a, Support(b));
    CountInNone(b, Support(a));
  }

  lemma JaccardHalf(a: seq<Key>, b: seq<Key>)
    ensures var p, m := CountIn(a, Support(b)), |multiset(a) * multiset(b)|;
            m <= p && (p == m <==> forall k :: k in a && k in b ==> multiset(a)[k] <= multiset(b)[k])
  {
    var both := multiset(a) * multiset(b);
    FoundInIsSum(a, Support(b));
    SumOverAll(Support(b), both);
    SumOverAgree(Support(b), both, multiset(a));
    forall k
      ensures both[k] == if multiset(a)[k] <= multiset(b)[k] then multiset(a)[k] else multiset(b)[k]
    {
    }
  }

  /** set_jaccard(a, b) is the number of elements of a that are found in b, over that number, the elements of a
      that are not found in b and the elements of b that are not found in a. */
  lemma JaccardIs(a: seq<Key>, b: seq<Key>)
    requires a != [] || b != []
    ensures var found, missing := SumOver(Support(b), multiset(a)), |b| - SumOver(Support(a), multiset(b));
            && |a| + missing > 0
            && JaccardOf(a, b) == Number(found as real / (|a| + missing) as real)
  {
    JaccardCounts(a, b);
    FoundInIsSum(a, Support(b));
    FoundInIsSum(b, Support(a));
  }

  /** set_jaccard is a number unless both sets are empty; it then lies in [0, 1], and is 1 exactly when the
      two sets hold the same keys, however often. */
  lemma JaccardRange(a: seq<Key>, b: seq<Key>)
    ensures JaccardOf(a, b) == NotANumber <==> a == [] && b == []
    ensures JaccardOf(a, b).Number? ==> 0.0 <= JaccardOf(a, b).value <= 1.0
    ensures JaccardOf(a, b) == Number(1.0) <==>
              !(a == [] && b == []) && forall k :: k in a <==> k in b
  {
    JaccardCounts(a, b);
    var p, q := CountIn(a, Support(b)), CountIn(b, Support(a));
    if a != [] || b != [] {
      QuotientsEqual(p, |a| + |b| - q, 1, 1);
      QuotientBounds(p, |a| + |b| - q);
    }
  }

  lemma QuotientBounds(x: int, y: int)
    requires 0 <= x <= y && y > 0
    ensures 0.0 <= x as real / y as real <= 1.0
  {
  }

  /** set_jaccard(a, b) == set_jaccard(b, a) exactly when as many elements of a are found in b as elements
      of b in a, or both sets hold the same keys. */
  lemma JaccardSymmetric(a: seq<Key>, b: seq<Key>)
    ensures JaccardOf(a, b) == JaccardOf(b, a) <==>
              CountIn(a, Support(b)) == CountIn(b, Support(a)) || forall k :: k in a <==> k in b
  {
    JaccardCounts(a, b);
    var p, q := CountIn(a, Support(b)), CountIn(b, Support(a));
    var t := |a| + |b|;
    if t > 0 {
      QuotientsEqual(p, t - q, q, t - p);
      CrossDifference(p, q, t);
    }
  }

  lemma CrossDifference(p: int, q: int, t: int)
    ensures p * (t - p) == q * (t - q) <==> p == q || p + q == t
  {
    assert p * (t - p) - q * (t - q) == (p - q) * (t - p - q);
  }

  /** The documented meaning |A n B| / |A u B| holds exactly when every key that both sets share occurs
      equally often in both. */
  lemma JaccardIsIntersectionOverUnion(a: seq<Key>, b: seq<Key>)
    ensures JaccardOf(a, b) == MultisetJaccard(multiset(a), multiset(b)) <==>
              forall k :: k in a && k in b ==> multiset(a)[k] == multiset(b)[k]
  {
    JaccardCounts(a, b);
    var p, q := CountIn(a, Support(b)), CountIn(b, Support(a));
    var m := |multiset(a) * multiset(b)|;
    var t := |a| + |b|;
    if t > 0 {
      QuotientsEqual(p, t - q, m, t - m);
      CrossEqual(p, q, m, t);
    }
  }

  lemma CrossEqual(p: int, q: int, m: int, t: int)
    requires 0 <= m <= p && m <= q < t && m < t && (p == 0 <==> q == 0)
    ensures p * (t - m) == m * (t - q) <==> p == m && q == m
  {
    if p * (t - m) == m * (t - q) {
      assert p * (t - m) >= m * (t - m) by {
        assert (p - m) * (t - m) >= 0;
      }
      assert m * (t - m) >= m * (t - q) by {
        assert m * (q - m) >= 0;
      }
      assert (p - m) * (t - m) == 0;
      assert m * (q - m) == 0;
    }
  }

  /** The documented value fails for {1, 2, 2} and {2}: the code yields 2/3, the multisets 1/3; exchanging the
      sets, it yields 1/2. */
  lemma JaccardCounterexample()
    ensures JaccardOf([1, 2, 2], [2]) == Number(2.0 / 3.0)
    ensures MultisetJaccard(multiset([1, 2, 2]), multiset([2])) == Number(1.0 / 3.0)
    ensures JaccardOf([2], [1, 2, 2]) == Number(1.0 / 2.0)
  {
    var a, b := [1, 2, 2], [2];
    assert 2 in a && 2 in b && 1 !in b;
    assert a[..2] == [1, 2] && a[..2][..1] == [1];
    assert CountIn([1], Support(b)) == 0 && CountIn([1, 2], Support(b)) == 1;
    assert CountIn(a, Support(b)) == 2;
    assert b[..0] == [] && CountIn(b, Support(a)) == 1;
    assert multiset(a) * multiset(b) == multiset{2} by {
      assert multiset(a) == multiset{1, 2, 2} && multiset(b) == multiset{2};
    }
  }
}
