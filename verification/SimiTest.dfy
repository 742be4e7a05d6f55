/** jni/simi_test.c: sets built from arrays and compared, end to end. */
module SimiTest {
  import opened RbTree
  import opened Simi
  import opened SimiTheory

  /** The loop that adds every element of an array to a new set. */
  method FromArray(data: seq<Key>) returns (s: Set)
    ensures s.Valid() && fresh(s.Repr()) && s.Bag() == multiset(data)
  {
    hide Set.Valid, Set.Bag;
    s := new Set();
    for i := 0 to |data|
      invariant s.Valid() && fresh(s.Repr())
      invariant s.Bag() == multiset(data[..i])
    {
      AddKey(s, data[i]);
      assert data[..i + 1] == data[..i] + [data[i]];
    }
    assert data[..|data|] == data;
  }

  /** What is printed about two arrays: their Jaccard index and how many elements of the first are found in
      the second.  Neither depends on the order of insertion or on how the trees were balanced. */
  method Compare(a: seq<Key>, b: seq<Key>) returns (j: Double, common: int, printedA: seq<Key>, printedB: seq<Key>)
    ensures j == JaccardOf(a, b) && common == CountIn(a, Support(b))
    ensures Sorted(printedA) && multiset(printedA) == multiset(a)
    ensures Sorted(printedB) && multiset(printedB) == multiset(b)
  {
    hide JaccardOf, CountIn, Support, RbWalk.EachEdgeTwice, RbWalk.TotalLength, RbTree.Tree.Valid;
    var sa := FromArray(a);
    var sb := FromArray(b);
    ghost var crossed;
    printedA, crossed := sa.Print();
    printedB, crossed := sb.Print();
    j := sa.Jaccard(sb);
    common := sa.FoundIn(sb);
    SameBags(sa.Elements(), a, sb.Elements(), b);
    ghost var released := sa.Free();
    released := sb.Free();
  }

  lemma SameBags(a: seq<Key>, a': seq<Key>, b: seq<Key>, b': seq<Key>)
    requires multiset(a) == multiset(a') && multiset(b) == multiset(b')
    ensures CountIn(a, Support(b)) == CountIn(a', Support(b')) && JaccardOf(a, b) == JaccardOf(a', b')
  {
    SameSupport(a, a');
    SameSupport(b, b');
    FoundInIsSum(a, Support(b));
    FoundInIsSum(a', Support(b));
    FoundInIsSum(b, Support(a));
    FoundInIsSum(b', Support(a));
    assert |multiset(a)| == |a| && |multiset(a')| == |a'|;
    assert |multiset(b)| == |b| && |multiset(b')| == |b'|;
  }

  lemma SameSupport(a: seq<Key>, a': seq<Key>)
    requires multiset(a) == multiset(a')
    ensures Support(a) == Support(a')
  {
    forall k
      ensures k in a <==> k in a'
    {
      assert k in multiset(a) <==> k in multiset(a');
    }
  }

  /** The examples that jni/simi.h gives for its two functions. */
  lemma DocumentedExamples(a: Key, b: Key, c: Key)
    requires a != b && b != c && a != c
    ensures CountIn([a, b, b, c], Support([b, b])) == 2
    ensures CountIn([a, a, a, a], Support([a])) == 4
    ensures JaccardOf([a, b, b], [b, b, c]) == Number(0.5)
  {
    var s := Support([b, b]);
    assert b in s && a !in s && c !in s;
    assert [a, b, b, c][..3] == [a, b, b] && [a, b, b][..2] == [a, b] && [a, b][..1] == [a];
    assert CountIn([a], s) == 0 && CountIn([a, b], s) == 1 && CountIn([a, b, b], s) == 2;
    CountInFull([a, a, a, a], Support([a]));
    var l, r := [a, b, b], [b, b, c];
    assert b in Support(r) && a !in Support(r);
    assert CountIn([a], Support(r)) == 0 && CountIn([a, b], Support(r)) == 1 && CountIn(l, Support(r)) == 2;
    assert b in Support(l) && c !in Support(l);
    assert r[..2] == [b, b] && [b, b][..1] == [b];
    assert CountIn([b], Support(l)) == 1 && CountIn([b, b], Support(l)) == 2 && CountIn(r, Support(l)) == 2;
  }
}
