/** How the numbers that the reports of jni/setcmp.c print are related. */
module SetCmpTheory {
  import opened RbTree
  import opened Simi
  import opened SimiTheory
  import opened Pagemap
  import opened SetCmp
  import PageHash

  /** zero_page_hash is the hash of an all-zero page. */
  lemma ZeroPageHashIs()
    ensures HashKey(PageHash.Zeros(4096)) == ZERO_PAGE_HASH
  {
    PageHash.ZerosHashToZero(4096);
  }

  // ---------- counting and unions ----------

  lemma {:induction false} CountInUnion(keys: seq<Key>, s: set<Key>, t: set<Key>)
    ensures CountIn(keys, s) <= CountIn(keys, s + t) <= CountIn(keys, s) + CountIn(keys, t)
  {
    if keys != [] {
      CountInUnion(keys[..|keys| - 1], s, t);
    }
  }

  lemma {:induction false} SumOverSet(s: set<Key>, t: set<Key>)
    ensures SumOver(s, multiset(t)) == |s * t|
  {
    if s != {} {
      var k :| k in s && SumOver(s, multiset(t)) == multiset(t)[k] + SumOver(s - {k}, multiset(t));
      SumOverSet(s - {k}, t);
      if k in t {
        assert s * t == (s - {k}) * t + {k};
      } else {
        assert s * t == (s - {k}) * t;
      }
    }
  }

  // ---------- print_inter_simi against print_simi_matrix ----------

  /** The sum of row i of the matrix up to column n. */
  ghost function RowSum(cands: seq<multiset<Key>>, fulls: seq<multiset<Key>>, i: nat, n: nat): int
    requires i < |cands| && n <= |fulls|
  {
    if n == 0 then 0 else RowSum(cands, fulls, i, n - 1) + EntryOf(cands, fulls, i, n - 1)
  }

  /** The keys found in the first n multisets other than number i. */
  ghost function OthersUpTo(bags: seq<multiset<Key>>, i: int, n: nat): set<Key>
    requires n <= |bags|
  {
    if n == 0 then {}
    else OthersUpTo(bags, i, n - 1) + if n - 1 == i then {} else Domain(bags[n - 1])
  }

  lemma {:induction false} OthersUpToIs(bags: seq<multiset<Key>>, i: int, n: nat)
    requires n <= |bags|
    ensures forall k :: k in OthersUpTo(bags, i, n) <==> exists j :: 0 <= j < n && j != i && k in bags[j]
  {
    if n > 0 {
      OthersUpToIs(bags, i, n - 1);
    }
  }

  lemma OthersUpToAll(bags: seq<multiset<Key>>, i: int)
    ensures OthersUpTo(bags, i, |bags|) == Others(bags, i)
  {
    OthersUpToIs(bags, i, |bags|);
  }

  /** One more column: the keys it adds are found at most as often as the matrix entry says. */
  lemma InterNextColumn(cand: seq<Key>, cands: seq<multiset<Key>>, fulls: seq<multiset<Key>>, i: nat, n: nat)
    requires i < |cands| && n < |fulls| && cands[i] == multiset(cand)
    ensures CountIn(cand, OthersUpTo(fulls, i, n + 1)) <=
            CountIn(cand, OthersUpTo(fulls, i, n)) + EntryOf(cands, fulls, i, n)
  {
    var before := OthersUpTo(fulls, i, n);
    if n == i {
      assert before + {} == before;
    } else {
      FoundInIsSum(cand, Domain(fulls[n]));
      CountInUnion(cand, before, Domain(fulls[n]));
    }
  }

  lemma {:induction false} InterBelowSum(cand: seq<Key>, cands: seq<multiset<Key>>, fulls: seq<multiset<Key>>,
                                         i: nat, n: nat)
    requires i < |cands| && n <= |fulls| && cands[i] == multiset(cand)
    ensures CountIn(cand, OthersUpTo(fulls, i, n)) <= RowSum(cands, fulls, i, n)
  {
    if n == 0 {
      CountInNone(cand, {});
    } else {
      InterBelowSum(cand, cands, fulls, i, n - 1);
      InterNextColumn(cand, cands, fulls, i, n - 1);
    }
  }

  lemma EntryBelowInter(cand: seq<Key>, cands: seq<multiset<Key>>, fulls: seq<multiset<Key>>, i: nat, j: nat)
    requires i < |cands| && j < |fulls| && cands[i] == multiset(cand)
    ensures EntryOf(cands, fulls, i, j) <= CountIn(cand, Others(fulls, i))
  {
    if i != j {
      FoundInIsSum(cand, Domain(fulls[j]));
      CountInUnion(cand, Domain(fulls[j]), Others(fulls, i));
      assert Domain(fulls[j]) + Others(fulls, i) == Others(fulls, i);
    }
  }

  /** The inter-process count of a process lies between the maximum and the sum of its matrix row. */
  lemma InterBetweenMaxAndSum(procs: seq<Process>, i: nat)
    requires i < |procs|
    ensures forall j :: 0 <= j < |procs| ==> MatrixOf(procs, i, j) <= InterOf(procs, i)
    ensures InterOf(procs, i) <= RowSum(CandidateBags(procs), FullBags(procs), i, |procs|)
  {
    var cand, cands, fulls := Candidates(procs[i]), CandidateBags(procs), FullBags(procs);
    forall j | 0 <= j < |procs|
      ensures MatrixOf(procs, i, j) <= InterOf(procs, i)
    {
      EntryBelowInter(cand, cands, fulls, i, j);
    }
    OthersUpToAll(fulls, i);
    InterBelowSum(cand, cands, fulls, i, |procs|);
  }

  // ---------- print_total_dup against print_inter_simi ----------

  lemma {:induction false} CandidatesAreFull(pages: seq<Page>)
    ensures forall k :: k in Hashes(pages, true) ==> k in Hashes(pages, false)
  {
    if pages != [] {
      CandidatesAreFull(pages[..|pages| - 1]);
    }
  }

  /** The total-duplication count is the number of distinct candidate hashes that some other process has among
      its candidates. */
  lemma TotalIsIntersection(procs: seq<Process>, i: nat)
    requires i < |procs|
    ensures TotalOf(UniqueBags(procs), i) == |Others(UniqueBags(procs), i) * Support(Candidates(procs[i]))|
  {
    SumOverSet(Others(UniqueBags(procs), i), Support(Candidates(procs[i])));
  }

  /** It never exceeds the inter-process count, which sees every candidate page and all pages of the others. */
  lemma TotalBelowInter(procs: seq<Process>, i: nat)
    requires i < |procs|
    ensures TotalOf(UniqueBags(procs), i) <= InterOf(procs, i)
  {
    var cand := Candidates(procs[i]);
    var unique, full := Others(UniqueBags(procs), i), Others(FullBags(procs), i);
    forall k | k in unique
      ensures k in full
    {
      var j :| 0 <= j < |procs| && j != i && k in UniqueBags(procs)[j];
      CandidatesAreFull(Flatten(procs[j]));
      assert k in FullBags(procs)[j];
    }
    SumOverAgree(unique, multiset(Support(cand)), multiset(cand));
    FoundInIsSum(cand, unique);
    CountInUnion(cand, unique, full);
    assert unique + full == full;
  }

  /** For two processes the total-duplication counts agree. */
  lemma TotalOfTwo(procs: seq<Process>)
    requires |procs| == 2
    ensures TotalOf(UniqueBags(procs), 0) == TotalOf(UniqueBags(procs), 1)
  {
    var bags := UniqueBags(procs);
    var a, b := Support(Candidates(procs[0])), Support(Candidates(procs[1]));
    TotalOfPair(bags, a, b);
  }

  lemma TotalOfPair(bags: seq<multiset<Key>>, a: set<Key>, b: set<Key>)
    requires bags == [multiset(a), multiset(b)]
    ensures TotalOf(bags, 0) == TotalOf(bags, 1) == |a * b|
  {
    OtherOfTwo(bags, 0);
    OtherOfTwo(bags, 1);
    DomainOfSet(a);
    DomainOfSet(b);
    SumOverSet(b, a);
    SumOverSet(a, b);
    assert a * b == b * a;
  }

  lemma DomainOfSet(s: set<Key>)
    ensures Domain(multiset(s)) == s
  {
  }

  lemma OtherOfTwo(bags: seq<multiset<Key>>, i: nat)
    requires |bags| == 2 && i < 2
    ensures Others(bags, i) == Domain(bags[1 - i])
  {
  }

  // ---------- print_intra_simi ----------

  /** The nonzero pages that are shared. */
  function SharedCount(pages: seq<Page>): nat {
    if pages == [] then 0
    else
      var init, last := pages[..|pages| - 1], pages[|pages| - 1];
      SharedCount(init) + (if last.hash != ZERO_PAGE_HASH && last.share > 1 then 1 else 0)
  }

  lemma {:induction false} FullSplits(pages: seq<Page>)
    ensures |Hashes(pages, false)| == |Hashes(pages, true)| + SharedCount(pages)
  {
    if pages != [] {
      FullSplits(pages[..|pages| - 1]);
    }
  }

  /** Over the distinct keys of a multiset, the sum of their multiplicities less one. */
  ghost function Repeats(m: multiset<Key>): nat {
    SumOver(Domain(m), m - multiset(Domain(m)))
  }

  lemma RepeatsIs(m: multiset<Key>)
    ensures Repeats(m) == |m| - |Domain(m)|
    ensures forall k :: k in m ==> (m - multiset(Domain(m)))[k] == m[k] - 1
  {
    var s := Domain(m);
    assert m == (m - multiset(s)) + multiset(s);
    SumOverAdd(s, m - multiset(s), multiset(s));
    SumOverSet(s, s);
    assert s * s == s;
    SumOverAll(s, m);
  }

  /** The intra-process number is the number of shared nonzero pages plus, over the distinct candidate hashes,
      how often each repeats; it is never negative. */
  lemma IntraIs(p: Process)
    ensures IntraOf(p) == SharedCount(Flatten(p)) + Repeats(multiset(Candidates(p)))
    ensures IntraOf(p) >= 0
  {
    var cand := Candidates(p);
    FullSplits(Flatten(p));
    RepeatsIs(multiset(cand));
    assert Domain(multiset(cand)) == Support(cand);
  }

  // ---------- independence of the order of pages and regions ----------

  lemma {:induction false} HashesOfPermutation(a: seq<Page>, b: seq<Page>, candidatesOnly: bool)
    requires multiset(a) == multiset(b)
    ensures multiset(Hashes(a, candidatesOnly)) == multiset(Hashes(b, candidatesOnly))
    decreases |a|
  {
    if a == [] {
      assert |multiset(b)| == 0;
      assert b == [];
    } else {
      var init, last := a[..|a| - 1], a[|a| - 1];
      assert a == init + [last];
      assert last in multiset(b);
      var i :| 0 <= i < |b| && b[i] == last;
      var l, r := b[..i], b[i + 1..];
      TakeOut(b, i);
      assert multiset(a) == multiset(init) + multiset{last};
      assert multiset(init) == multiset(a) - multiset{last} == multiset(l + r);
      HashesOfPermutation(init, l + r, candidatesOnly);
      HashesTakeOut(b, i, candidatesOnly);
      HashesAppend(init, [last], candidatesOnly);
      assert Hashes([last], candidatesOnly) == HashOrNone(last, candidatesOnly) by {
        assert [last][..0] == [];
      }
    }
  }

  lemma TakeOut(b: seq<Page>, i: nat)
    requires i < |b|
    ensures multiset(b) == multiset(b[..i] + b[i + 1..]) + multiset{b[i]}
  {
    assert b == b[..i] + [b[i]] + b[i + 1..];
  }

  lemma HashesTakeOut(b: seq<Page>, i: nat, candidatesOnly: bool)
    requires i < |b|
    ensures multiset(Hashes(b, candidatesOnly)) ==
            multiset(Hashes(b[..i] + b[i + 1..], candidatesOnly)) + multiset(HashOrNone(b[i], candidatesOnly))
  {
    HashesAround(b, i, candidatesOnly);
    HashesAppend(b[..i], b[i + 1..], candidatesOnly);
  }

  lemma HashesAround(b: seq<Page>, i: nat, candidatesOnly: bool)
    requires i < |b|
    ensures Hashes(b, candidatesOnly) ==
            Hashes(b[..i], candidatesOnly) + HashOrNone(b[i], candidatesOnly) + Hashes(b[i + 1..], candidatesOnly)
  {
    HashesNext(b, i, candidatesOnly);
    assert b == b[..i + 1] + b[i + 1..];
    HashesAppend(b[..i + 1], b[i + 1..], candidatesOnly);
  }

  /** The unique set of a process, and its intra-process number, depend only on which pages it has. */
  lemma OrderDoesNotMatter(p: Process, q: Process)
    requires multiset(Flatten(p)) == multiset(Flatten(q))
    ensures Support(Candidates(p)) == Support(Candidates(q)) && IntraOf(p) == IntraOf(q)
  {
    HashesOfPermutation(Flatten(p), Flatten(q), true);
    HashesOfPermutation(Flatten(p), Flatten(q), false);
    SizeOfBag(Full(p), Full(q));
    forall k
      ensures k in Candidates(p) <==> k in Candidates(q)
    {
      assert k in multiset(Candidates(p)) <==> k in multiset(Candidates(q));
    }
  }
}
