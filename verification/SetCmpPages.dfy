/** What the reports of jni/setcmp.c count, said of the pages themselves: a page is named by the number of its region
    and its number there.  The hash of a page that looks zero is 0; a page is a candidate if it does not, and at most
    one process maps it. */
module SetCmpPages {
  import opened RbTree
  import opened Simi
  import opened SimiTheory
  import opened Pagemap
  import opened SetCmp
  import opened SetCmpTheory

  // ---------- counting pages ----------

  /** The pages of a region that count and whose hash lies in `s`. */
  ghost function PagesIn(mr: Region, candidatesOnly: bool, s: set<Key>): set<nat> {
    set k: nat | k < |mr| && Counts(mr[k], candidatesOnly) && mr[k].hash in s
  }

  lemma {:induction false} RegionCount(mr: Region, candidatesOnly: bool, s: set<Key>)
    ensures CountIn(Hashes(mr, candidatesOnly), s) == |PagesIn(mr, candidatesOnly, s)|
  {
    if mr == [] {
      assert PagesIn(mr, candidatesOnly, s) == {};
    } else {
      var n := |mr| - 1;
      assert mr[..n + 1] == mr;
      RegionCount(mr[..n], candidatesOnly, s);
      CountHashesNext(mr, n, candidatesOnly, s);
      CountInOne(mr[n].hash, s);
      PagesInNext(mr, n, candidatesOnly, s);
    }
  }

  lemma {:induction false} PagesInNext(mr: Region, n: nat, candidatesOnly: bool, s: set<Key>)
    requires n == |mr| - 1
    ensures |PagesIn(mr, candidatesOnly, s)| ==
            |PagesIn(mr[..n], candidatesOnly, s)| + if Counts(mr[n], candidatesOnly) && mr[n].hash in s then 1 else 0
  {
    var before := PagesIn(mr[..n], candidatesOnly, s);
    var more := if Counts(mr[n], candidatesOnly) && mr[n].hash in s then {n} else {};
    forall k: nat
      ensures k in PagesIn(mr, candidatesOnly, s) <==> k in before || k in more
      ensures !(k in before && k in more)
    {
      if k < n {
        assert mr[..n][k] == mr[k];
      }
    }
    assert PagesIn(mr, candidatesOnly, s) == before + more;
  }

  /** The pages of a process that count and whose hash lies in `s`. */
  ghost function ProcessPagesIn(p: Process, candidatesOnly: bool, s: set<Key>): set<(nat, nat)> {
    set r: nat, k: nat | r < |p| && k < |p[r]| && Counts(p[r][k], candidatesOnly) && p[r][k].hash in s :: (r, k)
  }

  /** The pages `ks` of region `r`. */
  ghost function InRegion(r: nat, ks: set<nat>): set<(nat, nat)> {
    set k | k in ks :: (r, k)
  }

  lemma {:induction false} InRegionSize(r: nat, ks: set<nat>)
    ensures |InRegion(r, ks)| == |ks|
  {
    if ks == {} {
      assert InRegion(r, ks) == {};
    } else {
      var k0 :| k0 in ks;
      InRegionSize(r, ks - {k0});
      assert InRegion(r, ks) == InRegion(r, ks - {k0}) + {(r, k0)};
    }
  }

  lemma {:induction false} ProcessCount(p: Process, candidatesOnly: bool, s: set<Key>)
    ensures CountIn(Hashes(Flatten(p), candidatesOnly), s) == |ProcessPagesIn(p, candidatesOnly, s)|
  {
    if p == [] {
      assert ProcessPagesIn(p, candidatesOnly, s) == {};
    } else {
      var n := |p| - 1;
      var init, last := p[..n], p[n];
      ProcessCount(init, candidatesOnly, s);
      HashesAppend(Flatten(init), last, candidatesOnly);
      CountInAppend(Hashes(Flatten(init), candidatesOnly), Hashes(last, candidatesOnly), s);
      RegionCount(last, candidatesOnly, s);
      InRegionSize(n, PagesIn(last, candidatesOnly, s));
      LastRegionPages(p, candidatesOnly, s);
    }
  }

  lemma {:induction false} LastRegionPages(p: Process, candidatesOnly: bool, s: set<Key>)
    requires p != []
    ensures var n := |p| - 1;
            var before, more :=
              ProcessPagesIn(p[..n], candidatesOnly, s), InRegion(n, PagesIn(p[n], candidatesOnly, s));
            before !! more && ProcessPagesIn(p, candidatesOnly, s) == before + more
  {
    var n := |p| - 1;
    var before, more :=
      ProcessPagesIn(p[..n], candidatesOnly, s), InRegion(n, PagesIn(p[n], candidatesOnly, s));
    forall r: nat, k: nat
      ensures (r, k) in ProcessPagesIn(p, candidatesOnly, s) <==> (r, k) in before || (r, k) in more
    {
    }
  }

  // ---------- which hashes occur ----------

  lemma {:induction false} HashInRegion(mr: Region, candidatesOnly: bool, h: Key)
    ensures h in Hashes(mr, candidatesOnly) <==>
              exists k :: 0 <= k < |mr| && Counts(mr[k], candidatesOnly) && mr[k].hash == h
  {
    if mr != [] {
      var n := |mr| - 1;
      HashInRegion(mr[..n], candidatesOnly, h);
      assert forall k :: 0 <= k < n ==> mr[..n][k] == mr[k];
    }
  }

  ghost predicate Occurs(p: Process, candidatesOnly: bool, h: Key) {
    exists r, k :: 0 <= r < |p| && 0 <= k < |p[r]| && Counts(p[r][k], candidatesOnly) && p[r][k].hash == h
  }

  lemma NothingHashed(candidatesOnly: bool)
    ensures Hashes(Flatten([]), candidatesOnly) == []
  {
  }

  lemma {:induction false} HashInSomeRegion(p: Process, candidatesOnly: bool, h: Key)
    ensures h in Hashes(Flatten(p), candidatesOnly) <==> exists r :: 0 <= r < |p| && h in Hashes(p[r], candidatesOnly)
  {
    hide Hashes, Flatten;
    if p == [] {
      NothingHashed(candidatesOnly);
    } else {
      var n := |p| - 1;
      HashInSomeRegion(p[..n], candidatesOnly, h);
      FlattenNext(p, n, candidatesOnly);
      assert p[..n + 1] == p;
      assert forall r :: 0 <= r < n ==> p[..n][r] == p[r];
    }
  }

  lemma HashInProcess(p: Process, candidatesOnly: bool, h: Key)
    ensures h in Hashes(Flatten(p), candidatesOnly) <==> Occurs(p, candidatesOnly, h)
  {
    hide Flatten;
    HashInSomeRegion(p, candidatesOnly, h);
    forall r | 0 <= r < |p|
      ensures h in Hashes(p[r], candidatesOnly) <==>
                exists k :: 0 <= k < |p[r]| && Counts(p[r][k], candidatesOnly) && p[r][k].hash == h
    {
      HashInRegion(p[r], candidatesOnly, h);
    }
  }

  // ---------- print_inter_simi and print_simi_matrix ----------

  /** Each number that print_inter_simi prints is the number of candidate pages of the process of which another
      process has a page with the same hash, however many have one. */
  lemma InterCountsPages(procs: seq<Process>, i: nat)
    requires i < |procs|
    ensures var p: Process := procs[i];
            InterOf(procs, i) ==
            |set r: nat, k: nat | r < |p| && k < |p[r]| && p[r][k].hash != 0 && p[r][k].share <= 1 &&
                        (exists j, q, l :: 0 <= j < |procs| && j != i && 0 <= q < |procs[j]| &&
                                           0 <= l < |procs[j][q]| &&
                                           procs[j][q][l].hash == p[r][k].hash) :: (r, k)|
  {
    hide Hashes, Flatten, CountIn, Others, FullBags;
    var p, others := procs[i], Others(FullBags(procs), i);
    ProcessCount(p, true, others);
    forall r, k | 0 <= r < |p| && 0 <= k < |p[r]| && p[r][k].hash != 0
      ensures p[r][k].hash in others <==>
                exists j, q, l :: 0 <= j < |procs| && j != i && 0 <= q < |procs[j]| && 0 <= l < |procs[j][q]| &&
                                  procs[j][q][l].hash == p[r][k].hash
    {
      InOthers(procs, i, p[r][k].hash);
    }
    assert ProcessPagesIn(p, true, others) ==
           set r: nat, k: nat | r < |p| && k < |p[r]| && p[r][k].hash != 0 && p[r][k].share <= 1 &&
                      (exists j, q, l :: 0 <= j < |procs| && j != i && 0 <= q < |procs[j]| &&
                                           0 <= l < |procs[j][q]| &&
                                         procs[j][q][l].hash == p[r][k].hash) :: (r, k);
  }

  lemma InOthers(procs: seq<Process>, i: nat, h: Key)
    requires h != 0
    ensures h in Others(FullBags(procs), i) <==>
              exists j, q, l :: 0 <= j < |procs| && j != i && 0 <= q < |procs[j]| && 0 <= l < |procs[j][q]| &&
                                procs[j][q][l].hash == h
  {
    forall j | 0 <= j < |procs|
      ensures h in FullBags(procs)[j] <==> Occurs(procs[j], false, h)
    {
      HashInProcess(procs[j], false, h);
    }
  }

  /** Entry (i, j) of the matrix is the number of candidate pages of process i of which process j has a page with the
      same hash. */
  lemma MatrixCountsPages(procs: seq<Process>, i: nat, j: nat)
    requires i < |procs| && j < |procs|
    ensures var p: Process, q: Process := procs[i], procs[j];
            MatrixOf(procs, i, j) ==
            if i == j then 0
            else |set r: nat, k: nat | r < |p| && k < |p[r]| && p[r][k].hash != 0 && p[r][k].share <= 1 &&
                                       (exists m, l :: 0 <= m < |q| && 0 <= l < |q[m]| &&
                                                       q[m][l].hash == p[r][k].hash) :: (r, k)|
  {
    hide Hashes, Flatten, CountIn, SumOver;
    if i != j {
      var p: Process, q: Process := procs[i], procs[j];
      var others := Domain(FullBags(procs)[j]);
      FoundInIsSum(Candidates(p), others);
      ProcessCount(p, true, others);
      forall r, k | 0 <= r < |p| && 0 <= k < |p[r]| && p[r][k].hash != 0
        ensures p[r][k].hash in others <==>
                  exists m, l :: 0 <= m < |q| && 0 <= l < |q[m]| && q[m][l].hash == p[r][k].hash
      {
        HashInProcess(q, false, p[r][k].hash);
      }
      assert ProcessPagesIn(p, true, others) ==
             set r: nat, k: nat | r < |p| && k < |p[r]| && p[r][k].hash != 0 && p[r][k].share <= 1 &&
                                  (exists m, l :: 0 <= m < |q| && 0 <= l < |q[m]| &&
                                                  q[m][l].hash == p[r][k].hash) :: (r, k);
    }
  }

  // ---------- print_total_dup ----------

  /** The first number that print_total_dup prints for a process is the number of distinct hashes of its candidate
      pages that are hashes of candidate pages of another process, too. */
  lemma TotalCountsHashes(procs: seq<Process>, i: nat)
    requires i < |procs|
    ensures var p: Process := procs[i];
            TotalOf(UniqueBags(procs), i) ==
            |set r: nat, k: nat | r < |p| && k < |p[r]| && p[r][k].hash != 0 && p[r][k].share <= 1 &&
                        (exists j, q, l :: 0 <= j < |procs| && j != i && 0 <= q < |procs[j]| &&
                                           0 <= l < |procs[j][q]| &&
                                           procs[j][q][l].share <= 1 && procs[j][q][l].hash == p[r][k].hash) ::
                        p[r][k].hash|
  {
    hide Hashes, Flatten, CountIn, SumOver, Others, UniqueBags;
    var p: Process := procs[i];
    var both := Others(UniqueBags(procs), i) * Support(Candidates(p));
    TotalIsIntersection(procs, i);
    var hashes :=
      set r: nat, k: nat | r < |p| && k < |p[r]| && p[r][k].hash != 0 && p[r][k].share <= 1 &&
                        (exists j, q, l :: 0 <= j < |procs| && j != i && 0 <= q < |procs[j]| &&
                                           0 <= l < |procs[j][q]| &&
                                           procs[j][q][l].share <= 1 && procs[j][q][l].hash == p[r][k].hash) ::
                        p[r][k].hash;
    forall h: Key
      ensures h in both <==> h in hashes
    {
      HashInProcess(p, true, h);
      InOtherCandidates(procs, i, h);
    }
    assert both == hashes;
  }

  /** A process has no candidate, which is where print_total_dup breaks off, if all of its pages look zero or are
      shared. */
  lemma NoCandidatePages(p: Process)
    ensures Candidates(p) == [] <==>
              forall r, k :: 0 <= r < |p| && 0 <= k < |p[r]| ==> p[r][k].hash == 0 || p[r][k].share > 1
  {
    NoCandidatesIff(p);
  }

  lemma InOtherCandidates(procs: seq<Process>, i: nat, h: Key)
    ensures h != 0 ==>
              (h in Others(UniqueBags(procs), i) <==>
                exists j, q, l :: 0 <= j < |procs| && j != i && 0 <= q < |procs[j]| && 0 <= l < |procs[j][q]| &&
                                  procs[j][q][l].share <= 1 && procs[j][q][l].hash == h)
  {
    forall j | 0 <= j < |procs|
      ensures h in UniqueBags(procs)[j] <==> Occurs(procs[j], true, h)
    {
      HashInProcess(procs[j], true, h);
    }
  }

  // ---------- the sizes of sets, and print_intra_simi ----------

  /** The full set of a process has an element for each nonzero page; its unique set, one for each hash of a
      candidate page; and print_intra_simi prints the difference. */
  lemma IntraCountsPages(p: Process)
    ensures |Full(p)| == |set r: nat, k: nat | r < |p| && k < |p[r]| && p[r][k].hash != 0 :: (r, k)|
    ensures Support(Candidates(p)) ==
            set r: nat, k: nat | r < |p| && k < |p[r]| && p[r][k].hash != 0 && p[r][k].share <= 1 :: p[r][k].hash
    ensures IntraOf(p) == |Full(p)| - |Support(Candidates(p))|
  {
    var full := Support(Full(p));
    CountInFull(Full(p), full);
    ProcessCount(p, false, full);
    forall r, k | 0 <= r < |p| && 0 <= k < |p[r]| && p[r][k].hash != 0
      ensures p[r][k].hash in full
    {
      HashInProcess(p, false, p[r][k].hash);
    }
    assert ProcessPagesIn(p, false, full) ==
           set r: nat, k: nat | r < |p| && k < |p[r]| && p[r][k].hash != 0 :: (r, k);
    forall h: Key
      ensures h in Support(Candidates(p)) <==> Occurs(p, true, h)
    {
      HashInProcess(p, true, h);
    }
  }

  /** How often a key occurs in the set of a process, or in its candidate set: once for each page that counts and
      has that hash, if the key is not 0. */
  lemma BagCountsPages(p: Process, candidatesOnly: bool, h: Key)
    requires h != 0
    ensures multiset(Hashes(Flatten(p), candidatesOnly))[h] ==
            |set r: nat, k: nat | r < |p| && k < |p[r]| && p[r][k].hash == h &&
                                  (candidatesOnly ==> p[r][k].share <= 1) :: (r, k)|
  {
    hide Hashes, Flatten, CountIn;
    KeyCount(Hashes(Flatten(p), candidatesOnly), h);
    ProcessCount(p, candidatesOnly, {h});
    assert ProcessPagesIn(p, candidatesOnly, {h}) ==
           set r: nat, k: nat | r < |p| && k < |p[r]| && p[r][k].hash == h &&
                                (candidatesOnly ==> p[r][k].share <= 1) :: (r, k);
  }

  lemma KeyCount(keys: seq<Key>, h: Key)
    ensures CountIn(keys, {h}) == multiset(keys)[h]
  {
    FoundInIsSum(keys, {h});
    assert {h} - {h} == {};
  }

  // ---------- intra_proc_simi_mr ----------

  /** The two numbers of a line of intra_proc_simi_mr: the nonzero pages of the region less the distinct hashes of its
      candidates, and the nonzero pages of the region of which another region of the process has one with the
      same hash. */
  lemma RegionCountsPages(p: Process, i: nat)
    requires i < |p|
    ensures var mr: Region := p[i];
            IntraMrOf(mr) ==
            |set k: nat | k < |mr| && mr[k].hash != 0| -
            |set k: nat | k < |mr| && mr[k].hash != 0 && mr[k].share <= 1 :: mr[k].hash|
    ensures var mr: Region := p[i];
            AcrossOf(p, i) ==
            |set k: nat | k < |mr| && mr[k].hash != 0 &&
                          (exists q, l :: 0 <= q < |p| && q != i && 0 <= l < |p[q]| && p[q][l].hash == mr[k].hash)|
  {
    RegionIntra(p[i]);
    RegionAcross(p, i);
  }

  lemma RegionIntra(mr: Region)
    ensures IntraMrOf(mr) ==
            |set k: nat | k < |mr| && mr[k].hash != 0| -
            |set k: nat | k < |mr| && mr[k].hash != 0 && mr[k].share <= 1 :: mr[k].hash|
  {
    var full := Support(Hashes(mr, false));
    CountInFull(Hashes(mr, false), full);
    RegionCount(mr, false, full);
    forall k | 0 <= k < |mr| && mr[k].hash != 0
      ensures mr[k].hash in full
    {
      HashInRegion(mr, false, mr[k].hash);
    }
    assert PagesIn(mr, false, full) == set k: nat | k < |mr| && mr[k].hash != 0;
    var hashes := set k: nat | k < |mr| && mr[k].hash != 0 && mr[k].share <= 1 :: mr[k].hash;
    forall h: Key
      ensures h in Support(Hashes(mr, true)) <==> h in hashes
    {
      HashInRegion(mr, true, h);
    }
    assert Support(Hashes(mr, true)) == hashes;
  }

  lemma RegionAcross(p: Process, i: nat)
    requires i < |p|
    ensures var mr: Region := p[i];
            AcrossOf(p, i) ==
            |set k: nat | k < |mr| && mr[k].hash != 0 &&
                          (exists q, l :: 0 <= q < |p| && q != i && 0 <= l < |p[q]| && p[q][l].hash == mr[k].hash)|
  {
    var mr: Region, others := p[i], Others(RegionBags(p), i);
    RegionCount(mr, false, others);
    forall k | 0 <= k < |mr| && mr[k].hash != 0
      ensures mr[k].hash in others <==>
                exists q, l :: 0 <= q < |p| && q != i && 0 <= l < |p[q]| && p[q][l].hash == mr[k].hash
    {
      InOtherRegions(p, i, mr[k].hash);
    }
    assert PagesIn(mr, false, others) ==
           set k: nat | k < |mr| && mr[k].hash != 0 &&
                        (exists q, l :: 0 <= q < |p| && q != i && 0 <= l < |p[q]| && p[q][l].hash == mr[k].hash);
  }

  lemma InOtherRegions(p: Process, i: nat, h: Key)
    requires h != 0
    ensures h in Others(RegionBags(p), i) <==>
              exists q, l :: 0 <= q < |p| && q != i && 0 <= l < |p[q]| && p[q][l].hash == h
  {
    forall q | 0 <= q < |p|
      ensures h in RegionBags(p)[q] <==> exists l :: 0 <= l < |p[q]| && Counts(p[q][l], false) && p[q][l].hash == h
    {
      HashInRegion(p[q], false, h);
    }
  }

  /** The report on a process has a line for exactly the regions with duplicates in another region, in order. */
  lemma ReportLines(p: Process)
    ensures var report := RegionReport(p, |p|);
            forall i :: 0 <= i < |report| ==>
              var m := report[i].0;
              && 0 <= m < |p| && AcrossOf(p, m) != 0
              && report[i].1 == IntraMrOf(p[m]) && report[i].2 == AcrossOf(p, m)
    ensures var report := RegionReport(p, |p|);
            forall i, j :: 0 <= i < j < |report| ==> report[i].0 < report[j].0
    ensures var report := RegionReport(p, |p|);
            forall m :: 0 <= m < |p| && AcrossOf(p, m) != 0 ==> exists i :: 0 <= i < |report| && report[i].0 == m
  {
    LinesRight(p, |p|);
    LinesOrdered(p, |p|);
    forall m | 0 <= m < |p| && AcrossOf(p, m) != 0
      ensures exists i :: 0 <= i < |RegionReport(p, |p|)| && RegionReport(p, |p|)[i].0 == m
    {
      LineExists(p, |p|, m);
    }
  }

  lemma {:induction false} LinesRight(p: Process, n: nat)
    requires n <= |p|
    ensures forall i :: 0 <= i < |RegionReport(p, n)| ==>
              var line := RegionReport(p, n)[i];
              && 0 <= line.0 < n && AcrossOf(p, line.0) != 0
              && line.1 == IntraMrOf(p[line.0]) && line.2 == AcrossOf(p, line.0)
  {
    hide AcrossOf, IntraMrOf;
    if n > 0 {
      LinesRight(p, n - 1);
    }
  }

  lemma {:induction false} LinesOrdered(p: Process, n: nat)
    requires n <= |p|
    ensures forall i, j :: 0 <= i < j < |RegionReport(p, n)| ==> RegionReport(p, n)[i].0 < RegionReport(p, n)[j].0
  {
    hide AcrossOf, IntraMrOf;
    if n > 0 {
      LinesRight(p, n - 1);
      LinesOrdered(p, n - 1);
    }
  }

  lemma {:induction false} LineExists(p: Process, n: nat, m: nat)
    requires m < n <= |p| && AcrossOf(p, m) != 0
    ensures exists i :: 0 <= i < |RegionReport(p, n)| && RegionReport(p, n)[i].0 == m
  {
    hide AcrossOf, IntraMrOf;
    var before := RegionReport(p, n - 1);
    if m < n - 1 {
      LineExists(p, n - 1, m);
      var i :| 0 <= i < |before| && before[i].0 == m;
      assert RegionReport(p, n)[i].0 == m;
    } else {
      assert RegionReport(p, n)[|before|].0 == m;
    }
  }
}
