/** The duplication reports of jni/setcmp.c.  What the C code prints is returned.  The pages of a process are
    only read here, so a region is the sequence of its pages and a process the sequence of its regions. */
module SetCmp {
  import opened RbTree
  import opened Simi
  import opened Pagemap
  import opened SimiTheory

  type Region = seq<Page>
  type Process = seq<Region>

  /** zero_page_hash, as init_zero_page_hash computes it. */
  const ZERO_PAGE_HASH: Key := 0

  const MAX_PID: nat := 32

  /** Whether a page counts: pages that look zero never do, and shared pages are no candidates. */
  predicate Counts(page: Page, candidatesOnly: bool) {
    page.hash != ZERO_PAGE_HASH && (candidatesOnly ==> page.share <= 1)
  }

  function HashOrNone(page: Page, candidatesOnly: bool): seq<Key> {
    if Counts(page, candidatesOnly) then [page.hash] else []
  }

  /** The hashes of the pages that count. */
  function Hashes(pages: seq<Page>, candidatesOnly: bool): (h: seq<Key>)
    ensures |h| <= |pages| && ZERO_PAGE_HASH !in h
  {
    if pages == [] then []
    else
      var init, last := pages[..|pages| - 1], pages[|pages| - 1];
      Hashes(init, candidatesOnly) + HashOrNone(last, candidatesOnly)
  }

  lemma HashesNext(pages: seq<Page>, i: nat, candidatesOnly: bool)
    requires i < |pages|
    ensures Hashes(pages[..i + 1], candidatesOnly) ==
            Hashes(pages[..i], candidatesOnly) + HashOrNone(pages[i], candidatesOnly)
  {
    assert pages[..i + 1][..i] == pages[..i];
  }

  lemma {:induction false} HashesAppend(a: seq<Page>, b: seq<Page>, candidatesOnly: bool)
    ensures Hashes(a + b, candidatesOnly) == Hashes(a, candidatesOnly) + Hashes(b, candidatesOnly)
  {
    if b == [] {
      assert a + b == a;
    } else {
      assert (a + b)[..|a + b| - 1] == a + b[..|b| - 1];
      HashesAppend(a, b[..|b| - 1], candidatesOnly);
    }
  }

  /** All pages of a process. */
  function Flatten(p: Process): seq<Page> {
    if p == [] then [] else Flatten(p[..|p| - 1]) + p[|p| - 1]
  }

  lemma FlattenNext(p: Process, j: nat, candidatesOnly: bool)
    requires j < |p|
    ensures Flatten(p[..j + 1]) == Flatten(p[..j]) + p[j]
    ensures Hashes(Flatten(p[..j + 1]), candidatesOnly) ==
            Hashes(Flatten(p[..j]), candidatesOnly) + Hashes(p[j], candidatesOnly)
  {
    assert p[..j + 1][..j] == p[..j];
    HashesAppend(Flatten(p[..j]), p[j], candidatesOnly);
  }

  function HashBag(pages: seq<Page>, candidatesOnly: bool): multiset<Key> {
    multiset(Hashes(pages, candidatesOnly))
  }

  lemma HashBagStart(pages: seq<Page>, candidatesOnly: bool)
    ensures HashBag(pages[..0], candidatesOnly) == multiset{}
  {
  }

  lemma HashBagNext(pages: seq<Page>, i: nat, candidatesOnly: bool)
    requires i < |pages|
    ensures HashBag(pages[..i + 1], candidatesOnly) ==
            HashBag(pages[..i], candidatesOnly) + multiset(HashOrNone(pages[i], candidatesOnly))
  {
    HashesNext(pages, i, candidatesOnly);
  }

  lemma FlattenNextBag(p: Process, j: nat, candidatesOnly: bool)
    requires j < |p|
    ensures HashBag(Flatten(p[..j + 1]), candidatesOnly) ==
            HashBag(Flatten(p[..j]), candidatesOnly) + HashBag(p[j], candidatesOnly)
  {
    FlattenNext(p, j, candidatesOnly);
  }

  // ---------- building sets ----------

  /** The loop body of set_add_mr, and of cand_set_add_mr if `candidatesOnly`. */
  method AddPage(s: Set, page: Page, candidatesOnly: bool)
    requires s.Valid()
    modifies s.Repr()
    ensures s.Valid() && fresh(s.Repr() - old(s.Repr()))
    ensures s.Bag() == old(s.Bag()) + multiset(HashOrNone(page, candidatesOnly))
  {
    if page.hash == ZERO_PAGE_HASH {
      return;
    }
    if candidatesOnly && page.share > 1 {
      return;
    }
    AddKey(s, page.hash);
  }

  /** set_add_mr, and cand_set_add_mr if `candidatesOnly`. */
  method AddRegion(s: Set, mr: Region, candidatesOnly: bool)
    requires s.Valid()
    modifies s.Repr()
    ensures s.Valid() && fresh(s.Repr() - old(s.Repr()))
    ensures s.Bag() == old(s.Bag()) + HashBag(mr, candidatesOnly)
  {
    hide Set.Valid, Set.Bag, HashBag;
    HashBagStart(mr, candidatesOnly);
    for i := 0 to |mr|
      invariant s.Valid() && fresh(s.Repr() - old(s.Repr()))
      invariant s.Bag() == old(s.Bag()) + HashBag(mr[..i], candidatesOnly)
    {
      AddPage(s, mr[i], candidatesOnly);
      HashBagNext(mr, i, candidatesOnly);
    }
    assert mr[..|mr|] == mr;
  }

  /** The loop of set_from_proc, and of cand_set_from_proc if `candidatesOnly`. */
  method AddProcess(s: Set, p: Process, candidatesOnly: bool)
    requires s.Valid() && s.Bag() == multiset{}
    modifies s.Repr()
    ensures s.Valid() && fresh(s.Repr() - old(s.Repr()))
    ensures s.Bag() == HashBag(Flatten(p), candidatesOnly)
  {
    hide Set.Valid, Set.Bag;
    for i := 0 to |p|
      invariant s.Valid() && fresh(s.Repr() - old(s.Repr()))
      invariant s.Bag() == HashBag(Flatten(p[..i]), candidatesOnly)
    {
      hide HashBag;
      AddRegion(s, p[i], candidatesOnly);
      FlattenNextBag(p, i, candidatesOnly);
    }
    assert p[..|p|] == p;
  }

  method SetFromProc(p: Process, candidatesOnly: bool) returns (s: Set)
    ensures s.Valid() && fresh(s.Repr())
    ensures s.Bag() == multiset(Hashes(Flatten(p), candidatesOnly))
  {
    s := new Set();
    AddProcess(s, p, candidatesOnly);
  }

  /** The loop body of uniq_set_from_mr and uniq_set_from_proc.  `seen` are the candidate hashes so far. */
  method AddUnique(s: Set, page: Page, ghost seen: seq<Key>)
    requires s.Valid() && s.Bag() == multiset(Support(seen))
    modifies s.Repr()
    ensures s.Valid() && fresh(s.Repr() - old(s.Repr()))
    ensures s.Bag() == multiset(Support(seen + HashOrNone(page, true)))
  {
    SupportNext(seen, page);
    if page.hash == ZERO_PAGE_HASH {
      return;
    }
    if page.share > 1 {
      return;
    }
    var d := new Node(page.hash);
    var known := s.In(d);
    BagMember(s.Elements(), Support(seen), page.hash);
    if known {
      return;
    }
    s.Add(d);
  }

  lemma SupportNext(seen: seq<Key>, page: Page)
    ensures var next := Support(seen + HashOrNone(page, true));
            && (!Counts(page, true) || page.hash in Support(seen) ==> next == Support(seen))
            && (Counts(page, true) && page.hash !in Support(seen) ==>
                  multiset(next) == multiset(Support(seen)) + multiset{page.hash})
  {
    var next := Support(seen + HashOrNone(page, true));
    if Counts(page, true) {
      assert next == Support(seen) + {page.hash};
    } else {
      assert next == Support(seen);
    }
  }

  lemma BagMember(keys: seq<Key>, s: set<Key>, v: Key)
    requires multiset(keys) == multiset(s)
    ensures v in keys <==> v in s
  {
    assert v in keys <==> v in multiset(keys);
  }

  /** uniq_set_from_mr's loop, run for one region of a process whose earlier candidates are `seen`. */
  method AddUniqueRegion(s: Set, mr: Region, ghost seen: seq<Key>)
    requires s.Valid() && s.Bag() == multiset(Support(seen))
    modifies s.Repr()
    ensures s.Valid() && fresh(s.Repr() - old(s.Repr()))
    ensures s.Bag() == multiset(Support(seen + Hashes(mr, true)))
  {
    hide Set.Valid, Set.Bag;
    assert seen + [] == seen;
    for i := 0 to |mr|
      invariant s.Valid() && fresh(s.Repr() - old(s.Repr()))
      invariant s.Bag() == multiset(Support(seen + Hashes(mr[..i], true)))
    {
      AddUnique(s, mr[i], seen + Hashes(mr[..i], true));
      HashesNext(mr, i, true);
      assert seen + Hashes(mr[..i + 1], true) == seen + Hashes(mr[..i], true) + HashOrNone(mr[i], true);
    }
    assert mr[..|mr|] == mr;
  }

  method UniqSetFromRegion(mr: Region) returns (s: Set)
    ensures s.Valid() && fresh(s.Repr())
    ensures s.Bag() == multiset(Support(Hashes(mr, true)))
  {
    hide Set.Valid, Set.Bag;
    s := new Set();
    assert Support([]) == {};
    AddUniqueRegion(s, mr, []);
    assert [] + Hashes(mr, true) == Hashes(mr, true);
  }

  method UniqSetFromProc(p: Process) returns (s: Set)
    ensures s.Valid() && fresh(s.Repr())
    ensures s.Bag() == multiset(Support(Hashes(Flatten(p), true)))
  {
    hide Set.Valid, Set.Bag;
    s := new Set();
    assert Support([]) == {};
    for i := 0 to |p|
      invariant s.Valid() && fresh(s.Repr())
      invariant s.Bag() == multiset(Support(Hashes(Flatten(p[..i]), true)))
    {
      FlattenNext(p, i, true);
      AddUniqueRegion(s, p[i], Hashes(Flatten(p[..i]), true));
    }
    assert p[..|p|] == p;
  }

  lemma TwiceInBag(keys: seq<Key>, i: nat, j: nat)
    requires i < j < |keys|
    ensures keys[i] == keys[j] ==> multiset(keys)[keys[j]] >= 2
  {
    assert keys == keys[..j] + keys[j..];
    assert keys[i] in keys[..j] && keys[j] in keys[j..];
  }

  /** A set built this way holds each key once, in strictly increasing order. */
  lemma UniqueIsStrict(keys: seq<Key>, s: set<Key>)
    requires Sorted(keys) && multiset(keys) == multiset(s)
    ensures forall i, j :: 0 <= i < j < |keys| ==> keys[i] < keys[j]
    ensures |keys| == |s| && forall k :: k in keys <==> k in s
  {
    forall i, j | 0 <= i < j < |keys|
      ensures keys[i] < keys[j]
    {
      TwiceInBag(keys, i, j);
      assert multiset(s)[keys[j]] <= 1;
    }
    assert |multiset(keys)| == |multiset(s)|;
    forall k
      ensures k in keys <==> k in s
    {
      BagMember(keys, s, k);
    }
  }

  // ---------- the reports ----------

  /** The sets hold these multisets. */
  ghost predicate Holds(sets: seq<Set>, bags: seq<multiset<Key>>)
    reads sets, set s | s in sets :: s.root, set s, n | s in sets && n in s.root.nodes :: n
  {
    |sets| == |bags| && forall i :: 0 <= i < |sets| ==> sets[i].Valid() && sets[i].Bag() == bags[i]
  }

  /** Everything the sets are made of. */
  ghost function ReprOf(sets: seq<Set>): set<object>
    reads sets, set s | s in sets :: s.root
  {
    set s, o | s in sets && o in s.Repr() :: o
  }

  /** No two of the sets share anything. */
  ghost predicate Separate(sets: seq<Set>)
    reads sets, set s | s in sets :: s.root
  {
    forall i, j :: 0 <= i < j < |sets| ==> sets[i].Repr() !! sets[j].Repr()
  }

  lemma NoSets(sets: seq<Set>, bags: seq<multiset<Key>>)
    requires sets == [] && bags == []
    ensures Holds(sets, bags) && Separate(sets) && ReprOf(sets) == {}
  {
  }

  lemma ReprAllocated(sets: seq<Set>)
    ensures forall o :: o in ReprOf(sets) ==> allocated(o)
  {
  }

  lemma ReprHas(sets: seq<Set>, i: nat)
    requires i < |sets|
    ensures sets[i].Repr() <= ReprOf(sets)
  {
    assert sets[i] in sets;
  }

  lemma SeparateJoin(a: seq<Set>, b: seq<Set>)
    requires Separate(a) && Separate(b) && ReprOf(a) !! ReprOf(b)
    ensures Separate(a + b) && ReprOf(a + b) == ReprOf(a) + ReprOf(b)
  {
    var all := a + b;
    forall i, j | 0 <= i < j < |all|
      ensures all[i].Repr() !! all[j].Repr()
    {
      if i < |a| <= j {
        ReprHas(a, i);
        ReprHas(b, j - |a|);
      }
    }
    assert forall s :: s in all <==> s in a || s in b;
  }

  lemma ReprOfOne(s: Set)
    ensures Separate([s]) && ReprOf([s]) == s.Repr()
  {
    ReprHas([s], 0);
  }

  /** set_free(set[i]). */
  method FreeOne(sets: seq<Set>, i: nat)
    requires i < |sets| && sets[i].Valid()
    requires forall j :: 0 <= j < |sets| && j != i ==> sets[j].Repr() !! sets[i].Repr()
    modifies sets[i].root, sets[i].root.nodes
    ensures Freed(sets[i]) && sets[i].Repr() <= old(sets[i].Repr())
    ensures forall j :: 0 <= j < |sets| && j != i ==>
              && sets[j].Repr() == old(sets[j].Repr())
              && (old(Freed(sets[j])) ==> Freed(sets[j])) && (old(sets[j].Valid()) ==> sets[j].Valid())
  {
    ghost var _ := sets[i].Free();
    forall j | 0 <= j < |sets| && j != i
      ensures sets[j].Repr() == old(sets[j].Repr())
      ensures (old(Freed(sets[j])) ==> Freed(sets[j])) && (old(sets[j].Valid()) ==> sets[j].Valid())
    {
      assert old(sets[j].Repr()) !! old(sets[i].Repr());
    }
  }

  /** The tree of the set is empty. */
  ghost predicate Freed(s: Set)
    reads s, s.root, s.root.nodes
  {
    s.root.Valid() && s.root.root == null
  }

  /** set_free(set[i]) for every i. */
  method FreeAll(sets: seq<Set>, ghost bags: seq<multiset<Key>>)
    requires Separate(sets) && Holds(sets, bags)
    modifies ReprOf(sets)
    ensures forall i :: 0 <= i < |sets| ==> Freed(sets[i]) && sets[i].Repr() <= old(sets[i].Repr())
  {
    hide Freed, Set.Valid;
    for i := 0 to |sets|
      invariant forall j :: 0 <= j < i ==> Freed(sets[j]) && sets[j].Repr() <= old(sets[j].Repr())
      invariant forall j :: i <= j < |sets| ==> sets[j].Valid() && sets[j].Repr() == old(sets[j].Repr())
    {
      ReprHas(sets, i);
      FreeOne(sets, i);
    }
  }

  /** set_free(set[i]) and set_free(cand_set[i]) for every i, the former first. */
  method FreeBoth(a: seq<Set>, b: seq<Set>, ghost aBags: seq<multiset<Key>>, ghost bBags: seq<multiset<Key>>)
    requires Separate(a) && Separate(b) && Holds(a, aBags) && Holds(b, bBags)
    requires forall o :: o in ReprOf(a) ==> o !in ReprOf(b)
    modifies ReprOf(a), ReprOf(b)
    ensures forall i :: 0 <= i < |b| ==> Freed(b[i])
  {
    forall i | 0 <= i < |b|
      ensures b[i].Repr() !! ReprOf(a)
    {
      ReprHas(b, i);
    }
    FreeAll(a, aBags);
    FreeAll(b, bBags);
  }

  /** The keys that occur in a multiset other than number `self`. */
  ghost function Others(bags: seq<multiset<Key>>, self: int): set<Key> {
    set i, k | 0 <= i < |bags| && i != self && k in bags[i] :: k
  }

  method FoundInOtherSets(sets: seq<Set>, d: Node, self: int, ghost bags: seq<multiset<Key>>) returns (found: int)
    requires Holds(sets, bags)
    ensures found == if d.v in Others(bags, self) then 1 else 0
  {
    found := 0;
    for i := 0 to |sets|
      invariant found == 0 && forall j :: 0 <= j < i && j != self ==> d.v !in bags[j]
    {
      if i == self {
        continue;
      }
      var hit := sets[i].In(d);
      assert d.v in sets[i].Elements() <==> d.v in sets[i].Bag();
      if hit {
        return 1;
      }
    }
  }

  /** The loop body of mr_dup_inter, and of print_inter_simi if `candidatesOnly`. */
  method DupOfPage(sets: seq<Set>, page: Page, self: int, candidatesOnly: bool, ghost bags: seq<multiset<Key>>)
    returns (dup: int)
    requires Holds(sets, bags)
    ensures dup == CountIn(HashOrNone(page, candidatesOnly), Others(bags, self))
  {
    CountInOne(page.hash, Others(bags, self));
    if page.hash == ZERO_PAGE_HASH || (candidatesOnly && page.share > 1) {
      return 0;
    }
    var d := new Node(page.hash);
    dup := FoundInOtherSets(sets, d, self, bags);
  }

  /** How many of the pages of `mr` that count are found in another set.  With `candidatesOnly` this is the
      inner loop of print_inter_simi; without it, mr_dup_inter. */
  method DupInRegion(sets: seq<Set>, mr: Region, self: int, candidatesOnly: bool, ghost bags: seq<multiset<Key>>)
    returns (dup: int)
    requires Holds(sets, bags)
    ensures dup == CountIn(Hashes(mr, candidatesOnly), Others(bags, self))
  {
    hide Holds;
    dup := 0;
    for i := 0 to |mr|
      invariant Holds(sets, bags)
      invariant dup == CountIn(Hashes(mr[..i], candidatesOnly), Others(bags, self))
    {
      var found := DupOfPage(sets, mr[i], self, candidatesOnly, bags);
      CountHashesNext(mr, i, candidatesOnly, Others(bags, self));
      dup := dup + found;
    }
    assert mr[..|mr|] == mr;
  }

  lemma CountHashesNext(mr: Region, i: nat, candidatesOnly: bool, s: set<Key>)
    requires i < |mr|
    ensures CountIn(Hashes(mr[..i + 1], candidatesOnly), s) ==
            CountIn(Hashes(mr[..i], candidatesOnly), s) + CountIn(HashOrNone(mr[i], candidatesOnly), s)
  {
    HashesNext(mr, i, candidatesOnly);
    CountInAppend(Hashes(mr[..i], candidatesOnly), HashOrNone(mr[i], candidatesOnly), s);
  }

  lemma CountInOne(k: Key, s: set<Key>)
    ensures CountIn([k], s) == (if k in s then 1 else 0) && CountIn([], s) == 0
  {
    assert [k][..0] == [];
  }

  lemma {:induction false} CountInAppend(a: seq<Key>, b: seq<Key>, s: set<Key>)
    ensures CountIn(a + b, s) == CountIn(a, s) + CountIn(b, s)
  {
    if b == [] {
      assert a + b == a;
    } else {
      assert (a + b)[..|a + b| - 1] == a + b[..|b| - 1];
      CountInAppend(a, b[..|b| - 1], s);
    }
  }

  /** The multisets of all nonzero pages, and of the candidates, of the processes. */
  ghost function BagsOf(procs: seq<Process>, candidatesOnly: bool): (b: seq<multiset<Key>>)
    ensures |b| == |procs|
  {
    seq(|procs|, i requires 0 <= i < |procs| => multiset(Hashes(Flatten(procs[i]), candidatesOnly)))
  }

  lemma BagsOfAt(procs: seq<Process>, candidatesOnly: bool, i: nat)
    requires i < |procs|
    ensures BagsOf(procs, candidatesOnly)[i] == multiset(Hashes(Flatten(procs[i]), candidatesOnly))
  {
  }

  ghost function FullBags(procs: seq<Process>): (b: seq<multiset<Key>>)
    ensures |b| == |procs|
  {
    BagsOf(procs, false)
  }

  ghost function CandidateBags(procs: seq<Process>): (b: seq<multiset<Key>>)
    ensures |b| == |procs|
  {
    BagsOf(procs, true)
  }

  ghost function UniqueBags(procs: seq<Process>): (b: seq<multiset<Key>>)
    ensures |b| == |procs|
  {
    seq(|procs|, i requires 0 <= i < |procs| => multiset(Support(Hashes(Flatten(procs[i]), true))))
  }

  lemma HoldsAppend(sets: seq<Set>, bags: seq<multiset<Key>>, s: Set)
    requires Holds(sets, bags) && s.Valid()
    ensures Holds(sets + [s], bags + [s.Bag()])
  {
  }

  /** Appends set_from_proc(p), or cand_set_from_proc(p) if `candidatesOnly`. */
  method AppendSet(sets: seq<Set>, p: Process, candidatesOnly: bool, ghost bags: seq<multiset<Key>>)
    returns (sets': seq<Set>)
    requires Holds(sets, bags) && Separate(sets)
    ensures |sets'| == |sets| + 1 && Holds(sets', bags + [multiset(Hashes(Flatten(p), candidatesOnly))])
    ensures Separate(sets') && forall o :: o in ReprOf(sets') ==> o in old(ReprOf(sets)) || fresh(o)
  {
    hide *;
    ReprAllocated(sets);
    var s := SetFromProc(p, candidatesOnly);
    assert Holds(sets, bags);
    HoldsAppend(sets, bags, s);
    ReprOfOne(s);
    SeparateJoin(sets, [s]);
    sets' := sets + [s];
  }

  lemma TakeNext(all: seq<multiset<Key>>, i: nat)
    requires i < |all|
    ensures all[..i] + [all[i]] == all[..i + 1]
  {
  }

  /** set[i] = set_from_proc(proc[i]), or cand_set_from_proc(proc[i]), for every i. */
  method AllSets(procs: seq<Process>, candidatesOnly: bool) returns (sets: seq<Set>)
    ensures |sets| == |procs| && Holds(sets, BagsOf(procs, candidatesOnly))
    ensures Separate(sets) && forall o :: o in ReprOf(sets) ==> fresh(o)
  {
    sets := [];
    ghost var all := BagsOf(procs, candidatesOnly);
    NoSets(sets, all[..0]);
    hide *;
    for i := 0 to |procs|
      invariant |sets| == i && Holds(sets, all[..i]) && Separate(sets)
      invariant forall o :: o in ReprOf(sets) ==> fresh(o)
    {
      TakeNext(all, i);
      BagsOfAt(procs, candidatesOnly, i);
      sets := AppendSet(sets, procs[i], candidatesOnly, all[..i]);
    }
    assert all[..|procs|] == all;
  }

  method AppendUniqueSet(sets: seq<Set>, p: Process, ghost bags: seq<multiset<Key>>) returns (sets': seq<Set>)
    requires Holds(sets, bags)
    ensures Holds(sets', bags + [multiset(Support(Hashes(Flatten(p), true)))])
  {
    var s := UniqSetFromProc(p);
    assert Holds(sets, bags);
    HoldsAppend(sets, bags, s);
    sets' := sets + [s];
  }

  /** uniq_set[i] = uniq_set_from_proc(proc[i]) for every i. */
  method AllUniqueSets(procs: seq<Process>) returns (sets: seq<Set>)
    ensures Holds(sets, UniqueBags(procs))
  {
    sets := [];
    ghost var all := UniqueBags(procs);
    for i := 0 to |procs|
      invariant Holds(sets, all[..i])
    {
      TakeNext(all, i);
      sets := AppendUniqueSet(sets, procs[i], all[..i]);
    }
    assert all[..|procs|] == all;
  }

  /** The hashes of all nonzero pages of a process, and of its candidates. */
  function Full(p: Process): seq<Key> {
    Hashes(Flatten(p), false)
  }

  function Candidates(p: Process): seq<Key> {
    Hashes(Flatten(p), true)
  }

  function IntraOf(p: Process): int {
    |Full(p)| - |Support(Candidates(p))|
  }

  method IntraSimi(procs: seq<Process>) returns (report: seq<int>)
    ensures |report| == |procs| && forall i :: 0 <= i < |procs| ==> report[i] == IntraOf(procs[i])
  {
    report := [];
    for i := 0 to |procs|
      invariant |report| == i && forall j :: 0 <= j < i ==> report[j] == IntraOf(procs[j])
    {
      var line := IntraLine(procs[i]);
      report := report + [line];
    }
  }

  method IntraLine(p: Process) returns (line: int)
    ensures line == IntraOf(p)
  {
    hide Set.Valid, Set.Bag, Hashes, Flatten, Support;
    var full := SetFromProc(p, false);
    var uniq := UniqSetFromProc(p);
    line := SizeDifference(full, uniq, Full(p), Support(Candidates(p)));
  }

  /** set_size(set) - set_size(uniq_set), after which both sets are freed. */
  method SizeDifference(full: Set, uniq: Set, ghost keys: seq<Key>, ghost s: set<Key>) returns (n: int)
    requires full.Valid() && uniq.Valid() && full.Repr() !! uniq.Repr()
    requires full.Bag() == multiset(keys) && uniq.Bag() == multiset(s)
    modifies full.Repr(), uniq.Repr()
    ensures n == |keys| - |s|
  {
    SizeOfBag(full.Elements(), keys);
    UniqueIsStrict(uniq.Elements(), s);
    var size := full.Size();
    var uniqSize := uniq.Size();
    n := size - uniqSize;
    ghost var released := full.Free();
    released := uniq.Free();
  }

  lemma SizeOfBag(a: seq<Key>, b: seq<Key>)
    requires multiset(a) == multiset(b)
    ensures |a| == |b|
  {
    assert |multiset(a)| == |a| && |multiset(b)| == |b|;
  }

  ghost function InterOf(procs: seq<Process>, i: nat): int
    requires i < |procs|
  {
    CountIn(Candidates(procs[i]), Others(FullBags(procs), i))
  }

  method InterSimi(procs: seq<Process>) returns (report: seq<int>)
    requires |procs| <= MAX_PID
    ensures |report| == |procs| && forall i :: 0 <= i < |procs| ==> report[i] == InterOf(procs, i)
  {
    ghost var bags := FullBags(procs);
    var sets := AllSets(procs, false);
    report := InterLines(sets, procs, bags);
    FreeAll(sets, bags);
  }

  /** print_inter_simi once the sets are built. */
  method InterLines(sets: seq<Set>, procs: seq<Process>, ghost bags: seq<multiset<Key>>) returns (report: seq<int>)
    requires Holds(sets, bags)
    ensures |report| == |procs|
    ensures forall i :: 0 <= i < |procs| ==> report[i] == CountIn(Candidates(procs[i]), Others(bags, i))
  {
    hide Holds;
    report := [];
    for i := 0 to |procs|
      invariant Holds(sets, bags) && |report| == i
      invariant forall j :: 0 <= j < i ==> report[j] == CountIn(Candidates(procs[j]), Others(bags, j))
    {
      var dup := DupInProcess(sets, procs[i], i, bags);
      report := report + [dup];
    }
  }

  /** print_inter_simi's loops over the regions and pages of one process. */
  method DupInProcess(sets: seq<Set>, p: Process, self: int, ghost bags: seq<multiset<Key>>) returns (dup: int)
    requires Holds(sets, bags)
    ensures dup == CountIn(Candidates(p), Others(bags, self))
  {
    hide Holds;
    dup := 0;
    for j := 0 to |p|
      invariant Holds(sets, bags)
      invariant dup == CountIn(Hashes(Flatten(p[..j]), true), Others(bags, self))
    {
      FlattenNext(p, j, true);
      CountInAppend(Hashes(Flatten(p[..j]), true), Hashes(p[j], true), Others(bags, self));
      var d := DupInRegion(sets, p[j], self, true, bags);
      dup := dup + d;
    }
    assert p[..|p|] == p;
  }

  // ---------- print_simi_matrix ----------

  /** The keys of a multiset. */
  function Domain(b: multiset<Key>): set<Key> {
    set k | k in b
  }

  lemma FoundInBags(a: seq<Key>, b: seq<Key>)
    ensures CountIn(a, Support(b)) == SumOver(Domain(multiset(b)), multiset(a))
  {
    FoundInIsSum(a, Support(b));
    assert Domain(multiset(b)) == Support(b);
  }

  ghost function EntryOf(cands: seq<multiset<Key>>, fulls: seq<multiset<Key>>, i: nat, j: nat): int
    requires i < |cands| && j < |fulls|
  {
    if i == j then 0 else SumOver(Domain(fulls[j]), cands[i])
  }

  ghost predicate IsRow(row: seq<int>, cands: seq<multiset<Key>>, fulls: seq<multiset<Key>>, i: nat) {
    i < |cands| && |row| == |fulls| && forall j :: 0 <= j < |fulls| ==> row[j] == EntryOf(cands, fulls, i, j)
  }

  method MatrixRow(cand: Set, sets: seq<Set>, i: nat, ghost cands: seq<multiset<Key>>, ghost fulls: seq<multiset<Key>>)
    returns (row: seq<int>)
    requires Holds(sets, fulls) && cand.Valid() && i < |cands| && cand.Bag() == cands[i]
    ensures IsRow(row, cands, fulls, i)
  {
    row := [];
    for j := 0 to |sets|
      invariant |row| == j && forall k :: 0 <= k < j ==> row[k] == EntryOf(cands, fulls, i, k)
    {
      if i == j {
        row := row + [0];
        continue;
      }
      var n := cand.FoundIn(sets[j]);
      FoundInBags(cand.Elements(), sets[j].Elements());
      row := row + [n];
    }
  }

  ghost function MatrixOf(procs: seq<Process>, i: nat, j: nat): int
    requires i < |procs| && j < |procs|
  {
    EntryOf(CandidateBags(procs), FullBags(procs), i, j)
  }

  lemma RowsAreMatrix(procs: seq<Process>, rows: seq<seq<int>>)
    requires |rows| == |procs|
    requires forall i :: 0 <= i < |rows| ==> IsRow(rows[i], CandidateBags(procs), FullBags(procs), i)
    ensures forall i, j :: 0 <= i < |procs| && 0 <= j < |procs| ==>
              |rows[i]| == |procs| && rows[i][j] == MatrixOf(procs, i, j)
  {
  }

  method SimiMatrix(procs: seq<Process>) returns (rows: seq<seq<int>>)
    requires |procs| <= MAX_PID
    ensures |rows| == |procs|
    ensures forall i, j :: 0 <= i < |procs| && 0 <= j < |procs| ==>
              |rows[i]| == |procs| && rows[i][j] == MatrixOf(procs, i, j)
  {
    var sets := AllSets(procs, false);
    rows := MatrixAgainst(procs, sets);
    RowsAreMatrix(procs, rows);
  }

  /** print_simi_matrix once the full sets are built. */
  method MatrixAgainst(procs: seq<Process>, sets: seq<Set>) returns (rows: seq<seq<int>>)
    requires Holds(sets, FullBags(procs)) && Separate(sets)
    modifies ReprOf(sets)
    ensures |rows| == |procs|
    ensures forall i :: 0 <= i < |rows| ==> IsRow(rows[i], CandidateBags(procs), FullBags(procs), i)
  {
    hide Holds, Separate, ReprOf, IsRow, BagsOf, Freed;
    ReprAllocated(sets);
    var candSets := AllSets(procs, true);
    rows := MatrixRows(candSets, sets, CandidateBags(procs), FullBags(procs));
    FreeBoth(sets, candSets, FullBags(procs), CandidateBags(procs));
  }

  /** print_simi_matrix once both kinds of sets are built. */
  method MatrixRows(candSets: seq<Set>, sets: seq<Set>,
                    ghost cands: seq<multiset<Key>>, ghost fulls: seq<multiset<Key>>)
    returns (rows: seq<seq<int>>)
    requires Holds(sets, fulls) && Holds(candSets, cands)
    ensures |rows| == |candSets| && forall i :: 0 <= i < |rows| ==> IsRow(rows[i], cands, fulls, i)
  {
    rows := [];
    for i := 0 to |candSets|
      invariant |rows| == i && forall k :: 0 <= k < i ==> IsRow(rows[k], cands, fulls, k)
    {
      var row := MatrixRow(candSets[i], sets, i, cands, fulls);
      rows := rows + [row];
    }
  }

  // ---------- print_total_dup ----------

  /** The lines print_total_dup prints; `undefined` if it then reads a first element that does not exist. */
  datatype TotalReport = TotalReport(lines: seq<(int, int)>, undefined: bool)

  /** The number of distinct candidate hashes of process i that are candidates of another process, too. */
  ghost function TotalOf(bags: seq<multiset<Key>>, i: nat): int
    requires i < |bags|
  {
    SumOver(Others(bags, i), bags[i])
  }

  /** The do-while loop for one nonempty unique set. */
  method TotalForSet(s: Set, sets: seq<Set>, self: nat, ghost bags: seq<multiset<Key>>) returns (dup: int)
    requires Holds(sets, bags) && self < |bags| && s.Valid() && s.Bag() == bags[self] && s.root.order != []
    ensures dup == TotalOf(bags, self)
  {
    dup := 0;
    ghost var i, mine, others := 0, s.Elements(), Others(bags, self);
    var d: Node? := s.FirstData();
    while true
      invariant 0 <= i < |mine| && d == s.root.order[i]
      invariant dup == CountIn(mine[..i], others)
      decreases |mine| - i
    {
      var found := FoundInOtherSets(sets, d, self, bags);
      dup := dup + found;
      CountInNext(mine, i, others);
      d := s.Advance(d, i);
      i := i + 1;
      if d == null {
        break;
      }
    }
    assert mine[..i] == mine;
    FoundInIsSum(mine, others);
  }

  /** There is one line for each process before the first that has no candidate. */
  method TotalDup(procs: seq<Process>) returns (report: TotalReport)
    requires |procs| <= MAX_PID
    ensures var n := |report.lines|;
            && n <= |procs|
            && (if report.undefined then n < |procs| && Candidates(procs[n]) == [] else n == |procs|)
            && forall i :: 0 <= i < n ==>
                 && Candidates(procs[i]) != []
                 && report.lines[i] == (TotalOf(UniqueBags(procs), i), |Full(procs[i])|)
  {
    ghost var fulls, uniques := FullBags(procs), UniqueBags(procs);
    var sets := AllSets(procs, false);
    var uniqueSets := AllUniqueSets(procs);
    report := TotalLines(uniqueSets, sets, uniques, fulls);
    forall i | 0 <= i < |procs|
      ensures uniques[i] == multiset{} <==> Candidates(procs[i]) == []
      ensures |fulls[i]| == |Full(procs[i])|
    {
      NoCandidates(Candidates(procs[i]));
    }
  }

  /** No page of the region counts as a candidate: each looks zero or is shared. */
  predicate NothingCountsIn(mr: Region) {
    forall i :: 0 <= i < |mr| ==> mr[i].hash == ZERO_PAGE_HASH || mr[i].share > 1
  }

  lemma {:induction false} NoHashesIff(mr: Region)
    ensures Hashes(mr, true) == [] <==> NothingCountsIn(mr)
  {
    if mr != [] {
      NoHashesIff(mr[..|mr| - 1]);
    }
  }

  predicate NothingCounts(p: Process) {
    forall i :: 0 <= i < |p| ==> NothingCountsIn(p[i])
  }

  lemma {:induction false} NoCandidatesIff(p: Process)
    ensures Candidates(p) == [] <==> NothingCounts(p)
  {
    hide NothingCountsIn;
    if p != [] {
      var init, last := p[..|p| - 1], p[|p| - 1];
      NoCandidatesIff(init);
      NoHashesIff(last);
      HashesAppend(Flatten(init), last, true);
      assert forall i :: 0 <= i < |init| ==> p[i] == init[i];
    }
  }

  /** print_total_dup is undefined exactly if all pages of some process look zero or are shared; the report on two
      processes of which the second has no page breaks off after one line. */
  lemma TotalUndefinedIff(procs: seq<Process>)
    ensures (exists i :: 0 <= i < |procs| && Candidates(procs[i]) == []) <==>
            (exists i :: 0 <= i < |procs| && NothingCounts(procs[i]))
    ensures Candidates([[Page(1, 0)]]) == [1] && Candidates([]) == []
  {
    forall i | 0 <= i < |procs|
      ensures Candidates(procs[i]) == [] <==> NothingCounts(procs[i])
    {
      NoCandidatesIff(procs[i]);
    }
    var mr := [Page(1, 0)];
    FlattenOne(mr);
    assert mr[..0] == [];
  }

  lemma NoCandidates(keys: seq<Key>)
    ensures multiset(Support(keys)) == multiset{} <==> keys == []
  {
    if keys != [] {
      assert keys[0] in multiset(Support(keys));
    }
  }

  ghost predicate AreLines(lines: seq<(int, int)>, uniques: seq<multiset<Key>>, fulls: seq<multiset<Key>>) {
    && |lines| <= |uniques| == |fulls|
    && forall i :: 0 <= i < |lines| ==> uniques[i] != multiset{} && lines[i] == (TotalOf(uniques, i), |fulls[i]|)
  }

  lemma AreLinesNext(lines: seq<(int, int)>, uniques: seq<multiset<Key>>, fulls: seq<multiset<Key>>)
    requires AreLines(lines, uniques, fulls) && |lines| < |uniques|
    ensures var i := |lines|;
            uniques[i] != multiset{} ==> AreLines(lines + [(TotalOf(uniques, i), |fulls[i]|)], uniques, fulls)
  {
  }

  /** The line for one process: none if its unique set has no first element. */
  method TotalLine(u: Set, s: Set, sets: seq<Set>, self: nat, ghost bags: seq<multiset<Key>>)
    returns (line: seq<(int, int)>)
    requires Holds(sets, bags) && self < |bags| && u.Valid() && u.Bag() == bags[self] && s.Valid()
    ensures line == if bags[self] == multiset{} then [] else [(TotalOf(bags, self), |s.Bag()|)]
  {
    var first := u.FirstData();
    if first == null {
      assert u.Elements() == [];
      return [];
    }
    assert u.Elements()[0] in u.Bag();
    var dup := TotalForSet(u, sets, self, bags);
    var n := s.Size();
    line := [(dup, n)];
  }

  /** print_total_dup once the sets are built. */
  method TotalLines(uniqueSets: seq<Set>, sets: seq<Set>,
                    ghost uniques: seq<multiset<Key>>, ghost fulls: seq<multiset<Key>>) returns (report: TotalReport)
    requires Holds(sets, fulls) && Holds(uniqueSets, uniques) && |sets| == |uniqueSets|
    ensures AreLines(report.lines, uniques, fulls)
    ensures var n := |report.lines|;
            if report.undefined then n < |uniques| && uniques[n] == multiset{} else n == |uniques|
  {
    var lines := [];
    for i := 0 to |sets|
      invariant Holds(sets, fulls) && Holds(uniqueSets, uniques)
      invariant |lines| == i && AreLines(lines, uniques, fulls)
    {
      AreLinesNext(lines, uniques, fulls);
      var line := TotalLine(uniqueSets[i], sets[i], uniqueSets, i, uniques);
      if line == [] {
        return TotalReport(lines, true);
      }
      lines := lines + line;
    }
    report := TotalReport(lines, false);
  }

  // ---------- intra_proc_simi_mr ----------

  function IntraMrOf(mr: Region): int {
    |Hashes(mr, false)| - |Support(Hashes(mr, true))|
  }

  method IntraMrSimi(mr: Region) returns (dup: int)
    ensures dup == IntraMrOf(mr)
  {
    hide Set.Valid, Set.Bag;
    FlattenOne(mr);
    var full := SetFromProc([mr], false);
    var uniq := UniqSetFromRegion(mr);
    dup := SizeDifference(full, uniq, Hashes(mr, false), Support(Hashes(mr, true)));
  }

  /** The loop of intra_proc_simi_mr over the pages of a region, which does not skip zero pages: it computes
      what mr_dup_inter, which does, computes (DupInRegion without `candidatesOnly`). */
  method UnfilteredDup(sets: seq<Set>, mr: Region, self: int, ghost bags: seq<multiset<Key>>) returns (dup: int)
    requires Holds(sets, bags) && forall i :: 0 <= i < |bags| ==> ZERO_PAGE_HASH !in bags[i]
    ensures dup == CountIn(Hashes(mr, false), Others(bags, self))
  {
    hide Holds;
    dup := 0;
    for i := 0 to |mr|
      invariant Holds(sets, bags)
      invariant dup == CountIn(Hashes(mr[..i], false), Others(bags, self))
    {
      CountInOne(mr[i].hash, Others(bags, self));
      CountHashesNext(mr, i, false, Others(bags, self));
      var d := new Node(mr[i].hash);
      var found := FoundInOtherSets(sets, d, self, bags);
      dup := dup + found;
    }
    assert mr[..|mr|] == mr;
  }

  ghost function RegionBags(p: Process): (b: seq<multiset<Key>>)
    ensures |b| == |p|
  {
    seq(|p|, i requires 0 <= i < |p| => multiset(Hashes(p[i], false)))
  }

  lemma RegionBagsAt(p: Process, i: nat)
    requires i < |p|
    ensures RegionBags(p)[i] == multiset(Hashes(p[i], false))
  {
  }

  /** Appends set_from_mr(mr). */
  method AppendRegionSet(sets: seq<Set>, mr: Region, ghost bags: seq<multiset<Key>>) returns (sets': seq<Set>)
    requires Holds(sets, bags) && Separate(sets)
    ensures Holds(sets', bags + [multiset(Hashes(mr, false))])
    ensures Separate(sets') && forall o :: o in ReprOf(sets') ==> o in old(ReprOf(sets)) || fresh(o)
  {
    FlattenOne(mr);
    sets' := AppendSet(sets, [mr], false, bags);
  }

  lemma FlattenOne(mr: Region)
    ensures Flatten([mr]) == mr
  {
    assert [mr][..0] == [];
  }

  method AllRegionSets(p: Process) returns (sets: seq<Set>)
    ensures Holds(sets, RegionBags(p))
    ensures Separate(sets) && forall o :: o in ReprOf(sets) ==> fresh(o)
  {
    sets := [];
    ghost var all := RegionBags(p);
    NoSets(sets, all[..0]);
    hide *;
    for i := 0 to |p|
      invariant Holds(sets, all[..i]) && Separate(sets)
      invariant forall o :: o in ReprOf(sets) ==> fresh(o)
    {
      TakeNext(all, i);
      RegionBagsAt(p, i);
      sets := AppendRegionSet(sets, p[i], all[..i]);
    }
    assert all[..|p|] == all;
  }

  /** The pages of region i that some other region of the process holds, too. */
  ghost function AcrossOf(p: Process, i: nat): int
    requires i < |p|
  {
    CountIn(Hashes(p[i], false), Others(RegionBags(p), i))
  }

  /** The lines of intra_proc_simi_mr for the first `n` regions: region number, duplicates within it and
      duplicates across regions, for those regions that have any of the latter. */
  ghost function RegionReport(p: Process, n: nat): seq<(int, int, int)>
    requires n <= |p|
  {
    if n == 0 then []
    else
      RegionReport(p, n - 1) +
      if AcrossOf(p, n - 1) == 0 then [] else [(n - 1, IntraMrOf(p[n - 1]), AcrossOf(p, n - 1))]
  }

  method IntraProcSimiMr(p: Process) returns (report: seq<(int, int, int)>)
    ensures report == RegionReport(p, |p|)
  {
    ghost var bags := RegionBags(p);
    var sets := AllRegionSets(p);
    report := RegionLines(sets, p, bags);
    FreeAll(sets, bags);
  }

  /** The line for one region, if it has duplicates in other regions. */
  method RegionLine(sets: seq<Set>, p: Process, i: nat, ghost bags: seq<multiset<Key>>)
    returns (line: seq<(int, int, int)>)
    requires Holds(sets, bags) && bags == RegionBags(p) && i < |p|
    ensures line == if AcrossOf(p, i) == 0 then [] else [(i, IntraMrOf(p[i]), AcrossOf(p, i))]
  {
    var dup := UnfilteredDup(sets, p[i], i, bags);
    if dup == 0 {
      return [];
    }
    var intra := IntraMrSimi(p[i]);
    line := [(i, intra, dup)];
  }

  /** intra_proc_simi_mr once the sets are built. */
  method RegionLines(sets: seq<Set>, p: Process, ghost bags: seq<multiset<Key>>) returns (report: seq<(int, int, int)>)
    requires Holds(sets, bags) && bags == RegionBags(p)
    ensures report == RegionReport(p, |p|)
  {
    hide Holds;
    report := [];
    for i := 0 to |p|
      invariant Holds(sets, bags)
      invariant report == RegionReport(p, i)
    {
      var line := RegionLine(sets, p, i, bags);
      report := report + line;
    }
  }
}
