/** Reading a region's pages and their mapping counts: read_mem, walk_pfn and mr_parse_pagemap of jni/mem.c. */
module Pagemap {
  import opened RbTree
  import PageHash

  // pageSize is 4096, written out below to keep the arithmetic linear.
  const TWO31: nat := 0x8000_0000
  const TWO32: nat := 0x1_0000_0000
  const TWO64: nat := 0x1_0000_0000_0000_0000

  type U64 = n: nat | n < TWO64

  /** struct Page: the hash of a page's bytes and the number of page-table entries referring to its frame. */
  datatype Page = Page(hash: Key, share: int)

  /** page_to_u32 of a page with these bytes. */
  function HashKey(bytes: seq<bv8>): (k: Key)
    ensures k as bv32 == PageHash.HashOf(bytes)
  {
    PageHash.HashOf(bytes) as int
  }

  lemma KeysTellHashesApart(p: seq<bv8>, q: seq<bv8>)
    ensures HashKey(p) == HashKey(q) <==> PageHash.HashOf(p) == PageHash.HashOf(q)
  {
  }

  /** struct MemReg.  Addresses are unsigned longs. */
  class MemReg {
    const start: U64
    const end: U64
    var pages: array<Page>

    constructor (start: U64, end: U64)
      ensures this.start == start && this.end == end
    {
      this.start := start;
      this.end := end;
      pages := new Page[0];
    }

    /** mr_page_num.  The kernel never reports an end below the start. */
    function PageNum(): nat
      requires start <= end
    {
      (end - start) / 4096
    }

    /** The number of the page at the start of the region. */
    function FirstPage(): nat {
      start / 4096
    }

    lemma Numbers()
      requires start <= end
      ensures PageNum() == (end - start) / 4096 && FirstPage() == start / 4096
    {
    }
  }

  // ---------- read_mem ----------

  /** What one fread of a page delivers: the page, or anything shorter. */
  datatype Chunk = Whole(bytes: seq<bv8>) | Partial

  type Memory = f: nat -> Chunk | forall k :: f(k).Whole? ==> |f(k).bytes| == 4096
    witness (_ => Partial)

  /** page_hash of the k-th page read, if it was read whole. */
  datatype Reading = Hashed(hash: Key) | Failed

  function Readings(mem: Memory): nat -> Reading {
    (k: nat) => if mem(k).Whole? then Hashed(HashKey(mem(k).bytes)) else Failed
  }

  /** The hashes of the pages that the first `n` reads deliver whole. */
  function Delivered(readings: nat -> Reading, n: nat): (h: seq<Key>)
    ensures |h| <= n
  {
    if n == 0 then []
    else if readings(n - 1).Hashed? then Delivered(readings, n - 1) + [readings(n - 1).hash]
    else Delivered(readings, n - 1)
  }

  lemma {:induction false} DeliveredAll(readings: nat -> Reading, n: nat)
    requires forall k: nat :: k < n ==> readings(k).Hashed?
    ensures |Delivered(readings, n)| == n
    ensures forall k: nat :: k < n ==> Delivered(readings, n)[k] == readings(k).hash
  {
    if n > 0 {
      DeliveredAll(readings, n - 1);
    }
  }

  lemma {:induction false} DeliveredAllIff(readings: nat -> Reading, n: nat)
    ensures |Delivered(readings, n)| == n <==> forall k: nat :: k < n ==> readings(k).Hashed?
  {
    if n > 0 {
      DeliveredAllIff(readings, n - 1);
      assert readings(n - 1).Hashed? || exists k: nat :: k < n && !readings(k).Hashed?;
    }
  }

  /** Of the first `k` reads, those that deliver a whole page. */
  function Successes(readings: nat -> Reading, k: nat): set<nat> {
    set j: nat | j < k && readings(j).Hashed?
  }

  lemma SuccessesNext(readings: nat -> Reading, k: nat)
    ensures Successes(readings, k + 1) == Successes(readings, k) + if readings(k).Hashed? then {k} else {}
    ensures |Successes(readings, k + 1)| == |Successes(readings, k)| + if readings(k).Hashed? then 1 else 0
  {
    assert Successes(readings, k + 1) == Successes(readings, k) + if readings(k).Hashed? then {k} else {};
    assert k !in Successes(readings, k);
  }

  /** Each page that could be read has its hash at the index that counts the readable pages before it. */
  lemma {:induction false} DeliveredAt(readings: nat -> Reading, n: nat, k: nat)
    ensures |Delivered(readings, n)| == |set j: nat | j < n && readings(j).Hashed?|
    ensures k < n && readings(k).Hashed? ==>
              var slot := |set j: nat | j < k && readings(j).Hashed?|;
              slot < |Delivered(readings, n)| && Delivered(readings, n)[slot] == readings(k).hash
  {
    if n == 0 {
      assert Successes(readings, 0) == {};
    } else {
      DeliveredAt(readings, n - 1, k);
      SuccessesNext(readings, n - 1);
    }
  }

  function Ceiling(a: nat): nat {
    (a + 4096 - 1) / 4096
  }

  lemma CeilingIs(a: nat, k: nat)
    requires (k - 1) * 4096 < a <= k * 4096
    ensures Ceiling(a) == k
    ensures k <= a / 4096 + 1 && (k == a / 4096 + 1 <==> a % 4096 != 0)
  {
  }

  /** The first slots hold the hashes `h`. */
  predicate Hold(pages: seq<Page>, h: seq<Key>) {
    |h| <= |pages| && forall k :: 0 <= k < |h| ==> pages[k].hash == h[k]
  }

  lemma HoldMore(pages: seq<Page>, h: seq<Key>, hash: Key)
    requires Hold(pages, h) && |h| < |pages|
    ensures var more := pages[|h| := pages[|h|].(hash := hash)];
            Hold(more, h + [hash]) && Shares(more) == Shares(pages)
  {
  }

  lemma HoldNothing(pages: seq<Page>, readings: nat -> Reading)
    ensures Hold(pages, []) && Delivered(readings, 0) == []
  {
  }

  lemma DeliveredNext(readings: nat -> Reading, k: nat)
    ensures Delivered(readings, k + 1) ==
            if readings(k).Hashed? then Delivered(readings, k) + [readings(k).hash] else Delivered(readings, k)
  {
  }

  /** One fread of a page into the buffer `page`, and page_hash of what it has read. */
  method ReadPage(mem: Memory, k: nat, page: array<bv8>) returns (ret: Reading)
    requires page.Length == 4096
    modifies page
    ensures ret == Readings(mem)(k)
  {
    var chunk := mem(k);
    if chunk.Partial? {
      return Failed;
    }
    forall i | 0 <= i < 4096 {
      page[i] := chunk.bytes[i];
    }
    assert page[..4096] == chunk.bytes;
    var hash := PageHash.Hash(page, 4096);
    ret := Hashed(hash as int);
  }

  /** read_mem's inner loop.  A failed read moves on to the next address but not to the next slot.
      `tooSmall` says that the "size too small" break was taken. */
  method FillHashes(mr: MemReg, pages: array<Page>, mem: Memory) returns (tooSmall: bool)
    requires mr.start <= mr.end && mr.end + 4096 <= TWO64
    requires pages.Length == (mr.end - mr.start) / 4096 + 1 < TWO31
    modifies pages
    ensures var h := Delivered(Readings(mem), Ceiling(mr.end - mr.start));
            Hold(pages[..], h) && (tooSmall <==> |h| == pages.Length)
    ensures Shares(pages[..]) == old(Shares(pages[..]))
  {
    hide *;
    var page := new bv8[4096];
    var idx := 0;
    var addr: nat := mr.start;
    var k: nat := 0;
    ghost var h: seq<Key>, length, readings := [], mr.end - mr.start, Readings(mem);
    tooSmall := false;
    HoldNothing(pages[..], readings);
    while addr < mr.end && !tooSmall
      invariant addr == mr.start + k * 4096 && (k - 1) * 4096 < length
      invariant h == Delivered(readings, k) && idx == |h| && (tooSmall <==> |h| == pages.Length)
      invariant |h| <= pages.Length && Hold(pages[..], h) && Shares(pages[..]) == old(Shares(pages[..]))
      decreases mr.end + 4096 - addr
    {
      var ret := ReadPage(mem, k, page);
      DeliveredNext(readings, k);
      addr := addr + 4096;
      k := k + 1;
      if ret.Hashed? {
        ghost var now := pages[..];
        HoldMore(now, h, ret.hash);
        pages[idx] := pages[idx].(hash := ret.hash);
        assert pages[..] == now[idx := now[idx].(hash := ret.hash)];
        h := h + [ret.hash];
        idx := idx + 1;
        if idx == pages.Length {
          tooSmall := true;
        }
      }
    }
    LoopLength(readings, length, k);
  }

  /** The body of read_mem's outer loop: one slot more than the region has pages, then the hashes.  `initial`
      is what the new slots hold before anything is stored in them.  The break is taken exactly if the length
      is no multiple of the page size and every page could be read. */
  method ReadRegion(mr: MemReg, mem: Memory, initial: nat -> Page) returns (tooSmall: bool)
    requires mr.start <= mr.end && mr.end + 4096 <= TWO64 && mr.PageNum() + 1 < TWO31
    modifies mr
    ensures fresh(mr.pages) && mr.pages.Length == mr.PageNum() + 1
    ensures Hold(mr.pages[..], Delivered(Readings(mem), Ceiling(mr.end - mr.start)))
    ensures Shares(mr.pages[..]) == InitialShares(initial, mr.pages.Length)
    ensures tooSmall <==> FillsLastSlot(mem, mr.end - mr.start)
  {
    hide *;
    mr.Numbers();
    var numPages := (mr.end - mr.start) / 4096 + 1;
    FilledIff(mem, mr.end - mr.start, numPages);
    mr.pages := AllocatePages(numPages, initial);
    tooSmall := FillHashes(mr, mr.pages, mem);
  }

  method AllocatePages(n: nat, initial: nat -> Page) returns (pages: array<Page>)
    ensures fresh(pages) && pages.Length == n && Shares(pages[..]) == InitialShares(initial, n)
  {
    pages := new Page[n](i => initial(i));
    hide *;
    assert forall k :: 0 <= k < n ==> pages[k].share == initial(k).share;
  }

  function InitialShares(initial: nat -> Page, n: nat): (s: seq<int>)
    ensures |s| == n && forall k :: 0 <= k < n ==> s[k] == initial(k).share
  {
    seq(n, (k: nat) => initial(k).share)
  }

  /** The first `n` pages can all be read. */
  predicate AllWhole(mem: Memory, n: nat) {
    forall k: nat :: k < n ==> mem(k).Whole?
  }

  /** A region of length `a` that ends within a page, with all of its pages readable. */
  predicate FillsLastSlot(mem: Memory, a: nat) {
    a % 4096 != 0 && AllWhole(mem, Ceiling(a))
  }

  lemma FilledIff(mem: Memory, a: nat, slots: nat)
    requires slots == a / 4096 + 1
    ensures var h := Delivered(Readings(mem), Ceiling(a));
            |h| == slots <==> FillsLastSlot(mem, a)
  {
    DeliveredAllIff(Readings(mem), Ceiling(a));
    CeilingIs(a, Ceiling(a));
    if |Delivered(Readings(mem), Ceiling(a))| == Ceiling(a) {
      forall k: nat | k < Ceiling(a)
        ensures mem(k).Whole?
      {
        assert Readings(mem)(k).Hashed?;
      }
    }
  }

  /** The loop makes one read for every page begun; only the last of them can fill the last slot. */
  lemma LoopLength(readings: nat -> Reading, a: nat, k: nat)
    requires (k as int - 1) * 4096 < a
    requires a <= k * 4096 || |Delivered(readings, k)| == a / 4096 + 1
    ensures k == Ceiling(a)
  {
    CeilingIs(a, k);
  }

  /** If all pages can be read, slot k gets the hash of page k. */
  lemma AllReadsSucceed(mem: Memory, a: nat)
    requires AllWhole(mem, Ceiling(a))
    ensures var h := Delivered(Readings(mem), Ceiling(a));
            && |h| == Ceiling(a) && (|h| == a / 4096 + 1 <==> a % 4096 != 0)
            && forall k: nat :: k < |h| ==> h[k] == HashKey(mem(k).bytes)
  {
    DeliveredAll(Readings(mem), Ceiling(a));
    CeilingIs(a, Ceiling(a));
  }

  // ---------- the pagemap walk ----------

  /** /proc/pid/pagemap, /proc/kpageflags and /proc/kpagecount.  The first two fields are tables of 64-bit words.
      The others say how many words a read delivers, if it asks for as many: of the page map at an index, and
      of the two kernel tables at a frame number, on behalf of a page.  Any of them may be 0. */
  datatype Kernel = Kernel(pagemap: nat -> U64, counts: nat -> U64, entriesRead: nat -> nat,
                           flagsRead: (nat, nat) -> nat, countsRead: (nat, nat) -> nat)

  predicate Present(entry: U64) {
    entry / 0x8000_0000_0000_0000 == 1
  }

  /** pagemap_pfn: the low 55 bits if the present bit, bit 63, is set. */
  function Pfn(entry: U64): nat {
    if Present(entry) then entry % 0x80_0000_0000_0000 else 0
  }

  /** Entries are put together from the present bit, eight flag bits and a frame number of 55 bits; the frame
      number of a present entry can be read back. */
  lemma PfnReadsBack(present: bool, flags: nat, pfn: nat)
    requires flags < 256 && pfn < 36028797018963968
    ensures var entry: int := (if present then 9223372036854775808 else 0) + flags * 36028797018963968 + pfn;
            entry < TWO64 && Pfn(entry) == if present then pfn else 0
  {
  }

  /** Storing a 64-bit count in an int keeps its low 32 bits as a two's complement number. */
  function AsInt(n: U64): (r: int)
    ensures 0 - (TWO31 as int) <= r < TWO31 && (n - r) % TWO32 == 0
  {
    var low := n % TWO32;
    if low < TWO31 then low else low - TWO32
  }

  const KPAGEFLAGS_BATCH: nat := 65536
  const PAGEMAP_BATCH: nat := 16384

  function Min(a: nat, b: nat): nat {
    if a < b then a else b
  }

  /** One kernel read of at most `count` words. */
  method ReadWords(table: nat -> U64, index: nat, count: nat, delivered: nat) returns (words: seq<U64>)
    ensures |words| == Min(count, delivered) && forall i: nat :: i < |words| ==> words[i] == table(index + i)
  {
    words := seq(Min(count, delivered), (i: nat) => table(index + i));
  }

  function Shares(pages: seq<Page>): (s: seq<int>)
    ensures |s| == |pages| && forall i :: 0 <= i < |s| ==> s[i] == pages[i].share
  {
    seq(|pages|, i requires 0 <= i < |pages| => pages[i].share)
  }

  predicate SameHashes(a: seq<Page>, b: seq<Page>) {
    |a| == |b| && forall i :: 0 <= i < |a| ==> a[i].hash == b[i].hash
  }

  /** `shares` with the counts of `n` frames from `index` on stored in the slots from `base` on. */
  function Stored(counts: nat -> U64, shares: seq<int>, base: nat, index: nat, n: nat): (s: seq<int>)
    requires base + n <= |shares|
    ensures |s| == |shares|
  {
    seq(|shares|, (k: nat) requires k < |shares| =>
      (if base <= k && k < base + n then AsInt(counts(index + k - base)) else shares[k]))
  }

  /** A walk over `count` frames whose successive reads deliver the numbers of words listed in `got`. */
  predicate ReadsFor(got: seq<nat>, count: nat) {
    got == [] || (0 < got[0] <= Min(count, KPAGEFLAGS_BATCH) && ReadsFor(got[1..], count - got[0]))
  }

  /** The shares after such a walk.  Each batch is stored from the same slot on: the source advances `index`
      but not `voffset`. */
  function WalkedShares(counts: nat -> U64, shares: seq<int>, base: nat, index: nat, count: nat, got: seq<nat>)
    : (s: seq<int>)
    requires ReadsFor(got, count) && base + count <= |shares|
    ensures |s| == |shares|
    decreases |got|
  {
    if got == [] then shares
    else WalkedShares(counts, Stored(counts, shares, base, index, got[0]), base, index + got[0],
                      count - got[0], got[1..])
  }

  function Total(got: seq<nat>): nat {
    if got == [] then 0 else got[0] + Total(got[1..])
  }

  datatype Walk = Fatal | Walked

  /** How many words the next read of flags delivers to a walk for page `voffset`. */
  function Batch(kernel: Kernel, voffset: nat, index: nat, count: nat): (n: nat)
    ensures n <= count
  {
    Min(Min(count, KPAGEFLAGS_BATCH), kernel.flagsRead(voffset, index))
  }

  predicate CountsMissing(kernel: Kernel, voffset: nat, index: nat, count: nat) {
    kernel.countsRead(voffset, index) < Batch(kernel, voffset, index, count)
  }

  /** The batches that a walk stores; it ends early when a read delivers nothing or counts are missing. */
  function Batches(kernel: Kernel, voffset: nat, index: nat, count: nat): (got: seq<nat>)
    ensures ReadsFor(got, count)
    decreases count
  {
    var n := Batch(kernel, voffset, index, count);
    if n == 0 || CountsMissing(kernel, voffset, index, count) then []
    else [n] + Batches(kernel, voffset, index + n, count - n)
  }

  /** How such a walk ends. */
  function Outcome(kernel: Kernel, voffset: nat, index: nat, count: nat): Walk
    decreases count
  {
    var n := Batch(kernel, voffset, index, count);
    if n == 0 then Walked
    else if CountsMissing(kernel, voffset, index, count) then Fatal
    else Outcome(kernel, voffset, index + n, count - n)
  }

  /** What a walk that has come to frame `index`, with `count` frames left, makes of `shares`. */
  function WalkEnd(kernel: Kernel, shares: seq<int>, base: nat, voffset: nat, index: nat, count: nat): (s: seq<int>)
    requires base + count <= |shares|
    ensures |s| == |shares|
  {
    WalkedShares(kernel.counts, shares, base, index, count, Batches(kernel, voffset, index, count))
  }

  lemma WalkStep(kernel: Kernel, shares: seq<int>, base: nat, voffset: nat, index: nat, count: nat)
    requires base + count <= |shares|
    ensures var n := Batch(kernel, voffset, index, count);
            WalkEnd(kernel, shares, base, voffset, index, count) ==
            if n == 0 || CountsMissing(kernel, voffset, index, count) then shares
            else WalkEnd(kernel, Stored(kernel.counts, shares, base, index, n), base, voffset, index + n, count - n)
    ensures var n := Batch(kernel, voffset, index, count);
            Outcome(kernel, voffset, index, count) ==
            if n == 0 then Walked
            else if CountsMissing(kernel, voffset, index, count) then Fatal
            else Outcome(kernel, voffset, index + n, count - n)
  {
    var n := Batch(kernel, voffset, index, count);
    var rest := Batches(kernel, voffset, index + n, count - n);
    assert ([n] + rest)[1..] == rest;
  }

  /** walk_pfn. */
  method WalkPfn(kernel: Kernel, voffset: nat, index0: nat, count0: nat, mr: MemReg) returns (r: Walk)
    requires mr.start % 4096 == 0 && mr.FirstPage() <= voffset
    requires voffset - mr.FirstPage() + count0 <= mr.pages.Length
    modifies mr.pages
    ensures SameHashes(mr.pages[..], old(mr.pages[..]))
    ensures r == Outcome(kernel, voffset, index0, count0)
    ensures Shares(mr.pages[..]) ==
            WalkEnd(kernel, old(Shares(mr.pages[..])), voffset - mr.FirstPage(), voffset, index0, count0)
    ensures SameOutside(Shares(mr.pages[..]), old(Shares(mr.pages[..])), voffset - mr.FirstPage(), count0)
  {
    hide WalkEnd, Outcome, SameOutside, MemReg.FirstPage;
    var index: nat, count: nat := index0, count0;
    ghost var base := voffset - mr.FirstPage();
    ghost var end := WalkEnd(kernel, Shares(mr.pages[..]), base, voffset, index, count);
    WalkEndFrame(kernel, Shares(mr.pages[..]), base, voffset, index, count);
    while count != 0
      invariant count <= count0
      invariant SameHashes(mr.pages[..], old(mr.pages[..]))
      invariant Outcome(kernel, voffset, index, count) == Outcome(kernel, voffset, index0, count0)
      invariant WalkEnd(kernel, Shares(mr.pages[..]), base, voffset, index, count) == end
      decreases count
    {
      WalkStep(kernel, Shares(mr.pages[..]), base, voffset, index, count);
      var batch := Min(count, KPAGEFLAGS_BATCH);
      var pages := Min(batch, kernel.flagsRead(voffset, index));
      if pages == 0 {
        break;
      }
      var cnt := ReadWords(kernel.counts, index, pages, kernel.countsRead(voffset, index));
      if |cnt| != pages {
        return Fatal;
      }
      StoreBatch(kernel.counts, voffset, index, cnt, mr);
      index := index + pages;
      count := count - pages;
    }
    WalkStep(kernel, Shares(mr.pages[..]), base, voffset, index, count);
    r := Walked;
  }

  /** The inner loop of walk_pfn. */
  method StoreBatch(ghost counts: nat -> U64, voffset: nat, ghost index: nat, cnt: seq<U64>, mr: MemReg)
    requires mr.start % 4096 == 0 && mr.FirstPage() <= voffset
    requires voffset - mr.FirstPage() + |cnt| <= mr.pages.Length
    requires forall i: nat :: i < |cnt| ==> cnt[i] == counts(index + i)
    modifies mr.pages
    ensures SameHashes(mr.pages[..], old(mr.pages[..]))
    ensures Shares(mr.pages[..]) ==
            Stored(counts, old(Shares(mr.pages[..])), voffset - mr.FirstPage(), index, |cnt|)
  {
    ghost var base := voffset - mr.FirstPage();
    var i := 0;
    while i < |cnt|
      invariant 0 <= i <= |cnt|
      invariant forall k :: 0 <= k < mr.pages.Length ==> mr.pages[k].hash == old(mr.pages[k].hash)
      invariant forall k :: 0 <= k < mr.pages.Length ==>
                  mr.pages[k].share == if base <= k < base + i then AsInt(cnt[k - base]) else old(mr.pages[k].share)
    {
      var vaddr := (voffset + i) * 4096;
      var pageOff := (vaddr - mr.start) / 4096;
      assert pageOff == base + i;
      mr.pages[pageOff] := mr.pages[pageOff].(share := AsInt(cnt[i]));
      i := i + 1;
    }
  }

  // ---------- what a multi-page walk leaves ----------

  /** The slots from `base` on hold the counts of the frames from `index` on. */
  predicate Exact(counts: nat -> U64, shares: seq<int>, base: nat, index: nat, count: nat)
    requires base + count <= |shares|
  {
    forall k :: base <= k < base + count ==> shares[k] == AsInt(counts(index + k - base))
  }

  /** Only the `count` slots from `base` on may differ. */
  predicate SameOutside(a: seq<int>, b: seq<int>, base: nat, count: nat) {
    |a| == |b| && forall k :: 0 <= k < |a| && !(base <= k < base + count) ==> a[k] == b[k]
  }

  /** Slots outside the range are never touched. */
  lemma {:induction false} WalkFrame(counts: nat -> U64, shares: seq<int>, base: nat, index: nat, count: nat,
                                     got: seq<nat>)
    requires ReadsFor(got, count) && base + count <= |shares|
    ensures SameOutside(WalkedShares(counts, shares, base, index, count, got), shares, base, count)
    decreases |got|
  {
    if got != [] {
      var next := Stored(counts, shares, base, index, got[0]);
      WalkFrame(counts, next, base, index + got[0], count - got[0], got[1..]);
      assert forall k :: 0 <= k < |shares| && !(base <= k < base + count) ==> next[k] == shares[k];
    }
  }

  lemma WalkEndFrame(kernel: Kernel, shares: seq<int>, base: nat, voffset: nat, index: nat, count: nat)
    requires base + count <= |shares|
    ensures SameOutside(WalkEnd(kernel, shares, base, voffset, index, count), shares, base, count)
  {
    WalkFrame(kernel.counts, shares, base, index, count, Batches(kernel, voffset, index, count));
  }

  /** If no single read delivers all `count` words, the last slot keeps its old share. */
  lemma {:induction false} SplitWalkMissesLast(counts: nat -> U64, shares: seq<int>, base: nat, index: nat, count: nat,
                                               got: seq<nat>, last: nat)
    requires ReadsFor(got, count) && base + count <= |shares|
    requires base + count <= last < |shares| || (last == base + count - 1 && got != [] && got[0] < count)
    ensures WalkedShares(counts, shares, base, index, count, got)[last] == shares[last]
    decreases |got|
  {
    if got != [] {
      SplitWalkMissesLast(counts, Stored(counts, shares, base, index, got[0]), base, index + got[0], count - got[0],
                          got[1..], last);
    }
  }

  lemma FirstReadDecides(got: seq<nat>, count: nat)
    requires count > 0 && ReadsFor(got, count) && got != []
    ensures got[0] == count <==> got == [count]
  {
    if got[0] == count {
      assert got == [count] + got[1..];
    }
  }

  /** A run whose reads deliver `got` leaves the right shares, whatever the counts and the old shares. */
  ghost predicate RunExact(base: nat, index: nat, count: nat, got: seq<nat>)
    requires ReadsFor(got, count)
  {
    forall counts: nat -> U64, shares: seq<int> {:trigger WalkedShares(counts, shares, base, index, count, got)} ::
      base + count <= |shares| ==>
        Exact(counts, WalkedShares(counts, shares, base, index, count, got), base, index, count)
  }

  /** A nonempty run is exact exactly when its first read delivers all of it: the source does not advance
      `voffset` between batches.  So no run of more than a batch is exact. */
  lemma RunExactIff(base: nat, index: nat, count: nat, got: seq<nat>)
    requires count > 0 && ReadsFor(got, count)
    ensures RunExact(base, index, count, got) <==> got == [count]
    ensures count > 65536 ==> !RunExact(base, index, count, got)
  {
    if got == [count] {
      forall counts: nat -> U64, shares: seq<int> | base + count <= |shares|
        ensures Exact(counts, WalkedShares(counts, shares, base, index, count, got), base, index, count)
      {
        assert got[1..] == [];
      }
    } else {
      var counts: nat -> U64, shares := _ => 0, seq(base + count, _ => 1);
      SplitRunIsInexact(counts, shares, base, index, count, got);
    }
  }

  lemma SplitRunIsInexact(counts: nat -> U64, shares: seq<int>, base: nat, index: nat, count: nat, got: seq<nat>)
    requires count > 0 && ReadsFor(got, count) && got != [count] && base + count <= |shares|
    requires shares[base + count - 1] == 1 && counts(index + count - 1) == 0
    ensures !Exact(counts, WalkedShares(counts, shares, base, index, count, got), base, index, count)
  {
    var last := base + count - 1;
    if got != [] {
      FirstReadDecides(got, count);
      SplitWalkMissesLast(counts, shares, base, index, count, got, last);
    }
    assert WalkedShares(counts, shares, base, index, count, got)[last] == 1;
    assert AsInt(counts(index + last - base)) == 0;
  }

  /** Every read delivers something, and no counts are missing. */
  ghost predicate Answers(kernel: Kernel, voffset: nat) {
    forall index :: 0 < kernel.flagsRead(voffset, index) <= kernel.countsRead(voffset, index)
  }

  lemma {:induction false} AnsweredInFull(kernel: Kernel, voffset: nat, index: nat, count: nat)
    requires Answers(kernel, voffset)
    ensures Outcome(kernel, voffset, index, count) == Walked
    ensures Total(Batches(kernel, voffset, index, count)) == count
    decreases count
  {
    if count > 0 {
      var n := Batch(kernel, voffset, index, count);
      AnsweredInFull(kernel, voffset, index + n, count - n);
    }
  }

  /** walk_pfn leaves the right shares, in however many short reads it gets its counts, exactly if it is asked
      for at most one frame. */
  lemma WalkExactIff(voffset: nat, base: nat, index: nat, count: nat)
    ensures count <= 1 <==>
            forall kernel {:trigger Answers(kernel, voffset)} :: Answers(kernel, voffset) ==>
              RunExact(base, index, count, Batches(kernel, voffset, index, count))
  {
    forall kernel {:trigger Answers(kernel, voffset)} | Answers(kernel, voffset)
      ensures count <= 1 ==> RunExact(base, index, count, Batches(kernel, voffset, index, count))
    {
      if count == 1 {
        var got := Batches(kernel, voffset, index, count);
        AnsweredInFull(kernel, voffset, index, count);
        assert got != [];
        FirstReadDecides(got, count);
        RunExactIff(base, index, count, got);
      }
    }
    if count > 1 {
      var kernel := Kernel(_ => 0, _ => 0, _ => 1, (_, _) => 1, (_, _) => 1);
      assert Answers(kernel, voffset);
      assert Batches(kernel, voffset, index, count)[0] == 1;
      RunExactIff(base, index, count, Batches(kernel, voffset, index, count));
    }
  }

  // ---------- mr_parse_pagemap ----------

  /** The walk that slot `k` of a region starting at page `first` gets: none if its page has no frame. */
  function SlotOutcome(kernel: Kernel, first: nat, k: nat): Walk {
    var pfn := Pfn(kernel.pagemap(first + k));
    if pfn == 0 then Walked else Outcome(kernel, first + k, pfn, 1)
  }

  /** The share it leaves: the count of the frame as an int, or the old share if the page has no frame or the
      read of its flags delivers nothing. */
  function ShareAfter(kernel: Kernel, first: nat, old': int, k: nat): int {
    var pfn := Pfn(kernel.pagemap(first + k));
    if pfn == 0 || kernel.flagsRead(first + k, pfn) == 0 then old' else AsInt(kernel.counts(pfn))
  }

  /** The walk has passed `n` slots: each holds what it should, and the slots beyond are untouched. */
  predicate PassedTo(kernel: Kernel, first: nat, before: seq<int>, now: seq<int>, n: nat) {
    && n <= |now| == |before|
    && (forall k :: n <= k < |now| ==> now[k] == before[k])
    && (forall k :: 0 <= k < n ==> now[k] == ShareAfter(kernel, first, before[k], k))
    && (forall k: nat :: k < n ==> SlotOutcome(kernel, first, k) == Walked)
  }

  lemma NothingPassed(kernel: Kernel, first: nat, before: seq<int>)
    ensures PassedTo(kernel, first, before, before, 0)
  {
  }

  /** What a walk over a single frame, as mr_parse_pagemap makes it, does. */
  lemma WalkOneFrame(kernel: Kernel, shares: seq<int>, voffset: nat, base: nat, pfn: nat)
    requires base < |shares|
    ensures WalkEnd(kernel, shares, base, voffset, pfn, 1) ==
            if kernel.flagsRead(voffset, pfn) == 0 || Outcome(kernel, voffset, pfn, 1) == Fatal then shares
            else shares[base := AsInt(kernel.counts(pfn))]
  {
    var next := Stored(kernel.counts, shares, base, pfn, 1);
    WalkStep(kernel, shares, base, voffset, pfn, 1);
    WalkStep(kernel, next, base, voffset, pfn + 1, 0);
    assert next == shares[base := AsInt(kernel.counts(pfn))];
  }

  lemma SlotPassed(kernel: Kernel, first: nat, before: seq<int>, now: seq<int>, n: nat)
    requires PassedTo(kernel, first, before, now, n) && n < |now|
    ensures var pfn := Pfn(kernel.pagemap(first + n));
            var next := if pfn == 0 then now else WalkEnd(kernel, now, n, first + n, pfn, 1);
            if SlotOutcome(kernel, first, n) == Fatal then next == now else PassedTo(kernel, first, before, next, n + 1)
  {
    var pfn := Pfn(kernel.pagemap(first + n));
    if pfn != 0 {
      WalkOneFrame(kernel, now, first + n, n, pfn);
    }
  }

  /** The body of mr_parse_pagemap's inner loop for the page `voffset`, which has slot `n`. */
  method PassEntry(kernel: Kernel, voffset: nat, entry: U64, mr: MemReg, ghost n: nat, ghost before: seq<int>)
    returns (r: Walk)
    requires mr.start % 4096 == 0 && n < mr.pages.Length
    requires voffset == mr.FirstPage() + n && entry == kernel.pagemap(voffset)
    requires PassedTo(kernel, mr.FirstPage(), before, Shares(mr.pages[..]), n)
    modifies mr.pages
    ensures SameHashes(mr.pages[..], old(mr.pages[..]))
    ensures r == SlotOutcome(kernel, mr.FirstPage(), n)
    ensures PassedTo(kernel, mr.FirstPage(), before, Shares(mr.pages[..]), if r.Fatal? then n else n + 1)
  {
    hide PassedTo, WalkEnd, Outcome, Pfn, MemReg.FirstPage;
    SlotPassed(kernel, mr.FirstPage(), before, Shares(mr.pages[..]), n);
    r := Walked;
    var pfn := Pfn(entry);
    if pfn != 0 {
      r := WalkPfn(kernel, voffset, pfn, 1, mr);
    }
  }

  /** mr_parse_pagemap's inner loop: the pages from `index` on, one for each entry in `buf`; slot `n` is the first
      of theirs. */
  method PassEntries(kernel: Kernel, index: nat, buf: seq<U64>, mr: MemReg, ghost n: nat, ghost before: seq<int>)
    returns (r: Walk, ghost done: nat)
    requires mr.start % 4096 == 0 && n + |buf| <= mr.pages.Length
    requires index == mr.FirstPage() + n
    requires forall i: nat :: i < |buf| ==> buf[i] == kernel.pagemap(index + i)
    requires PassedTo(kernel, mr.FirstPage(), before, Shares(mr.pages[..]), n)
    modifies mr.pages
    ensures SameHashes(mr.pages[..], old(mr.pages[..]))
    ensures PassedTo(kernel, mr.FirstPage(), before, Shares(mr.pages[..]), done)
    ensures if r.Walked? then done == n + |buf|
            else done < n + |buf| && SlotOutcome(kernel, mr.FirstPage(), done) == Fatal
  {
    hide PassedTo, SlotOutcome, MemReg.FirstPage;
    var i := 0;
    done := n;
    while i < |buf|
      invariant 0 <= i <= |buf| && done == n + i
      invariant SameHashes(mr.pages[..], old(mr.pages[..]))
      invariant PassedTo(kernel, mr.FirstPage(), before, Shares(mr.pages[..]), done)
    {
      r := PassEntry(kernel, index + i, buf[i], mr, done, before);
      if r.Fatal? {
        return;
      }
      i := i + 1;
      done := done + 1;
    }
    r := Walked;
  }

  /** How many of the `count` entries from `index` on the reads of the page map deliver, up to the first that
      delivers nothing. */
  function Reached(kernel: Kernel, index: nat, count: nat): (n: nat)
    ensures n <= count
    decreases count
  {
    var n := Min(Min(count, PAGEMAP_BATCH), kernel.entriesRead(index));
    if n == 0 then 0 else n + Reached(kernel, index + n, count - n)
  }

  /** The walk over `count` slots ends after `done` of them: all whose entries are delivered, or those before the
      first whose counts are missing. */
  predicate Ended(kernel: Kernel, first: nat, count: nat, r: Walk, done: nat) {
    var n := Reached(kernel, first, count);
    if r.Walked? then done == n else done < n && SlotOutcome(kernel, first, done) == Fatal
  }

  lemma ReachedNext(kernel: Kernel, index: nat, count: nat)
    ensures var n := Min(Min(count, 16384), kernel.entriesRead(index));
            n <= count &&
            Reached(kernel, index, count) == if n == 0 then 0 else n + Reached(kernel, index + n, count - n)
  {
  }

  /** mr_parse_pagemap. */
  method MrParsePagemap(kernel: Kernel, mr: MemReg) returns (r: Walk, ghost done: nat)
    requires mr.start <= mr.end && mr.start % 4096 == 0 && mr.PageNum() <= mr.pages.Length
    modifies mr.pages
    ensures SameHashes(mr.pages[..], old(mr.pages[..]))
    ensures PassedTo(kernel, mr.FirstPage(), old(Shares(mr.pages[..])), Shares(mr.pages[..]), done)
    ensures Ended(kernel, mr.FirstPage(), mr.PageNum(), r, done)
  {
    hide PassedTo, SlotOutcome, Reached, Min, MemReg.PageNum, MemReg.FirstPage;
    mr.Numbers();
    var count: nat, index: nat := (mr.end - mr.start) / 4096, mr.start / 4096;
    ghost var first, all, before := index, count, Shares(mr.pages[..]);
    done := 0;
    NothingPassed(kernel, first, before);
    while count != 0
      invariant done + count == all && index == first + done
      invariant done + Reached(kernel, index, count) == Reached(kernel, first, all)
      invariant SameHashes(mr.pages[..], old(mr.pages[..]))
      invariant PassedTo(kernel, first, before, Shares(mr.pages[..]), done)
      decreases count
    {
      ReachedNext(kernel, index, count);
      var batch := Min(count, PAGEMAP_BATCH);
      var buf := ReadWords(kernel.pagemap, index, batch, kernel.entriesRead(index));
      if |buf| == 0 {
        break;
      }
      r, done := PassEntries(kernel, index, buf, mr, done, before);
      if r.Fatal? {
        return;
      }
      index := index + |buf|;
      count := count - |buf|;
    }
    ReachedNext(kernel, index, count);
    r := Walked;
  }

  lemma {:induction false} AllReached(kernel: Kernel, index: nat, count: nat)
    requires forall i :: kernel.entriesRead(i) > 0
    ensures Reached(kernel, index, count) == count
    decreases count
  {
    if count > 0 {
      var n := Min(Min(count, PAGEMAP_BATCH), kernel.entriesRead(index));
      AllReached(kernel, index + n, count - n);
    }
  }

  // ---------- the two passes together ----------

  /** proc_do and proc_parse_pagemap on one region whose slots hold `initial` when they are allocated.  If the region
      is page-aligned and all of its pages can be read, slot k ends with the hash of page k, and the "size too small"
      break is not taken; if no read of a table is empty and no counts are missing, slot k ends with the count of
      its frame, or with its old share if it has no frame, into whatever short reads the tables are split.  What
      the other clauses come to in general is said by SlotIs, TooSmallIs, ShareIs and EndedIs below. */
  method LoadRegion(mr: MemReg, mem: Memory, kernel: Kernel, initial: nat -> Page)
    returns (r: Walk, tooSmall: bool, ghost done: nat)
    requires mr.start <= mr.end && mr.start % 4096 == 0
    requires mr.end + 4096 <= TWO64 && mr.PageNum() + 1 < TWO31
    modifies mr
    ensures mr.pages.Length == mr.PageNum() + 1
    ensures Hold(mr.pages[..], Delivered(Readings(mem), Ceiling(mr.end - mr.start)))
    ensures tooSmall <==> FillsLastSlot(mem, mr.end - mr.start)
    ensures PassedTo(kernel, mr.FirstPage(), InitialShares(initial, mr.pages.Length), Shares(mr.pages[..]), done)
    ensures Ended(kernel, mr.FirstPage(), mr.PageNum(), r, done)
    ensures (mr.end - mr.start) % 4096 == 0 && (forall k: nat :: k < mr.PageNum() ==> mem(k).Whole?) ==>
              var pages := mr.pages[..];
              !tooSmall && forall k: nat :: k < mr.PageNum() ==> pages[k].hash == HashKey(mem(k).bytes)
    ensures (forall i :: kernel.entriesRead(i) > 0) &&
            (forall page, i :: 0 < kernel.flagsRead(page, i) <= kernel.countsRead(page, i)) ==>
              var pages := mr.pages[..];
              && r.Walked? && done == mr.PageNum()
              && forall k: nat :: k < mr.PageNum() ==>
                   var pfn := Pfn(kernel.pagemap(mr.FirstPage() + k));
                   pages[k].share == if pfn == 0 then initial(k).share else AsInt(kernel.counts(pfn))
  {
    hide *;
    tooSmall := ReadRegion(mr, mem, initial);
    ghost var slots := mr.pages[..];
    r, done := MrParsePagemap(kernel, mr);
    KeepsHashes(slots, mr.pages[..], Delivered(Readings(mem), Ceiling(mr.end - mr.start)));
    HashesExact(mr, mr.pages[..], mem, tooSmall);
    SharesExact(mr, mr.pages[..], kernel, initial, r, done);
  }

  lemma HashesExact(mr: MemReg, pages: seq<Page>, mem: Memory, tooSmall: bool)
    requires mr.start <= mr.end && |pages| == mr.PageNum() + 1
    requires Hold(pages, Delivered(Readings(mem), Ceiling(mr.end - mr.start)))
    requires tooSmall <==> FillsLastSlot(mem, mr.end - mr.start)
    ensures (mr.end - mr.start) % 4096 == 0 && (forall k: nat :: k < mr.PageNum() ==> mem(k).Whole?) ==>
              !tooSmall && forall k: nat :: k < mr.PageNum() ==> pages[k].hash == HashKey(mem(k).bytes)
  {
    hide Delivered, MemReg.PageNum;
    if (mr.end - mr.start) % 4096 == 0 && forall k: nat :: k < mr.PageNum() ==> mem(k).Whole? {
      mr.Numbers();
      forall k: nat | k < mr.PageNum()
        ensures pages[k].hash == HashKey(mem(k).bytes)
      {
        AlignedSlotIs(pages, mem, mr.end - mr.start, mr.PageNum(), k);
      }
    }
  }

  lemma SharesExact(mr: MemReg, pages: seq<Page>, kernel: Kernel, initial: nat -> Page, r: Walk, done: nat)
    requires mr.start <= mr.end && |pages| == mr.PageNum() + 1
    requires PassedTo(kernel, mr.FirstPage(), InitialShares(initial, |pages|), Shares(pages), done)
    requires Ended(kernel, mr.FirstPage(), mr.PageNum(), r, done)
    ensures (forall i :: kernel.entriesRead(i) > 0) &&
            (forall page, i :: 0 < kernel.flagsRead(page, i) <= kernel.countsRead(page, i)) ==>
              && r.Walked? && done == mr.PageNum()
              && forall k: nat :: k < mr.PageNum() ==>
                   var pfn := Pfn(kernel.pagemap(mr.FirstPage() + k));
                   pages[k].share == if pfn == 0 then initial(k).share else AsInt(kernel.counts(pfn))
  {
    hide *;
    if (forall i :: kernel.entriesRead(i) > 0) &&
       (forall page, i :: 0 < kernel.flagsRead(page, i) <= kernel.countsRead(page, i)) {
      EndsWhenAnswered(kernel, mr.FirstPage(), mr.PageNum(), r, done);
      forall k: nat | k < mr.PageNum()
        ensures var pfn := Pfn(kernel.pagemap(mr.FirstPage() + k));
                pages[k].share == if pfn == 0 then initial(k).share else AsInt(kernel.counts(pfn))
      {
        ShareIs(pages, initial, kernel, mr.FirstPage(), done, k);
      }
    }
  }

  lemma KeepsHashes(a: seq<Page>, b: seq<Page>, h: seq<Key>)
    requires SameHashes(b, a) && Hold(a, h)
    ensures Hold(b, h)
  {
  }

  lemma SlotIs(pages: seq<Page>, mem: Memory, n: nat, k: nat)
    requires Hold(pages, Delivered(Readings(mem), n)) && k < n && mem(k).Whole?
    ensures var slot := |set j: nat | j < k && mem(j).Whole?|;
            slot < |pages| && pages[slot].hash == HashKey(mem(k).bytes)
  {
    hide Delivered;
    DeliveredAt(Readings(mem), n, k);
    assert (set j: nat | j < k && mem(j).Whole?) == set j: nat | j < k && Readings(mem)(j).Hashed?;
  }

  lemma AlignedSlotIs(pages: seq<Page>, mem: Memory, length: nat, n: nat, k: nat)
    requires Hold(pages, Delivered(Readings(mem), Ceiling(length)))
    requires length % 4096 == 0 && n == length / 4096 && k < n
    requires forall j: nat :: j < n ==> mem(j).Whole?
    ensures k < |pages| && pages[k].hash == HashKey(mem(k).bytes)
  {
    hide Delivered;
    CeilingIs(length, n);
    AllReadsSucceed(mem, length);
  }

  lemma TooSmallIs(mem: Memory, length: nat)
    ensures FillsLastSlot(mem, length) <==>
              length % 4096 != 0 && forall k: nat :: k < Ceiling(length) ==> mem(k).Whole?
  {
  }

  lemma ShareIs(pages: seq<Page>, initial: nat -> Page, kernel: Kernel, first: nat, done: nat, k: nat)
    requires PassedTo(kernel, first, InitialShares(initial, |pages|), Shares(pages), done) && k < |pages|
    ensures var pfn := Pfn(kernel.pagemap(first + k));
            pages[k].share == if k < done && pfn != 0 && kernel.flagsRead(first + k, pfn) > 0
                              then AsInt(kernel.counts(pfn)) else initial(k).share
  {
    assert Shares(pages)[k] == pages[k].share;
  }

  lemma FatalIff(kernel: Kernel, first: nat, k: nat)
    ensures var pfn := Pfn(kernel.pagemap(first + k));
            SlotOutcome(kernel, first, k) == Fatal <==>
              pfn != 0 && kernel.flagsRead(first + k, pfn) > 0 && kernel.countsRead(first + k, pfn) == 0
  {
    var pfn := Pfn(kernel.pagemap(first + k));
    if kernel.countsRead(first + k, pfn) > 0 {
      assert Outcome(kernel, first + k, pfn + 1, 0) == Walked;
    }
  }

  /** The walk ends before all delivered entries only at the first page whose frame has flags but no count. */
  lemma EndedIs(kernel: Kernel, first: nat, count: nat, before: seq<int>, now: seq<int>, r: Walk, done: nat, k: nat)
    requires PassedTo(kernel, first, before, now, done) && Ended(kernel, first, count, r, done)
    requires k < done || (k == done && r.Fatal?)
    ensures done <= Reached(kernel, first, count) && (r.Walked? <==> done == Reached(kernel, first, count))
    ensures var pfn := Pfn(kernel.pagemap(first + k));
            k == done <==>
              pfn != 0 && kernel.flagsRead(first + k, pfn) > 0 && kernel.countsRead(first + k, pfn) == 0
  {
    FatalIff(kernel, first, k);
  }

  lemma EndsWhenAnswered(kernel: Kernel, first: nat, count: nat, r: Walk, done: nat)
    requires Ended(kernel, first, count, r, done)
    requires forall i :: kernel.entriesRead(i) > 0
    requires forall page, i :: 0 < kernel.flagsRead(page, i) <= kernel.countsRead(page, i)
    ensures r.Walked? && done == count
  {
    AllReached(kernel, first, count);
    assert Answers(kernel, first + done);
    AnsweredInFull(kernel, first + done, Pfn(kernel.pagemap(first + done)), 1);
  }
}
