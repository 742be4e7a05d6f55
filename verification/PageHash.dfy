/** page_hash of jni/mem.c: the 32-bit Jenkins one-at-a-time hash, and the zero-page test built on it. */
module PageHash {

  const PAGE_SIZE := 4096

  // ---------- the statements of the hash and their inverses ----------

  function Absorb(h: bv32, b: bv8): bv32 {
    h + b as bv32
  }

  function Unabsorb(h: bv32, b: bv8): bv32 {
    h - b as bv32
  }

  function Spread(h: bv32): bv32 {
    h + (h << 10)
  }

  function Unspread(h: bv32): bv32 {
    h * 0xC00FFC01
  }

  function Fold(h: bv32): bv32 {
    h ^ (h >> 6)
  }

  function Unfold(h: bv32): bv32 {
    var a := h ^ (h >> 6);
    var b := a ^ (a >> 12);
    b ^ (b >> 24)
  }

  function Spread3(h: bv32): bv32 {
    h + (h << 3)
  }

  function Unspread3(h: bv32): bv32 {
    h * 0x38E38E39
  }

  function Fold11(h: bv32): bv32 {
    h ^ (h >> 11)
  }

  function Unfold11(h: bv32): bv32 {
    var a := h ^ (h >> 11);
    a ^ (a >> 22)
  }

  function Spread15(h: bv32): bv32 {
    h + (h << 15)
  }

  function Unspread15(h: bv32): bv32 {
    h - (h << 15) + (h << 30)
  }

  /** One turn of the loop. */
  function Round(h: bv32, b: bv8): bv32 {
    Fold(Spread(Absorb(h, b)))
  }

  function Unround(h: bv32, b: bv8): bv32 {
    Unabsorb(Unspread(Unfold(h)), b)
  }

  /** The three statements after the loop. */
  function Finish(h: bv32): bv32 {
    Spread15(Fold11(Spread3(h)))
  }

  function Unfinish(h: bv32): bv32 {
    Unspread3(Unfold11(Unspread15(h)))
  }

  // Each statement can be undone.  The lemmas named ...Term spell out the inner function, which lets the
  // solver simplify the bit-vector term as a whole.

  lemma UndoAbsorbTerm(h: bv32, b: bv8)
    ensures Unabsorb(h + b as bv32, b) == h
  {
  }

  lemma UndoAbsorb(h: bv32, b: bv8)
    ensures Unabsorb(Absorb(h, b), b) == h
  {
    UndoAbsorbTerm(h, b);
  }

  function SpreadProduct(h: bv32): bv32 {
    h + h * 1024
  }

  lemma SpreadIsProduct(h: bv32)
    ensures Spread(h) == SpreadProduct(h)
  {
  }

  lemma UndoSpreadProduct(h: bv32)
    ensures Unspread(SpreadProduct(h)) == h
  {
    UndoSpreadTerm(h);
  }

  lemma UndoSpreadTerm(h: bv32)
    ensures Unspread(h + h * 1024) == h
  {
  }

  lemma UndoSpread(h: bv32)
    ensures Unspread(Spread(h)) == h
  {
    SpreadIsProduct(h);
    UndoSpreadProduct(h);
  }

  lemma UndoFoldTerm(h: bv32)
    ensures Unfold(h ^ (h >> 6)) == h
  {
  }

  lemma UndoFold(h: bv32)
    ensures Unfold(Fold(h)) == h
  {
    UndoFoldTerm(h);
  }

  function Spread3Product(h: bv32): bv32 {
    h + h * 8
  }

  lemma Spread3IsProduct(h: bv32)
    ensures Spread3(h) == Spread3Product(h)
  {
  }

  lemma UndoSpread3Product(h: bv32)
    ensures Unspread3(Spread3Product(h)) == h
  {
    UndoSpread3Term(h);
  }

  lemma UndoSpread3Term(h: bv32)
    ensures Unspread3(h + h * 8) == h
  {
  }

  lemma UndoSpread3(h: bv32)
    ensures Unspread3(Spread3(h)) == h
  {
    Spread3IsProduct(h);
    UndoSpread3Product(h);
  }

  lemma UndoFold11Term(h: bv32)
    ensures Unfold11(h ^ (h >> 11)) == h
  {
  }

  lemma UndoFold11(h: bv32)
    ensures Unfold11(Fold11(h)) == h
  {
    UndoFold11Term(h);
  }

  lemma UndoSpread15Term(h: bv32)
    ensures Unspread15(h + (h << 15)) == h
  {
  }

  lemma UndoSpread15(h: bv32)
    ensures Unspread15(Spread15(h)) == h
  {
    UndoSpread15Term(h);
  }

  /** For a given byte, a round is injective, hence a permutation of the 32-bit state. */
  lemma UnroundRound(h: bv32, b: bv8)
    ensures Unround(Round(h, b), b) == h
  {
    UndoAbsorb(h, b);
    UndoSpread(Absorb(h, b));
    UndoFold(Spread(Absorb(h, b)));
  }

  /** From a given state, different bytes lead to different states. */
  lemma RoundSeparatesBytes(h: bv32, b: bv8, b': bv8)
    requires Round(h, b) == Round(h, b')
    ensures b == b'
  {
    UndoSpread(Absorb(h, b));
    UndoFold(Spread(Absorb(h, b)));
    UndoSpread(Absorb(h, b'));
    UndoFold(Spread(Absorb(h, b')));
    AbsorbSeparatesBytes(h, b, b');
  }

  lemma AbsorbSeparatesBytes(h: bv32, b: bv8, b': bv8)
    requires Absorb(h, b) == Absorb(h, b')
    ensures b == b'
  {
  }

  lemma UnfinishFinish(h: bv32)
    ensures Unfinish(Finish(h)) == h
  {
    UndoSpread3(h);
    UndoFold11(Spread3(h));
    UndoSpread15(Fold11(Spread3(h)));
  }

  // ---------- the whole hash ----------

  /** The state of the loop after it has absorbed `page`. */
  function State(page: seq<bv8>): bv32 {
    if page == [] then 0 else Round(State(page[..|page| - 1]), page[|page| - 1])
  }

  function HashOf(page: seq<bv8>): bv32 {
    Finish(State(page))
  }

  method Hash(page: array<bv8>, length: nat) returns (hash: bv32)
    requires length <= page.Length
    ensures hash == HashOf(page[..length])
  {
    var i := 0;
    hash := 0;
    while i != length
      invariant 0 <= i <= length
      invariant hash == State(page[..i])
      decreases length - i
    {
      assert page[..i + 1][..i] == page[..i];
      hash := Absorb(hash, page[i]);
      i := i + 1;
      hash := Spread(hash);
      hash := Fold(hash);
    }
    hash := Spread3(hash);
    hash := Fold11(hash);
    hash := Spread15(hash);
  }

  lemma {:induction false} StateAppend(p: seq<bv8>, q: seq<bv8>, s: seq<bv8>)
    ensures State(p + s) == State(q + s) <==> State(p) == State(q)
  {
    if s == [] {
      assert p + s == p && q + s == q;
    } else {
      var init, last := s[..|s| - 1], s[|s| - 1];
      assert (p + s)[..|p + s| - 1] == p + init;
      assert (q + s)[..|q + s| - 1] == q + init;
      StateAppend(p, q, init);
      UnroundRound(State(p + init), last);
      UnroundRound(State(q + init), last);
    }
  }

  /** Hashes stay apart: with a common ending, two contents collide exactly when they already collide
      without it. */
  lemma SuffixCancels(p: seq<bv8>, q: seq<bv8>, s: seq<bv8>)
    ensures HashOf(p + s) == HashOf(q + s) <==> HashOf(p) == HashOf(q)
  {
    StateAppend(p, q, s);
    UnfinishFinish(State(p));
    UnfinishFinish(State(q));
    UnfinishFinish(State(p + s));
    UnfinishFinish(State(q + s));
  }

  /** Two pages that differ in exactly one byte never collide. */
  lemma OneByteApart(p: seq<bv8>, q: seq<bv8>, k: nat)
    requires |p| == |q| && k < |p|
    requires p[k] != q[k] && forall i :: 0 <= i < |p| && i != k ==> p[i] == q[i]
    ensures HashOf(p) != HashOf(q)
  {
    var s := p[k + 1..];
    assert p == p[..k + 1] + s && q == q[..k + 1] + s;
    SuffixCancels(p[..k + 1], q[..k + 1], s);
    assert p[..k + 1][..k] == q[..k + 1][..k] == p[..k];
    UnfinishFinish(State(p[..k + 1]));
    UnfinishFinish(State(q[..k + 1]));
    if State(p[..k + 1]) == State(q[..k + 1]) {
      RoundSeparatesBytes(State(p[..k]), p[k], q[k]);
    }
  }

  /** The hash by its statements: what the loop does with one more byte, and what follows the loop.  What each
      statement computes is fixed by the ...Term lemmas above. */
  lemma HashIs(page: seq<bv8>, b: bv8)
    ensures State([]) == 0 && State(page + [b]) == Fold(Spread(Absorb(State(page), b)))
    ensures HashOf(page) == Spread15(Fold11(Spread3(State(page))))
  {
    assert (page + [b])[..|page|] == page;
  }

  /** A fixed point of reference: the hash of the single byte 'a' (97). */
  lemma HashOfOneByte()
    ensures HashOf([97]) == 0xca2e9442
  {
    assert [97][..0] == [];
    assert State([97]) == Round(0, 97);
    assert Absorb(0, 97) == 0x61 && Spread(0x61) == 0x18461 && Fold(0x18461) == 0x18270;
    assert Spread3(0x18270) == 0xd95f0 && Fold11(0xd95f0) == 0xd9442 && Spread15(0xd9442) == 0xca2e9442;
  }

  // ---------- zero pages ----------

  function Zeros(n: nat): seq<bv8> {
    seq(n, _ => 0)
  }

  lemma {:induction false} ZerosKeepState(n: nat)
    ensures State(Zeros(n)) == 0
  {
    if n > 0 {
      assert Zeros(n)[..n - 1] == Zeros(n - 1);
      ZerosKeepState(n - 1);
      assert Round(0, 0) == 0;
    }
  }

  /** An all-zero buffer of any length hashes to 0. */
  lemma ZerosHashToZero(n: nat)
    ensures HashOf(Zeros(n)) == 0
  {
    ZerosKeepState(n);
  }

  /** Leading zero bytes do not change a hash. */
  lemma LeadingZeros(n: nat, p: seq<bv8>)
    ensures HashOf(Zeros(n) + p) == HashOf(p)
  {
    ZerosKeepState(n);
    assert [] + p == p;
    StateAppend(Zeros(n), [], p);
  }

  /** init_zero_page_hash. */
  method ZeroPageHash() returns (hash: bv32)
    ensures hash == 0
  {
    var page := new bv8[PAGE_SIZE](_ => 0);
    assert page[..PAGE_SIZE] == Zeros(PAGE_SIZE);
    ZerosHashToZero(PAGE_SIZE);
    hash := Hash(page, PAGE_SIZE);
  }

  /** page_is_zero, given the page's bytes. */
  predicate LooksZero(page: seq<bv8>) {
    HashOf(page) == HashOf(Zeros(|page|))
  }

  // The state stays small for three rounds, so that it cannot wrap around to 0.

  lemma FoldKeepsRange(h: bv32)
    ensures h < 0x40000 ==> Fold(h) < 0x40000
    ensures h < 0x20000000 ==> Fold(h) < 0x20000000
  {
  }

  lemma FirstRound(b: bv8)
    ensures Round(0, b) < 0x40000
  {
    assert Spread(Absorb(0, b)) < 0x40000;
    FoldKeepsRange(Spread(Absorb(0, b)));
  }

  lemma SecondRound(h: bv32, b: bv8)
    requires h < 0x40000
    ensures Round(h, b) < 0x20000000
  {
    assert Spread(Absorb(h, b)) < 0x20000000;
    FoldKeepsRange(Spread(Absorb(h, b)));
  }

  lemma ReachesZero(h: bv32, b: bv8)
    ensures Round(h, b) == 0 <==> Absorb(h, b) == 0
    ensures h < 0x20000000 ==> (Round(h, b) == 0 <==> h == 0 && b == 0)
  {
    assert Fold(Spread(0)) == 0;
    UnroundRound(h, b);
    assert Unround(0, b) == 0 - b as bv32;
  }

  lemma {:induction false} ShortRange(p: seq<bv8>)
    requires |p| <= 2
    ensures State(p) < 0x20000000 && (|p| <= 1 ==> State(p) < 0x40000)
  {
    hide Round;
    if p != [] {
      var init, last := p[..|p| - 1], p[|p| - 1];
      ShortRange(init);
      if init == [] {
        FirstRound(last);
      } else {
        SecondRound(State(init), last);
      }
    }
  }

  lemma {:induction false} ShortState(p: seq<bv8>)
    requires |p| <= 3
    ensures State(p) == 0 <==> p == Zeros(|p|)
  {
    hide Round;
    if p != [] {
      var init, last := p[..|p| - 1], p[|p| - 1];
      ShortState(init);
      ShortRange(init);
      ReachesZero(State(init), last);
      ZerosAppend(init, last);
    }
  }

  lemma ZerosAppend(init: seq<bv8>, last: bv8)
    ensures init + [last] == Zeros(|init| + 1) <==> init == Zeros(|init|) && last == 0
  {
    var zeros := Zeros(|init|) + [0];
    assert Zeros(|init| + 1) == zeros;
    assert (init + [last])[..|init|] == init && (init + [last])[|init|] == last;
    assert zeros[..|init|] == Zeros(|init|);
  }

  /** Where the bytes around `mid` are zero, only `mid` matters. */
  lemma LooksZeroAround(before: nat, mid: seq<bv8>, after: nat)
    ensures LooksZero(Zeros(before) + mid + Zeros(after)) <==> State(mid) == 0
  {
    var page := Zeros(before) + mid + Zeros(after);
    SuffixCancels(Zeros(before) + mid, Zeros(before + |mid|), Zeros(after));
    assert Zeros(before + |mid|) + Zeros(after) == Zeros(|page|);
    LeadingZeros(before, mid);
    ZerosHashToZero(before + |mid|);
    UnfinishFinish(State(mid));
    UnfinishFinish(0);
    assert Finish(0) == 0;
  }

  /** Exactly which pages are misjudged: those whose last nonzero byte brings the state back to 0 when it is
      added.  So each beginning of a page has at most one such byte, and most have none. */
  lemma MisjudgedIff(p: seq<bv8>, last: bv8, after: nat)
    requires last != 0
    ensures LooksZero(p + [last] + Zeros(after)) <==> Absorb(State(p), last) == 0
  {
    var mid := p + [last];
    assert Zeros(0) + mid + Zeros(after) == mid + Zeros(after);
    LooksZeroAround(0, mid, after);
    assert mid[..|mid| - 1] == p;
    ReachesZero(State(p), last);
  }

  /** `n` bytes of which only the `w` bytes from `at` on may differ from zero. */
  predicate ZeroOutside(page: seq<bv8>, n: nat, at: nat, w: nat) {
    |page| == n && forall i :: 0 <= i < n && !(at <= i < at + w) ==> page[i] == 0
  }

  lemma ZeroOutsideParts(page: seq<bv8>, n: nat, at: nat, w: nat)
    requires at + w <= n && ZeroOutside(page, n, at, w)
    ensures page == Zeros(at) + page[at..at + w] + Zeros(n - at - w)
    ensures page == Zeros(n) <==> page[at..at + w] == Zeros(w)
  {
    var mid := page[at..at + w];
    if mid == Zeros(w) {
      assert forall i :: at <= i < at + w ==> page[i] == mid[i - at];
    }
    assert page == Zeros(n) ==> mid == Zeros(w);
  }

  /** page_is_zero is exact on all pages whose nonzero bytes lie within `w` consecutive bytes, wherever they
      are, exactly if `w` is at most 3. */
  lemma ZeroTestExactIff(n: nat, at: nat, w: nat)
    requires at + w <= n
    ensures w <= 3 <==>
            forall page {:trigger ZeroOutside(page, n, at, w)} ::
              ZeroOutside(page, n, at, w) ==> (LooksZero(page) <==> page == Zeros(n))
  {
    if w <= 3 {
      forall page {:trigger ZeroOutside(page, n, at, w)} | ZeroOutside(page, n, at, w)
        ensures LooksZero(page) <==> page == Zeros(n)
      {
        ZeroOutsideParts(page, n, at, w);
        LooksZeroAround(at, page[at..at + w], n - at - w);
        ShortState(page[at..at + w]);
      }
    } else {
      FalseZeroPage(at, n - at - 4);
      var page := Zeros(at) + FALSE_ZEROS + Zeros(n - at - 4);
      assert ZeroOutside(page, n, at, w);
    }
  }

  /** In particular, a page with exactly one nonzero byte is never taken for a zero page. */
  lemma ZeroTestOnSparsePages(page: seq<bv8>, k: nat)
    requires k < |page| && forall i :: 0 <= i < |page| && i != k ==> page[i] == 0
    ensures LooksZero(page) <==> page[k] == 0
  {
    ZeroTestExactIff(|page|, k, 1);
    assert ZeroOutside(page, |page|, k, 1);
    assert page[k] == 0 ==> page == Zeros(|page|);
  }

  const FALSE_ZEROS: seq<bv8> := [31, 75, 173, 178]

  lemma FalseZeros()
    ensures State(FALSE_ZEROS) == 0
  {
    var tail := FALSE_ZEROS;
    assert tail[..3] == [31, 75, 173] && tail[..3][..2] == [31, 75] && tail[..3][..2][..1] == [31];
    assert Round(0, 31) == 0x7def by {
      assert Absorb(0, 31) == 0x1f && Spread(0x1f) == 0x7c1f;
    }
    assert Round(0x7def, 75) == 0x1fe83a2 by {
      assert Absorb(0x7def, 75) == 0x7e3a && Spread(0x7e3a) == 0x1f9663a;
    }
    assert Round(0x1fe83a2, 173) == 0xffffff4e by {
      assert Absorb(0x1fe83a2, 173) == 0x1fe844f && Spread(0x1fe844f) == 0xfc0fc04f;
    }
    assert Round(0xffffff4e, 178) == 0 by {
      assert Absorb(0xffffff4e, 178) == 0x0 && Spread(0x0) == 0x0;
    }
    assert State(tail[..3][..2][..1]) == 0x7def by {
      assert tail[..3][..2][..1][..0] == [];
    }
    assert State(tail[..3][..2]) == 0x1fe83a2;
    assert State(tail[..3]) == 0xffffff4e;
  }

  /** Pages that are not zero, yet are taken for zero pages: four bytes anywhere among zeros. */
  lemma FalseZeroPage(before: nat, after: nat)
    ensures var page := Zeros(before) + FALSE_ZEROS + Zeros(after);
            LooksZero(page) && page != Zeros(|page|)
  {
    FalseZeros();
    LooksZeroAround(before, FALSE_ZEROS, after);
    assert (Zeros(before) + FALSE_ZEROS + Zeros(after))[before] == FALSE_ZEROS[0];
  }
}
