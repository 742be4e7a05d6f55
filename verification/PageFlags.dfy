/** Page flag words of jni/mem.c: relocating the overloaded bits and rendering a word as letters. */
module PageFlags {

  /** A bit number of a uint64_t. */
  type Bit = i: nat | i < 64

  /** A uint64_t as the set of its one bits: `|` is union and `^` is symmetric difference. */
  type Word = set<Bit>

  function Xor(w: Word, v: Word): Word {
    (w - v) + (v - w)
  }

  const LOCKED: Bit := 0
  const ERROR: Bit := 1
  const REFERENCED: Bit := 2
  const UPTODATE: Bit := 3
  const DIRTY: Bit := 4
  const LRU: Bit := 5
  const ACTIVE: Bit := 6
  const SLAB: Bit := 7
  const WRITEBACK: Bit := 8
  const RECLAIM: Bit := 9
  const BUDDY: Bit := 10
  const MMAP: Bit := 11
  const ANON: Bit := 12
  const SWAPCACHE: Bit := 13
  const SWAPBACKED: Bit := 14
  const COMPOUND_HEAD: Bit := 15
  const COMPOUND_TAIL: Bit := 16
  const HUGE: Bit := 17
  const UNEVICTABLE: Bit := 18
  const HWPOISON: Bit := 19
  const NOPAGE: Bit := 20
  const KSM: Bit := 21
  const THP: Bit := 22
  const BALLOON: Bit := 23
  const ZERO_PAGE: Bit := 24
  const IDLE: Bit := 25
  const PGTABLE: Bit := 26
  const RESERVED: Bit := 32
  const MLOCKED: Bit := 33
  const MAPPEDTODISK: Bit := 34
  const PRIVATE: Bit := 35
  const PRIVATE_2: Bit := 36
  const OWNER_PRIVATE: Bit := 37
  const ARCH: Bit := 38
  const UNCACHED: Bit := 39
  const SOFTDIRTY: Bit := 40
  const READAHEAD: Bit := 48
  const SLOB_FREE: Bit := 49
  const SLUB_FROZEN: Bit := 50
  const SLUB_DEBUG: Bit := 51
  const FILE: Bit := 61
  const SWAP: Bit := 62
  const MMAP_EXCLUSIVE: Bit := 63

  const PM_SOFT_DIRTY: Bit := 55
  const PM_MMAP_EXCLUSIVE: Bit := 56
  const PM_FILE: Bit := 61
  const PM_SWAP: Bit := 62

  // ---------- kpageflags_flags ----------

  /** Where each bit of the relocated word comes from. */
  predicate RelocatedBit(flags: Word, pme: Word, i: Bit) {
    var slab := SLAB in flags;
    var reclaimOnly := RECLAIM in flags && WRITEBACK !in flags;
    if i == PRIVATE || i == ACTIVE || i == ERROR then i in flags && !slab
    else if i == SLOB_FREE then (i in flags) != (slab && PRIVATE in flags)
    else if i == SLUB_FROZEN then (i in flags) != (slab && ACTIVE in flags)
    else if i == SLUB_DEBUG then (i in flags) != (slab && ERROR in flags)
    else if i == RECLAIM then i in flags && !reclaimOnly
    else if i == READAHEAD then (i in flags) != reclaimOnly
    else if i == SOFTDIRTY then i in flags || PM_SOFT_DIRTY in pme
    else if i == FILE then i in flags || PM_FILE in pme
    else if i == SWAP then i in flags || PM_SWAP in pme
    else if i == MMAP_EXCLUSIVE then i in flags || PM_MMAP_EXCLUSIVE in pme
    else i in flags
  }

  function Relocated(flags: Word, pme: Word): (w: Word)
    ensures forall i :: i in w <==> RelocatedBit(flags, pme, i)
  {
    set i: Bit | 0 <= i < 64 && RelocatedBit(flags, pme, i)
  }

  /** SLOB and SLUB overload the bit `from` of a slab page; its real meaning has the bit `to`. */
  method MoveBit(flags0: Word, from: Bit, to: Bit) returns (flags: Word)
    requires from != to
    ensures forall i :: i in flags <==>
              if i == from then false else if i == to then (i in flags0) != (from in flags0) else i in flags0
  {
    flags := flags0;
    if from in flags {
      flags := Xor(flags, {from, to});
    }
  }

  method KpageflagsFlags(flags0: Word, pme: Word) returns (flags: Word)
    ensures flags == Relocated(flags0, pme)
  {
    flags := flags0;
    if SLAB in flags {
      flags := MoveBit(flags, PRIVATE, SLOB_FREE);
      flags := MoveBit(flags, ACTIVE, SLUB_FROZEN);
      flags := MoveBit(flags, ERROR, SLUB_DEBUG);
    }
    assert RECLAIM in flags <==> RECLAIM in flags0;
    assert WRITEBACK in flags <==> WRITEBACK in flags0;
    ghost var both := flags * {RECLAIM, WRITEBACK};
    assert RECLAIM in both <==> RECLAIM in flags0;
    assert WRITEBACK in both <==> WRITEBACK in flags0;
    if flags * {RECLAIM, WRITEBACK} == {RECLAIM} {
      flags := MoveBit(flags, RECLAIM, READAHEAD);
    }
    flags := CopyEntryBits(flags, pme);
  }

  /** The last four statements: what the page-table entry adds to the word. */
  method CopyEntryBits(flags0: Word, pme: Word) returns (flags: Word)
    ensures forall i :: i in flags <==>
              || i in flags0
              || (i == SOFTDIRTY && PM_SOFT_DIRTY in pme) || (i == FILE && PM_FILE in pme)
              || (i == SWAP && PM_SWAP in pme) || (i == MMAP_EXCLUSIVE && PM_MMAP_EXCLUSIVE in pme)
  {
    flags := flags0;
    if PM_SOFT_DIRTY in pme {
      flags := flags + {SOFTDIRTY};
    }
    if PM_FILE in pme {
      flags := flags + {FILE};
    }
    if PM_SWAP in pme {
      flags := flags + {SWAP};
    }
    if PM_MMAP_EXCLUSIVE in pme {
      flags := flags + {MMAP_EXCLUSIVE};
    }
  }

  /** What the relocation does, bit by bit. */
  lemma RelocationTable(flags: Word, pme: Word, w: Word)
    requires w == Relocated(flags, pme)
    ensures SLAB in flags ==> ERROR !in w && ACTIVE !in w && PRIVATE !in w
    ensures SLAB in flags ==> (SLUB_DEBUG in w <==> (SLUB_DEBUG in flags) != (ERROR in flags))
    ensures SLAB in flags ==> (SLUB_FROZEN in w <==> (SLUB_FROZEN in flags) != (ACTIVE in flags))
    ensures SLAB in flags ==> (SLOB_FREE in w <==> (SLOB_FREE in flags) != (PRIVATE in flags))
    ensures SLAB !in flags ==>
              forall i :: i in {ERROR, ACTIVE, PRIVATE, SLUB_DEBUG, SLUB_FROZEN, SLOB_FREE} ==> (i in w <==> i in flags)
    ensures RECLAIM in w <==> RECLAIM in flags && WRITEBACK in flags
    ensures READAHEAD in w <==> (READAHEAD in flags) != (RECLAIM in flags && WRITEBACK !in flags)
    ensures SOFTDIRTY in w <==> SOFTDIRTY in flags || PM_SOFT_DIRTY in pme
    ensures FILE in w <==> FILE in flags || PM_FILE in pme
    ensures SWAP in w <==> SWAP in flags || PM_SWAP in pme
    ensures MMAP_EXCLUSIVE in w <==> MMAP_EXCLUSIVE in flags || PM_MMAP_EXCLUSIVE in pme
    ensures var touched := {ERROR, ACTIVE, PRIVATE, SLUB_DEBUG, SLUB_FROZEN, SLOB_FREE, RECLAIM, READAHEAD, SOFTDIRTY,
                            FILE, SWAP, MMAP_EXCLUSIVE};
            w - touched == flags - touched
  {
  }

  /** The bit numbers of the flags, and of the page-table entry. */
  lemma BitNumbers()
    ensures LOCKED == 0 && ERROR == 1 && REFERENCED == 2 && UPTODATE == 3 && DIRTY == 4
    ensures LRU == 5 && ACTIVE == 6 && SLAB == 7 && WRITEBACK == 8 && RECLAIM == 9
    ensures BUDDY == 10 && MMAP == 11 && ANON == 12 && SWAPCACHE == 13 && SWAPBACKED == 14
    ensures COMPOUND_HEAD == 15 && COMPOUND_TAIL == 16 && HUGE == 17 && UNEVICTABLE == 18 && HWPOISON == 19
    ensures NOPAGE == 20 && KSM == 21 && THP == 22 && BALLOON == 23 && ZERO_PAGE == 24
    ensures IDLE == 25 && PGTABLE == 26 && RESERVED == 32 && MLOCKED == 33 && MAPPEDTODISK == 34
    ensures PRIVATE == 35 && PRIVATE_2 == 36 && OWNER_PRIVATE == 37 && ARCH == 38 && UNCACHED == 39
    ensures SOFTDIRTY == 40 && READAHEAD == 48 && SLOB_FREE == 49 && SLUB_FROZEN == 50 && SLUB_DEBUG == 51
    ensures FILE == 61 && SWAP == 62 && MMAP_EXCLUSIVE == 63
    ensures PM_SOFT_DIRTY == 55 && PM_MMAP_EXCLUSIVE == 56 && PM_FILE == 61 && PM_SWAP == 62
  {
  }

  /** Relocating a relocated word again changes nothing. */
  lemma RelocateIdempotent(flags: Word, pme: Word)
    ensures Relocated(Relocated(flags, pme), pme) == Relocated(flags, pme)
  {
    var w := Relocated(flags, pme);
    forall i: Bit
      ensures i in Relocated(w, pme) <==> i in w
    {
      assert i in w <==> RelocatedBit(flags, pme, i);
      assert SLAB in w <==> RelocatedBit(flags, pme, SLAB);
      assert RECLAIM in w <==> RelocatedBit(flags, pme, RECLAIM);
      assert WRITEBACK in w <==> RelocatedBit(flags, pme, WRITEBACK);
    }
  }

  // ---------- page_flag_name ----------

  /** The bits that page_flag_names has an entry for. */
  predicate Named(i: Bit) {
    i <= 26 || 32 <= i <= 40 || 48 <= i <= 51 || 61 <= i
  }

  /** The first characters of the entries of page_flag_names, from the bits 0, 9, 18, 32, 48 and 61 on. */
  const LETTERS_0: string := "LERUDlASW"
  const LETTERS_9: string := "IBMasbHTG"
  const LETTERS_18: string := "uXnxtozig"
  const LETTERS_32: string := "rmdPpOhcf"
  const LETTERS_48: string := "IPAE"
  const LETTERS_61: string := "Fw1"

  /** Unnamed bits have no letter. */
  function Letter(i: Bit): (c: char)
    ensures c == ' ' <==> !Named(i)
    ensures c == ' ' <==> 27 <= i <= 31 || 41 <= i <= 47 || 52 <= i <= 60
    ensures c != '-'
  {
    if i < 9 then LETTERS_0[i]
    else if i < 18 then LETTERS_9[i - 9]
    else if i < 27 then LETTERS_18[i - 18]
    else if 32 <= i <= 40 then LETTERS_32[i - 32]
    else if 48 <= i <= 51 then LETTERS_48[i - 48]
    else if 61 <= i then LETTERS_61[i - 61]
    else ' '
  }

  /** The letter of each flag. */
  lemma FlagLettersLow()
    ensures Letter(LOCKED) == 'L' && Letter(ERROR) == 'E' && Letter(REFERENCED) == 'R'
    ensures Letter(UPTODATE) == 'U' && Letter(DIRTY) == 'D' && Letter(LRU) == 'l'
    ensures Letter(ACTIVE) == 'A' && Letter(SLAB) == 'S' && Letter(WRITEBACK) == 'W'
  {
  }

  lemma FlagLettersMiddle()
    ensures Letter(RECLAIM) == 'I' && Letter(BUDDY) == 'B' && Letter(MMAP) == 'M'
    ensures Letter(ANON) == 'a' && Letter(SWAPCACHE) == 's' && Letter(SWAPBACKED) == 'b'
    ensures Letter(COMPOUND_HEAD) == 'H' && Letter(COMPOUND_TAIL) == 'T' && Letter(HUGE) == 'G'
  {
  }

  lemma FlagLettersHigh()
    ensures Letter(UNEVICTABLE) == 'u' && Letter(HWPOISON) == 'X' && Letter(NOPAGE) == 'n'
    ensures Letter(KSM) == 'x' && Letter(THP) == 't' && Letter(BALLOON) == 'o'
    ensures Letter(ZERO_PAGE) == 'z' && Letter(IDLE) == 'i' && Letter(PGTABLE) == 'g'
  {
  }

  lemma FlagLettersHackers()
    ensures Letter(RESERVED) == 'r' && Letter(MLOCKED) == 'm' && Letter(MAPPEDTODISK) == 'd'
    ensures Letter(PRIVATE) == 'P' && Letter(PRIVATE_2) == 'p' && Letter(OWNER_PRIVATE) == 'O'
    ensures Letter(ARCH) == 'h' && Letter(UNCACHED) == 'c' && Letter(SOFTDIRTY) == 'f'
  {
  }

  lemma FlagLettersOverloaded()
    ensures Letter(READAHEAD) == 'I' && Letter(SLOB_FREE) == 'P' && Letter(SLUB_FROZEN) == 'A'
    ensures Letter(SLUB_DEBUG) == 'E' && Letter(FILE) == 'F' && Letter(SWAP) == 'w'
    ensures Letter(MMAP_EXCLUSIVE) == '1'
  {
  }

  /** The place of a named bit in the text: the number of named bits below it. */
  function Slot(i: int): (j: nat)
    ensures i <= 64 ==> j <= 43
  {
    if i <= 27 then (if i < 0 then 0 else i)
    else if i <= 32 then 27
    else if i <= 41 then i - 5
    else if i <= 48 then 36
    else if i <= 52 then i - 12
    else if i <= 61 then 40
    else i - 21
  }

  lemma {:induction false} SlotCounts(i: nat)
    requires i <= 64
    ensures Slot(i) == |set k: Bit | k < i && Named(k)|
  {
    if i == 0 {
      assert (set k: Bit | k < i && Named(k)) == {};
    } else {
      SlotCounts(i - 1);
      var last: Bit := i - 1;
      var below := set k: Bit | k < last && Named(k);
      assert (set k: Bit | k < i && Named(k)) == if Named(last) then below + {last} else below;
    }
  }

  datatype Rendering = UnknownBit(bit: Bit) | Text(text: string)

  /** `text` shows the bits of `flags` below `n`. */
  predicate Shows(text: string, flags: Word, n: int) {
    && |text| == Slot(n)
    && forall i: Bit :: i < n && Named(i) ==> Slot(i) < |text| && text[Slot(i)] == if i in flags then Letter(i) else '-'
  }

  lemma ShowsNext(text: string, flags: Word, i: Bit, c: char)
    requires Shows(text, flags, i) && c == if i in flags then Letter(i) else '-'
    ensures Shows(if Named(i) then text + [c] else text, flags, i + 1)
  {
  }

  /** The text is null-terminated in the source's 65-byte static buffer. */
  method PageFlagName(flags: Word, buf: array<char>) returns (r: Rendering)
    requires buf.Length == 65
    modifies buf
    ensures r.UnknownBit? ==> r.bit in flags && !Named(r.bit) && forall k: Bit :: k in flags && !Named(k) ==> r.bit <= k
    ensures r.Text? <==> forall k: Bit :: k in flags ==> Named(k)
    ensures r.Text? ==> |r.text| == 43 && Shows(r.text, flags, 64) && buf[..43] == r.text
    ensures r.Text? ==> forall i: Bit :: Named(i) ==>
                          Slot(i) < 43 && r.text[Slot(i)] == if i in flags then Letter(i) else '-'
  {
    var i, j := 0, 0;
    while i < 64
      invariant 0 <= i <= 64 && j == Slot(i)
      invariant forall k: Bit :: k in flags && k < i ==> Named(k)
      invariant Shows(buf[..j], flags, i)
    {
      var present := i in flags;
      if Letter(i) == ' ' {
        if present {
          return UnknownBit(i);
        }
        ShowsNext(buf[..j], flags, i, '-');
      } else {
        var c := if present then Letter(i) else '-';
        ShowsNext(buf[..j], flags, i, c);
        buf[j] := c;
        j := j + 1;
        assert buf[..j] == buf[..j - 1] + [c];
      }
      i := i + 1;
    }
    r := Text(buf[..j]);
  }

  // ---------- reading a rendering back ----------

  /** The word whose bits a rendering shows. */
  function Decode(text: string): Word
    requires |text| == 43
  {
    set i: Bit | 0 <= i < 64 && Named(i) && text[Slot(i)] != '-'
  }

  /** Undoes the relocation as far as that is possible. */
  predicate OriginalBit(w: Word, i: Bit) {
    if i == PRIVATE then i in w || SLOB_FREE in w
    else if i == ACTIVE then i in w || SLUB_FROZEN in w
    else if i == ERROR then i in w || SLUB_DEBUG in w
    else if i == RECLAIM then i in w || READAHEAD in w
    else i in w
  }

  lemma DecodeShown(text: string, flags: Word)
    requires |text| == 43 && Shows(text, flags, 64) && forall k: Bit :: k in flags ==> Named(k)
    ensures Decode(text) == flags
  {
    forall i: Bit
      ensures i in Decode(text) <==> i in flags
    {
    }
  }

  /** A kernel word that uses only named bits below 48 stays printable after relocation, and everything but
      bit 40, which merges with the entry's soft-dirty bit, can be read back from the 43 characters, together
      with the entry's file, swap and exclusive bits. */
  lemma RenderingRoundTrip(flags: Word, pme: Word, text: string)
    requires forall i: Bit :: i in flags ==> Named(i) && i < 48
    requires |text| == 43 && Shows(text, Relocated(flags, pme), 64)
    ensures forall i: Bit :: i in Relocated(flags, pme) ==> Named(i)
    ensures forall i: Bit :: i < 48 && i != SOFTDIRTY ==> (OriginalBit(Decode(text), i) <==> i in flags)
    ensures SOFTDIRTY in Decode(text) <==> SOFTDIRTY in flags || PM_SOFT_DIRTY in pme
    ensures FILE in Decode(text) <==> PM_FILE in pme
    ensures SWAP in Decode(text) <==> PM_SWAP in pme
    ensures MMAP_EXCLUSIVE in Decode(text) <==> PM_MMAP_EXCLUSIVE in pme
  {
    var w := Relocated(flags, pme);
    assert forall i: Bit :: i in w <==> RelocatedBit(flags, pme, i);
    DecodeShown(text, w);
  }

  /** Bit 40 really is lost: two kernel words and entries with the same relocation. */
  lemma SoftDirtyMerges()
    ensures Relocated({SOFTDIRTY}, {}) == Relocated({}, {PM_SOFT_DIRTY})
  {
    forall i: Bit
      ensures RelocatedBit({SOFTDIRTY}, {}, i) <==> RelocatedBit({}, {PM_SOFT_DIRTY}, i)
    {
    }
  }
}
