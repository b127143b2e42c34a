/** What the address space looks like after `vmm_init`: which region of it means what. */
module VmmLayout {
  import opened Bits
  import opened Pmm
  import opened PmmRuns
  import opened Paging
  import opened VmmInit

  /** The translation of page `q` once all loops have run. */
  function Final(c: Config, q: nat): Translation {
    Decode(Lookup(Plan(c), |Plan(c)|, q))
  }

  lemma {:induction false} NoCover(rs: seq<Range>, n: nat, q: nat)
    requires n <= |rs| && forall j :: 0 <= j < n ==> !rs[j].Covers(q)
    ensures Lookup(rs, n, q) == 0
  {
    if n > 0 {
      NoCover(rs, n - 1, q);
    }
  }

  lemma {:induction false} LastCover(rs: seq<Range>, w: nat, n: nat, q: nat)
    requires w < n <= |rs| && rs[w].Covers(q)
    requires forall j :: w < j < n ==> !rs[j].Covers(q)
    ensures Lookup(rs, n, q) == rs[w].EntryFor(q)
  {
    if w + 1 < n {
      LastCover(rs, w, n - 1, q);
    }
  }

  /** Some loop covers the page: find the last one. */
  lemma {:induction false} Winner(rs: seq<Range>, n: nat, i: nat, q: nat) returns (w: nat)
    requires i < n <= |rs| && rs[i].Covers(q)
    ensures i <= w < n && rs[w].Covers(q) && forall j :: w < j < n ==> !rs[j].Covers(q)
  {
    if i == n - 1 || rs[n - 1].Covers(q) {
      w := n - 1;
    } else {
      w := Winner(rs, n - 1, i, q);
    }
  }

  predicate KernelFlags(f: nat) {
    f == 1 || f == 3 || f == PTE_EXECUTE_DISABLE + 1 || f == PTE_EXECUTE_DISABLE + 3
  }

  lemma PlanFlags(c: Config, i: nat)
    requires i < |Plan(c)|
    ensures KernelFlags(Plan(c)[i].flags)
  {
    if 1 <= i <= |c.es| {
      assert Plan(c)[1 + (i - 1)] == EntryRange(c.es[i - 1], c.hhdm);
    }
  }

  lemma IsKernelFlags()
    ensures KernelFlags(3) && KernelFlags(PTE_EXECUTE_DISABLE + 3)
  {
  }

  lemma FlagFacts(f: Word)
    requires KernelFlags(f)
    ensures Present(f) && Frame(f) == 0 && f / PAGE_SIZE % 0x100_0000_0000 == 0
    ensures RightsOf(f) == Rights(f % 4 == 3, false, f >= PTE_EXECUTE_DISABLE)
  {
    hide And;
    FrameIs(f);
    LowBits(f);
    TopBit(f);
  }

  lemma LowBits(f: Word)
    requires KernelFlags(f)
    ensures And(f, PTE_PRESENT) != 0
    ensures And(f, PTE_READ_WRITE) != 0 <==> f % 4 == 3
    ensures And(f, PTE_ACCESS_ALL) == 0
  {
    hide And;
    assert Pow2(0) == 1 && Pow2(1) == 2 && Pow2(2) == 4;
    TestBit(f, 0);
    TestBit(f, 1);
    TestBit(f, 2);
    assert Bit(f, 1) == (f / 2 % 2 == 1) && Bit(f, 2) == (f / 2 / 2 % 2 == 1);
  }

  lemma TopBit(f: Word)
    requires KernelFlags(f)
    ensures And(f, PTE_EXECUTE_DISABLE) != 0 <==> f >= PTE_EXECUTE_DISABLE
  {
    hide And, Bit, Pow2;
    Powers();
    Pow2Of63();
    TestBit(f, 63);
    if f < PTE_EXECUTE_DISABLE {
      HighBitClear(f, 63);
    } else {
      NotBit(Pow2(64) - 1 - f, 64, 63);
      HighBitClear(Pow2(64) - 1 - f, 63);
    }
  }

  /** A page covered by a loop is always present, in the frame the loop gives it. */
  lemma EntryDecodes(p: Word, f: Word)
    requires KernelFlags(f)
    ensures Decode(Or(p, f)).Page? && Decode(Or(p, f)).frame == p / PAGE_SIZE % 0x100_0000_0000 * PAGE_SIZE
    ensures p % PAGE_SIZE == 0 && p < 0x10_0000_0000_0000 ==> Decode(Or(p, f)) == Page(p, f, RightsOf(f))
  {
    hide And, Or;
    FlagFacts(f);
    OrOfWords(p, f);
    AndOfOr(p, f, PTE_PRESENT);
    AndOfOr(p, f, ADDRESS_MASK);
    OrZero(Frame(p));
    FrameIs(p);
    assert Or(And(p, PTE_PRESENT), And(f, PTE_PRESENT)) != 0 by {
      OrPositive(And(p, PTE_PRESENT), And(f, PTE_PRESENT));
    }
    if p % PAGE_SIZE == 0 && p < 0x10_0000_0000_0000 {
      MappedEntry(p, f);
    }
  }

  /** With any base below 2^52: an unaligned one adds its low twelve bits to the flags. */
  lemma UnalignedEntry(p: Word, f: Word)
    requires KernelFlags(f) && p < 0x10_0000_0000_0000
    ensures Or(p % PAGE_SIZE, f) < U64
    ensures Decode(Or(p, f)) == Page(p - p % PAGE_SIZE, Or(p % PAGE_SIZE, f), RightsOf(Or(p % PAGE_SIZE, f)))
    ensures RightsOf(Or(p % PAGE_SIZE, f)).write <== f % 4 == 3
    ensures p % PAGE_SIZE == 0 ==> Or(p % PAGE_SIZE, f) == f && RightsOf(f) == Rights(f % 4 == 3, false, f != f % 4)
  {
    hide And, Or;
    var low, high := p % PAGE_SIZE, p / PAGE_SIZE;
    assert Pow2(12) == PAGE_SIZE;
    OrIsSum(high, low, 12);
    OrAssociative(p - low, low, f);
    OrOfWords(low, f);
    FlagFacts(f);
    FrameIs(low);
    FrameIs(Or(low, f));
    AndOfOr(low, f, ADDRESS_MASK);
    AndOfOr(low, f, PTE_PRESENT);
    AndOfOr(low, f, PTE_READ_WRITE);
    assert And(low, ADDRESS_MASK) == 0;
    assert Frame(Or(low, f)) == Or(0, 0);
    OrZero(0);
    OrPositive(And(low, PTE_PRESENT), And(f, PTE_PRESENT));
    MappedEntry(p - low, Or(low, f));
    if f % 4 == 3 {
      OrPositive(And(low, PTE_READ_WRITE), And(f, PTE_READ_WRITE));
    }
    OrOfZero(f);
  }

  lemma OrOfZero(f: nat)
    ensures Or(0, f) == f
  {
  }

  lemma {:induction false} OrPositive(x: nat, y: nat)
    requires y > 0
    ensures Or(x, y) > 0
  {
    if x > 0 {
      if y % 2 == 0 {
        OrPositive(x / 2, y / 2);
      }
    }
  }

  /** An address translates exactly when some loop covers its page. */
  lemma MappedIff(c: Config, q: nat)
    ensures Final(c, q).Page? <==> exists i :: 0 <= i < |Plan(c)| && Plan(c)[i].Covers(q)
    ensures Final(c, q).Page? || Final(c, q) == Fault
  {
    hide Plan, Lookup, Or, KernelFlags;
    var rs := Plan(c);
    if i :| 0 <= i < |rs| && rs[i].Covers(q) {
      var w := Winner(rs, |rs|, i, q);
      LastCover(rs, w, |rs|, q);
      PlanFlags(c, w);
      EntryDecodes((rs[w].phys + PAGE_SIZE * rs[w].Offset(q)) % U64, rs[w].flags);
    } else {
      NoCover(rs, |rs|, q);
      assert And(0, PTE_PRESENT) == 0;
    }
  }

  lemma IdentityEntry(q: nat)
    requires 1 <= q < 0x10_0000
    ensures IDENTITY.Covers(q) && IDENTITY.EntryFor(q) == Or(q * PAGE_SIZE, PTE_EXECUTE_DISABLE + 3)
  {
    hide Or;
    assert IDENTITY.Offset(q) == q - 1;
    assert IDENTITY.Pages() == 0xf_ffff;
  }

  /** The low 4 GiB, page 0 excepted, are mapped to themselves, writable and not executable, unless
      the local APIC's page lands there. */
  lemma IdentityMapped(c: Config, q: nat)
    requires 1 <= q < 0x10_0000 && !LapicRange(c.lapic, c.hhdm).Covers(q)
    ensures Final(c, q) == Page(q * PAGE_SIZE, PTE_EXECUTE_DISABLE + 3, Rights(true, false, true))
  {
    hide Plan, Lookup, Or, And, LapicRange, KernelFlags, Range.Offset, Range.Covers, Range.EntryFor;
    IdentityEntry(q);
    LastCover(Plan(c), |c.es| + 4, |Plan(c)|, q);
    IsKernelFlags();
    EntryDecodes(q * PAGE_SIZE, PTE_EXECUTE_DISABLE + 3);
    FlagFacts(PTE_EXECUTE_DISABLE + 3);
  }

  lemma LapicEntry(lapic: Word32, hhdm: nat)
    requires hhdm % PAGE_SIZE == 0 && lapic + hhdm < U64
    ensures var r, q := LapicRange(lapic, hhdm), PageNo(lapic + hhdm);
            r.Covers(q) && r.EntryFor(q) == Or(AlignDown(lapic), 3)
  {
    hide Or;
    var r := LapicRange(lapic, hhdm);
    assert r.virt / PAGE_SIZE == (lapic + hhdm) / PAGE_SIZE;
    assert r.Offset(PageNo(lapic + hhdm)) == 0;
  }

  /** The local APIC's page is writable at its higher-half address, whatever was mapped before. */
  lemma LapicMapped(c: Config)
    requires c.hhdm % PAGE_SIZE == 0 && c.lapic + c.hhdm < U64
    ensures Final(c, PageNo(c.lapic + c.hhdm))
            == Page(c.lapic - c.lapic % PAGE_SIZE, 3, Rights(true, false, false))
  {
    hide Plan, Lookup, Or, And, LapicRange, PageNo, Decode, AlignDown, Range.Offset, Range.Covers, Range.EntryFor;
    LapicEntry(c.lapic, c.hhdm);
    LastCover(Plan(c), |Plan(c)| - 1, |Plan(c)|, PageNo(c.lapic + c.hhdm));
    LapicDecodes(c.lapic);
  }

  lemma LapicDecodes(lapic: Word32)
    ensures Decode(Or(AlignDown(lapic), 3)) == Page(lapic - lapic % PAGE_SIZE, 3, Rights(true, false, false))
  {
    hide Or, And, Decode;
    EntryDecodes(AlignDown(lapic), 3);
    FlagFacts(3);
  }

  /** The loops that map physical memory at its higher-half address. */
  predicate HigherHalf(c: Config, i: nat) {
    i <= |c.es| || i == |c.es| + 5
  }

  /** Boot information as the loader gives it: a page-aligned offset, and physical memory below 2^48. */
  predicate Sane(c: Config) {
    && c.hhdm % PAGE_SIZE == 0
    && c.lapic + c.hhdm < U64
    && (forall i :: 0 <= i < |Plan(c)| && HigherHalf(c, i) && Plan(c)[i].length > 0 ==>
          Plan(c)[i].phys / PAGE_SIZE + Plan(c)[i].Pages() <= PAGES)
  }

  lemma HigherHalfShape(c: Config, i: nat)
    requires Sane(c) && i < |Plan(c)| && HigherHalf(c, i)
    ensures Plan(c)[i].virt == Plan(c)[i].phys + c.hhdm
  {
    hide Plan, Range.Pages;
    if 1 <= i <= |c.es| {
      assert Plan(c)[1 + (i - 1)] == EntryRange(c.es[i - 1], c.hhdm);
    } else if i > |c.es| {
      LapicShape(c.lapic, c.hhdm);
    }
  }

  lemma LapicShape(lapic: Word32, hhdm: nat)
    requires hhdm % PAGE_SIZE == 0 && lapic + hhdm < U64
    ensures LapicRange(lapic, hhdm).virt == LapicRange(lapic, hhdm).phys + hhdm
  {
    assert (lapic + hhdm) % PAGE_SIZE == lapic % PAGE_SIZE;
  }

  /** The physical page a higher-half page stands for. */
  lemma HigherHalfOffset(hhdm: nat, phys: nat, x: nat, q: nat, off: nat)
    requires hhdm % PAGE_SIZE == 0 && x < PAGES * PAGE_SIZE
    requires q == PageNo(x + hhdm) && off < PAGES
    requires off == (q + PAGES - (phys + hhdm) / PAGE_SIZE % PAGES) % PAGES
    requires phys / PAGE_SIZE + off < PAGES
    ensures phys / PAGE_SIZE + off == x / PAGE_SIZE
  {
    var h, p, y := hhdm / PAGE_SIZE, phys / PAGE_SIZE, x / PAGE_SIZE;
    assert (x + hhdm) / PAGE_SIZE == y + h && (phys + hhdm) / PAGE_SIZE == p + h;
    OffsetModulo(p + h, off, q);
    assert (p + h + off) % PAGES == (y + h) % PAGES;
    SameModulo(p + off, y, h);
  }

  lemma SameModulo(a: nat, b: nat, h: nat)
    requires a < PAGES && b < PAGES && (a + h) % PAGES == (b + h) % PAGES
    ensures a == b
  {
    var m := h % PAGES;
    assert (a + h) % PAGES == (a + m) % PAGES && (b + h) % PAGES == (b + m) % PAGES;
  }

  /** The flags a loop's pages end up with: those it names, and the low bits of its physical base. */
  function FlagsGiven(r: Range): nat { Or(r.phys % PAGE_SIZE, r.flags) }

  /** What a loop that maps memory in the higher half leaves for a page it covers. */
  lemma HigherHalfEntry(r: Range, hhdm: nat, x: nat)
    requires r.virt == r.phys + hhdm && hhdm % PAGE_SIZE == 0 && x < PAGES * PAGE_SIZE
    requires r.phys / PAGE_SIZE + r.Pages() <= PAGES && r.Covers(PageNo(x + hhdm))
    requires r.flags == 3 || r.flags == PTE_EXECUTE_DISABLE + 3
    ensures Decode(r.EntryFor(PageNo(x + hhdm)))
            == Page(x - x % PAGE_SIZE, FlagsGiven(r), RightsOf(FlagsGiven(r)))
    ensures RightsOf(FlagsGiven(r)).write
    ensures r.phys % PAGE_SIZE == 0 ==>
              FlagsGiven(r) == r.flags && RightsOf(r.flags) == Rights(true, false, r.flags != 3)
  {
    hide Or, And, PageNo, Decode, Range.Pages;
    var q := PageNo(x + hhdm);
    var off := r.Offset(q);
    HigherHalfOffset(hhdm, r.phys, x, q, off);
    var p := r.phys + PAGE_SIZE * off;
    assert p / PAGE_SIZE == x / PAGE_SIZE && p % PAGE_SIZE == r.phys % PAGE_SIZE;
    assert p < U64;
    UnalignedEntry(p, r.flags);
  }

  lemma NotEmpty(r: Range, q: nat)
    requires r.Covers(q)
    ensures r.length > 0
  {
  }

  lemma HigherHalfFlags(c: Config, i: nat)
    requires i < |Plan(c)| && HigherHalf(c, i)
    ensures Plan(c)[i].flags == 3 || Plan(c)[i].flags == PTE_EXECUTE_DISABLE + 3
  {
    if 1 <= i <= |c.es| {
      assert Plan(c)[1 + (i - 1)] == EntryRange(c.es[i - 1], c.hhdm);
    }
  }

  /** The last loop to cover page `q`. */
  predicate Last(c: Config, w: nat, q: nat) {
    w < |Plan(c)| && Plan(c)[w].Covers(q) && forall j :: w < j < |Plan(c)| ==> !Plan(c)[j].Covers(q)
  }

  /** A translation to the page of physical byte `x`, writable, with the flags loop `r` gives. */
  predicate MappedBy(t: Translation, x: nat, r: Range) {
    && t == Page(x - x % PAGE_SIZE, FlagsGiven(r), RightsOf(FlagsGiven(r)))
    && RightsOf(FlagsGiven(r)).write
    && (r.phys % PAGE_SIZE == 0 ==> FlagsGiven(r) == r.flags && RightsOf(r.flags) == Rights(true, false, r.flags != 3))
  }

  /** Physical memory in the higher half: byte `x` of the bitmap's, a listed memory-map entry's or
      the local APIC's pages is found at `hhdm + x`, writable, provided no kernel section and not
      the identity map reaches that page. Overlapping entries agree on the frame. The flags are those
      of the last loop there; an entry whose base is not page aligned adds the low bits of its base. */
  lemma HigherHalfMapped(c: Config, x: nat, i: nat)
    requires Sane(c) && x < PAGES * PAGE_SIZE && i < |Plan(c)| && HigherHalf(c, i)
    requires Plan(c)[i].Covers(PageNo(x + c.hhdm))
    requires forall j :: 0 <= j < |Plan(c)| && !HigherHalf(c, j) ==> !Plan(c)[j].Covers(PageNo(x + c.hhdm))
    ensures exists w :: i <= w && Last(c, w, PageNo(x + c.hhdm)) && HigherHalf(c, w) &&
              MappedBy(Final(c, PageNo(x + c.hhdm)), x, Plan(c)[w])
  {
    hide Plan, Lookup, Or, PageNo, Decode, FlagsGiven, Range.Offset, Range.Pages, Range.Covers, Range.EntryFor;
    var rs, q := Plan(c), PageNo(x + c.hhdm);
    var w := Winner(rs, |rs|, i, q);
    LastCover(rs, w, |rs|, q);
    assert HigherHalf(c, w);
    HigherHalfShape(c, w);
    HigherHalfFlags(c, w);
    NotEmpty(rs[w], q);
    HigherHalfEntry(rs[w], c.hhdm, x);
    assert Last(c, w, q);
  }

  lemma HigherHalfCovers(r: Range, hhdm: nat, x: nat)
    requires r.virt == r.phys + hhdm && hhdm % PAGE_SIZE == 0 && x < PAGES * PAGE_SIZE
    requires r.phys / PAGE_SIZE + r.Pages() <= PAGES
    ensures r.Covers(PageNo(x + hhdm)) <==> r.phys / PAGE_SIZE <= x / PAGE_SIZE < r.phys / PAGE_SIZE + r.Pages()
  {
    hide Range.Pages;
    var h, p, y := hhdm / PAGE_SIZE, r.phys / PAGE_SIZE, x / PAGE_SIZE;
    assert (x + hhdm) / PAGE_SIZE == y + h && r.virt / PAGE_SIZE == p + h;
    OffsetModulo(p + h, if p <= y then y - p else y - p + PAGES, PageNo(x + hhdm));
  }

  /** Byte `x` of physical memory is covered, in the higher half, by the loop of entry `i`. */
  predicate Shown(c: Config, i: nat, x: nat)
    requires i < |c.es|
  {
    Plan(c)[1 + i].Covers(PageNo(x + c.hhdm))
  }

  /** That is the case exactly when the loop reaches the page of the byte. */
  lemma EntryCovers(c: Config, i: nat, x: nat)
    requires Sane(c) && i < |c.es| && Listed(c.es[i].kind) && c.es[i].length > 0 && x < PAGES * PAGE_SIZE
    ensures Shown(c, i, x) <==> c.es[i].Reaches(x / PAGE_SIZE)
  {
    hide Plan, PageNo, Range.Covers;
    assert Plan(c)[1 + i] == EntryRange(c.es[i], c.hhdm) && HigherHalf(c, 1 + i);
    HigherHalfCovers(Plan(c)[1 + i], c.hhdm, x);
  }

  /** All of a listed entry is covered exactly when the page offsets of its base and its last byte do
      not carry. The boot protocol aligns usable and bootloader-reclaimable memory only. */
  lemma EntryShownIff(c: Config, i: nat)
    requires Sane(c) && i < |c.es| && Listed(c.es[i].kind) && c.es[i].length > 0
    requires c.es[i].base + c.es[i].length <= PAGES * PAGE_SIZE
    ensures (forall x :: c.es[i].base <= x < c.es[i].base + c.es[i].length ==> Shown(c, i, x))
            <==> c.es[i].base % PAGE_SIZE + (c.es[i].length - 1) % PAGE_SIZE < PAGE_SIZE
  {
    hide Plan, PageNo, Shown, Sane;
    var e := c.es[i];
    ReachesAllIff(e);
    forall x: nat | e.base <= x < e.base + e.length
      ensures Shown(c, i, x) <==> e.Reaches(x / PAGE_SIZE)
    {
      EntryCovers(c, i, x);
    }
    TouchedPages(e);
  }

  /** An entry touches the pages of its bytes and no other. */
  lemma TouchedPages(e: MemEntry)
    requires e.length > 0
    ensures (forall x :: e.base <= x < e.base + e.length ==> e.Reaches(x / PAGE_SIZE))
            <==> (forall b: nat :: Touches(e, b) ==> e.Reaches(b))
  {
    forall b: nat | Touches(e, b)
      ensures exists x :: e.base <= x < e.base + e.length && x / PAGE_SIZE == b
    {
      var x := if b * PAGE_SIZE < e.base then e.base else b * PAGE_SIZE;
      assert e.base <= x < e.base + e.length && x / PAGE_SIZE == b;
    }
    forall x: nat | e.base <= x < e.base + e.length
      ensures Touches(e, x / PAGE_SIZE)
    {
    }
  }

  /** `va` lies in a page of the section, and the image's load addresses are whole pages below 2^52. */
  predicate InSection(k: Kernel, start: Word, end: Word, va: Word) {
    && k.virtualBase % PAGE_SIZE == 0 && k.physicalBase % PAGE_SIZE == 0
    && k.virtualBase <= AlignDown(start) <= va < AlignUp(end) <= k.virtualBase + PAGES * PAGE_SIZE
    && k.physicalBase + (va - k.virtualBase) < 0x10_0000_0000_0000
  }

  /** Where the loader put the page of `va`. */
  function LoadAddress(k: Kernel, va: Word): nat
    requires k.virtualBase % PAGE_SIZE == 0 && k.virtualBase <= va
  {
    k.physicalBase + (va - va % PAGE_SIZE - k.virtualBase)
  }

  lemma SectionEntry(k: Kernel, start: Word, end: Word, flags: Word, va: Word)
    requires InSection(k, start, end, va)
    ensures var r, q := Section(k, start, end, flags), PageNo(va);
            r.Covers(q)
            && r.EntryFor(q) == Or(LoadAddress(k, va), flags)
  {
    hide Or, PageNo, AlignUp;
    var r, q, s := Section(k, start, end, flags), PageNo(va), AlignDown(start);
    var off := (va - s) / PAGE_SIZE;
    SectionOffset(s, va, off, q);
    assert r.Offset(q) == off;
    SectionFrame(k.virtualBase, k.physicalBase, s, va, off);
    assert off < r.Pages();
  }

  /** A kernel section: from its first to its last page, an address translates to the load address
      plus its distance from the image's base, with the section's own rights, as long as no later
      loop covers the page. */
  lemma SectionMapped(c: Config, w: nat, start: Word, end: Word, flags: Word, va: Word)
    requires |c.es| + 1 <= w <= |c.es| + 3 && Plan(c)[w] == Section(c.kernel, start, end, flags)
    requires KernelFlags(flags) && InSection(c.kernel, start, end, va)
    requires forall j :: w < j < |Plan(c)| ==> !Plan(c)[j].Covers(PageNo(va))
    ensures Final(c, PageNo(va))
            == Page(LoadAddress(c.kernel, va), flags, RightsOf(flags))
  {
    hide Plan, Lookup, Or, And, KernelFlags, PageNo, Section, AlignUp;
    hide Range.Offset, Range.Pages, Range.Covers, Range.EntryFor;
    SectionEntry(c.kernel, start, end, flags, va);
    LastCover(Plan(c), w, |Plan(c)|, PageNo(va));
    EntryDecodes(LoadAddress(c.kernel, va), flags);
  }

  lemma SectionOffset(s: Word, va: Word, off: nat, q: nat)
    requires s % PAGE_SIZE == 0 && s <= va < s + PAGES * PAGE_SIZE && off == (va - s) / PAGE_SIZE && q == PageNo(va)
    ensures off == (q + PAGES - s / PAGE_SIZE % PAGES) % PAGES
    ensures s + PAGE_SIZE * off == va - va % PAGE_SIZE
  {
    assert va / PAGE_SIZE == s / PAGE_SIZE + off;
    OffsetModulo(s / PAGE_SIZE, off, q);
  }

  lemma SectionFrame(vbase: Word, pbase: Word, s: Word, va: Word, off: nat)
    requires vbase <= s <= va && s + PAGE_SIZE * off == va - va % PAGE_SIZE
    requires pbase + (va - vbase) < 0x10_0000_0000_0000
    ensures ((s + U64 - vbase + pbase) % U64 + PAGE_SIZE * off) % U64 == pbase + (va - va % PAGE_SIZE - vbase)
  {
    assert (s + U64 - vbase + pbase) % U64 == s - vbase + pbase;
  }
}
