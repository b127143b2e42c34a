/** The regions of the address space after `vmm_init`: which addresses the loops can reach at all. */
module VmmRegions {
  import opened Bits
  import opened Paging
  import opened VmmInit
  import opened VmmTables
  import opened VmmLayout

  /** First page of the higher half. */
  function Half(c: Config): nat { c.hhdm / PAGE_SIZE % PAGES }

  /** First page of the kernel image. */
  function Image(c: Config): nat { c.kernel.virtualBase / PAGE_SIZE % PAGES }

  predicate IsSection(c: Config, i: nat) { |c.es| + 1 <= i <= |c.es| + 3 }

  /** The address space as the loader lays it out: the higher half starts above 4 GiB on a page
      boundary, the `top` pages of physical memory fit between it and the kernel image, and the
      image lies at the end. */
  predicate Separated(c: Config, top: nat) {
    && c.hhdm % PAGE_SIZE == 0 && c.lapic + c.hhdm < U64
    && 0x10_0000 <= Half(c) && Half(c) + top <= Image(c)
    && (forall i :: 0 <= i < |Plan(c)| && HigherHalf(c, i) && Plan(c)[i].length > 0 ==>
          Plan(c)[i].phys / PAGE_SIZE + Plan(c)[i].Pages() <= top)
    && (forall i :: 0 <= i < |Plan(c)| && IsSection(c, i) && Plan(c)[i].length > 0 ==>
          Image(c) <= First(Plan(c)[i]) && Straight(Plan(c)[i]))
  }

  lemma SeparatedIsSane(c: Config, top: nat)
    requires Separated(c, top)
    ensures Sane(c)
  {
    hide Plan, Range.Pages, Straight, First;
  }

  /** Where in the higher half a loop over physical memory starts. */
  lemma HigherHalfFirst(r: Range, hhdm: nat, top: nat)
    requires r.virt == r.phys + hhdm && hhdm % PAGE_SIZE == 0
    requires hhdm / PAGE_SIZE % PAGES + top < PAGES && r.phys / PAGE_SIZE + r.Pages() <= top
    ensures First(r) == r.phys / PAGE_SIZE + hhdm / PAGE_SIZE % PAGES && Straight(r)
  {
    var h := hhdm / PAGE_SIZE;
    assert r.virt / PAGE_SIZE == r.phys / PAGE_SIZE + h;
    assert h == PAGES * (h / PAGES) + h % PAGES;
  }

  /** What a loop covers lies in its region. */
  lemma LoopRegion(c: Config, top: nat, i: nat, q: nat)
    requires Separated(c, top) && i < |Plan(c)| && q < PAGES && Plan(c)[i].Covers(q)
    ensures HigherHalf(c, i) ==> Half(c) <= q < Half(c) + top
    ensures IsSection(c, i) ==> Image(c) <= q
    ensures !HigherHalf(c, i) && !IsSection(c, i) ==> i == |c.es| + 4 && 1 <= q < 0x10_0000
  {
    hide Plan, First, Straight, Range.Covers, Range.Pages;
    SeparatedIsSane(c, top);
    NotEmpty(Plan(c)[i], q);
    if HigherHalf(c, i) {
      HigherHalfShape(c, i);
      HigherHalfFirst(Plan(c)[i], c.hhdm, top);
      assert Straight(Plan(c)[i]);
    } else if !IsSection(c, i) {
      IdentityRun();
    }
    StraightCovers(Plan(c)[i], q);
  }

  lemma HalfPage(c: Config, top: nat, x: nat)
    requires Separated(c, top) && x < top * PAGE_SIZE
    ensures PageNo(x + c.hhdm) == Half(c) + x / PAGE_SIZE < Half(c) + top
    ensures x < PAGES * PAGE_SIZE
  {
    hide Plan, First, Straight, Range.Pages, HigherHalf, IsSection;
    var h := c.hhdm / PAGE_SIZE;
    assert (x + c.hhdm) / PAGE_SIZE == x / PAGE_SIZE + h;
    assert h == PAGES * (h / PAGES) + h % PAGES;
  }

  /** Physical byte `x` is visible at `hhdm + x` exactly when some higher-half loop covers its page,
      and then it is there as the last such loop maps it. */
  lemma PhysicalMemory(c: Config, top: nat, x: nat)
    requires Separated(c, top) && x < top * PAGE_SIZE
    ensures Final(c, PageNo(x + c.hhdm)).Page?
            <==> exists i :: 0 <= i < |Plan(c)| && HigherHalf(c, i) && Plan(c)[i].Covers(PageNo(x + c.hhdm))
    ensures Final(c, PageNo(x + c.hhdm)).Page? ==>
              exists w :: 0 <= w && Last(c, w, PageNo(x + c.hhdm)) && HigherHalf(c, w) &&
                MappedBy(Final(c, PageNo(x + c.hhdm)), x, Plan(c)[w])
  {
    hide Plan, Final, PageNo, Half, Image, MappedBy, HigherHalf, IsSection, Sane, Separated, Last, Range.Covers;
    var q := PageNo(x + c.hhdm);
    HalfPage(c, top, x);
    RegionStarts(c, top);
    SeparatedIsSane(c, top);
    MappedIff(c, q);
    forall j | 0 <= j < |Plan(c)| && Plan(c)[j].Covers(q)
      ensures HigherHalf(c, j)
    {
      LoopRegion(c, top, j, q);
    }
    if i :| 0 <= i < |Plan(c)| && Plan(c)[i].Covers(q) {
      HigherHalfMapped(c, x, i);
    }
  }

  lemma RegionStarts(c: Config, top: nat)
    requires Separated(c, top)
    ensures 0x10_0000 <= Half(c) && Half(c) + top <= Image(c) < PAGES
  {
    hide Plan, First, Straight, Range.Pages, HigherHalf, IsSection;
  }

  /** Below the higher half there is the identity map and nothing else. */
  lemma LowPages(c: Config, top: nat, q: nat)
    requires Separated(c, top) && q < Half(c)
    ensures Final(c, q) == if 1 <= q < 0x10_0000
                           then Page(q * PAGE_SIZE, PTE_EXECUTE_DISABLE + 3, Rights(true, false, true))
                           else Fault
  {
    hide Plan, Final, PageNo, Half, Image, HigherHalf, IsSection, Separated, Range.Covers;
    RegionStarts(c, top);
    forall j | 0 <= j < |Plan(c)| && Plan(c)[j].Covers(q)
      ensures j == |c.es| + 4 && 1 <= q < 0x10_0000
    {
      LoopRegion(c, top, j, q);
    }
    MappedIff(c, q);
    if 1 <= q < 0x10_0000 {
      assert Plan(c)[|c.es| + 5] == LapicRange(c.lapic, c.hhdm);
      IdentityMapped(c, q);
    }
  }

  /** Between the mapped physical memory and the kernel image every address faults. */
  lemma Gap(c: Config, top: nat, q: nat)
    requires Separated(c, top) && Half(c) + top <= q < Image(c)
    ensures Final(c, q) == Fault
  {
    hide Plan, Final, PageNo, Half, Image, HigherHalf, IsSection, Separated, Range.Covers;
    RegionStarts(c, top);
    forall j | 0 <= j < |Plan(c)|
      ensures !Plan(c)[j].Covers(q)
    {
      if Plan(c)[j].Covers(q) {
        LoopRegion(c, top, j, q);
      }
    }
    MappedIff(c, q);
  }

  predicate ToItself(t: Translation, x: nat) {
    t.Page? && t.frame == x - x % PAGE_SIZE && t.rights.write
  }

  /** The pointer to the bitmap is formed while the higher-half offset is still 0, so it is the
      physical address itself. Once the new tables are in use, all of the bitmap can still be reached
      through it exactly when it lies between 0x1000 and 4 GiB, and there it reaches the right bytes. */
  lemma BitmapPointer(c: Config, top: nat)
    requires Separated(c, top) && c.blockCount / 8 > 0
    requires c.usableAddr + c.blockCount / 8 <= Half(c) * PAGE_SIZE
    ensures (forall x :: c.usableAddr <= x < c.usableAddr + c.blockCount / 8 ==> Final(c, PageNo(x)).Page?)
            <==> 0x1000 <= c.usableAddr && c.usableAddr + c.blockCount / 8 <= 0x1_0000_0000
    ensures forall x :: c.usableAddr <= x < c.usableAddr + c.blockCount / 8 && Final(c, PageNo(x)).Page? ==>
              ToItself(Final(c, PageNo(x)), x)
  {
    hide Plan, Final, HigherHalf, IsSection, Separated;
    var low, high := c.usableAddr, c.usableAddr + c.blockCount / 8;
    forall x: nat | low <= x < high
      ensures Final(c, PageNo(x)).Page? <==> 0x1000 <= x < 0x1_0000_0000
      ensures Final(c, PageNo(x)).Page? ==> ToItself(Final(c, PageNo(x)), x)
    {
      assert PageNo(x) == x / PAGE_SIZE < Half(c);
      LowPages(c, top, PageNo(x));
    }
    assert Final(c, PageNo(low)).Page? <==> 0x1000 <= low < 0x1_0000_0000;
    assert Final(c, PageNo(high - 1)).Page? <==> 0x1000 <= high - 1 < 0x1_0000_0000;
  }

  /** A page of a kernel section keeps its load address and rights unless a later section shares it. */
  lemma ImagePage(c: Config, top: nat, w: nat, start: Word, end: Word, flags: Word, va: Word)
    requires Separated(c, top) && IsSection(c, w) && Plan(c)[w] == Section(c.kernel, start, end, flags)
    requires KernelFlags(flags) && InSection(c.kernel, start, end, va)
    requires forall j :: w < j && IsSection(c, j) ==> !Plan(c)[j].Covers(PageNo(va))
    ensures Final(c, PageNo(va)) == Page(LoadAddress(c.kernel, va), flags, RightsOf(flags))
  {
    hide Plan, Final, PageNo, KernelFlags, InSection, Section, Half, Image, HigherHalf, Separated, Range.Covers;
    RegionStarts(c, top);
    assert Plan(c)[w].Covers(PageNo(va)) by {
      SectionEntry(c.kernel, start, end, flags, va);
    }
    LoopRegion(c, top, w, PageNo(va));
    forall j | w < j < |Plan(c)|
      ensures !Plan(c)[j].Covers(PageNo(va))
    {
      if Plan(c)[j].Covers(PageNo(va)) {
        LoopRegion(c, top, j, PageNo(va));
      }
    }
    SectionMapped(c, w, start, end, flags, va);
  }
}
