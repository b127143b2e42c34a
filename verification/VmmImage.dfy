/** What is mapped where after `vmm_init`, in terms of the loader's own numbers: the kernel's sections
    byte by byte, and the memory map by the kinds of its entries. */
module VmmImage {
  import opened Bits
  import opened Pmm
  import opened Paging
  import opened VmmInit
  import opened VmmTables
  import opened VmmLayout
  import opened VmmRegions

  // ------------------------------------------------------------------
  // The kernel image
  // ------------------------------------------------------------------

  /** The image as it is linked and loaded: on page boundaries, in the last 2^48 bytes of the address
      space, its load address within 52 bits. */
  predicate Loaded(k: Kernel) {
    && 0xffff_0000_0000_0000 <= k.virtualBase && k.virtualBase % 4096 == 0 && k.physicalBase % 4096 == 0
    && k.virtualBase <= k.textStart && k.virtualBase <= k.rodataStart && k.virtualBase <= k.dataStart
    && k.textEnd + 4095 < U64 && k.rodataEnd + 4095 < U64 && k.dataEnd + 4095 < U64
    && k.physicalBase + (U64 - k.virtualBase) <= 0x10_0000_0000_0000
  }

  /** The page of `va` is one of the pages of the bytes from `start` to `end`. */
  predicate Within(start: Word, end: Word, va: Word) {
    start / 4096 <= va / 4096 < (end + 4095) / 4096
  }

  lemma ByteWithin(start: Word, end: Word, va: Word)
    requires start <= va < end
    ensures Within(start, end, va)
  {
  }

  lemma Aligned(start: Word, end: Word)
    requires end + 4095 < U64
    ensures AlignDown(start) == start / 4096 * 4096 && AlignUp(end) == (end + 4095) / 4096 * 4096
  {
  }

  lemma SectionIs(k: Kernel, start: Word, end: Word, flags: Word)
    requires end + 4095 < U64
    ensures var r := Section(k, start, end, flags);
            && r.virt == start / 4096 * 4096 && r.virt / 4096 == start / 4096
            && r.Pages() == (if start / 4096 < (end + 4095) / 4096 then (end + 4095) / 4096 - start / 4096 else 0)
  {
    hide AlignDown, AlignUp;
    Aligned(start, end);
  }

  lemma TopPage(va: Word)
    requires 0xffff_0000_0000_0000 <= va
    ensures va / 4096 % PAGES == va / 4096 - 0xffff * PAGES
  {
  }

  /** A section's loop covers the pages of its bytes and no other page of the image. */
  lemma SectionCovers(k: Kernel, start: Word, end: Word, flags: Word, va: Word)
    requires 0xffff_0000_0000_0000 <= start && end + 4095 < U64 && 0xffff_0000_0000_0000 <= va
    ensures Section(k, start, end, flags).Covers(PageNo(va)) <==> Within(start, end, va)
  {
    hide Section, Range.Pages, Range.Covers;
    SectionIs(k, start, end, flags);
    TopPage(start);
    TopPage(va);
    assert Straight(Section(k, start, end, flags));
    StraightCovers(Section(k, start, end, flags), PageNo(va));
  }

  lemma SectionAddress(k: Kernel, start: Word, end: Word, va: Word)
    requires Loaded(k) && k.virtualBase <= start && end + 4095 < U64 && Within(start, end, va)
    ensures InSection(k, start, end, va) && LoadAddress(k, va) == k.physicalBase + (va - va % 4096 - k.virtualBase)
  {
    hide AlignDown, AlignUp;
    Aligned(start, end);
  }

  /** The sections' loops, by position and with the flags the source names. */
  lemma Sections(c: Config)
    ensures Plan(c)[|c.es| + 1] == Section(c.kernel, c.kernel.textStart, c.kernel.textEnd, 1)
    ensures Plan(c)[|c.es| + 2] == Section(c.kernel, c.kernel.rodataStart, c.kernel.rodataEnd, 0x8000_0000_0000_0001)
    ensures Plan(c)[|c.es| + 3] == Section(c.kernel, c.kernel.dataStart, c.kernel.dataEnd, 0x8000_0000_0000_0003)
  {
  }

  lemma SectionFlags()
    ensures KernelFlags(1) && RightsOf(1) == Rights(false, false, false)
    ensures KernelFlags(0x8000_0000_0000_0001) && RightsOf(0x8000_0000_0000_0001) == Rights(false, false, true)
    ensures KernelFlags(0x8000_0000_0000_0003) && RightsOf(0x8000_0000_0000_0003) == Rights(true, false, true)
  {
    hide RightsOf;
    FlagFacts(1);
    FlagFacts(0x8000_0000_0000_0001);
    FlagFacts(0x8000_0000_0000_0003);
  }

  /** The kernel's code: every page of it is at its load address, can be executed and cannot be
      written, unless read-only data or data begins in the same page. */
  lemma TextPage(c: Config, top: nat, va: Word)
    requires Separated(c, top) && Loaded(c.kernel) && c.kernel.textStart <= va < c.kernel.textEnd
    requires !Within(c.kernel.rodataStart, c.kernel.rodataEnd, va)
    requires !Within(c.kernel.dataStart, c.kernel.dataEnd, va)
    ensures Final(c, PageNo(va))
            == Page(c.kernel.physicalBase + (va - va % 4096 - c.kernel.virtualBase), 1, Rights(false, false, false))
  {
    hide Plan, Final, PageNo, Separated, Section, Within, RightsOf, KernelFlags, InSection, LoadAddress, Range.Covers;
    var k := c.kernel;
    Sections(c);
    SectionFlags();
    ByteWithin(k.textStart, k.textEnd, va);
    SectionAddress(k, k.textStart, k.textEnd, va);
    SectionCovers(k, k.rodataStart, k.rodataEnd, 0x8000_0000_0000_0001, va);
    SectionCovers(k, k.dataStart, k.dataEnd, 0x8000_0000_0000_0003, va);
    ImagePage(c, top, |c.es| + 1, k.textStart, k.textEnd, 1, va);
  }

  /** Read-only data: neither written nor executed. */
  lemma RodataPage(c: Config, top: nat, va: Word)
    requires Separated(c, top) && Loaded(c.kernel) && c.kernel.rodataStart <= va < c.kernel.rodataEnd
    requires !Within(c.kernel.dataStart, c.kernel.dataEnd, va)
    ensures Final(c, PageNo(va))
            == Page(c.kernel.physicalBase + (va - va % 4096 - c.kernel.virtualBase), 0x8000_0000_0000_0001,
                    Rights(false, false, true))
  {
    hide Plan, Final, PageNo, Separated, Section, Within, RightsOf, KernelFlags, InSection, LoadAddress, Range.Covers;
    var k := c.kernel;
    Sections(c);
    SectionFlags();
    ByteWithin(k.rodataStart, k.rodataEnd, va);
    SectionAddress(k, k.rodataStart, k.rodataEnd, va);
    SectionCovers(k, k.dataStart, k.dataEnd, 0x8000_0000_0000_0003, va);
    ImagePage(c, top, |c.es| + 2, k.rodataStart, k.rodataEnd, 0x8000_0000_0000_0001, va);
  }

  /** Data: written, not executed. */
  lemma DataPage(c: Config, top: nat, va: Word)
    requires Separated(c, top) && Loaded(c.kernel) && c.kernel.dataStart <= va < c.kernel.dataEnd
    ensures Final(c, PageNo(va))
            == Page(c.kernel.physicalBase + (va - va % 4096 - c.kernel.virtualBase), 0x8000_0000_0000_0003,
                    Rights(true, false, true))
  {
    hide Plan, Final, PageNo, Separated, Section, Within, RightsOf, KernelFlags, InSection, LoadAddress, Range.Covers;
    var k := c.kernel;
    Sections(c);
    SectionFlags();
    ByteWithin(k.dataStart, k.dataEnd, va);
    SectionAddress(k, k.dataStart, k.dataEnd, va);
    ImagePage(c, top, |c.es| + 3, k.dataStart, k.dataEnd, 0x8000_0000_0000_0003, va);
  }

  /** From the image's base on, an address translates exactly when its page has a byte of a section. */
  lemma ImageIff(c: Config, top: nat, va: Word)
    requires Separated(c, top) && Loaded(c.kernel) && c.kernel.virtualBase <= va
    ensures Final(c, PageNo(va)).Page? <==>
              || Within(c.kernel.textStart, c.kernel.textEnd, va)
              || Within(c.kernel.rodataStart, c.kernel.rodataEnd, va)
              || Within(c.kernel.dataStart, c.kernel.dataEnd, va)
  {
    hide Plan, Final, Separated, Section, Within, HigherHalf, Range.Covers;
    var k, q := c.kernel, PageNo(va);
    Sections(c);
    SectionCovers(k, k.textStart, k.textEnd, 1, va);
    SectionCovers(k, k.rodataStart, k.rodataEnd, 0x8000_0000_0000_0001, va);
    SectionCovers(k, k.dataStart, k.dataEnd, 0x8000_0000_0000_0003, va);
    MappedIff(c, q);
    RegionStarts(c, top);
    TopPage(k.virtualBase);
    TopPage(va);
    assert Image(c) <= q;
    forall j | 0 <= j < |Plan(c)| && Plan(c)[j].Covers(q)
      ensures IsSection(c, j)
    {
      LoopRegion(c, top, j, q);
    }
  }

  // ------------------------------------------------------------------
  // Physical memory in the higher half
  // ------------------------------------------------------------------

  /** Kinds 0, 2, 5 and 7: usable, ACPI tables, boot loader and framebuffer. */
  predicate Mapped(kind: nat) { kind == 0 || kind == 2 || kind == 5 || kind == 7 }

  /** The physical pages that are to be visible: those of the bitmap, of the entries of these kinds,
      and the local APIC's. */
  predicate Visible(c: Config, p: nat) {
    || c.usableAddr / 4096 <= p < c.usableAddr / 4096 + (c.blockCount / 8 + 4095) / 4096
    || (exists i :: 0 <= i < |c.es| && Mapped(c.es[i].kind) && c.es[i].Reaches(p))
    || p == c.lapic / 4096
  }

  /** Which page each loop over physical memory covers. */
  lemma LoopPages(c: Config, top: nat, i: nat, x: nat)
    requires Separated(c, top) && x < top * PAGE_SIZE && i < |Plan(c)| && HigherHalf(c, i)
    ensures Plan(c)[i].Covers(PageNo(x + c.hhdm)) <==>
              Plan(c)[i].phys / PAGE_SIZE <= x / PAGE_SIZE < Plan(c)[i].phys / PAGE_SIZE + Plan(c)[i].Pages()
  {
    hide Plan, PageNo, Range.Pages, Range.Offset;
    SeparatedIsSane(c, top);
    HigherHalfShape(c, i);
    HalfPage(c, top, x);
    RegionStarts(c, top);
    if Plan(c)[i].length > 0 {
      HigherHalfCovers(Plan(c)[i], c.hhdm, x);
    } else {
      NoPages(Plan(c)[i]);
    }
  }

  lemma NoPages(r: Range)
    requires r.length == 0
    ensures r.Pages() == 0
  {
  }

  /** The same for the memory map, by kinds. */
  lemma EntryPages(c: Config, top: nat, i: nat, x: nat)
    requires Separated(c, top) && x < top * PAGE_SIZE && i < |c.es|
    ensures Plan(c)[1 + i].Covers(PageNo(x + c.hhdm)) <==> Mapped(c.es[i].kind) && c.es[i].Reaches(x / 4096)
    ensures Plan(c)[1 + i].phys == c.es[i].base
    ensures Mapped(c.es[i].kind) ==> Plan(c)[1 + i].flags == if c.es[i].kind == 7 then 0x8000_0000_0000_0003 else 3
  {
    hide Plan, PageNo, Range.Covers, Separated;
    assert Plan(c)[1 + i] == EntryRange(c.es[i], c.hhdm);
    LoopPages(c, top, 1 + i, x);
  }

  lemma OtherPages(c: Config, top: nat, x: nat)
    requires Separated(c, top) && x < top * PAGE_SIZE
    ensures Plan(c)[0].Covers(PageNo(x + c.hhdm)) <==>
              c.usableAddr / 4096 <= x / 4096 < c.usableAddr / 4096 + (c.blockCount / 8 + 4095) / 4096
    ensures Plan(c)[|c.es| + 5].Covers(PageNo(x + c.hhdm)) <==> x / 4096 == c.lapic / 4096
  {
    hide Plan, PageNo, Range.Covers, Separated;
    LoopPages(c, top, 0, x);
    LoopPages(c, top, |c.es| + 5, x);
  }

  lemma CoveredIsVisible(c: Config, top: nat, i: nat, x: nat)
    requires Separated(c, top) && x < top * PAGE_SIZE && i < |Plan(c)| && HigherHalf(c, i)
    requires Plan(c)[i].Covers(PageNo(x + c.hhdm))
    ensures Visible(c, x / 4096)
  {
    hide Plan, PageNo, Separated, Mapped, Range.Covers, MemEntry.Reaches;
    OtherPages(c, top, x);
    if 1 <= i <= |c.es| {
      EntryPages(c, top, i - 1, x);
    }
  }

  lemma VisibleIsCovered(c: Config, top: nat, x: nat) returns (i: nat)
    requires Separated(c, top) && x < top * PAGE_SIZE && Visible(c, x / 4096)
    ensures i < |Plan(c)| && HigherHalf(c, i) && Plan(c)[i].Covers(PageNo(x + c.hhdm))
  {
    hide Plan, PageNo, Separated, Mapped, Range.Covers, MemEntry.Reaches;
    OtherPages(c, top, x);
    if k :| 0 <= k < |c.es| && Mapped(c.es[k].kind) && c.es[k].Reaches(x / 4096) {
      EntryPages(c, top, k, x);
      i := 1 + k;
    } else {
      i := if x / 4096 == c.lapic / 4096 then |c.es| + 5 else 0;
    }
  }

  /** Byte `x` of physical memory can be reached at `hhdm + x` exactly when its page is one of those. */
  lemma VisibleIff(c: Config, top: nat, x: nat)
    requires Separated(c, top) && x < top * PAGE_SIZE
    ensures Final(c, PageNo(x + c.hhdm)).Page? <==> Visible(c, x / 4096)
  {
    hide Plan, Final, PageNo, Separated, Visible, HigherHalf, Range.Covers;
    PhysicalMemory(c, top, x);
    if Visible(c, x / 4096) {
      var i := VisibleIsCovered(c, top, x);
    }
    if i :| 0 <= i < |Plan(c)| && HigherHalf(c, i) && Plan(c)[i].Covers(PageNo(x + c.hhdm)) {
      CoveredIsVisible(c, top, i, x);
    }
  }

  /** A page of an entry with a page-aligned base: its rights go by the entry's kind. Framebuffers
      cannot be executed, the other kinds can, all of them can be written; an entry later in the map
      on the same page, or the local APIC, takes precedence. */
  lemma EntryRights(c: Config, top: nat, i: nat, x: nat)
    requires Separated(c, top) && x < top * PAGE_SIZE && i < |c.es| && c.es[i].base % 4096 == 0
    requires Mapped(c.es[i].kind) && c.es[i].base <= x < c.es[i].base + c.es[i].length
    requires forall j :: i < j < |c.es| && Mapped(c.es[j].kind) ==> !c.es[j].Reaches(x / 4096)
    requires x / 4096 != c.lapic / 4096
    ensures Final(c, PageNo(x + c.hhdm))
            == if c.es[i].kind == 7 then Page(x - x % 4096, 0x8000_0000_0000_0003, Rights(true, false, true))
               else Page(x - x % 4096, 3, Rights(true, false, false))
  {
    hide Plan, Final, PageNo, Separated, Mapped, FlagsGiven, Range.Covers, MemEntry.Reaches, HigherHalf, RightsOf;
    var q := PageNo(x + c.hhdm);
    ReachesByte(c.es[i], x);
    EntryPages(c, top, i, x);
    ReachesVisible(c, top, i, x);
    var w :| 0 <= w && Last(c, w, q) && HigherHalf(c, w) && MappedBy(Final(c, q), x, Plan(c)[w]);
    assert w == 1 + i by {
      OnlyEntry(c, top, i, x, w);
    }
  }

  lemma ReachesByte(e: MemEntry, x: nat)
    requires e.base % 4096 == 0 && e.base <= x < e.base + e.length
    ensures e.Reaches(x / 4096)
  {
  }

  lemma ReachesVisible(c: Config, top: nat, i: nat, x: nat)
    requires Separated(c, top) && x < top * PAGE_SIZE && i < |c.es|
    requires Plan(c)[1 + i].Covers(PageNo(x + c.hhdm))
    ensures exists w :: 0 <= w && Last(c, w, PageNo(x + c.hhdm)) && HigherHalf(c, w) &&
              MappedBy(Final(c, PageNo(x + c.hhdm)), x, Plan(c)[w])
  {
    hide Plan, Final, PageNo, Separated, Range.Covers, Last, MappedBy;
    PhysicalMemory(c, top, x);
    assert HigherHalf(c, 1 + i);
  }

  /** No loop after the entry's covers the page. */
  lemma OnlyEntry(c: Config, top: nat, i: nat, x: nat, w: nat)
    requires Separated(c, top) && x < top * PAGE_SIZE && i < |c.es|
    requires forall j :: i < j < |c.es| && Mapped(c.es[j].kind) ==> !c.es[j].Reaches(x / 4096)
    requires x / 4096 != c.lapic / 4096
    requires Plan(c)[1 + i].Covers(PageNo(x + c.hhdm))
    requires Last(c, w, PageNo(x + c.hhdm)) && HigherHalf(c, w)
    ensures w == 1 + i
  {
    hide Plan, PageNo, Separated, Mapped, Range.Covers, MemEntry.Reaches;
    OtherPages(c, top, x);
    if 1 + i < w <= |c.es| {
      EntryPages(c, top, w - 1, x);
    }
  }

  /** A page of the bitmap that no entry and not the local APIC reaches: writable and executable. */
  lemma BitmapRights(c: Config, top: nat, x: nat)
    requires Separated(c, top) && x < top * PAGE_SIZE && c.usableAddr % 4096 == 0
    requires c.usableAddr <= x < c.usableAddr + c.blockCount / 8
    requires forall j :: 0 <= j < |c.es| && Mapped(c.es[j].kind) ==> !c.es[j].Reaches(x / 4096)
    requires x / 4096 != c.lapic / 4096
    ensures Final(c, PageNo(x + c.hhdm)) == Page(x - x % 4096, 3, Rights(true, false, false))
  {
    hide Plan, Final, PageNo, Separated, Mapped, FlagsGiven, Range.Covers, MemEntry.Reaches, HigherHalf, RightsOf;
    var q := PageNo(x + c.hhdm);
    assert Visible(c, x / 4096);
    VisibleIff(c, top, x);
    PhysicalMemory(c, top, x);
    var w :| 0 <= w && Last(c, w, q) && HigherHalf(c, w) && MappedBy(Final(c, q), x, Plan(c)[w]);
    assert w == 0 by {
      OnlyBitmap(c, top, x, w);
    }
  }

  lemma OnlyBitmap(c: Config, top: nat, x: nat, w: nat)
    requires Separated(c, top) && x < top * PAGE_SIZE
    requires forall j :: 0 <= j < |c.es| && Mapped(c.es[j].kind) ==> !c.es[j].Reaches(x / 4096)
    requires x / 4096 != c.lapic / 4096 && Last(c, w, PageNo(x + c.hhdm)) && HigherHalf(c, w)
    ensures w == 0
  {
    hide Plan, PageNo, Separated, Mapped, Range.Covers, MemEntry.Reaches;
    OtherPages(c, top, x);
    if 1 <= w <= |c.es| {
      EntryPages(c, top, w - 1, x);
    }
  }
}
