/** `vmm_init`: the page tables after all mapping loops, as the last-writer-wins union of ranges. */
module VmmInit {
  import opened Bits
  import opened Pmm
  import opened Paging
  import opened Accounting
  import opened Vmm
  import opened VmmRuns

  /** One mapping loop: pages at `virt`, `virt + 4096`, ... while below `virt + length`. */
  datatype Range = Range(virt: nat, phys: nat, length: nat, flags: Word) {
    function Pages(): nat { (length + PAGE_SIZE - 1) / PAGE_SIZE }

    /** The `k`-th iteration. Addresses wrap as 64-bit words. */
    function At(k: nat): Op {
      MapOp((virt + PAGE_SIZE * k) % U64, (phys + PAGE_SIZE * k) % U64, flags)
    }

    /** The iteration that maps page `q`, if the loop gets that far. */
    function Offset(q: nat): nat {
      (q + PAGES - virt / PAGE_SIZE % PAGES) % PAGES
    }

    predicate Covers(q: nat) { Offset(q) < Pages() }

    /** What it leaves for page `q`. */
    function EntryFor(q: nat): nat { Or((phys + PAGE_SIZE * Offset(q)) % U64, flags) }
  }

  /** The flag words used below are the bitwise or of the flags the kernel names. */
  lemma FlagValues()
    ensures Or(PTE_PRESENT, PTE_READ_WRITE) == 3
    ensures Or(3, PTE_EXECUTE_DISABLE) == PTE_EXECUTE_DISABLE + 3
    ensures Or(PTE_PRESENT, PTE_EXECUTE_DISABLE) == PTE_EXECUTE_DISABLE + 1
  {
    var h := PTE_EXECUTE_DISABLE / 4;
    assert Or(0, h) == h;
    assert Or(1, 2 * h) == 2 * h + 1;
    assert Or(3, 4 * h) == 4 * h + 3;
    assert Or(1, 4 * h) == 4 * h + 1;
  }

  datatype Kernel = Kernel(textStart: Word, textEnd: Word, rodataStart: Word, rodataEnd: Word,
                           dataStart: Word, dataEnd: Word, virtualBase: Word, physicalBase: Word)

  function AlignDown(x: Word): Word { x - x % PAGE_SIZE }

  function AlignUp(x: Word): Word { AlignDown((x + PAGE_SIZE - 1) % U64) }

  /** A section of the kernel image, rounded out to pages, at its physical load address. */
  function Section(k: Kernel, start: Word, end: Word, flags: Word): Range {
    var s, e := AlignDown(start), AlignUp(end);
    Range(s, (s + U64 - k.virtualBase + k.physicalBase) % U64, if s < e then e - s else 0, flags)
  }

  predicate Listed(kind: nat) {
    kind == USABLE || kind == FRAMEBUFFER || kind == BOOTLOADER_RECLAIMABLE || kind == ACPI_RECLAIMABLE
  }

  /** A memory-map entry in the higher half. Entries of other kinds are skipped. */
  function EntryRange(e: MemEntry, hhdm: nat): Range {
    Range(e.base + hhdm, e.base, if Listed(e.kind) then e.length else 0,
          if e.kind == FRAMEBUFFER then PTE_EXECUTE_DISABLE + 3 else 3)
  }

  function BitmapRange(usableAddr: nat, blockCount: nat, hhdm: nat): Range {
    Range(usableAddr + hhdm, usableAddr, blockCount / 8, 3)
  }

  const IDENTITY := Range(0x1000, 0x1000, 0xffff_f000, PTE_EXECUTE_DISABLE + 3)

  function LapicRange(lapic: Word32, hhdm: nat): Range {
    Range(AlignDown((lapic + hhdm) % U64), AlignDown(lapic), PAGE_SIZE, 3)
  }

  datatype Config = Config(es: seq<MemEntry>, usableAddr: nat, blockCount: nat, kernel: Kernel,
                           lapic: Word32, hhdm: nat)

  /** The loops of `vmm_init`, in order. */
  function Plan(c: Config): (rs: seq<Range>)
    ensures |rs| == |c.es| + 6
    ensures rs[0] == BitmapRange(c.usableAddr, c.blockCount, c.hhdm)
    ensures forall i :: 0 <= i < |c.es| ==> rs[1 + i] == EntryRange(c.es[i], c.hhdm)
    ensures rs[|c.es| + 1] == TextRange(c.kernel)
    ensures rs[|c.es| + 2] == RodataRange(c.kernel)
    ensures rs[|c.es| + 3] == DataRange(c.kernel)
    ensures rs[|c.es| + 4] == IDENTITY
    ensures rs[|c.es| + 5] == LapicRange(c.lapic, c.hhdm)
  {
    [BitmapRange(c.usableAddr, c.blockCount, c.hhdm)]
    + seq(|c.es|, i requires 0 <= i < |c.es| => EntryRange(c.es[i], c.hhdm))
    + [TextRange(c.kernel), RodataRange(c.kernel), DataRange(c.kernel), IDENTITY, LapicRange(c.lapic, c.hhdm)]
  }

  function TextRange(k: Kernel): Range { Section(k, k.textStart, k.textEnd, PTE_PRESENT) }

  function RodataRange(k: Kernel): Range { Section(k, k.rodataStart, k.rodataEnd, PTE_EXECUTE_DISABLE + 1) }

  function DataRange(k: Kernel): Range { Section(k, k.dataStart, k.dataEnd, PTE_EXECUTE_DISABLE + 3) }

  // ------------------------------------------------------------------
  // The loops as one sequence of operations
  // ------------------------------------------------------------------

  function Ops(rs: seq<Range>): (ops: seq<Op>)
    ensures |ops| == Start(rs, |rs|)
  {
    if rs == [] then []
    else
      var n := |rs| - 1;
      StartPrefix(rs, n);
      Ops(rs[..n]) + seq(rs[n].Pages(), k requires 0 <= k => rs[n].At(k))
  }

  /** How many operations the first `i` loops make. */
  function Start(rs: seq<Range>, i: nat): nat
    requires i <= |rs|
  {
    if i == 0 then 0 else Start(rs, i - 1) + rs[i - 1].Pages()
  }

  lemma {:induction false} StartPrefix(rs: seq<Range>, n: nat)
    requires n <= |rs|
    ensures Start(rs[..n], n) == Start(rs, n)
  {
    StartPrefixAt(rs, n, n);
  }

  lemma {:induction false} StartPrefixAt(rs: seq<Range>, n: nat, i: nat)
    requires i <= n <= |rs|
    ensures Start(rs[..n], i) == Start(rs, i)
  {
    if i > 0 {
      StartPrefixAt(rs, n, i - 1);
    }
  }

  lemma {:induction false} StartGrows(rs: seq<Range>, i: nat, j: nat)
    requires i <= j <= |rs|
    ensures Start(rs, i) <= Start(rs, j)
    decreases j
  {
    if i < j {
      StartGrows(rs, i, j - 1);
    }
  }

  lemma {:induction false} OpAt(rs: seq<Range>, i: nat, k: nat)
    requires i < |rs| && k < rs[i].Pages()
    ensures Start(rs, i) + k < |Ops(rs)|
    ensures Ops(rs)[Start(rs, i) + k] == rs[i].At(k)
    decreases |rs|
  {
    var n := |rs| - 1;
    StartPrefix(rs, n);
    if i < n {
      OpAt(rs[..n], i, k);
      StartPrefixAt(rs, n, i);
    }
  }

  // ------------------------------------------------------------------
  // Last writer wins
  // ------------------------------------------------------------------

  /** The entry the first `i` loops leave for page `q`: that of the last one covering it. */
  function Lookup(rs: seq<Range>, i: nat, q: nat): nat
    requires i <= |rs|
  {
    if i == 0 then 0
    else if rs[i - 1].Covers(q) then rs[i - 1].EntryFor(q)
    else Lookup(rs, i - 1, q)
  }

  lemma PageOfWrapped(y: nat)
    ensures PageNo(y % U64) == y / PAGE_SIZE % PAGES
  {
    var m, w := y / U64, y % U64;
    var v := w / PAGE_SIZE;
    assert y == U64 * m + w && w == PAGE_SIZE * v + w % PAGE_SIZE;
    DivModUnique(y, PAGE_SIZE, PAGES * U16 * m + v, w % PAGE_SIZE);
    DivModUnique(PAGES * U16 * m + v, PAGES, U16 * m + v / PAGES, v % PAGES);
  }

  lemma OffsetModulo(v: nat, k: nat, q: nat)
    requires k < PAGES && q < PAGES
    ensures (v + k) % PAGES == q <==> k == (q + PAGES - v % PAGES) % PAGES
  {
    var m, w := v / PAGES, v % PAGES;
    assert v == PAGES * m + w;
    assert (v + k) % PAGES == (w + k) % PAGES;
  }

  /** Within one loop of at most 2^36 pages, an iteration maps page `q` exactly at its offset. */
  lemma OffsetIsUnique(r: Range, k: nat, q: nat)
    requires k < PAGES && q < PAGES
    ensures PageNo(r.At(k).va) == q <==> k == r.Offset(q)
  {
    PageOfWrapped(r.virt + PAGE_SIZE * k);
    hide PageNo;
    assert (r.virt + PAGE_SIZE * k) / PAGE_SIZE == r.virt / PAGE_SIZE + k;
    OffsetModulo(r.virt / PAGE_SIZE, k, q);
  }

  /** Loops short enough not to wrap around the 48-bit address space onto themselves. */
  predicate Short(rs: seq<Range>) {
    forall i :: 0 <= i < |rs| ==> rs[i].Pages() <= PAGES
  }

  lemma {:induction false} LoopEntry(rs: seq<Range>, i: nat, k: nat, q: nat)
    requires Short(rs) && i < |rs| && k <= rs[i].Pages() && q < PAGES
    requires Start(rs, i) + k <= |Ops(rs)|
    ensures EntryAfter(Ops(rs), Start(rs, i) + k, q, 0)
            == if rs[i].Offset(q) < k then rs[i].EntryFor(q) else EntryAfter(Ops(rs), Start(rs, i), q, 0)
    decreases k
  {
    if k > 0 {
      OpAt(rs, i, k - 1);
      LoopEntry(rs, i, k - 1, q);
      OffsetIsUnique(rs[i], k - 1, q);
    }
  }

  /** The whole sequence of loops leaves, for every page, the entry of the last loop covering it. */
  lemma {:induction false} LastWriterWins(rs: seq<Range>, i: nat, q: nat)
    requires Short(rs) && i <= |rs| && q < PAGES
    ensures Start(rs, i) <= |Ops(rs)|
    ensures EntryAfter(Ops(rs), Start(rs, i), q, 0) == Lookup(rs, i, q)
  {
    StartGrows(rs, i, |rs|);
    if i > 0 {
      LastWriterWins(rs, i - 1, q);
      LoopEntry(rs, i - 1, rs[i - 1].Pages(), q);
    }
  }

  // ------------------------------------------------------------------
  // The loops themselves
  // ------------------------------------------------------------------

  /** Every block in use at the start, and not a table, is left alone. */
  ghost predicate Spares(s: State, s': State) {
    forall b: nat :: Spared(s, s', b)
  }

  lemma SparesExtend(s: State, s1: State, s2: State, path: set<Node>)
    requires Spares(s, s1) && Extends(s1, s2, path)
    ensures Spares(s, s2)
  {
    hide Spared, Extends;
    forall b: nat
      ensures Spared(s, s2, b)
    {
      ExtendSpares(s, s1, s2, path, b);
    }
  }

  lemma SparesTwice(s: State, s1: State, s2: State)
    requires Spares(s, s1) && Spares(s1, s2)
    ensures Spares(s, s2)
  {
    forall b: nat
      ensures Spared(s, s2, b)
    {
      assert Spared(s, s1, b) && Spared(s1, s2, b);
    }
  }

  lemma SparesRoot(s: State, s': State)
    requires forall b: nat :: Spared(s, s', b)
    ensures Spares(s, s')
  {
  }

  lemma SparesSelf(s: State)
    ensures Spares(s, s)
  {
  }

  /** `for (j = 0; j < length; j += PAGE_SIZE) vmm_map_page(virt + j, phys + j, flags)` */
  method MapRange(t: PageTables, r: Range, ghost rs: seq<Range>, ghost i: nat, ghost s: State)
    returns (halted: bool)
    requires t.Valid() && i < |rs| && rs[i] == r
    requires Start(rs, i) <= |Ops(rs)| && Account(s, t.Now(), Ops(rs), Start(rs, i), t.pmm.Limit())
    requires Spares(s, t.Now())
    modifies t`tables, t.phys, t.pmm.bitmap
    ensures t.Valid() && Spares(s, t.Now())
    ensures Start(rs, i + 1) <= |Ops(rs)|
    ensures !halted ==> Account(s, t.Now(), Ops(rs), Start(rs, i + 1), t.pmm.Limit())
    ensures Suffices(s, Ops(rs), t.pmm.Limit()) ==> !halted
  {
    hide t.Valid, t.Shape, Account, Suffices, Ops, Spares, Extends;
    StartGrows(rs, i + 1, |rs|);
    OpsLength(rs);
    var j := 0;
    ghost var k := 0;
    halted := false;
    while j < r.length && !halted
      invariant j == PAGE_SIZE * k && k <= r.Pages()
      invariant t.Valid() && Spares(s, t.Now())
      invariant Start(rs, i) + k <= |Ops(rs)|
      invariant !halted ==> Account(s, t.Now(), Ops(rs), Start(rs, i) + k, t.pmm.Limit())
      invariant Suffices(s, Ops(rs), t.pmm.Limit()) ==> !halted
      decreases r.length - j, if halted then 0 else 1
    {
      OpAt(rs, i, k);
      NothingOwned(t.Now(), t.pmm.Limit());
      ghost var before := t.Now();
      halted := RunMap(t, (r.virt + j) % U64, (r.phys + j) % U64, r.flags, Ops(rs), Start(rs, i) + k, s, {});
      SparesExtend(s, before, t.Now(), PathOf((r.virt + j) % U64));
      if !halted {
        j := j + PAGE_SIZE;
        k := k + 1;
      }
    }
  }

  lemma OpsLength(rs: seq<Range>)
    ensures |Ops(rs)| == Start(rs, |rs|)
  {
  }

  lemma NothingOwned(s: State, limit: nat)
    ensures Owned(s, {}, limit)
  {
  }

  lemma RootAffordable(bm: seq<Byte>, ops: seq<Op>, limit: nat)
    requires limit <= 8 * |bm| && 0 !in FreeBlocks(bm, limit)
    requires |NodesFor(Pages(ops, |ops|))| + 1 <= |FreeBlocks(bm, limit)|
    ensures AllocAddr(bm, limit) != NULL
  {
    hide NodesFor, AllocAddr, AllocBits;
    AllocTakesLeast(bm, limit);
  }

  /** Taking the root leaves blocks enough for the tables. */
  lemma RootTaken(bm: seq<Byte>, s: State, ops: seq<Op>, limit: nat)
    requires limit <= 8 * |bm| && 0 !in FreeBlocks(bm, limit) && s.bm == AllocBits(bm, limit)
    requires s.tables.Keys == {ROOT} && |NodesFor(Pages(ops, |ops|))| + 1 <= |FreeBlocks(bm, limit)|
    ensures Suffices(s, ops, limit)
  {
    hide NodesFor, AllocAddr, AllocBits;
    AllocTakesLeast(bm, limit);
    TableCount(Pages(ops, |ops|));
    assert NodesFor(Pages(ops, |ops|)) - {ROOT} == NodesFor(Pages(ops, |ops|));
  }

  /** The state once the first `i` loops are done. */
  ghost predicate Reached(t: PageTables, rs: seq<Range>, i: nat, s: State)
    requires i <= |rs|
    reads t, t.phys, t.pmm, t.pmm.bitmap
  {
    && t.Valid()
    && Start(rs, i) <= |Ops(rs)|
    && Account(s, t.Now(), Ops(rs), Start(rs, i), t.pmm.Limit())
  }

  /** A loop, unless an earlier one halted. */
  method Then(t: PageTables, stop: bool, r: Range, ghost rs: seq<Range>, ghost i: nat, ghost s: State)
    returns (halted: bool)
    requires i < |rs| && rs[i] == r
    requires !stop ==> Reached(t, rs, i, s)
    requires Spares(s, t.Now())
    modifies t`tables, t.phys, t.pmm.bitmap
    ensures !halted ==> Reached(t, rs, i + 1, s)
    ensures Spares(s, t.Now())
    ensures Suffices(s, Ops(rs), t.pmm.Limit()) && !stop ==> !halted
  {
    hide t.Valid, Account, Suffices, Ops, Spares;
    halted := stop;
    if !stop {
      halted := MapRange(t, r, rs, i, s);
    }
  }

  /** All the mapping loops of `vmm_init`. */
  method MapAll(t: PageTables, c: Config, ghost s: State) returns (halted: bool)
    requires t.Valid() && s == t.Now()
    modifies t`tables, t.phys, t.pmm.bitmap
    ensures !halted ==> Reached(t, Plan(c), |Plan(c)|, s)
    ensures Spares(s, t.Now())
    ensures Suffices(s, Ops(Plan(c)), t.pmm.Limit()) ==> !halted
  {
    hide t.Valid, Account, Suffices, Ops, Start, EntryRange, BitmapRange, TextRange, RodataRange, DataRange, LapicRange;
    ghost var rs := Plan(c);
    ReachedStart(t, rs);
    SparesSelf(s);
    hide Reached, Spares;
    halted := Then(t, false, BitmapRange(c.usableAddr, c.blockCount, c.hhdm), rs, 0, s);
    for i := 0 to |c.es|
      invariant !halted ==> Reached(t, rs, i + 1, s)
      invariant Spares(s, t.Now())
      invariant Suffices(s, Ops(rs), t.pmm.Limit()) ==> !halted
    {
      halted := Then(t, halted, EntryRange(c.es[i], c.hhdm), rs, i + 1, s);
    }
    halted := Then(t, halted, TextRange(c.kernel), rs, |c.es| + 1, s);
    halted := Then(t, halted, RodataRange(c.kernel), rs, |c.es| + 2, s);
    halted := Then(t, halted, DataRange(c.kernel), rs, |c.es| + 3, s);
    halted := Then(t, halted, IDENTITY, rs, |c.es| + 4, s);
    halted := Then(t, halted, LapicRange(c.lapic, c.hhdm), rs, |c.es| + 5, s);
  }

  lemma ReachedStart(t: PageTables, rs: seq<Range>)
    requires t.Valid()
    ensures Reached(t, rs, 0, t.Now())
  {
    AccountStart(t.Now(), Ops(rs), t.pmm.Limit());
  }

  /** The translations once all loops are done, starting from an empty tree. */
  lemma ReachedTranslates(t: PageTables, rs: seq<Range>, s: State)
    requires Reached(t, rs, |rs|, s) && Short(rs)
    requires forall q: nat :: Leaf(s.mem, s.tables, q) == 0
    ensures t.Valid()
    ensures Account(s, t.Now(), Ops(rs), |Ops(rs)|, t.pmm.Limit())
    ensures forall va: nat :: t.Translate(va) == Decode(Lookup(rs, |rs|, PageNo(va)))
  {
    hide Leaf, Ops, Decode, t.Shape;
    OpsLength(rs);
    t.Unpack();
    t.WalksAreLeaves();
    AccountLeaves(s, t.Now(), Ops(rs), |Ops(rs)|, t.pmm.Limit());
    forall va: nat
      ensures t.Translate(va) == Decode(Lookup(rs, |rs|, PageNo(va)))
    {
      LastWriterWins(rs, |rs|, PageNo(va));
      assert t.LeafNow(PageNo(va)) == Leaf(t.Now().mem, t.Now().tables, PageNo(va));
    }
  }

  /** There are blocks for the root and for every table the loops need. */
  ghost predicate Affordable(bm: seq<Byte>, limit: nat, rs: seq<Range>) {
    && 0 !in FreeBlocks(bm, limit)
    && |NodesFor(Pages(Ops(rs), |Ops(rs)|))| + 1 <= |FreeBlocks(bm, limit)|
  }

  lemma {:induction false} OnlyMaps(rs: seq<Range>, k: nat)
    requires k < |Ops(rs)|
    ensures Ops(rs)[k].MapOp?
    decreases |rs|
  {
    if rs != [] {
      var n := |rs| - 1;
      StartPrefix(rs, n);
      if k < Start(rs, n) {
        OnlyMaps(rs[..n], k);
      } else {
        OpAt(rs, n, k - Start(rs, n));
      }
    }
  }

  lemma {:induction false} NothingFreed(rs: seq<Range>, n: nat)
    requires n <= |Ops(rs)|
    ensures Frees(Ops(rs), n) == 0
  {
    if n > 0 {
      NothingFreed(rs, n - 1);
      OnlyMaps(rs, n - 1);
    }
  }

  /** A boot that completed could be afforded: its tables are the blocks it took. */
  lemma Afforded(bm: seq<Byte>, s: State, s': State, rs: seq<Range>, limit: nat)
    requires limit <= 8 * |bm| && AllocAddr(bm, limit) != NULL && s.bm == AllocBits(bm, limit)
    requires s.tables.Keys == {ROOT} && Account(s, s', Ops(rs), |Ops(rs)|, limit)
    ensures Affordable(bm, limit, rs)
  {
    hide AllocAddr, AllocBits, Account, NodesFor, Prefixes, Ops, Pages, FreeBlocks;
    AllocTakesLeast(bm, limit);
    NothingFreed(rs, |Ops(rs)|);
    ExactTables(s, s', Ops(rs), |Ops(rs)|, limit);
    TableCount(Pages(Ops(rs), |Ops(rs)|));
  }

  /** `vmm_init`, up to loading CR3. On success the processor translates every address as the last
      loop covering its page says, and faults where no loop does. It halts exactly for want of a
      higher-half offset or of free blocks. Either way no block in use before is written. */
  method Init(t: PageTables, c: Config) returns (halted: bool, ghost s: State)
    requires t.Machine() && t.tables == map[] && c.hhdm == t.hhdmOffset
    requires c.usableAddr == t.pmm.usableAddr && c.blockCount == t.pmm.blockCount
    requires Short(Plan(c))
    modifies t`tables, t`pml4addr, t.phys, t.pmm.bitmap
    ensures !halted ==> t.Valid()
    ensures !halted ==> forall va: nat :: t.Translate(va) == Decode(Lookup(Plan(c), |Plan(c)|, PageNo(va)))
    ensures !halted ==> s.tables.Keys == {ROOT} && s.bm == AllocBits(old(t.pmm.bitmap[..]), t.pmm.Limit())
                        && Account(s, t.Now(), Ops(Plan(c)), |Ops(Plan(c))|, t.pmm.Limit())
    ensures Spares(old(t.Now()), t.Now())
    ensures !halted <==> t.hhdmOffset != 0 && Affordable(old(t.pmm.bitmap[..]), t.pmm.Limit(), Plan(c))
  {
    hide t.Valid, t.Shape, Reached, Account, Suffices, Ops, Lookup, Leaf, Decode, PageNo, NodesFor, FreeBlocks;
    hide AllocAddr, AllocBits, Plan, Short;
    ghost var bm := t.pmm.bitmap[..];
    halted := t.InitRoot();
    s := t.Now();
    SparesRoot(old(t.Now()), s);
    hide Spares;
    if Affordable(bm, t.pmm.Limit(), Plan(c)) {
      RootAffordable(bm, Ops(Plan(c)), t.pmm.Limit());
      if !halted {
        RootTaken(bm, s, Ops(Plan(c)), t.pmm.Limit());
      }
    }
    if halted {
      return;
    }
    assert forall q: nat :: Leaf(s.mem, s.tables, q) == t.LeafNow(q);
    halted := MapAll(t, c, s);
    SparesTwice(old(t.Now()), s, t.Now());
    if !halted {
      ReachedTranslates(t, Plan(c), s);
      Afforded(bm, s, t.Now(), Plan(c), t.pmm.Limit());
    }
  }
}
