/** `pmm_init` followed by `vmm_init`, the two calls `_start` makes with nothing allocated between them. */
module Boot {
  import opened Bits
  import opened Pmm
  import opened PmmRuns
  import opened Paging
  import opened Accounting
  import opened Vmm
  import opened VmmRuns
  import opened VmmInit
  import opened VmmTables
  import opened VmmLayout

  function ConfigOf(es: seq<MemEntry>, kernel: Kernel, lapic: Word32, hhdm: nat): Config {
    Config(es, FirstUsable(es), BlockCount(es), kernel, lapic, hhdm)
  }

  /** The tables below the root that a configuration needs: one per distinct prefix of a covered page. */
  ghost function TablesFor(c: Config): set<Node> {
    NodesFor(Pages(Ops(Plan(c)), |Ops(Plan(c))|))
  }

  /** The blocks in which the bitmap lies are in use from the start. */
  lemma StorageInUse(bm: seq<Byte>, es: seq<MemEntry>, b: nat)
    requires PageAligned(es) && b < 32768 * (BlockCount(es) / 8)
    requires Reserved(es, StorageBlock(es, b)) ==> StorageBlock(es, b) < 8 * |bm|
    requires forall a :: 0 <= a < 8 * |bm| && Reserved(es, a) ==> IsSet(bm, a)
    ensures IsSet(bm, StorageBlock(es, b))
  {
    hide Reserved, StorageBlock, IsSet;
    FirstUsableAligned(es);
    StorageReservedIff(es, b);
  }

  /** No block that was in use before the tables were built has changed, the bitmap's storage in
      particular. */
  lemma StorageSpared(s: State, s': State, es: seq<MemEntry>)
    requires PageAligned(es) && Spares(s, s') && s.tables == map[]
    requires forall b: nat :: Reserved(es, b) ==> b < 8 * |s.bm|
    requires forall a :: 0 <= a < 8 * |s.bm| && Reserved(es, a) ==> IsSet(s.bm, a)
    ensures forall b: nat, i: nat :: b < 32768 * (BlockCount(es) / 8) && i < 512 ==>
              Rd(s'.mem, StorageBlock(es, b), i) == Rd(s.mem, StorageBlock(es, b), i)
    ensures forall b: nat :: b < 32768 * (BlockCount(es) / 8) ==> StorageBlock(es, b) !in s'.tables.Values
  {
    hide Reserved, StorageBlock, IsSet, Rd, Spares, PageAligned;
    forall b: nat | b < 32768 * (BlockCount(es) / 8)
      ensures forall i: nat :: i < 512 ==> Rd(s'.mem, StorageBlock(es, b), i) == Rd(s.mem, StorageBlock(es, b), i)
      ensures StorageBlock(es, b) !in s'.tables.Values
    {
      StorageInUse(s.bm, es, b);
      SparedBlock(s, s', StorageBlock(es, b));
    }
  }

  lemma SparedBlock(s: State, s': State, b: nat)
    requires Spares(s, s') && IsSet(s.bm, b) && b !in s.tables.Values
    ensures b !in s'.tables.Values && forall i: nat :: i < 512 ==> Rd(s'.mem, b, i) == Rd(s.mem, b, i)
  {
    assert Spared(s, s', b);
  }

  /** What is left: every free block is accounted for by the memory map, less the tables. */
  lemma BlocksLeft(bm: seq<Byte>, es: seq<MemEntry>, s: State, s': State, rs: seq<Range>)
    requires BuiltFrom(bm, es) && s.bm == AllocBits(bm, SearchLimit(es)) && AllocAddr(bm, SearchLimit(es)) != NULL
    requires s.tables.Keys == {ROOT} && Account(s, s', Ops(rs), |Ops(rs)|, SearchLimit(es))
    ensures |FreeBlocks(s'.bm, SearchLimit(es))| + |s'.tables| == |Spare(es)|
  {
    hide AllocAddr, AllocBits, NodesFor, Ops, Spare, BuiltFrom, FreeBlocks, IsSet, Leaf;
    SpareBlocks(bm, es);
    FitsLimit(bm, es);
    AllocTakesLeast(bm, SearchLimit(es));
    NothingFreed(rs, |Ops(rs)|);
    assert |s.tables| == |s.tables.Keys|;
  }

  /** The whole memory boot. It completes exactly when there is a higher-half offset and the memory
      map leaves enough blocks for the root and the tables below it; then every address translates
      as the last loop covering its page says, and what is still free is the rest. Completed or not,
      no word of the bitmap's storage was written. */
  method BootMemory(pmm: BlockAllocator, phys: array<Word>, es: seq<MemEntry>, kernel: Kernel, lapic: Word32, hhdm: nat)
    returns (halted: bool, t: PageTables)
    requires pmm.memSize == 0 && pmm.usableAddr == 0 && Fits(es, pmm.bitmap.Length)
    requires phys as object != pmm.bitmap && 512 * SearchLimit(es) <= phys.Length && hhdm + 8 * phys.Length <= U64
    requires Short(Plan(ConfigOf(es, kernel, lapic, hhdm)))
    modifies pmm, pmm.bitmap, phys
    ensures fresh(t) && t.pmm == pmm && t.phys == phys && pmm.Limit() == SearchLimit(es)
    ensures !halted <==> hhdm != 0 && 0 !in Spare(es)
                         && |TablesFor(ConfigOf(es, kernel, lapic, hhdm))| + 1 <= |Spare(es)|
    ensures Sorted(es) ==> 0 !in Spare(es)
    ensures !halted ==> t.Valid() && 2054 <= |Spare(es)|
    ensures !halted ==> forall va: nat :: t.Translate(va) == Final(ConfigOf(es, kernel, lapic, hhdm), PageNo(va))
    ensures !halted ==> |FreeBlocks(pmm.bitmap[..], pmm.Limit())| + |t.tables| == |Spare(es)|
    ensures PageAligned(es) ==>
              forall b: nat, i: nat :: b < 32768 * (BlockCount(es) / 8) && i < 512 ==>
                Rd(phys[..], StorageBlock(es, b), i) == old(Rd(phys[..], StorageBlock(es, b), i))
    ensures PageAligned(es) ==>
              forall b: nat :: b < 32768 * (BlockCount(es) / 8) ==> StorageBlock(es, b) !in t.tables.Values
  {
    hide t.Valid, Account, Ops, Lookup, Decode, PageNo, NodesFor, FreeBlocks, Spare, Spares, Plan, Short;
    hide AllocAddr, AllocBits, IsSet, Reserved, Cleared, StorageBlock, PageAligned, Rd, Leaf;
    pmm.Init(es);
    t := new PageTables(pmm, phys, hhdm);
    ghost var s0 := t.Now();
    SpareBlocks(s0.bm, es);
    if Sorted(es) {
      Block0Taken(s0.bm, es);
    }
    ghost var s;
    halted, s := Init(t, ConfigOf(es, kernel, lapic, hhdm));
    if PageAligned(es) {
      StorageSpared(s0, t.Now(), es);
    }
    if !halted {
      FitsLimit(s0.bm, es);
      BootNeeds(s0.bm, SearchLimit(es), ConfigOf(es, kernel, lapic, hhdm));
      AllocTakesLeast(s0.bm, SearchLimit(es));
      BlocksLeft(s0.bm, es, s, t.Now(), Plan(ConfigOf(es, kernel, lapic, hhdm)));
    }
  }
}
