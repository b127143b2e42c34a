/** How many tables the loops of `vmm_init` need. */
module VmmTables {
  import opened Bits
  import opened Pmm
  import opened Paging
  import opened Accounting
  import opened Vmm
  import opened VmmRuns
  import opened VmmInit

  lemma {:induction false} InPages(ops: seq<Op>, n: nat, q: nat)
    requires n <= |ops|
    ensures q in Pages(ops, n) <==> exists k :: 0 <= k < n && PageNo(ops[k].va) == q
  {
    hide PageNo;
    if n > 0 {
      InPages(ops, n - 1, q);
    }
  }

  /** The first page of a loop. */
  function First(r: Range): nat { r.virt / PAGE_SIZE % PAGES }

  /** A loop that does not run past the end of the 48-bit address space. */
  predicate Straight(r: Range) { First(r) + r.Pages() <= PAGES }

  lemma StraightPage(r: Range, k: nat)
    requires Straight(r) && k < r.Pages()
    ensures PageNo(r.At(k).va) == First(r) + k
  {
    PageOfWrapped(r.virt + PAGE_SIZE * k);
    hide PageNo;
    hide Range.Pages;
    var v := r.virt / PAGE_SIZE;
    assert (r.virt + PAGE_SIZE * k) / PAGE_SIZE == v + k;
    OffsetModulo(v, k, First(r) + k);
  }

  /** Such a loop covers a contiguous run of pages. */
  lemma StraightCovers(r: Range, q: nat)
    requires Straight(r) && q < PAGES
    ensures r.Covers(q) <==> First(r) <= q < First(r) + r.Pages()
  {
  }

  /** The first `n` iterations of a loop touch its first `n` pages. */
  lemma {:induction false} RangePages(r: Range, n: nat)
    requires Straight(r) && n <= r.Pages()
    ensures |Ops([r])| == r.Pages()
    ensures Pages(Ops([r]), n) == Interval(First(r), n)
  {
    hide First, Straight, Range.Pages, Range.At, PageNo, Ops, Start, Pages, Interval;
    OneLoop(r);
    OneMore(Ops([r]), First(r), n);
    if n > 0 {
      RangePages(r, n - 1);
      OpAt([r], 0, n - 1);
      StraightPage(r, n - 1);
    }
  }

  lemma OneMore(ops: seq<Op>, first: nat, n: nat)
    requires n <= |ops|
    ensures n == 0 ==> Pages(ops, n) == {} && Interval(first, n) == {}
    ensures n > 0 ==> Pages(ops, n) == Pages(ops, n - 1) + {PageNo(ops[n - 1].va)}
    ensures n > 0 ==> Interval(first, n) == Interval(first, n - 1) + {first + n - 1}
  {
  }

  lemma OneLoop(r: Range)
    ensures Start([r], 0) == 0 && |Ops([r])| == r.Pages()
  {
    hide Range.Pages;
    OpsLength([r]);
    assert Start([r], 1) == r.Pages();
  }

  /** One loop run from an empty tree: the tables it leaves and the blocks it takes, in closed form. */
  lemma RangeTables(r: Range, s: State, s': State, limit: nat)
    requires Straight(r) && r.Pages() > 0
    requires s.tables.Keys == {ROOT} && Account(s, s', Ops([r]), |Ops([r])|, limit)
    ensures var below := RunTables(First(r), r.Pages(), 3) + RunTables(First(r), r.Pages(), 2)
                         + RunTables(First(r), r.Pages(), 1);
            && |s'.tables| == 1 + below
            && |FreeBlocks(s.bm, limit)| == |FreeBlocks(s'.bm, limit)| + below
  {
    hide Account, First, Range.Pages, NodesFor, Prefixes, Interval, RunTables, FreeBlocks, Ops;
    RangePages(r, r.Pages());
    RangeTableCount(First(r), r.Pages());
    TableCount(Interval(First(r), r.Pages()));
    ExactTables(s, s', Ops([r]), |Ops([r])|, limit);
    NothingFreed([r], |Ops([r])|);
  }

  lemma IdentityRun()
    ensures First(IDENTITY) == 1 && IDENTITY.Pages() == 0xf_ffff && Straight(IDENTITY)
    ensures RunTables(1, 0xf_ffff, 3) == 1 && RunTables(1, 0xf_ffff, 2) == 4 && RunTables(1, 0xf_ffff, 1) == 2048
  {
  }

  /** The identity map of [0x1000, 2^32), run from an empty tree: 1 + 4 + 2048 tables below the root,
      and as many blocks taken. */
  lemma IdentityTables(s: State, s': State, limit: nat)
    requires s.tables.Keys == {ROOT} && Account(s, s', Ops([IDENTITY]), |Ops([IDENTITY])|, limit)
    ensures |s'.tables| == 2054
    ensures |FreeBlocks(s.bm, limit)| == |FreeBlocks(s'.bm, limit)| + 2053
  {
    hide Account, Ops, FreeBlocks, RunTables, Straight, First, Range.Pages;
    IdentityRun();
    RangeTables(IDENTITY, s, s', limit);
  }

  lemma {:induction false} OpOfLoop(rs: seq<Range>, k: nat) returns (i: nat, j: nat)
    requires k < |Ops(rs)|
    ensures i < |rs| && j < rs[i].Pages() && k == Start(rs, i) + j
    decreases |rs|
  {
    var n := |rs| - 1;
    StartPrefix(rs, n);
    if k < Start(rs, n) {
      i, j := OpOfLoop(rs[..n], k);
      StartPrefixAt(rs, n, i);
    } else {
      i, j := n, k - Start(rs, n);
    }
  }

  /** The pages all loops together touch are the pages some loop covers. */
  lemma PagesCovered(rs: seq<Range>, q: nat)
    requires Short(rs) && q < PAGES
    ensures q in Pages(Ops(rs), |Ops(rs)|) <==> exists i :: 0 <= i < |rs| && rs[i].Covers(q)
  {
    hide PageNo, Ops, Start, Range.Offset, Range.Pages;
    InPages(Ops(rs), |Ops(rs)|, q);
    if k :| 0 <= k < |Ops(rs)| && PageNo(Ops(rs)[k].va) == q {
      var i, j := OpOfLoop(rs, k);
      OpAt(rs, i, j);
      OffsetIsUnique(rs[i], j, q);
      assert rs[i].Covers(q);
    }
    if i :| 0 <= i < |rs| && rs[i].Covers(q) {
      var k := rs[i].Offset(q);
      OpAt(rs, i, k);
      OffsetIsUnique(rs[i], k, q);
      assert PageNo(Ops(rs)[Start(rs, i) + k].va) == q;
    }
  }

  /** Because of the identity map alone, no boot completes with fewer than 2054 free blocks. */
  lemma BootNeeds(bm: seq<Byte>, limit: nat, c: Config)
    requires Short(Plan(c)) && Affordable(bm, limit, Plan(c))
    ensures |FreeBlocks(bm, limit)| >= 2054
  {
    hide Short, Plan, Ops, NodesFor, Interval, FreeBlocks, RunTables, Straight, First, Range.Pages, Range.Covers;
    var rs := Plan(c);
    var pages, low := Pages(Ops(rs), |Ops(rs)|), Interval(1, 0xf_ffff);
    IdentityRun();
    RangeTableCount(1, 0xf_ffff);
    forall q | q in low
      ensures q in pages
    {
      StraightCovers(IDENTITY, q);
      assert rs[|c.es| + 4].Covers(q);
      PagesCovered(rs, q);
    }
    assert low + pages == pages;
    NodesForUnion(low, pages);
    Subset(NodesFor(low), NodesFor(pages));
  }
}
