/** Whole runs of map and free calls: what is translated, how many blocks the tables took, and
    when a run can halt. */
module VmmRuns {
  import opened Bits
  import opened Pmm
  import opened Paging
  import opened Accounting
  import opened Vmm

  datatype Op = MapOp(va: Word, pa: Word, flags: Word) | FreeOp(va: Word)

  /** The last-level entry of page `q` after the first `n` operations, from entry `e` before them:
      the last operation on the page decides. */
  function EntryAfter(ops: seq<Op>, n: nat, q: nat, e: nat): nat
    requires n <= |ops|
  {
    if n == 0 then e
    else if PageNo(ops[n - 1].va) != q then EntryAfter(ops, n - 1, q, e)
    else if ops[n - 1].MapOp? then Or(ops[n - 1].pa, ops[n - 1].flags)
    else 0
  }

  /** The pages the first `n` operations touch. */
  function Pages(ops: seq<Op>, n: nat): set<nat>
    requires n <= |ops|
  {
    if n == 0 then {} else Pages(ops, n - 1) + {PageNo(ops[n - 1].va)}
  }

  function Frees(ops: seq<Op>, n: nat): nat
    requires n <= |ops|
  {
    if n == 0 then 0 else Frees(ops, n - 1) + if ops[n - 1].FreeOp? then 1 else 0
  }

  /** The state after `n` operations, relative to the state before the run. */
  ghost predicate Account(s: State, s': State, ops: seq<Op>, n: nat, limit: nat)
    requires n <= |ops|
  {
    && |s'.bm| == |s.bm|
    && (forall q: nat :: Leaf(s'.mem, s'.tables, q) == EntryAfter(ops, n, q, Leaf(s.mem, s.tables, q)))
    && s'.tables.Keys == s.tables.Keys + NodesFor(Pages(ops, n))
    && |FreeBlocks(s'.bm, limit)| + |s'.tables| == |FreeBlocks(s.bm, limit)| + |s.tables| + Frees(ops, n)
    && IsSet(s'.bm, 0) == IsSet(s.bm, 0)
  }

  /** There are blocks enough for every table the run needs. */
  ghost predicate Suffices(s: State, ops: seq<Op>, limit: nat) {
    && 0 !in FreeBlocks(s.bm, limit)
    && |NodesFor(Pages(ops, |ops|)) - s.tables.Keys| <= |FreeBlocks(s.bm, limit)|
  }

  lemma AccountStart(s: State, ops: seq<Op>, limit: nat)
    ensures Account(s, s, ops, 0, limit)
  {
    assert NodesFor({}) == {};
    assert s.tables.Keys + {} == s.tables.Keys;
  }

  lemma KeysStep(keys: set<Node>, ops: seq<Op>, n: nat)
    requires n < |ops|
    ensures keys + NodesFor(Pages(ops, n + 1)) == keys + NodesFor(Pages(ops, n)) + PathOf(ops[n].va)
  {
    PathIsNodes(ops[n].va);
    NodesForUnion(Pages(ops, n), {PageNo(ops[n].va)});
  }

  lemma AccountMap(s: State, s1: State, s2: State, ops: seq<Op>, n: nat, limit: nat)
    requires n < |ops| && ops[n].MapOp? && Account(s, s1, ops, n, limit)
    requires |s2.bm| == |s1.bm| && Moved(s1, s2, limit)
    requires s2.tables.Keys == s1.tables.Keys + PathOf(ops[n].va)
    requires forall q: nat :: Leaf(s2.mem, s2.tables, q)
                              == if q == PageNo(ops[n].va) then Or(ops[n].pa, ops[n].flags)
                                 else Leaf(s1.mem, s1.tables, q)
    ensures Account(s, s2, ops, n + 1, limit)
  {
    hide Leaf, NodesFor, PathOf, PageNo, IsSet, FreeBlocks, Or;
    KeysStep(s.tables.Keys, ops, n);
  }

  lemma AccountFree(s: State, s1: State, s2: State, ops: seq<Op>, n: nat, freed: nat, limit: nat)
    requires n < |ops| && ops[n].FreeOp? && Account(s, s1, ops, n, limit)
    requires Released(s1, s2, freed) && Returned(s1, s2, freed, limit)
    requires freed != 0 && 0 !in s2.tables.Values
    requires s2.tables.Keys == s1.tables.Keys + PathOf(ops[n].va)
    requires forall q: nat :: Leaf(s2.mem, s2.tables, q)
                              == if q == PageNo(ops[n].va) then 0 else Leaf(s1.mem, s1.tables, q)
    ensures Account(s, s2, ops, n + 1, limit)
  {
    hide Leaf, NodesFor, PathOf, PageNo, IsSet, FreeBlocks, Released;
    ReleasedBit0(s1, s2, freed);
    KeysStep(s.tables.Keys, ops, n);
  }

  lemma ReleasedBit0(s: State, s': State, freed: nat)
    requires Released(s, s', freed) && freed != 0 && 0 !in s'.tables.Values
    ensures |s'.bm| == |s.bm| && IsSet(s'.bm, 0) == IsSet(s.bm, 0)
  {
    if |s.bm| > 0 {
      assert IsSet(s'.bm, 0) <==> 0 != freed && (IsSet(s.bm, 0) || 0 in s'.tables.Values);
    }
  }

  lemma PagesGrow(ops: seq<Op>, n: nat, m: nat)
    requires n <= m <= |ops|
    ensures Pages(ops, n) <= Pages(ops, m)
    decreases m
  {
    if n < m {
      PagesGrow(ops, n, m - 1);
    }
  }

  /** With blocks enough for the whole run, no operation of it runs out. */
  lemma EnoughLeft(s: State, s': State, ops: seq<Op>, n: nat, limit: nat)
    requires n < |ops| && Account(s, s', ops, n, limit) && Suffices(s, ops, limit)
    ensures !Exhausts(s'.bm, limit, PathOf(ops[n].va) - s'.tables.Keys)
  {
    hide Leaf, PathOf, PageNo, NodesFor, IsSet;
    assert 0 !in FreeBlocks(s'.bm, limit);
    RunNodes(s.tables.Keys, ops, n);
    MissingFits(s.tables.Keys, s'.tables.Keys, PathOf(ops[n].va), NodesFor(Pages(ops, |ops|)));
    assert |s.tables| == |s.tables.Keys| && |s'.tables| == |s'.tables.Keys|;
  }

  lemma RunNodes(keys: set<Node>, ops: seq<Op>, n: nat)
    requires n < |ops|
    ensures keys + NodesFor(Pages(ops, n)) + PathOf(ops[n].va) <= keys + NodesFor(Pages(ops, |ops|))
  {
    hide PathOf, PageNo, NodesFor;
    KeysStep(keys, ops, n);
    PagesGrow(ops, n + 1, |ops|);
    NodesForUnion(Pages(ops, n + 1), Pages(ops, |ops|));
    assert Pages(ops, n + 1) + Pages(ops, |ops|) == Pages(ops, |ops|);
  }

  lemma MissingFits(keys: set<Node>, keys': set<Node>, path: set<Node>, all: set<Node>)
    requires keys' + path <= keys + all
    ensures |keys'| + |path - keys'| <= |keys| + |all - keys|
  {
    UnionSize(keys', path);
    UnionSize(keys, all);
    Subset(keys' + path, keys + all);
  }

  lemma UnionSize(a: set<Node>, b: set<Node>)
    ensures |a| + |b - a| == |a + b|
  {
    assert a + b == a + (b - a);
  }

  lemma Subset(a: set<Node>, b: set<Node>)
    requires a <= b
    ensures |a| <= |b|
  {
    assert b == a + (b - a);
  }

  /** Frames clients own: in use, holding no table, within the allocator's reach. */
  ghost predicate Owned(s: State, frames: set<nat>, limit: nat) {
    forall b :: b in frames ==> 0 < b < limit && IsSet(s.bm, b) && b !in s.tables.Values
  }

  /** The frames still owned after the first `n` operations. */
  ghost function FramesAfter(ops: seq<Op>, n: nat, e: imap<nat, nat>, frames: set<nat>): set<nat>
    requires n <= |ops| && forall q: nat :: q in e
  {
    if n == 0 then frames
    else FramesAfter(ops, n - 1, e, frames)
         - (if ops[n - 1].FreeOp? then {FrameFreed(ops, n - 1, e)} else {})
  }

  /** The block the `n`-th operation frees. */
  ghost function FrameFreed(ops: seq<Op>, n: nat, e: imap<nat, nat>): nat
    requires n < |ops| && forall q: nat :: q in e
  {
    var q := PageNo(ops[n].va);
    Frame(EntryAfter(ops, n, q, e[q])) / BLOCK_SIZE
  }

  /** Every page freed is mapped, when it is freed, to a frame the client owns. */
  ghost predicate Careful(ops: seq<Op>, n: nat, e: imap<nat, nat>, frames: set<nat>)
    requires n <= |ops| && forall q: nat :: q in e
  {
    n > 0 ==>
      && Careful(ops, n - 1, e, frames)
      && (ops[n - 1].FreeOp? ==> FrameFreed(ops, n - 1, e) in FramesAfter(ops, n - 1, e, frames))
  }

  lemma FramesStep(ops: seq<Op>, n: nat, e: imap<nat, nat>, frames: set<nat>)
    requires n < |ops| && forall q: nat :: q in e
    ensures ops[n].MapOp? ==> FramesAfter(ops, n + 1, e, frames) == FramesAfter(ops, n, e, frames)
    ensures ops[n].FreeOp? ==>
              FramesAfter(ops, n + 1, e, frames) == FramesAfter(ops, n, e, frames) - {FrameFreed(ops, n, e)}
  {
  }

  lemma CarefulAt(ops: seq<Op>, k: nat, n: nat, e: imap<nat, nat>, frames: set<nat>)
    requires k <= n <= |ops| && (forall q: nat :: q in e) && Careful(ops, n, e, frames)
    ensures Careful(ops, k, e, frames)
    decreases n
  {
    if k < n {
      CarefulAt(ops, k, n - 1, e, frames);
    }
  }

  lemma OwnedMap(s: State, s': State, path: set<Node>, frames: set<nat>, limit: nat)
    requires Owned(s, frames, limit) && Extends(s, s', path)
    ensures Owned(s', frames, limit)
  {
    forall b | b in frames
      ensures IsSet(s'.bm, b) && b !in s'.tables.Values
    {
      NotNew(s, s', b);
    }
  }

  lemma NotNew(s: State, s': State, b: nat)
    requires IsSet(s.bm, b) && b !in s.tables.Values
    requires forall n :: n in s'.tables && n in s.tables ==> s'.tables[n] == s.tables[n]
    requires forall n :: n in s'.tables && n !in s.tables ==> !IsSet(s.bm, s'.tables[n])
    ensures b !in s'.tables.Values
  {
    forall n | n in s'.tables
      ensures s'.tables[n] != b
    {
      assert n in s.tables ==> s.tables[n] in s.tables.Values;
    }
  }

  lemma OwnedFree(s: State, s': State, freed: nat, frames: set<nat>, limit: nat)
    requires Owned(s, frames, limit) && Released(s, s', freed)
    ensures Owned(s', frames - {freed}, limit)
  {
    forall b | b in frames - {freed}
      ensures IsSet(s'.bm, b) && b !in s'.tables.Values
    {
      NotNew(s, s', b);
    }
  }

  /** One operation of a run. */
  method RunMap(t: PageTables, va: Word, pa: Word, flags: Word,
                ghost ops: seq<Op>, ghost n: nat, ghost s: State, ghost frames: set<nat>)
    returns (halted: bool)
    requires t.Valid() && n < |ops| && ops[n] == MapOp(va, pa, flags)
    requires Account(s, t.Now(), ops, n, t.pmm.Limit()) && Owned(t.Now(), frames, t.pmm.Limit())
    modifies t`tables, t.phys, t.pmm.bitmap
    ensures t.Valid() && Extends(old(t.Now()), t.Now(), PathOf(va))
    ensures !halted ==> Account(s, t.Now(), ops, n + 1, t.pmm.Limit()) && Owned(t.Now(), frames, t.pmm.Limit())
    ensures halted ==> forall q: nat :: t.LeafNow(q) == old(t.LeafNow(q))
    ensures Suffices(s, ops, t.pmm.Limit()) ==> !halted
  {
    hide t.Valid, t.Shape, Account, Owned, Extends, Moved, Exhausts, Suffices, Leaf, PathOf, PageNo, Or, Decode;
    ghost var s1 := t.Now();
    if Suffices(s, ops, t.pmm.Limit()) {
      EnoughLeft(s, s1, ops, n, t.pmm.Limit());
    }
    halted := t.MapPage(va, pa, flags);
    if !halted {
      assert forall q: nat :: Leaf(t.Now().mem, t.Now().tables, q) == t.LeafNow(q);
      AccountMap(s, s1, t.Now(), ops, n, t.pmm.Limit());
      OwnedMap(s1, t.Now(), PathOf(ops[n].va), frames, t.pmm.Limit());
    }
  }

  method RunFree(t: PageTables, ops: seq<Op>, n: nat, ghost s: State, ghost frames: set<nat>)
    returns (halted: bool, ghost freed: nat)
    requires t.Valid() && n < |ops| && ops[n].FreeOp?
    requires Account(s, t.Now(), ops, n, t.pmm.Limit()) && Owned(t.Now(), frames, t.pmm.Limit())
    requires Frame(t.LeafNow(PageNo(ops[n].va))) / BLOCK_SIZE in frames
    modifies t`tables, t.phys, t.pmm.bitmap
    ensures t.Valid() && freed == old(Frame(t.LeafNow(PageNo(ops[n].va)))) / BLOCK_SIZE
    ensures !halted ==> Account(s, t.Now(), ops, n + 1, t.pmm.Limit())
    ensures !halted ==> Owned(t.Now(), frames - {freed}, t.pmm.Limit())
    ensures halted ==> forall q: nat :: t.LeafNow(q) == old(t.LeafNow(q))
    ensures Suffices(s, ops, t.pmm.Limit()) ==> !halted
  {
    hide t.Valid, t.Shape, Account, Owned, Extends, Exhausts, Suffices, Leaf, PathOf, PageNo, Decode;
    hide Released, Returned, Frame, IsSet;
    ghost var s1 := t.Now();
    t.Unpack();
    freed := Frame(t.LeafNow(PageNo(ops[n].va))) / BLOCK_SIZE;
    OwnedFrame(s1, freed, frames, t.pmm.Limit());
    if Suffices(s, ops, t.pmm.Limit()) {
      EnoughLeft(s, s1, ops, n, t.pmm.Limit());
    }
    halted := t.FreePage(ops[n].va);
    if !halted {
      OwnedFree(s1, t.Now(), freed, frames, t.pmm.Limit());
      NotTable(s1, t.Now(), freed);
      t.Unpack();
      TableBlocks(t.Now());
      assert forall q: nat :: Leaf(t.Now().mem, t.Now().tables, q) == t.LeafNow(q);
      AccountFree(s, s1, t.Now(), ops, n, freed, t.pmm.Limit());
    }
  }

  lemma OwnedFrame(s: State, b: nat, frames: set<nat>, limit: nat)
    requires Owned(s, frames, limit) && b in frames
    ensures 0 < b < limit && IsSet(s.bm, b) && b !in s.tables.Values
  {
  }

  lemma NotTable(s: State, s': State, freed: nat)
    requires Released(s, s', freed) && IsSet(s.bm, freed) && freed !in s.tables.Values
    ensures freed !in s'.tables.Values && |s'.bm| == |s.bm|
  {
    NotNew(s, s', freed);
  }

  lemma TableBlocks(s: State)
    requires Forest(s.mem, s.tables)
    ensures 0 !in s.tables.Values
  {
  }

  lemma AccountLeaves(s: State, s': State, ops: seq<Op>, n: nat, limit: nat)
    requires n <= |ops| && Account(s, s', ops, n, limit)
    ensures forall q: nat :: Leaf(s'.mem, s'.tables, q) == EntryAfter(ops, n, q, Leaf(s.mem, s.tables, q))
  {
  }

  /** Runs a sequence of operations, up to the first that halts. Translations are the fold of the
      operations, the tables are exactly those the touched pages need, blocks are conserved, and
      with enough free blocks the run completes. The table structure is valid at every stop. */
  method Run(t: PageTables, ops: seq<Op>, ghost e: imap<nat, nat>, ghost frames: set<nat>)
    returns (halted: bool, n: nat)
    requires t.Valid()
    requires forall q: nat :: q in e && e[q] == t.LeafNow(q)
    requires Owned(t.Now(), frames, t.pmm.Limit()) && Careful(ops, |ops|, e, frames)
    modifies t`tables, t.phys, t.pmm.bitmap
    ensures t.Valid() && n <= |ops| && (halted <==> n < |ops|)
    ensures forall q: nat :: t.LeafNow(q) == EntryAfter(ops, n, q, e[q])
    ensures forall va: nat :: t.Translate(va) == Decode(EntryAfter(ops, n, PageNo(va), e[PageNo(va)]))
    ensures !halted ==> Account(old(t.Now()), t.Now(), ops, n, t.pmm.Limit())
    ensures !halted ==> Owned(t.Now(), FramesAfter(ops, n, e, frames), t.pmm.Limit())
    ensures old(Suffices(t.Now(), ops, t.pmm.Limit())) ==> !halted
  {
    hide t.Valid, t.Shape, Account, Owned, Suffices, Extends, Leaf, PathOf, PageNo, Decode, Frame, Forest, Reserves;
    hide Walk, Or;
    ghost var s, limit := t.Now(), t.pmm.Limit();
    n, halted := 0, false;
    AccountStart(s, ops, limit);
    while n < |ops| && !halted
      invariant t.Valid() && n <= |ops| && (halted ==> n < |ops|)
      invariant forall q: nat :: t.LeafNow(q) == EntryAfter(ops, n, q, e[q])
      invariant !halted ==> Account(s, t.Now(), ops, n, limit)
      invariant !halted ==> Owned(t.Now(), FramesAfter(ops, n, e, frames), limit)
      invariant Suffices(s, ops, limit) ==> !halted
      invariant limit == t.pmm.Limit()
      decreases |ops| - n, if halted then 0 else 1
    {
      CarefulAt(ops, n + 1, |ops|, e, frames);
      FramesStep(ops, n, e, frames);
      if ops[n].MapOp? {
        halted := RunMap(t, ops[n].va, ops[n].pa, ops[n].flags, ops, n, s, FramesAfter(ops, n, e, frames));
      } else {
        ghost var freed;
        halted, freed := RunFree(t, ops, n, s, FramesAfter(ops, n, e, frames));
      }
      if !halted {
        n := n + 1;
        AccountLeaves(s, t.Now(), ops, n, limit);
      }
    }
    t.Unpack();
    t.WalksAreLeaves();
  }

  /** Exact accounting from an empty PML4: besides the root there is one table per distinct
      `va >> 39`, `va >> 30` and `va >> 21` touched, and the free blocks account for each. */
  lemma ExactTables(s: State, s': State, ops: seq<Op>, n: nat, limit: nat)
    requires n <= |ops| && Account(s, s', ops, n, limit) && s.tables.Keys == {ROOT}
    ensures var pages := Pages(ops, n);
            var below := |Prefixes(pages, 3)| + |Prefixes(pages, 2)| + |Prefixes(pages, 1)|;
            && |s'.tables| == 1 + below
            && |FreeBlocks(s.bm, limit)| + Frees(ops, n) == |FreeBlocks(s'.bm, limit)| + below
  {
    hide Leaf, NodesFor, Prefixes, IsSet;
    TableCount(Pages(ops, n));
    UnionSize({ROOT}, NodesFor(Pages(ops, n)));
    assert NodesFor(Pages(ops, n)) - {ROOT} == NodesFor(Pages(ops, n));
    assert |s.tables| == |s.tables.Keys| && |s'.tables| == |s'.tables.Keys|;
  }

  /** The next allocation answers NULL although blocks are free exactly when the block freed was
      block 0. That allocation marks block 0 again, so block 0 is lost, and the one after it answers
      the least other free block, if there is one. */
  lemma NullFreed(s: State, s': State, freed: nat, limit: nat)
    requires Released(s, s', freed) && 0 !in s'.tables.Values && IsSet(s.bm, 0)
    requires 0 < limit <= 8 * |s.bm|
    ensures AllocAddr(s'.bm, limit) == NULL && FreeBlocks(s'.bm, limit) != {} <==> freed == 0
    ensures freed == 0 ==>
              var free, bm := FreeBlocks(s'.bm, limit), AllocBits(s'.bm, limit);
              && 0 in free && FreeBlocks(bm, limit) == free - {0}
              && (AllocAddr(bm, limit) == NULL <==> free == {0})
  {
    hide AllocAddr, AllocBits;
    assert IsSet(s'.bm, 0) <==> 0 != freed && (IsSet(s.bm, 0) || 0 in s'.tables.Values);
    AllocTakesLeast(s'.bm, limit);
    AllocTakesLeast(AllocBits(s'.bm, limit), limit);
  }

  lemma BlockZero(e: Word)
    ensures Frame(e) / BLOCK_SIZE == 0 <==> Frame(e) == 0
    ensures Frame(0) == 0
  {
    FrameIs(e);
    FrameIs(0);
  }

  lemma LeafIsWord(mem: seq<Word>, tables: map<Node, nat>, q: nat)
    ensures Leaf(mem, tables, q) < U64
  {
  }

  lemma ShapeParts(t: PageTables)
    requires t.Shape()
    ensures t.Machine() && Forest(t.phys[..], t.tables)
  {
  }

  /** Unmapping a page and allocating next. The allocation fails with blocks free exactly when the
      entry's address field was 0, in particular when the page was not mapped; then every block but
      those the tables took is as it was before the two calls. */
  method FreeThenAlloc(t: PageTables, va: Word) returns (halted: bool, addr: nat, ghost bm: seq<Byte>)
    requires t.Valid() && IsSet(t.pmm.bitmap[..], 0) && 0 < t.pmm.Limit()
    requires Frame(t.LeafNow(PageNo(va))) / BLOCK_SIZE < 8 * t.pmm.bitmap.Length
    modifies t`tables, t.phys, t.pmm.bitmap
    ensures !halted ==>
              (addr == NULL && FreeBlocks(bm, t.pmm.Limit()) != {} <==> old(Frame(t.LeafNow(PageNo(va)))) == 0)
    ensures !halted && old(t.LeafNow(PageNo(va))) == 0 ==> addr == NULL && FreeBlocks(bm, t.pmm.Limit()) != {}
    ensures !halted && old(Frame(t.LeafNow(PageNo(va)))) == 0 ==>
              forall a :: 0 <= a < 8 * t.pmm.bitmap.Length ==>
                (IsSet(t.pmm.bitmap[..], a) <==> old(IsSet(t.pmm.bitmap[..], a)) || a in t.tables.Values)
  {
    hide t.Valid, t.Shape, Extends, Exhausts, Leaf, PageNo, Decode, PathOf;
    hide Released, Returned, Frame, IsSet, Forest, Reserves, AllocAddr, AllocBits, FreeBlocks;
    ghost var s, e := t.Now(), t.LeafNow(PageNo(va));
    LeafIsWord(s.mem, s.tables, PageNo(va));
    BlockZero(e);
    t.Unpack();
    halted := t.FreePage(va);
    addr, bm := NULL, t.pmm.bitmap[..];
    if !halted {
      ghost var s' := t.Now();
      ShapeParts(t);
      TableBlocks(s');
      NullFreed(s, s', Frame(e) / BLOCK_SIZE, t.pmm.Limit());
      addr := t.pmm.Alloc();
      if Frame(e) == 0 {
        ZeroLost(s, s', t.pmm.Limit());
      }
    }
  }

  /** Freeing block 0 and allocating once leaves bit 0 set and the rest alone. */
  lemma ZeroLost(s: State, s': State, limit: nat)
    requires Released(s, s', 0) && IsSet(s.bm, 0) && 0 < limit <= 8 * |s.bm|
    ensures forall a :: 0 <= a < 8 * |s.bm| ==>
              (IsSet(AllocBits(s'.bm, limit), a) <==> IsSet(s.bm, a) || a in s'.tables.Values)
  {
    hide Rd;
    assert !IsSet(s'.bm, 0);
    assert FirstClear(s'.bm, 0, limit) == 0;
  }

  /** Mapping or unmapping a page through one page map leaves any other alone: another forest whose
      blocks are in use, and not among this one's, keeps its shape and all its translations. */
  lemma OtherMapsUntouched(s: State, s': State, path: set<Node>, freed: nat, other: map<Node, nat>)
    requires Extends(s, s', path) || Released(s, s', freed)
    requires Forest(s.mem, other) && Reserves(s.bm, other) && other.Values !! s.tables.Values
    ensures Forest(s'.mem, other)
    ensures forall va: nat :: Walk(s'.mem, other[ROOT], va) == Walk(s.mem, other[ROOT], va)
  {
    hide Forest, Walk, IsSet, Rd;
    forall n, i | n in other && 0 <= i < 512
      ensures Rd(s'.mem, other[n], i) == Rd(s.mem, other[n], i)
    {
      assert other[n] in other.Values;
    }
    ForestFrame(s.mem, s'.mem, other);
  }

  // ------------------------------------------------------------------
  // Allocate, map, unmap
  // ------------------------------------------------------------------

  lemma AllocKeeps(s: State, limit: nat)
    requires limit <= 8 * |s.bm| && Reserves(s.bm, s.tables) && AllocAddr(s.bm, limit) != NULL
    ensures var b := AllocAddr(s.bm, limit) / BLOCK_SIZE;
            && AllocAddr(s.bm, limit) == b * BLOCK_SIZE && 0 < b < limit && b !in s.tables.Values
            && !IsSet(s.bm, b) && AllocBits(s.bm, limit) == Marked(s.bm, b)
            && IsSet(AllocBits(s.bm, limit), b) && Reserves(AllocBits(s.bm, limit), s.tables)
  {
    FreshBlock(s.tables, s.bm, limit);
  }

  lemma NothingMissing(bm: seq<Byte>, limit: nat, missing: set<Node>)
    requires missing == {}
    ensures !Exhausts(bm, limit, missing)
  {
  }

  lemma SameTables(s: State, s': State, freed: nat)
    requires Released(s, s', freed) && s'.tables.Keys == s.tables.Keys
    ensures s'.tables == s.tables
  {
  }

  lemma PositiveBlocks(s: State)
    requires Forest(s.mem, s.tables)
    ensures forall n :: n in s.tables ==> 0 < s.tables[n]
  {
  }

  lemma MapFreeBit(s1: State, s2: State, s3: State, path: set<Node>, limit: nat, b: nat, a: nat)
    requires Extends(s1, s2, path) && Moved(s1, s2, limit) && Released(s2, s3, b) && s3.tables == s2.tables
    requires forall n :: n in s2.tables ==> 0 < s2.tables[n]
    requires a < 8 * |s1.bm|
    ensures IsSet(s3.bm, a) <==> a != b && (IsSet(s1.bm, a) || a in s3.tables.Values)
  {
    hide Rd, IsSet;
    GrownBit(s1, s2, path, limit, a);
    assert IsSet(s3.bm, a) <==> a != b && (IsSet(s2.bm, a) || a in s3.tables.Values);
  }

  /** Bits after mapping a page and freeing block `b`. */
  lemma MapFreeBits(s1: State, s2: State, s3: State, path: set<Node>, limit: nat, b: nat)
    requires Extends(s1, s2, path) && Moved(s1, s2, limit) && Released(s2, s3, b) && s3.tables == s2.tables
    requires Forest(s2.mem, s2.tables)
    ensures forall a :: 0 <= a < 8 * |s1.bm| ==>
              (IsSet(s3.bm, a) <==> a != b && (IsSet(s1.bm, a) || a in s3.tables.Values))
  {
    hide Extends, Moved, Released, IsSet, Forest;
    PositiveBlocks(s2);
    forall a | 0 <= a < 8 * |s1.bm|
      ensures IsSet(s3.bm, a) <==> a != b && (IsSet(s1.bm, a) || a in s3.tables.Values)
    {
      MapFreeBit(s1, s2, s3, path, limit, b, a);
    }
  }

  /** What is left for the tables once the frame is taken. */
  lemma ExhaustsAfterAlloc(bm: seq<Byte>, limit: nat, missing: set<Node>)
    requires limit <= 8 * |bm| && 0 !in FreeBlocks(bm, limit)
    ensures AllocAddr(bm, limit) == NULL ==> |FreeBlocks(bm, limit)| == 0
    ensures AllocAddr(bm, limit) != NULL ==>
              (Exhausts(AllocBits(bm, limit), limit, missing) <==> |missing| + 1 > |FreeBlocks(bm, limit)|)
  {
    hide AllocAddr, AllocBits;
    AllocTakesLeast(bm, limit);
  }

  lemma StillNoTable(s1: State, s2: State, path: set<Node>, b: nat)
    requires Extends(s1, s2, path) && IsSet(s1.bm, b) && b !in s1.tables.Values
    ensures b !in s2.tables.Values
  {
    NotNew(s1, s2, b);
  }

  /** Mapping an owned frame and unmapping it again. */
  method MapThenFree(t: PageTables, va: Word, frame: Word, flags: Word, ghost b: nat) returns (halted: bool)
    requires t.Valid() && frame == b * BLOCK_SIZE && 0 < b < t.pmm.Limit() && Frame(flags) == 0
    requires IsSet(t.pmm.bitmap[..], b) && b !in t.tables.Values
    modifies t`tables, t.phys, t.pmm.bitmap
    ensures t.Valid()
    ensures halted <==> Exhausts(old(t.pmm.bitmap[..]), t.pmm.Limit(), PathOf(va) - old(t.tables.Keys))
    ensures !halted ==> t.tables.Keys == old(t.tables.Keys) + PathOf(va)
    ensures !halted ==> forall q: nat :: t.LeafNow(q) == if q == PageNo(va) then 0 else old(t.LeafNow(q))
    ensures !halted ==> b !in t.tables.Values
    ensures !halted ==> forall a :: 0 <= a < 8 * t.pmm.bitmap.Length ==>
              (IsSet(t.pmm.bitmap[..], a) <==> a != b && (old(IsSet(t.pmm.bitmap[..], a)) || a in t.tables.Values))
  {
    hide t.Valid, t.Shape, Extends, Moved, Exhausts, Leaf, PathOf, PageNo, Decode;
    hide Released, Returned, Frame, IsSet, Forest, Reserves, Or;
    ghost var s1 := t.Now();
    t.Unpack();
    FrameBack(frame, flags);
    halted := t.MapPage(va, frame, flags);
    if !halted {
      ghost var s2 := t.Now();
      t.Unpack();
      StillNoTable(s1, s2, PathOf(va), b);
      assert PathOf(va) - s2.tables.Keys == {};
      NothingMissing(s2.bm, t.pmm.Limit(), PathOf(va) - s2.tables.Keys);
      halted := t.FreePage(va);
      assert s2.tables.Keys + PathOf(va) == s2.tables.Keys;
      SameTables(s2, t.Now(), b);
      MapFreeBits(s1, s2, t.Now(), PathOf(va), t.pmm.Limit(), b);
    }
  }

  /** Allocating a frame, mapping it at a page that had no entry, and unmapping the page: every
      translation is as before, the frame is free again, and the used blocks have grown by the
      tables made on the way and by nothing else. It fails exactly when the missing tables and the
      frame together need more blocks than are free. */
  method AllocMapFree(t: PageTables, va: Word, flags: Word) returns (ok: bool)
    requires t.Valid() && t.LeafNow(PageNo(va)) == 0 && Frame(flags) == 0
    requires 0 !in FreeBlocks(t.pmm.bitmap[..], t.pmm.Limit())
    modifies t`tables, t.phys, t.pmm.bitmap
    ensures t.Valid()
    ensures ok <==> old(|PathOf(va) - t.tables.Keys| + 1 <= |FreeBlocks(t.pmm.bitmap[..], t.pmm.Limit())|)
    ensures ok ==> t.tables.Keys == old(t.tables.Keys) + PathOf(va)
    ensures ok ==> forall q: nat :: t.LeafNow(q) == old(t.LeafNow(q))
    ensures ok ==> forall a :: 0 <= a < 8 * t.pmm.bitmap.Length ==>
              (IsSet(t.pmm.bitmap[..], a) <==> old(IsSet(t.pmm.bitmap[..], a)) || a in t.tables.Values)
  {
    hide t.Valid, t.Shape, Leaf, PathOf, PageNo, Frame, Forest, Reserves;
    hide IsSet, AllocAddr, AllocBits, Marked, FreeBlocks, Exhausts;
    ghost var s, limit := t.Now(), t.pmm.Limit();
    t.Unpack();
    ExhaustsAfterAlloc(s.bm, limit, PathOf(va) - s.tables.Keys);
    var frame := t.pmm.Alloc();
    if frame == NULL {
      NullGrows(s, limit, {});
      t.Repack();
      return false;
    }
    AllocKeeps(s, limit);
    t.Repack();
    ghost var b := frame / BLOCK_SIZE;
    ghost var s1 := t.Now();
    var halted := MapThenFree(t, va, frame, flags, b);
    ok := !halted;
    if ok {
      forall a | 0 <= a < 8 * t.pmm.bitmap.Length
        ensures IsSet(t.pmm.bitmap[..], a) <==> IsSet(s.bm, a) || a in t.tables.Values
      {
        assert IsSet(s1.bm, a) <==> a == b || IsSet(s.bm, a);
      }
    }
  }

  lemma FrameBack(frame: Word, flags: Word)
    requires frame % PAGE_SIZE == 0 && frame < 0x10_0000_0000_0000 && Frame(flags) == 0
    ensures Frame(Or(frame, flags)) == frame
  {
    FrameIs(flags);
    EntryFields(frame, flags);
  }
}
