/** The page-table manager (kern/mm/vmm.c) over the block allocator.

    Physical memory is an array of 64-bit words changed in place. Tables are reached through
    higher-half pointers, as in the kernel. A ghost map says which block holds which table.
  */
module Vmm {
  import opened Bits
  import opened Pmm
  import opened Paging

  /** Memory, table map and allocator bitmap at one moment. */
  datatype State = State(mem: seq<Word>, tables: map<Node, nat>, bm: seq<Byte>)

  /** Every table's block is marked used. */
  ghost predicate Reserves(bm: seq<Byte>, tables: map<Node, nat>) {
    forall n :: n in tables ==> IsSet(bm, tables[n])
  }

  /** How tables and bitmap may change when the path to a page is built: only missing tables on
      the path appear, each in a block that was free and is now marked used, and no word of a
      block that was in use by anyone else is touched. Bit 0 may get set on its own, because block 0
      cannot hold a table. */
  ghost predicate Extends(s: State, s': State, path: set<Node>) {
    && |s'.mem| == |s.mem| && |s'.bm| == |s.bm|
    && s.tables.Keys <= s'.tables.Keys <= s.tables.Keys + path
    && (forall n :: n in s.tables ==> s'.tables[n] == s.tables[n])
    && (forall n :: n in s'.tables && n !in s.tables ==> !IsSet(s.bm, s'.tables[n]))
    && (forall b :: 0 < b < 8 * |s.bm| ==> (IsSet(s'.bm, b) <==> IsSet(s.bm, b) || b in s'.tables.Values))
    && (IsSet(s.bm, 0) ==> IsSet(s'.bm, 0))
    && (forall b: nat, i: nat {:trigger Rd(s'.mem, b, i)} ::
          i < 512 && IsSet(s.bm, b) && b !in s.tables.Values ==> Rd(s'.mem, b, i) == Rd(s.mem, b, i))
  }

  /** Block `b`, in use and not a table, is left alone: still in use, still no table, every word the same. */
  ghost predicate Spared(s: State, s': State, b: nat) {
    IsSet(s.bm, b) && b !in s.tables.Values ==>
      && IsSet(s'.bm, b) && b !in s'.tables.Values
      && forall i: nat :: i < 512 ==> Rd(s'.mem, b, i) == Rd(s.mem, b, i)
  }

  ghost predicate SameLeaves(s: State, s': State) {
    forall q: nat :: Leaf(s'.mem, s'.tables, q) == Leaf(s.mem, s.tables, q)
  }

  ghost predicate Grows(s: State, s': State, path: set<Node>) {
    Extends(s, s', path) && SameLeaves(s, s')
  }

  /** Free blocks and tables trade places one for one, and bit 0 stays as it was. */
  ghost predicate Moved(s: State, s': State, limit: nat) {
    && IsSet(s'.bm, 0) == IsSet(s.bm, 0)
    && |FreeBlocks(s'.bm, limit)| + |s'.tables| == |FreeBlocks(s.bm, limit)| + |s.tables|
  }

  /** Building the missing tables runs out of blocks. When block 0 is free the first allocation
      returns it, which reads as NULL, so then any missing table is one too many. */
  ghost predicate Exhausts(bm: seq<Byte>, limit: nat, missing: set<Node>) {
    if 0 in FreeBlocks(bm, limit) then missing != {} else |missing| > |FreeBlocks(bm, limit)|
  }

  /** Part `done` of `path` exists and everything so far went well. */
  ghost predicate Progress(s: State, s': State, path: set<Node>, done: set<Node>, limit: nat) {
    && Grows(s, s', path)
    && Moved(s, s', limit)
    && done <= path && s'.tables.Keys == s.tables.Keys + done
    && (Exhausts(s.bm, limit, path - s.tables.Keys) <==> Exhausts(s'.bm, limit, path - done - s'.tables.Keys))
  }

  /** Tables grown, one block freed: what became of every bit, every table and everyone else's memory. */
  ghost predicate Released(s: State, s': State, freed: nat) {
    && |s'.mem| == |s.mem| && |s'.bm| == |s.bm|
    && (forall n :: n in s.tables ==> n in s'.tables && s'.tables[n] == s.tables[n])
    && (forall n :: n in s'.tables && n !in s.tables ==> !IsSet(s.bm, s'.tables[n]))
    && (forall b :: 0 <= b < 8 * |s.bm| ==>
          (IsSet(s'.bm, b) <==> b != freed && (IsSet(s.bm, b) || b in s'.tables.Values)))
    && (forall b: nat, i: nat {:trigger Rd(s'.mem, b, i)} ::
          i < 512 && IsSet(s.bm, b) && b !in s.tables.Values ==> Rd(s'.mem, b, i) == Rd(s.mem, b, i))
  }

  /** A block in use by someone other than the tables came back. */
  ghost predicate Returned(s: State, s': State, freed: nat, limit: nat) {
    |FreeBlocks(s'.bm, limit)| + |s'.tables| == |FreeBlocks(s.bm, limit)| + |s.tables| + 1
  }

  // ------------------------------------------------------------------
  // Growth as a relation on states
  // ------------------------------------------------------------------

  lemma NoGrowth(s: State, path: set<Node>, limit: nat)
    requires Reserves(s.bm, s.tables)
    ensures Grows(s, s, path) && Moved(s, s, limit) && Progress(s, s, path, {}, limit)
  {
    assert path - {} - s.tables.Keys == path - s.tables.Keys;
    assert s.tables.Keys + {} == s.tables.Keys;
  }

  lemma SomeTables(s: State)
    requires Forest(s.mem, s.tables) && Reserves(s.bm, s.tables)
    ensures forall n :: n in s.tables ==> 0 < s.tables[n] < 8 * |s.bm|
  {
  }

  /** Growing the tree spares everyone else's blocks. */
  lemma ExtendSpares(s: State, s1: State, s2: State, path: set<Node>, b: nat)
    requires Spared(s, s1, b) && Extends(s1, s2, path)
    ensures Spared(s, s2, b)
  {
    if IsSet(s.bm, b) && b !in s.tables.Values {
      forall n | n in s2.tables
        ensures s2.tables[n] != b
      {
        assert n in s1.tables ==> s1.tables[n] in s1.tables.Values;
      }
      assert b < 8 * |s1.bm|;
      assert forall i: nat :: i < 512 ==> Rd(s2.mem, b, i) == Rd(s1.mem, b, i);
    }
  }

  lemma GrowsTwice(s: State, s1: State, s2: State, path: set<Node>)
    requires Grows(s, s1, path) && Grows(s1, s2, path)
    requires Forest(s2.mem, s2.tables) && Reserves(s2.bm, s2.tables)
    requires IsSet(s1.bm, 0) == IsSet(s.bm, 0)
    ensures Grows(s, s2, path)
  {
    hide Leaf, Rd, Forest;
    SomeTables(s2);
    forall n | n in s2.tables && n !in s.tables
      ensures !IsSet(s.bm, s2.tables[n])
    {
    }
    forall b: nat, i: nat {:trigger Rd(s2.mem, b, i)} | i < 512 && IsSet(s.bm, b) && b !in s.tables.Values
      ensures Rd(s2.mem, b, i) == Rd(s.mem, b, i)
    {
      assert b !in s1.tables.Values by {
        forall n | n in s1.tables
          ensures s1.tables[n] != b
        {
          assert n in s.tables ==> s.tables[n] in s.tables.Values;
        }
      }
      assert Rd(s1.mem, b, i) == Rd(s.mem, b, i);
    }
  }

  lemma AddKey(tables: map<Node, nat>, tables': map<Node, nat>, c: Node)
    requires tables'.Keys == tables.Keys + {c}
    ensures |tables'| == |tables| + if c in tables then 0 else 1
  {
    assert |tables| == |tables.Keys| && |tables'| == |tables'.Keys|;
    if c in tables {
      assert tables'.Keys == tables.Keys;
    } else {
      assert |tables'.Keys| == |tables.Keys| + 1;
    }
  }

  lemma MissingStep(keys: set<Node>, keys': set<Node>, path: set<Node>, done: set<Node>, c: Node)
    requires c in path && c !in done && keys' == keys + {c}
    ensures c in keys ==> path - (done + {c}) - keys' == path - done - keys
    ensures c !in keys ==> |path - done - keys| == |path - (done + {c}) - keys'| + 1
  {
    var rest := path - (done + {c}) - keys';
    if c in keys {
      assert path - done - keys == rest;
    } else {
      assert path - done - keys == rest + {c};
    }
  }

  /** Taking one block for one missing table does not change whether the rest runs out. */
  lemma ExhaustsStep(s: State, s': State, limit: nat, missing: set<Node>, missing': set<Node>, found: bool)
    requires Moved(s, s', limit) && limit <= 8 * |s.bm|
    requires found ==> missing == missing' && |s'.tables| == |s.tables|
    requires !found ==> |missing| == |missing'| + 1 && |s'.tables| == |s.tables| + 1
                        && AllocAddr(s.bm, limit) != NULL
    ensures Exhausts(s.bm, limit, missing) <==> Exhausts(s'.bm, limit, missing')
  {
    hide AllocAddr, AllocBits;
    AllocTakesLeast(s.bm, limit);
    assert 0 in FreeBlocks(s.bm, limit) <==> 0 in FreeBlocks(s'.bm, limit);
  }

  /** One more table found or made; what is left to build runs out exactly if the whole did. */
  lemma ProgressStep(s: State, s1: State, s2: State, path: set<Node>, done: set<Node>, c: Node, limit: nat)
    requires Progress(s, s1, path, done, limit) && limit <= 8 * |s1.bm|
    requires c in path && c !in done
    requires Grows(s1, s2, path) && Moved(s1, s2, limit) && s2.tables.Keys == s1.tables.Keys + {c}
    requires c !in s1.tables ==> AllocAddr(s1.bm, limit) != NULL
    requires Forest(s2.mem, s2.tables) && Reserves(s2.bm, s2.tables)
    ensures Progress(s, s2, path, done + {c}, limit)
  {
    hide Grows, AllocAddr, Forest, Reserves, Exhausts, FreeBlocks, IsSet;
    GrowsTwice(s, s1, s2, path);
    AddKey(s1.tables, s2.tables, c);
    MissingStep(s1.tables.Keys, s2.tables.Keys, path, done, c);
    ExhaustsStep(s1, s2, limit, path - done - s1.tables.Keys, path - (done + {c}) - s2.tables.Keys, c in s1.tables);
    assert s2.tables.Keys == s.tables.Keys + (done + {c});
  }

  /** The allocator answered NULL for a table still missing. */
  lemma ProgressEnds(s: State, s1: State, path: set<Node>, done: set<Node>, c: Node, limit: nat)
    requires Progress(s, s1, path, done, limit) && limit <= 8 * |s1.bm|
    requires c in path && c !in done && c !in s1.tables && AllocAddr(s1.bm, limit) == NULL
    ensures Exhausts(s.bm, limit, path - s.tables.Keys)
  {
    hide Grows;
    AllocTakesLeast(s1.bm, limit);
    assert c in path - done - s1.tables.Keys;
  }

  lemma ProgressDone(s: State, s': State, path: set<Node>, limit: nat)
    requires Progress(s, s', path, path, limit)
    ensures !Exhausts(s.bm, limit, path - s.tables.Keys)
    ensures Grows(s, s', path) && Moved(s, s', limit) && s'.tables.Keys == s.tables.Keys + path
  {
    hide Grows;
    assert path - path - s'.tables.Keys == {};
  }

  // ------------------------------------------------------------------
  // One table
  // ------------------------------------------------------------------

  /** What the kernel reads in a slot of a non-leaf table. */
  lemma ReadSlot(mem: seq<Word>, tables: map<Node, nat>, n: Node, i: nat)
    requires Forest(mem, tables) && n in tables && n.level >= 2 && i < 512
    ensures 512 * tables[n] + i < |mem|
    ensures var e, c := mem[512 * tables[n] + i], Child(n, i);
            && (Present(e) <==> c in tables)
            && (c in tables ==> Frame(e) == tables[c] * PAGE_SIZE)
  {
    var e, c := mem[512 * tables[n] + i], Child(n, i);
    assert e == Rd(mem, tables[n], i) == if c in tables then Link(tables[c]) else 0;
    if c in tables {
      LinkFacts(tables[c]);
    } else {
      assert And(0, PTE_PRESENT) == 0;
    }
  }

  /** A NULL answer leaves the tables alone; at most bit 0 changed. */
  lemma NullGrows(s: State, limit: nat, path: set<Node>)
    requires Reserves(s.bm, s.tables) && limit <= 8 * |s.bm| && AllocAddr(s.bm, limit) == NULL
    ensures Grows(s, s.(bm := AllocBits(s.bm, limit)), path)
    ensures Reserves(AllocBits(s.bm, limit), s.tables)
  {
    AllocTakesLeast(s.bm, limit);
  }

  lemma NullSpares(s: State, limit: nat)
    requires Reserves(s.bm, s.tables) && limit <= 8 * |s.bm| && AllocAddr(s.bm, limit) == NULL
    ensures forall b: nat :: Spared(s, s.(bm := AllocBits(s.bm, limit)), b)
  {
    hide AllocAddr, AllocBits, Rd;
    NullGrows(s, limit, {});
    forall b: nat
      ensures Spared(s, s.(bm := AllocBits(s.bm, limit)), b)
    {
      ExtendSpares(s, s, s.(bm := AllocBits(s.bm, limit)), {}, b);
    }
  }

  /** A block the allocator hands out holds no table. */
  lemma FreshBlock(tables: map<Node, nat>, bm: seq<Byte>, limit: nat)
    requires Reserves(bm, tables) && limit <= 8 * |bm| && AllocAddr(bm, limit) != NULL
    ensures var b := AllocAddr(bm, limit) / BLOCK_SIZE;
            && AllocAddr(bm, limit) == b * BLOCK_SIZE && 0 < b < limit && b !in tables.Values
            && !IsSet(bm, b) && AllocBits(bm, limit) == Marked(bm, b)
  {
  }

  /** In `s'`, block `b`, just allocated, is recorded as the table in slot `i` of `n`. */
  ghost predicate NewlyLinked(s: State, s': State, limit: nat, n: Node, i: nat, b: nat)
    requires n.level > 0
  {
    && Reserves(s.bm, s.tables)
    && limit <= 8 * |s.bm| && limit <= INT_LIMIT
    && AllocAddr(s.bm, limit) == b * BLOCK_SIZE != NULL
    && s'.bm == AllocBits(s.bm, limit)
    && Child(n, i) !in s.tables
    && s'.tables == s.tables[Child(n, i) := b]
  }

  lemma LinkedMoved(s: State, s': State, limit: nat, n: Node, i: nat, b: nat)
    requires n.level > 0 && NewlyLinked(s, s', limit, n, i, b)
    ensures Moved(s, s', limit)
  {
    AllocTakesLeast(s.bm, limit);
    FreshBlock(s.tables, s.bm, limit);
    assert s'.tables.Keys == s.tables.Keys + {Child(n, i)};
    assert |s'.tables.Keys| == |s.tables.Keys| + 1;
  }

  lemma LinkedBits(s: State, s': State, limit: nat, n: Node, i: nat, b: nat)
    requires n.level > 0 && NewlyLinked(s, s', limit, n, i, b)
    ensures |s'.bm| == |s.bm| && Reserves(s'.bm, s'.tables)
    ensures forall a :: 0 < a < 8 * |s.bm| ==> (IsSet(s'.bm, a) <==> IsSet(s.bm, a) || a in s'.tables.Values)
  {
    FreshBlock(s.tables, s.bm, limit);
    forall a | 0 < a < 8 * |s.bm|
      ensures IsSet(s'.bm, a) <==> IsSet(s.bm, a) || a in s'.tables.Values
    {
      if a in s'.tables.Values {
        var m :| m in s'.tables && s'.tables[m] == a;
      }
      assert s'.tables[Child(n, i)] == b;
    }
  }

  /** Linking a table in the block just allocated is one step of growth. */
  lemma LinkGrows(s: State, s': State, limit: nat, n: Node, i: nat, b: nat, path: set<Node>)
    requires Forest(s.mem, s.tables) && 512 * limit <= |s.mem|
    requires n in s.tables && n.level >= 2 && i < 512 && Child(n, i) in path
    requires NewlyLinked(s, s', limit, n, i, b)
    requires Linked(s.mem, s'.mem, b, s.tables[n], i, Link(b))
    ensures Forest(s'.mem, s'.tables) && Grows(s, s', path)
  {
    hide AllocAddr, AllocBits, Link, IsSet;
    FreshBlock(s.tables, s.bm, limit);
    LinkedBits(s, s', limit, n, i, b);
    AddTable(s.mem, s'.mem, s.tables, n, i, b);
    LinkedReads(s.mem, s'.mem, b, s.tables[n], i, Link(b));
    assert s'.tables.Keys == s.tables.Keys + {Child(n, i)};
    forall a: nat, j: nat {:trigger Rd(s'.mem, a, j)} | j < 512 && IsSet(s.bm, a) && a !in s.tables.Values
      ensures Rd(s'.mem, a, j) == Rd(s.mem, a, j)
    {
      assert a != b && a != s.tables[n];
    }
  }

  lemma PathShape(va: nat)
    ensures var n3, n2, n1 := NodeAt(va, 3), NodeAt(va, 2), NodeAt(va, 1);
            && PathOf(va) == {n3, n2, n1} && PathOf(va) == {} + {n3} + {n2} + {n1}
            && n3.level == 3 && n2.level == 2 && n1.level == 1
            && Child(ROOT, Index(va, 4)) == n3 && Child(n3, Index(va, 3)) == n2 && Child(n2, Index(va, 2)) == n1
            && n1 == Node(1, PageNo(va) / 512) && Index(va, 1) == PageNo(va) % 512
  {
    ChildOnPath(va, 4);
    ChildOnPath(va, 3);
    ChildOnPath(va, 2);
    ChildOnPath(va, 1);
  }

  /** The kernel's shift-and-mask indices are the processor's. */
  lemma ShiftedIndices(va: Word)
    ensures And(Shr(va, 39), 0x1ff) == Index(va, 4)
    ensures And(Shr(va, 30), 0x1ff) == Index(va, 3)
    ensures And(Shr(va, 21), 0x1ff) == Index(va, 2)
    ensures And(Shr(va, 12), 0x1ff) == Index(va, 1)
  {
    Powers();
    AndLowMask(Shr(va, 39), 9);
    AndLowMask(Shr(va, 30), 9);
    AndLowMask(Shr(va, 21), 9);
    AndLowMask(Shr(va, 12), 9);
    ShrIsDiv(va, 39);
    ShrIsDiv(va, 30);
    ShrIsDiv(va, 21);
    ShrIsDiv(va, 12);
  }

  // ------------------------------------------------------------------
  // The manager
  // ------------------------------------------------------------------

  class PageTables {
    const pmm: BlockAllocator
    /** Physical memory, one element per 64-bit word. */
    const phys: array<Word>
    const hhdmOffset: nat
    /** Higher-half pointer to the PML4. */
    var pml4addr: nat
    ghost var tables: map<Node, nat>

    constructor (pmm: BlockAllocator, phys: array<Word>, hhdmOffset: nat)
      ensures this.pmm == pmm && this.phys == phys && this.hhdmOffset == hhdmOffset
      ensures tables == map[] && pml4addr == 0
    {
      this.pmm, this.phys, this.hhdmOffset := pmm, phys, hhdmOffset;
      pml4addr, tables := 0, map[];
    }

    ghost function Now(): State
      reads this, phys, pmm.bitmap
    {
      State(phys[..], tables, pmm.bitmap[..])
    }

    /** The machine the tables live in. */
    ghost predicate Machine()
      reads this, phys, pmm
    {
      && pmm.Valid()
      && phys as object != pmm.bitmap
      && 512 * pmm.Limit() <= phys.Length
      && hhdmOffset + 8 * phys.Length <= U64
    }

    /** Everything but the marking of table blocks in the bitmap. */
    ghost predicate Shape()
      reads this, phys, pmm
    {
      && Machine()
      && Forest(phys[..], tables)
      && (forall n :: n in tables ==> tables[n] < pmm.Limit())
      && pml4addr == Pointer(tables[ROOT])
    }

    ghost predicate Valid()
      reads this, phys, pmm, pmm.bitmap
    {
      Shape() && Reserves(pmm.bitmap[..], tables)
    }

    lemma Unpack()
      requires Valid()
      ensures Shape() && Machine() && Forest(phys[..], tables) && Reserves(pmm.bitmap[..], tables)
      ensures ROOT in tables && pml4addr == Pointer(tables[ROOT])
      ensures pmm.Limit() <= 8 * pmm.bitmap.Length
      ensures forall n :: n in tables ==> tables[n] < pmm.Limit()
    {
    }

    lemma Repack()
      requires Shape()
      ensures Valid() <==> Reserves(pmm.bitmap[..], tables)
    {
    }

    /** The last-level entry for page `q`. */
    ghost function LeafNow(q: nat): nat
      reads this, phys
    {
      Leaf(phys[..], tables, q)
    }

    /** The translation of `va` by the processor, once CR3 holds the PML4. */
    ghost function Translate(va: nat): Translation
      requires ROOT in tables
      reads this, phys
    {
      Walk(phys[..], tables[ROOT], va)
    }

    lemma WalksAreLeaves()
      requires Forest(phys[..], tables)
      ensures forall va: nat :: Translate(va) == Decode(LeafNow(PageNo(va)))
    {
      forall va: nat
        ensures Translate(va) == Decode(LeafNow(PageNo(va)))
      {
        WalkReadsLeaf(phys[..], tables, va);
      }
    }

    /** The higher-half address of a block. */
    function Pointer(b: nat): nat {
      b * BLOCK_SIZE + hhdmOffset
    }

    /** `table[i]` through a higher-half pointer, as a position in `phys`. */
    function Slot(pointer: nat, i: nat): int {
      (pointer - hhdmOffset) / 8 + i
    }

    /** `memset(pointer, 0, 4096)` on a block. */
    method ZeroBlock(pointer: nat, ghost b: nat)
      requires pointer == Pointer(b) && 512 * b + 512 <= phys.Length
      modifies phys
      ensures forall k :: 0 <= k < phys.Length ==>
                phys[k] == if 512 * b <= k < 512 * b + 512 then 0 else old(phys[k])
    {
      for i := 0 to 512
        invariant forall k :: 0 <= k < phys.Length ==>
                    phys[k] == if 512 * b <= k < 512 * b + i then 0 else old(phys[k])
      {
        phys[Slot(pointer, i)] := 0;
      }
    }

    /** Zeroes a block and enters it in slot `indx` of the table in block `t`. */
    method LinkBlock(table: nat, indx: nat, newPage: nat, ghost t: nat, ghost b: nat)
      requires table == Pointer(t) && 512 * t + 512 <= phys.Length && indx < 512
      requires newPage == b * BLOCK_SIZE && 512 * b + 512 <= phys.Length && b != t && b < INT_LIMIT
      modifies phys
      ensures Linked(old(phys[..]), phys[..], b, t, indx, Link(b))
    {
      ZeroBlock(newPage + hhdmOffset, b);
      LinkFacts(b);
      phys[Slot(table, indx)] := Or(Or(Or(newPage, PTE_PRESENT), PTE_READ_WRITE), PTE_ACCESS_ALL);
    }

    /** The second half of `get_lower_table`, after the allocator answered `newPage`. */
    method EnterTable(table: nat, indx: nat, newPage: nat, ghost n: Node, ghost bm: seq<Byte>, ghost path: set<Node>)
      requires Shape() && Reserves(bm, tables) && |bm| == pmm.bitmap.Length
      requires pmm.bitmap[..] == AllocBits(bm, pmm.Limit())
      requires newPage == AllocAddr(bm, pmm.Limit()) != NULL
      requires n in tables && n.level >= 2 && indx < 512 && table == Pointer(tables[n])
      requires Child(n, indx) in path && Child(n, indx) !in tables
      modifies this`tables, phys
      ensures Valid()
      ensures tables == old(tables)[Child(n, indx) := newPage / BLOCK_SIZE]
      ensures Grows(State(old(phys[..]), old(tables), bm), Now(), path)
      ensures Moved(State(old(phys[..]), old(tables), bm), Now(), pmm.Limit())
    {
      hide Forest, Grows, Moved, Linked, Reserves, AllocAddr, AllocBits, IsSet, FreeBlocks, Link;
      ghost var s, b := State(phys[..], tables, bm), newPage / BLOCK_SIZE;
      FreshBlock(tables, bm, pmm.Limit());
      TableAt(phys[..], tables, n);
      LinkBlock(table, indx, newPage, tables[n], b);
      tables := tables[Child(n, indx) := b];
      LinkedBits(s, Now(), pmm.Limit(), n, indx, b);
      LinkedMoved(s, Now(), pmm.Limit(), n, indx, b);
      LinkGrows(s, Now(), pmm.Limit(), n, indx, b, path);
    }

    method NewTable(table: nat, indx: nat, ghost n: Node, ghost path: set<Node>)
      returns (halted: bool, lower: nat)
      requires Valid() && n in tables && n.level >= 2 && indx < 512 && table == Pointer(tables[n])
      requires Child(n, indx) in path && Child(n, indx) !in tables
      modifies this`tables, phys, pmm.bitmap
      ensures Valid() && Grows(old(Now()), Now(), path)
      ensures halted <==> AllocAddr(old(pmm.bitmap[..]), pmm.Limit()) == NULL
      ensures tables.Keys == if halted then old(tables.Keys) else old(tables.Keys) + {Child(n, indx)}
      ensures !halted ==> lower == Pointer(tables[Child(n, indx)])
      ensures !halted ==> Moved(old(Now()), Now(), pmm.Limit())
    {
      hide Forest, Grows, Moved, Reserves, AllocAddr, AllocBits, IsSet, FreeBlocks;
      ghost var s := Now();
      var newPage := pmm.Alloc();
      if newPage == NULL {
        NullGrows(s, pmm.Limit(), path);
        return true, 0;
      }
      EnterTable(table, indx, newPage, n, s.bm, path);
      assert newPage / BLOCK_SIZE * BLOCK_SIZE == newPage;
      return false, newPage + hhdmOffset;
    }

    method ReadEntry(table: nat, indx: nat, ghost b: nat) returns (entry: Word)
      requires table == Pointer(b) && 512 * b + 512 <= phys.Length && indx < 512
      ensures entry == phys[..][512 * b + indx]
    {
      entry := phys[Slot(table, indx)];
    }

    /** Follows slot `indx` of a table, creating the table below when it is missing. It halts
        exactly when a table is needed and the allocator answers NULL. */
    method GetLowerTable(table: nat, indx: nat, ghost n: Node, ghost path: set<Node>)
      returns (halted: bool, lower: nat)
      requires Valid() && n in tables && n.level >= 2 && indx < 512 && table == Pointer(tables[n])
      requires Child(n, indx) in path
      modifies this`tables, phys, pmm.bitmap
      ensures Valid() && Grows(old(Now()), Now(), path)
      ensures halted <==> Child(n, indx) !in old(tables)
                          && AllocAddr(old(pmm.bitmap[..]), pmm.Limit()) == NULL
      ensures tables.Keys == if halted then old(tables.Keys) else old(tables.Keys) + {Child(n, indx)}
      ensures !halted ==> lower == Pointer(tables[Child(n, indx)])
      ensures !halted ==> Moved(old(Now()), Now(), pmm.Limit())
    {
      hide Forest, Grows, Moved, Progress, Reserves, AllocAddr, IsSet, FreeBlocks, And, Child, Shape;
      Unpack();
      TableAt(phys[..], tables, n);
      var entry := ReadEntry(table, indx, tables[n]);
      ReadSlot(phys[..], tables, n, indx);
      if And(entry, PTE_PRESENT) != 0 {
        NoGrowth(Now(), path, pmm.Limit());
        AddMember(tables.Keys, Child(n, indx));
        return false, And(entry, ADDRESS_MASK) + hhdmOffset;
      }
      halted, lower := NewTable(table, indx, n, path);
    }

    /** One step down the path to a page, with the account of the steps before it. */
    method Descend(table: nat, indx: nat, ghost n: Node, ghost c: Node, ghost s: State,
                   ghost path: set<Node>, ghost done: set<Node>)
      returns (halted: bool, lower: nat)
      requires Valid() && n in tables && n.level >= 2 && indx < 512 && table == Pointer(tables[n])
      requires Progress(s, Now(), path, done, pmm.Limit())
      requires c == Child(n, indx) && c in path && c !in done
      modifies this`tables, phys, pmm.bitmap
      ensures Valid() && Grows(s, Now(), path)
      ensures halted ==> Exhausts(s.bm, pmm.Limit(), path - s.tables.Keys)
      ensures !halted ==> Progress(s, Now(), path, done + {c}, pmm.Limit())
      ensures !halted ==> c in tables && lower == Pointer(tables[c])
    {
      hide Forest, Grows, Moved, Reserves, Exhausts, AllocAddr, IsSet, FreeBlocks, Shape;
      ghost var s1 := Now();
      Unpack();
      halted, lower := GetLowerTable(table, indx, n, path);
      Unpack();
      if halted {
        ProgressEnds(s, s1, path, done, c, pmm.Limit());
        BitZero(s, s1, pmm.Limit());
        GrowsTwice(s, s1, Now(), path);
      } else {
        ProgressStep(s, s1, Now(), path, done, c, pmm.Limit());
      }
    }

    /** `get_pt`: finds or builds the three tables above the page of `va`. It halts exactly when
        the blocks run out. */
    method GetPt(va: Word) returns (halted: bool, pt: nat)
      requires Valid()
      modifies this`tables, phys, pmm.bitmap
      ensures Valid() && Grows(old(Now()), Now(), PathOf(va))
      ensures halted <==> Exhausts(old(pmm.bitmap[..]), pmm.Limit(), PathOf(va) - old(tables.Keys))
      ensures !halted ==> tables.Keys == old(tables.Keys) + PathOf(va) && Moved(old(Now()), Now(), pmm.Limit())
      ensures !halted ==> NodeAt(va, 1) in tables && pt == Pointer(tables[NodeAt(va, 1)])
      ensures forall q: nat :: LeafNow(q) == old(LeafNow(q))
      ensures forall wa: nat :: Translate(wa) == old(Translate(wa))
    {
      hide Decode, Leaf, PageNo;
      hide Valid, Shape, Progress, Grows, Moved, Exhausts, Forest, Reserves;
      hide And, Shr, Index, NodeAt, PathOf, Child;
      var pmdIndex := And(Shr(va, 21), 0x1ff);
      var pudIndex := And(Shr(va, 30), 0x1ff);
      var pgdIndex := And(Shr(va, 39), 0x1ff);
      ShiftedIndices(va);
      PathShape(va);
      ghost var s, path := Now(), PathOf(va);
      ghost var n3, n2, n1 := NodeAt(va, 3), NodeAt(va, 2), NodeAt(va, 1);
      Unpack();
      WalksAreLeaves();
      NoGrowth(s, path, pmm.Limit());
      var pgd, pud;
      halted, pgd := Descend(pml4addr, pgdIndex, ROOT, n3, s, path, {});
      if !halted {
        halted, pud := Descend(pgd, pudIndex, n3, n2, s, path, {} + {n3});
      }
      if !halted {
        halted, pt := Descend(pud, pmdIndex, n2, n1, s, path, {} + {n3} + {n2});
      }
      Unpack();
      GrowsParts(s, Now(), path);
      WalksAreLeaves();
      if halted {
        return true, 0;
      }
      ProgressDone(s, Now(), path, pmm.Limit());
    }

    /** Stores the last-level entry of page `q`, through a pointer to its table. */
    method StoreLeaf(pt: nat, indx: nat, w: Word, ghost q: nat)
      requires Shape() && Node(1, q / 512) in tables && pt == Pointer(tables[Node(1, q / 512)]) && indx == q % 512
      modifies phys
      ensures Shape()
      ensures forall r: nat :: LeafNow(r) == if r == q then w else old(LeafNow(r))
      ensures forall va: nat :: Translate(va) == if PageNo(va) == q then Decode(w) else old(Translate(va))
      ensures forall b: nat, i: nat :: i < 512 && b != tables[Node(1, q / 512)] ==>
                Rd(phys[..], b, i) == Rd(old(phys[..]), b, i)
    {
      hide Forest, Leaf, Rd, Decode, PageNo;
      ghost var mem, n := phys[..], Node(1, q / 512);
      WalksAreLeaves();
      TableAt(mem, tables, n);
      phys[Slot(pt, indx)] := w;
      assert phys[..] == mem[512 * tables[n] + q % 512 := w];
      SetLeaf(mem, tables, q, w);
      WalksAreLeaves();
    }

    /** Maps the page of `va` to `pa` with `flags`. The last-level entry becomes exactly their
        bitwise or; no other page's entry changes, however many tables had to be made; and nothing
        outside the tables and formerly free blocks is written. Without enough free blocks for the
        missing tables it halts, with all translations as before. */
    method MapPage(va: Word, pa: Word, flags: Word) returns (halted: bool)
      requires Valid()
      modifies this`tables, phys, pmm.bitmap
      ensures Valid() && Extends(old(Now()), Now(), PathOf(va))
      ensures halted <==> Exhausts(old(pmm.bitmap[..]), pmm.Limit(), PathOf(va) - old(tables.Keys))
      ensures !halted ==> tables.Keys == old(tables.Keys) + PathOf(va) && Moved(old(Now()), Now(), pmm.Limit())
      ensures forall q: nat :: LeafNow(q) == if !halted && q == PageNo(va) then Or(pa, flags) else old(LeafNow(q))
      ensures forall wa: nat :: Translate(wa) == if !halted && PageNo(wa) == PageNo(va) then Decode(Or(pa, flags))
                                                 else old(Translate(wa))
    {
      hide Valid, Shape, Grows, Extends, Moved, Exhausts, Forest, Reserves;
      hide And, Shr, Or, Index, Leaf, NodeAt, PathOf, Child, PageNo, Rd, Decode;
      var ptIndex := And(Shr(va, 12), 0x1ff);
      ShiftedIndices(va);
      PathShape(va);
      var pt;
      halted, pt := GetPt(va);
      GrowsParts(old(Now()), Now(), PathOf(va));
      if halted {
        return;
      }
      ghost var s := Now();
      Unpack();
      OrOfWords(pa, flags);
      StoreLeaf(pt, ptIndex, Or(pa, flags), PageNo(va));
      LeafExtends(old(Now()), s, Now(), PathOf(va), NodeAt(va, 1));
      SameMoved(old(Now()), s, Now(), pmm.Limit());
      Repack();
    }

    /** Unmaps the page of `va` and gives its frame back to the allocator. The tables keep their
        shape; every table's block stays marked used exactly when the frame freed was not itself
        a table. When the page was not mapped the entry reads 0, and block 0 is "freed". */
    method FreePage(va: Word) returns (halted: bool)
      requires Valid()
      requires Frame(LeafNow(PageNo(va))) / BLOCK_SIZE < 8 * pmm.bitmap.Length
      modifies this`tables, phys, pmm.bitmap
      ensures Shape()
      ensures halted <==> Exhausts(old(pmm.bitmap[..]), pmm.Limit(), PathOf(va) - old(tables.Keys))
      ensures halted ==> Valid() && Extends(old(Now()), Now(), PathOf(va))
      ensures !halted ==> tables.Keys == old(tables.Keys) + PathOf(va)
      ensures !halted ==>
                var freed := old(Frame(LeafNow(PageNo(va)))) / BLOCK_SIZE;
                && Released(old(Now()), Now(), freed)
                && (Valid() <==> freed !in tables.Values)
                && (0 < freed < pmm.Limit() && old(IsSet(pmm.bitmap[..], freed)) ==>
                      Returned(old(Now()), Now(), freed, pmm.Limit()))
      ensures forall q: nat :: LeafNow(q) == if !halted && q == PageNo(va) then 0 else old(LeafNow(q))
      ensures forall wa: nat :: Translate(wa) == if !halted && PageNo(wa) == PageNo(va) then Fault
                                                 else old(Translate(wa))
    {
      hide Valid, Shape, Grows, Extends, Moved, Exhausts, Forest, Reserves;
      hide And, Shr, Index, Leaf, NodeAt, PathOf, Child, PageNo, Rd, Decode, IsSet, Released, Returned, Unmarked;
      var ptIndex := And(Shr(va, 12), 0x1ff);
      ShiftedIndices(va);
      PathShape(va);
      DecodeZero();
      var pt;
      halted, pt := GetPt(va);
      GrowsParts(old(Now()), Now(), PathOf(va));
      Unpack();
      if halted {
        return;
      }
      ghost var s := Now();
      FreeEntry(pt, ptIndex, PageNo(va));
      ReleaseAll(old(Now()), s, Now(), PathOf(va), pmm.Limit(), NodeAt(va, 1),
                 old(Frame(LeafNow(PageNo(va)))) / BLOCK_SIZE);
      Repack();
    }

    /** The second half of `vmm_free_page`: frees the frame in the entry, then clears the entry. */
    method FreeEntry(pt: nat, indx: nat, ghost q: nat)
      requires Valid() && Node(1, q / 512) in tables && pt == Pointer(tables[Node(1, q / 512)]) && indx == q % 512
      requires Frame(LeafNow(q)) / BLOCK_SIZE < 8 * pmm.bitmap.Length
      modifies phys, pmm.bitmap
      ensures Shape()
      ensures pmm.bitmap[..] == Unmarked(old(pmm.bitmap[..]), old(Frame(LeafNow(q))) / BLOCK_SIZE)
      ensures forall r: nat :: LeafNow(r) == if r == q then 0 else old(LeafNow(r))
      ensures forall va: nat :: Translate(va) == if PageNo(va) == q then Decode(0) else old(Translate(va))
      ensures forall b: nat, i: nat :: i < 512 && b != tables[Node(1, q / 512)] ==>
                Rd(phys[..], b, i) == Rd(old(phys[..]), b, i)
    {
      hide Valid, Shape, Forest, Reserves, Leaf, PageNo, Rd, Decode, And, Unmarked;
      Unpack();
      TableAt(phys[..], tables, Node(1, q / 512));
      LeafSlot(phys[..], tables, q);
      var entry := ReadEntry(pt, indx, tables[Node(1, q / 512)]);
      pmm.Free(And(entry, ADDRESS_MASK));
      StoreLeaf(pt, indx, 0, q);
    }

    /** The start of `vmm_init`: an empty PML4 in a fresh block. */
    method InitRoot() returns (halted: bool)
      requires Machine() && tables == map[]
      modifies this`tables, this`pml4addr, phys, pmm.bitmap
      ensures halted <==> hhdmOffset == 0 || AllocAddr(old(pmm.bitmap[..]), pmm.Limit()) == NULL
      ensures !halted ==> Valid() && tables.Keys == {ROOT}
      ensures !halted ==> forall q: nat :: LeafNow(q) == 0
      ensures !halted ==> pmm.bitmap[..] == AllocBits(old(pmm.bitmap[..]), pmm.Limit())
      ensures !halted ==> tables[ROOT] == AllocAddr(old(pmm.bitmap[..]), pmm.Limit()) / BLOCK_SIZE
      ensures forall b: nat :: Spared(old(Now()), Now(), b)
    {
      hide AllocAddr, AllocBits, Forest, Leaf;
      if hhdmOffset == 0 {
        return true;
      }
      ghost var bm := pmm.bitmap[..];
      var root := pmm.Alloc();
      if root == NULL {
        NullSpares(State(phys[..], map[], bm), pmm.Limit());
        return true;
      }
      FreshBlock(map[], bm, pmm.Limit());
      ghost var b := root / BLOCK_SIZE;
      pml4addr := root + hhdmOffset;
      ZeroBlock(pml4addr, b);
      EmptyForest(phys[..], b);
      tables := map[ROOT := b];
      halted := false;
    }
  }

  lemma GrowsParts(s: State, s': State, path: set<Node>)
    requires Grows(s, s', path)
    ensures Extends(s, s', path)
    ensures forall q: nat :: Leaf(s'.mem, s'.tables, q) == Leaf(s.mem, s.tables, q)
  {
  }

  /** A write into a table of the tree stays within what growing the tree may touch. */
  lemma LeafExtends(s: State, s1: State, s2: State, path: set<Node>, n: Node)
    requires Extends(s, s1, path) && n in s1.tables
    requires s2.tables == s1.tables && s2.bm == s1.bm && |s2.mem| == |s1.mem|
    requires forall b: nat, i: nat :: i < 512 && b != s1.tables[n] ==> Rd(s2.mem, b, i) == Rd(s1.mem, b, i)
    ensures Extends(s, s2, path)
  {
    forall b: nat, i: nat {:trigger Rd(s2.mem, b, i)} | i < 512 && IsSet(s.bm, b) && b !in s.tables.Values
      ensures Rd(s2.mem, b, i) == Rd(s.mem, b, i)
    {
      assert Rd(s1.mem, b, i) == Rd(s.mem, b, i);
    }
  }

  lemma SameMoved(s: State, s1: State, s2: State, limit: nat)
    requires Moved(s, s1, limit) && s2.tables == s1.tables && s2.bm == s1.bm
    ensures Moved(s, s2, limit)
  {
  }

  lemma TableAt(mem: seq<Word>, tables: map<Node, nat>, n: Node)
    requires Forest(mem, tables) && n in tables
    ensures 1 <= n.level <= 4 && ROOT in tables && 0 < tables[n] && 512 * tables[n] + 512 <= |mem|
  {
  }

  lemma AddMember(keys: set<Node>, c: Node)
    requires c in keys
    ensures keys + {c} == keys
  {
  }

  lemma DecodeZero()
    ensures Decode(0) == Fault
  {
    assert And(0, PTE_PRESENT) == 0;
  }

  lemma ReleaseBits(s: State, s1: State, s2: State, path: set<Node>, limit: nat, n: Node, freed: nat)
    requires Extends(s, s1, path) && Moved(s, s1, limit) && Forest(s1.mem, s1.tables)
    requires Reserves(s1.bm, s1.tables) && freed < 8 * |s1.bm| && n in s1.tables
    requires s2.tables == s1.tables && s2.bm == Unmarked(s1.bm, freed) && |s2.mem| == |s1.mem|
    requires forall b: nat, i: nat :: i < 512 && b != s1.tables[n] ==> Rd(s2.mem, b, i) == Rd(s1.mem, b, i)
    ensures Released(s, s2, freed)
  {
    hide Forest, Reserves, Rd, IsSet;
    SomeTables(s1);
    assert s2.bm == Unmarked(s1.bm, freed) && |s1.bm| == |s.bm|;
    forall b | 0 <= b < 8 * |s.bm|
      ensures IsSet(s2.bm, b) <==> b != freed && (IsSet(s.bm, b) || b in s2.tables.Values)
    {
      GrownBit(s, s1, path, limit, b);
    }
    LeafExtends(s, s1, State(s2.mem, s1.tables, s1.bm), path, n);
  }

  lemma ReleaseReturns(s: State, s1: State, s2: State, path: set<Node>, limit: nat, freed: nat)
    requires Extends(s, s1, path) && Moved(s, s1, limit) && Forest(s1.mem, s1.tables)
    requires IsSet(s.bm, freed) && 0 < freed < limit <= 8 * |s1.bm|
    requires s2.tables == s1.tables && s2.bm == Unmarked(s1.bm, freed)
    ensures Returned(s, s2, freed, limit)
  {
    assert IsSet(s1.bm, freed);
    UnmarkFrees(s1.bm, freed, limit);
    assert freed !in FreeBlocks(s1.bm, limit);
  }

  /** Everything a successful `FreePage` did to bitmap and tables. */
  lemma ReleaseAll(s: State, s1: State, s2: State, path: set<Node>, limit: nat, n: Node, freed: nat)
    requires Extends(s, s1, path) && Moved(s, s1, limit) && Forest(s1.mem, s1.tables)
    requires Reserves(s1.bm, s1.tables) && freed < 8 * |s1.bm| && n in s1.tables && limit <= 8 * |s1.bm|
    requires s2.tables == s1.tables && s2.bm == Unmarked(s1.bm, freed) && |s2.mem| == |s1.mem|
    requires forall b: nat, i: nat :: i < 512 && b != s1.tables[n] ==> Rd(s2.mem, b, i) == Rd(s1.mem, b, i)
    ensures Released(s, s2, freed)
    ensures Reserves(s2.bm, s2.tables) <==> freed !in s2.tables.Values
    ensures 0 < freed < limit && IsSet(s.bm, freed) ==> Returned(s, s2, freed, limit)
  {
    hide Extends, Moved, Forest, Reserves, Unmarked, Rd, Released, Returned, IsSet;
    ReleaseBits(s, s1, s2, path, limit, n, freed);
    ReleaseReserves(s1, freed);
    if 0 < freed < limit && IsSet(s.bm, freed) {
      ReleaseReturns(s, s1, s2, path, limit, freed);
    }
  }

  lemma GrownBit(s: State, s1: State, path: set<Node>, limit: nat, b: nat)
    requires Extends(s, s1, path) && Moved(s, s1, limit) && b < 8 * |s.bm|
    requires forall n :: n in s1.tables ==> 0 < s1.tables[n]
    ensures IsSet(s1.bm, b) <==> IsSet(s.bm, b) || b in s1.tables.Values
  {
  }

  lemma ReleaseReserves(s: State, freed: nat)
    requires Reserves(s.bm, s.tables) && freed < 8 * |s.bm|
    ensures Reserves(Unmarked(s.bm, freed), s.tables) <==> freed !in s.tables.Values
  {
    if freed in s.tables.Values {
      var n :| n in s.tables && s.tables[n] == freed;
      assert !IsSet(Unmarked(s.bm, freed), s.tables[n]);
    } else {
      forall n | n in s.tables
        ensures IsSet(Unmarked(s.bm, freed), s.tables[n])
      {
        assert s.tables[n] in s.tables.Values;
      }
    }
  }

  lemma LeafSlot(mem: seq<Word>, tables: map<Node, nat>, q: nat)
    requires Forest(mem, tables) && Node(1, q / 512) in tables
    ensures 512 * tables[Node(1, q / 512)] + q % 512 < |mem|
    ensures Leaf(mem, tables, q) == mem[512 * tables[Node(1, q / 512)] + q % 512]
  {
  }

  lemma BitZero(s: State, s': State, limit: nat)
    requires Moved(s, s', limit)
    ensures IsSet(s'.bm, 0) == IsSet(s.bm, 0)
  {
  }
}
