/** Four-level paging as the processor sees it, and the shape the kernel's page tables keep.

    `Walk` follows the Intel SDM Vol. 3A, sections 4.5 and 4.6, over raw memory words and knows
    nothing of how the tables were built. `Forest` says which block holds which table.
    `WalkReadsLeaf` connects the two.
  */
module Paging {
  import opened Bits

  const PAGE_SIZE := 0x1000
  const PAGES := 0x10_0000_0000 // 2^36 pages of a 48-bit address space

  const PTE_PRESENT := 0x1
  const PTE_READ_WRITE := 0x2
  const PTE_ACCESS_ALL := 0x4
  const PTE_PAGE_SIZE := 0x80
  const PTE_EXECUTE_DISABLE := 0x8000_0000_0000_0000
  const ADDRESS_MASK := 0x000f_ffff_ffff_f000

  // ------------------------------------------------------------------
  // Entries
  // ------------------------------------------------------------------

  function Frame(e: nat): nat { And(e, 0x000f_ffff_ffff_f000) }

  function Flags(e: nat): nat { And(e, 0xfff0_0000_0000_0fff) }

  predicate Present(e: nat) { And(e, 0x1) != 0 }

  datatype Rights = Rights(write: bool, user: bool, noExecute: bool)

  function RightsOf(e: nat): Rights {
    Rights(And(e, 0x2) != 0, And(e, 0x4) != 0, And(e, 0x8000_0000_0000_0000) != 0)
  }

  /** Section 4.6: a right must be granted at every level, execute-disable at any level suffices. */
  function Combine(a: Rights, b: Rights): Rights {
    Rights(a.write && b.write, a.user && b.user, a.noExecute || b.noExecute)
  }

  /** The entry the kernel writes for a lower table in block `b`. */
  function Link(b: nat): nat {
    Or(Or(Or(b * PAGE_SIZE, PTE_PRESENT), PTE_READ_WRITE), PTE_ACCESS_ALL)
  }

  lemma LinkIs(b: nat)
    ensures Link(b) == Or(b * PAGE_SIZE, 7) == PAGE_SIZE * b + 7
  {
    var p := b * PAGE_SIZE;
    OrAssociative(p, 1, 2);
    OrAssociative(p, Or(1, 2), 4);
    assert Or(Or(1, 2), 4) == 7;
    assert Or(p, 7) == p + 7 by {
      assert Pow2(12) == PAGE_SIZE;
      OrIsSum(b, 7, 12);
    }
  }

  /** The address field of a word, arithmetically. */
  lemma FrameIs(e: Word)
    ensures Frame(e) == PAGE_SIZE * (e / PAGE_SIZE % 0x100_0000_0000)
    ensures Frame(e) + Flags(e) == e
  {
    Powers();
    var low := Pow2(40) - 1;
    assert Shl(low, 12) == ADDRESS_MASK;
    AndShiftedMask(e, low, 12, ADDRESS_MASK);
    ShrIsDiv(e, 12);
    AndLowMask(Shr(e, 12), 40);
    AndComplement(e, ADDRESS_MASK, 64);
  }

  lemma FrameOfAligned(p: Word)
    requires p % PAGE_SIZE == 0 && p < 0x10_0000_0000_0000
    ensures Frame(p) == p && Flags(p) == 0
  {
    FrameIs(p);
    FrameOfBlock(p, p / PAGE_SIZE);
  }

  /** An address that fits the address field, and flags that stay out of it. */
  predicate Separate(p: nat, flags: nat) {
    p % PAGE_SIZE == 0 && p < 0x10_0000_0000_0000 && flags / PAGE_SIZE % 0x100_0000_0000 == 0
  }

  /** `physical_addr | flags` can be read back as the same address and the same flags exactly when
      the address is page aligned and within 52 bits and the flags avoid the address field. */
  lemma EntryFields(p: Word, flags: Word)
    ensures Frame(Or(p, flags)) == p && Flags(Or(p, flags)) == flags <==> Separate(p, flags)
  {
    OrOfWords(p, flags);
    FrameIs(p);
    FrameIs(flags);
    FrameIs(Or(p, flags));
    if Separate(p, flags) {
      FrameOfAligned(p);
      AndOfOr(p, flags, ADDRESS_MASK);
      OrZero(p);
      AndOfOr(p, flags, 0xfff0_0000_0000_0fff);
    } else if Frame(Or(p, flags)) == p && Flags(Or(p, flags)) == flags {
      FieldsOfFields(Or(p, flags));
      assert false;
    }
  }

  lemma FieldsOfFields(e: Word)
    ensures Frame(e) % PAGE_SIZE == 0 && Frame(e) < 0x10_0000_0000_0000
    ensures Flags(e) / PAGE_SIZE % 0x100_0000_0000 == 0
  {
    FrameIs(e);
    var x := e / PAGE_SIZE;
    assert x == 0x100_0000_0000 * (x / 0x100_0000_0000) + x % 0x100_0000_0000;
    assert Flags(e) == PAGE_SIZE * (0x100_0000_0000 * (x / 0x100_0000_0000)) + e % PAGE_SIZE;
  }

  lemma OrOfWords(x: Word, y: Word)
    ensures Or(x, y) < U64
  {
    Powers();
    OrWidth(x, y, 64);
  }

  /** Only bit 0, 1, 2 or 63 decides presence and rights; the address field decides none of them. */
  lemma EntryRights(p: Word, flags: Word)
    requires p % PAGE_SIZE == 0 && p < 0x10_0000_0000_0000
    ensures Present(Or(p, flags)) == Present(flags)
    ensures RightsOf(Or(p, flags)) == RightsOf(flags)
  {
    AndOfOr(p, flags, PTE_PRESENT);
    AndOfOr(p, flags, PTE_READ_WRITE);
    AndOfOr(p, flags, PTE_ACCESS_ALL);
    AndOfOr(p, flags, PTE_EXECUTE_DISABLE);
    AddressHasNoFlags(p);
  }

  lemma AddressHasNoFlags(p: Word)
    requires p % PAGE_SIZE == 0 && p < 0x10_0000_0000_0000
    ensures And(p, PTE_PRESENT) == 0 && And(p, PTE_READ_WRITE) == 0
    ensures And(p, PTE_ACCESS_ALL) == 0 && And(p, PTE_EXECUTE_DISABLE) == 0
    ensures And(p, PTE_PAGE_SIZE) == 0
  {
    Powers();
    var h := p / PAGE_SIZE;
    assert Shl(h, 12) == p;
    AndDisjoint(h, PTE_PRESENT, 12);
    AndDisjoint(h, PTE_READ_WRITE, 12);
    AndDisjoint(h, PTE_ACCESS_ALL, 12);
    AndDisjoint(h, PTE_PAGE_SIZE, 12);
    Pow2Of63();
    HighBitClear(p, 63);
    TestBit(p, 63);
  }

  lemma Pow2Of63()
    ensures Pow2(63) == PTE_EXECUTE_DISABLE
  {
    Powers();
  }

  lemma FrameOfBlock(e: Word, b: nat)
    requires e / PAGE_SIZE == b < 0x100_0000_0000
    ensures Frame(e) == b * PAGE_SIZE
  {
    FrameIs(e);
  }

  lemma LinkFrame(b: nat)
    requires b < 0x100_0000_0000
    ensures Link(b) < U64 && Frame(Link(b)) == b * PAGE_SIZE
  {
    LinkIs(b);
    FrameOfBlock(Link(b), b);
  }

  /** An entry for a lower table never faults, never is a large page and never takes a right away. */
  lemma LinkFacts(b: nat)
    requires b < 0x100_0000_0000
    ensures Link(b) < U64 && Present(Link(b)) && And(Link(b), PTE_PAGE_SIZE) == 0
    ensures Frame(Link(b)) == b * PAGE_SIZE
    ensures RightsOf(Link(b)) == Rights(true, true, false)
  {
    hide And, Or, Link, Frame, Present, RightsOf;
    var p := b * PAGE_SIZE;
    LinkFrame(b);
    LinkIs(b);
    LowFlags();
    EntryRights(p, 7);
    AddressHasNoFlags(p);
    AndOfOr(p, 7, PTE_PAGE_SIZE);
    OrZero(0);
  }

  lemma LowFlags()
    ensures Present(7) && RightsOf(7) == Rights(true, true, false) && And(7, PTE_PAGE_SIZE) == 0
  {
    assert And(7, PTE_PRESENT) == 1 && And(7, PTE_READ_WRITE) == 2 && And(7, PTE_ACCESS_ALL) == 4;
    assert And(7, PTE_EXECUTE_DISABLE) == 0;
  }

  /** What the processor makes of a last-level entry the kernel writes. */
  lemma MappedEntry(p: Word, flags: Word)
    requires Separate(p, flags)
    ensures Decode(Or(p, flags)) == if Present(flags) then Page(p, flags, RightsOf(flags)) else Fault
  {
    EntryFields(p, flags);
    EntryRights(p, flags);
  }

  // ------------------------------------------------------------------
  // Memory and the hardware walk
  // ------------------------------------------------------------------

  /** Word `i` of block `b`; memory that is not there reads as zero. */
  function Rd(mem: seq<Word>, b: nat, i: nat): nat {
    if 512 * b + i < |mem| then mem[512 * b + i] else 0
  }

  /** Bits of the address that select the entry at a level: 47:39, 38:30, 29:21 and 20:12. */
  function Index(va: nat, level: nat): (i: nat)
    requires 1 <= level <= 4
    ensures i < 512
  {
    if level == 4 then va / 0x80_0000_0000 % 512
    else if level == 3 then va / 0x4000_0000 % 512
    else if level == 2 then va / 0x20_0000 % 512
    else va / 0x1000 % 512
  }

  datatype Translation =
    | Fault
    | LargePage(level: nat)
    | Page(frame: nat, flags: nat, rights: Rights)

  function WalkFrom(mem: seq<Word>, table: nat, level: nat, va: nat, acc: Rights): Translation
    requires 1 <= level <= 4
    decreases level
  {
    var e := Rd(mem, table, Index(va, level));
    if !Present(e) then Fault
    else if level == 1 then Page(Frame(e), Flags(e), Combine(acc, RightsOf(e)))
    else if level <= 3 && And(e, 0x80) != 0 then LargePage(level)
    else WalkFrom(mem, Frame(e) / PAGE_SIZE, level - 1, va, Combine(acc, RightsOf(e)))
  }

  /** The translation of `va` with the PML4 in block `root`. */
  function Walk(mem: seq<Word>, root: nat, va: nat): Translation {
    WalkFrom(mem, root, 4, va, Rights(true, true, false))
  }

  // ------------------------------------------------------------------
  // Page numbers and table positions
  // ------------------------------------------------------------------

  function PageNo(va: nat): (q: nat)
    ensures q < PAGES
  {
    va / 0x1000 % PAGES
  }

  /** The part of the address that determines which table is used at a level. */
  function Prefix(va: nat, level: nat): nat
    requires level <= 4
  {
    if level == 4 then 0
    else if level == 3 then va / 0x80_0000_0000 % 0x200
    else if level == 2 then va / 0x4000_0000 % 0x4_0000
    else if level == 1 then va / 0x20_0000 % 0x800_0000
    else PageNo(va)
  }

  lemma PrefixStep(va: nat, level: nat)
    requires 1 <= level <= 4
    ensures Prefix(va, level - 1) == 512 * Prefix(va, level) + Index(va, level)
  {
    if level == 3 {
      SplitMod(va, 0x4000_0000, 0x200, 0x80_0000_0000, 0x4_0000);
    } else if level == 2 {
      SplitMod(va, 0x20_0000, 0x4_0000, 0x4000_0000, 0x800_0000);
    } else if level == 1 {
      SplitMod(va, 0x1000, 0x800_0000, 0x20_0000, PAGES);
    }
  }

  lemma SplitMod(va: nat, d: nat, m: nat, d': nat, m': nat)
    requires d > 0 && m > 0 && d' == 512 * d && m' == 512 * m
    ensures va / d % m' == 512 * (va / d' % m) + va / d % 512
  {
    DivDiv(va, d, d');
    var x := va / d;
    var y := x / 512;
    var q, s := y / m, y % m;
    assert y == m * q + s;
    assert 512 * (m * q) == m' * q;
    DivModUnique(x, m', q, 512 * s + x % 512);
  }

  lemma DivDiv(va: nat, d: nat, d': nat)
    requires d > 0 && d' == 512 * d
    ensures va / d' == va / d / 512
  {
    var x, r := va / d, va % d;
    var y, z := x / 512, x % 512;
    assert va == d * x + r;
    assert d * x == d * (512 * y) + d * z;
    assert d * (512 * y) == d' * y;
    MulNonNegative(d, z);
    MulNonNegative(d, 511 - z);
    Distribute(d, 511, z);
    DivModUnique(va, d', y, d * z + r);
  }

  /** The four indices identify the page: no two pages share all four. */
  lemma IndicesIdentifyPage(va: nat, wa: nat)
    ensures (forall level :: 1 <= level <= 4 ==> Index(va, level) == Index(wa, level))
            <==> PageNo(va) == PageNo(wa)
  {
    SamePrefix(va, wa, 4);
    SamePrefix(va, wa, 3);
    SamePrefix(va, wa, 2);
    SamePrefix(va, wa, 1);
    assert Prefix(va, 0) == PageNo(va) && Prefix(wa, 0) == PageNo(wa);
  }

  lemma SamePrefix(va: nat, wa: nat, level: nat)
    requires 1 <= level <= 4
    ensures Prefix(va, level - 1) == Prefix(wa, level - 1)
            <==> Prefix(va, level) == Prefix(wa, level) && Index(va, level) == Index(wa, level)
  {
    PrefixStep(va, level);
    PrefixStep(wa, level);
  }

  /** A table's place in the tree: its level, and the address bits above what it resolves. */
  datatype Node = Node(level: nat, prefix: nat)

  const ROOT := Node(4, 0)

  function Child(n: Node, i: nat): Node
    requires n.level > 0
  {
    Node(n.level - 1, 512 * n.prefix + i)
  }

  function Parent(n: Node): Node { Node(n.level + 1, n.prefix / 512) }

  function NodeAt(va: nat, level: nat): Node
    requires level <= 4
  {
    Node(level, Prefix(va, level))
  }

  /** The tables below the root that translating `va` goes through. */
  function PathOf(va: nat): set<Node> {
    {NodeAt(va, 3), NodeAt(va, 2), NodeAt(va, 1)}
  }

  lemma ChildOnPath(va: nat, level: nat)
    requires 1 <= level <= 4
    ensures Child(NodeAt(va, level), Index(va, level)) == NodeAt(va, level - 1)
    ensures Parent(NodeAt(va, level - 1)) == NodeAt(va, level)
  {
    PrefixStep(va, level);
  }

  // ------------------------------------------------------------------
  // The shape of the tables
  // ------------------------------------------------------------------

  /** Which block holds which table. Distinct tables are in distinct blocks, every table but the
      root hangs below another one, and every non-leaf entry is either 0 or the link to the table
      in that position. */
  ghost predicate Forest(mem: seq<Word>, tables: map<Node, nat>) {
    && ROOT in tables
    && (forall n :: n in tables ==> 1 <= n.level <= 4 && (n.level == 4 ==> n == ROOT))
    && (forall n :: n in tables ==>
          0 < tables[n] < 0x100_0000_0000 && 512 * tables[n] + 512 <= |mem|)
    && (forall n, m :: n in tables && m in tables && n != m ==> tables[n] != tables[m])
    && (forall n {:trigger Parent(n)} :: n in tables && n.level < 4 ==> Parent(n) in tables)
    && (forall n, i {:trigger Child(n, i)} :: n in tables && n.level >= 2 && 0 <= i < 512 ==>
          Rd(mem, tables[n], i) == if Child(n, i) in tables then Link(tables[Child(n, i)]) else 0)
  }

  /** The last-level entry for page `q`, 0 when the tables above it are missing. */
  ghost function Leaf(mem: seq<Word>, tables: map<Node, nat>, q: nat): nat {
    if Node(1, q / 512) in tables then Rd(mem, tables[Node(1, q / 512)], q % 512) else 0
  }

  /** What an address in a page with last-level entry `e` translates to. */
  function Decode(e: nat): Translation {
    if Present(e) then Page(Frame(e), Flags(e), RightsOf(e)) else Fault
  }

  /** Refinement of the hardware by the leaf map: the walk of any address gives its leaf entry,
      with that entry's own rights, because no intermediate entry restricts. */
  lemma WalkReadsLeaf(mem: seq<Word>, tables: map<Node, nat>, va: nat)
    requires Forest(mem, tables)
    ensures Walk(mem, tables[ROOT], va) == Decode(Leaf(mem, tables, PageNo(va)))
  {
    WalkFromTable(mem, tables, va, 4);
  }

  lemma {:induction false} WalkFromTable(mem: seq<Word>, tables: map<Node, nat>, va: nat, level: nat)
    requires Forest(mem, tables) && 1 <= level <= 4 && NodeAt(va, level) in tables
    ensures WalkFrom(mem, tables[NodeAt(va, level)], level, va, Rights(true, true, false))
            == Decode(Leaf(mem, tables, PageNo(va)))
    decreases level
  {
    ChildOnPath(va, level);
    var n, i := NodeAt(va, level), Index(va, level);
    if level == 1 {
      assert n == Node(1, PageNo(va) / 512) && i == PageNo(va) % 512;
    } else {
      var c := NodeAt(va, level - 1);
      assert Rd(mem, tables[n], i) == if c in tables then Link(tables[c]) else 0;
      if c in tables {
        LinkStep(mem, tables[n], level, va, tables[c]);
        WalkFromTable(mem, tables, va, level - 1);
      } else {
        NoTableBelow(mem, tables, va, level - 1);
        assert And(0, PTE_PRESENT) == 0;
      }
    }
  }

  lemma LinkStep(mem: seq<Word>, table: nat, level: nat, va: nat, lower: nat)
    requires 2 <= level <= 4 && lower < 0x100_0000_0000
    requires Rd(mem, table, Index(va, level)) == Link(lower)
    ensures WalkFrom(mem, table, level, va, Rights(true, true, false))
            == WalkFrom(mem, lower, level - 1, va, Rights(true, true, false))
  {
    LinkFacts(lower);
  }

  lemma {:induction false} NoTableBelow(mem: seq<Word>, tables: map<Node, nat>, va: nat, level: nat)
    requires Forest(mem, tables) && 1 <= level <= 3 && NodeAt(va, level) !in tables
    ensures Node(1, PageNo(va) / 512) !in tables
    decreases level
  {
    ChildOnPath(va, level);
    ChildOnPath(va, 1);
    if level > 1 {
      assert Parent(NodeAt(va, level - 1)) !in tables;
      NoTableBelow(mem, tables, va, level - 1);
    }
  }

  /** `mem'` is `mem` with block `b` zeroed and word `i` of block `t` set to `w`. */
  ghost predicate Linked(mem: seq<Word>, mem': seq<Word>, b: nat, t: nat, i: nat, w: nat) {
    && |mem'| == |mem|
    && forall k :: 0 <= k < |mem| ==>
         mem'[k] == if k == 512 * t + i then w else if 512 * b <= k < 512 * b + 512 then 0 else mem[k]
  }

  lemma LinkedReads(mem: seq<Word>, mem': seq<Word>, b: nat, t: nat, i: nat, w: nat)
    requires Linked(mem, mem', b, t, i, w) && i < 512 && b != t && 512 * t + 512 <= |mem|
    ensures forall c: nat, j: nat :: j < 512 ==>
              Rd(mem', c, j) == if c == t && j == i then w else if c == b then 0 else Rd(mem, c, j)
  {
  }

  /** Hanging a zeroed, previously unused block into an empty slot keeps the shape and translates
      nothing new. */
  lemma AddTable(mem: seq<Word>, mem': seq<Word>, tables: map<Node, nat>, n: Node, i: nat, b: nat)
    requires Forest(mem, tables)
    requires n in tables && n.level >= 2 && i < 512 && Child(n, i) !in tables
    requires b !in tables.Values && 0 < b < 0x100_0000_0000 && 512 * b + 512 <= |mem|
    requires Linked(mem, mem', b, tables[n], i, Link(b))
    ensures Forest(mem', tables[Child(n, i) := b])
    ensures forall q: nat :: Leaf(mem', tables[Child(n, i) := b], q) == Leaf(mem, tables, q)
  {
    var c := Child(n, i);
    var tables' := tables[c := b];
    LinkedReads(mem, mem', b, tables[n], i, Link(b));
    assert Parent(c) == n;
    forall m, j | m in tables' && m.level >= 2 && 0 <= j < 512
      ensures Rd(mem', tables'[m], j)
              == if Child(m, j) in tables' then Link(tables'[Child(m, j)]) else 0
    {
      if m == c {
        NoGrandchild(mem, tables, n, i, j);
      } else if Child(m, j) == c {
        assert m == n && j == i;
      }
    }
    forall q: nat
      ensures Leaf(mem', tables', q) == Leaf(mem, tables, q)
    {
      assert Node(1, q / 512) in tables ==> tables[Node(1, q / 512)] != b;
    }
  }

  lemma NoGrandchild(mem: seq<Word>, tables: map<Node, nat>, n: Node, i: nat, j: nat)
    requires Forest(mem, tables) && 3 <= n.level <= 4 && i < 512 && j < 512
    requires Child(n, i) !in tables
    ensures Child(Child(n, i), j) !in tables
  {
    assert Parent(Child(Child(n, i), j)) == Child(n, i);
  }

  /** Writing a last-level entry keeps the shape and changes the translation of one page only. */
  lemma SetLeaf(mem: seq<Word>, tables: map<Node, nat>, q: nat, w: Word)
    requires Forest(mem, tables) && Node(1, q / 512) in tables
    ensures var k := 512 * tables[Node(1, q / 512)] + q % 512;
            && k < |mem|
            && Forest(mem[k := w], tables)
            && (forall r: nat :: Leaf(mem[k := w], tables, r) == if r == q then w else Leaf(mem, tables, r))
            && (forall b: nat, j: nat :: j < 512 && b != tables[Node(1, q / 512)] ==>
                  Rd(mem[k := w], b, j) == Rd(mem, b, j))
  {
    var t := tables[Node(1, q / 512)];
    var k := 512 * t + q % 512;
    var mem' := mem[k := w];
    forall b: nat, j: nat | j < 512
      ensures Rd(mem', b, j) == if b == t && j == q % 512 then w else Rd(mem, b, j)
    {
    }
    forall r: nat
      ensures Leaf(mem', tables, r) == if r == q then w else Leaf(mem, tables, r)
    {
      if Node(1, r / 512) in tables && tables[Node(1, r / 512)] == t {
        assert Node(1, r / 512) == Node(1, q / 512);
      }
    }
  }

  /** The tables of one page map do not depend on memory outside its own blocks. */
  lemma ForestFrame(mem: seq<Word>, mem': seq<Word>, tables: map<Node, nat>)
    requires Forest(mem, tables) && |mem'| == |mem|
    requires forall n, i :: n in tables && 0 <= i < 512 ==> Rd(mem', tables[n], i) == Rd(mem, tables[n], i)
    ensures Forest(mem', tables)
    ensures forall q: nat :: Leaf(mem', tables, q) == Leaf(mem, tables, q)
    ensures forall va: nat :: Walk(mem', tables[ROOT], va) == Walk(mem, tables[ROOT], va)
  {
    forall va: nat
      ensures Walk(mem', tables[ROOT], va) == Walk(mem, tables[ROOT], va)
    {
      WalkReadsLeaf(mem, tables, va);
      WalkReadsLeaf(mem', tables, va);
    }
  }

  /** A zeroed block is an empty PML4. */
  lemma EmptyForest(mem: seq<Word>, root: nat)
    requires 0 < root < 0x100_0000_0000 && 512 * root + 512 <= |mem|
    requires forall k :: 512 * root <= k < 512 * root + 512 ==> mem[k] == 0
    ensures Forest(mem, map[ROOT := root])
    ensures forall q: nat :: Leaf(mem, map[ROOT := root], q) == 0
  {
    var tables := map[ROOT := root];
    forall i | 0 <= i < 512
      ensures Rd(mem, root, i) == 0
    {
    }
    forall n, i | n in tables && 0 <= i < 512
      ensures Child(n, i) !in tables
    {
    }
  }
}
