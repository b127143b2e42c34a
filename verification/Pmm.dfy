/** The physical block allocator (kern/mm/pmm.c): one bit per 4 KiB block, first fit. */
module Pmm {
  import opened Bits

  const BLOCK_SIZE := 4096
  const NULL := 0
  /** `(uint64_t)-1`, what the search returns when it finds nothing. */
  const NO_BLOCK := U64 - 1
  /** Bit numbers are passed as C `int`s. */
  const INT_LIMIT := 0x8000_0000

  // ------------------------------------------------------------------
  // The bitmap as a value
  // ------------------------------------------------------------------

  predicate IsSet(bm: seq<Byte>, b: nat) {
    b / 8 < |bm| && Bit(bm[b / 8], b % 8)
  }

  function Marked(bm: seq<Byte>, b: nat): (r: seq<Byte>)
    requires b < 8 * |bm|
    ensures |r| == |bm|
    ensures forall c :: 0 <= c < 8 * |bm| ==> (IsSet(r, c) <==> c == b || IsSet(bm, c))
  {
    var r := bm[b / 8 := BitOn(bm[b / 8], b % 8)];
    ByteChange(bm, r, b, true);
    r
  }

  function Unmarked(bm: seq<Byte>, b: nat): (r: seq<Byte>)
    requires b < 8 * |bm|
    ensures |r| == |bm|
    ensures forall c :: 0 <= c < 8 * |bm| ==> (IsSet(r, c) <==> c != b && IsSet(bm, c))
  {
    var r := bm[b / 8 := BitOff(bm[b / 8], b % 8)];
    ByteChange(bm, r, b, false);
    r
  }

  /** `x | (1 << k)` on a byte. */
  function BitOn(x: Byte, k: nat): (r: Byte)
    requires k < 8
    ensures forall j :: 0 <= j < 8 ==> (Bit(r, j) <==> j == k || Bit(x, j))
  {
    BitOnBits(x, k);
    Or(x, Pow2(k))
  }

  /** `x & ~(1 << k)` on a byte. */
  function BitOff(x: Byte, k: nat): (r: Byte)
    requires k < 8
    ensures forall j :: 0 <= j < 8 ==> (Bit(r, j) <==> j != k && Bit(x, j))
  {
    Powers();
    Pow2Below(k, 8);
    var mask := 255 - Pow2(k);
    BitOffBits(x, k, mask);
    And(x, mask)
  }

  lemma BitOnBits(x: Byte, k: nat)
    requires k < 8
    ensures Or(x, Pow2(k)) < U8
    ensures forall j :: 0 <= j < 8 ==> (Bit(Or(x, Pow2(k)), j) <==> j == k || Bit(x, j))
  {
    Powers();
    Pow2Below(k, 8);
    OrWidth(x, Pow2(k), 8);
    forall j | 0 <= j < 8
      ensures Bit(Or(x, Pow2(k)), j) <==> j == k || Bit(x, j)
    {
      OrBit(x, Pow2(k), j);
      Pow2Bit(k, j);
    }
  }

  lemma BitOffBits(x: Byte, k: nat, mask: Byte)
    requires k < 8 && mask == 255 - Pow2(k)
    ensures And(x, mask) < U8
    ensures forall j :: 0 <= j < 8 ==> (Bit(And(x, mask), j) <==> j != k && Bit(x, j))
  {
    Powers();
    Pow2Below(k, 8);
    AndWidth(x, mask);
    forall j | 0 <= j < 8
      ensures Bit(And(x, mask), j) <==> j != k && Bit(x, j)
    {
      AndBit(x, mask, j);
      NotBit(Pow2(k), 8, j);
      Pow2Bit(k, j);
    }
  }

  /** A byte-level change seen bit by bit. */
  lemma ByteChange(bm: seq<Byte>, r: seq<Byte>, b: nat, value: bool)
    requires b < 8 * |bm| && |r| == |bm|
    requires forall i :: 0 <= i < |bm| && i != b / 8 ==> r[i] == bm[i]
    requires forall j :: 0 <= j < 8 ==> (Bit(r[b / 8], j) <==> if j == b % 8 then value else Bit(bm[b / 8], j))
    ensures forall c :: 0 <= c < 8 * |bm| ==> (IsSet(r, c) <==> if c == b then value else IsSet(bm, c))
  {
    forall c | 0 <= c < 8 * |bm|
      ensures IsSet(r, c) <==> if c == b then value else IsSet(bm, c)
    {
      if c / 8 == b / 8 {
        assert Bit(r[b / 8], c % 8) <==> if c % 8 == b % 8 then value else Bit(bm[b / 8], c % 8);
      }
    }
  }

  /** The first clear bit in `[from, limit)`, or `limit`. */
  function FirstClear(bm: seq<Byte>, from: nat, limit: nat): (b: nat)
    requires from <= limit
    ensures from <= b <= limit
    ensures b < limit ==> !IsSet(bm, b)
    ensures forall c :: from <= c < b ==> IsSet(bm, c)
    decreases limit - from
  {
    if from == limit || !IsSet(bm, from) then from else FirstClear(bm, from + 1, limit)
  }

  function AllocBits(bm: seq<Byte>, limit: nat): (r: seq<Byte>)
    requires limit <= 8 * |bm|
    ensures |r| == |bm|
  {
    var b := FirstClear(bm, 0, limit);
    if b < limit then Marked(bm, b) else bm
  }

  function AllocAddr(bm: seq<Byte>, limit: nat): (a: nat)
    ensures a % BLOCK_SIZE == 0
  {
    var b := FirstClear(bm, 0, limit);
    if b < limit then b * BLOCK_SIZE else NULL
  }

  function FreeBlocks(bm: seq<Byte>, limit: nat): set<nat> {
    set b | 0 <= b < limit && !IsSet(bm, b)
  }

  /** What an allocation does to the set of free blocks: it takes the least one, and a NULL
      answer means either exhaustion or that the block taken was block 0. */
  lemma AllocTakesLeast(bm: seq<Byte>, limit: nat)
    requires limit <= 8 * |bm|
    ensures var free, a := FreeBlocks(bm, limit), AllocAddr(bm, limit);
            FreeBlocks(AllocBits(bm, limit), limit) == free - {a / BLOCK_SIZE}
            && (a == NULL <==> free == {} || 0 in free)
            && (free != {} ==> a / BLOCK_SIZE in free && forall b :: b in free ==> a / BLOCK_SIZE <= b)
            && a % BLOCK_SIZE == 0
            && (|FreeBlocks(AllocBits(bm, limit), limit)| == if free == {} then 0 else |free| - 1)
  {
    var free, a := FreeBlocks(bm, limit), AllocAddr(bm, limit);
    var b := FirstClear(bm, 0, limit);
    if b < limit {
      assert b in free;
      assert a / BLOCK_SIZE == b;
    } else {
      assert free == {};
    }
  }

  lemma UnmarkFrees(bm: seq<Byte>, b: nat, limit: nat)
    requires b < 8 * |bm| && limit <= 8 * |bm|
    ensures FreeBlocks(Unmarked(bm, b), limit)
            == FreeBlocks(bm, limit) + (if b < limit then {b} else {})
  {
  }

  // ------------------------------------------------------------------
  // The memory map
  // ------------------------------------------------------------------

  const USABLE := 0
  const ACPI_RECLAIMABLE := 2
  const BOOTLOADER_RECLAIMABLE := 5
  const FRAMEBUFFER := 7

  datatype MemEntry = MemEntry(base: nat, length: nat, kind: nat) {
    /** Number of iterations of a loop stepping a block at a time over the entry. */
    function Blocks(): nat { (length + BLOCK_SIZE - 1) / BLOCK_SIZE }

    /** The blocks such a loop reaches. */
    predicate Reaches(b: nat) {
      base / BLOCK_SIZE <= b < base / BLOCK_SIZE + Blocks()
    }
  }

  function TotalUsable(es: seq<MemEntry>): nat {
    if es == [] then 0
    else TotalUsable(es[..|es| - 1]) + (if es[|es| - 1].kind == USABLE then es[|es| - 1].length else 0)
  }

  /** Base of the first usable entry, 0 when there is none. */
  function FirstUsable(es: seq<MemEntry>): nat {
    if es == [] then 0
    else if es[0].kind == USABLE then es[0].base
    else FirstUsable(es[1..])
  }

  predicate Cleared(es: seq<MemEntry>, b: nat) {
    exists i :: 0 <= i < |es| && es[i].kind == USABLE && es[i].Reaches(b)
  }

  function BlockCount(es: seq<MemEntry>): nat {
    TotalUsable(es) % U64 / BLOCK_SIZE
  }

  /** The run of blocks set aside for the bitmap. It is `count / 8` blocks long. */
  predicate Reserved(es: seq<MemEntry>, b: nat) {
    FirstUsable(es) / BLOCK_SIZE <= b < FirstUsable(es) / BLOCK_SIZE + BlockCount(es) / 8
  }

  /** Every bit the initialisation touches lies in the memory behind the bitmap. */
  ghost predicate Fits(es: seq<MemEntry>, bytes: nat) {
    && BlockCount(es) / 8 <= bytes
    && 8 * bytes <= INT_LIMIT
    && (forall b: nat :: Reserved(es, b) ==> b < 8 * bytes)
    && (forall i :: 0 <= i < |es| && es[i].kind == USABLE ==>
          es[i].base / BLOCK_SIZE + es[i].Blocks() <= 8 * bytes)
  }

  /** Number of bits the search covers after start-up. */
  function SearchLimit(es: seq<MemEntry>): nat {
    8 * (BlockCount(es) / 8)
  }

  /** Within the searched prefix, a block is free exactly when a usable entry covers it and the
      bitmap's reservation does not. */
  ghost predicate BuiltFrom(bm: seq<Byte>, es: seq<MemEntry>) {
    Fits(es, |bm|) &&
    forall b :: 0 <= b < SearchLimit(es) ==>
      (IsSet(bm, b) <==> Reserved(es, b) || !Cleared(es, b))
  }

  lemma TotalUsableStep(es: seq<MemEntry>, i: nat)
    requires i < |es|
    ensures TotalUsable(es[..i + 1])
            == TotalUsable(es[..i]) + if es[i].kind == USABLE then es[i].length else 0
  {
    assert es[..i + 1][..i] == es[..i];
  }

  lemma {:induction false} FirstUsableAt(es: seq<MemEntry>, i: nat)
    requires i < |es| && es[i].kind == USABLE
    requires forall j :: 0 <= j < i ==> es[j].kind != USABLE
    ensures FirstUsable(es) == es[i].base
  {
    if i > 0 {
      FirstUsableAt(es[1..], i - 1);
    }
  }

  lemma {:induction false} NoUsable(es: seq<MemEntry>)
    requires forall j :: 0 <= j < |es| ==> es[j].kind != USABLE
    ensures FirstUsable(es) == 0
  {
    if es != [] {
      NoUsable(es[1..]);
    }
  }

  // ------------------------------------------------------------------
  // The allocator object
  // ------------------------------------------------------------------

  class BlockAllocator {
    /** The memory behind `pmm_bitmap`. The search only covers a prefix of it. */
    const bitmap: array<Byte>
    var usableAddr: nat
    var blockCount: nat
    var memSize: Word

    ghost predicate Valid()
      reads this
    {
      blockCount / 8 <= bitmap.Length && 8 * bitmap.Length <= INT_LIMIT
    }

    /** Number of blocks the search looks at. */
    function Limit(): nat
      reads this
    {
      8 * (blockCount / 8)
    }

    constructor (memory: array<Byte>)
      requires 8 * memory.Length <= INT_LIMIT
      ensures Valid() && bitmap == memory && blockCount == 0 && usableAddr == 0 && memSize == 0
    {
      bitmap := memory;
      blockCount, usableAddr, memSize := 0, 0, 0;
    }

    method MmapSet(bit: nat)
      requires bit < 8 * bitmap.Length
      modifies bitmap
      ensures bitmap[..] == Marked(old(bitmap[..]), bit)
    {
      bitmap[bit / 8] := BitOn(bitmap[bit / 8], bit % 8);
    }

    method MmapTest(bit: nat) returns (isSet: bool)
      requires bit < 8 * bitmap.Length
      ensures isSet == IsSet(bitmap[..], bit)
    {
      TestBit(bitmap[bit / 8], bit % 8);
      isSet := And(bitmap[bit / 8], Pow2(bit % 8)) != 0;
    }

    method MmapUnset(bit: nat)
      requires bit < 8 * bitmap.Length
      modifies bitmap
      ensures bitmap[..] == Unmarked(old(bitmap[..]), bit)
    {
      bitmap[bit / 8] := BitOff(bitmap[bit / 8], bit % 8);
    }

    /** The least clear bit of the searched prefix, or NO_BLOCK exactly when there is none. */
    method FindFreeBlock() returns (block: nat)
      requires Valid()
      ensures block == NO_BLOCK <==> forall b :: 0 <= b < Limit() ==> IsSet(bitmap[..], b)
      ensures block != NO_BLOCK ==>
                block < Limit() && !IsSet(bitmap[..], block)
                && forall b :: 0 <= b < block ==> IsSet(bitmap[..], b)
    {
      var i := 0;
      while i < blockCount / 8
        invariant 0 <= i <= blockCount / 8
        invariant forall b :: 0 <= b < 8 * i ==> IsSet(bitmap[..], b)
      {
        if bitmap[i] != 0xff {
          var j := 0;
          while j < 8
            invariant 0 <= j <= 8
            invariant forall b :: 0 <= b < 8 * i + j ==> IsSet(bitmap[..], b)
          {
            var bit := Pow2(j);
            TestBit(bitmap[i], j);
            assert (8 * i + j) / 8 == i && (8 * i + j) % 8 == j;
            if And(bitmap[i], bit) == 0 {
              assert !IsSet(bitmap[..], 8 * i + j);
              return i * 8 + j;
            }
            j := j + 1;
          }
        } else {
          FullByte();
          assert forall b :: 8 * i <= b < 8 * (i + 1) ==> b / 8 == i;
        }
        i := i + 1;
      }
      block := NO_BLOCK;
    }

    method Alloc() returns (addr: nat)
      requires Valid()
      modifies bitmap
      ensures addr == AllocAddr(old(bitmap[..]), Limit())
      ensures bitmap[..] == AllocBits(old(bitmap[..]), Limit())
    {
      var block := FindFreeBlock();
      assert block == NO_BLOCK ==> IsSet(bitmap[..], FirstClear(bitmap[..], 0, Limit()))
                                   || FirstClear(bitmap[..], 0, Limit()) == Limit();
      if block == NO_BLOCK {
        return NULL;
      }
      MmapSet(block);
      return block * BLOCK_SIZE;
    }

    method Free(addr: nat)
      requires addr / BLOCK_SIZE < 8 * bitmap.Length
      modifies bitmap
      ensures bitmap[..] == Unmarked(old(bitmap[..]), addr / BLOCK_SIZE)
    {
      MmapUnset(addr / BLOCK_SIZE);
    }

    /** Builds the bitmap from the memory map; every bit of the memory behind it is accounted for. */
    method Init(es: seq<MemEntry>)
      requires memSize == 0 && usableAddr == 0
      requires Fits(es, bitmap.Length)
      modifies this, bitmap
      ensures Valid()
      ensures usableAddr == FirstUsable(es) && blockCount == BlockCount(es)
      ensures BuiltFrom(bitmap[..], es)
      ensures forall b :: 0 <= b < 8 * bitmap.Length ==>
                (IsSet(bitmap[..], b) <==>
                   Reserved(es, b)
                   || (!Cleared(es, b) && (b < Limit() || IsSet(old(bitmap[..]), b))))
    {
      hide IsSet, Cleared, Reserved;
      for i := 0 to |es|
        invariant memSize == TotalUsable(es[..i]) % U64
        invariant usableAddr == 0 && bitmap[..] == old(bitmap[..])
      {
        TotalUsableStep(es, i);
        if es[i].kind == USABLE {
          memSize := (memSize + es[i].length) % U64;
        }
      }
      assert es[..|es|] == es;

      var usableFound := false;
      for i := 0 to |es|
        invariant memSize == TotalUsable(es) % U64 && bitmap[..] == old(bitmap[..])
        invariant usableFound ==> usableAddr == FirstUsable(es)
        invariant !usableFound ==> usableAddr == 0 && forall j :: 0 <= j < i ==> es[j].kind != USABLE
      {
        if es[i].kind == USABLE && !usableFound {
          FirstUsableAt(es, i);
          usableAddr := es[i].base;
          usableFound := true;
        }
      }
      if !usableFound {
        NoUsable(es);
      }
      blockCount := memSize / BLOCK_SIZE;

      FillBitmap();
      ClearUsable(es);
      ReserveBitmap(es);
    }

    /** `memset(pmm_bitmap, 0xFF, pmm_block_count / 8)` */
    method FillBitmap()
      requires Valid()
      modifies bitmap
      ensures forall b :: 0 <= b < 8 * bitmap.Length ==>
                (IsSet(bitmap[..], b) <==> b < Limit() || IsSet(old(bitmap[..]), b))
    {
      FullByte();
      for i := 0 to blockCount / 8
        invariant forall k :: 0 <= k < i ==> bitmap[k] == 0xff
        invariant forall k :: i <= k < bitmap.Length ==> bitmap[k] == old(bitmap[k])
      {
        bitmap[i] := 0xff;
      }
      forall b | 0 <= b < 8 * bitmap.Length
        ensures IsSet(bitmap[..], b) <==> b < Limit() || IsSet(old(bitmap[..]), b)
      {
        assert b < Limit() <==> b / 8 < blockCount / 8;
        assert Bit(0xff, b % 8);
        assert b / 8 < blockCount / 8 ==> bitmap[..][b / 8] == 0xff;
        assert b / 8 >= blockCount / 8 ==> bitmap[..][b / 8] == old(bitmap[..])[b / 8];
      }
    }

    method ClearUsable(es: seq<MemEntry>)
      requires Valid()
      requires forall i :: 0 <= i < |es| && es[i].kind == USABLE ==>
                 es[i].base / BLOCK_SIZE + es[i].Blocks() <= 8 * bitmap.Length
      modifies bitmap
      ensures forall b :: 0 <= b < 8 * bitmap.Length ==>
                (IsSet(bitmap[..], b) <==> !Cleared(es, b) && IsSet(old(bitmap[..]), b))
    {
      for i := 0 to |es|
        invariant forall b :: 0 <= b < 8 * bitmap.Length ==>
                    (IsSet(bitmap[..], b) <==> !Cleared(es[..i], b) && IsSet(old(bitmap[..]), b))
      {
        if es[i].kind == USABLE {
          ClearEntry(es[i]);
        }
        assert forall b: nat :: Cleared(es[..i + 1], b) <==>
                           Cleared(es[..i], b) || (es[i].kind == USABLE && es[i].Reaches(b)) by {
          ClearedStep(es, i);
        }
      }
      assert es[..|es|] == es;
    }

    /** `for (j = 0; j < length; j += BLOCK_SIZE) mmap_unset(addr2block(base + j))` */
    method ClearEntry(e: MemEntry)
      requires e.base / BLOCK_SIZE + e.Blocks() <= 8 * bitmap.Length
      modifies bitmap
      ensures forall b :: 0 <= b < 8 * bitmap.Length ==>
                (IsSet(bitmap[..], b) <==> !e.Reaches(b) && IsSet(old(bitmap[..]), b))
    {
      var j := 0;
      ghost var n := 0;
      while j < e.length
        invariant j == n * BLOCK_SIZE && n <= e.Blocks()
        invariant forall b :: 0 <= b < 8 * bitmap.Length ==>
                    (IsSet(bitmap[..], b) <==>
                       !(e.base / BLOCK_SIZE <= b < e.base / BLOCK_SIZE + n) && IsSet(old(bitmap[..]), b))
        decreases e.length - j
      {
        assert (e.base + j) / BLOCK_SIZE == e.base / BLOCK_SIZE + n;
        MmapUnset((e.base + j) / BLOCK_SIZE);
        j := j + BLOCK_SIZE;
        n := n + 1;
      }
    }

    method ReserveBitmap(ghost es: seq<MemEntry>)
      requires Valid() && usableAddr == FirstUsable(es) && blockCount == BlockCount(es)
      requires forall b: nat :: Reserved(es, b) ==> b < 8 * bitmap.Length
      modifies bitmap
      ensures forall b :: 0 <= b < 8 * bitmap.Length ==>
                (IsSet(bitmap[..], b) <==> Reserved(es, b) || IsSet(old(bitmap[..]), b))
    {
      var first := usableAddr / BLOCK_SIZE;
      for i := 0 to blockCount / 8
        invariant forall b :: 0 <= b < 8 * bitmap.Length ==>
                    (IsSet(bitmap[..], b) <==> first <= b < first + i || IsSet(old(bitmap[..]), b))
      {
        assert Reserved(es, first + i);
        MmapSet(first + i);
      }
    }
  }

  lemma Pow2Below(k: nat, w: nat)
    requires k < w
    ensures Pow2(k) < Pow2(w)
  {
  }

  lemma FullByte()
    ensures forall j :: 0 <= j < 8 ==> Bit(0xff, j)
  {
    Powers();
    forall j | 0 <= j < 8
      ensures Bit(0xff, j)
    {
      NotBit(0, 8, j);
      ZeroBit(j);
    }
  }

  lemma ClearedStep(es: seq<MemEntry>, i: nat)
    requires i < |es|
    ensures forall b: nat :: Cleared(es[..i + 1], b) <==>
                        Cleared(es[..i], b) || (es[i].kind == USABLE && es[i].Reaches(b))
  {
    var more, less := es[..i + 1], es[..i];
    forall b
      ensures Cleared(more, b) <==> Cleared(less, b) || (es[i].kind == USABLE && es[i].Reaches(b))
    {
      if Cleared(less, b) {
        var k :| 0 <= k < |less| && less[k].kind == USABLE && less[k].Reaches(b);
        assert more[k] == less[k];
      }
      if Cleared(more, b) {
        var k :| 0 <= k < |more| && more[k].kind == USABLE && more[k].Reaches(b);
        assert k < i ==> less[k] == more[k];
      }
      if es[i].kind == USABLE && es[i].Reaches(b) {
        assert more[i] == es[i];
      }
    }
  }
}
