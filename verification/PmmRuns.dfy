/** Whole runs of the block allocator: who holds which block, for any interleaving of calls. */
module PmmRuns {
  import opened Bits
  import opened Pmm

  datatype Call = AllocCall | FreeCall(addr: nat)

  /** The bitmap, and the blocks callers were given and have not yet freed. */
  datatype Snapshot = Snapshot(bm: seq<Byte>, held: set<nat>)

  /** Callers free only what they hold. */
  predicate Allowed(s: Snapshot, c: Call) {
    c.FreeCall? ==> c.addr % BLOCK_SIZE == 0 && c.addr / BLOCK_SIZE in s.held
  }

  function Step(s: Snapshot, limit: nat, c: Call): Snapshot
    requires limit <= 8 * |s.bm|
  {
    match c
    case AllocCall =>
      var a := AllocAddr(s.bm, limit);
      Snapshot(AllocBits(s.bm, limit), if a == NULL then s.held else s.held + {a / BLOCK_SIZE})
    case FreeCall(a) =>
      if a / BLOCK_SIZE < 8 * |s.bm|
      then Snapshot(Unmarked(s.bm, a / BLOCK_SIZE), s.held - {a / BLOCK_SIZE})
      else s
  }

  /** The state after the first `k` calls, starting with nothing handed out. */
  function After(bm: seq<Byte>, limit: nat, calls: seq<Call>, k: nat): (s: Snapshot)
    requires limit <= 8 * |bm| && k <= |calls|
    ensures |s.bm| == |bm|
  {
    if k == 0 then Snapshot(bm, {})
    else Step(After(bm, limit, calls, k - 1), limit, calls[k - 1])
  }

  /** Whether the first `k` calls include an allocation. */
  predicate AnyAlloc(calls: seq<Call>, k: nat)
    requires k <= |calls|
  {
    k > 0 && (AnyAlloc(calls, k - 1) || calls[k - 1] == AllocCall)
  }

  /** Each of the first `k` calls was allowed when it was made. */
  predicate AllowedRun(bm: seq<Byte>, limit: nat, calls: seq<Call>, k: nat)
    requires limit <= 8 * |bm| && k <= |calls|
  {
    k > 0 ==> AllowedRun(bm, limit, calls, k - 1) && Allowed(After(bm, limit, calls, k - 1), calls[k - 1])
  }

  /** What the `i`-th call, an allocation, answers. */
  function Answer(bm: seq<Byte>, limit: nat, calls: seq<Call>, i: nat): nat
    requires limit <= 8 * |bm| && i < |calls|
  {
    AllocAddr(After(bm, limit, calls, i).bm, limit)
  }

  lemma AllocMoves(s: Snapshot, limit: nat)
    requires limit <= 8 * |s.bm|
    requires s.held !! FreeBlocks(s.bm, limit) && 0 !in s.held
    ensures var t := Step(s, limit, AllocCall);
            && t.held !! FreeBlocks(t.bm, limit)
            && t.held + FreeBlocks(t.bm, limit) == s.held + FreeBlocks(s.bm, limit) - {0}
            && 0 !in t.held
  {
    AllocTakesLeast(s.bm, limit);
    var a := AllocAddr(s.bm, limit);
    MoveOut(s.held, FreeBlocks(s.bm, limit), a / BLOCK_SIZE);
    var t := Step(s, limit, AllocCall);
    assert t.held == if a / BLOCK_SIZE == 0 then s.held else s.held + {a / BLOCK_SIZE};
  }

  lemma FreeMoves(s: Snapshot, limit: nat, a: nat)
    requires limit <= 8 * |s.bm| && Allowed(s, FreeCall(a))
    requires s.held !! FreeBlocks(s.bm, limit) && 0 !in s.held
    requires a / BLOCK_SIZE < limit
    ensures var t := Step(s, limit, FreeCall(a));
            && t.held !! FreeBlocks(t.bm, limit)
            && t.held + FreeBlocks(t.bm, limit) == s.held + FreeBlocks(s.bm, limit)
            && 0 !in t.held
  {
    UnmarkFrees(s.bm, a / BLOCK_SIZE, limit);
    MoveIn(s.held, FreeBlocks(s.bm, limit), a / BLOCK_SIZE);
  }

  lemma MoveOut(held: set<nat>, free: set<nat>, b: nat)
    requires held !! free && 0 !in held
    requires if free == {} || 0 in free then b == 0 else b in free
    ensures var held' := if b == 0 then held else held + {b};
            held' !! free - {b} && held' + (free - {b}) == held + free - {0}
  {
  }

  lemma MoveIn(held: set<nat>, free: set<nat>, b: nat)
    requires held !! free && b in held
    ensures held - {b} !! free + {b} && held - {b} + (free + {b}) == held + free
  {
  }

  /** The blocks held and the blocks free make up `initial`, less block 0 once it was lost, and
      no block is both. */
  ghost predicate Conserves(s: Snapshot, limit: nat, initial: set<nat>, lost: bool) {
    && s.held !! FreeBlocks(s.bm, limit)
    && s.held + FreeBlocks(s.bm, limit) == initial - (if lost then {0} else {})
    && 0 !in s.held
  }

  lemma ConservesStep(s: Snapshot, limit: nat, initial: set<nat>, lost: bool, c: Call)
    requires limit <= 8 * |s.bm| && Allowed(s, c)
    requires Conserves(s, limit, initial, lost) && forall b :: b in initial ==> b < limit
    ensures Conserves(Step(s, limit, c), limit, initial, lost || c == AllocCall)
  {
    match c
    case AllocCall => AllocMoves(s, limit);
    case FreeCall(a) =>
      assert a / BLOCK_SIZE in initial;
      FreeMoves(s, limit, a);
  }

  lemma StartsConserved(bm: seq<Byte>, limit: nat)
    ensures Conserves(Snapshot(bm, {}), limit, FreeBlocks(bm, limit), false)
  {
  }

  /** Conservation: at any time the blocks held and the blocks free are exactly the blocks that
      were free at the start, and no block is both. The one exception is block 0: its address is
      NULL, so if it was free the first allocation loses it for good. */
  lemma {:induction false} Conservation(bm: seq<Byte>, limit: nat, calls: seq<Call>, k: nat)
    requires limit <= 8 * |bm| && k <= |calls| && AllowedRun(bm, limit, calls, k)
    ensures Conserves(After(bm, limit, calls, k), limit, FreeBlocks(bm, limit), AnyAlloc(calls, k))
  {
    hide Step, Allowed, Conserves;
    if k == 0 {
      assert Conserves(Snapshot(bm, {}), limit, FreeBlocks(bm, limit), false) by {
        StartsConserved(bm, limit);
      }
    } else {
      Conservation(bm, limit, calls, k - 1);
      ConservesStep(After(bm, limit, calls, k - 1), limit, FreeBlocks(bm, limit),
                    AnyAlloc(calls, k - 1), calls[k - 1]);
    }
  }

  /** The count form: every allocation that succeeds and every free moves exactly one block. */
  lemma FreeCount(bm: seq<Byte>, limit: nat, calls: seq<Call>, k: nat)
    requires limit <= 8 * |bm| && k <= |calls| && AllowedRun(bm, limit, calls, k)
    requires 0 !in FreeBlocks(bm, limit)
    ensures var s := After(bm, limit, calls, k);
            |s.held| + |FreeBlocks(s.bm, limit)| == |FreeBlocks(bm, limit)|
  {
    Conservation(bm, limit, calls, k);
    var s := After(bm, limit, calls, k);
    assert FreeBlocks(bm, limit) - {0} == FreeBlocks(bm, limit);
    assert |s.held + FreeBlocks(s.bm, limit)| == |s.held| + |FreeBlocks(s.bm, limit)|;
  }

  lemma IsHeld(s: Snapshot, limit: nat)
    requires limit <= 8 * |s.bm| && AllocAddr(s.bm, limit) != NULL
    ensures AllocAddr(s.bm, limit) / BLOCK_SIZE in Step(s, limit, AllocCall).held
  {
  }

  lemma StaysHeld(s: Snapshot, limit: nat, c: Call, a: nat)
    requires limit <= 8 * |s.bm| && Allowed(s, c)
    requires a % BLOCK_SIZE == 0 && a / BLOCK_SIZE in s.held && c != FreeCall(a)
    ensures a / BLOCK_SIZE in Step(s, limit, c).held
  {
    if c.FreeCall? {
      assert c.addr == c.addr / BLOCK_SIZE * BLOCK_SIZE && a == a / BLOCK_SIZE * BLOCK_SIZE;
    }
  }

  /** A block handed out stays held until the call that frees it. */
  lemma {:induction false} HeldUntilFreed(bm: seq<Byte>, limit: nat, calls: seq<Call>, i: nat, j: nat)
    requires limit <= 8 * |bm| && i < j <= |calls| && AllowedRun(bm, limit, calls, j)
    requires calls[i] == AllocCall && Answer(bm, limit, calls, i) != NULL
    requires forall k :: i < k < j ==> calls[k] != FreeCall(Answer(bm, limit, calls, i))
    ensures Answer(bm, limit, calls, i) / BLOCK_SIZE in After(bm, limit, calls, j).held
    decreases j
  {
    hide Step, Allowed, AllocAddr;
    if i + 1 == j {
      IsHeld(After(bm, limit, calls, i), limit);
    } else {
      HeldUntilFreed(bm, limit, calls, i, j - 1);
      StaysHeld(After(bm, limit, calls, j - 1), limit, calls[j - 1], Answer(bm, limit, calls, i));
    }
  }

  /** No block is handed out twice without being freed in between. */
  lemma NoDoubleHandout(bm: seq<Byte>, limit: nat, calls: seq<Call>, i: nat, j: nat)
    requires limit <= 8 * |bm| && i < j < |calls| && AllowedRun(bm, limit, calls, j)
    requires calls[i] == AllocCall && calls[j] == AllocCall
    requires Answer(bm, limit, calls, i) == Answer(bm, limit, calls, j) != NULL
    ensures exists k :: i < k < j && calls[k] == FreeCall(Answer(bm, limit, calls, i))
  {
    var a := Answer(bm, limit, calls, i);
    Conservation(bm, limit, calls, j);
    AllocTakesLeast(After(bm, limit, calls, j).bm, limit);
    if forall k :: i < k < j ==> calls[k] != FreeCall(a) {
      HeldUntilFreed(bm, limit, calls, i, j);
      assert false;
    }
  }

  lemma AllocTakes(s: Snapshot, limit: nat, b: nat)
    requires limit <= 8 * |s.bm|
    requires b !in FreeBlocks(s.bm, limit)
             || (AllocAddr(s.bm, limit) != NULL && b <= AllocAddr(s.bm, limit) / BLOCK_SIZE)
    ensures b !in FreeBlocks(Step(s, limit, AllocCall).bm, limit)
  {
    AllocTakesLeast(s.bm, limit);
  }

  /** First fit leaves everything below an answer taken, and it stays taken while nothing is freed. */
  lemma {:induction false} TakenBelow(bm: seq<Byte>, limit: nat, calls: seq<Call>, i: nat, j: nat, b: nat)
    requires limit <= 8 * |bm| && i < j <= |calls|
    requires forall k :: i <= k < j ==> calls[k] == AllocCall
    requires Answer(bm, limit, calls, i) != NULL && b <= Answer(bm, limit, calls, i) / BLOCK_SIZE
    ensures b !in FreeBlocks(After(bm, limit, calls, j).bm, limit)
    decreases j
  {
    hide Step, AllocAddr, FreeBlocks;
    if i + 1 < j {
      TakenBelow(bm, limit, calls, i, j - 1, b);
    }
    AllocTakes(After(bm, limit, calls, j - 1), limit, b);
  }

  /** Allocations with no free between them answer strictly increasing addresses. */
  lemma IncreasingAnswers(bm: seq<Byte>, limit: nat, calls: seq<Call>, i: nat, j: nat)
    requires limit <= 8 * |bm| && i < j < |calls|
    requires forall k :: i <= k <= j ==> calls[k] == AllocCall
    requires Answer(bm, limit, calls, j) != NULL
    ensures Answer(bm, limit, calls, i) < Answer(bm, limit, calls, j)
  {
    var a, a' := Answer(bm, limit, calls, i), Answer(bm, limit, calls, j);
    AllocTakesLeast(After(bm, limit, calls, i).bm, limit);
    AllocTakesLeast(After(bm, limit, calls, j).bm, limit);
    if NULL != a >= a' {
      TakenBelow(bm, limit, calls, i, j, a' / BLOCK_SIZE);
      assert false;
    }
  }

  // ------------------------------------------------------------------
  // Runs that start from the bitmap the memory map builds
  // ------------------------------------------------------------------

  /** The memory-map entries a boot loader promises: whole pages for usable memory. */
  predicate PageAligned(es: seq<MemEntry>) {
    forall i :: 0 <= i < |es| && es[i].kind == USABLE ==>
      es[i].base % BLOCK_SIZE == 0 && es[i].length % BLOCK_SIZE == 0
  }

  predicate Sorted(es: seq<MemEntry>) {
    forall i, j :: 0 <= i < j < |es| ==> es[i].base <= es[j].base
  }

  /** Block `b` lies wholly inside the entry. */
  predicate Inside(e: MemEntry, b: nat) {
    e.base <= b * BLOCK_SIZE && (b + 1) * BLOCK_SIZE <= e.base + e.length
  }

  /** Block `b` shares at least one byte with the entry. */
  predicate Touches(e: MemEntry, b: nat) {
    b * BLOCK_SIZE < e.base + e.length && e.base < (b + 1) * BLOCK_SIZE
  }

  /** The loop frees only memory the entry owns exactly when the entry is made of whole pages. */
  lemma ReachesInsideIff(e: MemEntry)
    requires e.length > 0
    ensures (forall b: nat :: e.Reaches(b) ==> Inside(e, b))
            <==> e.base % BLOCK_SIZE == 0 && e.length % BLOCK_SIZE == 0
  {
    var first := e.base / BLOCK_SIZE;
    var last := first + e.Blocks() - 1;
    assert e.Reaches(first) && e.Reaches(last);
    if e.base % BLOCK_SIZE == 0 && e.length % BLOCK_SIZE == 0 {
      forall b: nat | e.Reaches(b)
        ensures Inside(e, b)
      {
      }
    } else if e.base % BLOCK_SIZE != 0 {
      assert !Inside(e, first);
    } else {
      assert !Inside(e, last);
    }
  }

  /** The loop reaches every block the entry touches exactly when the two page offsets do not
      carry; otherwise the last block is left out. */
  lemma ReachesAllIff(e: MemEntry)
    requires e.length > 0
    ensures (forall b: nat :: Touches(e, b) ==> e.Reaches(b))
            <==> e.base % BLOCK_SIZE + (e.length - 1) % BLOCK_SIZE < BLOCK_SIZE
  {
    var last := (e.base + e.length - 1) / BLOCK_SIZE;
    assert Touches(e, last);
    assert e.Blocks() == (e.length - 1) / BLOCK_SIZE + 1;
    if e.base % BLOCK_SIZE + (e.length - 1) % BLOCK_SIZE < BLOCK_SIZE {
      assert last == e.base / BLOCK_SIZE + (e.length - 1) / BLOCK_SIZE;
      forall b: nat | Touches(e, b)
        ensures e.Reaches(b)
      {
      }
    } else {
      assert !e.Reaches(last);
    }
  }

  /** With a sorted memory map block 0 is never free, so a NULL answer always means exhaustion. */
  lemma Block0Taken(bm: seq<Byte>, es: seq<MemEntry>)
    requires BuiltFrom(bm, es) && Sorted(es)
    ensures 0 !in FreeBlocks(bm, SearchLimit(es))
  {
    if 0 < SearchLimit(es) && Cleared(es, 0) {
      var i :| 0 <= i < |es| && es[i].kind == USABLE && es[i].Reaches(0);
      FirstUsableLeast(es, i);
    }
  }

  lemma {:induction false} FirstUsableLeast(es: seq<MemEntry>, i: nat)
    requires i < |es| && es[i].kind == USABLE && Sorted(es)
    ensures FirstUsable(es) <= es[i].base
  {
    if es[0].kind != USABLE {
      FirstUsableLeast(es[1..], i - 1);
    }
  }

  /** Everything ever held after start-up lies inside usable memory, inside the searched prefix
      and outside the run reserved for the bitmap; with block 0 taken nothing is ever lost. */
  lemma AllocatorSafety(bm: seq<Byte>, es: seq<MemEntry>, calls: seq<Call>, k: nat)
    requires BuiltFrom(bm, es) && Sorted(es) && PageAligned(es)
    requires k <= |calls| && AllowedRun(bm, SearchLimit(es), calls, k)
    ensures Conserves(After(bm, SearchLimit(es), calls, k), SearchLimit(es), FreeBlocks(bm, SearchLimit(es)), false)
    ensures var s := After(bm, SearchLimit(es), calls, k);
            && (forall b :: b in s.held ==>
                  && 0 < b < SearchLimit(es) && !Reserved(es, b)
                  && exists i :: 0 <= i < |es| && es[i].kind == USABLE && Inside(es[i], b))
  {
    var limit := SearchLimit(es);
    Conservation(bm, limit, calls, k);
    Block0Taken(bm, es);
    var s := After(bm, limit, calls, k);
    forall b | b in s.held
      ensures 0 < b < limit && !Reserved(es, b)
      ensures exists i :: 0 <= i < |es| && es[i].kind == USABLE && Inside(es[i], b)
    {
      assert b in FreeBlocks(bm, limit);
      var i :| 0 <= i < |es| && es[i].kind == USABLE && es[i].Reaches(b);
      ReachesInsideIff(es[i]);
      assert Inside(es[i], b);
    }
  }

  /** The blocks to allocate from: in a usable entry, outside the reservation, within the search. */
  function Spare(es: seq<MemEntry>): set<nat> {
    set b | 0 <= b < SearchLimit(es) && Cleared(es, b) && !Reserved(es, b)
  }

  lemma SpareBlocks(bm: seq<Byte>, es: seq<MemEntry>)
    requires BuiltFrom(bm, es)
    ensures FreeBlocks(bm, SearchLimit(es)) == Spare(es)
  {
    hide IsSet, Cleared, Reserved;
  }

  /** Some sequence of calls leaves block `b` handed out. */
  ghost predicate CanBeHeld(bm: seq<Byte>, limit: nat, b: nat)
    requires limit <= 8 * |bm|
  {
    exists calls: seq<Call>, k: nat ::
      k <= |calls| && AllowedRun(bm, limit, calls, k) && b in After(bm, limit, calls, k).held
  }

  /** Allocating until nothing is left. */
  lemma {:induction false} AllocAll(bm: seq<Byte>, limit: nat, calls: seq<Call>, k: nat)
    requires limit <= 8 * |bm| && k <= |calls| && forall i :: 0 <= i < |calls| ==> calls[i] == AllocCall
    requires k <= |FreeBlocks(bm, limit)|
    ensures AllowedRun(bm, limit, calls, k)
    ensures |FreeBlocks(After(bm, limit, calls, k).bm, limit)| == |FreeBlocks(bm, limit)| - k
  {
    hide AllocAddr, AllocBits, FreeBlocks;
    if k > 0 {
      AllocAll(bm, limit, calls, k - 1);
      AllocTakesLeast(After(bm, limit, calls, k - 1).bm, limit);
    }
  }

  /** Every free block can be handed out, and no other block ever is. */
  lemma HeldIff(bm: seq<Byte>, limit: nat, b: nat)
    requires limit <= 8 * |bm| && 0 !in FreeBlocks(bm, limit)
    ensures CanBeHeld(bm, limit, b) <==> b in FreeBlocks(bm, limit)
  {
    hide AllowedRun, After, FreeBlocks;
    var free := FreeBlocks(bm, limit);
    if calls: seq<Call>, k: nat :| k <= |calls| && AllowedRun(bm, limit, calls, k)
                                   && b in After(bm, limit, calls, k).held {
      Conservation(bm, limit, calls, k);
    }
    if b in free {
      var calls := seq(|free|, _ => AllocCall);
      AllocAll(bm, limit, calls, |free|);
      Conservation(bm, limit, calls, |free|);
      assert b in After(bm, limit, calls, |free|).held;
    }
  }

  /** The search covers only as many blocks as usable memory has in total. Of the memory map, what
      can ever be handed out is exactly the usable memory below that number and not reserved. */
  lemma HandedOutIff(bm: seq<Byte>, es: seq<MemEntry>, b: nat)
    requires BuiltFrom(bm, es) && Sorted(es)
    ensures CanBeHeld(bm, SearchLimit(es), b) <==> b < SearchLimit(es) && Cleared(es, b) && !Reserved(es, b)
  {
    hide CanBeHeld, Cleared, Reserved, BuiltFrom, IsSet;
    FitsLimit(bm, es);
    Block0Taken(bm, es);
    SpareBlocks(bm, es);
    HeldIff(bm, SearchLimit(es), b);
  }

  lemma FitsLimit(bm: seq<Byte>, es: seq<MemEntry>)
    requires BuiltFrom(bm, es)
    ensures SearchLimit(es) <= 8 * |bm|
  {
  }

  /** The byte holding bit `b`, as a physical block: the bitmap starts at the first usable address. */
  function StorageBlock(es: seq<MemEntry>, b: nat): nat {
    (FirstUsable(es) + b / 8) / BLOCK_SIZE
  }

  /** `count / 8` blocks, not bytes, are reserved, so the bitmap has room for 32768 bits per
      reserved block. The byte of bit `b` is inside the reservation exactly below that bound. */
  lemma StorageReservedIff(es: seq<MemEntry>, b: nat)
    requires FirstUsable(es) % BLOCK_SIZE == 0
    ensures Reserved(es, StorageBlock(es, b)) <==> b < 32768 * (BlockCount(es) / 8)
  {
    assert b / 8 / BLOCK_SIZE == b / 32768;
    assert StorageBlock(es, b) == FirstUsable(es) / BLOCK_SIZE + b / 8 / BLOCK_SIZE;
  }

  lemma {:induction false} FirstUsableAligned(es: seq<MemEntry>)
    requires PageAligned(es)
    ensures FirstUsable(es) % BLOCK_SIZE == 0
  {
    if es != [] && es[0].kind != USABLE {
      FirstUsableAligned(es[1..]);
    }
  }

  /** No block ever handed out overlaps the storage of a bit the search can read. */
  lemma BitmapNeverHandedOut(bm: seq<Byte>, es: seq<MemEntry>, calls: seq<Call>, k: nat, b: nat)
    requires BuiltFrom(bm, es) && Sorted(es) && PageAligned(es)
    requires k <= |calls| && AllowedRun(bm, SearchLimit(es), calls, k)
    requires b < 32768 * (BlockCount(es) / 8)
    ensures StorageBlock(es, b) !in After(bm, SearchLimit(es), calls, k).held
  {
    FirstUsableAligned(es);
    StorageReservedIff(es, b);
    AllocatorSafety(bm, es, calls, k);
  }
}
