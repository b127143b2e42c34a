/** How many blocks there are: the counts `pmm_init` takes from the memory map. */
module PmmCount {
  import opened Bits
  import opened Pmm
  import opened PmmRuns
  import opened Accounting

  /** The blocks of usable memory. */
  function UsableBlocks(es: seq<MemEntry>): (r: set<nat>)
    ensures forall b: nat :: b in r <==> Cleared(es, b)
  {
    if es == [] then {}
    else
      var n := |es| - 1;
      assert es[..n + 1] == es;
      ClearedStep(es, n);
      UsableBlocks(es[..n]) + if es[n].kind == 0 then Interval(es[n].base / 4096, es[n].Blocks()) else {}
  }

  /** No two usable entries share a byte. */
  predicate Disjoint(es: seq<MemEntry>) {
    forall i, j :: 0 <= i < j < |es| && es[i].kind == 0 && es[j].kind == 0 ==>
      es[i].base + es[i].length <= es[j].base || es[j].base + es[j].length <= es[i].base
  }

  /** Pages of one entry are not pages of another. */
  lemma ApartBlocks(e: MemEntry, f: MemEntry, b: nat)
    requires e.base % 4096 == 0 && e.length % 4096 == 0 && f.base % 4096 == 0 && f.length % 4096 == 0
    requires e.base + e.length <= f.base || f.base + f.length <= e.base
    ensures !(e.Reaches(b) && f.Reaches(b))
  {
    assert e.Blocks() == e.length / 4096 && f.Blocks() == f.length / 4096;
  }

  /** The bytes counted are the blocks of usable memory, for whole-page entries that do not overlap. */
  lemma {:induction false} UsableCount(es: seq<MemEntry>)
    requires PageAligned(es) && Disjoint(es)
    ensures TotalUsable(es) == 4096 * |UsableBlocks(es)|
    decreases |es|
  {
    if es != [] {
      var n := |es| - 1;
      assert PageAligned(es[..n]) && Disjoint(es[..n]);
      UsableCount(es[..n]);
      if es[n].kind == 0 {
        EntryCount(es, n);
      }
    }
  }

  lemma EntryCount(es: seq<MemEntry>, n: nat)
    requires PageAligned(es) && Disjoint(es) && n < |es| && es[n].kind == 0
    ensures var last := Interval(es[n].base / 4096, es[n].Blocks());
            4096 * |UsableBlocks(es[..n]) + last| == 4096 * |UsableBlocks(es[..n])| + es[n].length
  {
    hide Cleared, PageAligned, Disjoint;
    WholePages(es, n);
    var before, last := UsableBlocks(es[..n]), Interval(es[n].base / 4096, es[n].Blocks());
    forall b | b in last
      ensures b !in before
    {
      NotClearedBefore(es, n, b);
    }
    assert |before + last| == |before| + |last|;
  }

  lemma WholePages(es: seq<MemEntry>, n: nat)
    requires PageAligned(es) && n < |es| && es[n].kind == 0
    ensures es[n].base % 4096 == 0 && es[n].length % 4096 == 0 && 4096 * es[n].Blocks() == es[n].length
  {
  }

  lemma NotClearedBefore(es: seq<MemEntry>, n: nat, b: nat)
    requires PageAligned(es) && Disjoint(es) && n < |es| && es[n].kind == 0 && es[n].Reaches(b)
    ensures !Cleared(es[..n], b)
  {
    hide MemEntry.Reaches;
    forall i | 0 <= i < n && es[..n][i].kind == 0
      ensures !es[..n][i].Reaches(b)
    {
      ApartBlocks(es[i], es[n], b);
    }
  }

  /** The search covers as many blocks as the memory map has usable bytes for, down to a multiple of
      eight, and the reservation has one block for every eight of them. */
  lemma SearchBounds(es: seq<MemEntry>)
    requires TotalUsable(es) < U64
    ensures SearchLimit(es) % 8 == 0
    ensures SearchLimit(es) * 4096 <= TotalUsable(es) < (SearchLimit(es) + 8) * 4096
    ensures forall b: nat :: Reserved(es, b) <==>
              FirstUsable(es) / 4096 <= b < FirstUsable(es) / 4096 + SearchLimit(es) / 8
  {
  }

  /** With whole pages and no overlap these are numbers of blocks: the search limit is the number of
      usable blocks rounded down to a multiple of eight. */
  lemma SearchLimitIsCount(es: seq<MemEntry>)
    requires PageAligned(es) && Disjoint(es) && TotalUsable(es) < U64
    ensures SearchLimit(es) <= |UsableBlocks(es)| < SearchLimit(es) + 8
    ensures SearchLimit(es) % 8 == 0
  {
    UsableCount(es);
    SearchBounds(es);
  }

  /** The first usable entry is where the bitmap goes. */
  lemma BitmapStart(es: seq<MemEntry>, i: nat)
    requires i < |es| && es[i].kind == 0 && forall j :: 0 <= j < i ==> es[j].kind != 0
    ensures FirstUsable(es) == es[i].base
    ensures forall b: nat :: Reserved(es, b) <==> es[i].base / 4096 <= b < es[i].base / 4096 + SearchLimit(es) / 8
  {
    FirstUsableAt(es, i);
  }
}
