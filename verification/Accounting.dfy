/** How many tables a set of pages needs: one per distinct address prefix at each level. */
module Accounting {
  import opened Paging

  /** Pages covered by one table of a level. */
  function Span(level: nat): nat
    requires 1 <= level <= 3
  {
    if level == 1 then 0x200 else if level == 2 then 0x4_0000 else 0x800_0000
  }

  /** The distinct prefixes of `pages` at a level: the distinct `va >> 21`, `va >> 30` or `va >> 39`. */
  function Prefixes(pages: set<nat>, level: nat): set<nat>
    requires 1 <= level <= 3
  {
    set q | q in pages :: q / Span(level)
  }

  /** The tables below the root that translating the pages goes through. */
  function NodesFor(pages: set<nat>): set<Node> {
    Tagged(Prefixes(pages, 3), 3) + Tagged(Prefixes(pages, 2), 2) + Tagged(Prefixes(pages, 1), 1)
  }

  lemma PathIsNodes(va: nat)
    ensures PathOf(va) == NodesFor({PageNo(va)})
  {
    PrefixByPage(va);
    var q := PageNo(va);
    assert Prefixes({q}, 3) == {q / Span(3)};
    assert Prefixes({q}, 2) == {q / Span(2)};
    assert Prefixes({q}, 1) == {q / Span(1)};
  }

  lemma PrefixByPage(va: nat)
    ensures Prefix(va, 3) == PageNo(va) / Span(3)
    ensures Prefix(va, 2) == PageNo(va) / Span(2)
    ensures Prefix(va, 1) == PageNo(va) / Span(1)
  {
    PrefixStep(va, 1);
    PrefixStep(va, 2);
    PrefixStep(va, 3);
  }

  lemma NodesForUnion(a: set<nat>, b: set<nat>)
    ensures NodesFor(a + b) == NodesFor(a) + NodesFor(b)
  {
    assert Prefixes(a + b, 3) == Prefixes(a, 3) + Prefixes(b, 3);
    assert Prefixes(a + b, 2) == Prefixes(a, 2) + Prefixes(b, 2);
    assert Prefixes(a + b, 1) == Prefixes(a, 1) + Prefixes(b, 1);
  }

  function Tagged(ps: set<nat>, level: nat): set<Node> {
    set p | p in ps :: Node(level, p)
  }

  lemma {:induction false} TagCount(ps: set<nat>, level: nat)
    ensures |Tagged(ps, level)| == |ps|
  {
    if ps == {} {
      assert Tagged(ps, level) == {};
    } else {
      var p :| p in ps;
      TagCount(ps - {p}, level);
      AddTag(ps - {p}, level, p);
      assert ps - {p} + {p} == ps;
    }
  }

  lemma AddTag(ps: set<nat>, level: nat, p: nat)
    requires p !in ps
    ensures Tagged(ps + {p}, level) == Tagged(ps, level) + {Node(level, p)}
    ensures Node(level, p) !in Tagged(ps, level)
  {
  }

  /** The number of tables is the number of distinct prefixes, level by level. */
  lemma TableCount(pages: set<nat>)
    ensures |NodesFor(pages)| == |Prefixes(pages, 3)| + |Prefixes(pages, 2)| + |Prefixes(pages, 1)|
    ensures ROOT !in NodesFor(pages)
  {
    var n3, n2, n1 := Tagged(Prefixes(pages, 3), 3), Tagged(Prefixes(pages, 2), 2), Tagged(Prefixes(pages, 1), 1);
    TagCount(Prefixes(pages, 3), 3);
    TagCount(Prefixes(pages, 2), 2);
    TagCount(Prefixes(pages, 1), 1);
    assert |n3 + n2| == |n3| + |n2|;
    assert |n3 + n2 + n1| == |n3 + n2| + |n1|;
  }

  function Interval(first: nat, n: nat): (r: set<nat>)
    ensures forall q :: q in r <==> first <= q < first + n
    ensures |r| == n
  {
    if n == 0 then {} else Interval(first, n - 1) + {first + n - 1}
  }

  /** The prefixes of a contiguous run of pages are themselves contiguous. */
  lemma RangePrefixes(first: nat, n: nat, level: nat)
    requires n > 0 && 1 <= level <= 3
    ensures Prefixes(Interval(first, n), level)
            == Interval(first / Span(level), (first + n - 1) / Span(level) - first / Span(level) + 1)
  {
    var d := Span(level);
    var low, high := first / d, (first + n - 1) / d;
    forall p | p in Interval(low, high - low + 1)
      ensures p in Prefixes(Interval(first, n), level)
    {
      var q := if p == low then first else p * d;
      assert q in Interval(first, n) && q / d == p;
    }
  }

  /** How many tables of a level a contiguous run of pages needs. */
  function RunTables(first: nat, n: nat, level: nat): int
    requires 1 <= level <= 3
  {
    (first + n - 1) / Span(level) - first / Span(level) + 1
  }

  lemma LevelCount(first: nat, n: nat, level: nat)
    requires n > 0 && 1 <= level <= 3
    ensures |Prefixes(Interval(first, n), level)| == RunTables(first, n, level)
  {
    RangePrefixes(first, n, level);
  }

  /** Closed form for a contiguous run of `n` pages. */
  lemma RangeTableCount(first: nat, n: nat)
    requires n > 0
    ensures |NodesFor(Interval(first, n))|
            == RunTables(first, n, 3) + RunTables(first, n, 2) + RunTables(first, n, 1)
  {
    hide RunTables, NodesFor, Prefixes, Interval;
    TableCount(Interval(first, n));
    LevelCount(first, n, 3);
    LevelCount(first, n, 2);
    LevelCount(first, n, 1);
  }
}
