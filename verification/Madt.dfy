/** Interrupt-routing discovery (kern/sys/acpi/apic.c): the MADT parser and the GSI lookup.

    ACPI Specification 6.x, section 5.2.12: a 44-byte header and variable-length records, each
    starting with a type and a length byte.
  */
module Madt {
  import opened Bits

  const FIRST_RECORD := 44
  const MAX_ICS := 64

  const CPU := 0
  const IOAPIC := 1
  const OVERRIDE := 2

  /** An entry of `ics_array`. Addresses are offsets from the start of the table. */
  datatype Ics = Ics(address: nat, kind: Byte, apicId: Byte, present: bool)

  const NO_ICS := Ics(0, 0, 0, false)

  function Read32(m: seq<Byte>, at: nat): Word32
    requires at + 4 <= |m|
  {
    var b0: nat, b1: nat, b2: nat, b3: nat := m[at], m[at + 1], m[at + 2], m[at + 3];
    b0 + 0x100 * b1 + 0x1_0000 * b2 + 0x100_0000 * b3
  }

  /** Conversion to a 32-bit `int`. */
  function ToInt32(x: int): (r: int)
    ensures -0x8000_0000 <= r < 0x8000_0000
    ensures (r - x) % U32 == 0
  {
    var y := x % U32;
    if y < 0x8000_0000 then y else y - U32
  }

  /** The bytes of records announced by the header: `header.length - sizeof(madt_t) + 2`, as an `int`. */
  function Announced(m: seq<Byte>): int
    requires |m| >= FIRST_RECORD
  {
    ToInt32(Read32(m, 4) - FIRST_RECORD)
  }

  // ------------------------------------------------------------------
  // The parser as a function of the bytes
  // ------------------------------------------------------------------

  /** Every record reached has a length byte that is not zero and, for the kinds that are looked
      into, its fields in memory. */
  predicate WellFormed(m: seq<Byte>, cur: nat, length: int)
    decreases length
  {
    length > 0 ==>
      && cur + 2 <= |m|
      && m[cur + 1] > 0
      && (m[cur] <= OVERRIDE ==> cur + 8 <= |m|)
      && WellFormed(m, cur + m[cur + 1], length - m[cur + 1])
  }

  /** What is kept of the record at `cur`: enabled processors, I/O APICs and overrides. */
  function Keep(m: seq<Byte>, cur: nat): seq<Ics>
    requires cur + 2 <= |m| && (m[cur] <= OVERRIDE ==> cur + 8 <= |m|)
  {
    if m[cur] == CPU then
      if Read32(m, cur + 4) == 0 then [] else [Ics(cur, CPU, m[cur + 3], true)]
    else if m[cur] == IOAPIC || m[cur] == OVERRIDE then [Ics(cur, m[cur], 0, false)]
    else []
  }

  function Kept(m: seq<Byte>, cur: nat, length: int): seq<Ics>
    requires WellFormed(m, cur, length)
    decreases length
  {
    if length <= 0 then []
    else Keep(m, cur) + Kept(m, cur + m[cur + 1], length - m[cur + 1])
  }

  /** The address in the last I/O APIC record, or `io` when there is none. */
  function LastIoapic(m: seq<Byte>, cur: nat, length: int, io: nat): nat
    requires WellFormed(m, cur, length)
    decreases length
  {
    if length <= 0 then io
    else LastIoapic(m, cur + m[cur + 1], length - m[cur + 1],
                    if m[cur] == IOAPIC then Read32(m, cur + 4) else io)
  }

  /** The lookup in a list of kept entries: the first override of the pin, else the pin itself. */
  function Route(m: seq<Byte>, ics: seq<Ics>, pin: int): int
    requires forall e :: e in ics && e.kind == OVERRIDE ==> e.address + 8 <= |m|
  {
    if ics == [] then pin
    else if ics[0].kind == OVERRIDE && m[ics[0].address + 3] == pin then ToInt32(Read32(m, ics[0].address + 4))
    else Route(m, ics[1..], pin)
  }

  lemma {:induction false} KeptInside(m: seq<Byte>, cur: nat, length: int)
    requires WellFormed(m, cur, length)
    ensures forall e :: e in Kept(m, cur, length) ==> e.address + 8 <= |m|
    decreases length
  {
    if length > 0 {
      KeptInside(m, cur + m[cur + 1], length - m[cur + 1]);
    }
  }

  /** Where the parser stands in the list of kept entries before and after one record. */
  lemma KeptStep(m: seq<Byte>, cur: nat, length: int, kept: seq<Ics>, i: nat)
    requires length > 0 && WellFormed(m, cur, length) && i <= |kept| && kept[i..] == Kept(m, cur, length)
    ensures var keep, rest := Keep(m, cur), Kept(m, cur + m[cur + 1], length - m[cur + 1]);
            && i + |keep| <= |kept| && kept[i + |keep|..] == rest
            && kept[..i + |keep|] == kept[..i] + keep
  {
    var keep, rest := Keep(m, cur), Kept(m, cur + m[cur + 1], length - m[cur + 1]);
    assert kept[i..] == keep + rest;
    assert kept[i + |keep|..] == kept[i..][|keep|..];
    assert kept[..i + |keep|] == kept[..i] + kept[i..][..|keep|];
  }

  /** Empty slots after the kept entries do not take part in the lookup. */
  lemma {:induction false} RouteSkipsEmpty(m: seq<Byte>, ics: seq<Ics>, n: nat, pin: int)
    requires forall e :: e in ics && e.kind == OVERRIDE ==> e.address + 8 <= |m|
    requires n <= |ics| && forall k :: n <= k < |ics| ==> ics[k].kind != OVERRIDE
    ensures Route(m, ics, pin) == Route(m, ics[..n], pin)
  {
    if ics != [] {
      if n == 0 {
        RouteSkipsEmpty(m, ics[1..], 0, pin);
      } else {
        RouteSkipsEmpty(m, ics[1..], n - 1, pin);
        assert ics[..n][1..] == ics[1..][..n - 1];
      }
    }
  }

  lemma {:induction false} RouteStep(m: seq<Byte>, ics: seq<Ics>, i: nat, pin: int)
    requires forall e :: e in ics && e.kind == OVERRIDE ==> e.address + 8 <= |m|
    requires i <= |ics|
    requires forall k :: 0 <= k < i ==> !(ics[k].kind == OVERRIDE && m[ics[k].address + 3] == pin)
    ensures Route(m, ics, pin) == Route(m, ics[i..], pin)
  {
    if i > 0 {
      assert ics[1..][i - 1..] == ics[i..];
      RouteStep(m, ics[1..], i - 1, pin);
    }
  }

  // ------------------------------------------------------------------
  // Termination and overrun
  // ------------------------------------------------------------------

  /** Where the parser stands: cursor, bytes left, next index of the array. */
  datatype Position = At(cur: nat, length: int, i: nat)

  /** One turn of the parser's loop. */
  function Turn(m: seq<Byte>, p: Position): Position
    requires p.length > 0 && p.cur + 2 <= |m| && (m[p.cur] <= OVERRIDE ==> p.cur + 8 <= |m|)
  {
    At(p.cur + m[p.cur + 1], p.length - m[p.cur + 1], p.i + |Keep(m, p.cur)|)
  }

  /** What the parser reads of every record it reaches is in memory. */
  predicate Readable(m: seq<Byte>, cur: nat, length: int)
    decreases length
  {
    length > 0 ==>
      && cur + 2 <= |m|
      && (m[cur] <= OVERRIDE ==> cur + 8 <= |m|)
      && (m[cur + 1] > 0 ==> Readable(m, cur + m[cur + 1], length - m[cur + 1]))
  }

  /** Where the parser stands after `n` turns, or where it stopped before that. */
  function After(m: seq<Byte>, p: Position, n: nat): Position
    requires Readable(m, p.cur, p.length)
    decreases n
  {
    if n == 0 || p.length <= 0 then p
    else
      var next := Turn(m, p);
      After(m, next, n - 1)
  }

  /** The parser's loop ends. */
  ghost predicate Terminates(m: seq<Byte>, p: Position)
    requires Readable(m, p.cur, p.length)
  {
    exists n: nat :: After(m, p, n).length <= 0
  }

  /** The array index stays within `bound`. */
  ghost predicate IndexWithin(m: seq<Byte>, p: Position, bound: nat)
    requires Readable(m, p.cur, p.length)
  {
    forall n: nat :: After(m, p, n).i <= bound
  }

  lemma WellFormedReadable(m: seq<Byte>, cur: nat, length: int)
    requires WellFormed(m, cur, length)
    ensures Readable(m, cur, length)
    decreases length
  {
  }

  /** Over well-formed records the loop ends with all that is to be kept stored, and never goes beyond. */
  lemma {:induction false} Ends(m: seq<Byte>, p: Position) returns (n: nat)
    requires WellFormed(m, p.cur, p.length) && Readable(m, p.cur, p.length)
    ensures After(m, p, n).length <= 0
    ensures After(m, p, n).i == p.i + |Kept(m, p.cur, p.length)|
    decreases p.length
  {
    n := 0;
    if p.length > 0 {
      n := Ends(m, Turn(m, p));
      n := n + 1;
    }
  }

  lemma {:induction false} KeptBounds(m: seq<Byte>, p: Position, n: nat)
    requires WellFormed(m, p.cur, p.length) && Readable(m, p.cur, p.length)
    ensures After(m, p, n).i <= p.i + |Kept(m, p.cur, p.length)|
    decreases n
  {
    hide Keep;
    if n > 0 && p.length > 0 {
      KeptBounds(m, Turn(m, p), n - 1);
    }
  }

  /** The first record of length 0 the parser reaches, and the index it has there. */
  function Stuck(m: seq<Byte>, p: Position): (s: Position)
    requires Readable(m, p.cur, p.length) && !WellFormed(m, p.cur, p.length)
    ensures s.length > 0 && s.cur + 2 <= |m| && m[s.cur + 1] == 0
    ensures m[s.cur] <= OVERRIDE ==> s.cur + 8 <= |m|
    decreases p.length
  {
    if m[p.cur + 1] == 0 then p else Stuck(m, Turn(m, p))
  }

  /** The position `k` turns after that: only the index has moved. */
  function StuckFor(m: seq<Byte>, p: Position, k: nat): Position
    requires Readable(m, p.cur, p.length) && !WellFormed(m, p.cur, p.length)
  {
    var s := Stuck(m, p);
    At(s.cur, s.length, s.i + k * |Keep(m, s.cur)|)
  }

  lemma {:induction false} StaysStuck(m: seq<Byte>, p: Position, n: nat)
    requires Readable(m, p.cur, p.length) && p.length > 0 && m[p.cur + 1] == 0
    ensures After(m, p, n) == StuckFor(m, p, n)
    decreases n
  {
    if n > 0 {
      StaysStuck(m, Turn(m, p), n - 1);
      assert n * |Keep(m, p.cur)| == |Keep(m, p.cur)| + (n - 1) * |Keep(m, p.cur)|;
    }
  }

  /** Otherwise the parser comes to a record of length 0 and from then on only the index moves. */
  lemma {:induction false} GetsStuck(m: seq<Byte>, p: Position) returns (n: nat)
    requires Readable(m, p.cur, p.length) && !WellFormed(m, p.cur, p.length)
    ensures forall k: nat :: k < n ==> After(m, p, k).length > 0 && After(m, p, k).i <= Stuck(m, p).i
    ensures forall k: nat :: k >= n ==> After(m, p, k) == StuckFor(m, p, k - n)
    decreases p.length
  {
    n := 0;
    if m[p.cur + 1] == 0 {
      forall k: nat
        ensures After(m, p, k) == StuckFor(m, p, k)
      {
        StaysStuck(m, p, k);
      }
    } else {
      var r := GetsStuck(m, Turn(m, p));
      n := r + 1;
      IndexGrows(m, Turn(m, p));
      forall k: nat
        ensures k < n ==> After(m, p, k).length > 0 && After(m, p, k).i <= Stuck(m, p).i
        ensures k >= n ==> After(m, p, k) == StuckFor(m, p, k - n)
      {
        assert k > 0 ==> After(m, p, k) == After(m, Turn(m, p), k - 1);
      }
    }
  }

  lemma {:induction false} IndexGrows(m: seq<Byte>, p: Position)
    requires Readable(m, p.cur, p.length) && !WellFormed(m, p.cur, p.length)
    ensures p.i <= Stuck(m, p).i
    decreases p.length
  {
    if m[p.cur + 1] != 0 {
      IndexGrows(m, Turn(m, p));
    }
  }

  /** The loop ends exactly when no record it reaches has length 0. */
  lemma TerminatesIff(m: seq<Byte>, p: Position)
    requires Readable(m, p.cur, p.length)
    ensures Terminates(m, p) <==> WellFormed(m, p.cur, p.length)
  {
    if WellFormed(m, p.cur, p.length) {
      var n := Ends(m, p);
    } else {
      forall n: nat
        ensures After(m, p, n).length > 0
      {
        var r := GetsStuck(m, p);
      }
    }
  }

  /** On well-formed records the index ends up at the number of entries kept. */
  lemma IndexIff(m: seq<Byte>, p: Position, bound: nat)
    requires WellFormed(m, p.cur, p.length) && Readable(m, p.cur, p.length)
    ensures IndexWithin(m, p, bound) <==> p.i + |Kept(m, p.cur, p.length)| <= bound
  {
    var n := Ends(m, p);
    if p.i + |Kept(m, p.cur, p.length)| <= bound {
      forall k: nat
        ensures After(m, p, k).i <= bound
      {
        KeptBounds(m, p, k);
      }
    }
  }

  /** On a record of length 0 the loop never ends; if the record is one to be kept, the index also
      leaves every bound, so the writes run out of the array. */
  lemma StuckIndexIff(m: seq<Byte>, p: Position, bound: nat)
    requires Readable(m, p.cur, p.length) && !WellFormed(m, p.cur, p.length)
    ensures IndexWithin(m, p, bound) ==> Keep(m, Stuck(m, p).cur) == []
    ensures Keep(m, Stuck(m, p).cur) == [] ==> (IndexWithin(m, p, bound) <==> Stuck(m, p).i <= bound)
  {
    hide Keep, After, Stuck;
    var n := GetsStuck(m, p);
    var keep, i := Keep(m, Stuck(m, p).cur), Stuck(m, p).i;
    assert After(m, p, n + (bound + 1)).i == i + (bound + 1) * |keep|;
    assert After(m, p, n).i == i + 0 * |keep|;
    if keep != [] {
      assert (bound + 1) * |keep| >= bound + 1;
    } else {
      forall k: nat
        ensures After(m, p, k).i <= i
      {
        assert k >= n ==> After(m, p, k).i == i + (k - n) * |keep|;
      }
    }
  }

  /** The parser ends and stays inside `ics_array` exactly on the tables `GetMadtTables` asks for. */
  lemma ParserSafeIff(m: seq<Byte>, length: int)
    requires Readable(m, 44, length)
    ensures Terminates(m, At(44, length, 0)) && IndexWithin(m, At(44, length, 0), 64)
            <==> WellFormed(m, 44, length) && |Kept(m, 44, length)| <= 64
  {
    hide Terminates, IndexWithin;
    TerminatesIff(m, At(FIRST_RECORD, length, 0));
    if WellFormed(m, FIRST_RECORD, length) {
      IndexIff(m, At(FIRST_RECORD, length, 0), MAX_ICS);
    }
  }

  // ------------------------------------------------------------------
  // The code
  // ------------------------------------------------------------------

  class InterruptSources {
    const ics: array<Ics>
    var ioapicAddress: nat

    constructor ()
      ensures ics.Length == MAX_ICS && forall k :: 0 <= k < MAX_ICS ==> ics[k] == NO_ICS
      ensures ioapicAddress == 0 && fresh(ics)
    {
      ics := new Ics[MAX_ICS](_ => NO_ICS);
      ioapicAddress := 0;
    }

    /** The loop body of the parser: one record. */
    method TakeRecord(m: seq<Byte>, cur: nat, i: nat) returns (next: nat)
      requires cur + 2 <= |m| && (m[cur] <= OVERRIDE ==> cur + 8 <= |m|)
      requires ics.Length == MAX_ICS && i + |Keep(m, cur)| <= MAX_ICS
      requires forall k :: i <= k < MAX_ICS ==> ics[k] == NO_ICS
      modifies this`ioapicAddress, ics
      ensures next == i + |Keep(m, cur)| && ics[..next] == old(ics[..i]) + Keep(m, cur)
      ensures forall k :: next <= k < MAX_ICS ==> ics[k] == NO_ICS
      ensures ioapicAddress == if m[cur] == IOAPIC then Read32(m, cur + 4) else old(ioapicAddress)
    {
      next := i;
      if m[cur] == CPU {
        if Read32(m, cur + 4) != 0 {
          ics[i] := ics[i].(address := cur, kind := m[cur], apicId := m[cur + 3], present := true);
          next := i + 1;
        }
      } else if m[cur] == IOAPIC {
        ics[i] := ics[i].(address := cur, kind := m[cur]);
        next := i + 1;
        ioapicAddress := Read32(m, cur + 4);
      } else if m[cur] == OVERRIDE {
        ics[i] := ics[i].(address := cur, kind := m[cur]);
        next := i + 1;
      }
    }

    /** Walks the records once. The array then holds, in order, exactly what is to be kept, and
        the rest of it is untouched; the I/O APIC address is the last one listed. */
    method GetMadtTables(m: seq<Byte>)
      requires |m| >= FIRST_RECORD && WellFormed(m, FIRST_RECORD, Announced(m))
      requires ics.Length == MAX_ICS && forall k :: 0 <= k < MAX_ICS ==> ics[k] == NO_ICS
      requires |Kept(m, FIRST_RECORD, Announced(m))| <= MAX_ICS
      modifies this`ioapicAddress, ics
      ensures ics[..] == var kept := Kept(m, FIRST_RECORD, Announced(m));
                         kept + seq(MAX_ICS - |kept|, _ => NO_ICS)
      ensures ioapicAddress == LastIoapic(m, FIRST_RECORD, Announced(m), old(ioapicAddress))
    {
      hide Keep, Read32, Announced;
      var i: nat := 0;
      var cur: nat := FIRST_RECORD;
      var length := Announced(m);
      ghost var kept := Kept(m, cur, length);
      while length > 0
        invariant WellFormed(m, cur, length)
        invariant 0 <= i <= |kept| <= MAX_ICS
        invariant ics[..i] == kept[..i] && kept[i..] == Kept(m, cur, length)
        invariant forall k :: i <= k < MAX_ICS ==> ics[k] == NO_ICS
        invariant LastIoapic(m, cur, length, ioapicAddress)
                  == LastIoapic(m, FIRST_RECORD, Announced(m), old(ioapicAddress))
      {
        KeptStep(m, cur, length, kept, i);
        i := TakeRecord(m, cur, i);
        length := length - m[cur + 1];
        cur := cur + m[cur + 1];
      }
      assert kept[i..] == [];
    }

    /** The global system interrupt of a legacy pin. */
    method FindGsi(m: seq<Byte>, pin: int) returns (gsi: int)
      requires forall e :: e in ics[..] && e.kind == OVERRIDE ==> e.address + 8 <= |m|
      requires ics.Length == MAX_ICS
      ensures gsi == Route(m, ics[..], pin)
    {
      for i := 0 to MAX_ICS
        invariant forall k :: 0 <= k < i ==> !(ics[k].kind == OVERRIDE && m[ics[k].address + 3] == pin)
      {
        if ics[i].kind == OVERRIDE {
          assert ics[i] in ics[..];
          if m[ics[i].address + 3] == pin {
            RouteStep(m, ics[..], i, pin);
            return ToInt32(Read32(m, ics[i].address + 4));
          }
        }
      }
      RouteStep(m, ics[..], MAX_ICS, pin);
      gsi := pin;
    }
  }
}
