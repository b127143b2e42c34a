/** The I/O APIC's indexed register file and the routing set-up that programs it
    (kern/sys/acpi/apic.c; Intel 82093AA datasheet, sections 3.1 and 3.2). */
module IoApic {
  import opened Bits

  const REGISTERS := 256
  const VERSION := 1
  const MASKED := 0x1_0000
  const KEYBOARD_VECTOR := 33

  /** The version and arbitration registers ignore writes. */
  predicate ReadOnly(x: nat) { x == 1 || x == 2 }

  function Written(regs: seq<Word32>, x: nat, value: Word32): (r: seq<Word32>)
    requires x < |regs|
    ensures |r| == |regs|
  {
    if ReadOnly(x) then regs else regs[x := value]
  }

  /** `IOAPICREDTBL_REG(n)` once passed as a `uint8_t`. */
  function Redirection(n: nat): (x: nat)
    ensures x < REGISTERS && x % 2 == 0
  {
    assert (0x10 + 2 * n) % 0x100 == 2 * ((8 + n) % 0x80);
    (0x10 + 2 * n) % 0x100
  }

  /** The "maximum redirection entry" field, bits 23 to 16 of register 1. */
  function MaxEntry(regs: seq<Word32>): (n: nat)
    requires |regs| == REGISTERS
    ensures n == regs[1] / 0x1_0000 % 0x100
  {
    MaxEntryField(regs[VERSION]);
    And(Shr(regs[VERSION], 16), 0xff)
  }

  lemma MaxEntryField(v: Word32)
    ensures And(Shr(v, 16), 0xff) == v / 0x1_0000 % 0x100
  {
    Powers();
    ShrIsDiv(v, 16);
    AndLowMask(Shr(v, 16), 8);
  }

  /** Writing both halves of a redirection entry. */
  function Configured(regs: seq<Word32>, n: nat, value: Word): (r: seq<Word32>)
    requires |regs| == REGISTERS
    ensures |r| == REGISTERS
  {
    HighHalf(value);
    Written(Written(regs, Redirection(n), value % U32), Redirection(n) + 1, Shr(value, 32))
  }

  /** A redirection entry as one 64-bit value: registers 0x10 + 2n and 0x11 + 2n. */
  function Entry(regs: seq<Word32>, n: nat): nat
    requires |regs| == REGISTERS && n < 120
  {
    var low: nat, high: nat := regs[0x10 + 2 * n], regs[0x11 + 2 * n];
    low + 0x1_0000_0000 * high
  }

  /** An entry configured reads back as the value given, and every register outside it is as it was. */
  lemma ConfiguredEntry(regs: seq<Word32>, n: nat, value: Word)
    requires |regs| == REGISTERS && n < 120
    ensures Entry(Configured(regs, n, value), n) == value
    ensures forall x :: 0 <= x < REGISTERS && x != 0x10 + 2 * n && x != 0x11 + 2 * n ==>
              Configured(regs, n, value)[x] == regs[x]
  {
    HighHalf(value);
    assert Redirection(n) == 0x10 + 2 * n;
  }

  lemma HighHalf(value: Word)
    ensures Shr(value, 32) == value / U32 && Shr(value, 32) < U32
  {
    Powers();
    ShrIsDiv(value, 32);
  }

  class Device {
    /** I/O register select. */
    var select: Byte
    const regs: array<Word32>

    constructor (registers: array<Word32>)
      ensures regs == registers
    {
      regs := registers;
      select := 0;
    }

    /** `ioapic_read`: through the select register at +0x00 and the window at +0x10. */
    method Read(reg: Byte) returns (value: Word32)
      requires regs.Length == REGISTERS
      modifies this`select
      ensures value == regs[reg] && select == reg
    {
      select := reg;
      value := regs[select];
    }

    /** `ioapic_write` */
    method Write(reg: Byte, value: Word32)
      requires regs.Length == REGISTERS
      modifies this`select, regs
      ensures regs[..] == Written(old(regs[..]), reg, value) && select == reg
      ensures forall x :: 0 <= x < 256 ==>
                regs[x] == if x == reg && x != 1 && x != 2 then value else old(regs[x])
    {
      select := reg;
      if !ReadOnly(select) {
        regs[select] := value;
      }
    }

    /** `ioapic_configure_entry` with a 64-bit entry. The entry number is a `uint8_t`. */
    method ConfigureEntry(n: Byte, value: Word)
      requires regs.Length == REGISTERS
      modifies this`select, regs
      ensures regs[..] == Configured(old(regs[..]), n, value)
    {
      var entry: nat := n;
      hide Shr;
      HighHalf(value);
      Write((0x10 + 2 * entry) % 0x100, value % U32);
      Write((0x10 + 2 * entry + 1) % 0x100, Shr(value, 32));
    }

    /** The masking loop of `init_apic`. The bound is read from the device on every turn. */
    method MaskAll()
      requires regs.Length == REGISTERS
      modifies this`select, regs
      ensures forall x :: 0 <= x < REGISTERS ==>
                regs[x] == if Hit(x, old(regs[1]) / 0x1_0000 % 0x100) then MaskedHalf(x) else old(regs[x])
    {
      ghost var max := MaxEntry(regs[..]);
      var i: nat := 0;
      var version := Read(VERSION);
      while i != And(Shr(version, 16), 0xff)
        invariant i <= max && version == regs[VERSION] == old(regs[VERSION])
        invariant forall x :: 0 <= x < REGISTERS ==>
                    regs[x] == if Hit(x, i) then MaskedHalf(x) else old(regs[x])
        decreases max - i
      {
        ghost var before := regs[..];
        ConfigureEntry(i, MASKED);
        MaskStep(before, i);
        i := i + 1;
        version := Read(VERSION);
      }
    }
  }

  /** Whether masking entries 0 to `n - 1` writes register `x`. From entry 120 on the register
      number wraps around. */
  predicate Hit(x: nat, n: nat) {
    !ReadOnly(x) && (x - x % 2 + 0xf0) % 0x100 / 2 < n
  }

  /** The registers of `n` entries: numbers from 0x10 on, two per entry, as eight bits, and of those
      all but the two that ignore writes. */
  lemma HitIff(x: nat, n: nat)
    requires x < REGISTERS && n <= 256
    ensures Hit(x, n) <==> x != 1 && x != 2 && exists i :: 0 <= i < n && RegisterOf(i, x)
  {
    hide RegisterOf;
    FirstEntryOf(x);
    if k :| 0 <= k < n && RegisterOf(k, x) {
      NoEarlierEntry(x, k);
    }
  }

  lemma FirstEntryOf(x: nat)
    requires x < REGISTERS
    ensures RegisterOf((x - x % 2 + 0xf0) % 0x100 / 2, x)
  {
    var h := x / 2;
    HalfNumber(h + 120);
    HalfNumber(8 + (h + 120) % 0x80);
    assert x - x % 2 + 0xf0 == 2 * (h + 120);
    assert (8 + (h + 120) % 0x80) % 0x80 == h;
  }

  lemma NoEarlierEntry(x: nat, k: nat)
    requires x < REGISTERS && k < 256 && RegisterOf(k, x)
    ensures (x - x % 2 + 0xf0) % 0x100 / 2 <= k
  {
    var h := x / 2;
    HalfNumber(h + 120);
    HalfNumber(8 + k);
    assert x - x % 2 + 0xf0 == 2 * (h + 120);
    assert h == (8 + k) % 0x80;
    BackToEntry(h, k);
  }

  lemma BackToEntry(h: nat, k: nat)
    requires h == (8 + k) % 0x80
    ensures (h + 120) % 0x80 == k % 0x80
  {
  }

  /** Both registers of an entry wrap together. */
  lemma HalfNumber(n: nat)
    ensures 2 * n % 0x100 == 2 * (n % 0x80) && (2 * n + 1) % 0x100 == 2 * (n % 0x80) + 1
  {
    assert n == 0x80 * (n / 0x80) + n % 0x80;
  }

  /** Register `x` is 0x10 + 2i or 0x11 + 2i, as an eight-bit number. */
  predicate RegisterOf(i: nat, x: nat) {
    x == 2 * (8 + i) % 0x100 || x == (2 * (8 + i) + 1) % 0x100
  }

  function MaskedHalf(x: nat): Word32 { if x % 2 == 0 then 0x1_0000 else 0 }

  lemma MaskStep(regs: seq<Word32>, i: nat)
    requires |regs| == REGISTERS && i < 256
    ensures forall x :: 0 <= x < REGISTERS ==>
              Configured(regs, i, MASKED)[x]
              == if Hit(x, i + 1) && (!Hit(x, i) || x - x % 2 == Redirection(i)) then MaskedHalf(x) else regs[x]
  {
    hide Hit, Redirection;
    HighHalf(MASKED);
    forall x | 0 <= x < REGISTERS
      ensures Configured(regs, i, MASKED)[x]
              == if Hit(x, i + 1) && (!Hit(x, i) || x - x % 2 == Redirection(i)) then MaskedHalf(x) else regs[x]
    {
      HitStep(x, i);
    }
  }

  lemma HitStep(x: nat, i: nat)
    requires x < REGISTERS && i < 256
    ensures Hit(x, i + 1) <==> Hit(x, i) || (!ReadOnly(x) && x - x % 2 == Redirection(i))
    ensures ReadOnly(x) ==> !Hit(x, i)
  {
  }
}
