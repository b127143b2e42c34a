/** From the bytes of the MADT to the programmed I/O APIC (`init_apic` and `ps2_int_init`). */
module Routing {
  import opened Bits
  import opened Madt
  import opened MadtRecords
  import opened IoApic

  const KEYBOARD_PIN := 1

  /** A `gsi` passed as the `uint8_t` entry number. */
  function EntryNumber(gsi: int): Byte { gsi % 0x100 }

  /** Register `x` after masking `max` entries and routing the keyboard to entry `n`. */
  function Programmed(regs: seq<Word32>, max: nat, n: Byte, x: nat): Word32
    requires |regs| == REGISTERS && x < REGISTERS
  {
    if ReadOnly(x) then regs[x]
    else if x == Redirection(n) then 33
    else if x == Redirection(n) + 1 then 0
    else if Hit(x, max) then MaskedHalf(x)
    else regs[x]
  }

  lemma KeyboardWritten(before: seq<Word32>, n: Byte)
    requires |before| == REGISTERS
    ensures var after := Configured(Configured(before, n, 0), n, KEYBOARD_VECTOR);
            forall x :: 0 <= x < REGISTERS ==>
              after[x] == if ReadOnly(x) then before[x]
                          else if x == Redirection(n) then KEYBOARD_VECTOR
                          else if x == Redirection(n) + 1 then 0
                          else before[x]
  {
    HighHalf(0);
    HighHalf(KEYBOARD_VECTOR);
  }

  /** The routing part of `ps2_int_init`: unmask the keyboard's entry, then give it its vector. */
  method RouteKeyboard(m: seq<Byte>, sources: InterruptSources, device: Device)
    requires sources.ics.Length == MAX_ICS && device.regs.Length == REGISTERS
    requires forall e :: e in sources.ics[..] && e.kind == OVERRIDE ==> e.address + 8 <= |m|
    modifies device`select, device.regs
    ensures var n := EntryNumber(Route(m, sources.ics[..], KEYBOARD_PIN));
            device.regs[..] == Configured(Configured(old(device.regs[..]), n, 0), n, KEYBOARD_VECTOR)
  {
    var gsi := sources.FindGsi(m, KEYBOARD_PIN);
    device.ConfigureEntry(EntryNumber(gsi), 0);
    device.ConfigureEntry(EntryNumber(gsi), KEYBOARD_VECTOR);
  }

  /** The interrupt-controller part of `init_apic`: parse, mask, route. Every register of the device
      is accounted for, whatever the table and whatever the version register says. */
  method InitApic(m: seq<Byte>, sources: InterruptSources, device: Device)
    requires |m| >= FIRST_RECORD && WellFormed(m, FIRST_RECORD, Announced(m))
    requires |Kept(m, FIRST_RECORD, Announced(m))| <= MAX_ICS
    requires sources.ics.Length == MAX_ICS && forall k :: 0 <= k < MAX_ICS ==> sources.ics[k] == NO_ICS
    requires device.regs.Length == REGISTERS
    modifies sources, sources.ics, device`select, device.regs
    ensures var kept := Kept(m, FIRST_RECORD, Announced(m));
            && (forall e :: e in kept && e.kind == OVERRIDE ==> e.address + 8 <= |m|)
            && var n := EntryNumber(Route(m, kept, 1));
               forall x :: 0 <= x < 256 ==>
                 device.regs[x]
                 == Programmed(old(device.regs[..]), old(device.regs[1]) / 0x1_0000 % 0x100, n, x)
    ensures sources.ioapicAddress == LastIoapic(m, FIRST_RECORD, Announced(m), old(sources.ioapicAddress))
  {
    hide WellFormed, Kept, Announced, LastIoapic, Route, Hit, Configured;
    KeptInside(m, FIRST_RECORD, Announced(m));
    ghost var kept := Kept(m, FIRST_RECORD, Announced(m));
    sources.GetMadtTables(m);
    PaddedRoute(m, kept, sources.ics[..], KEYBOARD_PIN);
    device.MaskAll();
    ghost var masked := device.regs[..];
    RouteKeyboard(m, sources, device);
    KeyboardWritten(masked, EntryNumber(Route(m, kept, KEYBOARD_PIN)));
    assert forall x :: 0 <= x < REGISTERS ==> device.regs[..][x] == device.regs[x];
    ReadOnlyUnhit();
  }

  lemma ReadOnlyUnhit()
    ensures forall x, n :: ReadOnly(x) ==> !Hit(x, n)
  {
  }

  /** The unused slots of the array do not change the lookup. */
  lemma PaddedRoute(m: seq<Byte>, kept: seq<Ics>, ics: seq<Ics>, pin: int)
    requires |kept| <= MAX_ICS && ics == kept + seq(MAX_ICS - |kept|, _ => NO_ICS)
    requires forall e :: e in kept ==> e.address + 8 <= |m|
    ensures forall e :: e in ics && e.kind == OVERRIDE ==> e.address + 8 <= |m|
    ensures Route(m, ics, pin) == Route(m, kept, pin)
  {
    assert ics[..|kept|] == kept;
    RouteSkipsEmpty(m, ics, |kept|, pin);
  }

  /** Registers as `InitApic` leaves them. */
  ghost predicate ProgrammedBy(before: seq<Word32>, after: seq<Word32>, gsi: int)
    requires |before| == REGISTERS
  {
    && |after| == REGISTERS
    && forall x :: 0 <= x < REGISTERS ==>
         after[x] == Programmed(before, before[1] / 0x1_0000 % 0x100, EntryNumber(gsi), x)
  }

  /** End to end, from a list of MADT records: with the keyboard's interrupt and the entry count
      within the register window, the keyboard's entry delivers vector 33 unmasked, every other
      entry below the device's maximum is masked, and entries from the maximum on, and the
      registers before the table, are as they were. */
  lemma EndToEnd(signature: seq<Byte>, header: seq<Byte>, rs: seq<Record>, tail: seq<Byte>,
                 before: seq<Word32>, after: seq<Word32>)
    requires |signature| == 4 && |header| == 36 && AllValid(rs) && |EncodeAll(rs)| + 44 < 0x8000_0000
    requires |before| == REGISTERS && before[1] / 0x1_0000 % 0x100 <= 120 && 0 <= RouteOf(rs, 1) < 120
    requires var m := Table(signature, header, rs, tail);
             && WellFormed(m, FIRST_RECORD, Announced(m))
             && var kept := Kept(m, FIRST_RECORD, Announced(m));
                && (forall e :: e in kept && e.kind == OVERRIDE ==> e.address + 8 <= |m|)
                && ProgrammedBy(before, after, Route(m, kept, 1))
    ensures var gsi, max := RouteOf(rs, 1), before[1] / 0x1_0000 % 0x100;
            && Entry(after, gsi) == 33
            && (forall n :: 0 <= n < max && n != gsi ==> Entry(after, n) == 0x1_0000)
            && (forall n :: max <= n < 120 && n != gsi ==> Entry(after, n) == Entry(before, n))
            && (forall x :: 0 <= x < 0x10 ==> after[x] == before[x])
  {
    hide WellFormed, Kept, Announced, Table, Route, EncodeAll, AllValid;
    ParseTable(signature, header, rs, tail, 0, 1);
    var gsi := RouteOf(rs, 1);
    EntriesProgrammed(before, after, gsi);
  }

  /** The same about the code: `init_apic` run on the bytes of any record list. */
  method InitRecords(signature: seq<Byte>, header: seq<Byte>, rs: seq<Record>, tail: seq<Byte>,
                     sources: InterruptSources, device: Device)
    requires |signature| == 4 && |header| == 36 && AllValid(rs) && |EncodeAll(rs)| + 44 < 0x8000_0000
    requires |KeptOf(rs, 44)| <= 64 && 0 <= RouteOf(rs, 1) < 120
    requires sources.ics.Length == 64 && forall k :: 0 <= k < 64 ==> sources.ics[k] == NO_ICS
    requires device.regs.Length == 256 && device.regs[1] / 0x1_0000 % 0x100 <= 120
    modifies sources, sources.ics, device`select, device.regs
    ensures var before, after, gsi := old(device.regs[..]), device.regs[..], RouteOf(rs, 1);
            var max := before[1] / 0x1_0000 % 0x100;
            && Entry(after, gsi) == 33
            && (forall n :: 0 <= n < max && n != gsi ==> Entry(after, n) == 0x1_0000)
            && (forall n :: max <= n < 120 && n != gsi ==> Entry(after, n) == Entry(before, n))
            && (forall x :: 0 <= x < 0x10 ==> after[x] == before[x])
    ensures sources.ioapicAddress == IoapicOf(rs, old(sources.ioapicAddress))
  {
    hide WellFormed, Kept, KeptOf, Announced, LastIoapic, IoapicOf, Table, Route, RouteOf, EncodeAll, AllValid, Entry;
    hide Programmed, Encode;
    ParseTable(signature, header, rs, tail, sources.ioapicAddress, 1);
    var m := Table(signature, header, rs, tail);
    ghost var before := device.regs[..];
    InitApic(m, sources, device);
    EndToEnd(signature, header, rs, tail, before, device.regs[..]);
  }

  lemma EntriesProgrammed(before: seq<Word32>, after: seq<Word32>, gsi: nat)
    requires |before| == REGISTERS && before[1] / 0x1_0000 % 0x100 <= 120
    requires gsi < 120 && ProgrammedBy(before, after, gsi)
    ensures Entry(after, gsi) == 33
    ensures forall n :: 0 <= n < before[1] / 0x1_0000 % 0x100 && n != gsi ==> Entry(after, n) == 0x1_0000
    ensures forall n :: before[1] / 0x1_0000 % 0x100 <= n < 120 && n != gsi ==> Entry(after, n) == Entry(before, n)
    ensures forall x :: 0 <= x < 0x10 ==> after[x] == before[x]
  {
    hide Programmed;
    forall n | 0 <= n < 120
      ensures Entry(after, n) == if n == gsi then 33
                                 else if n < before[1] / 0x1_0000 % 0x100 then 0x1_0000 else Entry(before, n)
    {
      EntryRegisters(before, before[1] / 0x1_0000 % 0x100, gsi, n);
    }
    forall x | 0 <= x < 0x10
      ensures after[x] == before[x]
    {
      FirstRegisters(before, before[1] / 0x1_0000 % 0x100, gsi, x);
    }
  }

  lemma EntryRegisters(before: seq<Word32>, max: nat, gsi: nat, n: nat)
    requires |before| == REGISTERS && max <= 120 && gsi < 120 && n < 120
    ensures var x := 0x10 + 2 * n;
            && Programmed(before, max, EntryNumber(gsi), x)
               == (if n == gsi then 33 else if n < max then 0x1_0000 else before[x])
            && Programmed(before, max, EntryNumber(gsi), x + 1)
               == (if n == gsi || n < max then 0 else before[x + 1])
  {
    assert Redirection(gsi) == 0x10 + 2 * gsi;
  }

  lemma FirstRegisters(before: seq<Word32>, max: nat, gsi: nat, x: nat)
    requires |before| == REGISTERS && max <= 120 && gsi < 120 && x < 0x10
    ensures Programmed(before, max, EntryNumber(gsi), x) == before[x]
  {
    assert Redirection(gsi) == 0x10 + 2 * gsi;
  }

  /** The version field holds the number of the last entry, so the loop stops one entry short: every
      entry is masked afterwards exactly when the last one was masked to begin with. */
  lemma LastEntryLeftOut(before: seq<Word32>, after: seq<Word32>)
    requires |before| == REGISTERS && |after| == REGISTERS && before[1] / 0x1_0000 % 0x100 < 120
    requires forall x :: 0 <= x < REGISTERS ==>
               after[x] == if Hit(x, before[1] / 0x1_0000 % 0x100) then MaskedHalf(x) else before[x]
    ensures (forall n :: 0 <= n <= before[1] / 0x1_0000 % 0x100 ==> Bit(Entry(after, n), 16))
            <==> Bit(Entry(before, before[1] / 0x1_0000 % 0x100), 16)
  {
    hide Bit;
    var max := before[1] / 0x1_0000 % 0x100;
    MaskedBit();
    forall n | 0 <= n <= max
      ensures Entry(after, n) == if n < max then 0x1_0000 else Entry(before, n)
    {
      var x := 0x10 + 2 * n;
      assert Hit(x, max) <==> n < max;
      assert Hit(x + 1, max) <==> n < max;
    }
  }

  lemma MaskedBit()
    ensures Bit(0x1_0000, 16)
  {
    Powers();
    Pow2Bit(16, 16);
  }

  /** The masking loop stays inside the redirection table exactly when the device claims at most
      entry number 120; beyond that the register numbers wrap onto the first registers. */
  lemma MaskingStaysInTable(max: nat)
    ensures (forall x :: 0 <= x < 0x10 ==> !Hit(x, max)) <==> max <= 120
  {
    assert (0 - 0 % 2 + 0xf0) % 0x100 / 2 == 120;
    if max > 120 {
      assert Hit(0, max);
    }
  }
}
