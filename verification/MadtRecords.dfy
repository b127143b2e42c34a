/** MADT records as data, their byte encoding, and what the parser recovers from it. */
module MadtRecords {
  import opened Bits
  import opened Madt

  /** ACPI Specification 6.x, sections 5.2.12.2, 5.2.12.3 and 5.2.12.5; other records are opaque. */
  datatype Record =
    | Cpu(uid: Byte, apicId: Byte, flags: Word32)
    | Ioapic(id: Byte, reserved: Byte, address: Word32, base: Word32)
    | Override(bus: Byte, source: Byte, gsi: Word32, flags16: Word32)
    | Other(kind: Byte, body: seq<Byte>)
  {
    predicate Valid() {
      match this
      case Override(_, _, _, f) => f < U16
      case Other(kind, body) => kind > 2 && |body| <= 253
      case _ => true
    }
  }

  function Le32(x: Word32): (r: seq<Byte>)
    ensures |r| == 4
  {
    [x % 0x100, x / 0x100 % 0x100, x / 0x1_0000 % 0x100, x / 0x100_0000]
  }

  lemma Digits32(x: Word32)
    ensures x % 0x100 + 0x100 * (x / 0x100 % 0x100) + 0x1_0000 * (x / 0x1_0000 % 0x100)
            + 0x100_0000 * (x / 0x100_0000) == x
  {
    var y := x / 0x100;
    var z := y / 0x100;
    assert x / 0x1_0000 == z && x / 0x100_0000 == z / 0x100;
  }

  lemma ReadLe32(m: seq<Byte>, at: nat, x: Word32)
    requires at + 4 <= |m| && m[at..at + 4] == Le32(x)
    ensures Read32(m, at) == x
  {
    Digits32(x);
    assert m[at] == m[at..at + 4][0] && m[at + 1] == m[at..at + 4][1];
    assert m[at + 2] == m[at..at + 4][2] && m[at + 3] == m[at..at + 4][3];
  }

  function Encode(r: Record): (b: seq<Byte>)
    requires r.Valid()
    ensures 2 <= |b| <= 255 && b[1] == |b|
  {
    match r
    case Cpu(uid, apicId, flags) => [0, 8, uid, apicId] + Le32(flags)
    case Ioapic(id, reserved, address, base) => [1, 12, id, reserved] + Le32(address) + Le32(base)
    case Override(bus, source, gsi, f) => [2, 10, bus, source] + Le32(gsi) + [f % 0x100, f / 0x100]
    case Other(kind, body) => [kind, 2 + |body|] + body
  }

  predicate AllValid(rs: seq<Record>) {
    forall i :: 0 <= i < |rs| ==> rs[i].Valid()
  }

  function EncodeAll(rs: seq<Record>): seq<Byte>
    requires AllValid(rs)
  {
    if rs == [] then [] else Encode(rs[0]) + EncodeAll(rs[1..])
  }

  /** A table: header fields, the length field, the records, and whatever memory follows. */
  function Table(signature: seq<Byte>, header: seq<Byte>, rs: seq<Record>, tail: seq<Byte>): (m: seq<Byte>)
    requires |signature| == 4 && |header| == 36 && AllValid(rs) && |EncodeAll(rs)| + 44 < 0x8000_0000
    ensures |m| >= 44
  {
    signature + Le32(44 + |EncodeAll(rs)|) + header + EncodeAll(rs) + tail
  }

  /** What the array should hold for a record at `cur`. */
  function KeepOf(r: Record, cur: nat): seq<Ics> {
    match r
    case Cpu(_, apicId, flags) => if flags == 0 then [] else [Ics(cur, 0, apicId, true)]
    case Ioapic(_, _, _, _) => [Ics(cur, 1, 0, false)]
    case Override(_, _, _, _) => [Ics(cur, 2, 0, false)]
    case Other(_, _) => []
  }

  /** What the array should hold for the records, the first of them at `cur`. */
  function KeptOf(rs: seq<Record>, cur: nat): seq<Ics>
    requires AllValid(rs)
  {
    if rs == [] then [] else KeepOf(rs[0], cur) + KeptOf(rs[1..], cur + |Encode(rs[0])|)
  }

  function IoapicOf(rs: seq<Record>, io: nat): nat {
    if rs == [] then io else IoapicOf(rs[1..], if rs[0].Ioapic? then rs[0].address else io)
  }

  /** The interrupt a legacy pin is wired to: that of its first override, else the pin's own number. */
  function RouteOf(rs: seq<Record>, pin: int): int {
    if rs == [] then pin
    else if rs[0].Override? && rs[0].source == pin then ToInt32(rs[0].gsi)
    else RouteOf(rs[1..], pin)
  }

  /** The fields of a record at `cur`, as the parser reads them. */
  ghost predicate Fields(m: seq<Byte>, cur: nat, r: Record)
    requires cur + 2 <= |m|
  {
    && (m[cur] <= OVERRIDE ==> cur + 8 <= |m|)
    && match r
       case Cpu(_, apicId, flags) => m[cur] == CPU && m[cur + 3] == apicId && Read32(m, cur + 4) == flags
       case Ioapic(_, _, address, _) => m[cur] == IOAPIC && Read32(m, cur + 4) == address
       case Override(_, source, gsi, _) => m[cur] == OVERRIDE && m[cur + 3] == source && Read32(m, cur + 4) == gsi
       case Other(kind, _) => m[cur] == kind && kind > OVERRIDE
  }

  lemma SliceOfSlice(m: seq<Byte>, at: nat, n: nat, i: nat, j: nat)
    requires i <= j <= n && at + n <= |m|
    ensures m[at + i..at + j] == m[at..at + n][i..j]
  {
    var direct, outer := m[at + i..at + j], m[at..at + n];
    var inner := outer[i..j];
    forall k | 0 <= k < |direct|
      ensures direct[k] == inner[k]
    {
      assert inner[k] == outer[i + k];
    }
  }

  lemma RecordAt(m: seq<Byte>, cur: nat, r: Record)
    requires r.Valid() && cur + |Encode(r)| <= |m| && m[cur..cur + |Encode(r)|] == Encode(r)
    ensures m[cur + 1] == |Encode(r)| && Fields(m, cur, r)
  {
    hide Read32;
    var b := m[cur..cur + |Encode(r)|];
    assert m[cur] == b[0] && m[cur + 1] == b[1];
    if !r.Other? {
      assert m[cur + 3] == b[3] && |b| >= 8;
      SliceOfSlice(m, cur, |b|, 4, 8);
      match r
      case Cpu(_, _, flags) =>
        assert b[4..8] == Le32(flags);
        ReadLe32(m, cur + 4, flags);
      case Ioapic(_, _, address, _) =>
        assert b[4..8] == Le32(address);
        ReadLe32(m, cur + 4, address);
      case Override(_, _, gsi, _) =>
        assert b[4..8] == Le32(gsi);
        ReadLe32(m, cur + 4, gsi);
    }
  }

  lemma KeepRecord(m: seq<Byte>, cur: nat, r: Record)
    requires cur + 2 <= |m| && Fields(m, cur, r)
    ensures Keep(m, cur) == KeepOf(r, cur)
    ensures m[cur] == IOAPIC <==> r.Ioapic?
    ensures r.Ioapic? ==> Read32(m, cur + 4) == r.address
  {
  }

  lemma EncodedTail(m: seq<Byte>, cur: nat, rs: seq<Record>)
    requires AllValid(rs) && rs != []
    requires cur + |EncodeAll(rs)| <= |m| && m[cur..cur + |EncodeAll(rs)|] == EncodeAll(rs)
    ensures var n, rest := |Encode(rs[0])|, EncodeAll(rs[1..]);
            && |EncodeAll(rs)| == n + |rest|
            && m[cur..cur + n] == Encode(rs[0]) && m[cur + n..cur + n + |rest|] == rest
  {
    hide Encode;
    var n, all := |Encode(rs[0])|, EncodeAll(rs);
    assert all == Encode(rs[0]) + EncodeAll(rs[1..]);
    assert m[cur..cur + n] == m[cur..cur + |all|][..n];
    assert m[cur + n..cur + |all|] == m[cur..cur + |all|][n..];
  }

  lemma NoRecords(rs: seq<Record>)
    requires rs == []
    ensures AllValid(rs) && EncodeAll(rs) == []
  {
  }

  /** Parsing the encoding of a record list recovers what is to be kept of it, record by record. */
  lemma {:induction false} ParseEncoded(m: seq<Byte>, cur: nat, rs: seq<Record>, io: nat)
    requires AllValid(rs)
    requires cur + |EncodeAll(rs)| <= |m| && m[cur..cur + |EncodeAll(rs)|] == EncodeAll(rs)
    ensures WellFormed(m, cur, |EncodeAll(rs)|)
    ensures Kept(m, cur, |EncodeAll(rs)|) == KeptOf(rs, cur)
    ensures LastIoapic(m, cur, |EncodeAll(rs)|, io) == IoapicOf(rs, io)
    decreases |rs|
  {
    hide Encode, Read32, EncodeAll, Keep, KeepOf, Record.Valid;
    if rs == [] {
      NoRecords(rs);
    } else {
      EncodedTail(m, cur, rs);
      RecordAt(m, cur, rs[0]);
      KeepRecord(m, cur, rs[0]);
      ParseEncoded(m, cur + |Encode(rs[0])|, rs[1..], if rs[0].Ioapic? then rs[0].address else io);
    }
  }

  /** Looking a pin up in the kept entries gives the interrupt of the first override record. */
  lemma {:induction false} RouteEncoded(m: seq<Byte>, cur: nat, rs: seq<Record>, pin: int)
    requires AllValid(rs)
    requires cur + |EncodeAll(rs)| <= |m| && m[cur..cur + |EncodeAll(rs)|] == EncodeAll(rs)
    ensures forall e :: e in KeptOf(rs, cur) ==> e.address + 8 <= |m|
    ensures Route(m, KeptOf(rs, cur), pin) == RouteOf(rs, pin)
    decreases |rs|
  {
    hide Encode, EncodeAll, Read32, ToInt32, Record.Valid, KeepOf, Fields;
    if rs == [] {
      NoRecords(rs);
    } else {
      EncodedTail(m, cur, rs);
      RecordAt(m, cur, rs[0]);
      var next := cur + |Encode(rs[0])|;
      RouteEncoded(m, next, rs[1..], pin);
      RouteRecord(m, cur, rs[0], KeptOf(rs[1..], next), pin);
    }
  }

  lemma RouteRecord(m: seq<Byte>, cur: nat, r: Record, rest: seq<Ics>, pin: int)
    requires cur + 2 <= |m| && Fields(m, cur, r)
    requires forall e :: e in rest ==> e.address + 8 <= |m|
    ensures forall e :: e in KeepOf(r, cur) + rest ==> e.address + 8 <= |m|
    ensures Route(m, KeepOf(r, cur) + rest, pin)
            == if r.Override? && r.source == pin then ToInt32(r.gsi) else Route(m, rest, pin)
  {
    hide Read32, ToInt32;
    var keep := KeepOf(r, cur);
    if keep == [] {
      assert keep + rest == rest;
    } else {
      assert (keep + rest)[1..] == rest && (keep + rest)[0] == keep[0];
    }
  }

  /** The whole table: for every list of valid records, in any table whose length field counts them,
      the parser keeps exactly what it should and every pin is routed by its first override. */
  lemma ParseTable(signature: seq<Byte>, header: seq<Byte>, rs: seq<Record>, tail: seq<Byte>, io: nat, pin: int)
    requires |signature| == 4 && |header| == 36 && AllValid(rs) && |EncodeAll(rs)| + 44 < 0x8000_0000
    ensures var m := Table(signature, header, rs, tail);
            && Announced(m) == |EncodeAll(rs)|
            && WellFormed(m, FIRST_RECORD, Announced(m))
            && Kept(m, FIRST_RECORD, Announced(m)) == KeptOf(rs, 44)
            && LastIoapic(m, FIRST_RECORD, Announced(m), io) == IoapicOf(rs, io)
            && (forall e :: e in KeptOf(rs, 44) ==> e.address + 8 <= |m|)
            && Route(m, KeptOf(rs, 44), pin) == RouteOf(rs, pin)
  {
    hide EncodeAll, Le32, WellFormed, Kept, KeptOf, LastIoapic, Route, Read32;
    var m := Table(signature, header, rs, tail);
    var n := |EncodeAll(rs)|;
    assert m[4..8] == Le32(FIRST_RECORD + n);
    ReadLe32(m, 4, FIRST_RECORD + n);
    assert m[FIRST_RECORD..FIRST_RECORD + n] == EncodeAll(rs);
    ParseEncoded(m, FIRST_RECORD, rs, io);
    RouteEncoded(m, FIRST_RECORD, rs, pin);
  }
}
