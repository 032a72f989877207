/** Laying the ACPI tables out in guest memory. */
module AcpiWrite {
  import opened Acpi
  import opened AcpiSeen
  import opened Aml
  import opened Bytes
  import opened Checksums
  import opened Dsdt
  import opened GuestMemory
  import opened Prelude

  datatype Placed = Placed(addr: nat, table: bytes)

  function EndOf(p: Placed): nat {
    p.addr + |p.table|
  }

  /** The next multiple of 8. */
  function AlignUp(v: nat): (r: nat)
    ensures v <= r < v + 8 && r % 8 == 0
  {
    (v + 7) / 8 * 8
  }

  /** A table lies 8-byte aligned in the system region and stands in memory whole. */
  ghost predicate Stands(mem: bytes, p: Placed, cursor: nat) {
    SYSTEM_START <= p.addr && p.addr % 8 == 0 && EndOf(p) <= cursor && Holds(mem, p.addr, p.table)
  }

  /** All tables so far stand below the cursor, one after the other. */
  ghost predicate Laid(mem: bytes, placed: seq<Placed>, cursor: nat) {
    (forall i :: 0 <= i < |placed| ==> Stands(mem, placed[i], cursor))
    && forall i, j :: 0 <= i < j < |placed| ==> EndOf(placed[i]) <= placed[j].addr
  }

  lemma LaidNext(mem: bytes, placed: seq<Placed>, cursor: nat, p: Placed)
    requires Laid(mem, placed, cursor) && SYSTEM_START <= cursor <= p.addr && p.addr % 8 == 0 && EndOf(p) <= |mem|
    ensures Laid(Put(mem, p.addr, p.table), placed + [p], EndOf(p))
  {
    var mem' := Put(mem, p.addr, p.table);
    var all := placed + [p];
    forall i | 0 <= i < |all| ensures Stands(mem', all[i], EndOf(p)) {
      if i < |placed| {
        assert Stands(mem, placed[i], cursor);
        PutKeeps(mem, p.addr, p.table, placed[i].addr, placed[i].table);
      } else {
        PutHolds(mem, p.addr, p.table);
      }
    }
    forall i, j | 0 <= i < j < |all| ensures EndOf(all[i]) <= all[j].addr {
      assert Stands(mem, placed[i], cursor);
    }
  }

  lemma LaidAbove(mem: bytes, placed: seq<Placed>, cursor: nat, at: nat, b: bytes)
    requires Laid(mem, placed, cursor) && cursor <= at && at + |b| <= |mem|
    ensures Laid(Put(mem, at, b), placed, cursor)
  {
    var mem' := Put(mem, at, b);
    forall i | 0 <= i < |placed| ensures Stands(mem', placed[i], cursor) {
      assert Stands(mem, placed[i], cursor);
      PutKeeps(mem, at, b, placed[i].addr, placed[i].table);
    }
  }

  /** Guest memory and the cursor the tables are written at. */
  class Writer {
    const mem: array<byte>
    var cursor: nat
    ghost var placed: seq<Placed>
    ghost const before: bytes

    ghost predicate Valid()
      reads this, mem
    {
      SYSTEM_START <= cursor <= SYSTEM_END <= mem.Length == |before|
      && Laid(mem[..], placed, cursor) && SameOutside(before, mem[..], SYSTEM_START, SYSTEM_END)
    }

    constructor (mem: array<byte>)
      requires SYSTEM_END <= mem.Length
      ensures Valid() && this.mem == mem && placed == [] && cursor == SYSTEM_START && before == mem[..]
    {
      this.mem, cursor, placed, before := mem, SYSTEM_START, [], mem[..];
    }

    /** One table at the next multiple of 8, unless it would leave the region. */
    method Write(table: bytes) returns (r: Option<nat>)
      requires Valid()
      modifies this, mem
      ensures Valid()
      ensures r.None? <==> AlignUp(old(cursor)) + |table| > SYSTEM_END
      ensures r.None? ==> placed == old(placed)
      ensures r.Some? ==> r.value == AlignUp(old(cursor)) && placed == old(placed) + [Placed(r.value, table)]
      ensures r.Some? ==> cursor == r.value + |table|
    {
      hide Laid, SameOutside;
      cursor := AlignUp(cursor);
      LaidLater(mem[..], placed, old(cursor), cursor);
      var end := cursor + |table|;
      if end > SYSTEM_END {
        return None;
      }
      ghost var was := mem[..];
      LaidNext(was, placed, cursor, Placed(cursor, table));
      PutSame(was, cursor, table, SYSTEM_START, SYSTEM_END);
      SameTrans(before, was, Put(was, cursor, table), SYSTEM_START, SYSTEM_END);
      CopyTo(mem, cursor, table);
      placed := placed + [Placed(cursor, table)];
      r := Some(cursor);
      cursor := end;
    }
  }

  lemma LaidLater(mem: bytes, placed: seq<Placed>, cursor: nat, later: nat)
    requires Laid(mem, placed, cursor) && cursor <= later
    ensures Laid(mem, placed, later)
  {
    forall i | 0 <= i < |placed| ensures Stands(mem, placed[i], later) {
      assert Stands(mem, placed[i], cursor);
    }
  }

  /** Where a table of the given size ends if it is written next. */
  function Next(cursor: nat, size: nat): nat {
    AlignUp(cursor) + size
  }

  /** Where the first three of the five tables end, and where all five do. */
  function BodyEnd(body: nat, cpus: nat): nat {
    Next(Next(Next(0xA0000, 36 + body), 276), 56 + 8 * cpus)
  }

  function LayoutEnd(body: nat, cpus: nat): nat {
    Next(Next(BodyEnd(body, cpus), 44), 52)
  }

  /** A table is header and payload, its checksum patched in place. */
  method BuildSdt(sig: bytes, revision: byte, id: bytes, payload: bytes) returns (b: bytes)
    requires |sig| == 4 && |id| == 8
    ensures b == Sdt(sig, revision, id, payload)
  {
    hide HeaderBytes;
    var raw := HeaderBytes(sig, HEADER + |payload|, revision, id) + payload;
    var table := new byte[|raw|](i requires 0 <= i < |raw| => raw[i]);
    assert table[..] == raw;
    Finalize(table, 9);
    b := table[..];
  }

  /** The local APIC entries, one per processor. */
  method BuildLapics(n: nat) returns (b: bytes)
    ensures b == Lapics(n)
  {
    b := [];
    for i := 0 to n
      invariant b == Lapics(i)
    {
      b := b + ([0, 8, i % 256, i % 256] + Le(1, 4));
    }
  }

  method BuildMadt(n: nat) returns (b: bytes)
    ensures b == Madt(n)
  {
    hide Lapics, Le, Ascii, Sdt;
    var lapics := BuildLapics(n);
    var payload := Le(0xFEE0_0000, 4) + Le(0, 4) + ([1, 12, 0, 0] + Le(0xFEC0_0000, 4) + Le(0, 4)) + lapics;
    b := BuildSdt(Ascii("APIC"), 6, Ascii("GCMADT01"), payload);
  }

  /** The root pointer, its two checksums computed one after the other. */
  method BuildRsdp(rsdt: nat, xsdt: nat) returns (b: bytes)
    ensures b == RsdpBytes(rsdt, xsdt)
  {
    hide RsdpRaw, Sum;
    b := RsdpRaw(rsdt, xsdt);
    var first := Checksum(b[..20]);
    b := b[8 := first];
    var second := Checksum(b);
    b := b[32 := second];
  }

  /** The tables found in memory: each whole, aligned, in the region, and clear of the others. */
  ghost predicate InPlace(mem: bytes, mmio: seq<MmioDevice>, cpus: nat, placed: seq<Placed>) {
    |placed| == 5 && Laid(mem, placed, 0xE0000)
    && placed[0].table == DsdtTable(TermBytes(Tree(mmio)))
    && placed[1].table == Fadt(placed[0].addr)
    && placed[2].table == Madt(cpus)
    && placed[3].table == Rsdt(placed[1].addr, placed[2].addr)
    && placed[4].table == Xsdt(placed[1].addr, placed[2].addr)
  }

  /** Tables in place and the root pointer at its address are a readable firmware. */
  lemma InPlaceReads(mem: bytes, mmio: seq<MmioDevice>, cpus: nat, placed: seq<Placed>)
    requires InPlace(mem, mmio, cpus, placed) && |mmio| <= 1000
    requires Holds(mem, RSDP, RsdpBytes(placed[3].addr, placed[4].addr))
    ensures ReadFirmware(mem).Some? && SeenFirmware(ReadFirmware(mem).value, mmio, cpus)
  {
    hide Holds, DsdtTable, Fadt, Madt, Rsdt, Xsdt, RsdpBytes, ReadFirmware, TermBytes, Tree, SeenFirmware;
    assert Stands(mem, placed[0], SYSTEM_END);
    assert Stands(mem, placed[1], SYSTEM_END);
    assert Stands(mem, placed[2], SYSTEM_END);
    assert Stands(mem, placed[3], SYSTEM_END);
    assert Stands(mem, placed[4], SYSTEM_END);
    DsdtSize(TermBytes(Tree(mmio)));
    MadtSize(cpus);
    FirmwareSeen(mem, placed[0].addr, placed[1].addr, placed[2].addr, placed[3].addr, placed[4].addr, mmio, cpus);
  }

  lemma DsdtSize(body: bytes)
    ensures |DsdtTable(body)| == HEADER + |body|
  {
  }

  lemma MadtSize(n: nat)
    ensures |Madt(n)| == 56 + 8 * n
  {
  }

  lemma RootSizes(a: nat, b: nat)
    ensures |Rsdt(a, b)| == HEADER + 8 && |Xsdt(a, b)| == HEADER + 16
  {
  }

  /** The ways the tables may not fit or not exist. */
  ghost predicate Impossible(size: nat, vcpus: int, mmio: seq<MmioDevice>) {
    vcpus <= 0 || size < 0xE0024 || |mmio| > 1000
    || LayoutEnd(|TermBytes(Tree(mmio))|, vcpus) > 0xE0000
  }

  /** The first three tables of those in place. */
  ghost predicate BodyInPlace(mmio: seq<MmioDevice>, cpus: nat, placed: seq<Placed>) {
    |placed| == 3 && placed[0].table == DsdtTable(TermBytes(Tree(mmio)))
    && placed[1].table == Fadt(placed[0].addr) && placed[2].table == Madt(cpus)
  }

  /** DSDT, FADT and MADT. */
  method WriteBody(w: Writer, body: bytes, cpus: nat, ghost mmio: seq<MmioDevice>) returns (r: Option<(nat, nat)>)
    requires w.Valid() && w.cursor == SYSTEM_START && w.placed == [] && body == TermBytes(Tree(mmio))
    modifies w, w.mem
    ensures w.Valid()
    ensures r.None? <==> BodyEnd(|body|, cpus) > SYSTEM_END
    ensures r.Some? ==> BodyInPlace(mmio, cpus, w.placed) && r.value == (w.placed[1].addr, w.placed[2].addr)
    ensures r.Some? ==> w.cursor == BodyEnd(|body|, cpus)
  {
    hide Laid, SameOutside, Sdt, TermBytes, Tree, MadtPayload, FadtPayload, Ascii, AlignUp;
    DsdtSize(body);
    MadtSize(cpus);
    var dsdt := BuildSdt(Ascii("DSDT"), 2, Ascii("GCDSDT01"), body);
    var dsdtAddr := w.Write(dsdt);
    if dsdtAddr.None? {
      return None;
    }
    var fadt := BuildSdt(Ascii("FACP"), 6, Ascii("GCFADT01"), FadtPayload(dsdtAddr.value));
    var fadtAddr := w.Write(fadt);
    if fadtAddr.None? {
      return None;
    }
    var madt := BuildMadt(cpus);
    var madtAddr := w.Write(madt);
    if madtAddr.None? {
      return None;
    }
    return Some((fadtAddr.value, madtAddr.value));
  }

  /** The five tables, each written where the previous one ended. */
  method WriteTables(w: Writer, body: bytes, cpus: nat, ghost mmio: seq<MmioDevice>) returns (r: Option<(nat, nat)>)
    requires w.Valid() && w.cursor == SYSTEM_START && w.placed == [] && body == TermBytes(Tree(mmio))
    modifies w, w.mem
    ensures w.Valid()
    ensures r.None? <==> LayoutEnd(|body|, cpus) > SYSTEM_END
    ensures r.Some? ==> InPlace(w.mem[..], mmio, cpus, w.placed)
    ensures r.Some? ==> r.value == (w.placed[3].addr, w.placed[4].addr)
  {
    hide Laid, SameOutside, Sdt, TermBytes, Tree, Ascii, AlignUp, BodyEnd, DsdtTable, Fadt, Madt;
    var at := WriteBody(w, body, cpus, mmio);
    if at.None? {
      return None;
    }
    var fadt, madt := at.value.0, at.value.1;
    RootSizes(fadt, madt);
    var rsdt := BuildSdt(Ascii("RSDT"), 1, Ascii("GCRSDT01"), Le(fadt, 4) + Le(madt, 4));
    var rsdtAddr := w.Write(rsdt);
    if rsdtAddr.None? {
      return None;
    }
    var xsdt := BuildSdt(Ascii("XSDT"), 1, Ascii("GCXSDT01"), Le(fadt, 8) + Le(madt, 8));
    var xsdtAddr := w.Write(xsdt);
    if xsdtAddr.None? {
      return None;
    }
    LaidLater(w.mem[..], w.placed, w.cursor, SYSTEM_END);
    return Some((rsdtAddr.value, xsdtAddr.value));
  }

  /**
   * The tables are written exactly when there is a processor and everything exists and fits; then a reader
   * starting at the root pointer finds the device tree and the processors. Nothing outside the system region
   * and the root pointer changes.
   */
  method CreateX86Tables(mem: array<byte>, vcpus: int, mmio: seq<MmioDevice>) returns (r: Option<nat>, ghost placed: seq<Placed>)
    modifies mem
    ensures r.None? <==> Impossible(mem.Length, vcpus, mmio)
    ensures r.Some? ==> r.value == 0xE0000 && InPlace(mem[..], mmio, vcpus, placed)
    ensures r.Some? ==> ReadFirmware(mem[..]).Some? && SeenFirmware(ReadFirmware(mem[..]).value, mmio, vcpus)
    ensures SameOutside(old(mem[..]), mem[..], 0xA0000, 0xE0024)
  {
    hide InPlace, SameOutside, ReadFirmware, TermBytes, Tree, SeenFirmware, LayoutEnd, Laid, RsdpBytes, Holds;
    placed := [];
    ghost var was := mem[..];
    Same(was, SYSTEM_START, RSDP + HEADER);
    if vcpus <= 0 {
      return None, placed;
    }
    if mem.Length < RSDP + HEADER {
      return None, placed;
    }
    var body := BuildDsdt(mmio);
    if body.None? {
      return None, placed;
    }
    var w := new Writer(mem);
    var roots := WriteTables(w, body.value, vcpus, mmio);
    SameWider(was, mem[..], SYSTEM_START, SYSTEM_END, SYSTEM_START, RSDP + HEADER);
    if roots.None? {
      return None, placed;
    }
    placed := w.placed;
    var rsdp := BuildRsdp(roots.value.0, roots.value.1);
    ghost var now := mem[..];
    InPlaceKept(now, mmio, vcpus, placed, rsdp);
    PutHolds(now, RSDP, rsdp);
    PutSame(now, RSDP, rsdp, SYSTEM_START, RSDP + HEADER);
    CopyTo(mem, RSDP, rsdp);
    SameTrans(was, now, mem[..], SYSTEM_START, RSDP + HEADER);
    InPlaceReads(mem[..], mmio, vcpus, placed);
    r := Some(RSDP);
  }

  lemma Same(mem: bytes, lo: nat, hi: nat)
    ensures SameOutside(mem, mem, lo, hi)
  {
  }

  lemma InPlaceKept(mem: bytes, mmio: seq<MmioDevice>, cpus: nat, placed: seq<Placed>, b: bytes)
    requires InPlace(mem, mmio, cpus, placed) && RSDP + |b| <= |mem|
    ensures InPlace(Put(mem, RSDP, b), mmio, cpus, placed)
  {
    hide DsdtTable, Fadt, Madt, Rsdt, Xsdt, TermBytes, Tree, Put, Laid;
    LaidAbove(mem, placed, SYSTEM_END, RSDP, b);
  }
}
