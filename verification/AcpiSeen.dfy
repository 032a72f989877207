/** What an operating system finds in the ACPI tables, value by value. */
module AcpiSeen {
  import opened Acpi
  import opened AcpiResources
  import opened Aml
  import opened Bytes
  import opened Dsdt
  import opened DsdtRead
  import opened Prelude

  // ---------- the devices ----------

  /** The value of the first name object so called. */
  function ValueOf(kids: seq<Term>, name: bytes): Option<Data> {
    if kids == [] then None
    else if kids[0].Named? && kids[0].path == Path(false, [name]) then Some(kids[0].value)
    else ValueOf(kids[1..], name)
  }

  /** The number a name object holds. */
  function NumberOf(kids: seq<Term>, name: bytes): Option<nat> {
    var v := ValueOf(kids, name);
    if v.Some? && v.value.Int? then Some(v.value.n) else None
  }

  /** The resources in the _CRS buffer. */
  function ResourcesOf(kids: seq<Term>): Option<seq<Resource>> {
    var v := ValueOf(kids, Ascii("_CRS"));
    if v.Some? && v.value.Buf? then ReadResources(v.value.payload, 0) else None
  }

  /** COM1: PNP0501, edge interrupt 4, eight ports from 0x3F8. */
  ghost predicate SeenCom1(t: Term) {
    && t.Device? && t.path == Path(false, [[0x43, 0x4F, 0x4D, 0x31]])
    && NumberOf(t.kids, Ascii("_HID")) == Some(0x0105D041) && NumberOf(t.kids, Ascii("_UID")) == Some(0)
    && ValueOf(t.kids, Ascii("_DDN")) == Some(Str([0x43, 0x4F, 0x4D, 0x31]))
    && ResourcesOf(t.kids) == Some([Interrupt(true, true, false, false, 4), Io(0x3F8, 0x3F8, 0, 8)])
  }

  /** The keyboard controller: PNP0303, present, one port at 0x60 and one at 0x64, edge interrupt 1. */
  ghost predicate SeenPs2(t: Term) {
    && t.Device? && t.path == Path(false, [[0x50, 0x53, 0x32, 0x5F]])
    && NumberOf(t.kids, Ascii("_HID")) == Some(0x0303D041)
    && Method(Path(false, [[0x5F, 0x53, 0x54, 0x41]]), 0, [0xA4, 0x0A, 0x0F]) in t.kids
    && ResourcesOf(t.kids) == Some([Io(0x60, 0x60, 0, 1), Io(0x64, 0x64, 0, 1), Interrupt(true, true, false, false, 1)])
  }

  /** Window number i: called V and three digits, a virtio-mmio device at the low 32 bits of its address. */
  ghost predicate SeenWindow(t: Term, i: nat, d: MmioDevice) {
    && i < 1000 && t.Device? && t.path == Path(false, [[0x56, 0x30 + i / 100, 0x30 + i / 10 % 10, 0x30 + i % 10]])
    && ValueOf(t.kids, Ascii("_HID")) == Some(Str([0x4C, 0x4E, 0x52, 0x4F, 0x30, 0x30, 0x30, 0x35]))
    && NumberOf(t.kids, Ascii("_UID")) == Some(i) && NumberOf(t.kids, Ascii("_CCA")) == Some(1)
    && ResourcesOf(t.kids) == Some([Memory(true, d.addr % 0x1_0000_0000, d.len % 0x1_0000_0000),
                                    Interrupt(true, true, false, false, d.gsi % 0x1_0000_0000)])
  }

  ghost predicate SeenTree(t: Term, mmio: seq<MmioDevice>) {
    && t.Scope? && t.path == Path(true, [[0x5F, 0x53, 0x42, 0x5F]]) && |t.kids| == 2 + |mmio|
    && SeenCom1(t.kids[0]) && SeenPs2(t.kids[1])
    && forall i :: 0 <= i < |mmio| ==> SeenWindow(t.kids[2 + i], i, mmio[i])
  }

  lemma SingleIs(name: string, b: bytes)
    requires |b| == |name| && forall i :: 0 <= i < |name| ==> name[i] as int == b[i]
    ensures Ascii(name) == b && Single(name) == Path(false, [b])
  {
  }

  /** Names that differ somewhere are different name objects. */
  lemma OtherName(a: string, b: string)
    requires |a| == 4 && |b| == 4 && a != b
    requires forall i :: 0 <= i < 4 ==> a[i] as int < 256 && b[i] as int < 256
    ensures Single(a) != Path(false, [Ascii(b)])
  {
    assert exists i :: 0 <= i < 4 && a[i] != b[i];
    var i :| 0 <= i < 4 && a[i] != b[i];
    assert Ascii(a)[i] != Ascii(b)[i];
  }

  lemma {:induction false} FindFirst(t: Term, rest: seq<Term>, name: bytes)
    ensures t.Named? && t.path == Path(false, [name]) ==> ValueOf([t] + rest, name) == Some(t.value)
    ensures !(t.Named? && t.path == Path(false, [name])) ==> ValueOf([t] + rest, name) == ValueOf(rest, name)
  {
    assert ([t] + rest)[1..] == rest;
  }

  /** The last of the children is the resource buffer, and the others have other names. */
  lemma {:induction false} CrsLast(kids: seq<Term>, rs: seq<Resource>)
    requires forall i :: 0 <= i < |kids| ==> kids[i].Named? ==> kids[i].path != Path(false, [Ascii("_CRS")])
    requires forall i :: 0 <= i < |rs| ==> GoodResource(rs[i])
    ensures ResourcesOf(kids + [Crs(rs)]) == Some(rs)
    decreases |kids|
  {
    hide ResourcesBytes, ReadResources, Ascii, GoodResource;
    if kids == [] {
      var b := ResourcesBytes(rs);
      HoldsWhole(b);
      ResourcesBack(b, 0, rs);
      assert [] + [Crs(rs)] == [Crs(rs)] + [];
      FindFirst(Crs(rs), [], Ascii("_CRS"));
    } else {
      var rest := kids[1..];
      CrsLast(rest, rs);
      assert kids + [Crs(rs)] == [kids[0]] + (rest + [Crs(rs)]);
      FindFirst(kids[0], rest + [Crs(rs)], Ascii("_CRS"));
    }
  }

  lemma {:induction false} BeStep(q: nat, x: byte, n: nat)
    ensures Be(256 * q + x, n + 1) == Be(q, n) + [x]
  {
    assert (256 * q + x) % 256 == x && (256 * q + x) / 256 == q;
  }

  lemma {:induction false} LeStep(x: byte, b: bytes)
    ensures LeVal([x] + b) == x + 256 * LeVal(b)
  {
    assert ([x] + b)[1..] == b;
  }

  /** The four bytes of a PNP identifier as the operating system's tables write them. */
  lemma {:induction false} Eisa(hi: byte, lo: byte)
    ensures EisaId(16, 14, 16, 256 * hi + lo) == 0xD041 + 0x1_0000 * hi + 0x100_0000 * lo
  {
    hide Be, LeVal;
    var v := Compressed(16, 14, 16, 256 * hi + lo);
    assert v == 256 * (256 * (256 * 0x41 + 0xD0) + hi) + lo;
    BeStep(256 * (256 * 0x41 + 0xD0) + hi, lo, 3);
    BeStep(256 * 0x41 + 0xD0, hi, 2);
    BeStep(0x41, 0xD0, 1);
    BeStep(0, 0x41, 0);
    assert Be(0, 0) == [];
    assert Be(v, 4) == [0x41] + ([0xD0] + ([hi] + ([lo] + [])));
    LeStep(0x41, [0xD0] + ([hi] + ([lo] + [])));
    LeStep(0xD0, [hi] + ([lo] + []));
    LeStep(hi, [lo] + []);
    LeStep(lo, []);
    assert LeVal([]) == 0 by {
      NoBytes();
    }
  }

  lemma NoBytes()
    ensures LeVal([]) == 0
  {
  }

  /** The names used are different names. */
  lemma NamesApart()
    ensures Single("_HID") != Path(false, [Ascii("_UID")]) && Single("_HID") != Path(false, [Ascii("_DDN")])
    ensures Single("_HID") != Path(false, [Ascii("_CCA")]) && Single("_HID") != Path(false, [Ascii("_CRS")])
    ensures Single("_UID") != Path(false, [Ascii("_DDN")]) && Single("_UID") != Path(false, [Ascii("_CCA")])
    ensures Single("_UID") != Path(false, [Ascii("_CRS")])
    ensures Single("_DDN") != Path(false, [Ascii("_CRS")]) && Single("_CCA") != Path(false, [Ascii("_CRS")])
  {
    hide Ascii, Single;
    OtherName("_HID", "_UID");
    OtherName("_HID", "_DDN");
    OtherName("_HID", "_CCA");
    OtherName("_HID", "_CRS");
    OtherName("_UID", "_DDN");
    OtherName("_UID", "_CCA");
    OtherName("_UID", "_CRS");
    OtherName("_DDN", "_CRS");
    OtherName("_CCA", "_CRS");
  }

  lemma Com1Seen()
    ensures SeenCom1(Com1())
  {
    hide Ascii, EisaId, ReadResources, ResourcesBytes, GoodResource, ResourcesOf, ValueOf;
    SingleIs("COM1", [0x43, 0x4F, 0x4D, 0x31]);
    Eisa(0x05, 0x01);
    NamesApart();
    var rs := [Interrupt(true, true, false, false, 4), Io(0x3F8, 0x3F8, 0, 8)];
    var a, b, c := Hid(0x0501), Named(Single("_UID"), Int(0, 1)), Named(Single("_DDN"), Str(Ascii("COM1")));
    FixedResources();
    CrsLast([a, b, c], rs);
    assert [a, b, c] + [Crs(rs)] == [a, b, c, Crs(rs)];
    Find3(a, b, c, Crs(rs), Ascii("_HID"));
    Find3(a, b, c, Crs(rs), Ascii("_UID"));
    Find3(a, b, c, Crs(rs), Ascii("_DDN"));
  }

  lemma Ps2Seen()
    ensures SeenPs2(Ps2())
  {
    hide Ascii, EisaId, ReadResources, ResourcesBytes, GoodResource, ResourcesOf, ValueOf;
    SingleIs("PS2_", [0x50, 0x53, 0x32, 0x5F]);
    SingleIs("_STA", [0x5F, 0x53, 0x54, 0x41]);
    Eisa(0x03, 0x03);
    NamesApart();
    var rs := [Io(0x60, 0x60, 0, 1), Io(0x64, 0x64, 0, 1), Interrupt(true, true, false, false, 1)];
    var a, b := Hid(0x0303), Method(Single("_STA"), 0, [0xA4, 0x0A, 0x0F]);
    FixedResources();
    CrsLast([a, b], rs);
    assert [a, b] + [Crs(rs)] == [a, b, Crs(rs)] == [a] + [b, Crs(rs)];
    FindFirst(a, [b, Crs(rs)], Ascii("_HID"));
    assert Ps2().kids[1] == b;
  }

  lemma FixedResources()
    ensures GoodResource(Interrupt(true, true, false, false, 4)) && GoodResource(Io(0x3F8, 0x3F8, 0, 8))
    ensures GoodResource(Io(0x60, 0x60, 0, 1)) && GoodResource(Io(0x64, 0x64, 0, 1))
    ensures GoodResource(Interrupt(true, true, false, false, 1))
  {
  }

  lemma WindowSeen(i: nat, d: MmioDevice)
    requires i < 1000
    ensures SeenWindow(Mmio(i, d), i, d)
  {
    hide Ascii, ReadResources, ResourcesBytes, GoodResource, ResourcesOf, ValueOf, DeviceName;
    NameIs(i);
    SingleIs("LNRO0005", [0x4C, 0x4E, 0x52, 0x4F, 0x30, 0x30, 0x30, 0x35]);
    NamesApart();
    WindowIs(d);
    var a, b, c := Named(Single("_HID"), Str(Ascii("LNRO0005"))), Named(Single("_UID"), Shortest(i)), Named(Single("_CCA"), Int(1, 0));
    CrsLast([a, b, c], Window(d));
    assert [a, b, c] + [Crs(Window(d))] == [a, b, c, Crs(Window(d))];
    Find3(a, b, c, Crs(Window(d)), Ascii("_HID"));
    Find3(a, b, c, Crs(Window(d)), Ascii("_UID"));
    Find3(a, b, c, Crs(Window(d)), Ascii("_CCA"));
  }

  lemma NameIs(i: nat)
    requires i < 1000
    ensures Single(DeviceName(i)) == Path(false, [[0x56, 0x30 + i / 100, 0x30 + i / 10 % 10, 0x30 + i % 10]])
  {
    ThreeDigits(i);
    DigitValue(i / 100);
    DigitValue(i / 10 % 10);
    DigitValue(i % 10);
    SingleIs(DeviceName(i), [0x56, 0x30 + i / 100, 0x30 + i / 10 % 10, 0x30 + i % 10]);
  }

  lemma WindowIs(d: MmioDevice)
    ensures Window(d) == [Memory(true, d.addr % 0x1_0000_0000, d.len % 0x1_0000_0000),
                          Interrupt(true, true, false, false, d.gsi % 0x1_0000_0000)]
    ensures forall i :: 0 <= i < |Window(d)| ==> GoodResource(Window(d)[i])
  {
  }

  /** Read from its first byte, the DSDT is these devices and nothing else; it ends at its last byte. */
  lemma DsdtSeen(mmio: seq<MmioDevice>)
    requires |mmio| <= 1000
    ensures var b := TermBytes(Tree(mmio));
            var r := ReadTerm(b, 0, |b|);
            r.Some? && SeenTree(r.value.0, mmio) && r.value.1 == |b|
  {
    hide TermBytes, ReadTerm, Com1, Ps2, Mmio, SeenCom1, SeenPs2, SeenWindow, Ascii;
    DsdtBack(mmio);
    SingleIs("_SB_", [0x5F, 0x53, 0x42, 0x5F]);
    Com1Seen();
    Ps2Seen();
    forall i | 0 <= i < |mmio| ensures SeenWindow(([Com1(), Ps2()] + Mmios(mmio))[2 + i], i, mmio[i]) {
      WindowSeen(i, mmio[i]);
    }
  }

  lemma {:induction false} Find3(a: Term, b: Term, c: Term, d: Term, name: bytes)
    requires a.Named? && b.Named? && c.Named?
    ensures a.path == Path(false, [name]) ==> ValueOf([a, b, c, d], name) == Some(a.value)
    ensures a.path != Path(false, [name]) && b.path == Path(false, [name]) ==> ValueOf([a, b, c, d], name) == Some(b.value)
    ensures a.path != Path(false, [name]) && b.path != Path(false, [name]) && c.path == Path(false, [name]) ==>
              ValueOf([a, b, c, d], name) == Some(c.value)
  {
    hide ValueOf;
    assert [a, b, c, d] == [a] + [b, c, d] && [b, c, d] == [b] + [c, d] && [c, d] == [c] + [d];
    FindFirst(a, [b, c, d], name);
    FindFirst(b, [c, d], name);
    FindFirst(c, [d], name);
  }

  // ---------- the other tables ----------

  ghost predicate AllZero(b: bytes, lo: nat, hi: nat) {
    lo <= hi <= |b| && forall i :: lo <= i < hi ==> b[i] == 0
  }

  /** The FADT after its header: hardware-reduced, both buttons, minor version 5, hypervisor GOCRKVM, and zeros but for the DSDT address. */
  ghost predicate SeenFadt(p: bytes) {
    && |p| == 240
    && LeVal(p[73..75]) == 4 && LeVal(p[76..80]) == 0x10_0030 && p[95] == 5
    && p[232..240] == [0x47, 0x4F, 0x43, 0x52, 0x4B, 0x56, 0x4D, 0x20]
    && AllZero(p, 0, 4) && AllZero(p, 8, 73) && p[75] == 0 && AllZero(p, 80, 95) && AllZero(p, 96, 104) && AllZero(p, 112, 232)
  }

  lemma FadtSeen(dsdt: nat)
    ensures SeenFadt(FadtPayload(dsdt))
  {
    hide Le, LeVal, Pow256;
    var p := FadtPayload(dsdt);
    PowValues();
    LeRoundTrip(4, 2);
    LeRoundTrip(0x10_0030, 4);
    assert p[73..75] == Le(4, 2) && p[76..80] == Le(0x10_0030, 4);
    assert p[232..240] == Ascii("GOCRKVM ");
    SingleIs("GOCRKVM ", [0x47, 0x4F, 0x43, 0x52, 0x4B, 0x56, 0x4D, 0x20]);
  }

  /** The MADT: local APICs at 0xFEE00000, I/O APIC 0 at 0xFEC00000 from interrupt 0, and n enabled processors. */
  ghost predicate SeenMadt(p: bytes, n: nat) {
    && |p| == 20 + 8 * n
    && LeVal(p[0..4]) == 0xFEE0_0000 && LeVal(p[4..8]) == 0
    && p[8..12] == [1, 12, 0, 0] && LeVal(p[12..16]) == 0xFEC0_0000 && LeVal(p[16..20]) == 0
    && forall i {:trigger p[20 + 8 * i]} :: 0 <= i < n ==>
         p[20 + 8 * i..28 + 8 * i] == [0, 8, i % 256, i % 256, 1, 0, 0, 0]
  }

  lemma MadtSeen(n: nat)
    ensures SeenMadt(MadtPayload(n), n)
  {
    hide Le, LeVal, Pow256, Lapics, Holds;
    var p := MadtPayload(n);
    PowValues();
    LeRoundTrip(0xFEE0_0000, 4);
    LeRoundTrip(0, 4);
    LeRoundTrip(0xFEC0_0000, 4);
    assert p[0..4] == Le(0xFEE0_0000, 4) && p[4..8] == Le(0, 4);
    assert p[12..16] == Le(0xFEC0_0000, 4) && p[16..20] == Le(0, 4);
    HoldsTail(p, 20, Lapics(n));
    OneLe();
    forall i | 0 <= i < n ensures p[20 + 8 * i..28 + 8 * i] == [0, 8, i % 256, i % 256, 1, 0, 0, 0] {
      LapicPlace(p, 20, n, i);
      HoldsSlice(p, 20 + 8 * i, [0, 8, i % 256, i % 256] + Le(1, 4));
    }
  }

  lemma {:induction false} OneLe()
    ensures Le(1, 4) == [1, 0, 0, 0]
  {
    assert Le(0, 3) == [0] + Le(0, 2) && Le(0, 2) == [0] + Le(0, 1);
  }

  /** A table by GOCRKR, made by GCAT 0x20260402, of the given revision and name. */
  ghost predicate SeenHeader(t: Table, revision: byte, id: string) {
    && t.revision == revision && t.oem == [0x47, 0x4F, 0x43, 0x52, 0x4B, 0x52] && t.id == Ascii(id) && t.oemRevision == 0
    && t.creator == [0x47, 0x43, 0x41, 0x54] && t.creatorRevision == 0x2026_0402
  }

  lemma HeaderSeen(revision: byte, id: string, payload: bytes)
    ensures SeenHeader(Written(revision, Ascii(id), payload), revision, id)
  {
    SingleIs("GOCRKR", [0x47, 0x4F, 0x43, 0x52, 0x4B, 0x52]);
    SingleIs("GCAT", [0x47, 0x43, 0x41, 0x54]);
  }

  /** All that the reader of the firmware finds. */
  ghost predicate SeenFirmware(f: Firmware, mmio: seq<MmioDevice>, n: nat) {
    && SeenHeader(f.rsdt, 1, "GCRSDT01") && SeenHeader(f.xsdt, 1, "GCXSDT01") && SeenHeader(f.fadt, 6, "GCFADT01")
    && SeenHeader(f.madt, 6, "GCMADT01") && SeenHeader(f.dsdt, 2, "GCDSDT01")
    && SeenFadt(f.fadt.payload) && SeenMadt(f.madt.payload, n)
    && var r := ReadTerm(f.dsdt.payload, 0, |f.dsdt.payload|);
       r.Some? && SeenTree(r.value.0, mmio) && r.value.1 == |f.dsdt.payload|
  }

  lemma FirmwareSeen(mem: bytes, dsdt: nat, fadt: nat, madt: nat, rsdt: nat, xsdt: nat, mmio: seq<MmioDevice>, cpus: nat)
    requires dsdt < POW32 && fadt < POW32 && madt < POW32 && rsdt < POW32 && xsdt < POW32
    requires |mmio| <= 1000 && 36 + |TermBytes(Tree(mmio))| < POW32 && 56 + 8 * cpus < POW32
    requires Holds(mem, dsdt, DsdtTable(TermBytes(Tree(mmio)))) && Holds(mem, fadt, Fadt(dsdt)) && Holds(mem, madt, Madt(cpus))
    requires Holds(mem, rsdt, Rsdt(fadt, madt)) && Holds(mem, xsdt, Xsdt(fadt, madt))
    requires Holds(mem, RSDP, RsdpBytes(rsdt, xsdt))
    ensures ReadFirmware(mem).Some? && SeenFirmware(ReadFirmware(mem).value, mmio, cpus)
  {
    hide TermBytes, Tree, Holds, DsdtTable, Fadt, Madt, Rsdt, Xsdt, RsdpBytes, ReadFirmware, Ascii, Le, SeenHeader, SeenFadt, SeenMadt,
      SeenTree, ReadTerm, MadtPayload, FadtPayload;
    var body := TermBytes(Tree(mmio));
    FirmwareBack(mem, dsdt, fadt, madt, rsdt, xsdt, body, cpus);
    HeaderSeen(1, "GCRSDT01", Le(fadt, 4) + Le(madt, 4));
    HeaderSeen(1, "GCXSDT01", Le(fadt, 8) + Le(madt, 8));
    HeaderSeen(6, "GCFADT01", FadtPayload(dsdt));
    HeaderSeen(6, "GCMADT01", MadtPayload(cpus));
    HeaderSeen(2, "GCDSDT01", body);
    FadtSeen(dsdt);
    MadtSeen(cpus);
    DsdtSeen(mmio);
  }
}
