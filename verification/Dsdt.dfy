/** The DSDT: a scope holding the serial port, the keyboard controller and one device per MMIO window. */
module Dsdt {
  import opened AcpiResources
  import opened Aml
  import opened AmlRoundTrip
  import opened Bytes
  import opened NulStrings
  import opened Prelude

  const MAX_DEVICES: nat := 1000

  datatype MmioDevice = MmioDevice(addr: nat, len: nat, gsi: nat)

  function Single(name: string): Path {
    Path(false, [Ascii(name)])
  }

  /** "V%03d": three digits at least. */
  function DeviceName(i: nat): (s: string)
    ensures |s| == 4 <==> i < MAX_DEVICES
    ensures s != [] && s[0] == 'V'
  {
    if i < MAX_DEVICES then ['V', Prelude.Digit(i / 100), Prelude.Digit(i / 10 % 10), Prelude.Digit(i % 10)]
    else
      ItoaLong(i);
      ['V'] + Itoa(i)
  }

  lemma {:induction false} ItoaLong(i: nat)
    requires i >= 1000
    ensures |Itoa(i)| >= 4
  {
    assert i / 10 / 10 >= 10;
    assert |Itoa(i / 10 / 10 / 10)| >= 1;
    assert |Itoa(i / 10 / 10)| >= 2;
    assert |Itoa(i / 10)| >= 3;
  }

  /** An EISA identifier: three letters (1 to 26) and four hexadecimal digits, most significant byte first. */
  function Compressed(a: nat, b: nat, c: nat, hex: nat): nat {
    0x400_0000 * a + 0x20_0000 * b + 0x1_0000 * c + hex
  }

  /** The same 32 bits with their bytes swapped, as the name object stores them. */
  function EisaId(a: nat, b: nat, c: nat, hex: nat): nat {
    LeVal(Be(Compressed(a, b, c, hex), 4))
  }

  /** What the operating system unpacks: the bytes in memory order are letters and digits in reading order. */
  lemma EisaBack(a: nat, b: nat, c: nat, hex: nat)
    requires a < 32 && b < 32 && c < 32 && hex < POW16
    ensures EisaId(a, b, c, hex) < POW32
    ensures BeVal(Le(EisaId(a, b, c, hex), 4)) == Compressed(a, b, c, hex)
    ensures var v := Compressed(a, b, c, hex);
      v / 0x400_0000 == a && v / 0x20_0000 % 32 == b && v / 0x1_0000 % 32 == c && v % POW16 == hex
  {
    var v := Compressed(a, b, c, hex);
    PowValues();
    BeRoundTrip(v, 4);
    LeOfLeVal(Be(v, 4));
    LeValBound(Be(v, 4));
    hide Be, BeVal, Le, LeVal, Pow256;
    assert v / 0x1_0000 == 1024 * a + 32 * b + c;
    assert v / 0x20_0000 == 32 * a + b;
  }

  function Hid(digits: nat): Term {
    Named(Single("_HID"), Int(EisaId(16, 14, 16, digits), 4))
  }

  function Crs(rs: seq<Resource>): Term {
    Named(Single("_CRS"), Buf(ResourcesBytes(rs)))
  }

  /** COM1: PNP0501, interrupt 4, ports 0x3F8 to 0x3FF. */
  function Com1(): Term {
    Device(Single("COM1"), [
      Hid(0x0501),
      Named(Single("_UID"), Int(0, 1)),
      Named(Single("_DDN"), Str(Ascii("COM1"))),
      Crs([Interrupt(true, true, false, false, 4), Io(0x3F8, 0x3F8, 0, 8)])])
  }

  /** The keyboard controller: PNP0303, ports 0x60 and 0x64, interrupt 1; _STA returns 0x0F. */
  function Ps2(): Term {
    Device(Single("PS2_"), [
      Hid(0x0303),
      Method(Single("_STA"), 0, [0xA4, 0x0A, 0x0F]),
      Crs([Io(0x60, 0x60, 0, 1), Io(0x64, 0x64, 0, 1), Interrupt(true, true, false, false, 1)])])
  }

  /** The window's address and length, cut to 32 bits, and its interrupt. */
  function Window(d: MmioDevice): seq<Resource> {
    [Memory(true, d.addr % POW32, d.len % POW32), Interrupt(true, true, false, false, d.gsi % POW32)]
  }

  function Mmio(i: nat, d: MmioDevice): Term {
    Device(Single(DeviceName(i)), [
      Named(Single("_HID"), Str(Ascii("LNRO0005"))),
      Named(Single("_UID"), Shortest(i)),
      Named(Single("_CCA"), Int(1, 0)),
      Crs(Window(d))])
  }

  function Mmios(mmio: seq<MmioDevice>): (r: seq<Term>)
    ensures |r| == |mmio|
  {
    seq(|mmio|, i requires 0 <= i < |mmio| => Mmio(i, mmio[i]))
  }

  /** The whole tree. */
  function Tree(mmio: seq<MmioDevice>): Term {
    Scope(Path(true, [Ascii("_SB_")]), [Com1(), Ps2()] + Mmios(mmio))
  }

  // ---------- the builder ----------

  /** A scope or device around its children, unless its path is malformed. */
  method AppendPackage(dst: bytes, op: bytes, path: Path, children: seq<bytes>) returns (r: Option<bytes>)
    ensures r.None? <==> path.parts == [] || exists i :: 0 <= i < |path.parts| && |path.parts[i]| != 4
    ensures r.Some? ==> r.value == dst + Package(op, PathBytes(path) + Join(children))
  {
    var encoded := EncodePath(path);
    if encoded.None? {
      return None;
    }
    var payload := encoded.value;
    assert children[..0] == [];
    for i := 0 to |children|
      invariant payload == encoded.value + Join(children[..i])
    {
      payload := payload + children[i];
      assert children[..i + 1] == children[..i] + [children[i]];
      JoinAppend(children[..i], children[i]);
    }
    assert children[..|children|] == children;
    r := Some(dst + op + PkgLength(|payload|) + payload);
    ConcatAssoc(dst, op, PkgLength(|payload|));
    ConcatAssoc(dst, op + PkgLength(|payload|), payload);
  }

  /** The children's bytes, one string each. */
  function Encoded(ts: seq<Term>): seq<bytes> {
    seq(|ts|, i requires 0 <= i < |ts| => TermBytes(ts[i]))
  }

  lemma {:induction false} EncodedJoin(ts: seq<Term>)
    ensures Join(Encoded(ts)) == TermsBytes(ts)
    decreases |ts|
  {
    hide TermBytes;
    if ts != [] {
      EncodedJoin(ts[1..]);
      assert Encoded(ts)[1..] == Encoded(ts[1..]);
    }
  }

  /** A device object named by a single part. */
  predicate OnePart(t: Term) {
    t.Device? && !t.path.root && |t.path.parts| == 1
  }

  method AppendDevice(t: Term) returns (r: Option<bytes>)
    requires OnePart(t)
    ensures r.None? <==> |t.path.parts[0]| != 4
    ensures r.Some? ==> r.value == TermBytes(t)
  {
    EncodedJoin(t.kids);
    r := AppendPackage([], [0x5B, 0x82], t.path, Encoded(t.kids));
  }

  lemma Shapes(i: nat, d: MmioDevice)
    ensures OnePart(Com1()) && |Com1().path.parts[0]| == 4
    ensures OnePart(Ps2()) && |Ps2().path.parts[0]| == 4
    ensures OnePart(Mmio(i, d)) && (|Mmio(i, d).path.parts[0]| == 4 <==> i < MAX_DEVICES)
  {
  }

  lemma MmiosStep(mmio: seq<MmioDevice>, i: nat)
    requires i < |mmio|
    ensures Mmios(mmio)[..i + 1] == Mmios(mmio)[..i] + [Mmio(i, mmio[i])]
  {
    hide Mmio;
  }

  lemma {:induction false} EncodedStep(ts: seq<Term>, t: Term)
    ensures Encoded(ts + [t]) == Encoded(ts) + [TermBytes(t)]
  {
    hide TermBytes;
  }

  /** The first i MMIO devices after the two fixed ones. */
  function Children(mmio: seq<MmioDevice>, i: nat): seq<Term>
    requires i <= |mmio|
  {
    [Com1(), Ps2()] + Mmios(mmio)[..i]
  }

  lemma ChildrenStep(mmio: seq<MmioDevice>, i: nat)
    requires i < |mmio|
    ensures Children(mmio, i + 1) == Children(mmio, i) + [Mmio(i, mmio[i])]
    ensures Children(mmio, 0) == [Com1(), Ps2()]
  {
    hide Com1, Ps2, Mmio, Mmios;
    MmiosStep(mmio, i);
    ConcatAssoc([Com1(), Ps2()], Mmios(mmio)[..i], [Mmio(i, mmio[i])]);
  }

  lemma ChildrenEnds(mmio: seq<MmioDevice>)
    ensures Children(mmio, 0) == [Com1(), Ps2()]
    ensures Encoded(Children(mmio, 0)) == [TermBytes(Com1()), TermBytes(Ps2())]
    ensures Tree(mmio) == Scope(Path(true, [Ascii("_SB_")]), Children(mmio, |mmio|))
  {
    hide Com1, Ps2, TermBytes;
    assert Mmios(mmio)[..|mmio|] == Mmios(mmio);
  }

  /** The DSDT body: it exists for up to 1000 MMIO devices, and is the tree above. */
  method BuildDsdt(mmio: seq<MmioDevice>) returns (r: Option<bytes>)
    ensures r.None? <==> |mmio| > 1000
    ensures r.Some? ==> r.value == TermBytes(Tree(mmio))
  {
    hide TermBytes, Package, PathBytes, Ascii, Com1, Ps2, Mmio, Mmios, Children, Encoded, Tree, Join;
    Shapes(0, MmioDevice(0, 0, 0));
    ChildrenEnds(mmio);
    var com1 := AppendDevice(Com1());
    var ps2 := AppendDevice(Ps2());
    var children := [com1.value, ps2.value];
    for i := 0 to |mmio|
      invariant i <= MAX_DEVICES
      invariant children == Encoded(Children(mmio, i))
    {
      Shapes(i, mmio[i]);
      var dev := AppendDevice(Mmio(i, mmio[i]));
      if dev.None? {
        return None;
      }
      ChildrenStep(mmio, i);
      EncodedStep(Children(mmio, i), Mmio(i, mmio[i]));
      children := children + [dev.value];
    }
    EncodedJoin(Children(mmio, |mmio|));
    r := AppendPackage([], [0x10], Path(true, [Ascii("_SB_")]), children);
    ScopeBytes(Path(true, [Ascii("_SB_")]), Children(mmio, |mmio|));
  }

  lemma {:induction false} ScopeBytes(path: Path, kids: seq<Term>)
    ensures TermBytes(Scope(path, kids)) == Package([0x10], PathBytes(path) + TermsBytes(kids))
  {
  }
}
