/** Walking the DSDT by package lengths finds the fixed devices and then every MMIO device, in order. */
module DsdtRead {
  import opened AcpiResources
  import opened Aml
  import opened AmlRoundTrip
  import opened Bytes
  import opened Dsdt
  import opened NulStrings
  import opened Prelude

  lemma SingleGood(name: string)
    requires |name| == 4 && ('A' <= name[0] <= 'Z' || name[0] == '_')
    ensures GoodPath(Single(name)) && |PathBytes(Single(name))| == 4
  {
    assert Ascii(name)[0] == name[0] as int;
    assert [Ascii(name)][1..] == [];
    assert Join([Ascii(name)]) == Ascii(name) + Join([]);
  }

  lemma RootGood()
    ensures GoodPath(Path(true, [Ascii("_SB_")])) && |PathBytes(Path(true, [Ascii("_SB_")]))| == 5
  {
    SingleGood("_SB_");
    assert Join([Ascii("_SB_")]) == Ascii("_SB_") + Join([Ascii("_SB_")][1..]);
  }

  lemma HidGood(digits: nat)
    requires digits < POW16
    ensures Good(Hid(digits)) && |TermBytes(Hid(digits))| == 10
  {
    hide EisaId, PathBytes, GoodPath, Pow256, Le;
    SingleGood("_HID");
    EisaBack(16, 14, 16, digits);
    PowValues();
  }

  lemma {:induction false} ResourcesSize(rs: seq<Resource>)
    ensures |ResourcesBytes(rs)| <= 12 * |rs| + 2
  {
    hide ResourceBytes;
    if rs != [] {
      ResourcesSize(rs[1..]);
    }
  }

  lemma IntSize(n: nat, width: nat)
    requires width <= 8
    ensures 1 <= |IntBytes(n, width)| <= 9
  {
  }

  lemma CrsGood(rs: seq<Resource>)
    requires |rs| <= 3
    ensures Good(Crs(rs)) && |TermBytes(Crs(rs))| <= 60
  {
    hide ResourcesBytes, PathBytes, GoodPath, IntBytes, PkgLength, Shortest;
    SingleGood("_CRS");
    ResourcesSize(rs);
    var payload := ResourcesBytes(rs);
    ShortestWidth(|payload|);
    IntSize(|payload|, Shortest(|payload|).width);
  }

  lemma ShortestWidth(n: nat)
    ensures Shortest(n).width <= 8
  {
  }

  lemma {:induction false} NamedGood(name: string, d: Data)
    requires |name| == 4 && name[0] == '_' && GoodData(d) && |DataBytes(d)| <= 20
    ensures Good(Named(Single(name), d)) && |TermBytes(Named(Single(name), d))| <= 25
  {
    hide PathBytes, GoodPath, DataBytes, GoodData;
    SingleGood(name);
  }

  lemma StrGood(s: string)
    requires |s| <= 10 && forall i :: 0 <= i < |s| ==> 0 < s[i] as int < 256
    ensures GoodData(Str(Ascii(s))) && |DataBytes(Str(Ascii(s)))| <= 20
  {
  }

  lemma IntDataGood(n: nat, width: nat)
    requires GoodInt(n, width)
    ensures GoodData(Int(n, width)) && |DataBytes(Int(n, width))| <= 20
  {
    hide GoodInt, IntBytes;
    WidthBound(n, width);
    IntSize(n, width);
  }

  lemma WidthBound(n: nat, width: nat)
    requires GoodInt(n, width)
    ensures width <= 8
  {
    hide Pow256;
  }

  lemma {:induction false} KidsCons(t: Term, rest: seq<Term>)
    requires Good(t) && GoodAll(rest)
    ensures GoodAll([t] + rest) && |TermsBytes([t] + rest)| == |TermBytes(t)| + |TermsBytes(rest)|
  {
    hide TermBytes, Good;
    assert ([t] + rest)[1..] == rest;
  }

  /** Up to four good children make a good list. */
  lemma {:induction false} KidsGood(a: Term, b: Term, c: Term, d: seq<Term>)
    requires Good(a) && Good(b) && Good(c) && |d| <= 1 && (d != [] ==> Good(d[0]) && |TermBytes(d[0])| <= 60)
    requires |TermBytes(a)| <= 60 && |TermBytes(b)| <= 60 && |TermBytes(c)| <= 60
    ensures GoodAll([a, b, c] + d) && |TermsBytes([a, b, c] + d)| <= 240
  {
    hide TermBytes, Good;
    if d != [] {
      assert d == [d[0]] + [];
      KidsCons(d[0], []);
    }
    KidsCons(c, d);
    KidsCons(b, [c] + d);
    KidsCons(a, [b] + ([c] + d));
    assert [a, b, c] + d == [a] + ([b] + ([c] + d));
  }

  lemma {:induction false} DeviceGood(name: string, kids: seq<Term>)
    requires |name| == 4 && 'A' <= name[0] <= 'Z' && GoodAll(kids) && |TermsBytes(kids)| <= 240
    ensures Good(Device(Single(name), kids)) && |TermBytes(Device(Single(name), kids))| <= 260
  {
    hide PathBytes, GoodPath, TermsBytes, GoodAll, PkgLength;
    SingleGood(name);
  }

  lemma Com1Good()
    ensures Good(Com1()) && |TermBytes(Com1())| <= 260
  {
    hide TermBytes, Good, Single, Hid, Crs, TermsBytes, GoodAll, GoodData, DataBytes, Ascii;
    var rs := [Interrupt(true, true, false, false, 4), Io(0x3F8, 0x3F8, 0, 8)];
    HidGood(0x0501);
    ByteGood(0);
    NamedGood("_UID", Int(0, 1));
    StrGood("COM1");
    NamedGood("_DDN", Str(Ascii("COM1")));
    CrsGood(rs);
    var a, b, c, d := Hid(0x0501), Named(Single("_UID"), Int(0, 1)), Named(Single("_DDN"), Str(Ascii("COM1"))), Crs(rs);
    KidsGood(a, b, c, [d]);
    assert [a, b, c] + [d] == [a, b, c, d];
    DeviceGood("COM1", [a, b, c, d]);
  }

  lemma ByteGood(n: nat)
    requires n < 256
    ensures GoodData(Int(n, 1)) && |DataBytes(Int(n, 1))| <= 20
  {
    PowValues();
    IntDataGood(n, 1);
  }

  lemma Ps2Good()
    ensures Good(Ps2()) && |TermBytes(Ps2())| <= 260
  {
    hide TermBytes, Good, Single, Hid, Crs, TermsBytes, GoodAll;
    var rs := [Io(0x60, 0x60, 0, 1), Io(0x64, 0x64, 0, 1), Interrupt(true, true, false, false, 1)];
    HidGood(0x0303);
    StaGood();
    CrsGood(rs);
    var a, b, c := Hid(0x0303), Method(Single("_STA"), 0, [0xA4, 0x0A, 0x0F]), Crs(rs);
    KidsGood(a, b, c, []);
    assert [a, b, c] + [] == [a, b, c];
    DeviceGood("PS2_", [a, b, c]);
  }

  lemma StaGood()
    ensures Good(Method(Single("_STA"), 0, [0xA4, 0x0A, 0x0F]))
    ensures |TermBytes(Method(Single("_STA"), 0, [0xA4, 0x0A, 0x0F]))| <= 60
  {
    hide PathBytes, GoodPath, PkgLength;
    SingleGood("_STA");
  }

  lemma MmioGood(i: nat, d: MmioDevice)
    requires i < MAX_DEVICES
    ensures Good(Mmio(i, d)) && |TermBytes(Mmio(i, d))| <= 260
  {
    hide TermBytes, Good, Single, Crs, TermsBytes, GoodAll, GoodData, DataBytes, Ascii, Shortest, GoodInt, Window, DeviceName;
    StrGood("LNRO0005");
    NamedGood("_HID", Str(Ascii("LNRO0005")));
    ShortestGood(i);
    IntDataGood(i, Shortest(i).width);
    NamedGood("_UID", Shortest(i));
    OneGood();
    NamedGood("_CCA", Int(1, 0));
    WindowSize(d);
    CrsGood(Window(d));
    var a, b, c, e := Named(Single("_HID"), Str(Ascii("LNRO0005"))), Named(Single("_UID"), Shortest(i)),
      Named(Single("_CCA"), Int(1, 0)), Crs(Window(d));
    KidsGood(a, b, c, [e]);
    assert [a, b, c] + [e] == [a, b, c, e];
    DeviceGood(DeviceName(i), [a, b, c, e]);
  }

  lemma OneGood()
    ensures GoodData(Int(1, 0)) && |DataBytes(Int(1, 0))| <= 20
  {
  }

  lemma WindowSize(d: MmioDevice)
    ensures |Window(d)| == 2
  {
  }

  lemma {:induction false} ListGood(ts: seq<Term>)
    requires forall i :: 0 <= i < |ts| ==> Good(ts[i]) && |TermBytes(ts[i])| <= 260
    ensures GoodAll(ts) && |TermsBytes(ts)| <= 260 * |ts|
    decreases |ts|
  {
    hide Good, TermBytes;
    if ts != [] {
      ListGood(ts[1..]);
    }
  }

  lemma TreeGood(mmio: seq<MmioDevice>)
    requires |mmio| <= MAX_DEVICES
    ensures Good(Tree(mmio)) && |TermBytes(Tree(mmio))| <= 0x4_0000 + 1000
  {
    hide Com1, Ps2, Mmio, PathBytes, GoodPath, PkgLength, TermsBytes, GoodAll;
    var kids := [Com1(), Ps2()] + Mmios(mmio);
    Com1Good();
    Ps2Good();
    forall i | 0 <= i < |kids| ensures Good(kids[i]) && |TermBytes(kids[i])| <= 260 {
      if i >= 2 {
        assert kids[i] == Mmio(i - 2, mmio[i - 2]);
        MmioGood(i - 2, mmio[i - 2]);
      }
    }
    ListGood(kids);
    RootGood();
  }

  /**
   * Reading the DSDT from its first byte by package lengths gives the scope with the two fixed devices
   * and then each MMIO device once, in order, and ends exactly at the last byte.
   */
  lemma DsdtBack(mmio: seq<MmioDevice>)
    requires |mmio| <= MAX_DEVICES
    ensures ReadTerm(TermBytes(Tree(mmio)), 0, |TermBytes(Tree(mmio))|)
      == Some((Scope(Path(true, [Ascii("_SB_")]), [Com1(), Ps2()] + Mmios(mmio)), |TermBytes(Tree(mmio))|))
  {
    TreeGood(mmio);
    hide TermBytes, ReadTerm, Good, Com1, Ps2, Mmios, Ascii;
    RoundTrip(Tree(mmio));
  }

  /** The operating system sees a device's own window exactly when address and length fit 32 bits. */
  lemma WindowBack(d: MmioDevice)
    requires d.gsi < POW32
    ensures ReadResources(ResourcesBytes(Window(d)), 0)
        == Some([Memory(true, d.addr, d.len), Interrupt(true, true, false, false, d.gsi)])
      <==> d.addr < POW32 && d.len < POW32
  {
    var b := ResourcesBytes(Window(d));
    hide ResourcesBytes, ReadResources;
    HoldsWhole(b);
    ResourcesBack(b, 0, Window(d));
  }

  /** Different devices have different names. */
  lemma NamesDiffer(i: nat, j: nat)
    requires i < j < MAX_DEVICES
    ensures DeviceName(i) != DeviceName(j)
  {
    DigitValue(i / 100);
    DigitValue(i / 10 % 10);
    DigitValue(i % 10);
    DigitValue(j / 100);
    DigitValue(j / 10 % 10);
    DigitValue(j % 10);
    ThreeDigits(i);
    ThreeDigits(j);
  }

  lemma DigitValue(n: nat)
    requires n < 10
    ensures Prelude.Digit(n) as int == '0' as int + n
  {
  }

  lemma ThreeDigits(i: nat)
    requires i < 1000
    ensures i == 100 * (i / 100) + 10 * (i / 10 % 10) + i % 10 && i / 100 < 10
  {
  }
}
