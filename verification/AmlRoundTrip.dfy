/** Reading back what was written: package lengths give exact extents, and every object comes back. */
module AmlRoundTrip {
  import opened Aml
  import opened Bytes
  import opened NulStrings
  import opened Prelude

  /** Lengths and integers take the shortest form that holds them. */
  lemma Compact(payload: nat, n: nat)
    ensures |PkgLength(payload)| ==
      if payload + 1 <= 0x3F then 1 else if payload + 2 <= 0xFFF then 2 else if payload + 3 <= 0xF_FFFF then 3 else 4
    ensures Shortest(n) == Int(n, if n in {0, 1, 0xFFFF_FFFF_FFFF_FFFF} then 0 else if n < 0x100 then 1 else if n < 0x1_0000 then 2
                                  else if n < 0x1_0000_0000 then 4 else 8)
  {
  }

  /** Up to 28 bits, a package length gives back exactly the extent. */
  lemma PkgBack(b: bytes, pos: nat, payload: nat)
    requires Holds(b, pos, PkgLength(payload)) && payload + PkgBytes(payload) < MAX_PKG
    ensures ReadPkg(b, pos) == Some((payload + PkgBytes(payload), PkgBytes(payload)))
  {
    var p := PkgLength(payload);
    PkgDigits(payload, payload + PkgBytes(payload));
    PkgSame(b, pos, p);
  }

  /** What is read depends only on the bytes of the length itself. */
  lemma PkgSame(b: bytes, pos: nat, p: bytes)
    requires Holds(b, pos, p) && p != [] && |p| == p[0] / 64 + 1
    ensures ReadPkg(b, pos) == ReadPkg(p, 0)
  {
    forall i | 0 <= i < |p| ensures b[pos + i] == p[i] {
      assert b[pos..pos + |p|][i] == p[i];
    }
    hide Digits;
    assert b[pos + 0] == p[0];
  }

  lemma PkgDigits(payload: nat, length: nat)
    requires length == payload + PkgBytes(payload) && length < MAX_PKG
    ensures ReadPkg(PkgLength(payload), 0) == Some((length, PkgBytes(payload)))
    ensures |PkgLength(payload)| == PkgLength(payload)[0] / 64 + 1
  {
    hide Spread, LengthShape;
    if PkgBytes(payload) > 1 {
      var r, x, y, z := length % 16, length / 16 % 256, length / 4096 % 256, length / 0x10_0000 % 256;
      LengthDigits(length);
      SpreadBack(PkgBytes(payload), length, r, x, y, z);
    }
  }

  lemma SpreadBack(n: nat, length: nat, r: nat, x: byte, y: byte, z: byte)
    requires 2 <= n <= 4 && r < 16 && LengthShape(length, r, x, y, z)
    requires n <= 3 ==> length < 0x10_0000
    requires n == 2 ==> length < 4096
    ensures ReadPkg(Spread(n, r, x, y, z), 0) == Some((length, n)) && Spread(n, r, x, y, z)[0] / 64 + 1 == n
  {
    hide Digits, ReadPkg;
    LeadByte(r);
    if n == 2 {
      DigitsLead(64, r, x, 0, 0);
      ReadTwo(64 + r, x);
    } else if n == 3 {
      DigitsLead(128, r, x, y, 0);
      ReadThree(128 + r, x, y);
    } else {
      DigitsLead(192, r, x, y, z);
      ReadFour(192 + r, x, y, z);
    }
  }

  lemma ReadTwo(lead: byte, x: byte)
    requires lead / 64 == 1
    ensures ReadPkg([lead, x], 0) == Some((Digits(lead, x, 0, 0), 2))
  {
    hide Digits;
  }

  lemma ReadThree(lead: byte, x: byte, y: byte)
    requires lead / 64 == 2
    ensures ReadPkg([lead, x, y], 0) == Some((Digits(lead, x, y, 0), 3))
  {
    hide Digits;
  }

  lemma ReadFour(lead: byte, x: byte, y: byte, z: byte)
    requires lead / 64 == 3
    ensures ReadPkg([lead, x, y, z], 0) == Some((Digits(lead, x, y, z), 4))
  {
    hide Digits;
  }

  /** A length below 28 bits, put together from its four pieces. */
  predicate LengthShape(length: nat, r: nat, x: nat, y: nat, z: nat) {
    length == r + 16 * x + 4096 * y + 0x10_0000 * z
    && (length < 0x10_0000 ==> z == 0) && (length < 4096 ==> y == 0)
  }

  lemma LeadByte(r: nat)
    requires r < 16
    ensures (64 + r) / 64 == 1 && (128 + r) / 64 == 2 && (192 + r) / 64 == 3
  {
  }

  lemma DigitsLead(k: nat, r: nat, x: nat, y: nat, z: nat)
    requires r < 16 && k % 16 == 0
    ensures Digits(k + r, x, y, z) == r + 16 * x + 4096 * y + 0x10_0000 * z
  {
  }

  lemma LengthDigits(length: nat)
    requires length < MAX_PKG
    ensures LengthShape(length, length % 16, length / 16 % 256, length / 4096 % 256, length / 0x10_0000 % 256)
  {
    var a := length / 16;
    var b := a / 256;
    var c := b / 256;
    assert length / 4096 == b;
    assert length / 0x10_0000 == c;
    assert c < 256;
  }

  /** The condition is exact: a longer package reads back as something else. */
  lemma PkgExactly(payload: nat)
    ensures ReadPkg(PkgLength(payload), 0) == Some((payload + PkgBytes(payload), PkgBytes(payload)))
      <==> payload + PkgBytes(payload) < MAX_PKG
  {
    if payload + PkgBytes(payload) < MAX_PKG {
      PkgDigits(payload, payload + PkgBytes(payload));
    } else {
      assert PkgBytes(payload) == 4;
    }
  }

  /** The three pieces of a package, where they stand, and the span read there. */
  lemma PackageParts(b: bytes, pos: nat, op: bytes, payload: bytes, end: nat)
    requires Holds(b, pos, Package(op, payload)) && |b| <= MAX_PKG && op != []
    requires pos + |Package(op, payload)| <= end <= |b|
    ensures Holds(b, pos, op)
    ensures ReadSpan(b, pos + |op|, end)
      == Some((pos + |op| + PkgBytes(|payload|), pos + |op| + PkgBytes(|payload|) + |payload|))
    ensures Holds(b, pos + |op| + PkgBytes(|payload|), payload)
    ensures |Package(op, payload)| == |op| + PkgBytes(|payload|) + |payload|
  {
    hide Holds, PkgLength, ReadPkg;
    var len := PkgLength(|payload|);
    HoldsSplit(b, pos, op + len, payload);
    HoldsSplit(b, pos, op, len);
    PkgBack(b, pos + |op|, |payload|);
  }

  // ---------- paths ----------

  predicate NameChar(c: byte) {
    0x41 <= c <= 0x5A || 0x30 <= c <= 0x39 || c == 0x5F
  }

  predicate GoodPart(p: bytes) {
    |p| == 4 && NameChar(p[0])
  }

  /** At most 255 parts: the part count is one byte. */
  predicate GoodPath(p: Path) {
    1 <= |p.parts| <= 255 && forall i :: 0 <= i < |p.parts| ==> GoodPart(p.parts[i])
  }

  lemma {:induction false} PartsBack(b: bytes, pos: nat, parts: seq<bytes>)
    requires Holds(b, pos, Join(parts)) && forall i :: 0 <= i < |parts| ==> GoodPart(parts[i])
    ensures |Join(parts)| == 4 * |parts| && pos + 4 * |parts| <= |b|
    ensures ReadParts(b, pos, |parts|) == parts
    decreases |parts|
  {
    hide Holds;
    if parts == [] {
      HoldsSlice(b, pos, []);
    } else {
      HoldsSplit(b, pos, parts[0], Join(parts[1..]));
      HoldsSlice(b, pos, parts[0]);
      PartsBack(b, pos + 4, parts[1..]);
      assert parts == [parts[0]] + parts[1..];
    }
  }

  lemma PathBack(b: bytes, pos: nat, p: Path)
    requires Holds(b, pos, PathBytes(p)) && GoodPath(p)
    ensures ReadPath(b, pos) == Some((p, pos + |PathBytes(p)|))
  {
    hide Holds, ReadParts, Join, GoodPart, CountBytes, ReadCount;
    var rest := CountBytes(|p.parts|) + Join(p.parts);
    var lead := if p.root then [0x5C] else [];
    HoldsSplit(b, pos, lead, rest);
    var at := pos + |lead|;
    HoldsSplit(b, at, CountBytes(|p.parts|), Join(p.parts));
    PartsBack(b, at + |CountBytes(|p.parts|)|, p.parts);
    CountBack(b, at, p.parts);
    if p.root {
      OneAt(b, pos, 0x5C);
    }
  }

  /** The part count reads back, and does not look like a root mark. */
  lemma {:induction false} CountBack(b: bytes, at: nat, parts: seq<bytes>)
    requires Holds(b, at, CountBytes(|parts|) + Join(parts)) && 1 <= |parts| <= 255 && GoodPart(parts[0])
    ensures at < |b| && b[at] != 0x5C
    ensures ReadCount(b, at) == Some((|parts|, at + |CountBytes(|parts|)|))
  {
    hide Holds, Join, GoodPart;
    HoldsSplit(b, at, CountBytes(|parts|), Join(parts));
    if |parts| == 1 {
      FirstChar(b, at, parts);
    } else if |parts| == 2 {
      OneAt(b, at, 0x2E);
    } else {
      TwoAt(b, at, 0x2F, |parts|);
    }
  }

  lemma {:induction false} FirstChar(b: bytes, pos: nat, parts: seq<bytes>)
    requires parts != [] && GoodPart(parts[0]) && Holds(b, pos, Join(parts))
    ensures pos < |b| && b[pos] != 0x5C && b[pos] != 0x2E && b[pos] != 0x2F
  {
    HoldsSplit(b, pos, parts[0], Join(parts[1..]));
    OpAt(b, pos, parts[0]);
    assert b[pos + 0] == parts[0][0];
  }

  // ---------- data ----------

  predicate GoodInt(n: nat, width: nat) {
    if width == 0 then n == 0 || n == 1 || n == ONES
    else (width == 1 || width == 2 || width == 4 || width == 8) && n < Pow256(width)
  }

  ghost predicate GoodData(d: Data) {
    match d
    case Int(n, width) => GoodInt(n, width)
    case Str(text) => NulFree(text)
    case Buf(payload) => true
  }

  lemma IntBack(b: bytes, pos: nat, n: nat, width: nat)
    requires Holds(b, pos, IntBytes(n, width)) && GoodInt(n, width)
    ensures ReadInt(b, pos) == Some((Int(n, width), pos + |IntBytes(n, width)|))
  {
    hide Le, LeVal, Pow256, Holds;
    if width == 0 {
      OneAt(b, pos, IntBytes(n, width)[0]);
    } else {
      var op := if width == 1 then 0x0A else if width == 2 then 0x0B else if width == 4 then 0x0C else 0x0E;
      HoldsSplit(b, pos, [op], Le(n, width));
      OneAt(b, pos, op);
      LeRoundTrip(n, width);
      HoldsSlice(b, pos + 1, Le(n, width));
    }
  }

  lemma ShortestGood(n: nat)
    requires n < POW64
    ensures GoodInt(n, Shortest(n).width)
  {
    PowValues();
  }

  lemma IntFirst(b: bytes, pos: nat, n: nat, width: nat)
    requires Holds(b, pos, IntBytes(n, width))
    ensures pos < |b| && b[pos] != 0x0D && b[pos] != 0x11
  {
    hide Le;
    OpAt(b, pos, IntBytes(n, width));
    assert b[pos + 0] == IntBytes(n, width)[0];
  }

  lemma DataBack(b: bytes, pos: nat, d: Data, end: nat)
    requires Holds(b, pos, DataBytes(d)) && GoodData(d) && |b| <= MAX_PKG
    requires pos + |DataBytes(d)| <= end <= |b|
    ensures ReadData(b, pos, end) == Some((d, pos + |DataBytes(d)|))
  {
    hide IntBytes, ReadInt, GoodInt, Holds;
    match d
    case Int(n, width) =>
      IntBack(b, pos, n, width);
      IntFirst(b, pos, n, width);
    case Str(text) =>
      HoldsSplit(b, pos, [0x0D], text + [0]);
      OneAt(b, pos, 0x0D);
      CStringAt(b, pos + 1, text);
      hide CString;
    case Buf(payload) =>
      BufBack(b, pos, payload, end);
  }

  lemma BufBack(b: bytes, pos: nat, payload: bytes, end: nat)
    requires Holds(b, pos, Package([0x11], BufBody(payload))) && |b| <= MAX_PKG
    requires pos + |Package([0x11], BufBody(payload))| <= end <= |b|
    ensures ReadData(b, pos, end) == Some((Buf(payload), pos + |Package([0x11], BufBody(payload))|))
  {
    hide Holds, Package, ReadInt, IntBytes, Shortest, ReadSpan, PkgBytes, GoodInt;
    var body := BufBody(payload);
    var width := Shortest(|payload|).width;
    PackageParts(b, pos, [0x11], body, end);
    OneAt(b, pos, 0x11);
    var at := pos + 1 + PkgBytes(|body|);
    var size := IntBytes(|payload|, width);
    HoldsSplit(b, at, size, payload);
    ShortestGood(|payload|);
    IntBack(b, at, |payload|, width);
    HoldsSlice(b, at + |size|, payload);
  }

  // ---------- objects ----------

  ghost predicate Good(t: Term)
    decreases t, 1
  {
    GoodPath(t.path)
    && match t
       case Scope(_, kids) => GoodAll(kids)
       case Device(_, kids) => GoodAll(kids)
       case Named(_, value) => GoodData(value)
       case Method(_, _, _) => true
  }

  ghost predicate GoodAll(ts: seq<Term>)
    decreases ts, 0
  {
    ts == [] || (Good(ts[0]) && GoodAll(ts[1..]))
  }

  lemma {:induction false} TermSize(t: Term)
    ensures |TermBytes(t)| >= 2
  {
    hide PathBytes, TermsBytes, DataBytes, PkgLength;
    match t
    case Scope(_, _) =>
    case Device(_, _) =>
    case Method(_, _, _) =>
    case Named(path, value) =>
      DataNonEmpty(value);
  }

  lemma DataNonEmpty(d: Data)
    ensures |DataBytes(d)| >= 1
  {
  }

  lemma {:induction false} TermBack(b: bytes, pos: nat, t: Term, end: nat)
    requires Holds(b, pos, TermBytes(t)) && Good(t) && |b| <= MAX_PKG && pos + |TermBytes(t)| <= end <= |b|
    ensures ReadTerm(b, pos, end) == Some((t, pos + |TermBytes(t)|))
    decreases t, 1
  {
    hide Holds, Package, PathBytes, TermsBytes, DataBytes, ReadSpan, ReadPath, ReadData, PkgBytes, GoodPath, GoodAll, GoodData, ReadBody;
    TermSize(t);
    match t
    case Scope(path, kids) =>
      var payload := PathBytes(path) + TermsBytes(kids);
      PackageParts(b, pos, [0x10], payload, end);
      OneAt(b, pos, 0x10);
      BodyBack(b, pos + 1 + PkgBytes(|payload|), path, kids, pos + 1 + PkgBytes(|payload|) + |payload|);
    case Device(path, kids) =>
      var payload := PathBytes(path) + TermsBytes(kids);
      PackageParts(b, pos, [0x5B, 0x82], payload, end);
      TwoAt(b, pos, 0x5B, 0x82);
      BodyBack(b, pos + 2 + PkgBytes(|payload|), path, kids, pos + 2 + PkgBytes(|payload|) + |payload|);
    case Method(path, flags, code) =>
      MethodBack(b, pos, path, flags, code, end);
    case Named(path, value) =>
      NamedBack(b, pos, path, value, end);
  }

  lemma {:induction false} MethodBack(b: bytes, pos: nat, path: Path, flags: byte, code: bytes, end: nat)
    requires Holds(b, pos, TermBytes(Method(path, flags, code))) && GoodPath(path) && |b| <= MAX_PKG
    requires pos + |TermBytes(Method(path, flags, code))| <= end <= |b|
    ensures ReadTerm(b, pos, end)
      == Some((Method(path, flags, code), pos + |TermBytes(Method(path, flags, code))|))
  {
    hide Holds, Package, PathBytes, ReadSpan, ReadPath, PkgBytes, GoodPath, ReadBody, ReadData;
    var payload := PathBytes(path) + ([flags] + code);
    PackageParts(b, pos, [0x14], payload, end);
    OneAt(b, pos, 0x14);
    var at := pos + 1 + PkgBytes(|payload|);
    HoldsSplit(b, at, PathBytes(path), [flags] + code);
    PathBack(b, at, path);
    var p := at + |PathBytes(path)|;
    HoldsSplit(b, p, [flags], code);
    OneAt(b, p, flags);
    HoldsSlice(b, p + 1, code);
  }

  lemma {:induction false} NamedBack(b: bytes, pos: nat, path: Path, value: Data, end: nat)
    requires Holds(b, pos, TermBytes(Named(path, value))) && GoodPath(path) && GoodData(value) && |b| <= MAX_PKG
    requires pos + |TermBytes(Named(path, value))| <= end <= |b|
    ensures ReadTerm(b, pos, end) == Some((Named(path, value), pos + |TermBytes(Named(path, value))|))
  {
    hide Holds, PathBytes, ReadSpan, ReadPath, GoodPath, ReadBody, ReadData, DataBytes, GoodData;
    HoldsSplit(b, pos, [0x08], PathBytes(path) + DataBytes(value));
    OneAt(b, pos, 0x08);
    HoldsSplit(b, pos + 1, PathBytes(path), DataBytes(value));
    PathBack(b, pos + 1, path);
    DataBack(b, pos + 1 + |PathBytes(path)|, value, end);
    DataNonEmpty(value);
  }

  lemma {:induction false} BodyBack(b: bytes, pos: nat, path: Path, kids: seq<Term>, end: nat)
    requires Holds(b, pos, PathBytes(path) + TermsBytes(kids)) && GoodPath(path) && GoodAll(kids) && |b| <= MAX_PKG
    requires end == pos + |PathBytes(path)| + |TermsBytes(kids)|
    ensures ReadBody(b, pos, end) == Some((path, kids))
    decreases kids, 1
  {
    hide Holds, PathBytes, TermsBytes, ReadPath, GoodPath, GoodAll, ReadTerms;
    HoldsSplit(b, pos, PathBytes(path), TermsBytes(kids));
    PathBack(b, pos, path);
    TermsBack(b, pos + |PathBytes(path)|, kids, end);
  }

  lemma {:induction false} TermsBack(b: bytes, pos: nat, ts: seq<Term>, end: nat)
    requires Holds(b, pos, TermsBytes(ts)) && GoodAll(ts) && |b| <= MAX_PKG && end == pos + |TermsBytes(ts)|
    ensures ReadTerms(b, pos, end) == Some(ts)
    decreases ts, 0
  {
    hide Holds, TermBytes, Good, ReadTerm;
    HoldsBound(b, pos, TermsBytes(ts));
    if ts != [] {
      var t, rest := ts[0], ts[1..];
      HoldsSplit(b, pos, TermBytes(t), TermsBytes(rest));
      TermSize(t);
      TermBack(b, pos, t, end);
      TermsBack(b, pos + |TermBytes(t)|, rest, end);
      assert ts == [t] + rest;
    }
  }

  /** Any well-formed object of up to 28 bits is read back as itself, ending at its last byte. */
  lemma {:induction false} RoundTrip(t: Term)
    requires Good(t) && |TermBytes(t)| <= MAX_PKG
    ensures ReadTerm(TermBytes(t), 0, |TermBytes(t)|) == Some((t, |TermBytes(t)|))
  {
    HoldsWhole(TermBytes(t));
    hide TermBytes, Good, ReadTerm, Holds;
    TermBack(TermBytes(t), 0, t, |TermBytes(t)|);
  }
}
