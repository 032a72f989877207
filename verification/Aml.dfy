/**
 * ACPI machine language: how the tables' objects are written, and a reader for them that follows
 * section 20.2 of the ACPI Specification.
 */
module Aml {
  import opened Bytes
  import opened NulStrings
  import opened Prelude

  const MAX_PKG: nat := 0x1000_0000
  const ONES: nat := 0xFFFF_FFFF_FFFF_FFFF

  /** A name: one or more four-character parts, perhaps from the root. */
  datatype Path = Path(root: bool, parts: seq<bytes>)

  /** An integer with the width of its operand (0 for the one-byte constants), a string or a buffer. */
  datatype Data = Int(n: nat, width: nat) | Str(text: bytes) | Buf(payload: bytes)

  datatype Term =
    | Scope(path: Path, kids: seq<Term>)
    | Device(path: Path, kids: seq<Term>)
    | Named(path: Path, value: Data)
    | Method(path: Path, flags: byte, code: bytes)

  // ---------- writing ----------

  /** The number of bytes a package length takes, for a payload of the given size. */
  function PkgBytes(payload: nat): (n: nat)
    ensures 1 <= n <= 4
  {
    if payload < 63 then 1 else if payload < 4094 then 2 else if payload < 0xFFFFD then 3 else 4
  }

  /** The package length of a payload, counting itself. */
  function PkgLength(payload: nat): (b: bytes)
    ensures |b| == PkgBytes(payload)
  {
    var n := PkgBytes(payload);
    var length := payload + n;
    if n == 1 then [length]
    else Spread(n, length % 16, length / 16 % 256, length / 4096 % 256, length / 0x10_0000 % 256)
  }

  /** The longer forms: the byte count and four low bits first, then eight bits a byte. */
  function Spread(n: nat, low: nat, x: byte, y: byte, z: byte): (b: bytes)
    requires 2 <= n <= 4 && low < 16
    ensures |b| == n
  {
    if n == 2 then [64 + low, x] else if n == 3 then [128 + low, x, y] else [192 + low, x, y, z]
  }

  /** An object: its opcode, the package length, and what the length spans. */
  function Package(op: bytes, payload: bytes): bytes {
    op + PkgLength(|payload|) + payload
  }

  predicate PathOk(p: Path) {
    p.parts != [] && forall i :: 0 <= i < |p.parts| ==> |p.parts[i]| == 4
  }

  function CountBytes(n: nat): bytes {
    if n == 1 then [] else if n == 2 then [0x2E] else [0x2F, n % 256]
  }

  function PathBytes(p: Path): bytes {
    (if p.root then [0x5C] else []) + (CountBytes(|p.parts|) + Join(p.parts))
  }

  /** Every part must have four characters. */
  function EncodePath(p: Path): Option<bytes> {
    if PathOk(p) then Some(PathBytes(p)) else None
  }

  function IntBytes(n: nat, width: nat): bytes {
    if width == 0 then (if n == 0 then [0x00] else if n == 1 then [0x01] else [0xFF])
    else [if width == 1 then 0x0A else if width == 2 then 0x0B else if width == 4 then 0x0C else 0x0E] + Le(n, width)
  }

  /** encodeInteger: the shortest form. */
  function Shortest(n: nat): (d: Data)
    ensures d.Int? && d.n == n
  {
    Int(n, if n == 0 || n == 1 || n == ONES then 0 else if n <= 0xFF then 1 else if n <= 0xFFFF then 2
           else if n <= 0xFFFF_FFFF then 4 else 8)
  }

  function BufBody(payload: bytes): bytes {
    IntBytes(|payload|, Shortest(|payload|).width) + payload
  }

  function DataBytes(d: Data): bytes {
    match d
    case Int(n, width) => IntBytes(n, width)
    case Str(text) => [0x0D] + (text + [0])
    case Buf(payload) => Package([0x11], BufBody(payload))
  }

  function TermBytes(t: Term): bytes
    decreases t, 1
  {
    match t
    case Scope(path, kids) => Package([0x10], PathBytes(path) + TermsBytes(kids))
    case Device(path, kids) => Package([0x5B, 0x82], PathBytes(path) + TermsBytes(kids))
    case Named(path, value) => [0x08] + (PathBytes(path) + DataBytes(value))
    case Method(path, flags, code) => Package([0x14], PathBytes(path) + ([flags] + code))
  }

  function TermsBytes(ts: seq<Term>): bytes
    decreases ts, 0
  {
    if ts == [] then [] else TermBytes(ts[0]) + TermsBytes(ts[1..])
  }

  // ---------- reading ----------

  /** A package length: the span it gives, counted from its own first byte, and its size. */
  function ReadPkg(b: bytes, pos: nat): (r: Option<(nat, nat)>)
    ensures r.Some? ==> 1 <= r.value.1 <= 4 && pos + r.value.1 <= |b|
  {
    if pos >= |b| then None
    else
      var more := b[pos] / 64;
      if pos + more >= |b| then None
      else if more == 0 then Some((b[pos], 1))
      else if more == 1 then Some((Digits(b[pos], b[pos + 1], 0, 0), 2))
      else if more == 2 then Some((Digits(b[pos], b[pos + 1], b[pos + 2], 0), 3))
      else Some((Digits(b[pos], b[pos + 1], b[pos + 2], b[pos + 3]), 4))
  }

  /** Four low bits from the first byte, eight more from each of the others. */
  function Digits(lead: nat, x: nat, y: nat, z: nat): nat {
    lead % 16 + 16 * x + 4096 * y + 0x10_0000 * z
  }

  /** The payload of a package whose length stands at pos: where it starts and ends. */
  function ReadSpan(b: bytes, pos: nat, end: nat): (r: Option<(nat, nat)>)
    ensures r.Some? ==> pos < r.value.0 <= r.value.1 <= end && r.value.1 <= |b|
  {
    var pkg := ReadPkg(b, pos);
    if pkg.None? || pkg.value.0 < pkg.value.1 || pos + pkg.value.0 > end || pos + pkg.value.0 > |b| then None
    else Some((pos + pkg.value.1, pos + pkg.value.0))
  }

  function ReadParts(b: bytes, pos: nat, n: nat): (r: seq<bytes>)
    requires pos + 4 * n <= |b|
    decreases n
  {
    if n == 0 then [] else [b[pos..pos + 4]] + ReadParts(b, pos + 4, n - 1)
  }

  /** A part count, and where the parts start. */
  function ReadCount(b: bytes, at: nat): (r: Option<(nat, nat)>)
    ensures r.Some? ==> at <= r.value.1
  {
    if at >= |b| then None
    else if b[at] == 0x2E then Some((2, at + 1))
    else if b[at] == 0x2F then (if at + 1 >= |b| then None else Some((b[at + 1], at + 2)))
    else Some((1, at))
  }

  function ReadPath(b: bytes, pos: nat): (r: Option<(Path, nat)>)
    ensures r.Some? ==> pos < r.value.1 <= |b|
  {
    var root := pos < |b| && b[pos] == 0x5C;
    var count := ReadCount(b, if root then pos + 1 else pos);
    if count.None? || count.value.0 == 0 || count.value.1 + 4 * count.value.0 > |b| then None
    else Some((Path(root, ReadParts(b, count.value.1, count.value.0)), count.value.1 + 4 * count.value.0))
  }

  function ReadInt(b: bytes, pos: nat): (r: Option<(Data, nat)>)
    ensures r.Some? ==> r.value.0.Int? && pos < r.value.1 <= |b|
  {
    if pos >= |b| then None
    else if b[pos] == 0x00 then Some((Int(0, 0), pos + 1))
    else if b[pos] == 0x01 then Some((Int(1, 0), pos + 1))
    else if b[pos] == 0xFF then Some((Int(0xFFFF_FFFF_FFFF_FFFF, 0), pos + 1))
    else
      var width := if b[pos] == 0x0A then 1 else if b[pos] == 0x0B then 2 else if b[pos] == 0x0C then 4
                   else if b[pos] == 0x0E then 8 else 0;
      if width == 0 || pos + 1 + width > |b| then None
      else Some((Int(LeVal(b[pos + 1..pos + 1 + width]), width), pos + 1 + width))
  }

  function ReadData(b: bytes, pos: nat, end: nat): (r: Option<(Data, nat)>)
    ensures r.Some? ==> pos < r.value.1 <= |b|
  {
    if pos >= |b| then None
    else if b[pos] == 0x0D then
      var s := CString(b, pos + 1);
      if s.None? then None else Some((Str(s.value), pos + 1 + |s.value| + 1))
    else if b[pos] == 0x11 then
      var span := ReadSpan(b, pos + 1, end);
      if span.None? then None
      else
        var size := ReadInt(b, span.value.0);
        if size.None? || size.value.1 + size.value.0.n != span.value.1 then None
        else Some((Buf(b[size.value.1..span.value.1]), span.value.1))
    else ReadInt(b, pos)
  }

  /** The object at pos, which must end by end. */
  function ReadTerm(b: bytes, pos: nat, end: nat): (r: Option<(Term, nat)>)
    ensures r.Some? ==> pos < r.value.1 <= end
    decreases end - pos, 0
  {
    if pos + 2 > |b| || pos + 2 > end then None
    else if b[pos] == 0x10 then
      var span := ReadSpan(b, pos + 1, end);
      if span.None? then None
      else
        var body := ReadBody(b, span.value.0, span.value.1);
        if body.None? then None else Some((Scope(body.value.0, body.value.1), span.value.1))
    else if b[pos] == 0x5B && b[pos + 1] == 0x82 then
      var span := ReadSpan(b, pos + 2, end);
      if span.None? then None
      else
        var body := ReadBody(b, span.value.0, span.value.1);
        if body.None? then None else Some((Device(body.value.0, body.value.1), span.value.1))
    else if b[pos] == 0x14 then
      var span := ReadSpan(b, pos + 1, end);
      if span.None? then None
      else
        var path := ReadPath(b, span.value.0);
        if path.None? || path.value.1 >= span.value.1 then None
        else
          var at := path.value.1;
          Some((Method(path.value.0, b[at], b[at + 1..span.value.1]), span.value.1))
    else if b[pos] == 0x08 then
      var path := ReadPath(b, pos + 1);
      if path.None? then None
      else
        var value := ReadData(b, path.value.1, end);
        if value.None? || value.value.1 > end then None else Some((Named(path.value.0, value.value.0), value.value.1))
    else None
  }

  /** A path and the objects after it, filling the span exactly. */
  function ReadBody(b: bytes, pos: nat, end: nat): Option<(Path, seq<Term>)>
    decreases end - pos, 2
  {
    var path := ReadPath(b, pos);
    if path.None? || path.value.1 > end then None
    else
      var kids := ReadTerms(b, path.value.1, end);
      if kids.None? then None else Some((path.value.0, kids.value))
  }

  /** Objects one after the other, ending exactly at end. */
  function ReadTerms(b: bytes, pos: nat, end: nat): Option<seq<Term>>
    decreases end - pos, 1
  {
    if pos >= end then (if pos == end then Some([]) else None)
    else
      var t := ReadTerm(b, pos, end);
      if t.None? then None
      else
        var rest := ReadTerms(b, t.value.1, end);
        if rest.None? then None else Some([t.value.0] + rest.value)
  }
}
