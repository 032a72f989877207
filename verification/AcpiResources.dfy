/** Resource descriptors inside a _CRS buffer, written and read back. */
module AcpiResources {
  import opened Bytes
  import opened Prelude

  datatype Resource =
    | Memory(writable: bool, base: nat, length: nat)
    | Interrupt(consumer: bool, edge: bool, low: bool, shared: bool, number: nat)
    | Io(min: nat, max: nat, align: byte, ports: byte)

  predicate GoodResource(r: Resource) {
    match r
    case Memory(_, base, length) => base < POW32 && length < POW32
    case Interrupt(_, _, _, _, number) => number < POW32
    case Io(min, max, _, _) => min < POW16 && max < POW16
  }

  function Bit(x: bool, weight: nat): nat {
    if x then weight else 0
  }

  function Flags(consumer: bool, edge: bool, low: bool, shared: bool): (f: nat)
    ensures f < 16
  {
    Bit(shared, 8) + Bit(low, 4) + Bit(edge, 2) + Bit(consumer, 1)
  }

  function ResourceBytes(r: Resource): (b: bytes)
    ensures |b| == (match r case Memory(_, _, _) => 12 case Interrupt(_, _, _, _, _) => 9 case Io(_, _, _, _) => 8)
  {
    match r
    case Memory(writable, base, length) => [0x86] + (Le(9, 2) + ([Bit(writable, 1)] + (Le(base, 4) + Le(length, 4))))
    case Interrupt(consumer, edge, low, shared, number) =>
      [0x89] + (Le(6, 2) + ([Flags(consumer, edge, low, shared), 1] + Le(number, 4)))
    case Io(min, max, align, ports) => [0x47, 1] + (Le(min, 2) + (Le(max, 2) + [align, ports]))
  }

  function ResourcesBytes(rs: seq<Resource>): bytes {
    if rs == [] then [0x79, 0x00] else ResourceBytes(rs[0]) + ResourcesBytes(rs[1..])
  }

  function ReadLarge(b: bytes, pos: nat): Option<(Resource, nat)> {
    if pos + 3 > |b| then None
    else
      var len := LeVal(b[pos + 1..pos + 3]);
      if pos + 3 + len > |b| then None
      else if b[pos] == 0x86 && len == 9 then
        Some((Memory(b[pos + 3] % 2 == 1, LeVal(b[pos + 4..pos + 8]), LeVal(b[pos + 8..pos + 12])), pos + 12))
      else if b[pos] == 0x89 && len == 6 && b[pos + 4] == 1 then
        var f := b[pos + 3];
        Some((Interrupt(f % 2 == 1, f / 2 % 2 == 1, f / 4 % 2 == 1, f / 8 % 2 == 1, LeVal(b[pos + 5..pos + 9])), pos + 9))
      else None
  }

  function ReadResource(b: bytes, pos: nat): (r: Option<(Resource, nat)>)
    ensures r.Some? ==> pos < r.value.1 <= |b|
  {
    if pos < |b| && b[pos] >= 0x80 then ReadLarge(b, pos)
    else if pos + 8 <= |b| && b[pos] == 0x47 then
      Some((Io(LeVal(b[pos + 2..pos + 4]), LeVal(b[pos + 4..pos + 6]), b[pos + 6], b[pos + 7]), pos + 8))
    else None
  }

  /** Descriptors up to the end tag, which must be the last. */
  function ReadResources(b: bytes, pos: nat): Option<seq<Resource>>
    decreases |b| - pos
  {
    if pos < |b| && b[pos] == 0x79 then (if pos + 2 == |b| then Some([]) else None)
    else
      var r := ReadResource(b, pos);
      if r.None? then None
      else
        var rest := ReadResources(b, r.value.1);
        if rest.None? then None else Some([r.value.0] + rest.value)
  }

  lemma {:induction false} LeAt(b: bytes, pos: nat, v: nat, n: nat)
    requires Holds(b, pos, Le(v, n)) && v < Pow256(n)
    ensures pos + n <= |b| && LeVal(b[pos..pos + n]) == v
  {
    LeRoundTrip(v, n);
  }

  lemma MemoryBack(b: bytes, pos: nat, r: Resource)
    requires r.Memory? && GoodResource(r) && Holds(b, pos, ResourceBytes(r))
    ensures ReadResource(b, pos) == Some((r, pos + 12))
  {
    hide Holds, Le, LeVal, Pow256;
    PowValues();
    var base, length, w := Le(r.base, 4), Le(r.length, 4), Bit(r.writable, 1);
    HoldsSplit(b, pos, [0x86], Le(9, 2) + ([w] + (base + length)));
    OneAt(b, pos, 0x86);
    HoldsSplit(b, pos + 1, Le(9, 2), [w] + (base + length));
    LeAt(b, pos + 1, 9, 2);
    HoldsSplit(b, pos + 3, [w], base + length);
    OneAt(b, pos + 3, w);
    HoldsSplit(b, pos + 4, base, length);
    LeAt(b, pos + 4, r.base, 4);
    LeAt(b, pos + 8, r.length, 4);
  }

  lemma FlagsBack(consumer: bool, edge: bool, low: bool, shared: bool)
    ensures var f := Flags(consumer, edge, low, shared);
      && (f % 2 == 1 <==> consumer) && (f / 2 % 2 == 1 <==> edge)
      && (f / 4 % 2 == 1 <==> low) && (f / 8 % 2 == 1 <==> shared)
  {
  }

  lemma InterruptBack(b: bytes, pos: nat, r: Resource)
    requires r.Interrupt? && GoodResource(r) && Holds(b, pos, ResourceBytes(r))
    ensures ReadResource(b, pos) == Some((r, pos + 9))
  {
    hide Holds, Le, LeVal, Pow256, Flags;
    PowValues();
    var f, number := Flags(r.consumer, r.edge, r.low, r.shared), Le(r.number, 4);
    FlagsBack(r.consumer, r.edge, r.low, r.shared);
    HoldsSplit(b, pos, [0x89], Le(6, 2) + ([f, 1] + number));
    OneAt(b, pos, 0x89);
    HoldsSplit(b, pos + 1, Le(6, 2), [f, 1] + number);
    LeAt(b, pos + 1, 6, 2);
    HoldsSplit(b, pos + 3, [f, 1], number);
    TwoAt(b, pos + 3, f, 1);
    LeAt(b, pos + 5, r.number, 4);
  }

  lemma IoBack(b: bytes, pos: nat, r: Resource)
    requires r.Io? && GoodResource(r) && Holds(b, pos, ResourceBytes(r))
    ensures ReadResource(b, pos) == Some((r, pos + 8))
  {
    hide Holds, Le, LeVal, Pow256;
    PowValues();
    var min, max := Le(r.min, 2), Le(r.max, 2);
    HoldsSplit(b, pos, [0x47, 1], min + (max + [r.align, r.ports]));
    TwoAt(b, pos, 0x47, 1);
    HoldsSplit(b, pos + 2, min, max + [r.align, r.ports]);
    LeAt(b, pos + 2, r.min, 2);
    HoldsSplit(b, pos + 4, max, [r.align, r.ports]);
    LeAt(b, pos + 4, r.max, 2);
    TwoAt(b, pos + 6, r.align, r.ports);
  }

  lemma ResourceBack(b: bytes, pos: nat, r: Resource)
    requires GoodResource(r) && Holds(b, pos, ResourceBytes(r))
    ensures ReadResource(b, pos) == Some((r, pos + |ResourceBytes(r)|)) && b[pos] != 0x79
  {
    hide Holds, ReadLarge;
    match r
    case Memory(_, _, _) => MemoryBack(b, pos, r);
    case Interrupt(_, _, _, _, _) => InterruptBack(b, pos, r);
    case Io(_, _, _, _) => IoBack(b, pos, r);
  }

  /** A resource template reads back as the descriptors it was built from. */
  lemma {:induction false} ResourcesBack(b: bytes, pos: nat, rs: seq<Resource>)
    requires Holds(b, pos, ResourcesBytes(rs)) && pos + |ResourcesBytes(rs)| == |b|
    requires forall i :: 0 <= i < |rs| ==> GoodResource(rs[i])
    ensures ReadResources(b, pos) == Some(rs)
    decreases |rs|
  {
    hide Holds, ResourceBytes, ReadResource, GoodResource;
    if rs == [] {
      TwoAt(b, pos, 0x79, 0x00);
    } else {
      HoldsSplit(b, pos, ResourceBytes(rs[0]), ResourcesBytes(rs[1..]));
      ResourceBack(b, pos, rs[0]);
      ResourcesBack(b, pos + |ResourceBytes(rs[0])|, rs[1..]);
      assert rs == [rs[0]] + rs[1..];
    }
  }
}
