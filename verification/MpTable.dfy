/** The MP table: floating pointer, configuration header and entries, written and read back. */
module MpTable {
  import opened Bytes
  import opened Checksums
  import opened GuestMemory
  import opened Prelude

  const BASE_RAM_END: nat := 0xA0000
  const MAX_CPUS: nat := 254
  const MAX_GSI: nat := 23
  const FLOATING: nat := 16
  const HEADER: nat := 44

  datatype Entry =
    | Cpu(id: byte, version: byte, enabled: bool, boot: bool, signature: nat, features: nat)
    | Bus(id: byte, kind: bytes)
    | IoApic(id: byte, version: byte, usable: bool, addr: nat)
    | Irq(signal: byte, flags: nat, bus: byte, source: byte, apic: byte, pin: byte)
    | Local(signal: byte, flags: nat, bus: byte, source: byte, apic: byte, pin: byte)

  predicate GoodEntry(e: Entry) {
    match e
    case Cpu(_, _, _, _, signature, features) => signature < POW32 && features < POW32
    case Bus(_, kind) => |kind| == 6
    case IoApic(_, _, _, addr) => addr < POW32
    case Irq(_, flags, _, _, _, _) => flags < POW16
    case Local(_, flags, _, _, _, _) => flags < POW16
  }

  function CpuFlags(enabled: bool, boot: bool): (f: byte)
    ensures (f % 2 == 1 <==> enabled) && (f / 2 % 2 == 1 <==> boot)
  {
    if enabled then (if boot then 3 else 1) else if boot then 2 else 0
  }

  function EntryBytes(e: Entry): (b: bytes)
    ensures GoodEntry(e) ==> |b| == if e.Cpu? then 20 else 8
  {
    match e
    case Cpu(id, version, enabled, boot, signature, features) =>
      [0, id, version, CpuFlags(enabled, boot)] + (Le(signature, 4) + (Le(features, 4) + Zeros(8)))
    case Bus(id, kind) => [1, id] + kind
    case IoApic(id, version, usable, addr) => [2, id, version, if usable then 1 else 0] + Le(addr, 4)
    case Irq(signal, flags, bus, source, apic, pin) => [3, signal] + (Le(flags, 2) + [bus, source, apic, pin])
    case Local(signal, flags, bus, source, apic, pin) => [4, signal] + (Le(flags, 2) + [bus, source, apic, pin])
  }

  function EntriesBytes(es: seq<Entry>): bytes {
    if es == [] then [] else EntryBytes(es[0]) + EntriesBytes(es[1..])
  }

  // ---------- the reader ----------

  function ReadEntry(b: bytes, pos: nat): (r: Option<(Entry, nat)>)
    ensures r.Some? ==> pos < r.value.1 <= |b|
  {
    if pos + 8 > |b| then None
    else if b[pos] == 0 then
      if pos + 20 > |b| then None
      else Some((Cpu(b[pos + 1], b[pos + 2], b[pos + 3] % 2 == 1, b[pos + 3] / 2 % 2 == 1,
                     LeVal(b[pos + 4..pos + 8]), LeVal(b[pos + 8..pos + 12])), pos + 20))
    else if b[pos] == 1 then Some((Bus(b[pos + 1], b[pos + 2..pos + 8]), pos + 8))
    else if b[pos] == 2 then Some((IoApic(b[pos + 1], b[pos + 2], b[pos + 3] % 2 == 1, LeVal(b[pos + 4..pos + 8])), pos + 8))
    else if b[pos] == 3 then
      Some((Irq(b[pos + 1], LeVal(b[pos + 2..pos + 4]), b[pos + 4], b[pos + 5], b[pos + 6], b[pos + 7]), pos + 8))
    else if b[pos] == 4 then
      Some((Local(b[pos + 1], LeVal(b[pos + 2..pos + 4]), b[pos + 4], b[pos + 5], b[pos + 6], b[pos + 7]), pos + 8))
    else None
  }

  /** count entries from pos on, ending exactly at the last byte. */
  function ReadEntries(b: bytes, pos: nat, count: nat): Option<seq<Entry>>
    decreases count
  {
    if count == 0 then (if pos == |b| then Some([]) else None)
    else
      var e := ReadEntry(b, pos);
      if e.None? then None
      else
        var rest := ReadEntries(b, e.value.1, count - 1);
        if rest.None? then None else Some([e.value.0] + rest.value)
  }

  /** A configuration table: its revision, names, OEM table, local APIC address, extended part, and entries. */
  datatype Config = Config(revision: byte, oem: bytes, product: bytes, oemTable: nat, oemSize: nat, lapic: nat, extended: nat, entries: seq<Entry>)

  /** The configuration table at addr: signature, sum and length must be right. */
  function ReadConfig(mem: bytes, addr: nat): Option<Config> {
    if addr + 44 > |mem| || mem[addr..addr + 4] != Ascii("PCMP") then None
    else
      var length := LeVal(mem[addr + 4..addr + 6]);
      if addr + length > |mem| || length < 44 || !Balanced(mem[addr..addr + length]) then None
      else
        var es := ReadEntries(mem[addr + 44..addr + length], 0, LeVal(mem[addr + 34..addr + 36]));
        if es.None? then None
        else Some(Config(mem[addr + 6], mem[addr + 8..addr + 16], mem[addr + 16..addr + 28], LeVal(mem[addr + 28..addr + 32]),
                         LeVal(mem[addr + 32..addr + 34]), LeVal(mem[addr + 36..addr + 40]), LeVal(mem[addr + 40..addr + 44]), es.value))
  }

  /** What the floating pointer gives: its revision, its feature bytes and the table it points to. */
  datatype Mp = Mp(revision: byte, features: bytes, config: Config)

  /** The table found through the 16-byte floating pointer at start. */
  function ReadMp(mem: bytes, start: nat): Option<Mp> {
    if start + 16 > |mem| || mem[start..start + 4] != Ascii("_MP_") || mem[start + 8] != 1 then None
    else if !Balanced(mem[start..start + 16]) then None
    else
      var config := ReadConfig(mem, LeVal(mem[start + 4..start + 8]));
      if config.None? then None else Some(Mp(mem[start + 9], mem[start + 11..start + 16], config.value))
  }

  // ---------- the table ----------

  function Size(n: nat): nat {
    FLOATING + HEADER + 20 * n + 8 + 8 + 8 * (MAX_GSI + 1) + 8 * 2
  }

  /** The highest 16-byte boundary that leaves room below 640 KiB. */
  function StartAddr(n: nat): nat
    requires n <= MAX_CPUS
  {
    (BASE_RAM_END - Size(n)) / 16 * 16
  }

  function Processor(i: byte): Entry {
    Cpu(i, 0x14, true, i == 0, 0x600, 0x201)
  }

  function Cpus(n: nat): seq<Entry>
    requires n <= MAX_CPUS
  {
    seq(n, i requires 0 <= i < n => Processor(i))
  }

  function Irqs(n: nat, apic: byte): seq<Entry>
    requires n <= MAX_GSI + 1
  {
    seq(n, i requires 0 <= i < n => Irq(0, 0, 0, i, apic, i))
  }

  /** Processors, the ISA bus, the I/O APIC, one entry per legacy interrupt, and the two local lines. */
  function Topology(n: nat): seq<Entry>
    requires n <= MAX_CPUS
  {
    Cpus(n) + [Bus(0, Ascii("ISA   ")), IoApic(n + 1, 0x14, true, 0xFEC0_0000)] + Irqs(MAX_GSI + 1, n + 1)
    + [Local(3, 0, 0, 0, 0, 0), Local(1, 0, 0, 0, 0xFF, 1)]
  }

  function FloatingBytes(table: nat): (b: bytes)
    ensures |b| == FLOATING
  {
    Sealed(Ascii("_MP_") + Le(table, 4) + [1, 4, 0] + Zeros(5), 10)
  }

  /** Specification revision, zero checksum, OEM and product names, no OEM table. */
  function HeaderMiddle(): (b: bytes)
    ensures |b| == 28 && b[1] == 0
  {
    [4, 0] + (Ascii("FC      ") + Ascii("000000000000") + Le(0, 4) + Le(0, 2))
  }

  function HeaderRaw(length: nat, count: nat): (b: bytes)
    ensures |b| == HEADER
  {
    Ascii("PCMP") + Le(length, 2) + HeaderMiddle() + Le(count, 2) + (Le(0xFEE0_0000, 4) + Le(0, 4))
  }

  function ConfigBytes(es: seq<Entry>): (b: bytes)
    ensures |b| == HEADER + |EntriesBytes(es)|
  {
    Sealed(HeaderRaw(HEADER + |EntriesBytes(es)|, |es|) + EntriesBytes(es), 7)
  }

  function MpBytes(start: nat, es: seq<Entry>): (b: bytes)
    ensures |b| == FLOATING + HEADER + |EntriesBytes(es)|
  {
    FloatingBytes(start + FLOATING) + ConfigBytes(es)
  }

  // ---------- reading back ----------

  lemma CpuBack(b: bytes, pos: nat, e: Entry)
    requires Holds(b, pos, EntryBytes(e)) && GoodEntry(e) && e.Cpu?
    ensures ReadEntry(b, pos) == Some((e, pos + 20))
  {
    hide Le, LeVal, Holds;
    var head, s, f := [0, e.id, e.version, CpuFlags(e.enabled, e.boot)], Le(e.signature, 4), Le(e.features, 4);
    HoldsSplit(b, pos, head, s + (f + Zeros(8)));
    OpAt(b, pos, head);
    assert b[pos + 0] == head[0] && b[pos + 1] == head[1] && b[pos + 2] == head[2] && b[pos + 3] == head[3];
    HoldsSplit(b, pos + 4, s, f + Zeros(8));
    HoldsSplit(b, pos + 8, f, Zeros(8));
    HoldsBound(b, pos + 12, Zeros(8));
    HoldsSlice(b, pos + 4, s);
    HoldsSlice(b, pos + 8, f);
    PowValues();
    LeRoundTrip(e.signature, 4);
    LeRoundTrip(e.features, 4);
  }

  /** An interrupt line: signal, flags, bus, source, APIC and pin. */
  lemma {:induction false} LineBack(b: bytes, pos: nat, tag: byte, signal: byte, flags: nat, bus: byte, source: byte, apic: byte, pin: byte)
    requires Holds(b, pos, [tag, signal] + (Le(flags, 2) + [bus, source, apic, pin])) && flags < POW16
    ensures pos + 8 <= |b| && b[pos] == tag && b[pos + 1] == signal && LeVal(b[pos + 2..pos + 4]) == flags
    ensures b[pos + 4] == bus && b[pos + 5] == source && b[pos + 6] == apic && b[pos + 7] == pin
  {
    hide Le, LeVal, Holds;
    var f, tail := Le(flags, 2), [bus, source, apic, pin];
    HoldsSplit(b, pos, [tag, signal], f + tail);
    TwoAt(b, pos, tag, signal);
    HoldsSplit(b, pos + 2, f, tail);
    HoldsSlice(b, pos + 2, f);
    OpAt(b, pos + 4, tail);
    assert b[pos + 4 + 0] == tail[0] && b[pos + 4 + 1] == tail[1] && b[pos + 4 + 2] == tail[2] && b[pos + 4 + 3] == tail[3];
    PowValues();
    LeRoundTrip(flags, 2);
  }

  lemma EntryBack(b: bytes, pos: nat, e: Entry)
    requires Holds(b, pos, EntryBytes(e)) && GoodEntry(e)
    ensures ReadEntry(b, pos) == Some((e, pos + |EntryBytes(e)|))
  {
    hide Le, LeVal, Holds;
    match e
    case Cpu(_, _, _, _, _, _) => CpuBack(b, pos, e);
    case Bus(id, kind) =>
      HoldsSplit(b, pos, [1, id], kind);
      TwoAt(b, pos, 1, id);
      HoldsSlice(b, pos + 2, kind);
    case IoApic(id, version, usable, addr) =>
      var head := [2, id, version, if usable then 1 else 0];
      HoldsSplit(b, pos, head, Le(addr, 4));
      OpAt(b, pos, head);
      assert b[pos + 0] == head[0] && b[pos + 1] == head[1] && b[pos + 2] == head[2] && b[pos + 3] == head[3];
      HoldsSlice(b, pos + 4, Le(addr, 4));
      PowValues();
      LeRoundTrip(addr, 4);
    case Irq(signal, flags, bus, source, apic, pin) => LineBack(b, pos, 3, signal, flags, bus, source, apic, pin);
    case Local(signal, flags, bus, source, apic, pin) => LineBack(b, pos, 4, signal, flags, bus, source, apic, pin);
  }

  lemma {:induction false} EntriesBack(b: bytes, pos: nat, es: seq<Entry>)
    requires Holds(b, pos, EntriesBytes(es)) && pos + |EntriesBytes(es)| == |b|
    requires forall i :: 0 <= i < |es| ==> GoodEntry(es[i])
    ensures ReadEntries(b, pos, |es|) == Some(es)
    decreases |es|
  {
    hide Holds, EntryBytes, ReadEntry, GoodEntry;
    if es != [] {
      HoldsSplit(b, pos, EntryBytes(es[0]), EntriesBytes(es[1..]));
      EntryBack(b, pos, es[0]);
      EntriesBack(b, pos + |EntryBytes(es[0])|, es[1..]);
      assert es == [es[0]] + es[1..];
    }
  }

  /** A table this program writes, as it is read. */
  function Written(es: seq<Entry>): Mp {
    Mp(4, Zeros(5), Config(4, Ascii("FC      "), Ascii("000000000000"), 0, 0, 0xFEE0_0000, 0, es))
  }

  lemma FloatingBack(mem: bytes, start: nat, table: nat)
    requires Holds(mem, start, FloatingBytes(table)) && table < POW32
    ensures var config := ReadConfig(mem, table);
      ReadMp(mem, start) == if config.None? then None else Some(Mp(4, Zeros(5), config.value))
  {
    hide Sum, Le, LeVal, Holds, ReadConfig, Ascii;
    var raw := Ascii("_MP_") + Le(table, 4) + [1, 4, 0] + Zeros(5);
    var t := FloatingBytes(table);
    SealedBalanced(raw, 10);
    HoldsRange(mem, start, t, 0, 4);
    HoldsRange(mem, start, t, 4, 8);
    HoldsRange(mem, start, t, 8, 10);
    HoldsRange(mem, start, t, 11, 16);
    HoldsRange(mem, start, t, 0, 16);
    assert t[0..16] == t;
    assert t[0..4] == Ascii("_MP_") && t[4..8] == Le(table, 4) && t[11..16] == Zeros(5);
    assert mem[start + 8] == mem[start + 8..start + 10][0] == 1 && mem[start + 9] == mem[start + 8..start + 10][1] == 4;
    PowValues();
    LeRoundTrip(table, 4);
  }

  lemma {:induction false} HeaderFields(length: nat, count: nat, rest: bytes, t: bytes)
    requires t == Sealed(HeaderRaw(length, count) + rest, 7)
    ensures t[0..4] == Ascii("PCMP") && t[4..6] == Le(length, 2) && t[34..36] == Le(count, 2) && t[44..] == rest
    ensures t[6..7] == [4] && t[8..16] == Ascii("FC      ") && t[16..28] == Ascii("000000000000")
    ensures t[28..32] == Le(0, 4) && t[32..34] == Le(0, 2) && t[36..40] == Le(0xFEE0_0000, 4) && t[40..44] == Le(0, 4)
  {
    hide Sum, Le, Ascii;
    var raw := HeaderRaw(length, count) + rest;
    assert raw[0..4] == Ascii("PCMP") && raw[4..6] == Le(length, 2) && raw[34..36] == Le(count, 2) && raw[44..] == rest;
    assert raw[6] == 4 && raw[8..16] == Ascii("FC      ") && raw[16..28] == Ascii("000000000000");
    assert raw[28..32] == Le(0, 4) && raw[32..34] == Le(0, 2) && raw[36..40] == Le(0xFEE0_0000, 4) && raw[40..44] == Le(0, 4);
  }

  /** The header fields of a configuration table, where it stands. */
  lemma {:induction false} HeaderAt(mem: bytes, addr: nat, length: nat, count: nat, rest: bytes)
    requires Holds(mem, addr, Sealed(HeaderRaw(length, count) + rest, 7)) && length < POW16 && count < POW16
    ensures addr + 44 <= |mem| && mem[addr..addr + 4] == Ascii("PCMP")
    ensures LeVal(mem[addr + 4..addr + 6]) == length && LeVal(mem[addr + 34..addr + 36]) == count
    ensures mem[addr + 6] == 4 && mem[addr + 8..addr + 16] == Ascii("FC      ") && mem[addr + 16..addr + 28] == Ascii("000000000000")
    ensures LeVal(mem[addr + 28..addr + 32]) == 0 && LeVal(mem[addr + 32..addr + 34]) == 0
    ensures LeVal(mem[addr + 36..addr + 40]) == 0xFEE0_0000 && LeVal(mem[addr + 40..addr + 44]) == 0
  {
    hide Sum, Le, LeVal, Holds, Sealed, HeaderRaw, Ascii, Pow256;
    var t := Sealed(HeaderRaw(length, count) + rest, 7);
    HeaderFields(length, count, rest, t);
    HoldsRange(mem, addr, t, 0, 4);
    HoldsRange(mem, addr, t, 4, 6);
    HoldsRange(mem, addr, t, 6, 7);
    HoldsRange(mem, addr, t, 8, 16);
    HoldsRange(mem, addr, t, 16, 28);
    HoldsRange(mem, addr, t, 28, 32);
    HoldsRange(mem, addr, t, 32, 34);
    HoldsRange(mem, addr, t, 34, 36);
    HoldsRange(mem, addr, t, 36, 40);
    HoldsRange(mem, addr, t, 40, 44);
    assert mem[addr + 6] == mem[addr + 6..addr + 7][0];
    PowValues();
    LeRoundTrip(length, 2);
    LeRoundTrip(count, 2);
    LeRoundTrip(0, 4);
    LeRoundTrip(0, 2);
    LeRoundTrip(0xFEE0_0000, 4);
  }

  lemma {:induction false} ConfigBack(mem: bytes, addr: nat, es: seq<Entry>)
    requires Holds(mem, addr, ConfigBytes(es)) && 44 + |EntriesBytes(es)| < POW16 && |es| < POW16
    requires forall i :: 0 <= i < |es| ==> GoodEntry(es[i])
    ensures ReadConfig(mem, addr) == Some(Written(es).config)
  {
    hide Sum, Le, LeVal, Holds, ReadEntries, EntriesBytes, GoodEntry, Sealed, HeaderRaw, Ascii, Balanced;
    var rest := EntriesBytes(es);
    var length := 44 + |rest|;
    var t := ConfigBytes(es);
    HeaderFields(length, |es|, rest, t);
    HeaderAt(mem, addr, length, |es|, rest);
    SealedBalanced(HeaderRaw(length, |es|) + rest, 7);
    HoldsRange(mem, addr, t, 44, length);
    HoldsRange(mem, addr, t, 0, length);
    assert t[0..length] == t && t[44..length] == rest;
    HoldsWhole(rest);
    EntriesBack(rest, 0, es);
  }

  lemma {:induction false} MpBack(mem: bytes, start: nat, es: seq<Entry>)
    requires Holds(mem, start, MpBytes(start, es)) && start + FLOATING < POW32
    requires 44 + |EntriesBytes(es)| < POW16 && |es| < POW16
    requires forall i :: 0 <= i < |es| ==> GoodEntry(es[i])
    ensures ReadMp(mem, start) == Some(Written(es))
  {
    hide Holds, FloatingBytes, ConfigBytes, ReadMp, ReadConfig, EntriesBytes, GoodEntry, Ascii;
    HoldsSplit(mem, start, FloatingBytes(start + FLOATING), ConfigBytes(es));
    FloatingBack(mem, start, start + FLOATING);
    ConfigBack(mem, start + FLOATING, es);
  }

  // ---------- what the reader finds ----------

  /** n enabled processors, the first to boot, an ISA bus, an I/O APIC with its 24 lines, and the two local lines. */
  ghost predicate SeenMp(mp: Mp, n: nat) {
    && mp.revision == 4 && mp.features == [0, 0, 0, 0, 0]
    && var c := mp.config;
    && c.revision == 4 && c.oem == Ascii("FC      ") && c.product == Ascii("000000000000")
    && c.oemTable == 0 && c.oemSize == 0 && c.lapic == 0xFEE0_0000 && c.extended == 0
    && n < 255 && |c.entries| == n + 28
    && (forall i :: 0 <= i < n ==> c.entries[i] == Cpu(i, 0x14, true, i == 0, 0x600, 0x201))
    && c.entries[n] == Bus(0, [0x49, 0x53, 0x41, 0x20, 0x20, 0x20])
    && c.entries[n + 1] == IoApic(n + 1, 0x14, true, 0xFEC0_0000)
    && (forall k :: n + 2 <= k < n + 26 ==> c.entries[k] == Irq(0, 0, 0, k - n - 2, n + 1, k - n - 2))
    && c.entries[n + 26] == Local(3, 0, 0, 0, 0, 0) && c.entries[n + 27] == Local(1, 0, 0, 0, 0xFF, 1)
  }

  lemma TopologySeen(n: nat)
    requires n <= MAX_CPUS
    ensures SeenMp(Written(Topology(n)), n)
  {
    assert Ascii("ISA   ") == [0x49, 0x53, 0x41, 0x20, 0x20, 0x20];
    assert Zeros(5) == [0, 0, 0, 0, 0];
  }

  // ---------- sizes and placement ----------

  lemma {:induction false} EntriesSize(es: seq<Entry>, k: nat)
    requires k <= |es| && (forall i :: 0 <= i < |es| ==> GoodEntry(es[i]) && (es[i].Cpu? <==> i < k))
    ensures |EntriesBytes(es)| == 20 * k + 8 * (|es| - k)
    decreases |es|
  {
    hide EntryBytes;
    if es != [] {
      EntriesSize(es[1..], if k > 0 then k - 1 else 0);
    }
  }

  lemma TopologyShape(n: nat)
    requires n <= MAX_CPUS
    ensures |Topology(n)| == n + 28 && |EntriesBytes(Topology(n))| == Size(n) - FLOATING - HEADER
    ensures forall i :: 0 <= i < n + 28 ==> GoodEntry(Topology(n)[i])
  {
    EntriesSize(Topology(n), n);
  }

  /** The table ends at or below 640 KiB; it stays within the reserved last KiB exactly for up to 37 processors. */
  lemma Placement(n: nat)
    requires n <= MAX_CPUS
    ensures Size(n) == 284 + 20 * n
    ensures StartAddr(n) % 16 == 0 && StartAddr(n) + Size(n) <= 0xA0000
    ensures 0xA0000 - Size(n) - 16 < StartAddr(n)
    ensures StartAddr(n) >= 0x9FC00 <==> n <= 37
  {
    Floor16(BASE_RAM_END - Size(n), 0x9FC0);
  }

  lemma Floor16(x: nat, k: nat)
    ensures x - 16 < x / 16 * 16 <= x && x / 16 * 16 % 16 == 0
    ensures x / 16 * 16 >= 16 * k <==> x >= 16 * k
  {
  }

  /** The table for n processors stands in memory at its place. */
  ghost predicate Standing(mem: bytes, n: nat) {
    n <= 254 && Holds(mem, StartAddr(n), MpBytes(StartAddr(n), Topology(n)))
  }

  lemma StandingReads(mem: bytes, n: nat)
    requires Standing(mem, n)
    ensures ReadMp(mem, StartAddr(n)).Some? && SeenMp(ReadMp(mem, StartAddr(n)).value, n)
  {
    hide Holds, MpBytes, EntriesBytes, Topology, ReadMp, GoodEntry, Written, SeenMp;
    TopologySeen(n);
    TopologyShape(n);
    Placement(n);
    MpBack(mem, StartAddr(n), Topology(n));
  }

  /** Writes elsewhere leave it readable. */
  lemma StandingKept(mem: bytes, mem': bytes, n: nat, lo: nat, hi: nat)
    requires Standing(mem, n) && SameOutside(mem, mem', lo, hi) && BASE_RAM_END <= lo
    ensures Standing(mem', n)
  {
    hide Holds, MpBytes, EntriesBytes, Topology, SameOutside;
    TopologyShape(n);
    Placement(n);
    SizeOf(n);
    SameHolds(mem, mem', lo, hi, StartAddr(n), MpBytes(StartAddr(n), Topology(n)));
  }

  lemma SizeOf(n: nat)
    requires n <= MAX_CPUS
    ensures |MpBytes(StartAddr(n), Topology(n))| == Size(n)
  {
    TopologyShape(n);
  }

  // ---------- the writer ----------

  method AppendCpus(n: nat) returns (b: bytes, count: nat)
    requires n <= MAX_CPUS
    ensures b == EntriesBytes(Cpus(n)) && count == n
  {
    b, count := [], 0;
    assert EntriesBytes(Cpus(0)) == [];
    hide EntryBytes, EntriesBytes, Cpus;
    for i := 0 to n
      invariant b == EntriesBytes(Cpus(i)) && count == i
    {
      CpusStep(i);
      b := b + EntryBytes(Processor(i));
      count := count + 1;
    }
  }

  method AppendIrqs(apic: byte) returns (b: bytes, count: nat)
    ensures b == EntriesBytes(Irqs(MAX_GSI + 1, apic)) && count == MAX_GSI + 1
  {
    b, count := [], 0;
    assert EntriesBytes(Irqs(0, apic)) == [];
    hide EntryBytes, EntriesBytes, Irqs;
    for i := 0 to MAX_GSI + 1
      invariant b == EntriesBytes(Irqs(i, apic)) && count == i
    {
      IrqsStep(i, apic);
      b := b + EntryBytes(Irq(0, 0, 0, i, apic, i));
      count := count + 1;
    }
  }

  lemma CpusStep(i: nat)
    requires i < MAX_CPUS
    ensures EntriesBytes(Cpus(i + 1)) == EntriesBytes(Cpus(i)) + EntryBytes(Processor(i))
  {
    assert Cpus(i + 1) == Cpus(i) + [Processor(i)];
    hide EntryBytes, EntriesBytes;
    EntriesAppend(Cpus(i), Processor(i));
  }

  lemma IrqsStep(i: nat, apic: byte)
    requires i <= MAX_GSI
    ensures EntriesBytes(Irqs(i + 1, apic)) == EntriesBytes(Irqs(i, apic)) + EntryBytes(Irq(0, 0, 0, i, apic, i))
  {
    assert Irqs(i + 1, apic) == Irqs(i, apic) + [Irq(0, 0, 0, i, apic, i)];
    hide EntryBytes, EntriesBytes;
    EntriesAppend(Irqs(i, apic), Irq(0, 0, 0, i, apic, i));
  }

  lemma {:induction false} EntriesAppend(es: seq<Entry>, e: Entry)
    ensures EntriesBytes(es + [e]) == EntriesBytes(es) + EntryBytes(e)
  {
    EntriesConcat(es, [e]);
    assert EntriesBytes([e]) == EntryBytes(e) + EntriesBytes([]) by { assert [e][1..] == []; }
  }

  lemma {:induction false} EntriesConcat(a: seq<Entry>, b: seq<Entry>)
    ensures EntriesBytes(a + b) == EntriesBytes(a) + EntriesBytes(b)
    decreases |a|
  {
    hide EntryBytes;
    if a == [] {
      assert a + b == b;
    } else {
      EntriesConcat(a[1..], b);
      assert (a + b)[1..] == a[1..] + b;
      ConcatAssoc(EntryBytes(a[0]), EntriesBytes(a[1..]), EntriesBytes(b));
    }
  }

  /** All entries in order, and how many there are. */
  method BuildEntries(n: nat) returns (b: bytes, count: nat)
    requires n <= MAX_CPUS
    ensures b == EntriesBytes(Topology(n)) && count == n + 28
  {
    hide EntryBytes, EntriesBytes, Cpus, Irqs;
    var apic: byte := n + 1;
    var cpus := Cpus(n);
    b, count := AppendCpus(n);
    var bus, ioapic := Bus(0, Ascii("ISA   ")), IoApic(apic, 0x14, true, 0xFEC0_0000);
    b := b + EntryBytes(bus);
    EntriesAppend(cpus, bus);
    b := b + EntryBytes(ioapic);
    EntriesAppend(cpus + [bus], ioapic);
    var irqs, more := AppendIrqs(apic);
    b := b + irqs;
    EntriesConcat(cpus + [bus] + [ioapic], Irqs(MAX_GSI + 1, apic));
    var ext, nmi := Local(3, 0, 0, 0, 0, 0), Local(1, 0, 0, 0, 0xFF, 1);
    var all := cpus + [bus] + [ioapic] + Irqs(MAX_GSI + 1, apic);
    b := b + EntryBytes(ext);
    EntriesAppend(all, ext);
    b := b + EntryBytes(nmi);
    EntriesAppend(all + [ext], nmi);
    count := count + 2 + more + 2;
    assert Topology(n) == all + [ext] + [nmi];
  }

  /**
   * Writing fails for no or too many processors, or when memory ends below the table. Otherwise the table
   * stands at StartAddr, reads back as the topology, and nothing else changes.
   */
  method Write(mem: array<byte>, n: int) returns (ok: bool)
    modifies mem
    ensures ok <==> 0 < n <= 254 && StartAddr(n) + Size(n) <= mem.Length
    ensures !ok ==> mem[..] == old(mem[..])
    ensures ok ==> Standing(mem[..], n) && ReadMp(mem[..], StartAddr(n)).Some? && SeenMp(ReadMp(mem[..], StartAddr(n)).value, n)
    ensures ok ==> SameOutside(old(mem[..]), mem[..], StartAddr(n), StartAddr(n) + Size(n))
  {
    hide SameOutside, ReadMp, SeenMp, Topology, EntriesBytes, FloatingBytes, HeaderRaw, Sealed, Holds, GoodEntry;
    if n <= 0 || n > MAX_CPUS {
      return false;
    }
    var start := StartAddr(n);
    if start + Size(n) > mem.Length {
      return false;
    }
    ghost var was := mem[..];
    TopologyShape(n);
    var entries, count := BuildEntries(n);
    var config := new byte[HEADER + |entries|];
    var raw := HeaderRaw(HEADER + |entries|, count) + entries;
    Fill(config, raw);
    Finalize(config, 7);
    var table := FloatingBytes(start + FLOATING) + config[..];
    assert table == MpBytes(start, Topology(n));
    PutHolds(was, start, table);
    PutSame(was, start, table, start, start + Size(n));
    CopyTo(mem, start, table);
    StandingReads(mem[..], n);
    ok := true;
  }

  method Fill(a: array<byte>, b: bytes)
    requires a.Length == |b|
    modifies a
    ensures a[..] == b
  {
    for i := 0 to |b|
      invariant a[..i] == b[..i]
    {
      a[i] := b[i];
    }
    assert a[..] == a[..|b|] && b == b[..|b|];
  }
}
