/** ACPI tables: their bytes, and a reader that chases the pointers from the root and checks every sum. */
module Acpi {
  import opened Bytes
  import opened Checksums
  import opened Prelude

  const RSDP: nat := 0xE0000
  const SYSTEM_START: nat := 0xA0000
  const SYSTEM_END: nat := RSDP
  const FADT_LENGTH: nat := 276
  const HEADER: nat := 36

  // ---------- the reader ----------

  /** What follows the signature, length and checksum of a table. */
  datatype Table = Table(revision: byte, oem: bytes, id: bytes, oemRevision: nat, creator: bytes, creatorRevision: nat, payload: bytes)

  /** The intact table of the given signature at addr. */
  function TableAt(mem: bytes, addr: nat, sig: bytes): Option<Table> {
    if addr + 36 > |mem| || mem[addr..addr + 4] != sig then None
    else
      var length := LeVal(mem[addr + 4..addr + 8]);
      if length < 36 || addr + length > |mem| || !Balanced(mem[addr..addr + length]) then None
      else Some(Table(mem[addr + 8], mem[addr + 10..addr + 16], mem[addr + 16..addr + 24], LeVal(mem[addr + 24..addr + 28]),
                      mem[addr + 28..addr + 32], LeVal(mem[addr + 32..addr + 36]), mem[addr + 36..addr + length]))
  }

  datatype Firmware = Firmware(rsdt: Table, xsdt: Table, fadt: Table, madt: Table, dsdt: Table)

  /** The root pointer: its signature, revision and length, both checksums, and the two table addresses it holds. */
  function RootAt(mem: bytes): Option<(nat, nat)> {
    if 0xE0024 > |mem| || mem[0xE0000..0xE0008] != Ascii("RSD PTR ") || mem[0xE000F] != 2 then None
    else if LeVal(mem[0xE0014..0xE0018]) != 36 then None
    else if !Balanced(mem[0xE0000..0xE0014]) || !Balanced(mem[0xE0000..0xE0024]) then None
    else Some((LeVal(mem[0xE0010..0xE0014]), LeVal(mem[0xE0018..0xE0020])))
  }

  /** The two entries of a root table with entries of the given width. */
  function EntriesOf(t: Table, width: nat): Option<(nat, nat)> {
    if |t.payload| != 2 * width then None
    else Some((LeVal(t.payload[..width]), LeVal(t.payload[width..])))
  }

  /** The DSDT address, which the FADT must give twice. */
  function DsdtOf(t: Table): Option<nat> {
    if |t.payload| != 240 then None
    else if LeVal(t.payload[4..8]) != LeVal(t.payload[104..112]) then None
    else Some(LeVal(t.payload[4..8]))
  }

  /** Follows the root pointer to both root tables, and those to the FADT, MADT and DSDT. */
  function ReadFirmware(mem: bytes): Option<Firmware> {
    var root := RootAt(mem);
    if root.None? then None
    else
      var rsdt, xsdt := TableAt(mem, root.value.0, Ascii("RSDT")), TableAt(mem, root.value.1, Ascii("XSDT"));
      if rsdt.None? || xsdt.None? then None
      else
        var narrow, wide := EntriesOf(rsdt.value, 4), EntriesOf(xsdt.value, 8);
        if narrow.None? || narrow != wide then None
        else
          var fadt, madt := TableAt(mem, narrow.value.0, Ascii("FACP")), TableAt(mem, narrow.value.1, Ascii("APIC"));
          if fadt.None? || madt.None? then None
          else
            var at := DsdtOf(fadt.value);
            var dsdt := if at.None? then None else TableAt(mem, at.value, Ascii("DSDT"));
            if dsdt.None? then None else Some(Firmware(rsdt.value, xsdt.value, fadt.value, madt.value, dsdt.value))
  }

  /** The processors a MADT payload lists, from pos on. */
  function CpusAt(b: bytes, pos: nat): Option<seq<nat>>
    decreases |b| - pos
  {
    if pos == |b| then Some([])
    else if pos + 8 > |b| then None
    else if b[pos] == 0 && b[pos + 1] == 8 then
      var rest := CpusAt(b, pos + 8);
      if rest.None? then None else Some([b[pos + 3] as nat] + rest.value)
    else if b[pos] == 1 && b[pos + 1] == 12 && pos + 12 <= |b| then CpusAt(b, pos + 12)
    else None
  }

  // ---------- the tables ----------

  /** The common header with a zero checksum. */
  function HeaderBytes(sig: bytes, length: nat, revision: byte, id: bytes): (b: bytes)
    requires |sig| == 4 && |id| == 8
    ensures |b| == HEADER
  {
    sig + Le(length, 4) + [revision, 0] + Ascii("GOCRKR") + id + Le(0, 4) + Ascii("GCAT") + Le(0x2026_0402, 4)
  }

  function Sdt(sig: bytes, revision: byte, id: bytes, payload: bytes): (b: bytes)
    requires |sig| == 4 && |id| == 8
    ensures |b| == HEADER + |payload|
  {
    Sealed(HeaderBytes(sig, HEADER + |payload|, revision, id) + payload, 9)
  }

  /** The FADT's fields after the header: the DSDT address twice, flags, version and hypervisor. */
  function FadtPayload(dsdt: nat): (b: bytes)
    ensures |b| == FADT_LENGTH - HEADER
  {
    Zeros(4) + Le(dsdt, 4) + (Zeros(65) + Le(4, 2) + Zeros(1) + Le(0x10_0030, 4) + Zeros(15) + [5] + Zeros(8))
    + Le(dsdt, 8) + (Zeros(120) + Ascii("GOCRKVM "))
  }

  /** Local APIC entries for processors 0 to n-1; the id is one byte. */
  function Lapics(n: nat): (b: bytes)
    ensures |b| == 8 * n
  {
    if n == 0 then [] else Lapics(n - 1) + ([0, 8, (n - 1) % 256, (n - 1) % 256] + Le(1, 4))
  }

  function MadtPayload(n: nat): (b: bytes)
    ensures |b| == 20 + 8 * n
  {
    Le(0xFEE0_0000, 4) + Le(0, 4) + ([1, 12, 0, 0] + Le(0xFEC0_0000, 4) + Le(0, 4)) + Lapics(n)
  }

  function DsdtTable(body: bytes): bytes {
    Sdt(Ascii("DSDT"), 2, Ascii("GCDSDT01"), body)
  }

  function Fadt(dsdt: nat): (b: bytes)
    ensures |b| == FADT_LENGTH
  {
    Sdt(Ascii("FACP"), 6, Ascii("GCFADT01"), FadtPayload(dsdt))
  }

  function Madt(n: nat): bytes {
    Sdt(Ascii("APIC"), 6, Ascii("GCMADT01"), MadtPayload(n))
  }

  function Rsdt(fadt: nat, madt: nat): bytes {
    Sdt(Ascii("RSDT"), 1, Ascii("GCRSDT01"), Le(fadt, 4) + Le(madt, 4))
  }

  function Xsdt(fadt: nat, madt: nat): bytes {
    Sdt(Ascii("XSDT"), 1, Ascii("GCXSDT01"), Le(fadt, 8) + Le(madt, 8))
  }

  /** The root pointer before its two checksums. */
  function RsdpRaw(rsdt: nat, xsdt: nat): (b: bytes)
    ensures |b| == HEADER
  {
    Ascii("RSD PTR ") + ([0] + Ascii("GOCRKR") + [2]) + Le(rsdt, 4) + Le(36, 4) + Le(xsdt, 8) + Zeros(4)
  }

  /** First the checksum of the first 20 bytes, then that of all 36. */
  function RsdpBytes(rsdt: nat, xsdt: nat): (b: bytes)
    ensures |b| == HEADER
  {
    var raw := RsdpRaw(rsdt, xsdt);
    var first := raw[8 := Complement(Sum(raw[..20]))];
    first[32 := Complement(Sum(first))]
  }

  // ---------- each table reads back ----------

  lemma SealedKeeps(b: bytes, off: nat, lo: nat, hi: nat)
    requires off < |b| && lo <= hi <= |b| && (hi <= off || off < lo)
    ensures Sealed(b, off)[lo..hi] == b[lo..hi]
  {
    hide Sum;
  }

  lemma {:induction false} HeaderParts(sig: bytes, length: nat, revision: byte, id: bytes, payload: bytes)
    requires |sig| == 4 && |id| == 8
    ensures var b := HeaderBytes(sig, length, revision, id) + payload;
      && b[0..4] == sig && b[4..8] == Le(length, 4) && b[8..9] == [revision] && b[10..16] == Ascii("GOCRKR") && b[16..24] == id
      && b[24..28] == Le(0, 4) && b[28..32] == Ascii("GCAT") && b[32..36] == Le(0x2026_0402, 4) && b[36..] == payload
  {
    hide Le, Ascii;
  }

  /** A table this program writes, as it is read. */
  function Written(revision: byte, id: bytes, payload: bytes): Table {
    Table(revision, Ascii("GOCRKR"), id, 0, Ascii("GCAT"), 0x2026_0402, payload)
  }

  /** A part of a sealed table, seen where the table stands. */
  lemma PartAt(mem: bytes, addr: nat, raw: bytes, lo: nat, hi: nat)
    requires 9 < |raw| && lo <= hi <= |raw| && (hi <= 9 || 9 < lo) && Holds(mem, addr, Sealed(raw, 9))
    ensures addr + hi <= |mem| && mem[addr + lo..addr + hi] == raw[lo..hi]
  {
    hide Sum, Holds, Sealed;
    SealedKeeps(raw, 9, lo, hi);
    HoldsRange(mem, addr, Sealed(raw, 9), lo, hi);
  }

  /** A table standing intact in memory is found with exactly its header and payload. */
  lemma SdtBack(mem: bytes, addr: nat, sig: bytes, revision: byte, id: bytes, payload: bytes)
    requires |sig| == 4 && |id| == 8 && 36 + |payload| < POW32
    requires Holds(mem, addr, Sdt(sig, revision, id, payload))
    ensures TableAt(mem, addr, sig) == Some(Written(revision, id, payload))
  {
    hide Sum, Le, LeVal, HeaderBytes, Holds, Sealed, Ascii, Balanced, Pow256;
    var length := 36 + |payload|;
    var raw := HeaderBytes(sig, length, revision, id) + payload;
    HeaderParts(sig, length, revision, id, payload);
    PartAt(mem, addr, raw, 0, 4);
    PartAt(mem, addr, raw, 4, 8);
    PartAt(mem, addr, raw, 8, 9);
    PartAt(mem, addr, raw, 10, 16);
    PartAt(mem, addr, raw, 16, 24);
    PartAt(mem, addr, raw, 24, 28);
    PartAt(mem, addr, raw, 28, 32);
    PartAt(mem, addr, raw, 32, 36);
    PartAt(mem, addr, raw, 36, |raw|);
    SealedBalanced(raw, 9);
    HoldsSlice(mem, addr, Sealed(raw, 9));
    PowValues();
    LeRoundTrip(length, 4);
    LeRoundTrip(0, 4);
    LeRoundTrip(0x2026_0402, 4);
    assert mem[addr + 8] == mem[addr + 8..addr + 9][0] && raw[36..|raw|] == payload;
  }

  lemma {:induction false} EntriesBack(revision: byte, id: bytes, a: nat, b: nat, width: nat)
    requires a < Pow256(width) && b < Pow256(width)
    ensures EntriesOf(Written(revision, id, Le(a, width) + Le(b, width)), width) == Some((a, b))
  {
    hide LeVal, Pow256, Ascii;
    var payload := Le(a, width) + Le(b, width);
    assert payload[..width] == Le(a, width) && payload[width..] == Le(b, width);
    LeRoundTrip(a, width);
    LeRoundTrip(b, width);
  }

  lemma FadtBack(revision: byte, id: bytes, dsdt: nat)
    requires dsdt < POW32
    ensures DsdtOf(Written(revision, id, FadtPayload(dsdt))) == Some(dsdt)
  {
    hide LeVal, Pow256, Le;
    var p := FadtPayload(dsdt);
    PowValues();
    assert p[4..8] == Le(dsdt, 4);
    assert p[104..112] == Le(dsdt, 8);
    LeRoundTrip(dsdt, 4);
    LeRoundTrip(dsdt, 8);
  }

  /** Both checksums hold at once: the second byte patched lies outside the first's range. */
  lemma RsdpBalanced(rsdt: nat, xsdt: nat)
    ensures Balanced(RsdpBytes(rsdt, xsdt)[..20]) && Balanced(RsdpBytes(rsdt, xsdt))
  {
    hide Sum;
    var raw := RsdpRaw(rsdt, xsdt);
    assert raw[8] == 0 && raw[32] == 0;
    var c := Complement(Sum(raw[..20]));
    var first := raw[8 := c];
    var d := Complement(Sum(first));
    SumUpdate(raw[..20], 8, c);
    assert first[..20] == raw[..20][8 := c];
    Closes(Sum(raw[..20]));
    SumUpdate(first, 32, d);
    Closes(Sum(first));
    assert first[32 := d][..20] == first[..20];
  }

  lemma RsdpBack(mem: bytes, rsdt: nat, xsdt: nat)
    requires Holds(mem, RSDP, RsdpBytes(rsdt, xsdt)) && rsdt < POW32 && xsdt < POW64
    ensures RootAt(mem) == Some((rsdt, xsdt))
  {
    hide Sum, Holds, LeVal, Le, Pow256, Ascii;
    var t := RsdpBytes(rsdt, xsdt);
    HoldsSlice(mem, RSDP, t);
    RsdpBalanced(rsdt, xsdt);
    HoldsRange(mem, RSDP, t, 0, 8);
    HoldsRange(mem, RSDP, t, 0, 20);
    HoldsRange(mem, RSDP, t, 0, 36);
    HoldsRange(mem, RSDP, t, 15, 16);
    HoldsRange(mem, RSDP, t, 16, 20);
    HoldsRange(mem, RSDP, t, 20, 24);
    HoldsRange(mem, RSDP, t, 24, 32);
    RsdpFields(rsdt, xsdt);
    assert mem[0xE000F] == mem[0xE000F..0xE0010][0];
    PowValues();
    LeRoundTrip(rsdt, 4);
    LeRoundTrip(36, 4);
    LeRoundTrip(xsdt, 8);
  }

  lemma {:induction false} RsdpFields(rsdt: nat, xsdt: nat)
    ensures var t := RsdpBytes(rsdt, xsdt);
      && t[0..8] == Ascii("RSD PTR ") && t[9..15] == Ascii("GOCRKR") && t[15..16] == [2]
      && t[16..20] == Le(rsdt, 4) && t[20..24] == Le(36, 4) && t[24..32] == Le(xsdt, 8) && t[33..36] == Zeros(3)
  {
    hide Sum, Le, Ascii;
    var raw := RsdpRaw(rsdt, xsdt);
    assert raw[0..8] == Ascii("RSD PTR ") && raw[9..15] == Ascii("GOCRKR") && raw[15] == 2;
    assert raw[16..20] == Le(rsdt, 4) && raw[20..24] == Le(36, 4) && raw[24..32] == Le(xsdt, 8);
  }

  /** Five tables and a root pointer that refer to each other make up the firmware. */
  lemma {:induction false} FirmwareBack(mem: bytes, dsdt: nat, fadt: nat, madt: nat, rsdt: nat, xsdt: nat, body: bytes, cpus: nat)
    requires dsdt < POW32 && fadt < POW32 && madt < POW32 && rsdt < POW32 && xsdt < POW32
    requires 36 + |body| < POW32 && 56 + 8 * cpus < POW32
    requires Holds(mem, dsdt, DsdtTable(body)) && Holds(mem, fadt, Fadt(dsdt)) && Holds(mem, madt, Madt(cpus))
    requires Holds(mem, rsdt, Rsdt(fadt, madt)) && Holds(mem, xsdt, Xsdt(fadt, madt))
    requires Holds(mem, RSDP, RsdpBytes(rsdt, xsdt))
    ensures ReadFirmware(mem) == Some(Firmware(
      Written(1, Ascii("GCRSDT01"), Le(fadt, 4) + Le(madt, 4)), Written(1, Ascii("GCXSDT01"), Le(fadt, 8) + Le(madt, 8)),
      Written(6, Ascii("GCFADT01"), FadtPayload(dsdt)), Written(6, Ascii("GCMADT01"), MadtPayload(cpus)),
      Written(2, Ascii("GCDSDT01"), body)))
  {
    hide Holds, Sdt, TableAt, RootAt, EntriesOf, DsdtOf, MadtPayload, FadtPayload, Pow256, RsdpBytes, Ascii, Written, Le;
    PowValues();
    RsdpBack(mem, rsdt, xsdt);
    SdtBack(mem, rsdt, Ascii("RSDT"), 1, Ascii("GCRSDT01"), Le(fadt, 4) + Le(madt, 4));
    SdtBack(mem, xsdt, Ascii("XSDT"), 1, Ascii("GCXSDT01"), Le(fadt, 8) + Le(madt, 8));
    EntriesBack(1, Ascii("GCRSDT01"), fadt, madt, 4);
    EntriesBack(1, Ascii("GCXSDT01"), fadt, madt, 8);
    SdtBack(mem, fadt, Ascii("FACP"), 6, Ascii("GCFADT01"), FadtPayload(dsdt));
    FadtBack(6, Ascii("GCFADT01"), dsdt);
    SdtBack(mem, madt, Ascii("APIC"), 6, Ascii("GCMADT01"), MadtPayload(cpus));
    SdtBack(mem, dsdt, Ascii("DSDT"), 2, Ascii("GCDSDT01"), body);
  }

  // ---------- processors ----------

  lemma LapicAt(b: bytes, pos: nat, i: nat)
    requires Holds(b, pos, [0, 8, i % 256, i % 256] + Le(1, 4))
    ensures pos + 8 <= |b| && b[pos] == 0 && b[pos + 1] == 8 && b[pos + 3] == i % 256
  {
    hide Le;
    var x := [0, 8, i % 256, i % 256] + Le(1, 4);
    assert b[pos..pos + |x|][0] == 0 && b[pos..pos + |x|][1] == 8 && b[pos..pos + |x|][3] == i % 256;
  }

  lemma {:induction false} LapicsBack(b: bytes, n: nat, k: nat)
    requires k <= n && Holds(b, 20, Lapics(n)) && |b| == 20 + 8 * n
    ensures CpusAt(b, 20 + 8 * k) == Some(Ids(k, n))
    decreases n - k
  {
    hide Holds, Lapics;
    if k < n {
      LapicPlace(b, 20, n, k);
      LapicAt(b, 20 + 8 * k, k);
      LapicsBack(b, n, k + 1);
    }
  }

  /** The ids k to n-1, cut to one byte. */
  function Ids(k: nat, n: nat): seq<nat>
    decreases n - k
  {
    if k >= n then [] else [k % 256] + Ids(k + 1, n)
  }

  lemma {:induction false} LapicPlace(b: bytes, pos: nat, n: nat, k: nat)
    requires k < n && Holds(b, pos, Lapics(n))
    ensures Holds(b, pos + 8 * k, [0, 8, k % 256, k % 256] + Le(1, 4))
    decreases n
  {
    hide Holds, Le;
    HoldsSplit(b, pos, Lapics(n - 1), [0, 8, (n - 1) % 256, (n - 1) % 256] + Le(1, 4));
    if k < n - 1 {
      LapicPlace(b, pos, n - 1, k);
    }
  }

  /** The MADT lists every processor once, its number cut to a byte: distinct exactly up to 256 of them. */
  lemma {:induction false} CpusBack(n: nat)
    ensures CpusAt(MadtPayload(n), 8) == Some(Ids(0, n))
  {
    var b := MadtPayload(n);
    HoldsTail(b, 20, Lapics(n));
    LapicsBack(b, n, 0);
    hide Lapics, CpusAt, Holds;
    IoApicSkipped(n);
  }

  lemma HoldsTail(b: bytes, pos: nat, x: bytes)
    requires pos + |x| == |b| && b[pos..] == x
    ensures Holds(b, pos, x)
  {
  }

  lemma IoApicSkipped(n: nat)
    ensures CpusAt(MadtPayload(n), 8) == CpusAt(MadtPayload(n), 20)
  {
    hide Lapics, Le;
    var b := MadtPayload(n);
    assert b[8] == 1 && b[9] == 12;
  }

  lemma {:induction false} IdsAt(k: nat, n: nat, i: nat)
    requires k + i < n
    ensures |Ids(k, n)| == n - k && Ids(k, n)[i] == (k + i) % 256
    decreases n - k
  {
    if i > 0 {
      IdsAt(k + 1, n, i - 1);
    } else if k + 1 < n {
      IdsAt(k + 1, n, 0);
    }
  }

  lemma IdsDistinctExactly(n: nat)
    ensures (forall i, j :: 0 <= i < j < n ==> IdOf(n, i) != IdOf(n, j)) <==> n <= 256
  {
    forall i | 0 <= i < n ensures IdOf(n, i) == i % 256 {
      IdsAt(0, n, i);
    }
    if n > 256 {
      assert IdOf(n, 0) == IdOf(n, 256);
    }
  }

  function IdOf(n: nat, i: nat): nat {
    var ids := Ids(0, n);
    if i < |ids| then ids[i] else 0
  }
}
