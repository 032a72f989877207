/** The E820 memory map in the boot parameters, and where the firmware structures lie in it. */
module E820 {
  import opened Bytes
  import opened GuestMemory
  import opened Prelude
  import Acpi
  import MpTable

  const COUNT_AT: nat := 0x1E8
  const MAP_AT: nat := 0x2D0
  const RAM: nat := 1
  const RESERVED: nat := 2
  const MIB: nat := 0x10_0000

  datatype Region = Region(addr: nat, size: nat, kind: nat)

  function RegionBytes(r: Region): (b: bytes)
    ensures |b| == 20
  {
    Le(r.addr, 8) + Le(r.size, 8) + Le(r.kind, 4)
  }

  function RegionAt(mem: bytes, pos: nat): Region
    requires pos + 20 <= |mem|
  {
    Region(LeVal(mem[pos..pos + 8]), LeVal(mem[pos + 8..pos + 16]), LeVal(mem[pos + 16..pos + 20]))
  }

  function RegionsAt(mem: bytes, pos: nat, n: nat): seq<Region>
    requires pos + 20 * n <= |mem|
    decreases n
  {
    if n == 0 then [] else [RegionAt(mem, pos)] + RegionsAt(mem, pos + 20, n - 1)
  }

  /** What the kernel reads: as many regions as the count says. */
  function ReadMap(mem: bytes, base: nat): Option<seq<Region>> {
    if base + 0x2D0 > |mem| then None
    else
      var n: nat := mem[base + 0x1E8];
      if base + 0x2D0 + 20 * n > |mem| then None else Some(RegionsAt(mem, base + 0x2D0, n))
  }

  function Low(): Region {
    Region(0, 0x9FC00, RAM)
  }

  function System(): Region {
    Region(0x9FC00, 0x40400, RESERVED)
  }

  function Bios(): Region {
    Region(0xE0000, 0x20000, RESERVED)
  }

  function High(total: nat): Region
    requires total > MIB
  {
    Region(MIB, total - MIB, RAM)
  }

  /** The regions follow one another without gap or overlap from address 0. */
  ghost predicate Tiles(rs: seq<Region>, end: nat) {
    rs != [] && rs[0].addr == 0 && rs[|rs| - 1].addr + rs[|rs| - 1].size == end
    && forall i, j :: 0 <= i && j == i + 1 && j < |rs| ==> rs[i].addr + rs[i].size == rs[j].addr
  }

  lemma RegionBack(mem: bytes, pos: nat, r: Region)
    requires Holds(mem, pos, RegionBytes(r)) && r.addr < POW64 && r.size < POW64 && r.kind < POW32
    ensures pos + 20 <= |mem| && RegionAt(mem, pos) == r
  {
    hide Le, LeVal, Holds;
    var a, s, k := Le(r.addr, 8), Le(r.size, 8), Le(r.kind, 4);
    HoldsSplit(mem, pos, a + s, k);
    HoldsSplit(mem, pos, a, s);
    HoldsSlice(mem, pos, a);
    HoldsSlice(mem, pos + 8, s);
    HoldsSlice(mem, pos + 16, k);
    PowValues();
    LeRoundTrip(r.addr, 8);
    LeRoundTrip(r.size, 8);
    LeRoundTrip(r.kind, 4);
  }

  /** Memory after the map is written: the fourth entry only above 1 MiB. */
  function Mapped(mem: bytes, base: nat, total: nat): (r: bytes)
    requires base + MAP_AT + 80 <= |mem|
    ensures |r| == |mem|
  {
    var at := base + MAP_AT;
    var m := Put(Put(Put(Put(mem, base + COUNT_AT, [4]), at, RegionBytes(Low())), at + 20, RegionBytes(System())),
                 at + 40, RegionBytes(Bios()));
    if total > MIB then Put(m, at + 60, RegionBytes(High(total))) else m
  }

  method PutE820(mem: array<byte>, off: nat, r: Region)
    requires off + 20 <= mem.Length
    modifies mem
    ensures mem[..] == Put(old(mem[..]), off, RegionBytes(r))
  {
    CopyTo(mem, off, RegionBytes(r));
  }

  method WriteE820Map(mem: array<byte>, base: nat, total: nat)
    requires base + MAP_AT + 80 <= mem.Length
    modifies mem
    ensures mem[..] == Mapped(old(mem[..]), base, total)
  {
    hide Put, RegionBytes;
    var at := base + MAP_AT;
    CopyTo(mem, base + COUNT_AT, [4]);
    PutE820(mem, at, Low());
    PutE820(mem, at + 20, System());
    PutE820(mem, at + 40, Bios());
    if total > MIB {
      PutE820(mem, at + 60, High(total));
    }
  }

  /** The first three regions stand, and the count says four. */
  lemma MappedFirst(mem: bytes, base: nat, total: nat)
    requires base + MAP_AT + 80 <= |mem|
    ensures var m := Mapped(mem, base, total);
      && Holds(m, base + COUNT_AT, [4]) && Holds(m, base + MAP_AT, RegionBytes(Low()))
      && Holds(m, base + MAP_AT + 20, RegionBytes(System())) && Holds(m, base + MAP_AT + 40, RegionBytes(Bios()))
  {
    hide Put, RegionBytes, Holds;
    var at := base + MAP_AT;
    var c, low, sys, bios := [4], RegionBytes(Low()), RegionBytes(System()), RegionBytes(Bios());
    var m1 := Put(mem, base + COUNT_AT, c);
    var m2 := Put(m1, at, low);
    var m3 := Put(m2, at + 20, sys);
    var m4 := Put(m3, at + 40, bios);
    PutHolds(mem, base + COUNT_AT, c);
    PutHolds(m1, at, low);
    PutHolds(m2, at + 20, sys);
    PutHolds(m3, at + 40, bios);
    PutKeeps(m1, at, low, base + COUNT_AT, c);
    PutKeeps(m2, at + 20, sys, base + COUNT_AT, c);
    PutKeeps(m3, at + 40, bios, base + COUNT_AT, c);
    PutKeeps(m2, at + 20, sys, at, low);
    PutKeeps(m3, at + 40, bios, at, low);
    PutKeeps(m3, at + 40, bios, at + 20, sys);
    if total > MIB {
      var high := RegionBytes(High(total));
      PutKeeps(m4, at + 60, high, base + COUNT_AT, c);
      PutKeeps(m4, at + 60, high, at, low);
      PutKeeps(m4, at + 60, high, at + 20, sys);
      PutKeeps(m4, at + 60, high, at + 40, bios);
    }
  }

  /** The fourth region: extended memory, or whatever stood there before. */
  lemma MappedLast(mem: bytes, base: nat, total: nat)
    requires base + MAP_AT + 80 <= |mem| && total < POW64
    ensures RegionAt(Mapped(mem, base, total), base + MAP_AT + 60)
      == if total > MIB then High(total) else RegionAt(mem, base + MAP_AT + 60)
  {
    hide RegionBytes, LeVal, Put, Holds, RegionAt;
    var at := base + MAP_AT;
    var m1 := Put(mem, base + COUNT_AT, [4]);
    var m2 := Put(m1, at, RegionBytes(Low()));
    var m3 := Put(m2, at + 20, RegionBytes(System()));
    var m4 := Put(m3, at + 40, RegionBytes(Bios()));
    if total > MIB {
      PutHolds(m4, at + 60, RegionBytes(High(total)));
      RegionBack(Put(m4, at + 60, RegionBytes(High(total))), at + 60, High(total));
    } else {
      var x := mem[at + 60..at + 80];
      StandsAlready(mem, at + 60, at + 80);
      PutKeeps(mem, base + COUNT_AT, [4], at + 60, x);
      PutKeeps(m1, at, RegionBytes(Low()), at + 60, x);
      PutKeeps(m2, at + 20, RegionBytes(System()), at + 60, x);
      PutKeeps(m3, at + 40, RegionBytes(Bios()), at + 60, x);
      RegionSame(mem, m4, at + 60, x);
    }
  }

  lemma StandsAlready(mem: bytes, lo: nat, hi: nat)
    requires lo <= hi <= |mem|
    ensures Holds(mem, lo, mem[lo..hi])
  {
  }

  /** Equal bytes are the same region. */
  lemma RegionSame(a: bytes, b: bytes, pos: nat, x: bytes)
    requires |x| == 20 && Holds(a, pos, x) && Holds(b, pos, x)
    ensures RegionAt(a, pos) == RegionAt(b, pos)
  {
    hide LeVal;
    RegionSlices(a, pos, x);
    RegionSlices(b, pos, x);
  }

  lemma RegionSlices(a: bytes, pos: nat, x: bytes)
    requires |x| == 20 && Holds(a, pos, x)
    ensures a[pos..pos + 8] == x[..8] && a[pos + 8..pos + 16] == x[8..16] && a[pos + 16..pos + 20] == x[16..]
  {
    HoldsRange(a, pos, x, 0, 8);
    HoldsRange(a, pos, x, 8, 16);
    HoldsRange(a, pos, x, 16, 20);
  }

  /** The kernel reads four regions: the three fixed ones and the fourth. */
  lemma MapBack(mem: bytes, base: nat, total: nat)
    requires base + 0x320 <= |mem| && total < POW64
    ensures ReadMap(Mapped(mem, base, total), base)
      == Some([Region(0, 0x9FC00, 1), Region(0x9FC00, 0x40400, 2), Region(0xE0000, 0x20000, 2),
               if total > 0x10_0000 then Region(0x10_0000, total - 0x10_0000, 1) else RegionAt(mem, base + 0x30C)])
  {
    hide Mapped, RegionBytes, Holds, RegionAt;
    var m := Mapped(mem, base, total);
    var at := base + MAP_AT;
    MappedFirst(mem, base, total);
    MappedLast(mem, base, total);
    CountIs(m, base);
    RegionBack(m, at, Low());
    RegionBack(m, at + 20, System());
    RegionBack(m, at + 40, Bios());
    FourRegions(m, at);
  }

  lemma CountIs(m: bytes, base: nat)
    requires Holds(m, base + COUNT_AT, [4])
    ensures base + COUNT_AT < |m| && m[base + COUNT_AT] == 4
  {
    assert m[base + COUNT_AT..base + COUNT_AT + 1][0] == 4;
  }

  lemma FourRegions(m: bytes, at: nat)
    requires at + 80 <= |m|
    ensures RegionsAt(m, at, 4) == [RegionAt(m, at), RegionAt(m, at + 20), RegionAt(m, at + 40), RegionAt(m, at + 60)]
  {
    hide RegionAt;
    assert RegionsAt(m, at + 80, 0) == [];
    assert RegionsAt(m, at + 60, 1) == [RegionAt(m, at + 60)] + [];
    assert RegionsAt(m, at + 40, 2) == [RegionAt(m, at + 40)] + [RegionAt(m, at + 60)];
    assert RegionsAt(m, at + 20, 3) == [RegionAt(m, at + 20)] + ([RegionAt(m, at + 40)] + [RegionAt(m, at + 60)]);
  }

  /** An empty region at 1 MiB. */
  predicate Ends(r: Region) {
    r.addr == 0x10_0000 && r.size == 0
  }

  /** The map tiles the whole memory exactly when memory goes beyond 1 MiB, or the stale entry happens to fit. */
  lemma TilesExactly(mem: bytes, base: nat, total: nat)
    requires base + MAP_AT + 80 <= |mem| && total < POW64
    ensures ReadMap(Mapped(mem, base, total), base).Some?
    ensures Tiles(ReadMap(Mapped(mem, base, total), base).value, total)
      <==> total > 0x10_0000 || (total == 0x10_0000 && Ends(RegionAt(mem, base + 0x30C)))
  {
    hide Mapped, ReadMap, RegionAt;
    MapBack(mem, base, total);
    var r := if total > MIB then High(total) else RegionAt(mem, base + MAP_AT + 60);
    var rs := [Low(), System(), Bios(), r];
    assert rs[0].addr + rs[0].size == rs[1].addr && rs[1].addr + rs[1].size == rs[2].addr;
    assert rs[2].addr + rs[2].size == MIB;
    if Tiles(rs, total) {
      assert rs[2].addr + rs[2].size == rs[3].addr;
    }
  }

  /** The MP table for up to 37 processors and all ACPI tables lie inside the reserved system region, apart. */
  lemma FirmwareReserved(n: nat)
    requires n <= MpTable.MAX_CPUS
    ensures 0x9FC00 <= MpTable.StartAddr(n) <==> n <= 37
    ensures MpTable.StartAddr(n) + MpTable.Size(n) <= 0xA0000
    ensures Acpi.SYSTEM_START == 0xA0000 && Acpi.SYSTEM_END == 0xE0000 == System().addr + System().size
  {
    MpTable.Placement(n);
  }

  /** Writing the ACPI tables leaves the MP table readable. */
  lemma MpSurvivesAcpi(mem: bytes, mem': bytes, n: nat)
    requires MpTable.Standing(mem, n) && SameOutside(mem, mem', 0xA0000, 0xE0024)
    ensures var mp := MpTable.ReadMp(mem', MpTable.StartAddr(n)); mp.Some? && MpTable.SeenMp(mp.value, n)
  {
    hide MpTable.ReadMp, MpTable.SeenMp;
    MpTable.StandingKept(mem, mem', n, 0xA0000, 0xE0024);
    MpTable.StandingReads(mem', n);
  }
}
