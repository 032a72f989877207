/**
 * The boot page tables: four levels that map the first 4 GiB to themselves with
 * 2 MiB pages, writable and for supervisor mode, checked by the walk of section 4.5 of the Intel SDM, volume 3A.
 */
module PageTables {
  import opened Prelude
  import opened Bytes
  import opened GuestMemory

  const PAGE := 0x1000
  const HUGE := 0x20_0000
  const GIB := 0x4000_0000
  const TABLE_FLAGS := 0x07
  const HUGE_FLAGS := 0x83
  const PHYS_LIMIT := 0x10_0000_0000_0000

  // ---------- the walk ----------

  function Entry(m: bytes, addr: nat): Option<nat> {
    if addr + 8 <= |m| then Some(LeVal(m[addr..addr + 8])) else None
  }

  predicate Present(e: nat) {
    e % 2 == 1
  }

  /** Bit 7 of a page-directory entry: it maps a page instead of pointing to a table. */
  predicate MapsPage(e: nat) {
    (e / 0x80) % 2 == 1
  }

  /** Bit 1: writes are allowed. */
  predicate Writable(e: nat) {
    (e / 2) % 2 == 1
  }

  /** Bit 2: user mode is allowed. */
  predicate ForUser(e: nat) {
    (e / 4) % 2 == 1
  }

  /** Bits 51 to 12. */
  function TableAddr(e: nat): nat {
    var low := e % 0x10_0000_0000_0000;
    low - low % 0x1000
  }

  /** Bits 51 to 21. */
  function HugeAddr(e: nat): nat {
    var low := e % 0x10_0000_0000_0000;
    low - low % 0x20_0000
  }

  /** Where an address leads, and what may be done there. */
  datatype Mapping = Mapping(addr: nat, write: bool, user: bool)

  /**
   * The translation of va under the page tables at cr3, where 2 MiB pages end the walk. A right is
   * granted only if every level grants it.
   */
  function Walk(m: bytes, cr3: nat, va: nat): Option<Mapping> {
    var l4 := Entry(m, cr3 + 8 * ((va / 0x80_0000_0000) % 512));
    if l4.None? || !Present(l4.value) then None
    else
      var l3 := Entry(m, TableAddr(l4.value) + 8 * ((va / 0x4000_0000) % 512));
      if l3.None? || !Present(l3.value) || MapsPage(l3.value) then None
      else
        var l2 := Entry(m, TableAddr(l3.value) + 8 * ((va / 0x20_0000) % 512));
        if l2.None? || !Present(l2.value) || !MapsPage(l2.value) then None
        else Some(Mapping(HugeAddr(l2.value) + va % 0x20_0000,
                          Writable(l4.value) && Writable(l3.value) && Writable(l2.value),
                          ForUser(l4.value) && ForUser(l3.value) && ForUser(l2.value)))
  }

  // ---------- bitwise or with flags ----------

  function BitOr(a: nat, b: nat): nat {
    if a == 0 && b == 0 then 0
    else 2 * BitOr(a / 2, b / 2) + (if a % 2 == 1 || b % 2 == 1 then 1 else 0)
  }

  lemma {:induction false} OrZero(a: nat)
    ensures BitOr(a, 0) == a
  {
    if a > 0 {
      OrZero(a / 2);
    }
  }

  /** Flags below an aligned address are added to it. */
  lemma {:induction false} OrAligned(q: nat, f: nat, n: nat)
    requires f < Pow2(n)
    ensures BitOr(q * Pow2(n), f) == q * Pow2(n) + f
  {
    if n == 0 {
      OrZero(q);
    } else {
      var half := q * Pow2(n - 1);
      assert q * Pow2(n) == 2 * half;
      OrAligned(q, f / 2, n - 1);
    }
  }

  lemma {:induction false} OrFlags(a: nat, f: nat)
    requires a % PAGE == 0 && f < 256
    ensures BitOr(a, f) == a + f
  {
    assert Pow2(8) == 256 by {
      assert Pow2(4) == 16;
    }
    var q := a / PAGE;
    OrAligned(16 * q, f, 8);
    assert 16 * q * 256 == a;
  }

  // ---------- the writer ----------

  /** What the tables at base must hold: the top entry, the first n3 and the first n2 of the next levels. */
  ghost predicate Tables(m: bytes, base: nat, n3: nat, n2: nat) {
    && Holds(m, base, Le(base + PAGE + TABLE_FLAGS, 8))
    && (forall i {:trigger Level3(m, base, i)} :: 0 <= i < n3 ==> Level3(m, base, i))
    && (forall k {:trigger Level2(m, base, k)} :: 0 <= k < n2 ==> Level2(m, base, k))
  }

  ghost predicate Level3(m: bytes, base: nat, i: nat) {
    Holds(m, base + PAGE + 8 * i, Le(base + (2 + i) * PAGE + TABLE_FLAGS, 8))
  }

  ghost predicate Level2(m: bytes, base: nat, k: nat) {
    Holds(m, base + 2 * PAGE + 8 * k, Le(k * HUGE + HUGE_FLAGS, 8))
  }

  method WriteU64(mem: array<byte>, addr: nat, val: nat)
    requires addr + 8 <= mem.Length
    modifies mem
    ensures mem[..] == Put(old(mem[..]), addr, Le(val, 8))
  {
    CopyTo(mem, addr, Le(val, 8));
  }

  lemma {:induction false} KeepTables(m: bytes, base: nat, n3: nat, n2: nat, addr: nat, val: nat)
    requires Tables(m, base, n3, n2) && addr + 8 <= |m| && n3 <= 4 && n2 <= 2048
    requires addr == base + PAGE + 8 * n3 || addr == base + 2 * PAGE + 8 * n2
    requires n3 < 4 || addr >= base + 2 * PAGE
    ensures Tables(Put(m, addr, Le(val, 8)), base, n3, n2)
  {
    hide Put, Holds, Le;
    var m' := Put(m, addr, Le(val, 8));
    PutKeeps(m, addr, Le(val, 8), base, Le(base + PAGE + TABLE_FLAGS, 8));
    forall i | 0 <= i < n3 ensures Level3(m', base, i) {
      assert Level3(m, base, i);
      PutKeeps(m, addr, Le(val, 8), base + PAGE + 8 * i, Le(base + (2 + i) * PAGE + TABLE_FLAGS, 8));
    }
    forall k | 0 <= k < n2 ensures Level2(m', base, k) {
      assert Level2(m, base, k);
      PutKeeps(m, addr, Le(val, 8), base + 2 * PAGE + 8 * k, Le(k * HUGE + HUGE_FLAGS, 8));
    }
  }

  /** Writes the tables; after it the walk is the identity below 4 GiB, writable and closed to user mode, and nothing else has changed. */
  method BuildPageTables(mem: array<byte>, base: nat)
    requires base % 0x1000 == 0 && base + 0x6000 <= mem.Length <= 0x10_0000_0000_0000
    modifies mem
    ensures SameOutside(old(mem[..]), mem[..], base, base + 0x6000)
    ensures SeenTables(mem[..], base)
    ensures forall va {:trigger Walk(mem[..], base, va)} :: 0 <= va < 0x1_0000_0000 ==> Walk(mem[..], base, va) == Some(Mapping(va, true, false))
    ensures old(mem[base..base + 0x2000]) == Zeros(0x2000) ==>
      forall va {:trigger Walk(mem[..], base, va)} :: 0x1_0000_0000 <= va < 0x1_0000_0000_0000 ==> Walk(mem[..], base, va) == None
  {
    hide Put, Le, Holds, SameOutside, BitOr, Walk, SeenTables;
    ghost var was := mem[..];
    ghost var high, wide := was[base + 8..base + 0x1000], was[base + 0x1020..base + 0x2000];
    StandsThere(was, base + 8, base + 0x1000);
    StandsThere(was, base + 0x1020, base + 0x2000);
    PutKeeps(was, base, Le(base + PAGE + TABLE_FLAGS, 8), base + 8, high);
    PutKeeps(was, base, Le(base + PAGE + TABLE_FLAGS, 8), base + 0x1020, wide);
    var pdpt := base + PAGE;
    var pd := base + 2 * PAGE;
    OrFlags(pdpt, TABLE_FLAGS);
    WriteU64(mem, base, BitOr(pdpt, TABLE_FLAGS));
    PutHolds(was, base, Le(base + PAGE + TABLE_FLAGS, 8));
    PutSame(was, base, Le(base + PAGE + TABLE_FLAGS, 8), base, base + 6 * PAGE);
    for i := 0 to 4
      invariant Tables(mem[..], base, i, i * 512)
      invariant SameOutside(was, mem[..], base, base + 6 * PAGE)
      invariant Holds(mem[..], base + 8, high) && Holds(mem[..], base + 0x1020, wide)
    {
      var thisPD := pd + i * PAGE;
      ghost var m := mem[..];
      OrFlags(thisPD, TABLE_FLAGS);
      WriteU64(mem, pdpt + i * 8, BitOr(thisPD, TABLE_FLAGS));
      NextLevel3(m, mem[..], base, i);
      PutKeeps(m, pdpt + i * 8, Le(thisPD + TABLE_FLAGS, 8), base + 8, high);
      PutKeeps(m, pdpt + i * 8, Le(thisPD + TABLE_FLAGS, 8), base + 0x1020, wide);
      PutSame(m, pdpt + i * 8, Le(thisPD + TABLE_FLAGS, 8), base, base + 6 * PAGE);
      SameTrans(was, m, mem[..], base, base + 6 * PAGE);
      for j := 0 to 512
        invariant Tables(mem[..], base, i + 1, i * 512 + j)
        invariant SameOutside(was, mem[..], base, base + 6 * PAGE)
        invariant Holds(mem[..], base + 8, high) && Holds(mem[..], base + 0x1020, wide)
      {
        var phys := (i * 512 + j) * HUGE;
        ghost var m1 := mem[..];
        OrFlags(phys, HUGE_FLAGS);
        WriteU64(mem, thisPD + j * 8, BitOr(phys, HUGE_FLAGS));
        NextLevel2(m1, mem[..], base, i + 1, i * 512 + j);
        PutKeeps(m1, thisPD + j * 8, Le(phys + HUGE_FLAGS, 8), base + 8, high);
        PutKeeps(m1, thisPD + j * 8, Le(phys + HUGE_FLAGS, 8), base + 0x1020, wide);
        PutSame(m1, thisPD + j * 8, Le(phys + HUGE_FLAGS, 8), base, base + 6 * PAGE);
        SameTrans(was, m1, mem[..], base, base + 6 * PAGE);
      }
    }
    TablesSeen(mem[..], base);
    forall va | 0 <= va < 4 * GIB ensures Walk(mem[..], base, va) == Some(Mapping(va, true, false)) {
      Identity(mem[..], base, va);
    }
    if was[base..base + 0x2000] == Zeros(0x2000) {
      StillZero(was, base);
      forall va | 0x1_0000_0000 <= va < 0x1_0000_0000_0000 ensures Walk(mem[..], base, va) == None {
        Unmapped(mem[..], base, va);
      }
    }
  }

  lemma StandsThere(m: bytes, lo: nat, hi: nat)
    requires lo <= hi <= |m|
    ensures Holds(m, lo, m[lo..hi])
  {
  }

  lemma StillZero(m: bytes, base: nat)
    requires base + 0x2000 <= |m| && m[base..base + 0x2000] == Zeros(0x2000)
    ensures m[base + 8..base + 0x1000] == Zeros(0xFF8) && m[base + 0x1020..base + 0x2000] == Zeros(0xFE0)
  {
    forall i | base <= i < base + 0x2000 ensures m[i] == 0 {
      assert m[base..base + 0x2000][i - base] == 0;
    }
  }

  /** A zero entry ends the walk. */
  lemma {:induction false} ZeroEntry(m: bytes, lo: nat, n: nat, addr: nat)
    requires Holds(m, lo, Zeros(n)) && lo <= addr && addr + 8 <= lo + n
    ensures Entry(m, addr) == Some(0)
  {
    hide Holds;
    HoldsRange(m, lo, Zeros(n), addr - lo, addr - lo + 8);
    assert Zeros(n)[addr - lo..addr - lo + 8] == Zeros(8);
    ZeroLe(8);
    PowValues();
    LeRoundTrip(0, 8);
  }

  lemma {:induction false} ZeroLe(n: nat)
    ensures Le(0, n) == Zeros(n)
  {
    if n > 0 {
      ZeroLe(n - 1);
    }
  }

  /** Beyond 4 GiB, up to the 48 bits the walk looks at, nothing is mapped. */
  lemma Unmapped(m: bytes, base: nat, va: nat)
    requires Tables(m, base, 4, 2048) && 0x1_0000_0000 <= va < 0x1_0000_0000_0000
    requires base % PAGE == 0 && base + 6 * PAGE <= |m| <= PHYS_LIMIT
    requires Holds(m, base + 8, Zeros(0xFF8)) && Holds(m, base + 0x1020, Zeros(0xFE0))
    ensures Walk(m, base, va) == None
  {
    hide Holds, Le, Entry, TableAddr, Tables, MapsPage, HugeAddr;
    var top, next := va / 0x80_0000_0000, va / 0x4000_0000;
    if top > 0 {
      assert top % 512 == top;
      ZeroEntry(m, base + 8, 0xFF8, base + 8 * top);
    } else {
      assert 4 <= next < 512;
      assert Entry(m, base) == Some(base + PAGE + TABLE_FLAGS) by {
        TopEntry(m, base);
      }
      TableEntry(base + PAGE);
      ZeroEntry(m, base + 0x1020, 0xFE0, base + 0x1000 + 8 * next);
    }
  }

  lemma TopEntry(m: bytes, base: nat)
    requires Tables(m, base, 4, 2048) && base < PHYS_LIMIT
    ensures Entry(m, base) == Some(base + PAGE + TABLE_FLAGS)
  {
    hide Holds, Le, Entry;
    EntryIs(m, base, base + PAGE + TABLE_FLAGS);
  }

  lemma {:induction false} NextLevel3(m: bytes, m': bytes, base: nat, i: nat)
    requires i < 4 && Tables(m, base, i, i * 512) && base + 6 * PAGE <= |m|
    requires m' == Put(m, base + PAGE + i * 8, Le(base + 2 * PAGE + i * PAGE + TABLE_FLAGS, 8))
    ensures Tables(m', base, i + 1, i * 512)
  {
    hide Put, Le, Holds;
    var val := base + 2 * PAGE + i * PAGE + TABLE_FLAGS;
    KeepTables(m, base, i, i * 512, base + PAGE + i * 8, val);
    PutHolds(m, base + PAGE + i * 8, Le(val, 8));
    assert Level3(m', base, i);
  }

  lemma {:induction false} NextLevel2(m: bytes, m': bytes, base: nat, n3: nat, k: nat)
    requires n3 <= 4 && k < 2048 && Tables(m, base, n3, k) && base + 6 * PAGE <= |m|
    requires m' == Put(m, base + 2 * PAGE + 8 * k, Le(k * HUGE + HUGE_FLAGS, 8))
    ensures Tables(m', base, n3, k + 1)
  {
    hide Put, Le, Holds;
    KeepTables(m, base, n3, k, base + 2 * PAGE + 8 * k, k * HUGE + HUGE_FLAGS);
    PutHolds(m, base + 2 * PAGE + 8 * k, Le(k * HUGE + HUGE_FLAGS, 8));
    assert Level2(m', base, k);
  }

  lemma {:induction false} EntryIs(m: bytes, addr: nat, v: nat)
    requires Holds(m, addr, Le(v, 8)) && v < POW64
    ensures Entry(m, addr) == Some(v)
  {
    PowValues();
    LeRoundTrip(v, 8);
  }

  lemma TableEntry(a: nat)
    requires a % PAGE == 0 && a < PHYS_LIMIT
    ensures var e := a + TABLE_FLAGS; Present(e) && !MapsPage(e) && TableAddr(e) == a && Writable(e) && ForUser(e)
  {
    hide Present, MapsPage, TableAddr, Writable, ForUser;
    var q := a / PAGE;
    assert a == q * PAGE;
    TableRights(q);
    TableKind(q);
    TableBase(q);
  }

  lemma TableKind(q: nat)
    ensures Present(q * PAGE + TABLE_FLAGS) && !MapsPage(q * PAGE + TABLE_FLAGS)
  {
    var e := q * PAGE + TABLE_FLAGS;
    assert e == 2 * (q * 0x800 + 3) + 1;
    Odd(q * 0x800 + 3);
    assert e == 0x80 * (q * 32) + 7;
    assert e / 0x80 == q * 32;
    Even(q * 16);
  }

  lemma Even(m: nat)
    ensures (2 * m) % 2 == 0
  {
  }

  lemma TableBase(q: nat)
    requires q * PAGE < PHYS_LIMIT
    ensures TableAddr(q * PAGE + TABLE_FLAGS) == q * PAGE
  {
    var e := q * PAGE + TABLE_FLAGS;
    assert q < PHYS_LIMIT / PAGE;
    assert e < PHYS_LIMIT;
    assert e % PHYS_LIMIT == e;
    assert e % PAGE == TABLE_FLAGS;
  }

  lemma TableRights(q: nat)
    ensures Writable(q * PAGE + TABLE_FLAGS) && ForUser(q * PAGE + TABLE_FLAGS)
  {
    var e, r := q * PAGE + TABLE_FLAGS, q * 1024 + 1;
    assert e == 4 * r + 3;
    Quarter(r);
    Odd(r);
    Odd(q * 512);
  }

  lemma Quarter(r: nat)
    ensures (4 * r + 3) / 2 == 2 * r + 1 && (4 * r + 3) / 4 == r
  {
  }

  lemma HugeEntry(k: nat)
    requires k < 2048
    ensures var e := k * HUGE + HUGE_FLAGS; Present(e) && MapsPage(e) && HugeAddr(e) == k * HUGE && Writable(e) && !ForUser(e)
  {
    var e := k * HUGE + HUGE_FLAGS;
    HugeFlags(k);
    HugeRights(k);
    HugeBase(k);
    assert e < 4 * GIB;
    BelowLimit(e);
  }

  lemma HugeFlags(k: nat)
    ensures (k * HUGE + HUGE_FLAGS) % 2 == 1 && ((k * HUGE + HUGE_FLAGS) / 0x80) % 2 == 1
  {
    var half := k * 0x2000;
    var q := 2 * half + 1;
    var e := k * HUGE + HUGE_FLAGS;
    assert e == 0x80 * q + 3;
    DivBack(q);
    Odd(0x40 * q + 1);
    Odd(half);
  }

  lemma HugeRights(k: nat)
    ensures ((k * HUGE + HUGE_FLAGS) / 2) % 2 == 1 && ((k * HUGE + HUGE_FLAGS) / 4) % 2 == 0
  {
    var r := k * 0x8_0000 + 0x20;
    assert k * HUGE + HUGE_FLAGS == 4 * r + 3;
    Quarter(r);
    Odd(r);
    assert r == 2 * (k * 0x4_0000 + 0x10);
  }

  lemma DivBack(q: nat)
    ensures (0x80 * q + 3) / 0x80 == q
  {
  }

  lemma Odd(m: nat)
    ensures (2 * m + 1) % 2 == 1
  {
  }

  lemma HugeBase(k: nat)
    ensures (k * HUGE + HUGE_FLAGS) % HUGE == HUGE_FLAGS
  {
  }

  lemma BelowLimit(e: nat)
    requires e < 4 * GIB
    ensures e % PHYS_LIMIT == e
  {
  }

  /** The entries themselves: tables present, writable and for users (7); pages present, writable and large (0x83). */
  ghost predicate SeenTables(m: bytes, base: nat) {
    && Entry(m, base) == Some(base + 0x1007)
    && (forall i {:trigger Level3(m, base, i)} :: 0 <= i < 4 ==> Entry(m, base + 0x1000 + 8 * i) == Some(base + 0x2007 + 0x1000 * i))
    && (forall k {:trigger Level2(m, base, k)} :: 0 <= k < 2048 ==> Entry(m, base + 0x2000 + 8 * k) == Some(0x20_0000 * k + 0x83))
  }

  lemma TablesSeen(m: bytes, base: nat)
    requires Tables(m, base, 4, 2048) && base + 6 * PAGE <= |m| <= PHYS_LIMIT
    ensures SeenTables(m, base)
  {
    hide Holds, Le, Entry;
    EntryIs(m, base, base + PAGE + TABLE_FLAGS);
    forall i | 0 <= i < 4 ensures Entry(m, base + 0x1000 + 8 * i) == Some(base + 0x2007 + 0x1000 * i) {
      assert Level3(m, base, i);
      EntryIs(m, base + PAGE + 8 * i, base + (2 + i) * PAGE + TABLE_FLAGS);
    }
    forall k | 0 <= k < 2048 ensures Entry(m, base + 0x2000 + 8 * k) == Some(0x20_0000 * k + 0x83) {
      assert Level2(m, base, k);
      EntryIs(m, base + 2 * PAGE + 8 * k, k * HUGE + HUGE_FLAGS);
    }
  }

  /** The walk of the finished tables. */
  lemma Identity(m: bytes, base: nat, va: nat)
    requires Tables(m, base, 4, 2048) && va < 4 * GIB && base % PAGE == 0 && base + 6 * PAGE <= |m| <= PHYS_LIMIT
    ensures Walk(m, base, va) == Some(Mapping(va, true, false))
  {
    hide Holds, Le, Entry, Present, MapsPage, TableAddr, HugeAddr, Writable, ForUser;
    var i, k := va / GIB, va / HUGE;
    assert (va / 0x80_0000_0000) % 512 == 0 && i < 4 && k < 2048;
    assert k / 512 == i;
    EntryIs(m, base, base + PAGE + TABLE_FLAGS);
    TableEntry(base + PAGE);
    assert Level3(m, base, i);
    EntryIs(m, base + PAGE + 8 * i, base + (2 + i) * PAGE + TABLE_FLAGS);
    TableEntry(base + (2 + i) * PAGE);
    assert Level2(m, base, k);
    EntryIs(m, base + 2 * PAGE + 8 * k, k * HUGE + HUGE_FLAGS);
    HugeEntry(k);
    assert base + (2 + i) * PAGE + 8 * (k % 512) == base + 2 * PAGE + 8 * k;
    assert k * HUGE + va % HUGE == va;
  }
}
