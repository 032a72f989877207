/** The /30 subnet search: a hash picks the starting point, occupied networks are skipped. */
module Subnets {
  import opened Bytes
  import opened Ipv4
  import opened Prelude

  /** 198.18.0.0/15, carved into /30 networks. */
  const POOL_BYTES: bytes := [198, 18, 0, 0]
  const POOL_PREFIX: nat := 15
  const PREFIX: nat := 30
  const TOTAL: nat := 32768
  const POOL: Net := Net(0xC612_0000, POOL_PREFIX)

  /** Both networks hold some address. */
  ghost predicate Share(a: Net, b: Net) {
    exists v: nat :: v < POW32 && Contains(a, v) && Contains(b, v)
  }

  function Normalize(n: Net): Net {
    Net(Base(n), n.prefix)
  }

  predicate CidrOverlap(a: Net, b: Net) {
    Contains(Normalize(a), Base(b)) || Contains(Normalize(b), Base(a))
  }

  lemma ContainsNormalize(n: Net, v: nat)
    ensures Contains(Normalize(n), v) <==> Contains(n, v)
  {
    ClearClear(n.ip, HostBits(n), HostBits(n));
  }

  lemma BaseBelow(n: Net)
    requires Ok(n)
    ensures Base(n) <= n.ip
  {
    ClearRange(n.ip, n.ip, HostBits(n));
  }

  /** The wider network holds the base of a narrower one it shares an address with. */
  lemma WiderHolds(wide: Net, narrow: Net, v: nat)
    requires Ok(wide) && Ok(narrow) && wide.prefix <= narrow.prefix
    requires Contains(wide, v) && Contains(narrow, v)
    ensures Contains(wide, Base(narrow))
  {
    ClearClear(v, HostBits(narrow), HostBits(wide));
  }

  /** Testing the two base addresses decides whether the address sets meet. */
  lemma OverlapExactly(a: Net, b: Net)
    requires Ok(a) && Ok(b)
    ensures CidrOverlap(a, b) <==> Share(a, b)
  {
    ContainsNormalize(a, Base(b));
    ContainsNormalize(b, Base(a));
    ContainsBase(a);
    ContainsBase(b);
    BaseBelow(a);
    BaseBelow(b);
    if v: nat :| v < POW32 && Contains(a, v) && Contains(b, v) {
      if a.prefix <= b.prefix {
        WiderHolds(a, b, v);
      } else {
        WiderHolds(b, a, v);
      }
    }
  }

  /** Entries that are nil or not IPv4 never overlap anything. */
  ghost predicate Taken(n: Net, occupied: seq<Option<Net>>) {
    exists i :: 0 <= i < |occupied| && occupied[i].Some? && Share(n, occupied[i].value)
  }

  predicate AllOk(occupied: seq<Option<Net>>) {
    forall i :: 0 <= i < |occupied| && occupied[i].Some? ==> Ok(occupied[i].value)
  }

  method OverlapsAny(n: Net, occupied: seq<Option<Net>>) returns (r: bool)
    requires Ok(n) && AllOk(occupied)
    ensures r <==> Taken(n, occupied)
  {
    for i := 0 to |occupied|
      invariant forall j :: 0 <= j < i && occupied[j].Some? ==> !Share(n, occupied[j].value)
    {
      if occupied[i].Some? {
        OverlapExactly(n, occupied[i].value);
        if CidrOverlap(n, occupied[i].value) {
          return true;
        }
      }
    }
    return false;
  }

  /** The index-th network of the given prefix in a pool; an unfitting prefix is an error. */
  method SubnetAt(pool: bytes, ones: nat, prefixBits: int, index: nat) returns (r: Option<Net>)
    requires |pool| == 4 && ones <= 32
    ensures r.None? <==> prefixBits < ones || prefixBits > 32
    ensures r.Some? ==> r.value.prefix == prefixBits
    ensures r.Some? ==> r.value.ip == Clear(Wrap(BeVal(pool) + index * Pow2(32 - prefixBits), 4), 32 - prefixBits)
  {
    if prefixBits < ones || prefixBits > 32 {
      return None;
    }
    var blockSize := Pow2(32 - prefixBits);
    var ip := new byte[4](i requires 0 <= i < 4 => pool[i]);
    assert ip[..] == pool;
    AddToValue(pool, index * blockSize);
    AddOffset(ip, index * blockSize);
    var net := Net(BeVal(ip[..]), prefixBits);
    return Some(Normalize(net));
  }

  /** In an aligned pool, as long as the block ends within 32 bits, that is base + index * blockSize. */
  lemma SubnetExact(base: nat, w: nat, index: nat, h: nat)
    requires base == w * Pow2(h) && base + index * Pow2(h) < POW32
    ensures Clear(Wrap(base + index * Pow2(h), 4), h) == base + index * Pow2(h)
  {
    PowValues();
    WrapFits(base + index * Pow2(h), 4);
    assert base + index * Pow2(h) == (w + index) * Pow2(h);
    ClearAligned(base + index * Pow2(h), w + index, h);
  }

  function Nth(index: nat): Net {
    Net(POOL.ip + 4 * index, PREFIX)
  }

  lemma PoolValue()
    ensures BeVal(POOL_BYTES) == POOL.ip
  {
    assert POOL_BYTES[..3] == [198, 18, 0] && [198, 18, 0][..2] == [198, 18] && [198, 18][..1] == [198];
    assert BeVal([198]) == 198;
    assert BeVal([198, 18]) == 256 * 198 + 18;
    assert BeVal([198, 18, 0]) == 256 * (256 * 198 + 18);
  }

  lemma Pow2Values()
    ensures Pow2(2) == 4 && Pow2(15) == TOTAL && Pow2(17) == 4 * TOTAL
  {
    assert Pow2(4) == 16 && Pow2(7) == 128 && Pow2(10) == 1024 && Pow2(13) == 8192;
  }

  lemma PoolAligned()
    ensures Base(POOL) == POOL.ip
  {
    Pow2Values();
    assert POOL.ip == 25353 * Pow2(17);
    ClearAligned(POOL.ip, 25353, 17);
  }

  /** The networks the search may return: aligned /30s with every address inside the pool. */
  ghost predicate InPool(n: Net) {
    Ok(n) && n.prefix == PREFIX && Base(n) == n.ip && forall v: nat :: Contains(n, v) ==> Contains(POOL, v)
  }

  lemma NthInPool(index: nat)
    requires index < TOTAL
    ensures InPool(Nth(index))
  {
    var n := Nth(index);
    Pow2Values();
    PoolAligned();
    var w := n.ip / 4;
    assert n.ip == w * Pow2(2);
    ClearAligned(n.ip, w, 2);
    forall v: nat | Contains(n, v) ensures Contains(POOL, v) {
      ContainsRange(n, v);
      ContainsRange(POOL, v);
    }
  }

  /** Every such network has an index. */
  lemma InPoolIndex(n: Net) returns (index: nat)
    requires InPool(n)
    ensures index < TOTAL && n == Nth(index)
  {
    Pow2Values();
    PoolAligned();
    ContainsBase(n);
    ContainsRange(POOL, n.ip);
    index := (n.ip - POOL.ip) / 4;
    ClearTwo(n.ip);
  }

  lemma {:induction false} ClearTwo(v: nat)
    requires Clear(v, 2) == v
    ensures v % 4 == 0
  {
    assert Clear(v, 2) == 2 * Clear(v / 2, 1) == 2 * (2 * Clear(v / 2 / 2, 0));
  }

  /**
   * The search is sound and complete: it returns the first free network at or after the hashed
   * start, wrapping round; and it fails exactly when every /30 of the pool meets an occupied network.
   */
  method SelectAvailableSubnet(hash: nat, occupied: seq<Option<Net>>) returns (r: Option<Net>)
    requires AllOk(occupied)
    ensures r.Some? ==> InPool(r.value) && !Taken(r.value, occupied)
    ensures r.Some? ==> exists i :: FirstFree(hash % TOTAL, i, occupied) && r.value == Probe(hash % TOTAL, i)
    ensures r.None? <==> forall n :: InPool(n) ==> Taken(n, occupied)
  {
    hide Taken, InPool, Clear, Wrap, Pow2, BeVal;
    var start := hash % TOTAL;
    for i := 0 to TOTAL
      invariant forall j :: 0 <= j < i ==> Taken(Probe(start, j), occupied)
    {
      var index := (start + i) % TOTAL;
      NthInPool(index);
      var candidate := SubnetAt(POOL_BYTES, POOL_PREFIX, PREFIX, index);
      NthExact(index);
      assert candidate == Some(Nth(index));
      var taken := OverlapsAny(Nth(index), occupied);
      if taken {
        continue;
      }
      assert FirstFree(start, i, occupied);
      return Some(Nth(index));
    }
    forall n | InPool(n) ensures Taken(n, occupied) {
      var i := Reached(n, start);
    }
    return None;
  }

  /** From any start, the search comes by every network of the pool. */
  lemma Reached(n: Net, start: nat) returns (i: nat)
    requires InPool(n) && start < TOTAL
    ensures i < TOTAL && n == Probe(start, i)
  {
    var index := InPoolIndex(n);
    i := if index >= start then index - start else index + TOTAL - start;
  }

  lemma {:induction false} NthExact(index: nat)
    requires index < TOTAL
    ensures Clear(Wrap(BeVal(POOL_BYTES) + index * Pow2(2), 4), 2) == Nth(index).ip
  {
    PoolValue();
    Pow2Values();
    SubnetExact(POOL.ip, POOL.ip / 4, index, 2);
  }

  /** The i-th network the search looks at. */
  function Probe(start: nat, i: nat): Net {
    Nth((start + i) % TOTAL)
  }

  ghost predicate FirstFree(start: nat, i: nat, occupied: seq<Option<Net>>) {
    i < TOTAL && !Taken(Probe(start, i), occupied) && forall j :: 0 <= j < i ==> Taken(Probe(start, j), occupied)
  }
}
