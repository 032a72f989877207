/** Guest memory: a byte array, writes into it, and what stands where. */
module GuestMemory {
  import opened Bytes

  /** m with b written at off. */
  function Put(m: bytes, off: nat, b: bytes): (r: bytes)
    requires off + |b| <= |m|
    ensures |r| == |m|
  {
    m[..off] + b + m[off + |b|..]
  }

  /** r agrees with m outside [lo, hi). */
  ghost predicate SameOutside(m: bytes, r: bytes, lo: nat, hi: nat) {
    |r| == |m| && forall i :: 0 <= i < |m| && !(lo <= i < hi) ==> r[i] == m[i]
  }

  lemma PutHolds(m: bytes, off: nat, b: bytes)
    requires off + |b| <= |m|
    ensures Holds(Put(m, off, b), off, b)
  {
  }

  lemma PutKeeps(m: bytes, off: nat, b: bytes, lo: nat, x: bytes)
    requires off + |b| <= |m| && Holds(m, lo, x) && (lo + |x| <= off || off + |b| <= lo)
    ensures Holds(Put(m, off, b), lo, x)
  {
    var r := Put(m, off, b);
    forall i | 0 <= i < |x| ensures r[lo..lo + |x|][i] == x[i] {
      assert m[lo..lo + |x|][i] == x[i];
    }
  }

  lemma PutSame(m: bytes, off: nat, b: bytes, lo: nat, hi: nat)
    requires off + |b| <= |m| && lo <= off && off + |b| <= hi
    ensures SameOutside(m, Put(m, off, b), lo, hi)
  {
  }

  lemma SameTrans(a: bytes, b: bytes, c: bytes, lo: nat, hi: nat)
    requires SameOutside(a, b, lo, hi) && SameOutside(b, c, lo, hi)
    ensures SameOutside(a, c, lo, hi)
  {
  }

  lemma SameWider(a: bytes, b: bytes, lo: nat, hi: nat, lo': nat, hi': nat)
    requires SameOutside(a, b, lo, hi) && lo' <= lo && hi <= hi'
    ensures SameOutside(a, b, lo', hi')
  {
  }

  lemma SameHolds(a: bytes, b: bytes, lo: nat, hi: nat, off: nat, x: bytes)
    requires SameOutside(a, b, lo, hi) && Holds(a, off, x) && (off + |x| <= lo || hi <= off)
    ensures Holds(b, off, x)
  {
    forall i | 0 <= i < |x| ensures b[off..off + |x|][i] == x[i] {
      assert a[off..off + |x|][i] == x[i];
    }
  }

  /** A copy into memory. */
  method CopyTo(mem: array<byte>, off: nat, b: bytes)
    requires off + |b| <= mem.Length
    modifies mem
    ensures mem[..] == Put(old(mem[..]), off, b)
  {
    ghost var was := mem[..];
    for i := 0 to |b|
      invariant mem[..] == Put(was, off, b[..i])
    {
      mem[off + i] := b[i];
      PutNext(was, off, b, i);
    }
    assert b[..|b|] == b;
  }

  lemma PutNext(m: bytes, off: nat, b: bytes, i: nat)
    requires off + |b| <= |m| && i < |b|
    ensures Put(m, off, b[..i + 1]) == Put(m, off, b[..i])[off + i := b[i]]
  {
  }
}
