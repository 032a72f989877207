/** IPv4 addresses as four bytes and as numbers, and networks given by a prefix length. */
module Ipv4 {
  import opened Bytes
  import opened Prelude

  /** Big-endian bytes plus a number, the carry running left and lost past the first byte. */
  function AddTo(b: bytes, off: nat): (r: bytes)
    ensures |r| == |b|
  {
    if b == [] || off == 0 then
      b
    else
      var k := |b| - 1;
      AddTo(b[..k], (off + b[k]) / 256) + [(off + b[k]) % 256]
  }

  /** What n bytes keep of a number. */
  function Wrap(x: nat, n: nat): nat {
    if n == 0 then 0 else 256 * Wrap(x / 256, n - 1) + x % 256
  }

  lemma {:induction false} WrapFits(x: nat, n: nat)
    requires x < Pow256(n)
    ensures Wrap(x, n) == x
  {
    if n > 0 {
      WrapFits(x / 256, n - 1);
    }
  }

  lemma {:induction false} WrapAround(n: nat)
    ensures Wrap(Pow256(n), n) == 0
  {
    if n > 0 {
      WrapAround(n - 1);
      assert Pow256(n) / 256 == Pow256(n - 1);
    }
  }

  /** The byte-wise carries amount to addition in n bytes. */
  lemma {:induction false} AddToValue(b: bytes, off: nat)
    ensures BeVal(AddTo(b, off)) == Wrap(BeVal(b) + off, |b|)
  {
    if b == [] {
    } else if off == 0 {
      BeValBound(b);
      WrapFits(BeVal(b), |b|);
    } else {
      hide AddTo, BeVal, Wrap;
      var k := |b| - 1;
      AddToLast(b, off);
      var carry, digit := Split(off + b[k]);
      AddToValue(b[..k], carry);
      JoinCarry(b, off, carry, digit, AddTo(b[..k], carry));
    }
  }

  lemma Split(sum: nat) returns (carry: nat, digit: byte)
    ensures carry == sum / 256 && digit == sum % 256 && sum == 256 * carry + digit
  {
    carry, digit := sum / 256, sum % 256;
  }

  lemma JoinCarry(b: bytes, off: nat, carry: nat, digit: byte, rest: bytes)
    requires b != [] && off + b[|b| - 1] == 256 * carry + digit
    requires BeVal(rest) == Wrap(BeVal(b[..|b| - 1]) + carry, |b| - 1)
    ensures BeVal(rest + [digit]) == Wrap(BeVal(b) + off, |b|)
  {
    hide BeVal, Wrap;
    var k := |b| - 1;
    assert b == b[..k] + [b[k]];
    BeSnoc(b[..k], b[k]);
    BeSnoc(rest, digit);
    WrapStep(BeVal(b[..k]) + carry, digit, k);
  }

  lemma {:induction false} BeSnoc(high: bytes, low: byte)
    ensures BeVal(high + [low]) == 256 * BeVal(high) + low
  {
    assert (high + [low])[..|high|] == high;
  }

  lemma {:induction false} WrapStep(q: nat, d: byte, n: nat)
    ensures Wrap(256 * q + d, n + 1) == 256 * Wrap(q, n) + d
  {
    assert (256 * q + d) / 256 == q && (256 * q + d) % 256 == d;
  }

  /** Adds an offset to an address in place, as the subnet search does. */
  method AddOffset(ip: array<byte>, start: nat)
    modifies ip
    ensures ip[..] == AddTo(old(ip[..]), start)
  {
    var offset: nat := start;
    var i := ip.Length;
    ghost var was := ip[..];
    assert ip[..i] == was && ip[i..] == [];
    while i > 0 && offset > 0
      invariant 0 <= i <= ip.Length
      invariant AddTo(ip[..i], offset) + ip[i..] == AddTo(was, start)
    {
      hide AddTo;
      i := i - 1;
      AddToStep(ip[..], i, offset);
      var sum: nat := offset + ip[i];
      ip[i] := sum % 256;
      offset := sum / 256;
    }
    assert ip[..] == ip[..i] + ip[i..];
  }

  /** One step of the addition moves one byte from the part still to add to the finished part. */
  lemma AddToStep(b: bytes, i: nat, off: nat)
    requires i < |b| && off > 0
    ensures AddTo(b[..i + 1], off) + b[i + 1..]
      == AddTo(b[i := (off + b[i]) % 256][..i], (off + b[i]) / 256) + b[i := (off + b[i]) % 256][i..]
  {
    var c := b[i := (off + b[i]) % 256];
    var low := b[..i + 1];
    assert low[..i] == c[..i] && low[i] == b[i];
    assert c[i..] == [c[i]] + b[i + 1..];
    hide AddTo;
    assert AddTo(low, off) == AddTo(c[..i], (off + b[i]) / 256) + [c[i]] by { AddToLast(low, off); }
  }

  lemma {:induction false} AddToLast(b: bytes, off: nat)
    requires b != [] && off > 0
    ensures AddTo(b, off) == AddTo(b[..|b| - 1], (off + b[|b| - 1]) / 256) + [(off + b[|b| - 1]) % 256]
  {
  }

  lemma Ripple(digit: nat)
    requires digit < 256
    ensures (1 + digit) / 256 == if (digit + 1) % 256 == 0 then 1 else 0
  {
  }

  lemma {:induction false} AddNothing(b: bytes)
    ensures AddTo(b, 0) == b
  {
  }

  /** Adds one in place, stopping at the first byte that does not wrap. */
  method Increment(ip: array<byte>)
    modifies ip
    ensures ip[..] == AddTo(old(ip[..]), 1)
  {
    var i := ip.Length;
    ghost var was := ip[..];
    assert ip[..i] == was && ip[i..] == [];
    while i > 0
      invariant 0 <= i <= ip.Length
      invariant AddTo(ip[..i], 1) + ip[i..] == AddTo(was, 1)
    {
      hide AddTo;
      i := i - 1;
      AddToStep(ip[..], i, 1);
      var digit: nat := ip[i];
      ip[i] := (digit + 1) % 256;
      Ripple(digit);
      if ip[i] != 0 {
        AddNothing(ip[..i]);
        assert ip[..] == ip[..i] + ip[i..];
        return;
      }
    }
    assert ip[..] == ip[..0] + ip[0..];
  }

  /** v with its h low bits cleared. */
  function Clear(v: nat, h: nat): nat {
    if h == 0 then v else 2 * Clear(v / 2, h - 1)
  }

  /** Clearing more bits forgets the fewer cleared before. */
  lemma {:induction false} ClearClear(v: nat, h: nat, more: nat)
    requires h <= more
    ensures Clear(Clear(v, h), more) == Clear(v, more)
  {
    if h > 0 {
      ClearClear(v / 2, h - 1, more - 1);
      assert Clear(v, h) / 2 == Clear(v / 2, h - 1);
    }
  }

  /** The addresses that agree above the h low bits are a run of 2 to the h. */
  lemma {:induction false} ClearRange(v: nat, w: nat, h: nat)
    ensures Clear(v, h) == Clear(w, h) <==> Clear(w, h) <= v < Clear(w, h) + Pow2(h)
  {
    if h > 0 {
      ClearRange(v / 2, w / 2, h - 1);
    }
  }

  lemma {:induction false} ClearAligned(v: nat, w: nat, h: nat)
    requires v == w * Pow2(h)
    ensures Clear(v, h) == v
  {
    if h > 0 {
      assert w * (2 * Pow2(h - 1)) == 2 * (w * Pow2(h - 1));
      ClearAligned(v / 2, w, h - 1);
    }
  }

  /** A network: an address and a prefix length. */
  datatype Net = Net(ip: nat, prefix: nat)

  predicate Ok(n: Net) {
    n.ip < POW32 && n.prefix <= 32
  }

  function HostBits(n: Net): nat {
    if n.prefix <= 32 then 32 - n.prefix else 0
  }

  /** The network's first address: its host bits cleared. */
  function Base(n: Net): nat {
    Clear(n.ip, HostBits(n))
  }

  /** net.IPNet.Contains: the two agree on the prefix. */
  predicate Contains(n: Net, v: nat) {
    Clear(v, HostBits(n)) == Base(n)
  }

  /** A network holds exactly the addresses from its base, a power of two of them. */
  lemma ContainsRange(n: Net, v: nat)
    ensures Contains(n, v) <==> Base(n) <= v < Base(n) + Pow2(HostBits(n))
    ensures n.prefix <= 32 ==> (Contains(n, v) <==> Base(n) <= v < Base(n) + Pow2(32 - n.prefix))
    ensures Base(n) <= n.ip < Base(n) + Pow2(HostBits(n)) && exists k: nat :: Base(n) == k * Pow2(HostBits(n))
  {
    ClearRange(v, n.ip, HostBits(n));
    ClearRange(n.ip, n.ip, HostBits(n));
    var k := ClearMultiple(n.ip, HostBits(n));
  }

  lemma {:induction false} ClearMultiple(v: nat, h: nat) returns (k: nat)
    ensures Clear(v, h) == k * Pow2(h)
  {
    if h == 0 {
      k := v;
    } else {
      k := ClearMultiple(v / 2, h - 1);
      assert 2 * (k * Pow2(h - 1)) == k * Pow2(h);
    }
  }

  lemma ContainsBase(n: Net)
    ensures Contains(n, Base(n))
  {
    ClearClear(n.ip, HostBits(n), HostBits(n));
  }
}
