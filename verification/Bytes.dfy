/** Byte strings and the fixed-width integer encodings the binary formats use. */
module Bytes {

  type byte = x: int | 0 <= x < 256

  type bytes = seq<byte>

  const POW16: nat := 0x1_0000
  const POW32: nat := 0x1_0000_0000
  const POW64: nat := 0x1_0000_0000_0000_0000

  /** 256 to the power n: the number of values n bytes can hold. */
  function Pow256(n: nat): nat {
    if n == 0 then 1 else 256 * Pow256(n - 1)
  }

  /** The n low bytes of v, least significant first. */
  function Le(v: nat, n: nat): (b: bytes)
    ensures |b| == n
  {
    if n == 0 then [] else [v % 256] + Le(v / 256, n - 1)
  }

  /** The number a little-endian byte string stands for. */
  function LeVal(b: bytes): nat {
    if b == [] then 0 else b[0] + 256 * LeVal(b[1..])
  }

  /** The n low bytes of v, most significant first. */
  function Be(v: nat, n: nat): (b: bytes)
    ensures |b| == n
  {
    if n == 0 then [] else Be(v / 256, n - 1) + [v % 256]
  }

  /** The number a big-endian byte string stands for. */
  function BeVal(b: bytes): nat {
    if b == [] then 0 else 256 * BeVal(b[..|b| - 1]) + b[|b| - 1]
  }

  /** n zero bytes. */
  function Zeros(n: nat): (b: bytes)
    ensures |b| == n
    ensures forall i :: 0 <= i < n ==> b[i] == 0
  {
    seq(n, i => 0)
  }

  lemma {:induction false} LeRoundTrip(v: nat, n: nat)
    requires v < Pow256(n)
    ensures LeVal(Le(v, n)) == v
  {
    if n > 0 {
      LeRoundTrip(v / 256, n - 1);
      assert Le(v, n)[1..] == Le(v / 256, n - 1);
    }
  }

  lemma {:induction false} BeRoundTrip(v: nat, n: nat)
    requires v < Pow256(n)
    ensures BeVal(Be(v, n)) == v
  {
    if n > 0 {
      BeRoundTrip(v / 256, n - 1);
      assert Be(v, n)[..n - 1] == Be(v / 256, n - 1);
    }
  }

  /** Byte i of the little-endian form, and byte i from the end of the big-endian one, has weight 256 to the i. */
  lemma {:induction false} ByteWeights(v: nat, n: nat, i: nat)
    requires i < n
    ensures Pow256(i) > 0
    ensures Le(v, n)[i] == v / Pow256(i) % 256 && Be(v, n)[n - 1 - i] == v / Pow256(i) % 256
  {
    if i > 0 {
      ByteWeights(v / 256, n - 1, i - 1);
      DivDiv(v, Pow256(i - 1));
    }
  }

  lemma DivDiv(v: nat, p: nat)
    requires p > 0
    ensures v / 256 / p == v / (256 * p)
  {
    var q := v / 256 / p;
    var r := v / 256 % p;
    assert v / 256 == p * q + r;
    assert v == 256 * (p * q + r) + v % 256;
    assert 256 * (p * q + r) == 256 * p * q + 256 * r;
    assert 256 * r + v % 256 < 256 * p;
    QuotientIs(v, 256 * p, q, 256 * r + v % 256);
  }

  lemma QuotientIs(v: nat, m: nat, q: nat, r: nat)
    requires m > 0 && v == m * q + r && r < m
    ensures v / m == q
  {
    var d := v / m;
    assert v == m * d + v % m;
    if d < q {
      MulGap(m, d, q);
    } else if q < d {
      MulGap(m, q, d);
    }
  }

  lemma {:induction false} MulGap(m: nat, a: nat, b: nat)
    requires a < b
    ensures m * a + m <= m * b
    decreases b
  {
    assert m * b == m * (b - 1) + m;
    if a < b - 1 {
      MulGap(m, a, b - 1);
    }
  }

  lemma {:induction false} BeValBound(b: bytes)
    ensures BeVal(b) < Pow256(|b|)
  {
    if b != [] {
      BeValBound(b[..|b| - 1]);
    }
  }

  lemma {:induction false} LeValBound(b: bytes)
    ensures LeVal(b) < Pow256(|b|)
  {
    if b != [] {
      LeValBound(b[1..]);
    }
  }

  /** Reading the number back and writing it again gives the same bytes. */
  lemma {:induction false} LeOfLeVal(b: bytes)
    ensures Le(LeVal(b), |b|) == b
  {
    if b != [] {
      var rest := LeVal(b[1..]);
      var v := b[0] + 256 * rest;
      LeOfLeVal(b[1..]);
      assert v % 256 == b[0] && v / 256 == rest;
      assert Le(v, |b|) == [b[0]] + Le(rest, |b| - 1);
    }
  }

  lemma PowValues()
    ensures Pow256(1) == 256 && Pow256(2) == POW16
    ensures Pow256(4) == POW32 && Pow256(8) == POW64
  {
    assert Pow256(3) == 0x100_0000;
    assert Pow256(5) == 0x100_0000_0000;
    assert Pow256(6) == 0x1_0000_0000_0000;
    assert Pow256(7) == 0x100_0000_0000_0000;
  }

  /** The concatenation of a list of byte strings. */
  function Join(parts: seq<bytes>): bytes {
    if parts == [] then [] else parts[0] + Join(parts[1..])
  }

  lemma {:induction false} JoinAppend(parts: seq<bytes>, last: bytes)
    ensures Join(parts + [last]) == Join(parts) + last
  {
    if parts == [] {
      assert parts + [last] == [last];
    } else {
      JoinAppend(parts[1..], last);
      assert (parts + [last])[1..] == parts[1..] + [last];
    }
  }

  /** The bytes x stand in b at pos. */
  ghost predicate Holds(b: bytes, pos: nat, x: bytes) {
    pos + |x| <= |b| && b[pos..pos + |x|] == x
  }

  lemma HoldsSplit(b: bytes, pos: nat, x: bytes, y: bytes)
    requires Holds(b, pos, x + y)
    ensures Holds(b, pos, x) && Holds(b, pos + |x|, y)
  {
    var all := b[pos..pos + |x + y|];
    forall i | 0 <= i < |x| ensures b[pos + i] == x[i] {
      assert b[pos + i] == all[i] == (x + y)[i];
    }
    forall i | 0 <= i < |y| ensures b[pos + |x| + i] == y[i] {
      assert b[pos + |x| + i] == all[|x| + i] == (x + y)[|x| + i];
    }
  }

  lemma HoldsSlice(b: bytes, pos: nat, x: bytes)
    requires Holds(b, pos, x)
    ensures pos + |x| <= |b| && b[pos..pos + |x|] == x
  {
  }

  lemma HoldsWhole(b: bytes)
    ensures Holds(b, 0, b)
  {
  }

  lemma OpAt(b: bytes, pos: nat, op: bytes)
    requires Holds(b, pos, op)
    ensures forall i :: 0 <= i < |op| ==> pos + i < |b| && b[pos + i] == op[i]
  {
    forall i | 0 <= i < |op| ensures b[pos + i] == op[i] {
      assert b[pos..pos + |op|][i] == op[i];
    }
  }

  lemma OneAt(b: bytes, pos: nat, x: byte)
    requires Holds(b, pos, [x])
    ensures pos < |b| && b[pos] == x
  {
    assert b[pos..pos + 1][0] == x;
  }

  lemma TwoAt(b: bytes, pos: nat, x: byte, y: byte)
    requires Holds(b, pos, [x, y])
    ensures pos + 1 < |b| && b[pos] == x && b[pos + 1] == y
  {
    assert b[pos..pos + 2][0] == x && b[pos..pos + 2][1] == y;
  }

  lemma HoldsBound(b: bytes, pos: nat, x: bytes)
    requires Holds(b, pos, x)
    ensures pos + |x| <= |b|
  {
  }

  lemma HoldsRange(b: bytes, pos: nat, t: bytes, lo: nat, hi: nat)
    requires Holds(b, pos, t) && lo <= hi <= |t|
    ensures pos + hi <= |b| && b[pos + lo..pos + hi] == t[lo..hi]
  {
    forall i | lo <= i < hi ensures b[pos + i] == t[i] {
      assert b[pos..pos + |t|][i] == t[i];
    }
  }

  /** The bytes of an ASCII string. */
  function Ascii(s: string): (b: bytes)
    ensures |b| == |s|
    ensures forall i :: 0 <= i < |s| && s[i] as int < 256 ==> b[i] == s[i] as int
  {
    seq(|s|, i requires 0 <= i < |s| => (s[i] as int) % 256)
  }
}
