/** Byte sums and the checksum byte that brings a table's sum to zero. */
module Checksums {
  import opened Bytes

  function Sum(b: bytes): nat {
    if b == [] then 0 else Sum(b[..|b| - 1]) + b[|b| - 1]
  }

  /** The bytes add up to zero modulo 256. */
  predicate Balanced(b: bytes) {
    Sum(b) % 256 == 0
  }

  function Complement(sum: nat): byte {
    (256 - sum % 256) % 256
  }

  lemma {:induction false} SumUpdate(b: bytes, i: nat, v: byte)
    requires i < |b|
    ensures Sum(b[i := v]) + b[i] == Sum(b) + v
    decreases |b|
  {
    var k := |b| - 1;
    if i == k {
      assert b[i := v][..k] == b[..k];
    } else {
      SumUpdate(b[..k], i, v);
      assert b[i := v][..k] == b[..k][i := v];
    }
  }

  /** Sums add up, and one byte sums to itself. */
  lemma {:induction false} SumParts(a: bytes, b: bytes)
    ensures Sum(a + b) == Sum(a) + Sum(b) && (|a| == 1 ==> Sum(a) == a[0])
    decreases |b|
  {
    assert |a| == 1 ==> a[..0] == [];
    if b == [] {
      assert a + b == a;
    } else {
      var k := |b| - 1;
      SumParts(a, b[..k]);
      assert (a + b)[..|a| + k] == a + b[..k];
    }
  }

  /** b with its byte at off set so that the whole is balanced. */
  function Sealed(b: bytes, off: nat): (r: bytes)
    requires off < |b|
    ensures |r| == |b|
  {
    b[off := Complement(Sum(b[off := 0]))]
  }

  lemma SealedBalanced(b: bytes, off: nat)
    requires off < |b|
    ensures Balanced(Sealed(b, off))
  {
    var z := b[off := 0];
    SumUpdate(z, off, Complement(Sum(z)));
    assert z[off := Complement(Sum(z))] == Sealed(b, off);
    Closes(Sum(z));
  }

  lemma Closes(sum: nat)
    ensures (sum + Complement(sum)) % 256 == 0
  {
  }

  /** The two's complement of the byte sum. */
  method Checksum(b: bytes) returns (c: byte)
    ensures c == Complement(Sum(b))
  {
    var sum: byte := 0;
    for i := 0 to |b|
      invariant sum == Sum(b[..i]) % 256
    {
      assert b[..i + 1][..i] == b[..i];
      sum := AddByte(sum, b[i]);
    }
    assert b[..|b|] == b;
    c := Complement(sum);
  }

  function AddByte(a: byte, b: byte): byte {
    var s: int := a as int + b as int;
    s % 256
  }

  /** finalizeChecksum: the checksum byte is zeroed, computed and stored in place. */
  method Finalize(table: array<byte>, off: nat)
    requires off < table.Length
    modifies table
    ensures table[..] == Sealed(old(table[..]), off)
  {
    table[off] := 0;
    var c := Checksum(table[..]);
    table[off] := c;
  }
}
