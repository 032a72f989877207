/** A disk image as a growable byte string with positioned reads and writes. */
module Ext4Image {
  import opened Bytes
  import opened Prelude

  /** The image after writing b at off; writing past the end extends it with zeros. */
  function Splice(d: bytes, off: nat, b: bytes): (r: bytes)
    ensures |r| == if b == [] || off + |b| <= |d| then |d| else off + |b|
  {
    if b == [] then d
    else if off + |b| <= |d| then d[..off] + b + d[off + |b|..]
    else if off <= |d| then d[..off] + b
    else d + Zeros(off - |d|) + b
  }

  lemma SpliceAt(d: bytes, off: nat, b: bytes, p: nat)
    requires p < |d|
    ensures Splice(d, off, b)[p] == if off <= p < off + |b| then b[p - off] else d[p]
  {
  }

  /** A slice the write does not touch. */
  lemma SpliceApart(d: bytes, off: nat, b: bytes, lo: nat, hi: nat)
    requires lo <= hi <= |d| && (hi <= off || off + |b| <= lo)
    ensures Splice(d, off, b)[lo..hi] == d[lo..hi]
  {
    var r := Splice(d, off, b);
    forall i | 0 <= i < hi - lo ensures r[lo..hi][i] == d[lo..hi][i] {
      SpliceAt(d, off, b, lo + i);
    }
  }

  /** Two adjacent writes are one longer write. */
  lemma SpliceSplice(d: bytes, off: nat, a: bytes, b: bytes)
    requires a != [] && b != []
    ensures Splice(Splice(d, off, a), off + |a|, b) == Splice(d, off, a + b)
  {
    var x, y := Splice(Splice(d, off, a), off + |a|, b), Splice(d, off, a + b);
    assert |x| == |y|;
    forall i | 0 <= i < |x| ensures x[i] == y[i] {
    }
  }

  lemma ZeroChunk(d: bytes, now: bytes, off: nat, done: nat, n: nat)
    requires n > 0 && Zeroed(d, now, off, done)
    ensures Zeroed(d, Splice(now, off + done, Zeros(n)), off, done + n)
  {
    if done > 0 {
      SpliceSplice(d, off, Zeros(done), Zeros(n));
      assert Zeros(done) + Zeros(n) == Zeros(done + n);
    } else {
      assert Zeros(0) == [];
    }
  }

  lemma SliceSlice(d: bytes, lo: nat, hi: nat, i: nat, j: nat)
    requires lo <= hi <= |d| && i <= j <= hi - lo
    ensures d[lo..hi][i..j] == d[lo + i..lo + j]
  {
    var a, b := d[lo..hi][i..j], d[lo + i..lo + j];
    assert |a| == |b|;
    forall k | 0 <= k < |a| ensures a[k] == b[k] {
    }
  }

  function U32At(d: bytes, off: nat): nat
    requires off + 4 <= |d|
  {
    LeVal(d[off..off + 4])
  }

  function U16At(d: bytes, off: nat): nat
    requires off + 2 <= |d|
  {
    LeVal(d[off..off + 2])
  }

  /** The open image file. Reads past its end fail. */
  class Image {
    var data: bytes

    constructor (d: bytes)
      ensures data == d
    {
      data := d;
    }

    method ReadAt(off: nat, n: nat) returns (r: Option<bytes>)
      ensures r.Some? <==> off + n <= |data|
      ensures r.Some? ==> r.value == data[off..off + n]
    {
      if off + n <= |data| {
        r := Some(data[off..off + n]);
      } else {
        r := None;
      }
    }

    method WriteAt(off: nat, b: bytes)
      modifies this
      ensures data == Splice(old(data), off, b)
    {
      data := Splice(data, off, b);
    }

    method ReadUint32At(off: nat) returns (r: Option<nat>)
      ensures r.Some? <==> off + 4 <= |data|
      ensures r.Some? ==> r.value == U32At(data, off)
    {
      var b := ReadAt(off, 4);
      r := if b.Some? then Some(LeVal(b.value)) else None;
    }

    method WriteUint32At(off: nat, v: nat)
      modifies this
      ensures data == Splice(old(data), off, Le(v, 4))
    {
      WriteAt(off, Le(v, 4));
    }

    /** Zeroes a region in chunks of at most 4096 bytes. */
    method WriteZeroRegion(off: nat, length: nat)
      modifies this
      ensures data == Splice(old(data), off, Zeros(length))
    {
      ghost var d := data;
      var written := 0;
      assert Zeroed(d, data, off, 0);
      while written < length
        invariant 0 <= written <= length
        invariant Zeroed(d, data, off, written)
      {
        var n := if length - written < 4096 then length - written else 4096;
        assert 0 < n <= 4096;
        ZeroChunk(d, data, off, written, n);
        WriteAt(off + written, Zeros(n));
        written := written + n;
      }
    }
  }

  /** now is d with done zero bytes written at off. */
  ghost predicate Zeroed(d: bytes, now: bytes, off: nat, done: nat) {
    now == Splice(d, off, Zeros(done))
  }
}
