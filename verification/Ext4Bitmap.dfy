/** Allocation bitmaps: bit i of byte i / 8 is set when item i is in use. */
module Ext4Bitmap {
  import opened Bytes
  import opened Prelude

  function BitOf(x: nat, k: nat): (b: bool) {
    if k == 0 then x % 2 == 1 else BitOf(x / 2, k - 1)
  }

  /** x with bit k set (v) or cleared (!v). */
  function PutBit(x: nat, k: nat, v: bool): nat {
    if k == 0 then x - x % 2 + (if v then 1 else 0)
    else x % 2 + 2 * PutBit(x / 2, k - 1, v)
  }

  lemma {:induction false} PutBitReads(x: nat, k: nat, v: bool, j: nat)
    ensures BitOf(PutBit(x, k, v), j) == if j == k then v else BitOf(x, j)
  {
    if k > 0 && j > 0 {
      PutBitReads(x / 2, k - 1, v, j - 1);
      assert PutBit(x, k, v) / 2 == PutBit(x / 2, k - 1, v);
    }
  }

  lemma {:induction false} PutBitFits(x: nat, k: nat, v: bool, n: nat)
    requires x < Pow2(n) && k < n
    ensures PutBit(x, k, v) < Pow2(n)
  {
    var half, q, r := Pow2(n - 1), x / 2, x % 2;
    assert x == 2 * q + r && q < half;
    if k > 0 {
      PutBitFits(q, k - 1, v, n - 1);
    }
  }

  lemma {:induction false} ByteFits(x: byte, k: nat, v: bool)
    requires k < 8
    ensures PutBit(x, k, v) < 256
  {
    assert Pow2(8) == 256 by {
      assert Pow2(4) == 16;
    }
    PutBitFits(x, k, v, 8);
  }

  /** Bit i of a bitmap. Positions past its end read as clear. */
  function Bit(bm: bytes, i: nat): bool {
    i / 8 < |bm| && BitOf(bm[i / 8], i % 8)
  }

  /** Item i is bit i % 8 of byte i / 8, counted from the least significant. */
  lemma {:induction false} BitOrder(x: nat, k: nat)
    ensures BitOf(x, k) <==> x / Pow2(k) % 2 == 1
  {
    if k > 0 {
      BitOrder(x / 2, k - 1);
      HalfDiv(x, Pow2(k - 1));
    }
  }

  lemma HalfDiv(x: nat, p: nat)
    requires p > 0
    ensures x / 2 / p == x / (2 * p)
  {
    var q, r := x / 2 / p, x / 2 % p;
    assert x / 2 == p * q + r;
    assert x == 2 * p * q + (2 * r + x % 2) by { assert x == 2 * (p * q + r) + x % 2; }
    QuotientIs(x, 2 * p, q, 2 * r + x % 2);
  }

  /** The bitmap with bit i written; a position past the end is ignored. */
  function WithBit(bm: bytes, i: nat, v: bool): (r: bytes)
    ensures |r| == |bm|
  {
    if i / 8 >= |bm| then bm
    else
      ByteFits(bm[i / 8], i % 8, v);
      bm[i / 8 := PutBit(bm[i / 8], i % 8, v)]
  }

  lemma WithBitReads(bm: bytes, i: nat, v: bool, j: nat)
    requires i / 8 < |bm|
    ensures Bit(WithBit(bm, i, v), j) == if j == i then v else Bit(bm, j)
  {
    if j / 8 == i / 8 {
      PutBitReads(bm[i / 8], i % 8, v, j % 8);
    }
  }

  /** The bitmap with every bit from lo up to hi written. */
  function WithBits(bm: bytes, lo: nat, hi: nat, v: bool): (r: bytes)
    requires lo <= hi
    ensures |r| == |bm|
  {
    if lo == hi then bm else WithBit(WithBits(bm, lo, hi - 1, v), hi - 1, v)
  }

  lemma {:induction false} WithBitsReads(bm: bytes, lo: nat, hi: nat, v: bool, j: nat)
    requires lo <= hi <= 8 * |bm|
    ensures Bit(WithBits(bm, lo, hi, v), j) == if lo <= j < hi then v else Bit(bm, j)
  {
    if lo < hi {
      WithBitsReads(bm, lo, hi - 1, v, j);
      WithBitReads(WithBits(bm, lo, hi - 1, v), hi - 1, v, j);
    }
  }

  /** How many of the first n bits are clear. */
  function ClearBits(bm: bytes, n: nat): (c: nat)
    ensures c <= n
  {
    if n == 0 then 0 else ClearBits(bm, n - 1) + (if Bit(bm, n - 1) then 0 else 1)
  }

  ghost predicate SameBits(a: bytes, b: bytes, lo: nat, hi: nat) {
    forall i :: lo <= i < hi ==> Bit(a, i) == Bit(b, i)
  }

  lemma {:induction false} SameCount(a: bytes, b: bytes, n: nat)
    requires SameBits(a, b, 0, n)
    ensures ClearBits(a, n) == ClearBits(b, n)
  {
    if n > 0 {
      SameCount(a, b, n - 1);
    }
  }

  /** Freeing a run of used bits raises the count by its length. */
  lemma {:induction false} FreeRun(a: bytes, b: bytes, lo: nat, hi: nat, n: nat)
    requires lo <= hi <= n
    requires forall i :: lo <= i < hi ==> Bit(a, i) && !Bit(b, i)
    requires SameBits(a, b, 0, lo) && SameBits(a, b, hi, n)
    ensures ClearBits(b, n) == ClearBits(a, n) + (hi - lo)
    decreases n
  {
    if hi < n {
      FreeRun(a, b, lo, hi, n - 1);
    } else if lo < n {
      FreeRun(a, b, lo, hi - 1, n - 1);
    } else {
      SameCount(a, b, n);
    }
  }

  /** A bitmap with a used prefix, a free middle and a used tail. */
  lemma {:induction false} CountMiddle(b: bytes, used: nat, present: nat, n: nat)
    requires used <= present <= n
    requires forall i :: 0 <= i < n ==> Bit(b, i) == (i < used || present <= i)
    ensures ClearBits(b, n) == present - used
    decreases n
  {
    if present < n {
      CountMiddle(b, used, present, n - 1);
    } else if used < n {
      CountMiddle(b, used, present - 1, n - 1);
    } else if n > 0 {
      CountMiddle(b, used - 1, present - 1, n - 1);
    }
  }

  lemma {:induction false} ZerosClear(bs: nat, n: nat)
    ensures ClearBits(Zeros(bs), n) == n
  {
    if n > 0 {
      ZerosClear(bs, n - 1);
      ZeroBit(bs, n - 1);
    }
  }

  lemma ZeroBit(bs: nat, i: nat)
    ensures !Bit(Zeros(bs), i)
  {
    if i / 8 < bs {
      ZeroByte(i % 8);
    }
  }

  lemma {:induction false} ZeroByte(k: nat)
    ensures !BitOf(0, k)
  {
    if k > 0 {
      ZeroByte(k - 1);
    }
  }

  method SetBitmapBit(bitmap: array<byte>, index: nat)
    modifies bitmap
    ensures bitmap[..] == WithBit(old(bitmap[..]), index, true)
  {
    if index / 8 >= bitmap.Length {
      return;
    }
    ByteFits(bitmap[index / 8], index % 8, true);
    bitmap[index / 8] := PutBit(bitmap[index / 8], index % 8, true);
  }

  method ClearBitmapBit(bitmap: array<byte>, index: nat)
    modifies bitmap
    ensures bitmap[..] == WithBit(old(bitmap[..]), index, false)
  {
    if index / 8 >= bitmap.Length {
      return;
    }
    ByteFits(bitmap[index / 8], index % 8, false);
    bitmap[index / 8] := PutBit(bitmap[index / 8], index % 8, false);
  }
}
