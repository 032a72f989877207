/**
 * What each kind of write does to the bookkeeping: growing the last group,
 * adding a group, and updating the superblock counters.
 */
module Ext4Write {
  import opened Bytes
  import opened Ext4Image
  import opened Ext4Layout

  // ---------- group descriptors ----------

  /** The 32 bytes of a new group's descriptor. */
  function NewDesc(bb: nat, ib: nat, it: nat, free: nat, inodes: nat): (b: bytes)
    ensures |b| == DESC
  {
    Le(bb, 4) + Le(ib, 4) + Le(it, 4) + Le(free, 2) + Le(inodes, 2) + Zeros(12) + Le(inodes, 2) + Zeros(2)
  }

  /** The field at bytes i..j of the descriptor at o. */
  lemma FieldOf(d: bytes, o: nat, x: bytes, i: nat, j: nat, v: nat)
    requires o + DESC <= |d| && |x| == DESC && i <= j <= DESC
    requires d[o..o + DESC] == x && x[i..j] == Le(v, j - i) && v < Pow256(j - i)
    ensures LeVal(d[o + i..o + j]) == v
  {
    SliceSlice(d, o, o + DESC, i, j);
    LeRoundTrip(v, j - i);
  }

  /** The rest of a new descriptor: no directories, no flags or checksums, and no inode ever used. */
  ghost predicate NeverUsed(d: bytes, g: nat, inodes: nat) {
    var o := 4096 + 32 * g;
    && o + 32 <= |d|
    && d[o + 16..o + 28] == Zeros(12)
    && LeVal(d[o + 28..o + 30]) == inodes
    && d[o + 30..o + 32] == Zeros(2)
  }

  lemma {:induction false} NewDescParts(bb: nat, ib: nat, it: nat, free: nat, inodes: nat)
    ensures var x := NewDesc(bb, ib, it, free, inodes);
            && x[0..4] == Le(bb, 4) && x[4..8] == Le(ib, 4) && x[8..12] == Le(it, 4)
            && x[12..14] == Le(free, 2) && x[14..16] == Le(inodes, 2)
            && x[16..28] == Zeros(12) && x[28..30] == Le(inodes, 2) && x[30..32] == Zeros(2)
  {
    hide Le;
  }

  lemma NewDescFields(d: bytes, g: nat, bb: nat, ib: nat, it: nat, free: nat, inodes: nat)
    requires HasDesc(d, g)
    requires bb < POW32 && ib < POW32 && it < POW32 && free < POW16 && inodes < POW16
    requires d[DescOff(g)..DescOff(g) + DESC] == NewDesc(bb, ib, it, free, inodes)
    ensures BlockBitmap(d, g) == bb && InodeBitmap(d, g) == ib && InodeTable(d, g) == it
    ensures FreeBlocks(d, g) == free && FreeInodes(d, g) == inodes
    ensures NeverUsed(d, g, inodes)
  {
    hide NewDesc, Le, LeVal;
    PowValues();
    var x := NewDesc(bb, ib, it, free, inodes);
    var o := DescOff(g);
    NewDescParts(bb, ib, it, free, inodes);
    FieldOf(d, o, x, 0, 4, bb);
    FieldOf(d, o, x, 4, 8, ib);
    FieldOf(d, o, x, 8, 12, it);
    FieldOf(d, o, x, 12, 14, free);
    FieldOf(d, o, x, 14, 16, inodes);
    FieldOf(d, o, x, 28, 30, inodes);
    SliceSlice(d, o, o + DESC, 16, 28);
    SliceSlice(d, o, o + DESC, 30, 32);
  }

  /** A descriptor with another free-block count. */
  function WithFree(desc: bytes, free: nat): (b: bytes)
    requires |desc| == DESC
    ensures |b| == DESC
  {
    desc[..12] + Le(free, 2) + desc[14..]
  }

  lemma WithFreeByte(desc: bytes, free: nat, i: nat)
    requires |desc| == DESC && i < DESC && !(12 <= i < 14)
    ensures WithFree(desc, free)[i] == desc[i]
  {
  }

  /** A field of a rewritten descriptor other than the free count. */
  lemma WithFreeField(d: bytes, d': bytes, o: nat, free: nat, i: nat, j: nat)
    requires o + DESC <= |d| && o + DESC <= |d'| && i <= j <= DESC && (j <= 12 || 14 <= i)
    requires d'[o..o + DESC] == WithFree(d[o..o + DESC], free)
    ensures d'[o + i..o + j] == d[o + i..o + j]
  {
    hide WithFree;
    var x, y := d[o..o + DESC], d'[o..o + DESC];
    SliceSlice(d, o, o + DESC, i, j);
    SliceSlice(d', o, o + DESC, i, j);
    forall k | i <= k < j ensures y[k] == x[k] {
      WithFreeByte(x, free, k);
    }
    assert y[i..j] == x[i..j];
  }

  lemma WithFreeFields(d: bytes, d': bytes, g: nat, free: nat)
    requires HasDesc(d, g) && HasDesc(d', g) && free < POW16
    requires d'[DescOff(g)..DescOff(g) + DESC] == WithFree(d[DescOff(g)..DescOff(g) + DESC], free)
    ensures BlockBitmap(d', g) == BlockBitmap(d, g) && InodeBitmap(d', g) == InodeBitmap(d, g)
    ensures FreeBlocks(d', g) == free && FreeInodes(d', g) == FreeInodes(d, g) && InodeTable(d', g) == InodeTable(d, g)
  {
    PowValues();
    var o := DescOff(g);
    WithFreeField(d, d', o, free, 0, 4);
    WithFreeField(d, d', o, free, 4, 8);
    WithFreeField(d, d', o, free, 8, 12);
    WithFreeField(d, d', o, free, 14, 16);
    var y := WithFree(d[o..o + DESC], free);
    assert y[12..14] == Le(free, 2);
    FieldOf(d', o, y, 12, 14, free);
  }

  // ---------- writes and the ranges they keep ----------

  lemma KeepsTrans(a: bytes, b: bytes, c: bytes, lo: nat, len: nat)
    requires Keeps(a, b, lo, len) && Keeps(b, c, lo, len)
    ensures Keeps(a, c, lo, len)
  {
  }

  lemma KeepsPart(a: bytes, b: bytes, lo: nat, len: nat, lo': nat, len': nat)
    requires Keeps(a, b, lo, len) && lo <= lo' && lo' + len' <= lo + len
    ensures Keeps(a, b, lo', len')
  {
    SliceSlice(a, lo, lo + len, lo' - lo, lo' - lo + len');
    SliceSlice(b, lo, lo + len, lo' - lo, lo' - lo + len');
  }

  /** Two writes in a row. */
  function Two(d: bytes, o1: nat, b1: bytes, o2: nat, b2: bytes): bytes {
    Splice(Splice(d, o1, b1), o2, b2)
  }

  lemma TwoKeep(d: bytes, o1: nat, b1: bytes, o2: nat, b2: bytes, lo: nat, len: nat)
    requires lo + len <= |d| && Misses(o1, b1, lo, len) && Misses(o2, b2, lo, len)
    ensures Keeps(d, Two(d, o1, b1, o2, b2), lo, len)
  {
    Unwritten(d, o1, b1, lo, len);
    Unwritten(Splice(d, o1, b1), o2, b2, lo, len);
  }

  /** A new group's four writes: inode bitmap, inode table, block bitmap, descriptor. */
  function AddBytes(d: bytes, base: nat, bs: nat, table: nat, bm: bytes, dOff: nat, desc: bytes): bytes {
    Two(Two(d, base + bs, Zeros(bs), base + 2 * bs, Zeros(table)), base, bm, dOff, desc)
  }

  lemma AddBytesKeep(d: bytes, base: nat, bs: nat, table: nat, bm: bytes, dOff: nat, desc: bytes, lo: nat, len: nat)
    requires |bm| == bs && lo + len <= |d|
    requires lo + len <= base || base + 2 * bs + table <= lo
    requires Misses(dOff, desc, lo, len)
    ensures Keeps(d, AddBytes(d, base, bs, table, bm, dOff, desc), lo, len)
  {
    hide Splice, Keeps;
    var mid := Two(d, base + bs, Zeros(bs), base + 2 * bs, Zeros(table));
    TwoKeep(d, base + bs, Zeros(bs), base + 2 * bs, Zeros(table), lo, len);
    TwoKeep(mid, base, bm, dOff, desc, lo, len);
    KeepsTrans(d, mid, AddBytes(d, base, bs, table, bm, dOff, desc), lo, len);
  }

  lemma HoldsWritten(d: bytes, off: nat, b: bytes)
    requires b != [] || off <= |d|
    ensures Holds(Splice(d, off, b), off, b)
  {
  }

  lemma HoldsStill(d: bytes, lo: nat, b: bytes, off: nat, x: bytes)
    requires Holds(d, lo, b) && Misses(off, x, lo, |b|)
    ensures Holds(Splice(d, off, x), lo, b)
  {
    Unwritten(d, off, x, lo, |b|);
  }

  lemma AddHoldsInodes(d: bytes, base: nat, bs: nat, table: nat, bm: bytes, dOff: nat, desc: bytes)
    requires |bm| == bs > 0 && |desc| == DESC && dOff + DESC <= base
    ensures Holds(AddBytes(d, base, bs, table, bm, dOff, desc), base + bs, Zeros(bs))
  {
    hide Splice, Holds;
    var d1 := Splice(d, base + bs, Zeros(bs));
    var d2 := Splice(d1, base + 2 * bs, Zeros(table));
    HoldsWritten(d, base + bs, Zeros(bs));
    HoldsStill(d1, base + bs, Zeros(bs), base + 2 * bs, Zeros(table));
    HoldsStill(d2, base + bs, Zeros(bs), base, bm);
    HoldsStill(Splice(d2, base, bm), base + bs, Zeros(bs), dOff, desc);
  }

  lemma AddHoldsTable(d: bytes, base: nat, bs: nat, table: nat, bm: bytes, dOff: nat, desc: bytes)
    requires |bm| == bs > 0 && |desc| == DESC && dOff + DESC <= base
    ensures Holds(AddBytes(d, base, bs, table, bm, dOff, desc), base + 2 * bs, Zeros(table))
  {
    hide Splice, Holds;
    var d1 := Splice(d, base + bs, Zeros(bs));
    var d2 := Splice(d1, base + 2 * bs, Zeros(table));
    HoldsWritten(d1, base + 2 * bs, Zeros(table));
    HoldsStill(d2, base + 2 * bs, Zeros(table), base, bm);
    HoldsStill(Splice(d2, base, bm), base + 2 * bs, Zeros(table), dOff, desc);
  }

  lemma AddHoldsBitmap(d: bytes, base: nat, bs: nat, table: nat, bm: bytes, dOff: nat, desc: bytes)
    requires |bm| == bs > 0 && |desc| == DESC && dOff + DESC <= base
    ensures Holds(AddBytes(d, base, bs, table, bm, dOff, desc), base, bm)
    ensures Holds(AddBytes(d, base, bs, table, bm, dOff, desc), dOff, desc)
  {
    var d2 := Two(d, base + bs, Zeros(bs), base + 2 * bs, Zeros(table));
    HoldsWritten(d2, base, bm);
    HoldsStill(Splice(d2, base, bm), base, bm, dOff, desc);
    HoldsWritten(Splice(d2, base, bm), dOff, desc);
  }
}
