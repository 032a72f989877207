/** The whole grow, and what holds when it succeeds. */
module Ext4Expand {
  import opened Prelude
  import opened Bytes
  import opened Ext4Bitmap
  import opened Ext4Image
  import opened Ext4Layout
  import opened Ext4Write
  import opened Ext4Accounting
  import opened Ext4Grow

  // ---------- the superblock ----------

  /** The image with the four superblock counters rewritten. */
  function SuperBytes(d: bytes, blocks: nat, free: nat, inodes: nat, freeInodes: nat): bytes {
    Two(Two(d, SB_BLOCKS, Le(blocks, 4), SB_FREE_BLOCKS, Le(free, 4)),
        SB_INODES, Le(inodes, 4), SB_FREE_INODES, Le(freeInodes, 4))
  }

  ghost predicate Counter(p: nat) {
    SB_INODES <= p < SB_BLOCKS + 4 || SB_FREE_BLOCKS <= p < SB_FREE_INODES + 4
  }

  lemma SuperKeeps(d: bytes, blocks: nat, free: nat, inodes: nat, freeInodes: nat, lo: nat, len: nat)
    requires lo + len <= |d|
    requires lo + len <= SB_INODES || (SB_BLOCKS + 4 <= lo && lo + len <= SB_FREE_BLOCKS) || SB_FREE_INODES + 4 <= lo
    ensures Keeps(d, SuperBytes(d, blocks, free, inodes, freeInodes), lo, len)
  {
    hide Splice, Keeps, Le;
    var mid := Two(d, SB_BLOCKS, Le(blocks, 4), SB_FREE_BLOCKS, Le(free, 4));
    TwoKeep(d, SB_BLOCKS, Le(blocks, 4), SB_FREE_BLOCKS, Le(free, 4), lo, len);
    KeepsSize(d, mid, lo, len);
    TwoKeep(mid, SB_INODES, Le(inodes, 4), SB_FREE_INODES, Le(freeInodes, 4), lo, len);
    KeepsTrans(d, mid, SuperBytes(d, blocks, free, inodes, freeInodes), lo, len);
  }

  lemma {:induction false} SuperHolds(d: bytes, blocks: nat, free: nat, inodes: nat, freeInodes: nat)
    requires SB_END <= |d|
    ensures var d' := SuperBytes(d, blocks, free, inodes, freeInodes);
            && Holds(d', SB_BLOCKS, Le(blocks, 4)) && Holds(d', SB_FREE_BLOCKS, Le(free, 4))
            && Holds(d', SB_INODES, Le(inodes, 4)) && Holds(d', SB_FREE_INODES, Le(freeInodes, 4))
  {
    hide Splice, Holds, Le;
    var d1 := Splice(d, SB_BLOCKS, Le(blocks, 4));
    var d2 := Splice(d1, SB_FREE_BLOCKS, Le(free, 4));
    var d3 := Splice(d2, SB_INODES, Le(inodes, 4));
    HoldsWritten(d, SB_BLOCKS, Le(blocks, 4));
    HoldsWritten(d1, SB_FREE_BLOCKS, Le(free, 4));
    HoldsWritten(d2, SB_INODES, Le(inodes, 4));
    HoldsWritten(d3, SB_FREE_INODES, Le(freeInodes, 4));
    HoldsStill(d1, SB_BLOCKS, Le(blocks, 4), SB_FREE_BLOCKS, Le(free, 4));
    HoldsStill(d2, SB_BLOCKS, Le(blocks, 4), SB_INODES, Le(inodes, 4));
    HoldsStill(d3, SB_BLOCKS, Le(blocks, 4), SB_FREE_INODES, Le(freeInodes, 4));
    HoldsStill(d2, SB_FREE_BLOCKS, Le(free, 4), SB_INODES, Le(inodes, 4));
    HoldsStill(d3, SB_FREE_BLOCKS, Le(free, 4), SB_FREE_INODES, Le(freeInodes, 4));
    HoldsStill(d3, SB_INODES, Le(inodes, 4), SB_FREE_INODES, Le(freeInodes, 4));
  }

  lemma {:induction false} FieldHolds(d: bytes, off: nat, v: nat)
    requires Holds(d, off, Le(v, 4)) && v < POW32
    ensures off + 4 <= |d| && U32At(d, off) == v
  {
    PowValues();
    LeRoundTrip(v, 4);
  }

  /** The counters read back as written; the sizes are as before. */
  lemma SuperGeometry(d: bytes, blocks: nat, free: nat, inodes: nat, freeInodes: nat)
    requires SB_END <= |d| && blocks < POW32 && free < POW32 && inodes < POW32 && freeInodes < POW32
    ensures var d' := SuperBytes(d, blocks, free, inodes, freeInodes);
            && |d'| == |d|
            && GeometryOf(d') == Geometry(GeometryOf(d).sizes, blocks, free, inodes, freeInodes)
  {
    hide Holds, Le, Pow2;
    var d' := SuperBytes(d, blocks, free, inodes, freeInodes);
    SuperHolds(d, blocks, free, inodes, freeInodes);
    FieldHolds(d', SB_BLOCKS, blocks);
    FieldHolds(d', SB_FREE_BLOCKS, free);
    FieldHolds(d', SB_INODES, inodes);
    FieldHolds(d', SB_FREE_INODES, freeInodes);
    SuperKeeps(d, blocks, free, inodes, freeInodes, SB_LOG_BLOCK_SIZE, 4);
    SuperKeeps(d, blocks, free, inodes, freeInodes, SB_BLOCKS_PER_GROUP, 4);
    SuperKeeps(d, blocks, free, inodes, freeInodes, SB_INODES_PER_GROUP, 4);
    SuperKeeps(d, blocks, free, inodes, freeInodes, SB_INODE_SIZE, 2);
  }

  lemma SuperSameAll(d: bytes, geo: Sizes, room: nat, top: nat, n: nat, blocks: nat, free: nat, inodes: nat, freeInodes: nat)
    requires GroupsOk(d, geo, room, top, n)
    ensures AllSame(d, SuperBytes(d, blocks, free, inodes, freeInodes), geo, room, top, n)
  {
    hide SuperBytes, BlockBitmap, InodeBitmap, FreeBlocks, FreeInodes, ClearBits, Keeps;
    var d' := SuperBytes(d, blocks, free, inodes, freeInodes);
    forall g | 0 <= g < n ensures OkSame(d, d', geo, room, top, g) {
      assert GroupOk(d, geo, room, top, g);
      var x, y := BlockBitmap(d, g) * geo.blockSize, InodeBitmap(d, g) * geo.blockSize;
      SuperKeeps(d, blocks, free, inodes, freeInodes, DescOff(g), DESC);
      SuperKeeps(d, blocks, free, inodes, freeInodes, x, geo.blockSize);
      SuperKeeps(d, blocks, free, inodes, freeInodes, y, geo.blockSize);
    }
  }

  /** A change that leaves every group alone leaves the accounts alone. */
  lemma SameAccounted(d: bytes, d': bytes, geo: Sizes, room: nat, n: nat, top: nat, fb: nat, fi: nat)
    requires Accounted(d, geo, room, n, top, fb, fi) && AllSame(d, d', geo, room, top, n) && |d| <= |d'|
    ensures Accounted(d', geo, room, n, top, fb, fi)
  {
    hide GroupOk, Distinct, Padded, SumFreeBlocks, SumFreeInodes, GroupsOk, AllSame;
    KeptGroups(d, d', geo, room, top, top, n);
    KeptOne(d, d', geo, room, top, top, n, n - 1);
    PaddedSame(d, d', geo, room, top, n);
  }

  lemma PaddedSame(d: bytes, d': bytes, geo: Sizes, room: nat, top: nat, n: nat)
    requires n > 0 && AllSame(d, d', geo, room, top, n) && Padded(d, geo, n - 1, top)
    ensures Padded(d', geo, n - 1, top)
  {
    hide GroupOk, Bit, BlockBitmap, InodeBitmap;
    assert OkSame(d, d', geo, room, top, n - 1);
    OkHasDesc(d, geo, room, top, n - 1);
    KeptOne(d, d', geo, room, top, top, n, n - 1);
    OkHasDesc(d', geo, room, top, n - 1);
    var x := BlockBitmap(d, n - 1) * geo.blockSize;
    assert d'[x..x + geo.blockSize] == d[x..x + geo.blockSize];
  }

  lemma LaidSuper(d: bytes, geo: Sizes, g: nat, present: nat, blocks: nat, free: nat, inodes: nat, freeInodes: nat)
    requires Laid(d, geo, g, present) && SB_END <= BaseOf(geo, g)
    ensures Laid(SuperBytes(d, blocks, free, inodes, freeInodes), geo, g, present)
  {
    hide SuperBytes, NewBitmap, NewDesc, GeoOk;
    var bs := geo.blockSize;
    assert bs > 0 by {
      GeoPositive(geo);
    }
    SuperKeeps(d, blocks, free, inodes, freeInodes, BaseOf(geo, g), bs);
    SuperKeeps(d, blocks, free, inodes, freeInodes, BaseOf(geo, g) + bs, bs);
    SuperKeeps(d, blocks, free, inodes, freeInodes, BaseOf(geo, g) + 2 * bs, TableBlocks(geo) * bs);
    SuperKeeps(d, blocks, free, inodes, freeInodes, DescOff(g), DESC);
  }

  // ---------- totals fit ----------

  lemma {:induction false} SumsFit(d: bytes, geo: Sizes, room: nat, top: nat, n: nat)
    requires GroupsOk(d, geo, room, top, n)
    ensures SumFreeBlocks(d, n) <= n * geo.blocksPerGroup && SumFreeInodes(d, n) <= n * geo.inodesPerGroup
  {
    hide ClearBits, BlockBitmap, InodeBitmap, FreeBlocks, FreeInodes;
    if n > 0 {
      assert GroupsOk(d, geo, room, top, n - 1);
      SumsFit(d, geo, room, top, n - 1);
      assert GroupOk(d, geo, room, top, n - 1);
      OneMore(n - 1, geo.blocksPerGroup);
      OneMore(n - 1, geo.inodesPerGroup);
    }
  }

  // ---------- what an old group keeps ----------

  /** Blocks of group g below block top. */
  function Within(geo: Sizes, g: nat, top: nat): nat {
    if top <= g * geo.blocksPerGroup then 0
    else if top - g * geo.blocksPerGroup < geo.blocksPerGroup then top - g * geo.blocksPerGroup
    else geo.blocksPerGroup
  }

  /** Group g keeps its metadata where it was, the bits of its old blocks, and all its inode bits. */
  ghost predicate OldGroup(d: bytes, d': bytes, geo: Sizes, top: nat, g: nat) {
    && HasDesc(d, g) && HasDesc(d', g) && |d| <= |d'|
    && BlockBitmap(d', g) == BlockBitmap(d, g) && InodeBitmap(d', g) == InodeBitmap(d, g)
    && InodeTable(d', g) == InodeTable(d, g) && FreeInodes(d', g) == FreeInodes(d, g)
    && BlockBitmap(d, g) * geo.blockSize + geo.blockSize <= |d|
    && InodeBitmap(d, g) * geo.blockSize + geo.blockSize <= |d|
    && SameBits(Block(d, geo.blockSize, BlockBitmap(d, g)), Block(d', geo.blockSize, BlockBitmap(d, g)), 0, Within(geo, g, top))
    && Block(d', geo.blockSize, InodeBitmap(d, g)) == Block(d, geo.blockSize, InodeBitmap(d, g))
  }

  ghost predicate OldGroups(d: bytes, d': bytes, geo: Sizes, top: nat, n: nat) {
    forall g {:trigger OldGroup(d, d', geo, top, g)} :: 0 <= g < n ==> OldGroup(d, d', geo, top, g)
  }

  lemma OldGroupSame(d: bytes, d1: bytes, d2: bytes, geo: Sizes, room: nat, top: nat, top1: nat, g: nat)
    requires OldGroup(d, d1, geo, top, g) && OkSame(d1, d2, geo, room, top1, g)
    ensures OldGroup(d, d2, geo, top, g)
  {
    hide Bit, ClearBits, BlockBitmap, InodeBitmap, InodeTable, FreeBlocks, FreeInodes;
    SameDesc(d1, d2, g);
    var bs := geo.blockSize;
    var x, y := BlockBitmap(d, g) * bs, InodeBitmap(d, g) * bs;
    assert d2[x..x + bs] == d1[x..x + bs] && d2[y..y + bs] == d1[y..y + bs];
  }

  lemma OldGroupsSame(d: bytes, d1: bytes, d2: bytes, geo: Sizes, room: nat, top: nat, top1: nat, n: nat)
    requires OldGroups(d, d1, geo, top, n) && AllSame(d1, d2, geo, room, top1, n)
    ensures OldGroups(d, d2, geo, top, n)
  {
    hide OldGroup, OkSame;
    forall g | 0 <= g < n ensures OldGroup(d, d2, geo, top, g) {
      assert OldGroup(d, d1, geo, top, g) && OkSame(d1, d2, geo, room, top1, g);
      OldGroupSame(d, d1, d2, geo, room, top, top1, g);
    }
  }

  lemma OldGroupSelf(d: bytes, geo: Sizes, room: nat, top: nat, g: nat)
    requires GroupOk(d, geo, room, top, g)
    ensures OldGroup(d, d, geo, top, g)
  {
  }

  /** Growing the last group keeps every old group's metadata and bits. */
  lemma GrowOld(d: bytes, geo: Sizes, room: nat, top: nat, n: nat, target: nat, fb: nat, fi: nat)
    requires Accounted(d, geo, room, n, top, fb, fi) && top <= target <= n * geo.blocksPerGroup
    requires HasDesc(d, n - 1) && FreeBlocks(d, n - 1) + (target - top) < POW16
    requires BlockBitmap(d, n - 1) * geo.blockSize + geo.blockSize <= |d|
    ensures var first := (n - 1) * geo.blocksPerGroup;
            OldGroups(d, GrowGroup(d, geo.blockSize, n - 1, top - first, target - first), geo, top, n)
  {
    hide GroupOk, Distinct, Padded, SumFreeBlocks, SumFreeInodes, GrowGroup, OkSame, SameBits, AllSame,
         BlockBitmap, InodeBitmap, InodeTable, FreeBlocks, FreeInodes;
    var first := (n - 1) * geo.blocksPerGroup;
    var d' := GrowGroup(d, geo.blockSize, n - 1, top - first, target - first);
    GrowKeepsAll(d, geo, room, top, n, top - first, target - first);
    GrowLast(d, geo, room, top, n, target);
    OkHasDesc(d, geo, room, top, n - 1);
    OkHasDesc(d', geo, room, target, n - 1);
    OneMore(n - 1, geo.blocksPerGroup);
    assert Within(geo, n - 1, top) == top - first;
    assert OldGroup(d, d', geo, top, n - 1);
    hide OldGroup;
    forall g | 0 <= g < n ensures OldGroup(d, d', geo, top, g) {
      if g < n - 1 {
        assert GroupOk(d, geo, room, top, g);
        OldGroupSelf(d, geo, room, top, g);
        SameAt(d, d', geo, room, top, n - 1, g);
        OldGroupSame(d, d, d', geo, room, top, top, g);
      }
    }
  }

  lemma SameAt(d: bytes, d': bytes, geo: Sizes, room: nat, top: nat, n: nat, g: nat)
    requires AllSame(d, d', geo, room, top, n) && g < n
    ensures OkSame(d, d', geo, room, top, g)
  {
  }

  // ---------- bytes that do not change ----------

  /** What growing the last group may write: its bitmap, and the free count in its descriptor. */
  ghost predicate GrowTouches(d: bytes, geo: Sizes, n: nat, p: nat)
    requires n > 0 && HasDesc(d, n - 1)
  {
    || BlockBitmap(d, n - 1) * geo.blockSize <= p < BlockBitmap(d, n - 1) * geo.blockSize + geo.blockSize
    || DescOff(n - 1) + 12 <= p < DescOff(n - 1) + 14
  }

  lemma GrowFrame(d: bytes, geo: Sizes, room: nat, top: nat, n: nat, from: nat, to: nat, p: nat)
    requires 0 < n <= room && geo.blockSize > 0 && GroupOk(d, geo, room, top, n - 1) && from <= to
    requires p < |d| && !GrowTouches(d, geo, n, p)
    ensures Keeps(d, GrowGroup(d, geo.blockSize, n - 1, from, to), p, 1)
  {
    hide BlockBitmap, InodeBitmap, FreeBlocks, FreeInodes, ClearBits, GrowGroup, WithBits, WithFree, Keeps;
    var g, bs := n - 1, geo.blockSize;
    if DescOff(g) <= p < DescOff(g) + DESC {
      GrowHolds(d, bs, g, from, to);
      var d' := GrowGroup(d, bs, g, from, to);
      var desc := d[DescOff(g)..DescOff(g) + DESC];
      var free := FreeBlocks(d, g) + (to - from);
      assert d'[p] == d'[DescOff(g)..DescOff(g) + DESC][p - DescOff(g)] == WithFree(desc, free)[p - DescOff(g)];
      WithFreeByte(desc, free, p - DescOff(g));
      KeptByte(d, d', p);
    } else {
      GrowKeeps(d, bs, g, from, to, p, 1);
    }
  }

  /** What a grow from n to n' groups may write below the first new group. */
  ghost predicate Touches(d: bytes, geo: Sizes, n: nat, n': nat, p: nat)
    requires n > 0 && HasDesc(d, n - 1)
  {
    Counter(p) || GrowTouches(d, geo, n, p) || DescOff(n) <= p < DescOff(n')
  }

  /** Every other byte that existed is as it was. */
  ghost predicate Framed(d: bytes, d': bytes, geo: Sizes, n: nat, n': nat)
    requires n > 0 && HasDesc(d, n - 1)
  {
    forall p {:trigger Keeps(d, d', p, 1)} :: 0 <= p < |d| && p < BaseOf(geo, n) && !Touches(d, geo, n, n', p) ==> Keeps(d, d', p, 1)
  }

  lemma KeptByte(d: bytes, d': bytes, p: nat)
    ensures Keeps(d, d', p, 1) <==> p < |d| <= |d'| && d'[p] == d[p]
  {
    if p < |d| <= |d'| {
      assert d'[p..p + 1] == [d'[p]] && d[p..p + 1] == [d[p]];
    }
  }
}
