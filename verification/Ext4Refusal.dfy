/** What a refused grow has written by then, and whether the image is still consistent. */
module Ext4Refusal {
  import opened Bytes
  import opened Ext4Bitmap
  import opened Ext4Image
  import opened Ext4Layout
  import opened Ext4Write
  import opened Ext4Accounting
  import opened Ext4Grow
  import opened Ext4Frame
  import opened Ext4Expand

  // ---------- refused while appending groups ----------

  /** Appending that stopped keeps every range below the first new group, other than new descriptors. */
  lemma StoppedKeeps(d: bytes, d': bytes, s: Sizes, n: nat, groups: nat, target: nat, lo: nat, len: nat)
    requires Stopped(d, d', s, n, groups, target)
    requires lo + len <= |d| && lo + len <= BaseOf(s, n)
    requires lo + len <= DescOff(n) || DescOff(groups) <= lo
    ensures Keeps(d, d', lo, len)
  {
    hide AllFit, AddAll, Addable, PresentIn, Keeps, PartGroup;
    var g :| StoppedAt(d, d', s, n, groups, target, g);
    var mid := AddAll(d, s, n, g, groups, target);
    AllAddedKeep(d, s, n, g, groups, target, lo, len);
    KeepsSize(d, mid, lo, len);
    BaseMono(s, n, g);
    PartKeeps(mid, s, g, PresentIn(s, g, groups, target), lo, len);
    KeepsTrans(d, mid, PartGroup(mid, s, g, PresentIn(s, g, groups, target)), lo, len);
  }

  lemma StoppedSame(d: bytes, d': bytes, s: Sizes, room: nat, n: nat, groups: nat, target: nat)
    requires s.blockSize > 0 && n <= groups <= room && Stopped(d, d', s, n, groups, target)
    requires GroupsOk(d, s, room, FirstBlock(s, n), n)
    ensures AllSame(d, d', s, room, FirstBlock(s, n), n)
  {
    hide Stopped, Keeps, BlockBitmap, InodeBitmap, FreeBlocks, FreeInodes, ClearBits;
    var top := FirstBlock(s, n);
    forall g | 0 <= g < n ensures OkSame(d, d', s, room, top, g) {
      assert GroupOk(d, s, room, top, g);
      BaseAbove(d, s, room, top, g, n);
      var x, y := BlockBitmap(d, g) * s.blockSize, InodeBitmap(d, g) * s.blockSize;
      StoppedKeeps(d, d', s, n, groups, target, DescOff(g), DESC);
      StoppedKeeps(d, d', s, n, groups, target, x, s.blockSize);
      StoppedKeeps(d, d', s, n, groups, target, y, s.blockSize);
    }
  }

  /** The old groups, their accounts and the superblock are as before the appending began. */
  lemma StoppedAccounted(d: bytes, d': bytes, s: Sizes, room: nat, n: nat, groups: nat, target: nat, fb: nat, fi: nat)
    requires Accounted(d, s, room, n, FirstBlock(s, n), fb, fi)
    requires n <= groups <= room && Stopped(d, d', s, n, groups, target)
    ensures Accounted(d', s, room, n, FirstBlock(s, n), fb, fi)
    ensures AllSame(d, d', s, room, FirstBlock(s, n), n) && Keeps(d, d', 0, SB_END)
  {
    hide GroupOk, Distinct, Padded, SumFreeBlocks, SumFreeInodes, GroupsOk, AllSame, Stopped, Keeps;
    RoomBelow(d, s, room, n, fb, fi);
    StoppedKeeps(d, d', s, n, groups, target, 0, SB_END);
    KeepsSize(d, d', 0, SB_END);
    StoppedSame(d, d', s, room, n, groups, target);
    SameAccounted(d, d', s, room, n, FirstBlock(s, n), fb, fi);
  }

  // ---------- refused after the last group's bitmap was written ----------

  lemma ClearedKeeps(d: bytes, bs: nat, g: nat, from: nat, to: nat, lo: nat, len: nat)
    requires HasDesc(d, g) && BlockBitmap(d, g) * bs + bs <= |d| && from <= to && lo + len <= |d|
    requires lo + len <= BlockBitmap(d, g) * bs || BlockBitmap(d, g) * bs + bs <= lo
    ensures Keeps(d, ClearedGroup(d, bs, g, from, to), lo, len)
  {
    hide Splice, Keeps, WithBits, BlockBitmap;
    Unwritten(d, BlockBitmap(d, g) * bs, GrownBitmap(d, bs, g, from, to), lo, len);
  }

  lemma ClearedHolds(d: bytes, bs: nat, g: nat, from: nat, to: nat)
    requires HasDesc(d, g) && BlockBitmap(d, g) * bs + bs <= |d| && from <= to && bs > 0
    ensures var d' := ClearedGroup(d, bs, g, from, to);
            |d'| == |d| && Holds(d', BlockBitmap(d, g) * bs, GrownBitmap(d, bs, g, from, to))
  {
    hide Holds, WithBits, BlockBitmap;
    HoldsWritten(d, BlockBitmap(d, g) * bs, GrownBitmap(d, bs, g, from, to));
  }

  /** The last group then has more clear bits than its descriptor counts. */
  lemma ClearedLast(d: bytes, s: Sizes, room: nat, top: nat, n: nat, target: nat)
    requires GeoOk(s) && 0 < n <= room && GroupsOk(d, s, room, top, n) && Distinct(d, n)
    requires GroupOk(d, s, room, top, n - 1) && Padded(d, s, n - 1, top)
    requires FirstBlock(s, n - 1) < top < target <= FirstBlock(s, n)
    ensures var first := FirstBlock(s, n - 1);
            var d' := ClearedGroup(d, s.blockSize, n - 1, top - first, target - first);
            !GroupOk(d', s, room, top, n - 1) && OldGroup(d, d', s, top, n - 1)
  {
    hide BlockBitmap, InodeBitmap, InodeTable, FreeBlocks, FreeInodes, ClearBits, ClearedGroup, WithBits, Bit, Distinct;
    var bs, g, first := s.blockSize, n - 1, FirstBlock(s, n - 1);
    var from, to := top - first, target - first;
    OneMore(n - 1, s.blocksPerGroup);
    var d' := ClearedGroup(d, bs, g, from, to);
    var x, z := BlockBitmap(d, g) * bs, InodeBitmap(d, g) * bs;
    GrowMisses(d, s, room, top, n, g);
    ClearedHolds(d, bs, g, from, to);
    ClearedKeeps(d, bs, g, from, to, DescOff(g), DESC);
    ClearedKeeps(d, bs, g, from, to, z, bs);
    SameDesc(d, d', g);
    GrownCount(Block(d, bs, BlockBitmap(d, g)), from, to, s.blocksPerGroup);
    assert d'[x..x + bs] == GrownBitmap(d, bs, g, from, to);
    assert d'[z..z + bs] == d[z..z + bs];
  }

  lemma ClearedSame(d: bytes, s: Sizes, room: nat, top: nat, n: nat, from: nat, to: nat, g: nat)
    requires 0 < n <= room && s.blockSize > 0 && GroupsOk(d, s, room, top, n) && Distinct(d, n)
    requires from <= to && g < n - 1 && HasDesc(d, n - 1) && BlockBitmap(d, n - 1) * s.blockSize + s.blockSize <= |d|
    ensures OkSame(d, ClearedGroup(d, s.blockSize, n - 1, from, to), s, room, top, g)
  {
    hide Keeps, ClearedGroup, ClearBits, BlockBitmap, InodeBitmap, FreeBlocks, FreeInodes, Distinct;
    var bs := s.blockSize;
    assert GroupOk(d, s, room, top, g);
    GrowMisses(d, s, room, top, n, g);
    ClearedKeeps(d, bs, n - 1, from, to, DescOff(g), DESC);
    ClearedKeeps(d, bs, n - 1, from, to, BlockBitmap(d, g) * bs, bs);
    ClearedKeeps(d, bs, n - 1, from, to, InodeBitmap(d, g) * bs, bs);
  }

  /** Old groups keep their metadata and the bits of their old blocks. */
  lemma ClearedOld(d: bytes, s: Sizes, room: nat, n: nat, top: nat, target: nat, fb: nat, fi: nat)
    requires Accounted(d, s, room, n, top, fb, fi) && top < target <= FirstBlock(s, n)
    requires HasDesc(d, n - 1) && BlockBitmap(d, n - 1) * s.blockSize + s.blockSize <= |d|
    ensures var first := FirstBlock(s, n - 1);
            var d' := ClearedGroup(d, s.blockSize, n - 1, top - first, target - first);
            OldGroups(d, d', s, top, n) && !GroupOk(d', s, room, top, n - 1) && Keeps(d, d', 0, SB_END)
  {
    hide GroupOk, Distinct, Padded, SumFreeBlocks, SumFreeInodes, ClearedGroup, OkSame, OldGroup, Keeps, BlockBitmap;
    var first := FirstBlock(s, n - 1);
    var d' := ClearedGroup(d, s.blockSize, n - 1, top - first, target - first);
    ClearedLast(d, s, room, top, n, target);
    OkHasDesc(d, s, room, top, n - 1);
    ClearedKeeps(d, s.blockSize, n - 1, top - first, target - first, 0, SB_END);
    forall g | 0 <= g < n ensures OldGroup(d, d', s, top, g) {
      if g < n - 1 {
        assert GroupOk(d, s, room, top, g);
        OldGroupSelf(d, s, room, top, g);
        ClearedSame(d, s, room, top, n, top - first, target - first, g);
        OldGroupSame(d, d, d', s, room, top, top, g);
      }
    }
  }
}
