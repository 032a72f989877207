/**
 * The two structural changes of a grow, as functions on images, and why each
 * keeps bitmaps, descriptors and totals in agreement.
 */
module Ext4Accounting {
  import opened Bytes
  import opened Ext4Bitmap
  import opened Ext4Image
  import opened Ext4Layout
  import opened Ext4Write

  function TableBlocks(geo: Sizes): nat
    requires geo.blockSize > 0
  {
    geo.inodesPerGroup * geo.inodeSize / geo.blockSize
  }

  /** Blocks a group spends on its own metadata. */
  function MetaBlocks(geo: Sizes): nat
    requires geo.blockSize > 0
  {
    2 + TableBlocks(geo)
  }

  /** A new block bitmap: metadata and blocks past the end are in use. */
  function NewBitmap(bs: nat, meta: nat, present: nat, bpg: nat): (b: bytes)
    requires present <= bpg
    ensures |b| == bs
  {
    WithBits(WithBits(Zeros(bs), 0, meta, true), present, bpg, true)
  }

  lemma NewBitmapBits(bs: nat, meta: nat, present: nat, bpg: nat, i: nat)
    requires meta <= present <= bpg <= 8 * bs && i < bpg
    ensures Bit(NewBitmap(bs, meta, present, bpg), i) == (i < meta || present <= i)
  {
    var first := WithBits(Zeros(bs), 0, meta, true);
    WithBitsReads(first, present, bpg, true, i);
    WithBitsReads(Zeros(bs), 0, meta, true, i);
    ZeroBit(bs, i);
  }

  /** Of the first n bits, exactly those below used and those from present on are set. */
  ghost predicate InUse(bm: bytes, used: nat, present: nat, n: nat) {
    forall i :: 0 <= i < n ==> Bit(bm, i) == (i < used || present <= i)
  }

  lemma {:induction false} NewBitmapCount(bs: nat, meta: nat, present: nat, bpg: nat)
    requires meta <= present <= bpg <= 8 * bs
    ensures ClearBits(NewBitmap(bs, meta, present, bpg), bpg) == present - meta
    ensures InUse(NewBitmap(bs, meta, present, bpg), meta, present, bpg)
  {
    var bm := NewBitmap(bs, meta, present, bpg);
    forall i | 0 <= i < bpg ensures Bit(bm, i) == (i < meta || present <= i) {
      NewBitmapBits(bs, meta, present, bpg, i);
    }
    CountMiddle(bm, meta, present, bpg);
  }

  // ---------- adding a group ----------

  function BaseOf(geo: Sizes, g: nat): nat {
    g * geo.blocksPerGroup * geo.blockSize
  }

  /** The image with group g laid out, present of its blocks existing. */
  ghost function AddGroup(d: bytes, geo: Sizes, g: nat, present: nat): bytes
    requires Addable(geo, g, present)
  {
    var bs, meta, first := geo.blockSize, MetaBlocks(geo), g * geo.blocksPerGroup;
    AddBytes(d, BaseOf(geo, g), bs, TableBlocks(geo) * bs,
             NewBitmap(bs, meta, present, geo.blocksPerGroup),
             DescOff(g), NewDesc(first, first + 1, first + 2, present - meta, geo.inodesPerGroup))
  }

  /** Group g laid out but for its descriptor. */
  function PartGroup(d: bytes, geo: Sizes, g: nat, present: nat): bytes
    requires geo.blockSize > 0 && present <= geo.blocksPerGroup
  {
    var bs, base := geo.blockSize, BaseOf(geo, g);
    Splice(Two(d, base + bs, Zeros(bs), base + 2 * bs, Zeros(TableLen(geo))),
           base, NewBitmap(bs, MetaBlocks(geo), present, geo.blocksPerGroup))
  }

  lemma PartKeeps(d: bytes, geo: Sizes, g: nat, present: nat, lo: nat, len: nat)
    requires geo.blockSize > 0 && present <= geo.blocksPerGroup
    requires lo + len <= |d| && lo + len <= BaseOf(geo, g)
    ensures Keeps(d, PartGroup(d, geo, g, present), lo, len)
  {
    hide Splice, Keeps, NewBitmap;
    var bs, base := geo.blockSize, BaseOf(geo, g);
    var mid := Two(d, base + bs, Zeros(bs), base + 2 * bs, Zeros(TableLen(geo)));
    TwoKeep(d, base + bs, Zeros(bs), base + 2 * bs, Zeros(TableLen(geo)), lo, len);
    KeepsSize(d, mid, lo, len);
    Unwritten(mid, base, NewBitmap(bs, MetaBlocks(geo), present, geo.blocksPerGroup), lo, len);
    KeepsTrans(d, mid, PartGroup(d, geo, g, present), lo, len);
  }

  lemma KeepsSize(d: bytes, d': bytes, lo: nat, len: nat)
    requires Keeps(d, d', lo, len)
    ensures lo + len <= |d| <= |d'|
  {
  }

  /** The sizes of a group that can be added. */
  ghost predicate Addable(geo: Sizes, g: nat, present: nat) {
    && GeoOk(geo)
    && MetaBlocks(geo) <= present <= geo.blocksPerGroup
    && present - MetaBlocks(geo) < POW16 && geo.inodesPerGroup < POW16
    && g * geo.blocksPerGroup + present < POW32
  }

  /** Free blocks an added group brings. */
  ghost function Gain(geo: Sizes, g: nat, present: nat): nat
    requires Addable(geo, g, present)
  {
    present - MetaBlocks(geo)
  }

  /** Byte length of a group's inode table. */
  function TableLen(geo: Sizes): nat
    requires geo.blockSize > 0
  {
    TableBlocks(geo) * geo.blockSize
  }

  /** The four regions of group g as AddGroup writes them. */
  ghost predicate Laid(d: bytes, geo: Sizes, g: nat, present: nat) {
    && Addable(geo, g, present)
    && var bs, meta, first := geo.blockSize, MetaBlocks(geo), FirstBlock(geo, g);
       && Holds(d, BaseOf(geo, g), NewBitmap(bs, meta, present, geo.blocksPerGroup))
       && Holds(d, BaseOf(geo, g) + bs, Zeros(bs))
       && Holds(d, BaseOf(geo, g) + 2 * bs, Zeros(TableLen(geo)))
       && Holds(d, DescOff(g), NewDesc(first, first + 1, first + 2, present - meta, geo.inodesPerGroup))
  }

  /** Byte length of a group's metadata. */
  function MetaLen(geo: Sizes): nat
    requires geo.blockSize > 0
  {
    2 * geo.blockSize + TableBlocks(geo) * geo.blockSize
  }

  lemma AddLays(d: bytes, geo: Sizes, g: nat, present: nat)
    requires Addable(geo, g, present) && DescOff(g) + DESC <= BaseOf(geo, g)
    ensures Laid(AddGroup(d, geo, g, present), geo, g, present)
  {
    hide Splice, Holds, NewDesc, NewBitmap, AddBytes, GeoOk;
    var bs, meta, first := geo.blockSize, MetaBlocks(geo), g * geo.blocksPerGroup;
    var bm := NewBitmap(bs, meta, present, geo.blocksPerGroup);
    var desc := NewDesc(first, first + 1, first + 2, present - meta, geo.inodesPerGroup);
    var table := TableBlocks(geo) * bs;
    assert bs > 0 by {
      GeoPositive(geo);
    }
    AddHoldsInodes(d, BaseOf(geo, g), bs, table, bm, DescOff(g), desc);
    AddHoldsTable(d, BaseOf(geo, g), bs, table, bm, DescOff(g), desc);
    AddHoldsBitmap(d, BaseOf(geo, g), bs, table, bm, DescOff(g), desc);
  }

  lemma GeoPositive(geo: Sizes)
    requires GeoOk(geo)
    ensures geo.blockSize > 0 && geo.blocksPerGroup > 0
  {
  }

  /** Adding group g keeps every range below its metadata, other than its descriptor. */
  lemma AddKeeps(d: bytes, geo: Sizes, g: nat, present: nat, lo: nat, len: nat)
    requires Addable(geo, g, present) && lo + len <= |d|
    requires lo + len <= BaseOf(geo, g) || BaseOf(geo, g) + MetaLen(geo) <= lo
    requires lo + len <= DescOff(g) || DescOff(g) + DESC <= lo
    ensures Keeps(d, AddGroup(d, geo, g, present), lo, len)
  {
    hide Splice, Keeps, NewDesc, NewBitmap, AddBytes;
    var bs, meta, first := geo.blockSize, MetaBlocks(geo), g * geo.blocksPerGroup;
    var bm := NewBitmap(bs, meta, present, geo.blocksPerGroup);
    var desc := NewDesc(first, first + 1, first + 2, present - meta, geo.inodesPerGroup);
    AddBytesKeep(d, BaseOf(geo, g), bs, TableBlocks(geo) * bs, bm, DescOff(g), desc, lo, len);
  }

  // ---------- groups a change leaves alone ----------

  ghost predicate AllSame(d: bytes, d': bytes, geo: Sizes, room: nat, top: nat, n: nat) {
    && GroupsOk(d, geo, room, top, n)
    && forall g {:trigger OkSame(d, d', geo, room, top, g)} :: 0 <= g < n ==> OkSame(d, d', geo, room, top, g)
  }

  ghost predicate OkSame(d: bytes, d': bytes, geo: Sizes, room: nat, top: nat, g: nat) {
    GroupOk(d, geo, room, top, g) && SameGroup(d, d', geo.blockSize, g)
  }

  lemma KeptOne(d: bytes, d': bytes, geo: Sizes, room: nat, top: nat, top': nat, n: nat, g: nat)
    requires AllSame(d, d', geo, room, top, n) && top <= top' && g < n
    ensures GroupOk(d, geo, room, top, g) && GroupOk(d', geo, room, top', g)
    ensures BlockBitmap(d', g) == BlockBitmap(d, g) && InodeBitmap(d', g) == InodeBitmap(d, g)
    ensures FreeBlocks(d', g) == FreeBlocks(d, g) && FreeInodes(d', g) == FreeInodes(d, g)
  {
    assert OkSame(d, d', geo, room, top, g);
    SameGroupOk(d, d', geo, room, top, top', g);
  }

  lemma {:induction false} KeptGroups(d: bytes, d': bytes, geo: Sizes, room: nat, top: nat, top': nat, n: nat)
    requires AllSame(d, d', geo, room, top, n) && top <= top' && Distinct(d, n)
    ensures GroupsOk(d', geo, room, top', n) && Distinct(d', n)
    ensures SumFreeBlocks(d', n) == SumFreeBlocks(d, n) && SumFreeInodes(d', n) == SumFreeInodes(d, n)
  {
    hide GroupOk, AllSame, BlockBitmap, InodeBitmap, FreeBlocks, FreeInodes;
    forall g | 0 <= g < n
      ensures GroupOk(d', geo, room, top', g) && HasDesc(d, g) && HasDesc(d', g)
      ensures FreeBlocks(d', g) == FreeBlocks(d, g) && FreeInodes(d', g) == FreeInodes(d, g)
      ensures BlockBitmap(d', g) == BlockBitmap(d, g) && InodeBitmap(d', g) == InodeBitmap(d, g)
    {
      KeptOne(d, d', geo, room, top, top', n, g);
      OkHasDesc(d, geo, room, top, g);
      OkHasDesc(d', geo, room, top', g);
    }
    forall g, h | 0 <= g < n && 0 <= h < n ensures Apart(d', g, h) {
      assert Apart(d, g, h);
    }
    SameSums(d, d', n);
  }

  lemma OkHasDesc(d: bytes, geo: Sizes, room: nat, top: nat, g: nat)
    requires GroupOk(d, geo, room, top, g)
    ensures g < room && HasDesc(d, g)
    ensures MetaBlock(d, geo.blockSize, room, top, BlockBitmap(d, g))
    ensures MetaBlock(d, geo.blockSize, room, top, InodeBitmap(d, g))
  {
  }

  // ---------- adding a group keeps the accounts ----------

  /** Everything that exists lies below the next group's first byte, past the descriptor table. */
  lemma BaseAbove(d: bytes, geo: Sizes, room: nat, top: nat, g: nat, k: nat)
    requires geo.blockSize > 0 && GroupOk(d, geo, room, top, g) && top <= k * geo.blocksPerGroup
    ensures DescOff(room) <= BlockBitmap(d, g) * geo.blockSize && DescOff(room) <= InodeBitmap(d, g) * geo.blockSize
    ensures BlockBitmap(d, g) * geo.blockSize + geo.blockSize <= BaseOf(geo, k)
    ensures InodeBitmap(d, g) * geo.blockSize + geo.blockSize <= BaseOf(geo, k)
  {
    BlocksApart(BlockBitmap(d, g), k * geo.blocksPerGroup, geo.blockSize);
    BlocksApart(InodeBitmap(d, g), k * geo.blocksPerGroup, geo.blockSize);
  }

  lemma AddKeepsGroup(d: bytes, geo: Sizes, room: nat, top: nat, k: nat, present: nat, g: nat)
    requires Addable(geo, k, present) && k < room && top <= k * geo.blocksPerGroup
    requires g < k && GroupOk(d, geo, room, top, g)
    ensures SameGroup(d, AddGroup(d, geo, k, present), geo.blockSize, g)
  {
    hide Keeps, AddGroup, ClearBits, BlockBitmap, InodeBitmap, FreeBlocks, FreeInodes;
    BaseAbove(d, geo, room, top, g, k);
    var x, y := BlockBitmap(d, g) * geo.blockSize, InodeBitmap(d, g) * geo.blockSize;
    AddKeeps(d, geo, k, present, DescOff(g), DESC);
    AddKeeps(d, geo, k, present, x, geo.blockSize);
    AddKeeps(d, geo, k, present, y, geo.blockSize);
  }

  lemma AddKeepsAll(d: bytes, geo: Sizes, room: nat, top: nat, k: nat, present: nat)
    requires Addable(geo, k, present) && k < room && top <= k * geo.blocksPerGroup
    requires GroupsOk(d, geo, room, top, k)
    ensures AllSame(d, AddGroup(d, geo, k, present), geo, room, top, k)
  {
    hide AddGroup, GroupOk, SameGroup;
    forall g | 0 <= g < k ensures GroupOk(d, geo, room, top, g) && OkSame(d, AddGroup(d, geo, k, present), geo, room, top, g) {
      assert GroupOk(d, geo, room, top, g);
      OkHasDesc(d, geo, room, top, g);
      AddKeepsGroup(d, geo, room, top, k, present, g);
    }
  }

  /** n whole blocks of inode table: as many as the group's inodes fill. */
  ghost predicate TableFills(geo: Sizes, n: nat) {
    n * geo.blockSize <= geo.inodesPerGroup * geo.inodeSize < n * geo.blockSize + geo.blockSize
  }

  lemma TableIsFilled(geo: Sizes)
    requires geo.blockSize > 0
    ensures TableFills(geo, MetaBlocks(geo) - 2)
  {
    var all, bs := geo.inodesPerGroup * geo.inodeSize, geo.blockSize;
    assert all == bs * (all / bs) + all % bs;
  }

  /** A laid-out group: where its metadata is, and which of its bits are set. */
  ghost predicate FreshGroup(d: bytes, geo: Sizes, g: nat, present: nat) {
    var bs, first := geo.blockSize, g * geo.blocksPerGroup;
    && bs > 0 && HasDesc(d, g) && BaseOf(geo, g) + MetaLen(geo) <= |d|
    && MetaBlocks(geo) <= present <= geo.blocksPerGroup && TableFills(geo, MetaBlocks(geo) - 2)
    // bitmaps and inode table stand one after the other at the start of the group
    && BlockBitmap(d, g) == first && InodeBitmap(d, g) == first + 1 && InodeTable(d, g) == first + 2
    // in use: exactly the metadata, and what lies past the end
    && InUse(d[BaseOf(geo, g)..BaseOf(geo, g) + bs], MetaBlocks(geo), present, geo.blocksPerGroup)
    && FreeBlocks(d, g) == present - MetaBlocks(geo)
    // every inode is free, every table entry blank
    && d[BaseOf(geo, g) + bs..BaseOf(geo, g) + MetaLen(geo)] == Zeros(MetaLen(geo) - bs)
    && FreeInodes(d, g) == geo.inodesPerGroup && NeverUsed(d, g, geo.inodesPerGroup)
  }

  lemma LaidIsFresh(d: bytes, geo: Sizes, g: nat, present: nat)
    requires Laid(d, geo, g, present)
    ensures FreshGroup(d, geo, g, present)
    ensures ClearBits(d[BaseOf(geo, g)..BaseOf(geo, g) + geo.blockSize], geo.blocksPerGroup) == present - MetaBlocks(geo)
    ensures d[BaseOf(geo, g) + geo.blockSize..BaseOf(geo, g) + 2 * geo.blockSize] == Zeros(geo.blockSize)
  {
    hide NewBitmap, ClearBits, Bit, NewDesc, BlockBitmap, InodeBitmap, InodeTable, FreeBlocks, FreeInodes, NeverUsed, TableFills;
    TableIsFilled(geo);
    var bs, meta, first, base := geo.blockSize, MetaBlocks(geo), g * geo.blocksPerGroup, BaseOf(geo, g);
    var table := TableBlocks(geo) * bs;
    NewDescFields(d, g, first, first + 1, first + 2, present - meta, geo.inodesPerGroup);
    assert d[base..base + bs] == NewBitmap(bs, meta, present, geo.blocksPerGroup);
    NewBitmapCount(bs, meta, present, geo.blocksPerGroup);
    JoinZeros(d, base + bs, bs, table);
  }

  lemma JoinZeros(d: bytes, lo: nat, a: nat, b: nat)
    requires Holds(d, lo, Zeros(a)) && Holds(d, lo + a, Zeros(b))
    ensures d[lo..lo + a + b] == Zeros(a + b)
  {
    assert d[lo..lo + a + b] == d[lo..lo + a] + d[lo + a..lo + a + b];
  }

  /** The new group is accounted for. */
  lemma LaidOk(d: bytes, geo: Sizes, room: nat, g: nat, present: nat)
    requires Laid(d, geo, g, present) && g < room && DescOff(room) <= BaseOf(geo, g)
    ensures GroupOk(d, geo, room, g * geo.blocksPerGroup + present, g)
    ensures BlockBitmap(d, g) == g * geo.blocksPerGroup && InodeBitmap(d, g) == g * geo.blocksPerGroup + 1
    ensures FreeBlocks(d, g) == present - MetaBlocks(geo) && FreeInodes(d, g) == geo.inodesPerGroup
    ensures Padded(d, geo, g, g * geo.blocksPerGroup + present)
  {
    hide Laid, ClearBits, Bit, NewDesc, BlockBitmap, InodeBitmap, FreeBlocks, FreeInodes;
    LaidIsFresh(d, geo, g, present);
    var bs, first := geo.blockSize, g * geo.blocksPerGroup;
    assert (first + 1) * bs == first * bs + bs;
    ZerosClear(bs, geo.inodesPerGroup);
  }

  lemma AddDistinct(d: bytes, geo: Sizes, room: nat, top: nat, k: nat)
    requires GroupsOk(d, geo, room, top, k) && Distinct(d, k) && top <= k * geo.blocksPerGroup
    requires HasDesc(d, k) && BlockBitmap(d, k) == k * geo.blocksPerGroup && InodeBitmap(d, k) == k * geo.blocksPerGroup + 1
    ensures Distinct(d, k + 1)
  {
    hide GroupOk, BlockBitmap, InodeBitmap;
    forall g | 0 <= g < k ensures HasDesc(d, g) && BlockBitmap(d, g) < top && InodeBitmap(d, g) < top {
      assert GroupOk(d, geo, room, top, g);
      OkHasDesc(d, geo, room, top, g);
    }
    forall g, h | 0 <= g < k + 1 && 0 <= h < k + 1 ensures Apart(d, g, h) {
      if g < k && h < k {
        assert Apart(d, g, h);
      }
    }
  }

  /** After a group is added: the groups, one by one. */
  lemma AddGroups(d: bytes, geo: Sizes, room: nat, k: nat, present: nat)
    requires Addable(geo, k, present) && 0 < k < room
    requires var top := k * geo.blocksPerGroup;
             GroupsOk(d, geo, room, top, k) && Distinct(d, k) && GroupOk(d, geo, room, top, k - 1)
    ensures var d' := AddGroup(d, geo, k, present);
            var top' := k * geo.blocksPerGroup + present;
            && Laid(d', geo, k, present)
            && GroupsOk(d', geo, room, top', k + 1) && Distinct(d', k + 1)
            && GroupOk(d', geo, room, top', k) && Padded(d', geo, k, top')
  {
    hide AddGroup, GroupOk, Distinct, Padded, Laid, AllSame, GroupsOk, BlockBitmap, InodeBitmap, SumFreeBlocks, SumFreeInodes;
    var d' := AddGroup(d, geo, k, present);
    var top, top' := k * geo.blocksPerGroup, k * geo.blocksPerGroup + present;
    BaseAbove(d, geo, room, top, k - 1, k);
    AddLays(d, geo, k, present);
    LaidOk(d', geo, room, k, present);
    AddKeepsAll(d, geo, room, top, k, present);
    KeptGroups(d, d', geo, room, top, top', k);
    KeptGroups(d, d', geo, room, top, top, k);
    GroupsSnoc(d', geo, room, top', k);
    OkHasDesc(d', geo, room, top', k);
    AddDistinct(d', geo, room, top, k);
  }

  lemma AddSums(d: bytes, geo: Sizes, room: nat, k: nat, present: nat)
    requires Addable(geo, k, present) && 0 < k < room
    requires var top := k * geo.blocksPerGroup;
             GroupsOk(d, geo, room, top, k) && Distinct(d, k) && GroupOk(d, geo, room, top, k - 1)
    ensures var d' := AddGroup(d, geo, k, present);
            && SumFreeBlocks(d', k + 1) == SumFreeBlocks(d, k) + Gain(geo, k, present)
            && SumFreeInodes(d', k + 1) == SumFreeInodes(d, k) + geo.inodesPerGroup
  {
    hide AddGroup, GroupOk, Distinct, Padded, Laid, AllSame, GroupsOk, SumFreeBlocks, SumFreeInodes, BlockBitmap, InodeBitmap;
    var d' := AddGroup(d, geo, k, present);
    var top, top' := k * geo.blocksPerGroup, k * geo.blocksPerGroup + present;
    BaseAbove(d, geo, room, top, k - 1, k);
    AddLays(d, geo, k, present);
    LaidOk(d', geo, room, k, present);
    OkHasDesc(d', geo, room, top', k);
    AddKeepsAll(d, geo, room, top, k, present);
    KeptGroups(d, d', geo, room, top, top', k);
    SumSnoc(d', k);
  }

  /** Adding a group adds its free blocks and inodes to the totals and breaks no account. */
  lemma AddAccounted(d: bytes, d': bytes, geo: Sizes, room: nat, k: nat, present: nat, fb: nat, fi: nat, fb': nat)
    requires Addable(geo, k, present) && k < room
    requires d' == AddGroup(d, geo, k, present) && fb' == fb + Gain(geo, k, present)
    requires Accounted(d, geo, room, k, FirstBlock(geo, k), fb, fi)
    ensures Laid(d', geo, k, present)
    ensures Accounted(d', geo, room, k + 1, FirstBlock(geo, k) + present, fb', fi + geo.inodesPerGroup)
  {
    hide AddGroup, GroupOk, Distinct, Padded, Laid, SumFreeBlocks, SumFreeInodes, GroupsOk;
    AddGroups(d, geo, room, k, present);
    AddSums(d, geo, room, k, present);
    AddGrows(d, geo, k, present);
    assert (k + 1) * geo.blocksPerGroup == k * geo.blocksPerGroup + geo.blocksPerGroup;
  }

  lemma AddGrows(d: bytes, geo: Sizes, k: nat, present: nat)
    requires Addable(geo, k, present)
    ensures |d| <= |AddGroup(d, geo, k, present)|
  {
  }

  lemma GroupsSnoc(d: bytes, geo: Sizes, room: nat, top: nat, k: nat)
    requires GroupsOk(d, geo, room, top, k) && GroupOk(d, geo, room, top, k)
    ensures GroupsOk(d, geo, room, top, k + 1)
  {
    hide GroupOk;
  }

  lemma SumSnoc(d: bytes, k: nat)
    requires HasDesc(d, k)
    ensures SumFreeBlocks(d, k + 1) == SumFreeBlocks(d, k) + FreeBlocks(d, k)
    ensures SumFreeInodes(d, k + 1) == SumFreeInodes(d, k) + FreeInodes(d, k)
  {
  }

  // ---------- growing the last group ----------

  /** The last group's bitmap with the bits of the added blocks cleared. */
  function GrownBitmap(d: bytes, bs: nat, g: nat, from: nat, to: nat): (b: bytes)
    requires HasDesc(d, g) && BlockBitmap(d, g) * bs + bs <= |d| && from <= to
    ensures |b| == bs
  {
    WithBits(Block(d, bs, BlockBitmap(d, g)), from, to, false)
  }

  /** The image with that bitmap written and the descriptor not yet. */
  function ClearedGroup(d: bytes, bs: nat, g: nat, from: nat, to: nat): bytes
    requires HasDesc(d, g) && BlockBitmap(d, g) * bs + bs <= |d| && from <= to
  {
    Splice(d, BlockBitmap(d, g) * bs, GrownBitmap(d, bs, g, from, to))
  }

  /** The image with group g grown from its first from blocks to its first to blocks. */
  function GrowGroup(d: bytes, bs: nat, g: nat, from: nat, to: nat): bytes
    requires HasDesc(d, g) && BlockBitmap(d, g) * bs + bs <= |d| && from <= to
  {
    Two(d, BlockBitmap(d, g) * bs, GrownBitmap(d, bs, g, from, to),
        DescOff(g), WithFree(d[DescOff(g)..DescOff(g) + DESC], FreeBlocks(d, g) + (to - from)))
  }

  lemma GrowKeeps(d: bytes, bs: nat, g: nat, from: nat, to: nat, lo: nat, len: nat)
    requires HasDesc(d, g) && BlockBitmap(d, g) * bs + bs <= |d| && from <= to
    requires lo + len <= |d|
    requires lo + len <= BlockBitmap(d, g) * bs || BlockBitmap(d, g) * bs + bs <= lo
    requires lo + len <= DescOff(g) || DescOff(g) + DESC <= lo
    ensures Keeps(d, GrowGroup(d, bs, g, from, to), lo, len)
  {
    hide Splice, Keeps, WithBits, WithFree, Two;
    TwoKeep(d, BlockBitmap(d, g) * bs, GrownBitmap(d, bs, g, from, to),
            DescOff(g), WithFree(d[DescOff(g)..DescOff(g) + DESC], FreeBlocks(d, g) + (to - from)), lo, len);
  }

  lemma GrowHolds(d: bytes, bs: nat, g: nat, from: nat, to: nat)
    requires HasDesc(d, g) && BlockBitmap(d, g) * bs + bs <= |d| && from <= to && bs > 0
    requires DescOff(g) + DESC <= BlockBitmap(d, g) * bs
    ensures var d' := GrowGroup(d, bs, g, from, to);
            && |d'| == |d|
            && Holds(d', BlockBitmap(d, g) * bs, GrownBitmap(d, bs, g, from, to))
            && Holds(d', DescOff(g), WithFree(d[DescOff(g)..DescOff(g) + DESC], FreeBlocks(d, g) + (to - from)))
  {
    hide Holds, WithBits, WithFree;
    var x := BlockBitmap(d, g) * bs;
    var bm := GrownBitmap(d, bs, g, from, to);
    var desc := WithFree(d[DescOff(g)..DescOff(g) + DESC], FreeBlocks(d, g) + (to - from));
    HoldsWritten(d, x, bm);
    HoldsStill(Splice(d, x, bm), x, bm, DescOff(g), desc);
    HoldsWritten(Splice(d, x, bm), DescOff(g), desc);
  }

  /** Clearing the bits of the added blocks raises the count by their number. */
  lemma {:induction false} GrownCount(bm: bytes, from: nat, to: nat, n: nat)
    requires from <= to <= n <= 8 * |bm|
    requires forall i :: from <= i < n ==> Bit(bm, i)
    ensures var b := WithBits(bm, from, to, false);
            && ClearBits(b, n) == ClearBits(bm, n) + (to - from)
            && (forall i :: to <= i < n ==> Bit(b, i))
            && SameBits(bm, b, 0, from)
  {
    hide Bit, WithBits;
    var b := WithBits(bm, from, to, false);
    forall i | 0 <= i < n ensures Bit(b, i) == if from <= i < to then false else Bit(bm, i) {
      WithBitsReads(bm, from, to, false, i);
    }
    FreeRun(bm, b, from, to, n);
  }

  /** Room for the last group's bitmap, apart from every other bitmap and descriptor. */
  lemma GrowMisses(d: bytes, geo: Sizes, room: nat, top: nat, n: nat, g: nat)
    requires 0 < n <= room && g < n && geo.blockSize > 0 && GroupsOk(d, geo, room, top, n) && Distinct(d, n)
    ensures HasDesc(d, g) && HasDesc(d, n - 1)
    ensures var bs := geo.blockSize;
            var x, y, z := BlockBitmap(d, n - 1) * bs, BlockBitmap(d, g) * bs, InodeBitmap(d, g) * bs;
            && DescOff(room) <= x && DescOff(room) <= y && DescOff(room) <= z
            && x + bs <= |d| && y + bs <= |d| && z + bs <= |d|
            && (g < n - 1 ==> x + bs <= y || y + bs <= x)
            && (x + bs <= z || z + bs <= x)
  {
    hide BlockBitmap, InodeBitmap, FreeBlocks, FreeInodes, ClearBits;
    assert GroupOk(d, geo, room, top, g) && GroupOk(d, geo, room, top, n - 1);
    assert Apart(d, n - 1, g);
    var bs := geo.blockSize;
    var i, j, k := BlockBitmap(d, n - 1), BlockBitmap(d, g), InodeBitmap(d, g);
    if i < k {
      BlocksApart(i, k, bs);
    } else {
      BlocksApart(k, i, bs);
    }
    if g < n - 1 {
      if i < j {
        BlocksApart(i, j, bs);
      } else {
        BlocksApart(j, i, bs);
      }
    }
  }

  lemma GrowKeepsGroup(d: bytes, geo: Sizes, room: nat, top: nat, n: nat, from: nat, to: nat, g: nat)
    requires 0 < n <= room && geo.blockSize > 0 && GroupsOk(d, geo, room, top, n) && Distinct(d, n)
    requires from <= to && g < n - 1 && HasDesc(d, n - 1)
    requires BlockBitmap(d, n - 1) * geo.blockSize + geo.blockSize <= |d|
    ensures OkSame(d, GrowGroup(d, geo.blockSize, n - 1, from, to), geo, room, top, g)
  {
    hide Keeps, GrowGroup, ClearBits, BlockBitmap, InodeBitmap, FreeBlocks, FreeInodes, Distinct;
    var bs := geo.blockSize;
    assert GroupOk(d, geo, room, top, g);
    GrowMisses(d, geo, room, top, n, g);
    var y, z := BlockBitmap(d, g) * bs, InodeBitmap(d, g) * bs;
    GrowKeeps(d, bs, n - 1, from, to, DescOff(g), DESC);
    GrowKeeps(d, bs, n - 1, from, to, y, bs);
    GrowKeeps(d, bs, n - 1, from, to, z, bs);
  }

  lemma GrowKeepsAll(d: bytes, geo: Sizes, room: nat, top: nat, n: nat, from: nat, to: nat)
    requires 0 < n <= room && geo.blockSize > 0 && GroupsOk(d, geo, room, top, n) && Distinct(d, n)
    requires from <= to && HasDesc(d, n - 1) && BlockBitmap(d, n - 1) * geo.blockSize + geo.blockSize <= |d|
    ensures AllSame(d, GrowGroup(d, geo.blockSize, n - 1, from, to), geo, room, top, n - 1)
  {
    hide GrowGroup, GroupOk, SameGroup, Distinct;
    var d' := GrowGroup(d, geo.blockSize, n - 1, from, to);
    forall g | 0 <= g < n - 1 ensures OkSame(d, d', geo, room, top, g) {
      GrowKeepsGroup(d, geo, room, top, n, from, to, g);
    }
    assert GroupsOk(d, geo, room, top, n - 1);
  }

  /** The last group after growing: its counts rise together. */
  lemma GrowLast(d: bytes, geo: Sizes, room: nat, top: nat, n: nat, target: nat)
    requires GeoOk(geo) && 0 < n <= room && GroupsOk(d, geo, room, top, n) && Distinct(d, n)
    requires GroupOk(d, geo, room, top, n - 1) && Padded(d, geo, n - 1, top)
    requires (n - 1) * geo.blocksPerGroup < top <= target <= n * geo.blocksPerGroup
    requires FreeBlocks(d, n - 1) + (target - top) < POW16
    ensures var first := (n - 1) * geo.blocksPerGroup;
            var d' := GrowGroup(d, geo.blockSize, n - 1, top - first, target - first);
            && GroupOk(d', geo, room, target, n - 1) && Padded(d', geo, n - 1, target)
            && BlockBitmap(d', n - 1) == BlockBitmap(d, n - 1) && InodeBitmap(d', n - 1) == InodeBitmap(d, n - 1)
            && FreeBlocks(d', n - 1) == FreeBlocks(d, n - 1) + (target - top)
            && FreeInodes(d', n - 1) == FreeInodes(d, n - 1) && InodeTable(d', n - 1) == InodeTable(d, n - 1)
            && |d'| == |d|
            && SameBits(Block(d, geo.blockSize, BlockBitmap(d, n - 1)), Block(d', geo.blockSize, BlockBitmap(d, n - 1)), 0, top - first)
            && Block(d', geo.blockSize, InodeBitmap(d, n - 1)) == Block(d, geo.blockSize, InodeBitmap(d, n - 1))
  {
    hide BlockBitmap, InodeBitmap, InodeTable, FreeBlocks, FreeInodes, ClearBits, WithFree, GrowGroup, WithBits, Bit, Distinct;
    var bs, g, first := geo.blockSize, n - 1, (n - 1) * geo.blocksPerGroup;
    var from, to := top - first, target - first;
    assert n * geo.blocksPerGroup == first + geo.blocksPerGroup;
    var d' := GrowGroup(d, bs, g, from, to);
    var x, z := BlockBitmap(d, g) * bs, InodeBitmap(d, g) * bs;
    GrowMisses(d, geo, room, top, n, g);
    GrowHolds(d, bs, g, from, to);
    WithFreeFields(d, d', g, FreeBlocks(d, g) + (to - from));
    GrowKeeps(d, bs, g, from, to, z, bs);
    GrownCount(Block(d, bs, BlockBitmap(d, g)), from, to, geo.blocksPerGroup);
    assert d'[x..x + bs] == GrownBitmap(d, bs, g, from, to);
    assert d'[z..z + bs] == d[z..z + bs];
  }

  lemma GrowDistinct(d: bytes, d': bytes, geo: Sizes, room: nat, top: nat, n: nat)
    requires n > 0 && AllSame(d, d', geo, room, top, n - 1) && Distinct(d, n)
    requires HasDesc(d, n - 1) && HasDesc(d', n - 1)
    requires BlockBitmap(d', n - 1) == BlockBitmap(d, n - 1) && InodeBitmap(d', n - 1) == InodeBitmap(d, n - 1)
    ensures Distinct(d', n)
  {
    hide GroupOk, AllSame, BlockBitmap, InodeBitmap, FreeBlocks, FreeInodes;
    forall g | 0 <= g < n
      ensures HasDesc(d, g) && HasDesc(d', g)
      ensures BlockBitmap(d', g) == BlockBitmap(d, g) && InodeBitmap(d', g) == InodeBitmap(d, g)
    {
      if g < n - 1 {
        KeptOne(d, d', geo, room, top, top, n - 1, g);
        OkHasDesc(d, geo, room, top, g);
        OkHasDesc(d', geo, room, top, g);
      }
    }
    forall g, h | 0 <= g < n && 0 <= h < n ensures Apart(d', g, h) {
      assert Apart(d, g, h);
    }
  }

  /** Growing the last group moves the end and the free total by the same amount and breaks no account. */
  lemma GrowAccounted(d: bytes, geo: Sizes, room: nat, n: nat, top: nat, target: nat, fb: nat, fi: nat)
    requires Accounted(d, geo, room, n, top, fb, fi)
    requires top <= target <= n * geo.blocksPerGroup
    requires HasDesc(d, n - 1) && FreeBlocks(d, n - 1) + (target - top) < POW16
    ensures BlockBitmap(d, n - 1) * geo.blockSize + geo.blockSize <= |d|
    ensures var first := (n - 1) * geo.blocksPerGroup;
            Accounted(GrowGroup(d, geo.blockSize, n - 1, top - first, target - first), geo, room, n, target, fb + (target - top), fi)
  {
    hide GroupOk, Distinct, Padded, SumFreeBlocks, SumFreeInodes, GroupsOk, GrowGroup, AllSame,
         BlockBitmap, InodeBitmap, FreeBlocks, FreeInodes;
    OkHasDesc(d, geo, room, top, n - 1);
    var first := (n - 1) * geo.blocksPerGroup;
    var d' := GrowGroup(d, geo.blockSize, n - 1, top - first, target - first);
    GrowLast(d, geo, room, top, n, target);
    OkHasDesc(d', geo, room, target, n - 1);
    GrowKeepsAll(d, geo, room, top, n, top - first, target - first);
    GrowDistinct(d, d', geo, room, top, n);
    DistinctPrefix(d, n);
    KeptGroups(d, d', geo, room, top, target, n - 1);
    GroupsSnoc(d', geo, room, target, n - 1);
    SumSnoc(d, n - 1);
    SumSnoc(d', n - 1);
    GrowSize(d, geo, room, top, n, top - first, target - first);
  }

  lemma GrowSize(d: bytes, geo: Sizes, room: nat, top: nat, n: nat, from: nat, to: nat)
    requires 0 < n <= room && geo.blockSize > 0 && GroupOk(d, geo, room, top, n - 1) && from <= to
    ensures |GrowGroup(d, geo.blockSize, n - 1, from, to)| == |d|
  {
    hide BlockBitmap, FreeBlocks, WithBits, WithFree, ClearBits, Holds;
    GrowHolds(d, geo.blockSize, n - 1, from, to);
  }

  lemma DistinctPrefix(d: bytes, n: nat)
    requires n > 0 && Distinct(d, n)
    ensures Distinct(d, n - 1)
  {
  }
}
