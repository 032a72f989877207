/**
 * The on-disk bookkeeping of an ext4 image: superblock counters, group
 * descriptors and allocation bitmaps, and what it means for them to agree.
 */
module Ext4Layout {
  import opened Prelude
  import opened Bytes
  import opened Ext4Bitmap
  import opened Ext4Image

  const SB_INODES := 1024
  const SB_BLOCKS := 1028
  const SB_FREE_BLOCKS := 1036
  const SB_FREE_INODES := 1040
  const SB_LOG_BLOCK_SIZE := 1048
  const SB_BLOCKS_PER_GROUP := 1056
  const SB_INODES_PER_GROUP := 1064
  const SB_INODE_SIZE := 1112
  const SB_END := 1114
  const GDT := 4096
  const DESC := 32

  /** The sizes fixed when the file system was made. */
  datatype Sizes = Sizes(blockSize: nat, blocksPerGroup: nat, inodesPerGroup: nat, inodeSize: nat)

  datatype Geometry = Geometry(sizes: Sizes, blocksCount: nat, freeBlocks: nat, inodesCount: nat, freeInodes: nat)

  /** The superblock fields; the block size is a 32-bit shift, so a large exponent gives 0. */
  function GeometryOf(d: bytes): Geometry
    requires SB_END <= |d|
  {
    Geometry(
      Sizes((1024 * Pow2(U32At(d, SB_LOG_BLOCK_SIZE))) % POW32,
            U32At(d, SB_BLOCKS_PER_GROUP), U32At(d, SB_INODES_PER_GROUP), U16At(d, SB_INODE_SIZE)),
      U32At(d, SB_BLOCKS), U32At(d, SB_FREE_BLOCKS), U32At(d, SB_INODES), U32At(d, SB_FREE_INODES))
  }

  function DescOff(g: nat): nat {
    GDT + DESC * g
  }

  ghost predicate HasDesc(d: bytes, g: nat) {
    DescOff(g) + DESC <= |d|
  }

  function BlockBitmap(d: bytes, g: nat): nat
    requires HasDesc(d, g)
  {
    U32At(d, DescOff(g))
  }

  function InodeBitmap(d: bytes, g: nat): nat
    requires HasDesc(d, g)
  {
    U32At(d, DescOff(g) + 4)
  }

  function InodeTable(d: bytes, g: nat): nat
    requires HasDesc(d, g)
  {
    U32At(d, DescOff(g) + 8)
  }

  function FreeBlocks(d: bytes, g: nat): nat
    requires HasDesc(d, g)
  {
    U16At(d, DescOff(g) + 12)
  }

  function FreeInodes(d: bytes, g: nat): nat
    requires HasDesc(d, g)
  {
    U16At(d, DescOff(g) + 14)
  }

  /** Where ext4 keeps these fields: the superblock at byte 1024, 32-byte descriptors from byte 4096. */
  lemma OnDisk(d: bytes, g: nat)
    requires 4096 + 32 * g + 32 <= |d|
    ensures HasDesc(d, g) && SB_END <= |d|
    ensures var geo := GeometryOf(d);
            && geo.inodesCount == LeVal(d[1024..1028]) && geo.blocksCount == LeVal(d[1028..1032])
            && geo.freeBlocks == LeVal(d[1036..1040]) && geo.freeInodes == LeVal(d[1040..1044])
            && geo.sizes.blockSize == 1024 * Pow2(LeVal(d[1048..1052])) % 0x1_0000_0000
            && geo.sizes.blocksPerGroup == LeVal(d[1056..1060]) && geo.sizes.inodesPerGroup == LeVal(d[1064..1068])
            && geo.sizes.inodeSize == LeVal(d[1112..1114])
    ensures var o := 4096 + 32 * g;
            && BlockBitmap(d, g) == LeVal(d[o..o + 4]) && InodeBitmap(d, g) == LeVal(d[o + 4..o + 8])
            && InodeTable(d, g) == LeVal(d[o + 8..o + 12])
            && FreeBlocks(d, g) == LeVal(d[o + 12..o + 14]) && FreeInodes(d, g) == LeVal(d[o + 14..o + 16])
  {
    hide LeVal, Pow2;
  }

  function Block(d: bytes, bs: nat, k: nat): (b: bytes)
    requires k * bs + bs <= |d|
    ensures |b| == bs
  {
    d[k * bs..k * bs + bs]
  }

  /** Block k holds metadata: it lies past the room kept for descriptors, below block top, inside the file. */
  ghost predicate MetaBlock(d: bytes, bs: nat, room: nat, top: nat, k: nat) {
    DescOff(room) <= k * bs && k < top && k * bs + bs <= |d|
  }

  /** The descriptor of group g counts exactly the clear bits of its two bitmaps. */
  ghost predicate GroupOk(d: bytes, geo: Sizes, room: nat, top: nat, g: nat) {
    && g < room && HasDesc(d, g)
    && MetaBlock(d, geo.blockSize, room, top, BlockBitmap(d, g))
    && MetaBlock(d, geo.blockSize, room, top, InodeBitmap(d, g))
    && FreeBlocks(d, g) == ClearBits(Block(d, geo.blockSize, BlockBitmap(d, g)), geo.blocksPerGroup)
    && FreeInodes(d, g) == ClearBits(Block(d, geo.blockSize, InodeBitmap(d, g)), geo.inodesPerGroup)
  }

  ghost predicate GroupsOk(d: bytes, geo: Sizes, room: nat, top: nat, n: nat) {
    forall g {:trigger GroupOk(d, geo, room, top, g)} :: 0 <= g < n ==> GroupOk(d, geo, room, top, g)
  }

  /** No two bitmaps of groups g and h share a block. */
  ghost predicate Apart(d: bytes, g: nat, h: nat) {
    && HasDesc(d, g) && HasDesc(d, h)
    && (g != h ==> BlockBitmap(d, g) != BlockBitmap(d, h) && InodeBitmap(d, g) != InodeBitmap(d, h))
    && BlockBitmap(d, g) != InodeBitmap(d, h)
  }

  ghost predicate Distinct(d: bytes, n: nat) {
    forall g, h {:trigger Apart(d, g, h)} :: 0 <= g < n && 0 <= h < n ==> Apart(d, g, h)
  }

  ghost function SumFreeBlocks(d: bytes, n: nat): nat {
    if n == 0 then 0 else SumFreeBlocks(d, n - 1) + (if HasDesc(d, n - 1) then FreeBlocks(d, n - 1) else 0)
  }

  ghost function SumFreeInodes(d: bytes, n: nat): nat {
    if n == 0 then 0 else SumFreeInodes(d, n - 1) + (if HasDesc(d, n - 1) then FreeInodes(d, n - 1) else 0)
  }

  /** The totals count each group once, and nothing else. */
  lemma {:induction false} SumsOver(d: bytes, g: nat)
    requires HasDesc(d, g)
    ensures SumFreeBlocks(d, 0) == 0 && SumFreeInodes(d, 0) == 0
    ensures SumFreeBlocks(d, g + 1) - SumFreeBlocks(d, g) == LeVal(d[4096 + 32 * g + 12..4096 + 32 * g + 14])
    ensures SumFreeInodes(d, g + 1) - SumFreeInodes(d, g) == LeVal(d[4096 + 32 * g + 14..4096 + 32 * g + 16])
  {
    hide LeVal;
    OnDisk(d, g);
  }

  /** Bits of the last group that stand for blocks past the end are set. */
  ghost predicate Padded(d: bytes, geo: Sizes, last: nat, top: nat) {
    && HasDesc(d, last) && BlockBitmap(d, last) * geo.blockSize + geo.blockSize <= |d|
    && var bm := Block(d, geo.blockSize, BlockBitmap(d, last));
       forall i :: 0 <= i < geo.blocksPerGroup && top - last * geo.blocksPerGroup <= i ==> Bit(bm, i)
  }

  /** The sizes are ones a bitmap block can describe. */
  ghost predicate GeoOk(geo: Sizes) {
    && 1024 <= geo.blockSize < POW32
    && 0 < geo.blocksPerGroup <= 8 * geo.blockSize && geo.blocksPerGroup < POW32
    && 0 < geo.inodesPerGroup <= 8 * geo.blockSize
    && geo.inodesPerGroup * geo.inodeSize < POW32
    && (geo.inodesPerGroup * geo.inodeSize) % geo.blockSize == 0
  }

  /** n groups covering blocks up to top agree with their bitmaps and with the two totals. */
  ghost predicate Accounted(d: bytes, geo: Sizes, room: nat, n: nat, top: nat, blocks: nat, inodes: nat) {
    && GeoOk(geo) && SB_END <= |d|
    && 0 < n <= room && (n - 1) * geo.blocksPerGroup < top <= n * geo.blocksPerGroup
    && GroupsOk(d, geo, room, top, n) && Distinct(d, n)
    && SumFreeBlocks(d, n) == blocks && SumFreeInodes(d, n) == inodes
    && GroupOk(d, geo, room, top, n - 1) && Padded(d, geo, n - 1, top)
  }

  /** The first block of group g. */
  function FirstBlock(s: Sizes, g: nat): nat {
    g * s.blocksPerGroup
  }

  /** Number of groups that hold the given number of blocks. */
  function BlocksToGroups(blocks: nat, blocksPerGroup: nat): nat {
    if blocks == 0 || blocksPerGroup == 0 then 0
    else ((blocks + blocksPerGroup - 1) % POW32) / blocksPerGroup
  }

  /** Without wrap-around this is division rounded up. */
  lemma GroupsCover(blocks: nat, bpg: nat)
    requires blocks > 0 && bpg > 0 && blocks + bpg <= POW32
    ensures var n := BlocksToGroups(blocks, bpg);
            n > 0 && (n - 1) * bpg < blocks <= n * bpg
  {
    var q := (blocks + bpg - 1) / bpg;
    assert blocks + bpg - 1 == q * bpg + (blocks + bpg - 1) % bpg;
    assert (q - 1) * bpg == q * bpg - bpg;
    assert q == 0 ==> q * bpg == 0;
  }

  /** The groups counted hold all the blocks exactly when the 32-bit sum does not wrap. */
  lemma GroupsCoverExactly(blocks: nat, bpg: nat)
    requires 0 < blocks < POW32 && 0 < bpg < POW32
    ensures blocks <= BlocksToGroups(blocks, bpg) * bpg <==> blocks + bpg <= POW32
    ensures blocks + bpg > POW32 ==> BlocksToGroups(blocks, bpg) == 0
  {
    if blocks + bpg <= POW32 {
      GroupsCover(blocks, bpg);
      hide BlocksToGroups;
    } else {
      NoGroups(blocks, bpg);
      hide BlocksToGroups;
    }
  }

  lemma NoGroups(blocks: nat, bpg: nat)
    requires 0 < blocks < POW32 && 0 < bpg < POW32 && blocks + bpg > POW32
    ensures BlocksToGroups(blocks, bpg) == 0
  {
    var sum := blocks + bpg - 1;
    QuotientIs(sum, POW32, 1, sum - POW32);
    QuotientIs(sum - POW32, bpg, 0, sum - POW32);
  }

  lemma {:induction false} GroupsUnique(blocks: nat, bpg: nat, n: nat, m: nat)
    requires bpg > 0 && n > 0 && m > 0
    requires (n - 1) * bpg < blocks <= n * bpg && (m - 1) * bpg < blocks <= m * bpg
    ensures n == m
  {
    if n < m {
      MulMono(n, m - 1, bpg);
    } else if m < n {
      MulMono(m, n - 1, bpg);
    }
  }

  lemma MulMono(a: nat, b: nat, k: nat)
    requires a <= b
    ensures a * k <= b * k
  {
  }

  /** Distinct blocks do not overlap. */
  lemma BlocksApart(a: nat, b: nat, bs: nat)
    requires a < b
    ensures a * bs + bs <= b * bs
  {
    MulMono(a + 1, b, bs);
    assert (a + 1) * bs == a * bs + bs;
  }

  /** Groups needed for the given number of blocks: division rounded up. */
  function GroupsFor(blocks: nat, bpg: nat): nat
    requires bpg > 0
  {
    (blocks + bpg - 1) / bpg
  }

  lemma GroupsForBounds(blocks: nat, bpg: nat)
    requires bpg > 0
    ensures var n := GroupsFor(blocks, bpg); blocks <= n * bpg < blocks + bpg
  {
    var q := (blocks + bpg - 1) / bpg;
    assert blocks + bpg - 1 == q * bpg + (blocks + bpg - 1) % bpg;
  }

  /** Geometry, bitmaps, descriptors and superblock totals all agree. */
  ghost predicate Consistent(d: bytes, room: nat) {
    && SB_END <= |d|
    && var geo := GeometryOf(d);
       && GeoOk(geo.sizes)
       && var n := GroupsFor(geo.blocksCount, geo.sizes.blocksPerGroup);
          && Accounted(d, geo.sizes, room, n, geo.blocksCount, geo.freeBlocks, geo.freeInodes)
          && geo.inodesCount == n * geo.sizes.inodesPerGroup
  }

  // ---------- writes that leave a group alone ----------

  /** d' has the descriptor and both bitmaps of group g as d has them. */
  ghost predicate SameGroup(d: bytes, d': bytes, bs: nat, g: nat)
    requires HasDesc(d, g)
    requires BlockBitmap(d, g) * bs + bs <= |d| && InodeBitmap(d, g) * bs + bs <= |d|
  {
    && Keeps(d, d', DescOff(g), DESC)
    && Keeps(d, d', BlockBitmap(d, g) * bs, bs)
    && Keeps(d, d', InodeBitmap(d, g) * bs, bs)
  }

  /** Equal descriptors have equal fields. */
  lemma SameDesc(d: bytes, d': bytes, g: nat)
    requires HasDesc(d, g) && HasDesc(d', g)
    requires d'[DescOff(g)..DescOff(g) + DESC] == d[DescOff(g)..DescOff(g) + DESC]
    ensures BlockBitmap(d', g) == BlockBitmap(d, g) && InodeBitmap(d', g) == InodeBitmap(d, g)
    ensures InodeTable(d', g) == InodeTable(d, g)
    ensures FreeBlocks(d', g) == FreeBlocks(d, g) && FreeInodes(d', g) == FreeInodes(d, g)
  {
    var o := DescOff(g);
    SameField(d, d', o, 0, 4);
    SameField(d, d', o, 4, 8);
    SameField(d, d', o, 8, 12);
    SameField(d, d', o, 12, 14);
    SameField(d, d', o, 14, 16);
  }

  lemma SameField(d: bytes, d': bytes, o: nat, i: nat, j: nat)
    requires o + DESC <= |d| && o + DESC <= |d'| && i <= j <= DESC
    requires d'[o..o + DESC] == d[o..o + DESC]
    ensures d'[o + i..o + j] == d[o + i..o + j]
  {
    SliceSlice(d, o, o + DESC, i, j);
    SliceSlice(d', o, o + DESC, i, j);
  }

  lemma SameGroupOk(d: bytes, d': bytes, geo: Sizes, room: nat, top: nat, top': nat, g: nat)
    requires GroupOk(d, geo, room, top, g) && SameGroup(d, d', geo.blockSize, g) && top <= top'
    ensures GroupOk(d', geo, room, top', g)
    ensures BlockBitmap(d', g) == BlockBitmap(d, g) && InodeBitmap(d', g) == InodeBitmap(d, g)
    ensures FreeBlocks(d', g) == FreeBlocks(d, g) && FreeInodes(d', g) == FreeInodes(d, g)
  {
    SameDesc(d, d', g);
    var x, y := BlockBitmap(d, g) * geo.blockSize, InodeBitmap(d, g) * geo.blockSize;
    assert d'[x..x + geo.blockSize] == d[x..x + geo.blockSize];
    assert d'[y..y + geo.blockSize] == d[y..y + geo.blockSize];
  }

  ghost predicate Misses(off: nat, b: bytes, lo: nat, len: nat) {
    off + |b| <= lo || lo + len <= off
  }

  /** d' keeps the len bytes of d at lo. */
  ghost predicate Keeps(d: bytes, d': bytes, lo: nat, len: nat) {
    lo + len <= |d| <= |d'| && d'[lo..lo + len] == d[lo..lo + len]
  }

  lemma Unwritten(d: bytes, off: nat, b: bytes, lo: nat, len: nat)
    requires lo + len <= |d| && Misses(off, b, lo, len)
    ensures Keeps(d, Splice(d, off, b), lo, len)
  {
    SpliceApart(d, off, b, lo, lo + len);
  }

  lemma {:induction false} SameSums(d: bytes, d': bytes, n: nat)
    requires forall g :: 0 <= g < n ==> HasDesc(d, g) && HasDesc(d', g)
    requires forall g {:trigger FreeBlocks(d', g)} {:trigger FreeInodes(d', g)} :: 0 <= g < n ==>
      FreeBlocks(d', g) == FreeBlocks(d, g) && FreeInodes(d', g) == FreeInodes(d, g)
    ensures SumFreeBlocks(d', n) == SumFreeBlocks(d, n) && SumFreeInodes(d', n) == SumFreeInodes(d, n)
  {
    if n > 0 {
      SameSums(d, d', n - 1);
    }
  }
}
