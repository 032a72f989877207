/** ExpandExt4WithinGroups: the top of the grow, with its guarantees. */
module Ext4Result {
  import opened Prelude
  import opened Bytes
  import opened Ext4Bitmap
  import opened Ext4Image
  import opened Ext4Layout
  import opened Ext4Write
  import opened Ext4Accounting
  import opened Ext4Grow
  import opened Ext4Frame
  import opened Ext4Expand
  import opened Ext4Refusal

  /** Blocks a disk of the given size can address with 32-bit block numbers. */
  function MaxAddressableBlocks(maxDiskSize: int, blockSize: nat): (m: nat)
    ensures m < POW32
    ensures blockSize > 0 && 0 <= maxDiskSize ==> m * blockSize <= maxDiskSize
    ensures blockSize > 0 && 0 <= maxDiskSize ==> m == POW32 - 1 || maxDiskSize < (m + 1) * blockSize
    ensures blockSize == 0 || maxDiskSize <= 0 ==> m == 0
  {
    if blockSize == 0 || maxDiskSize <= 0 then 0
    else
      var q := maxDiskSize / blockSize;
      WholeBlocks(maxDiskSize, blockSize);
      if q > POW32 - 1 then
        MulMono(POW32 - 1, q, blockSize);
        POW32 - 1
      else
        q
  }

  lemma WholeBlocks(size: nat, blockSize: nat)
    requires blockSize > 0
    ensures var q := size / blockSize; q * blockSize <= size < (q + 1) * blockSize
  {
    var q := size / blockSize;
    assert size == q * blockSize + size % blockSize;
    OneMore(q, blockSize);
  }

  // ---------- the steps, one by one ----------

  /** Between the steps: n2 groups up to block top2 are in order, and what is old is as it was. */
  ghost predicate Midway(d: bytes, d2: bytes, s: Sizes, room: nat, n: nat, n2: nat, top: nat, top2: nat, fb: nat, fi: nat) {
    && 0 < n <= n2 && HasDesc(d, n - 1)
    && Accounted(d2, s, room, n2, top2, fb, fi)
    && OldGroups(d, d2, s, top, n)
    && Keeps(d, d2, 0, SB_END)
    && MidFramed(d, d2, s, n, n2)
  }

  ghost predicate MidTouches(d: bytes, s: Sizes, n: nat, n2: nat, p: nat)
    requires n > 0 && HasDesc(d, n - 1)
  {
    GrowTouches(d, s, n, p) || DescOff(n) <= p < DescOff(n2)
  }

  ghost predicate MidFramed(d: bytes, d2: bytes, s: Sizes, n: nat, n2: nat)
    requires n > 0 && HasDesc(d, n - 1)
  {
    forall p {:trigger Keeps(d, d2, p, 1)} :: 0 <= p < |d| && p < BaseOf(s, n) && !MidTouches(d, s, n, n2, p) ==> Keeps(d, d2, p, 1)
  }

  lemma MidStart(d: bytes, s: Sizes, room: nat, n: nat, top: nat, fb: nat, fi: nat)
    requires Accounted(d, s, room, n, top, fb, fi)
    ensures Midway(d, d, s, room, n, n, top, top, fb, fi)
  {
    hide GroupOk, OldGroup, Distinct, Padded, SumFreeBlocks, SumFreeInodes, BlockBitmap;
    OkHasDesc(d, s, room, top, n - 1);
    forall g | 0 <= g < n ensures OldGroup(d, d, s, top, g) {
      assert GroupOk(d, s, room, top, g);
      OldGroupSelf(d, s, room, top, g);
    }
    forall p | 0 <= p < |d| ensures Keeps(d, d, p, 1) {
      KeepsSelf(d, p, 1);
    }
  }

  lemma MidGrow(d: bytes, s: Sizes, room: nat, n: nat, top: nat, target: nat, fb: nat, fi: nat)
    requires Accounted(d, s, room, n, top, fb, fi) && top <= target <= n * s.blocksPerGroup
    requires HasDesc(d, n - 1) && FreeBlocks(d, n - 1) + (target - top) < POW16
    requires BlockBitmap(d, n - 1) * s.blockSize + s.blockSize <= |d|
    ensures var first := (n - 1) * s.blocksPerGroup;
            Midway(d, GrowGroup(d, s.blockSize, n - 1, top - first, target - first), s, room, n, n, top, target, fb + (target - top), fi)
  {
    hide GroupOk, OldGroups, Distinct, Padded, SumFreeBlocks, SumFreeInodes, BlockBitmap, FreeBlocks, GrowGroup, Keeps;
    var first := (n - 1) * s.blocksPerGroup;
    var d1 := GrowGroup(d, s.blockSize, n - 1, top - first, target - first);
    GrowAccounted(d, s, room, n, top, target, fb, fi);
    GrowOld(d, s, room, top, n, target, fb, fi);
    OkHasDesc(d, s, room, top, n - 1);
    GrowKeeps(d, s.blockSize, n - 1, top - first, target - first, 0, SB_END);
    forall p | 0 <= p < |d| && !GrowTouches(d, s, n, p) ensures Keeps(d, d1, p, 1) {
      GrowFrame(d, s, room, top, n, top - first, target - first, p);
    }
  }

  lemma {:induction false} MidAdd(d: bytes, d1: bytes, s: Sizes, room: nat, n: nat, top: nat, groups: nat, target: nat, fb: nat, fi: nat)
    requires Midway(d, d1, s, room, n, n, top, FirstBlock(s, n), fb, fi)
    requires 0 < target && target + s.blocksPerGroup <= POW32 && groups == BlocksToGroups(target, s.blocksPerGroup)
    requires n < groups <= room && AllFit(s, n, groups, groups, target)
    ensures Midway(d, AddAll(d1, s, n, groups, groups, target), s, room, n, groups, top, target,
                   fb + AddedFree(s, n, groups, groups, target), fi + InodesIn(s, groups - n))
    ensures AllLaid(AddAll(d1, s, n, groups, groups, target), s, n, groups, groups, target)
  {
    hide OldGroups, AddAll, Keeps, AllLaid, BlocksToGroups, AllFit, AddedFree, BlockBitmap, InodesIn, GroupOk, Distinct,
         Padded, SumFreeBlocks, SumFreeInodes, GroupsOk;
    var d2 := AddAll(d1, s, n, groups, groups, target);
    AllAdded(d1, s, room, n, groups, groups, target, fb, fi);
    RoomBelow(d1, s, room, n, fb, fi);
    AddAllSame(d1, s, room, n, groups, target);
    OldGroupsSame(d, d1, d2, s, room, top, n * s.blocksPerGroup, n);
    KeepsSize(d, d1, 0, SB_END);
    AllAddedKeep(d1, s, n, groups, groups, target, 0, SB_END);
    KeepsTrans(d, d1, d2, 0, SB_END);
    forall p | 0 <= p < |d| && p < BaseOf(s, n) && !MidTouches(d, s, n, groups, p) ensures Keeps(d, d2, p, 1) {
      assert Keeps(d, d1, p, 1);
      AllAddedKeep(d1, s, n, groups, groups, target, p, 1);
      KeepsTrans(d, d1, d2, p, 1);
    }
  }

  lemma {:induction false} AddAllSame(d: bytes, s: Sizes, room: nat, n: nat, groups: nat, target: nat)
    requires s.blockSize > 0 && n <= groups <= room && AllFit(s, n, groups, groups, target)
    requires GroupsOk(d, s, room, n * s.blocksPerGroup, n)
    ensures AllSame(d, AddAll(d, s, n, groups, groups, target), s, room, n * s.blocksPerGroup, n)
  {
    hide AddAll, Keeps, AllFit, BlockBitmap, InodeBitmap, FreeBlocks, FreeInodes, ClearBits;
    var top := n * s.blocksPerGroup;
    var d2 := AddAll(d, s, n, groups, groups, target);
    forall g | 0 <= g < n ensures OkSame(d, d2, s, room, top, g) {
      assert GroupOk(d, s, room, top, g);
      BaseAbove(d, s, room, top, g, n);
      var x, y := BlockBitmap(d, g) * s.blockSize, InodeBitmap(d, g) * s.blockSize;
      AllAddedKeep(d, s, n, groups, groups, target, DescOff(g), DESC);
      AllAddedKeep(d, s, n, groups, groups, target, x, s.blockSize);
      AllAddedKeep(d, s, n, groups, groups, target, y, s.blockSize);
    }
  }

  /** The superblock update completes the grow. */
  lemma MidFinish(d: bytes, d2: bytes, s: Sizes, room: nat, n: nat, n2: nat, top: nat, top2: nat, fb: nat, fi: nat, blocks: nat, inodes: nat)
    requires Midway(d, d2, s, room, n, n2, top, top2, fb, fi)
    requires blocks < POW32 && fb < POW32 && inodes < POW32 && fi < POW32
    ensures var d3 := SuperBytes(d2, blocks, fb, inodes, fi);
            && SB_END <= |d| && SB_END <= |d3|
            && GeometryOf(d3) == Geometry(GeometryOf(d).sizes, blocks, fb, inodes, fi)
            && Accounted(d3, s, room, n2, top2, fb, fi)
            && OldGroups(d, d3, s, top, n)
            && Framed(d, d3, s, n, n2)
  {
    hide OldGroups, Keeps, SuperBytes, BlockBitmap, GroupOk, Distinct, Padded, SumFreeBlocks, SumFreeInodes, GroupsOk, AllSame;
    var d3 := SuperBytes(d2, blocks, fb, inodes, fi);
    KeepsSize(d, d2, 0, SB_END);
    SuperGeometry(d2, blocks, fb, inodes, fi);
    SameSizes(d, d2);
    SuperSameAll(d2, s, room, top2, n2, blocks, fb, inodes, fi);
    SameAccounted(d2, d3, s, room, n2, top2, fb, fi);
    AllSamePrefix(d2, d3, s, room, top2, n2, n);
    OldGroupsSame(d, d2, d3, s, room, top, top2, n);
    forall p | 0 <= p < |d| && p < BaseOf(s, n) && !Touches(d, s, n, n2, p) ensures Keeps(d, d3, p, 1) {
      assert Keeps(d, d2, p, 1);
      SuperKeeps(d2, blocks, fb, inodes, fi, p, 1);
      KeepsTrans(d, d2, d3, p, 1);
    }
  }

  lemma AllSamePrefix(d: bytes, d': bytes, s: Sizes, room: nat, top: nat, n: nat, k: nat)
    requires AllSame(d, d', s, room, top, n) && k <= n
    ensures AllSame(d, d', s, room, top, k)
  {
    hide GroupOk, OkSame;
  }

  lemma SameSizes(d: bytes, d': bytes)
    requires Keeps(d, d', 0, SB_END)
    ensures GeometryOf(d') == GeometryOf(d)
  {
    hide Pow2;
    KeepsPart(d, d', 0, SB_END, SB_INODES, 4);
    KeepsPart(d, d', 0, SB_END, SB_BLOCKS, 4);
    KeepsPart(d, d', 0, SB_END, SB_FREE_BLOCKS, 4);
    KeepsPart(d, d', 0, SB_END, SB_FREE_INODES, 4);
    KeepsPart(d, d', 0, SB_END, SB_LOG_BLOCK_SIZE, 4);
    KeepsPart(d, d', 0, SB_END, SB_BLOCKS_PER_GROUP, 4);
    KeepsPart(d, d', 0, SB_END, SB_INODES_PER_GROUP, 4);
    KeepsPart(d, d', 0, SB_END, SB_INODE_SIZE, 2);
  }

  // ---------- the grow ----------

  method ReadExt4Geometry(f: Image) returns (r: Option<Geometry>)
    ensures r.Some? <==> SB_END <= |f.data|
    ensures r.Some? ==> r.value == GeometryOf(f.data)
  {
    var log := f.ReadUint32At(SB_LOG_BLOCK_SIZE);
    var blocksPerGroup := f.ReadUint32At(SB_BLOCKS_PER_GROUP);
    var blocks := f.ReadUint32At(SB_BLOCKS);
    var free := f.ReadUint32At(SB_FREE_BLOCKS);
    var inodesPerGroup := f.ReadUint32At(SB_INODES_PER_GROUP);
    var inodes := f.ReadUint32At(SB_INODES);
    var freeInodes := f.ReadUint32At(SB_FREE_INODES);
    var inodeSize := f.ReadAt(SB_INODE_SIZE, 2);
    if inodeSize.None? {
      return None;
    }
    var sizes := Sizes((1024 * Pow2(log.value)) % POW32, blocksPerGroup.value, inodesPerGroup.value, LeVal(inodeSize.value));
    return Some(Geometry(sizes, blocks.value, free.value, inodes.value, freeInodes.value));
  }

  /** An image whose geometry is missing: it is left alone. */
  ghost predicate NoGeometry(geo: Geometry) {
    geo.sizes.blockSize == 0 || geo.sizes.blocksPerGroup == 0 || geo.blocksCount == 0
  }

  /** A consistent image with room in its descriptor table for the target, all within 32-bit range. */
  ghost predicate Growable(d: bytes, room: nat, maxBlocks: nat) {
    && Consistent(d, room) && DescOff(room) <= POW32
    && var geo := GeometryOf(d);
       var groups := BlocksToGroups(maxBlocks, geo.sizes.blocksPerGroup);
       && geo.blocksCount + geo.sizes.blocksPerGroup <= POW32
       && groups <= room && InodesIn(geo.sizes, groups) < POW32
  }

  function TargetBlocks(d: bytes, maxDiskSize: int): nat
    requires SB_END <= |d|
  {
    MaxAddressableBlocks(maxDiskSize, GeometryOf(d).sizes.blockSize)
  }

  function Max(a: nat, b: nat): nat {
    if a < b then b else a
  }

  function Min(a: nat, b: nat): nat {
    if a < b then a else b
  }

  /** The new groups from n on fit: their counts go into 16 bits, and the last has room for its metadata. */
  ghost predicate AddsFit(s: Sizes, n: nat, target: nat) {
    var groups := BlocksToGroups(target, s.blocksPerGroup);
    s.blockSize > 0 && groups > 0 ==>
      && s.inodesPerGroup <= MAX16
      && MetaBlocks(s) <= PresentIn(s, groups - 1, groups, target)
      && PresentIn(s, n, groups, target) <= MetaBlocks(s) + MAX16
  }

  /** The last group's free count would not fit in 16 bits once the group is filled up. */
  ghost predicate GrowRefused(d: bytes, geo: Geometry, n: nat, target: nat) {
    && n > 0 && HasDesc(d, n - 1)
    && var top := Min(target, FirstBlock(geo.sizes, n));
       top > geo.blocksCount && FreeBlocks(d, n - 1) + (top - geo.blocksCount) > MAX16
  }

  /** The only reasons a consistent image is refused. */
  ghost predicate Refuses(d: bytes, target: nat)
    requires SB_END <= |d| && GeometryOf(d).sizes.blocksPerGroup > 0
  {
    var geo := GeometryOf(d);
    var n := GroupsFor(geo.blocksCount, geo.sizes.blocksPerGroup);
    GrowRefused(d, geo, n, target) || (Appends(geo.sizes, n, target) && !AddsFit(geo.sizes, n, target))
  }

  /** The last group's descriptor and bitmap are there to be rewritten. */
  ghost predicate LastBitmap(d: bytes, geo: Geometry, n: nat) {
    && n > 0 && HasDesc(d, n - 1) && FirstBlock(geo.sizes, n - 1) <= geo.blocksCount
    && BlockBitmap(d, n - 1) * geo.sizes.blockSize + geo.sizes.blockSize <= |d|
  }

  /** The image once the last group reaches up to block top. */
  ghost function Halfway(d: bytes, geo: Geometry, n: nat, top: nat): bytes
    requires LastBitmap(d, geo, n)
  {
    var first := FirstBlock(geo.sizes, n - 1);
    if top > geo.blocksCount then GrowGroup(d, geo.sizes.blockSize, n - 1, geo.blocksCount - first, top - first) else d
  }

  /** The same but for the descriptor. */
  ghost function Cleared(d: bytes, geo: Geometry, n: nat, top: nat): bytes
    requires LastBitmap(d, geo, n) && geo.blocksCount <= top
  {
    var first := FirstBlock(geo.sizes, n - 1);
    ClearedGroup(d, geo.sizes.blockSize, n - 1, geo.blocksCount - first, top - first)
  }

  /** What a refused grow has written: the last group's bitmap, or the groups up to the first that does not fit. */
  ghost predicate Written(d: bytes, d': bytes, geo: Geometry, n: nat, target: nat) {
    && LastBitmap(d, geo, n)
    && var s, top := geo.sizes, Min(target, FirstBlock(geo.sizes, n));
       if GrowRefused(d, geo, n, target) then d' == Cleared(d, geo, n, top)
       else Stopped(Halfway(d, geo, n, top), d', s, n, BlocksToGroups(target, s.blocksPerGroup), target)
  }

  /** What a refused grow leaves of d: an image that is consistent exactly when the last group was full before. */
  ghost predicate Refused(d: bytes, d': bytes, room: nat, target: nat)
    requires SB_END <= |d| && GeometryOf(d).sizes.blocksPerGroup > 0
  {
    var geo := GeometryOf(d);
    var n := GroupsFor(geo.blocksCount, geo.sizes.blocksPerGroup);
    && Written(d, d', geo, n, target)
    && SB_END <= |d'| && GeometryOf(d') == geo
    && OldGroups(d, d', geo.sizes, geo.blocksCount, n)
    && (Consistent(d', room) <==> geo.blocksCount == FirstBlock(geo.sizes, n))
  }

  /** Every group added is laid out as a fresh group. */
  ghost predicate AllFresh(d: bytes, s: Sizes, from: nat, to: nat, target: nat) {
    forall g {:trigger FreshGroup(d, s, g, PresentIn(s, g, to, target))} :: from <= g < to ==>
      FreshGroup(d, s, g, PresentIn(s, g, to, target))
  }

  /** What a successful grow of d into d' guarantees. */
  ghost predicate Grown(d: bytes, d': bytes, room: nat, target: nat)
    requires SB_END <= |d| && GeometryOf(d).sizes.blocksPerGroup > 0
  {
    var geo := GeometryOf(d);
    var s := geo.sizes;
    var n := GroupsFor(geo.blocksCount, s.blocksPerGroup);
    var n' := CountAfter(s, n, target);
    && SB_END <= |d'|
    && GeometryOf(d').sizes == s
    && GeometryOf(d').blocksCount == Max(geo.blocksCount, target)
    // bitmaps, descriptors and totals agree exactly when the 32-bit group count does not wrap
    && (Consistent(d', room) <==> target <= n * s.blocksPerGroup || target + s.blocksPerGroup <= POW32)
    // the groups agree with their bitmaps, and the free and inode totals are theirs, even where the block count is not
    && Accounted(d', s, room, n', EndAfter(geo, n, target), GeometryOf(d').freeBlocks, GeometryOf(d').freeInodes)
    && GeometryOf(d').inodesCount == n' * s.inodesPerGroup
    // old groups keep their metadata and the bits of their old blocks
    && OldGroups(d, d', s, geo.blocksCount, n)
    // no other byte that existed has changed
    && n > 0 && HasDesc(d, n - 1) && Framed(d, d', s, n, n')
    // new groups are laid out
    && AllFresh(d', s, n, n', target)
  }

  lemma AllFreshFrom(d: bytes, s: Sizes, from: nat, to: nat, target: nat)
    requires AllLaid(d, s, from, to, to, target)
    ensures AllFresh(d, s, from, to, target)
  {
    hide Laid, FreshGroup, PresentIn;
    forall g | from <= g < to ensures FreshGroup(d, s, g, PresentIn(s, g, to, target)) {
      assert Laid(d, s, g, PresentIn(s, g, to, target));
      LaidIsFresh(d, s, g, PresentIn(s, g, to, target));
    }
  }

  lemma LaidAllSuper(d: bytes, s: Sizes, from: nat, to: nat, target: nat, blocks: nat, free: nat, inodes: nat, freeInodes: nat)
    requires AllLaid(d, s, from, to, to, target) && SB_END <= BaseOf(s, from)
    ensures AllLaid(SuperBytes(d, blocks, free, inodes, freeInodes), s, from, to, to, target)
  {
    hide Laid, SuperBytes, PresentIn;
    var d' := SuperBytes(d, blocks, free, inodes, freeInodes);
    forall g | from <= g < to ensures Laid(d', s, g, PresentIn(s, g, to, target)) {
      assert Laid(d, s, g, PresentIn(s, g, to, target));
      BaseMono(s, from, g);
      LaidSuper(d, s, g, PresentIn(s, g, to, target), blocks, free, inodes, freeInodes);
    }
  }

  /** A count of groups within the 32-bit range is the one the code computes. */
  lemma SameGroupCount(blocks: nat, bpg: nat)
    requires 0 < blocks && 0 < bpg && blocks + bpg <= POW32
    ensures BlocksToGroups(blocks, bpg) == GroupsFor(blocks, bpg)
  {
  }

  lemma FullGroups(n: nat, bpg: nat)
    requires 0 < n && 0 < bpg
    ensures GroupsFor(n * bpg, bpg) == n
  {
    GroupsForBounds(n * bpg, bpg);
    var m := GroupsFor(n * bpg, bpg);
    if m < n {
      MulMono(m + 1, n, bpg);
      OneMore(m, bpg);
    } else if m > n {
      MulMono(n + 1, m, bpg);
      OneMore(n, bpg);
    }
  }

  /** The last group of an accounted image, and where its blocks start. */
  lemma LastGroup(d: bytes, s: Sizes, room: nat, n: nat, top: nat, fb: nat, fi: nat, first: nat)
    requires Accounted(d, s, room, n, top, fb, fi) && first == (n - 1) * s.blocksPerGroup
    ensures 0 < n <= room && first < top <= first + s.blocksPerGroup && GeoOk(s)
    ensures GroupOk(d, s, room, top, n - 1) && Padded(d, s, n - 1, top) && HasDesc(d, n - 1)
    ensures BlockBitmap(d, n - 1) != 0 && BlockBitmap(d, n - 1) * s.blockSize + s.blockSize <= |d|
  {
    hide Distinct, SumFreeBlocks, SumFreeInodes, GroupsOk, BlockBitmap, InodeBitmap, FreeBlocks, FreeInodes, ClearBits, Bit;
    OneMore(n - 1, s.blocksPerGroup);
    if BlockBitmap(d, n - 1) == 0 {
      ZeroTimes(s.blockSize);
    }
  }

  lemma ZeroTimes(k: nat)
    ensures 0 * k == 0
  {
  }

  lemma SubNoWrap(a: nat, b: nat)
    requires b <= a < POW32
    ensures Sub32(a, b) == a - b
  {
  }

  /** On an accounted image only the 16-bit free count can stop the last group from growing. */
  lemma GrowAllowed(d: bytes, geo: Geometry, room: nat, n: nat, target: nat, first: nat)
    requires Accounted(d, geo.sizes, room, n, geo.blocksCount, geo.freeBlocks, geo.freeInodes)
    requires first == (n - 1) * geo.sizes.blocksPerGroup
    requires geo.blocksCount <= target <= first + geo.sizes.blocksPerGroup && target < POW32
    ensures HasDesc(d, n - 1) && BlockBitmap(d, n - 1) * geo.sizes.blockSize + geo.sizes.blockSize <= |d|
    ensures first < geo.blocksCount && Sub32(geo.blocksCount, first) == geo.blocksCount - first && Sub32(target, first) == target - first
    ensures LastBitmap(d, geo, n) && CanClear(d, geo, n - 1, target)
    ensures CanGrow(d, geo, n - 1, target) <==> FreeBlocks(d, n - 1) + (target - geo.blocksCount) <= MAX16
  {
    hide Accounted, GroupOk, Padded, BlockBitmap, FreeBlocks, Sub32;
    LastGroup(d, geo.sizes, room, n, geo.blocksCount, geo.freeBlocks, geo.freeInodes, first);
    SubNoWrap(geo.blocksCount, first);
    SubNoWrap(target, first);
  }

  lemma AccountedCount(d: bytes, s: Sizes, room: nat, n: nat, top: nat, fb: nat, fi: nat)
    requires Accounted(d, s, room, n, top, fb, fi)
    ensures 0 < n <= room && 0 < top && GeoOk(s)
  {
    hide GroupOk, Distinct, Padded, SumFreeBlocks, SumFreeInodes, GroupsOk;
    MulMono(0, n - 1, s.blocksPerGroup);
  }

  /** The branch that extends the last group. */
  method ExtendLast(f: Image, geo: Geometry, n: nat, target: nat, ghost room: nat) returns (r: Option<nat>)
    requires Accounted(f.data, geo.sizes, room, n, geo.blocksCount, geo.freeBlocks, geo.freeInodes)
    requires geo.blocksCount < target <= n * geo.sizes.blocksPerGroup && target < POW32 && DescOff(room) <= POW32
    modifies f
    ensures old(LastBitmap(f.data, geo, n))
    ensures r.None? <==> old(FreeBlocks(f.data, n - 1)) + (target - geo.blocksCount) > MAX16
    ensures r.None? ==> f.data == Cleared(old(f.data), geo, n, target)
    ensures r.Some? ==>
      && r.value == target - geo.blocksCount && f.data == Halfway(old(f.data), geo, n, target)
      && Midway(old(f.data), f.data, geo.sizes, room, n, n, geo.blocksCount, target, geo.freeBlocks + r.value, geo.freeInodes)
  {
    hide Accounted, Midway, GrowGroup, ClearedGroup, CanGrow, CanClear, FreeBlocks, BlockBitmap, Sub32;
    ghost var d := f.data;
    AccountedCount(d, geo.sizes, room, n, geo.blocksCount, geo.freeBlocks, geo.freeInodes);
    var first := FirstBlock(geo.sizes, n - 1);
    OneMore(n - 1, geo.sizes.blocksPerGroup);
    GrowAllowed(d, geo, room, n, target, first);
    var delta := GrowExistingLastGroup(f, geo, n - 1, target);
    if delta.None? {
      return None;
    }
    MidGrow(d, geo.sizes, room, n, geo.blocksCount, target, geo.freeBlocks, geo.freeInodes);
    return delta;
  }

  lemma LastThere(d: bytes, geo: Geometry, room: nat, n: nat)
    requires Accounted(d, geo.sizes, room, n, geo.blocksCount, geo.freeBlocks, geo.freeInodes)
    ensures LastBitmap(d, geo, n)
  {
    hide Accounted, GroupOk, Padded, BlockBitmap;
    AccountedCount(d, geo.sizes, room, n, geo.blocksCount, geo.freeBlocks, geo.freeInodes);
    LastGroup(d, geo.sizes, room, n, geo.blocksCount, geo.freeBlocks, geo.freeInodes, FirstBlock(geo.sizes, n - 1));
  }

  /** First half: use up the blocks of the last group. */
  method GrowStep(f: Image, geo: Geometry, maxBlocks: nat, ghost room: nat, ghost n: nat) returns (r: Option<Geometry>)
    requires geo.blocksCount + geo.sizes.blocksPerGroup <= POW32 && DescOff(room) <= POW32 && maxBlocks < POW32
    requires n == BlocksToGroups(geo.blocksCount, geo.sizes.blocksPerGroup)
    requires Accounted(f.data, geo.sizes, room, n, geo.blocksCount, geo.freeBlocks, geo.freeInodes)
    modifies f
    ensures old(LastBitmap(f.data, geo, n))
    ensures r.None? <==> old(GrowRefused(f.data, geo, n, maxBlocks))
    ensures r.None? ==> f.data == Cleared(old(f.data), geo, n, Min(maxBlocks, FirstBlock(geo.sizes, n)))
    ensures r.Some? ==> f.data == Halfway(old(f.data), geo, n, Min(maxBlocks, FirstBlock(geo.sizes, n)))
    ensures r.Some? ==>
      var top := Max(geo.blocksCount, Min(maxBlocks, FirstBlock(geo.sizes, n)));
      && r.value == geo.(blocksCount := top, freeBlocks := geo.freeBlocks + (top - geo.blocksCount))
      && Midway(old(f.data), f.data, geo.sizes, room, n, n, geo.blocksCount, top, r.value.freeBlocks, geo.freeInodes)
  {
    hide Accounted, Midway, BlocksToGroups, GrowGroup, ClearedGroup, FreeBlocks, BlockBitmap;
    LastThere(f.data, geo, room, n);
    var groupCount := BlocksToGroups(geo.blocksCount, geo.sizes.blocksPerGroup);
    var target := Min(maxBlocks, FirstBlock(geo.sizes, groupCount));
    if target > geo.blocksCount {
      var delta := ExtendLast(f, geo, groupCount, target, room);
      if delta.None? {
        return None;
      }
      return Some(geo.(blocksCount := geo.blocksCount + delta.value, freeBlocks := geo.freeBlocks + delta.value));
    }
    MidStart(f.data, geo.sizes, room, n, geo.blocksCount, geo.freeBlocks, geo.freeInodes);
    return Some(geo);
  }

  // ---------- second half: new groups ----------

  /** Block target needs more groups than n, and the code can count them. */
  ghost predicate Appends(s: Sizes, n: nat, target: nat) {
    target > FirstBlock(s, n) && target + s.blocksPerGroup <= POW32
  }

  /** Groups after the grow. */
  ghost function CountAfter(s: Sizes, n: nat, target: nat): nat {
    if Appends(s, n, target) then BlocksToGroups(target, s.blocksPerGroup) else n
  }

  /** Where the blocks that belong to a group end after the grow. */
  ghost function EndAfter(geo: Geometry, n: nat, target: nat): nat {
    if target > FirstBlock(geo.sizes, n) && !Appends(geo.sizes, n, target) then FirstBlock(geo.sizes, n)
    else Max(geo.blocksCount, target)
  }

  lemma CountMore(s: Sizes, n: nat, target: nat)
    requires GeoOk(s) && n > 0 && Appends(s, n, target)
    ensures BlocksToGroups(FirstBlock(s, n), s.blocksPerGroup) == n < BlocksToGroups(target, s.blocksPerGroup)
  {
    var bpg := s.blocksPerGroup;
    MulMono(1, n, bpg);
    SameGroupCount(n * bpg, bpg);
    FullGroups(n, bpg);
    GroupsCover(target, bpg);
    var m := BlocksToGroups(target, bpg);
    if m <= n {
      MulMono(m, n, bpg);
    }
  }

  lemma CountWraps(s: Sizes, n: nat, target: nat)
    requires GeoOk(s) && target < POW32 && target > FirstBlock(s, n) && !Appends(s, n, target)
    ensures BlocksToGroups(target, s.blocksPerGroup) == 0
  {
    GroupsCoverExactly(target, s.blocksPerGroup);
  }

  /** Whether all new groups fit can be told from the first and the last of them. */
  lemma {:induction false} AllFitExactly(s: Sizes, n: nat, target: nat)
    requires GeoOk(s) && target < POW32 && n < BlocksToGroups(target, s.blocksPerGroup)
    ensures var groups := BlocksToGroups(target, s.blocksPerGroup);
            AllFit(s, n, groups, groups, target) <==> AddsFit(s, n, target)
  {
    hide Addable, PresentIn, BlocksToGroups, GeoOk;
    var groups := BlocksToGroups(target, s.blocksPerGroup);
    GeoPositive(s);
    AddableWhen(s, n, target);
    AddableWhen(s, groups - 1, target);
    if AllFit(s, n, groups, groups, target) {
      assert Addable(s, n, PresentIn(s, n, groups, target));
      assert Addable(s, groups - 1, PresentIn(s, groups - 1, groups, target));
    }
    if AddsFit(s, n, target) {
      forall g | n <= g < groups ensures Addable(s, g, PresentIn(s, g, groups, target)) {
        AddableWhen(s, g, target);
        PresentMost(s, g, target);
        PresentFirst(s, n, g, target);
      }
    }
  }

  /** No later group has more blocks than an earlier one. */
  lemma PresentFirst(s: Sizes, n: nat, g: nat, target: nat)
    requires GeoOk(s) && target < POW32 && n <= g < BlocksToGroups(target, s.blocksPerGroup)
    ensures var groups := BlocksToGroups(target, s.blocksPerGroup);
            PresentIn(s, g, groups, target) <= PresentIn(s, n, groups, target)
  {
    AddableWhen(s, g, target);
  }

  /** No group has fewer blocks than the last. */
  lemma PresentMost(s: Sizes, g: nat, target: nat)
    requires GeoOk(s) && target < POW32 && g < BlocksToGroups(target, s.blocksPerGroup)
    ensures var groups := BlocksToGroups(target, s.blocksPerGroup);
            PresentIn(s, groups - 1, groups, target) <= PresentIn(s, g, groups, target)
  {
    AddableWhen(s, BlocksToGroups(target, s.blocksPerGroup) - 1, target);
  }

  lemma NoInodes(s: Sizes)
    ensures InodesIn(s, 0) == 0
  {
  }

  /** Where the second half leaves the image. */
  ghost predicate AfterAdd(d: bytes, d2: bytes, geo: Geometry, geo2: Geometry, room: nat, n: nat, target: nat) {
    var s, n2 := geo.sizes, CountAfter(geo.sizes, n, target);
    && n <= n2
    && geo2.sizes == s && geo2.blocksCount == Max(geo.blocksCount, target)
    && geo2.inodesCount == geo.inodesCount + InodesIn(s, n2 - n)
    && Midway(d, d2, s, room, n, n2, geo.blocksCount, EndAfter(geo, n, target), geo2.freeBlocks, geo2.freeInodes)
    && AllLaid(d2, s, n, n2, n2, target)
  }

  method AddStep(f: Image, ghost d: bytes, geo: Geometry, geo1: Geometry, maxBlocks: nat, ghost room: nat, ghost n: nat) returns (r: Option<Geometry>)
    requires GeoOk(geo.sizes) && maxBlocks < POW32 && 0 < n && geo.blocksCount <= FirstBlock(geo.sizes, n)
    requires DescOff(room) <= POW32 && BlocksToGroups(maxBlocks, geo.sizes.blocksPerGroup) <= room
    requires geo1 == geo.(blocksCount := Max(geo.blocksCount, Min(maxBlocks, FirstBlock(geo.sizes, n))), freeBlocks := geo1.freeBlocks)
    requires Midway(d, f.data, geo.sizes, room, n, n, geo.blocksCount, geo1.blocksCount, geo1.freeBlocks, geo.freeInodes)
    modifies f
    ensures r.None? <==> Appends(geo.sizes, n, maxBlocks) && !AddsFit(geo.sizes, n, maxBlocks)
    ensures r.None? ==> Stopped(old(f.data), f.data, geo.sizes, n, BlocksToGroups(maxBlocks, geo.sizes.blocksPerGroup), maxBlocks)
    ensures r.Some? ==> AfterAdd(d, f.data, geo, r.value, room, n, maxBlocks)
  {
    hide Midway, BlocksToGroups, GeoOk, AllLaid, AllFit, AddsFit, Stopped, FirstBlock, AddAll, AddedFree, InodesIn;
    var s := geo.sizes;
    ghost var d1 := f.data;
    NoneLaid(d1, s, n, n, maxBlocks);
    NoInodes(s);
    if maxBlocks > geo1.blocksCount {
      assert geo1.blocksCount == FirstBlock(s, n);
      if Appends(s, n, maxBlocks) {
        CountMore(s, n, maxBlocks);
        AllFitExactly(s, n, maxBlocks);
      } else {
        CountWraps(s, n, maxBlocks);
      }
      var added := AddExt4Groups(f, geo1, maxBlocks);
      if added.None? {
        return None;
      }
      if Appends(s, n, maxBlocks) {
        MidAdd(d, d1, s, room, n, geo.blocksCount, BlocksToGroups(maxBlocks, s.blocksPerGroup), maxBlocks, geo1.freeBlocks, geo.freeInodes);
      }
      return Some(Geometry(s, maxBlocks, geo1.freeBlocks + added.value.0,
                           geo1.inodesCount + added.value.1, geo1.freeInodes + added.value.1));
    }
    return Some(geo1);
  }

  // ---------- the whole grow ----------

  lemma CountOf(d: bytes, s: Sizes, room: nat, n: nat, top: nat, fb: nat, fi: nat)
    requires Accounted(d, s, room, n, top, fb, fi)
    ensures 0 < s.blocksPerGroup && GroupsFor(top, s.blocksPerGroup) == n
  {
    hide GroupOk, Distinct, Padded, SumFreeBlocks, SumFreeInodes, GroupsOk;
    var bpg := s.blocksPerGroup;
    GroupsForBounds(top, bpg);
    var m := GroupsFor(top, bpg);
    AccountedCount(d, s, room, n, top, fb, fi);
    MulMono(0, n - 1, bpg);
    if m == 0 {
      ZeroTimes(bpg);
    } else {
      OneMore(m - 1, bpg);
      GroupsUnique(top, bpg, n, m);
    }
  }

  /** More groups mean more inodes. */
  lemma InodesGrow(s: Sizes, n: nat, m: nat)
    requires GeoOk(s) && n < m
    ensures n * s.inodesPerGroup < m * s.inodesPerGroup
  {
    MulMono(n + 1, m, s.inodesPerGroup);
    OneMore(n, s.inodesPerGroup);
  }

  lemma InodesAdd(s: Sizes, n: nat, m: nat)
    requires n <= m
    ensures n * s.inodesPerGroup + InodesIn(s, m - n) == m * s.inodesPerGroup
  {
    assert (m - n) * s.inodesPerGroup == m * s.inodesPerGroup - n * s.inodesPerGroup;
  }

  /** The result is consistent when its end lies in its last group. */
  lemma ConsistentAfter(d: bytes, room: nat, n: nat)
    requires SB_END <= |d|
    requires var geo := GeometryOf(d);
             Accounted(d, geo.sizes, room, n, geo.blocksCount, geo.freeBlocks, geo.freeInodes)
             && geo.inodesCount == n * geo.sizes.inodesPerGroup
    ensures Consistent(d, room)
  {
    hide Accounted, GeometryOf, GroupsFor;
    var geo := GeometryOf(d);
    CountOf(d, geo.sizes, room, n, geo.blocksCount, geo.freeBlocks, geo.freeInodes);
    AccountedCount(d, geo.sizes, room, n, geo.blocksCount, geo.freeBlocks, geo.freeInodes);
  }

  /** It is not when blocks are declared beyond the last group: the inode total gives it away. */
  lemma InconsistentAfter(d: bytes, room: nat, n: nat)
    requires SB_END <= |d| && GeoOk(GeometryOf(d).sizes)
    requires var geo := GeometryOf(d);
             geo.blocksCount > FirstBlock(geo.sizes, n) && geo.inodesCount == n * geo.sizes.inodesPerGroup
    ensures !Consistent(d, room)
  {
    hide Accounted, GeometryOf, GroupsFor;
    var geo := GeometryOf(d);
    var bpg := geo.sizes.blocksPerGroup;
    var m := GroupsFor(geo.blocksCount, bpg);
    GroupsForBounds(geo.blocksCount, bpg);
    if m <= n {
      MulMono(m, n, bpg);
    }
    InodesGrow(geo.sizes, n, m);
  }

  /** The grow as a whole, once both halves are done and the counters written. */
  lemma Finish(d: bytes, d2: bytes, geo: Geometry, geo2: Geometry, room: nat, n: nat, target: nat)
    requires SB_END <= |d| && geo == GeometryOf(d) && GeoOk(geo.sizes) && 0 < n && target < POW32
    requires n == GroupsFor(geo.blocksCount, geo.sizes.blocksPerGroup) && geo.inodesCount == n * geo.sizes.inodesPerGroup
    requires geo.blocksCount <= FirstBlock(geo.sizes, n) && FirstBlock(geo.sizes, n) < POW32
    requires AfterAdd(d, d2, geo, geo2, room, n, target)
    requires geo2.freeBlocks < POW32 && geo2.freeInodes < POW32 && geo2.inodesCount < POW32
    ensures Grown(d, SuperBytes(d2, geo2.blocksCount, geo2.freeBlocks, geo2.inodesCount, geo2.freeInodes), room, target)
  {
    hide Accounted, OldGroups, GeometryOf, GroupsFor, GeoOk, AllLaid, AllFresh, SuperBytes, BlocksToGroups, BlockBitmap, Consistent, MidFramed, Keeps, InodesIn;
    var s, n2 := geo.sizes, CountAfter(geo.sizes, n, target);
    var wraps := target > FirstBlock(s, n) && !Appends(s, n, target);
    var top2 := EndAfter(geo, n, target);
    var d3 := SuperBytes(d2, geo2.blocksCount, geo2.freeBlocks, geo2.inodesCount, geo2.freeInodes);
    MidFinish(d, d2, s, room, n, n2, geo.blocksCount, top2, geo2.freeBlocks, geo2.freeInodes, geo2.blocksCount, geo2.inodesCount);
    InodesAdd(s, n, n2);
    if wraps {
      InconsistentAfter(d3, room, n);
    } else {
      ConsistentAfter(d3, room, n2);
    }
    FreshAfter(d, d2, geo, geo2, room, n, target);
    GeoPositive(s);
  }

  lemma NoneFresh(d: bytes, s: Sizes, from: nat, to: nat, target: nat)
    requires to <= from
    ensures AllFresh(d, s, from, to, target)
  {
  }

  lemma FreshAfter(d: bytes, d2: bytes, geo: Geometry, geo2: Geometry, room: nat, n: nat, target: nat)
    requires 0 < n && AfterAdd(d, d2, geo, geo2, room, n, target)
    ensures var n2 := CountAfter(geo.sizes, n, target);
            AllFresh(SuperBytes(d2, geo2.blocksCount, geo2.freeBlocks, geo2.inodesCount, geo2.freeInodes), geo.sizes, n, n2, target)
  {
    hide AllLaid, AllFresh, SuperBytes, OldGroups, Keeps, MidFramed, Distinct, GroupsOk, GroupOk, Padded, SumFreeBlocks, SumFreeInodes, BlockBitmap;
    var s, n2 := geo.sizes, CountAfter(geo.sizes, n, target);
    var d3 := SuperBytes(d2, geo2.blocksCount, geo2.freeBlocks, geo2.inodesCount, geo2.freeInodes);
    if n < n2 {
      AfterSuperblock(d2, s, room, n2, geo2.blocksCount, geo2.freeBlocks, geo2.freeInodes, n, target);
      LaidAllSuper(d2, s, n, n2, target, geo2.blocksCount, geo2.freeBlocks, geo2.inodesCount, geo2.freeInodes);
      AllFreshFrom(d3, s, n, n2, target);
    } else {
      NoneFresh(d3, s, n, n2, target);
    }
  }

  /** New groups start past the superblock. */
  lemma AfterSuperblock(d: bytes, s: Sizes, room: nat, n2: nat, top: nat, fb: nat, fi: nat, n: nat, target: nat)
    requires Accounted(d, s, room, n2, top, fb, fi) && 0 < n < n2
    requires AllLaid(d, s, n, n2, n2, target)
    ensures SB_END <= BaseOf(s, n)
  {
    hide Accounted, ClearBits, BlockBitmap, InodeBitmap, FreeBlocks, FreeInodes, Laid, PresentIn, AllLaid;
    FreshStarts(d, s, room, n2, top, fb, fi, n, target);
  }

  lemma FreshStarts(d: bytes, s: Sizes, room: nat, n2: nat, top: nat, fb: nat, fi: nat, n: nat, target: nat)
    requires Accounted(d, s, room, n2, top, fb, fi) && 0 < n < n2
    requires AllLaid(d, s, n, n2, n2, target)
    ensures DescOff(room) <= BaseOf(s, n)
  {
    hide Distinct, Padded, SumFreeBlocks, SumFreeInodes, ClearBits, BlockBitmap, InodeBitmap, FreeBlocks, FreeInodes, Laid, FreshGroup, PresentIn;
    assert GroupOk(d, s, room, top, n);
    assert Laid(d, s, n, PresentIn(s, n, n2, target));
    LaidIsFresh(d, s, n, PresentIn(s, n, n2, target));
    FreshBitmapAt(d, s, n, PresentIn(s, n, n2, target));
  }

  lemma FreshBitmapAt(d: bytes, s: Sizes, g: nat, present: nat)
    requires FreshGroup(d, s, g, present)
    ensures HasDesc(d, g) && BlockBitmap(d, g) * s.blockSize == BaseOf(s, g)
  {
  }

  /** A refusal after the bitmap was written: the last group no longer agrees with its descriptor. */
  lemma RefusedGrow(d: bytes, d': bytes, geo: Geometry, room: nat, n: nat, target: nat)
    requires SB_END <= |d| && geo == GeometryOf(d) && GeoOk(geo.sizes)
    requires n == GroupsFor(geo.blocksCount, geo.sizes.blocksPerGroup)
    requires Accounted(d, geo.sizes, room, n, geo.blocksCount, geo.freeBlocks, geo.freeInodes)
    requires GrowRefused(d, geo, n, target) && LastBitmap(d, geo, n)
    requires d' == Cleared(d, geo, n, Min(target, FirstBlock(geo.sizes, n)))
    ensures Refused(d, d', room, target)
  {
    hide GeometryOf, GroupsFor, GeoOk, GroupOk, GroupsOk, OldGroups, Distinct, Padded, SumFreeBlocks, SumFreeInodes,
         ClearedGroup, Keeps, BlockBitmap, FreeBlocks, Stopped, BlocksToGroups;
    ClearedOld(d, geo.sizes, room, n, geo.blocksCount, Min(target, FirstBlock(geo.sizes, n)), geo.freeBlocks, geo.freeInodes);
    KeepsSize(d, d', 0, SB_END);
    SameSizes(d, d');
  }

  /** A refusal while appending: the superblock does not count what the last group gained. */
  lemma RefusedAdd(d: bytes, d1: bytes, d': bytes, geo: Geometry, room: nat, n: nat, target: nat)
    requires SB_END <= |d| && geo == GeometryOf(d) && GeoOk(geo.sizes) && !GrowRefused(d, geo, n, target)
    requires 0 < n == GroupsFor(geo.blocksCount, geo.sizes.blocksPerGroup) && geo.inodesCount == n * geo.sizes.inodesPerGroup
    requires Appends(geo.sizes, n, target) && geo.blocksCount <= FirstBlock(geo.sizes, n)
    requires BlocksToGroups(target, geo.sizes.blocksPerGroup) <= room
    requires LastBitmap(d, geo, n) && d1 == Halfway(d, geo, n, FirstBlock(geo.sizes, n))
    requires Midway(d, d1, geo.sizes, room, n, n, geo.blocksCount, FirstBlock(geo.sizes, n),
                    geo.freeBlocks + (FirstBlock(geo.sizes, n) - geo.blocksCount), geo.freeInodes)
    requires Stopped(d1, d', geo.sizes, n, BlocksToGroups(target, geo.sizes.blocksPerGroup), target)
    ensures Refused(d, d', room, target)
  {
    hide GeometryOf, GroupsFor, GeoOk, GroupOk, GroupsOk, OldGroups, Distinct, Padded, SumFreeBlocks, SumFreeInodes,
         GrowGroup, Keeps, BlockBitmap, FreeBlocks, Stopped, BlocksToGroups, AllSame, MidFramed;
    var s := geo.sizes;
    CountMore(s, n, target);
    StoppedAccounted(d1, d', s, room, n, BlocksToGroups(target, s.blocksPerGroup), target,
                     geo.freeBlocks + (FirstBlock(s, n) - geo.blocksCount), geo.freeInodes);
    OldGroupsSame(d, d1, d', s, room, geo.blocksCount, FirstBlock(s, n), n);
    KeepsTrans(d, d1, d', 0, SB_END);
    KeepsSize(d, d', 0, SB_END);
    SameSizes(d, d');
    if geo.blocksCount == FirstBlock(s, n) {
      ConsistentAfter(d', room, n);
    }
  }

  /** Grows a file system to fill a disk of the given size. */
  method ExpandExt4WithinGroups(f: Image, maxDiskSize: int, ghost room: nat) returns (ok: bool)
    requires SB_END <= |f.data| ==> NoGeometry(GeometryOf(f.data)) || Growable(f.data, room, TargetBlocks(f.data, maxDiskSize))
    modifies f
    ensures old(|f.data|) < SB_END ==> !ok && f.data == old(f.data)
    ensures old(SB_END <= |f.data| && NoGeometry(GeometryOf(f.data))) ==> ok && f.data == old(f.data)
    ensures ok && old(!NoGeometry(GeometryOf(f.data))) ==>
      Grown(old(f.data), f.data, room, old(TargetBlocks(f.data, maxDiskSize)))
    ensures old(SB_END <= |f.data| && !NoGeometry(GeometryOf(f.data))) ==>
      (!ok <==> old(Refuses(f.data, TargetBlocks(f.data, maxDiskSize))))
    ensures !ok && old(SB_END <= |f.data| && !NoGeometry(GeometryOf(f.data))) ==>
      Refused(old(f.data), f.data, room, old(TargetBlocks(f.data, maxDiskSize)))
  {
    hide Refused, GrowRefused, AddsFit, LastBitmap, Halfway, Cleared, Stopped;
    hide Accounted, GeometryOf, GroupsFor, GeoOk, BlocksToGroups, Grown, SuperBytes, AfterAdd, Midway, InodesIn, FirstBlock;
    ghost var d := f.data;
    var read := ReadExt4Geometry(f);
    if read.None? {
      return false;
    }
    var geo := read.value;
    if geo.sizes.blockSize == 0 || geo.sizes.blocksPerGroup == 0 || geo.blocksCount == 0 {
      return true;
    }
    var maxBlocks := MaxAddressableBlocks(maxDiskSize, geo.sizes.blockSize);
    ghost var n := BlocksToGroups(geo.blocksCount, geo.sizes.blocksPerGroup);
    Prepared(d, geo, room, n);
    var geo1 := GrowStep(f, geo, maxBlocks, room, n);
    if geo1.None? {
      RefusedGrow(d, f.data, geo, room, n, maxBlocks);
      return false;
    }
    ghost var d1 := f.data;
    var geo2 := AddStep(f, d, geo, geo1.value, maxBlocks, room, n);
    if geo2.None? {
      RefusedAdd(d, d1, f.data, geo, room, n, maxBlocks);
      return false;
    }
    ghost var d2 := f.data;
    AddedTotals(d, d2, geo, geo2.value, room, n, maxBlocks);
    f.WriteUint32At(SB_BLOCKS, geo2.value.blocksCount);
    f.WriteUint32At(SB_FREE_BLOCKS, geo2.value.freeBlocks);
    f.WriteUint32At(SB_INODES, geo2.value.inodesCount);
    f.WriteUint32At(SB_FREE_INODES, geo2.value.freeInodes);
    SuperIs(d2, f.data, geo2.value);
    Finish(d, d2, geo, geo2.value, room, n, maxBlocks);
    return true;
  }

  lemma SuperIs(d: bytes, d': bytes, geo: Geometry)
    requires d' == Splice(Splice(Splice(Splice(d, SB_BLOCKS, Le(geo.blocksCount, 4)), SB_FREE_BLOCKS, Le(geo.freeBlocks, 4)),
                                 SB_INODES, Le(geo.inodesCount, 4)), SB_FREE_INODES, Le(geo.freeInodes, 4))
    ensures d' == SuperBytes(d, geo.blocksCount, geo.freeBlocks, geo.inodesCount, geo.freeInodes)
  {
    hide Splice, Le;
  }

  lemma FieldBound(d: bytes, off: nat)
    requires off + 4 <= |d|
    ensures U32At(d, off) < POW32
  {
    PowValues();
    LeValBound(d[off..off + 4]);
  }

  lemma Prepared(d: bytes, geo: Geometry, room: nat, n: nat)
    requires SB_END <= |d| && geo == GeometryOf(d) && Consistent(d, room)
    requires geo.blocksCount + geo.sizes.blocksPerGroup <= POW32 && geo.blocksCount > 0
    requires n == BlocksToGroups(geo.blocksCount, geo.sizes.blocksPerGroup)
    ensures GeoOk(geo.sizes) && 0 < n <= room && n == GroupsFor(geo.blocksCount, geo.sizes.blocksPerGroup)
    ensures Accounted(d, geo.sizes, room, n, geo.blocksCount, geo.freeBlocks, geo.freeInodes)
    ensures geo.inodesCount == n * geo.sizes.inodesPerGroup && geo.inodesCount < POW32
    ensures geo.blocksCount <= FirstBlock(geo.sizes, n) && FirstBlock(geo.sizes, n) < POW32
  {
    hide Accounted, GroupsFor, BlocksToGroups;
    FieldBound(d, SB_INODES);
    SameGroupCount(geo.blocksCount, geo.sizes.blocksPerGroup);
    GroupsForBounds(geo.blocksCount, geo.sizes.blocksPerGroup);
    AccountedCount(d, geo.sizes, room, n, geo.blocksCount, geo.freeBlocks, geo.freeInodes);
  }

  lemma AddedTotals(d: bytes, d2: bytes, geo: Geometry, geo2: Geometry, room: nat, n: nat, target: nat)
    requires AfterAdd(d, d2, geo, geo2, room, n, target) && target < POW32 && GeoOk(geo.sizes)
    requires geo.inodesCount == n * geo.sizes.inodesPerGroup && geo.inodesCount < POW32
    requires geo.blocksCount <= FirstBlock(geo.sizes, n) && FirstBlock(geo.sizes, n) < POW32
    requires InodesIn(geo.sizes, BlocksToGroups(target, geo.sizes.blocksPerGroup)) < POW32
    ensures geo2.freeBlocks < POW32 && geo2.freeInodes < POW32 && geo2.inodesCount < POW32
  {
    hide Accounted, OldGroups, MidFramed, AllLaid, GeoOk, BlocksToGroups;
    var s, n2 := geo.sizes, CountAfter(geo.sizes, n, target);
    var wraps := target > FirstBlock(s, n) && !Appends(s, n, target);
    var top2 := EndAfter(geo, n, target);
    InodesAdd(s, n, n2);
    GroupsCap(d2, s, room, n2, top2, geo2.freeBlocks, geo2.freeInodes);
    if Appends(s, n, target) {
      GeoPositive(s);
      GroupsCover(target, s.blocksPerGroup);
      OneMore(n2 - 1, s.blocksPerGroup);
    }
  }

  lemma GroupsCap(d: bytes, s: Sizes, room: nat, n: nat, top: nat, fb: nat, fi: nat)
    requires Accounted(d, s, room, n, top, fb, fi)
    ensures fb <= n * s.blocksPerGroup && fi <= n * s.inodesPerGroup
  {
    hide GroupOk, Distinct, Padded, SumFreeBlocks, SumFreeInodes, GroupsOk;
    SumsFit(d, s, room, top, n);
  }
}
