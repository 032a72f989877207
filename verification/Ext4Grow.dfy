/**
 * Growing an ext4 image in place: extend the last block group, append new
 * groups, then update the superblock.
 */
module Ext4Grow {
  import opened Prelude
  import opened Bytes
  import opened Ext4Bitmap
  import opened Ext4Image
  import opened Ext4Layout
  import opened Ext4Write
  import opened Ext4Accounting

  const MAX16 := 0xFFFF

  /** uint32 subtraction. */
  function Sub32(a: nat, b: nat): nat {
    (a - b) % POW32
  }

  /** The conditions under which the last group's bitmap is rewritten. */
  ghost predicate CanClear(d: bytes, geo: Geometry, g: nat, target: nat) {
    var bs, bpg := geo.sizes.blockSize, geo.sizes.blocksPerGroup;
    var from, to := Sub32(geo.blocksCount, g * bpg), Sub32(target, g * bpg);
    && HasDesc(d, g) && BlockBitmap(d, g) != 0 && BlockBitmap(d, g) * bs + bs <= |d| && from <= to <= bpg
  }

  /** The conditions under which extending the last group succeeds. */
  ghost predicate CanGrow(d: bytes, geo: Geometry, g: nat, target: nat) {
    var bpg := geo.sizes.blocksPerGroup;
    && CanClear(d, geo, g, target)
    && FreeBlocks(d, g) + (Sub32(target, g * bpg) - Sub32(geo.blocksCount, g * bpg)) <= MAX16
  }

  /**
   * Frees the bits of the added blocks and raises the descriptor's count by their number. A count
   * that does not fit is found out only once the bitmap has been written.
   */
  method GrowExistingLastGroup(f: Image, geo: Geometry, group: nat, targetBlocks: nat) returns (r: Option<nat>)
    requires group * geo.sizes.blocksPerGroup < POW32 && DescOff(group) < POW32
    modifies f
    ensures r.Some? <==> old(CanGrow(f.data, geo, group, targetBlocks))
    ensures old(!CanClear(f.data, geo, group, targetBlocks)) ==> f.data == old(f.data)
    ensures old(CanClear(f.data, geo, group, targetBlocks)) ==>
      var base := group * geo.sizes.blocksPerGroup;
      var from, to := Sub32(geo.blocksCount, base), Sub32(targetBlocks, base);
      && (r.None? ==> f.data == ClearedGroup(old(f.data), geo.sizes.blockSize, group, from, to))
      && (r.Some? ==> r.value == to - from && f.data == GrowGroup(old(f.data), geo.sizes.blockSize, group, from, to))
  {
    hide Splice, WithBits, WithFree;
    var bs := geo.sizes.blockSize;
    var desc := f.ReadAt(DescOff(group), DESC);
    if desc.None? {
      return None;
    }
    SliceSlice(f.data, DescOff(group), DescOff(group) + DESC, 0, 4);
    SliceSlice(f.data, DescOff(group), DescOff(group) + DESC, 12, 14);
    var bitmapBlock := LeVal(desc.value[0..4]);
    if bitmapBlock == 0 {
      return None;
    }
    var read := f.ReadAt(bitmapBlock * bs, bs);
    if read.None? {
      return None;
    }
    var groupBase := group * geo.sizes.blocksPerGroup;
    var oldWithin := Sub32(geo.blocksCount, groupBase);
    var targetWithin := Sub32(targetBlocks, groupBase);
    if oldWithin > targetWithin || targetWithin > geo.sizes.blocksPerGroup {
      return None;
    }
    var bitmap := ClearRange(read.value, oldWithin, targetWithin);
    f.WriteAt(bitmapBlock * bs, bitmap);
    var delta := targetWithin - oldWithin;
    var groupFree := LeVal(desc.value[12..14]);
    if groupFree + delta > MAX16 {
      return None;
    }
    f.WriteAt(DescOff(group), WithFree(desc.value, groupFree + delta));
    return Some(delta);
  }

  /** Clears a run of bits in a buffer. */
  method ClearRange(bits: bytes, from: nat, to: nat) returns (out: bytes)
    requires from <= to
    ensures out == WithBits(bits, from, to, false)
  {
    var buf := new byte[|bits|](i requires 0 <= i < |bits| => bits[i]);
    assert buf[..] == bits;
    for block := from to to
      invariant buf[..] == WithBits(bits, from, block, false)
    {
      ClearBitmapBit(buf, block);
    }
    out := buf[..];
  }

  method SetRange(buf: array<byte>, from: nat, to: nat)
    requires from <= to
    modifies buf
    ensures buf[..] == WithBits(old(buf[..]), from, to, true)
  {
    ghost var was := buf[..];
    for block := from to to
      invariant buf[..] == WithBits(was, from, block, true)
    {
      SetBitmapBit(buf, block);
    }
  }

  /** The block bitmap of a new group. */
  method FillBitmap(bs: nat, meta: nat, present: nat, bpg: nat) returns (out: bytes)
    requires present <= bpg
    ensures out == NewBitmap(bs, meta, present, bpg)
  {
    var buf := new byte[bs](i => 0);
    assert buf[..] == Zeros(bs);
    SetRange(buf, 0, meta);
    SetRange(buf, present, bpg);
    out := buf[..];
  }

  /** How many blocks of group g exist when the file system ends at target. */
  function PresentIn(geo: Sizes, g: nat, groups: nat, target: nat): nat {
    if g + 1 == groups && geo.blocksPerGroup > 0 && target % geo.blocksPerGroup != 0
    then Sub32(target, g * geo.blocksPerGroup) else geo.blocksPerGroup
  }

  /** Every group from from up to to passes the checks of a new group. */
  ghost predicate AllFit(geo: Sizes, from: nat, to: nat, groups: nat, target: nat) {
    forall g {:trigger Addable(geo, g, PresentIn(geo, g, groups, target))} :: from <= g < to ==>
      Addable(geo, g, PresentIn(geo, g, groups, target))
  }

  /** The image with the groups from from up to to laid out, in order. */
  ghost function AddAll(d: bytes, geo: Sizes, from: nat, to: nat, groups: nat, target: nat): bytes
    requires from <= to && AllFit(geo, from, to, groups, target)
  {
    if from == to then d
    else
      assert Addable(geo, to - 1, PresentIn(geo, to - 1, groups, target));
      AddGroup(AddAll(d, geo, from, to - 1, groups, target), geo, to - 1, PresentIn(geo, to - 1, groups, target))
  }

  /** What a group that does not fit leaves: nothing if it is too small, else all but its descriptor. */
  ghost function RefusedGroup(d: bytes, geo: Sizes, g: nat, present: nat): bytes
    requires geo.blockSize > 0 && present <= geo.blocksPerGroup
  {
    if present < MetaBlocks(geo) then d else PartGroup(d, geo, g, present)
  }

  /** Appending groups stopped at g, the first that does not fit. */
  ghost predicate StoppedAt(d: bytes, d': bytes, geo: Sizes, from: nat, groups: nat, target: nat, g: nat) {
    && from <= g < groups && AllFit(geo, from, g, groups, target)
    && var present := PresentIn(geo, g, groups, target);
       && !Addable(geo, g, present) && geo.blockSize > 0 && present <= geo.blocksPerGroup
       && d' == RefusedGroup(AddAll(d, geo, from, g, groups, target), geo, g, present)
  }

  ghost predicate Stopped(d: bytes, d': bytes, geo: Sizes, from: nat, groups: nat, target: nat) {
    exists g :: StoppedAt(d, d', geo, from, groups, target, g)
  }

  /** Free blocks those groups bring. */
  ghost function AddedFree(geo: Sizes, from: nat, to: nat, groups: nat, target: nat): nat
    requires from <= to && AllFit(geo, from, to, groups, target)
  {
    if from == to then 0
    else
      assert Addable(geo, to - 1, PresentIn(geo, to - 1, groups, target));
      AddedFree(geo, from, to - 1, groups, target) + Gain(geo, to - 1, PresentIn(geo, to - 1, groups, target))
  }

  /** Inodes of n groups. */
  function InodesIn(geo: Sizes, n: nat): nat {
    n * geo.inodesPerGroup
  }

  lemma PresentFits(geo: Sizes, g: nat, target: nat)
    requires GeoOk(geo) && 0 < target && target + geo.blocksPerGroup <= POW32
    requires g < BlocksToGroups(target, geo.blocksPerGroup)
    ensures var groups := BlocksToGroups(target, geo.blocksPerGroup);
            var present := PresentIn(geo, g, groups, target);
            && 0 < present <= geo.blocksPerGroup && g * geo.blocksPerGroup + present <= target
            && (g + 1 == groups ==> g * geo.blocksPerGroup + present == target)
  {
    var bpg := geo.blocksPerGroup;
    var groups := BlocksToGroups(target, bpg);
    GroupsCover(target, bpg);
    if g + 1 == groups {
      assert groups * bpg == g * bpg + bpg;
      if target % bpg == 0 {
        FullLast(target, bpg, g);
      }
    } else {
      MulMono(g + 1, groups - 1, bpg);
      assert (g + 1) * bpg == g * bpg + bpg;
    }
  }

  lemma FullLast(target: nat, bpg: nat, g: nat)
    requires bpg > 0 && target % bpg == 0 && g * bpg < target <= g * bpg + bpg
    ensures target == g * bpg + bpg
  {
    var q := target / bpg;
    assert target == q * bpg;
    assert (g + 2) * bpg == g * bpg + 2 * bpg;
    if q <= g {
      MulMono(q, g, bpg);
    } else if q >= g + 2 {
      MulMono(g + 2, q, bpg);
    }
  }

  /** Appends the groups from the current count up to the target's. */
  method AddExt4Groups(f: Image, geo: Geometry, targetBlocks: nat) returns (r: Option<(nat, nat)>)
    requires GeoOk(geo.sizes) && targetBlocks < POW32
    requires DescOff(BlocksToGroups(targetBlocks, geo.sizes.blocksPerGroup)) <= POW32
    modifies f
    ensures var current := BlocksToGroups(geo.blocksCount, geo.sizes.blocksPerGroup);
            var groups := BlocksToGroups(targetBlocks, geo.sizes.blocksPerGroup);
            && (groups <= current ==> r == Some((0, 0)) && f.data == old(f.data))
            && (groups > current ==>
                  && (r.Some? <==> AllFit(geo.sizes, current, groups, groups, targetBlocks))
                  && (r.Some? ==>
                        && f.data == AddAll(old(f.data), geo.sizes, current, groups, groups, targetBlocks)
                        && r.value == (AddedFree(geo.sizes, current, groups, groups, targetBlocks),
                                       InodesIn(geo.sizes, groups - current)))
                  && (r.None? ==> Stopped(old(f.data), f.data, geo.sizes, current, groups, targetBlocks)))
  {
    hide AddGroup, Addable, GeoOk, PresentIn, RefusedGroup;
    var s := geo.sizes;
    var current := BlocksToGroups(geo.blocksCount, s.blocksPerGroup);
    var groups := BlocksToGroups(targetBlocks, s.blocksPerGroup);
    if groups <= current {
      return Some((0, 0));
    }
    ghost var d := f.data;
    var addedFree, addedInodes := 0, 0;
    for group := current to groups
      invariant AllFit(s, current, group, groups, targetBlocks)
      invariant f.data == AddAll(d, s, current, group, groups, targetBlocks)
      invariant addedFree == AddedFree(s, current, group, groups, targetBlocks)
      invariant addedInodes == InodesIn(s, group - current)
    {
      var free := AddOneGroup(f, s, group, groups, targetBlocks);
      if free.None? {
        NoFit(s, current, group, groups, targetBlocks);
        AddableWhen(s, group, targetBlocks);
        GeoPositive(s);
        assert StoppedAt(d, f.data, s, current, groups, targetBlocks, group);
        return None;
      }
      addedFree := addedFree + free.value;
      addedInodes := addedInodes + s.inodesPerGroup;
      OneMore(group - current, s.inodesPerGroup);
    }
    return Some((addedFree, addedInodes));
  }

  lemma OneMore(n: nat, k: nat)
    ensures (n + 1) * k == n * k + k
  {
  }

  /** Lays out one new group; fails when it is too small or a count overflows its 16-bit field. */
  method AddOneGroup(f: Image, s: Sizes, group: nat, groups: nat, targetBlocks: nat) returns (r: Option<nat>)
    requires GeoOk(s) && targetBlocks < POW32 && groups == BlocksToGroups(targetBlocks, s.blocksPerGroup) && group < groups
    modifies f
    ensures r.Some? <==> Addable(s, group, PresentIn(s, group, groups, targetBlocks))
    ensures r.Some? ==>
      && f.data == AddGroup(old(f.data), s, group, PresentIn(s, group, groups, targetBlocks))
      && r.value == Gain(s, group, PresentIn(s, group, groups, targetBlocks))
    ensures s.blockSize > 0 && PresentIn(s, group, groups, targetBlocks) <= s.blocksPerGroup
    ensures r.None? ==> f.data == RefusedGroup(old(f.data), s, group, PresentIn(s, group, groups, targetBlocks))
  {
    hide NewBitmap, NewDesc, Splice, PresentIn, BlocksToGroups, Addable;
    ghost var d := f.data;
    assert s.blockSize > 0;
    var tableBlocks := TableBlocks(s);
    var metaBlocks := MetaBlocks(s);
    var present := PresentIn(s, group, groups, targetBlocks);
    AddableWhen(s, group, targetBlocks);
    if present < metaBlocks {
      return None;
    }
    var start := group * s.blocksPerGroup;
    var bitmap := FillBitmap(s.blockSize, metaBlocks, present, s.blocksPerGroup);
    RegionOffsets(s, group);
    f.WriteZeroRegion((start + 1) * s.blockSize, s.blockSize);
    f.WriteZeroRegion((start + 2) * s.blockSize, tableBlocks * s.blockSize);
    f.WriteAt(start * s.blockSize, bitmap);
    var free := present - metaBlocks;
    if free > MAX16 || s.inodesPerGroup > MAX16 {
      return None;
    }
    f.WriteAt(DescOff(group), NewDesc(start, start + 1, start + 2, free, s.inodesPerGroup));
    assert f.data == AddGroup(d, s, group, present);
    return Some(free);
  }

  /** The three checks of the code are all it takes. */
  lemma AddableWhen(s: Sizes, g: nat, target: nat)
    requires GeoOk(s) && target < POW32 && g < BlocksToGroups(target, s.blocksPerGroup)
    ensures var present := PresentIn(s, g, BlocksToGroups(target, s.blocksPerGroup), target);
            && present <= s.blocksPerGroup
            && (Addable(s, g, present) <==>
                MetaBlocks(s) <= present && present - MetaBlocks(s) <= MAX16 && s.inodesPerGroup <= MAX16)
  {
    GroupsCoverExactly(target, s.blocksPerGroup);
    PresentFits(s, g, target);
  }

  lemma NoFit(geo: Sizes, from: nat, g: nat, groups: nat, target: nat)
    requires from <= g < groups && !Addable(geo, g, PresentIn(geo, g, groups, target))
    ensures !AllFit(geo, from, groups, groups, target)
  {
  }

  lemma RegionOffsets(geo: Sizes, g: nat)
    ensures var first := g * geo.blocksPerGroup;
            && first * geo.blockSize == BaseOf(geo, g)
            && (first + 1) * geo.blockSize == BaseOf(geo, g) + geo.blockSize
            && (first + 2) * geo.blockSize == BaseOf(geo, g) + 2 * geo.blockSize
  {
  }
}
