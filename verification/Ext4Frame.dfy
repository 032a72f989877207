/** What a grow leaves as it was: bytes outside the bookkeeping, and the bits of old blocks. */
module Ext4Frame {
  import opened Bytes
  import opened Ext4Layout
  import opened Ext4Write
  import opened Ext4Accounting
  import opened Ext4Grow

  // ---------- appending all groups ----------

  /** Where the file system ends once the first k of groups groups exist. */
  function TopAt(geo: Sizes, k: nat, groups: nat, target: nat): nat {
    if k == groups then target else k * geo.blocksPerGroup
  }

  lemma NextTop(geo: Sizes, g: nat, target: nat)
    requires GeoOk(geo) && 0 < target && target + geo.blocksPerGroup <= POW32
    requires g < BlocksToGroups(target, geo.blocksPerGroup)
    ensures var groups := BlocksToGroups(target, geo.blocksPerGroup);
            g * geo.blocksPerGroup + PresentIn(geo, g, groups, target) == TopAt(geo, g + 1, groups, target)
  {
    PresentFits(geo, g, target);
    OneMore(g, geo.blocksPerGroup);
  }

  ghost predicate AllLaid(d: bytes, geo: Sizes, from: nat, to: nat, groups: nat, target: nat) {
    forall g {:trigger Laid(d, geo, g, PresentIn(geo, g, groups, target))} :: from <= g < to ==>
      Laid(d, geo, g, PresentIn(geo, g, groups, target))
  }

  /** A later group does not disturb an earlier new one. */
  lemma LaidKept(d: bytes, geo: Sizes, g: nat, present: nat, k: nat, present': nat)
    requires Laid(d, geo, g, present) && Addable(geo, k, present') && g < k && DescOff(k) + DESC <= BaseOf(geo, g)
    ensures Laid(AddGroup(d, geo, k, present'), geo, g, present)
  {
    hide NewBitmap, NewDesc, AddGroup, GeoOk;
    var bs, d' := geo.blockSize, AddGroup(d, geo, k, present');
    GroupBelow(geo, g, k);
    assert bs > 0 by {
      GeoPositive(geo);
    }
    AddKeeps(d, geo, k, present', BaseOf(geo, g), bs);
    AddKeeps(d, geo, k, present', BaseOf(geo, g) + bs, bs);
    AddKeeps(d, geo, k, present', BaseOf(geo, g) + 2 * bs, TableBlocks(geo) * bs);
    AddKeeps(d, geo, k, present', DescOff(g), DESC);
  }

  lemma GroupBelow(geo: Sizes, g: nat, k: nat)
    requires geo.blockSize > 0 && g < k && MetaBlocks(geo) <= geo.blocksPerGroup
    ensures BaseOf(geo, g) + MetaLen(geo) <= BaseOf(geo, k)
  {
    var bs, bpg := geo.blockSize, geo.blocksPerGroup;
    MulMono(g + 1, k, bpg);
    OneMore(g, bpg);
    MulMono(g * bpg + MetaBlocks(geo), k * bpg, bs);
    assert (g * bpg + MetaBlocks(geo)) * bs == g * bpg * bs + MetaBlocks(geo) * bs;
    assert MetaBlocks(geo) * bs == MetaLen(geo);
  }

  lemma AllLaidSnoc(d: bytes, geo: Sizes, from: nat, k: nat, groups: nat, target: nat)
    requires AllLaid(d, geo, from, k, groups, target) && from <= k
    requires Addable(geo, k, PresentIn(geo, k, groups, target)) && DescOff(k) + DESC <= BaseOf(geo, from)
    requires Laid(AddGroup(d, geo, k, PresentIn(geo, k, groups, target)), geo, k, PresentIn(geo, k, groups, target))
    ensures AllLaid(AddGroup(d, geo, k, PresentIn(geo, k, groups, target)), geo, from, k + 1, groups, target)
  {
    hide Laid, AddGroup, Addable, PresentIn;
    var d' := AddGroup(d, geo, k, PresentIn(geo, k, groups, target));
    forall g | from <= g < k + 1 ensures Laid(d', geo, g, PresentIn(geo, g, groups, target)) {
      if g < k {
        assert Laid(d, geo, g, PresentIn(geo, g, groups, target));
        BaseMono(geo, from, g);
        LaidKept(d, geo, g, PresentIn(geo, g, groups, target), k, PresentIn(geo, k, groups, target));
      }
    }
  }

  lemma BaseMono(geo: Sizes, a: nat, b: nat)
    requires a <= b
    ensures BaseOf(geo, a) <= BaseOf(geo, b)
  {
    MulMono(a, b, geo.blocksPerGroup);
    MulMono(a * geo.blocksPerGroup, b * geo.blocksPerGroup, geo.blockSize);
  }

  /** The accounts once the groups from from up to to are appended. */
  ghost predicate AddedOk(d: bytes, geo: Sizes, room: nat, from: nat, to: nat, groups: nat, target: nat, fb: nat, fi: nat)
    requires from <= to && AllFit(geo, from, to, groups, target)
  {
    var d' := AddAll(d, geo, from, to, groups, target);
    && Accounted(d', geo, room, to, TopAt(geo, to, groups, target),
                 fb + AddedFree(geo, from, to, groups, target), fi + InodesIn(geo, to - from))
    && AllLaid(d', geo, from, to, groups, target)
  }

  /** Appending all groups keeps the accounts and lays out each new group. */
  lemma {:induction false} AllAdded(d: bytes, geo: Sizes, room: nat, from: nat, to: nat, groups: nat, target: nat, fb: nat, fi: nat)
    requires GeoOk(geo) && 0 < target && target + geo.blocksPerGroup <= POW32
    requires groups == BlocksToGroups(target, geo.blocksPerGroup)
    requires from < groups && from <= to <= groups <= room && AllFit(geo, from, to, groups, target)
    requires Accounted(d, geo, room, from, from * geo.blocksPerGroup, fb, fi)
    ensures AddedOk(d, geo, room, from, to, groups, target, fb, fi)
  {
    hide GeoOk, Accounted, AllLaid, BlocksToGroups, Laid, AddGroup, Addable, PresentIn;
    if from == to {
      NoneLaid(d, geo, from, groups, target);
    } else {
      var k := to - 1;
      var present := PresentIn(geo, k, groups, target);
      var mid := AddAll(d, geo, from, k, groups, target);
      AllAdded(d, geo, room, from, k, groups, target, fb, fi);
      assert Addable(geo, k, present);
      var free := fb + AddedFree(geo, from, k, groups, target);
      AddAccounted(mid, AddGroup(mid, geo, k, present), geo, room, k, present,
                   free, fi + InodesIn(geo, k - from), free + Gain(geo, k, present));
      RoomBelow(d, geo, room, from, fb, fi);
      AllLaidSnoc(mid, geo, from, k, groups, target);
      NextTop(geo, k, target);
      OneMore(k - from, geo.inodesPerGroup);
    }
  }

  lemma NoneLaid(d: bytes, geo: Sizes, from: nat, groups: nat, target: nat)
    ensures AllLaid(d, geo, from, from, groups, target)
  {
  }

  lemma RoomBelow(d: bytes, geo: Sizes, room: nat, n: nat, fb: nat, fi: nat)
    requires Accounted(d, geo, room, n, n * geo.blocksPerGroup, fb, fi)
    ensures DescOff(room) <= BaseOf(geo, n)
  {
    hide GroupOk, GroupsOk, Distinct, Padded, SumFreeBlocks, SumFreeInodes, BlockBitmap, InodeBitmap;
    OkHasDesc(d, geo, room, n * geo.blocksPerGroup, n - 1);
    BaseAbove(d, geo, room, n * geo.blocksPerGroup, n - 1, n);
  }

  /** Appending groups keeps every range below the first of them, other than their descriptors. */
  lemma {:induction false} AllAddedKeep(d: bytes, geo: Sizes, from: nat, to: nat, groups: nat, target: nat, lo: nat, len: nat)
    requires from <= to && AllFit(geo, from, to, groups, target)
    requires lo + len <= |d| && lo + len <= BaseOf(geo, from)
    requires lo + len <= DescOff(from) || DescOff(to) <= lo
    ensures Keeps(d, AddAll(d, geo, from, to, groups, target), lo, len)
  {
    hide Addable, AddGroup, PresentIn, Keeps;
    if from < to {
      var k, mid := to - 1, AddAll(d, geo, from, to - 1, groups, target);
      AllAddedKeep(d, geo, from, k, groups, target, lo, len);
      assert Addable(geo, k, PresentIn(geo, k, groups, target));
      BaseMono(geo, from, k);
      KeepsSize(d, mid, lo, len);
      AddKeeps(mid, geo, k, PresentIn(geo, k, groups, target), lo, len);
      KeepsTrans(d, mid, AddGroup(mid, geo, k, PresentIn(geo, k, groups, target)), lo, len);
    } else {
      KeepsSelf(d, lo, len);
    }
  }

  lemma KeepsSelf(d: bytes, lo: nat, len: nat)
    requires lo + len <= |d|
    ensures Keeps(d, d, lo, len)
  {
  }
}
