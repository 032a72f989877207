/** Guest memory hotplug: memory blocks are brought online and offline through sysfs. */
module Hotplug {
  import opened Bytes
  import opened Prelude

  /** What a block's state file says. */
  datatype State = Online | Offline | Other

  datatype Reading = Failed | Absent | Present(state: State)

  datatype Request = Request(base: nat, total: nat, blockBytes: nat, target: nat)

  datatype Status = Status(blockSize: nat, requested: nat, plugged: nat, online: nat, present: nat)

  type Blocks = map<nat, State>

  predicate On(blocks: Blocks, id: nat) {
    id in blocks && blocks[id] == Online
  }

  predicate Off(blocks: Blocks, id: nat) {
    id in blocks ==> blocks[id] == Offline
  }

  /** How many blocks of [lo, hi) are present, and how many of them are not offline. */
  function PresentIn(blocks: Blocks, lo: nat, hi: nat): nat
    decreases hi
  {
    if hi <= lo then 0 else PresentIn(blocks, lo, hi - 1) + (if hi - 1 in blocks then 1 else 0)
  }

  function OnlineIn(blocks: Blocks, lo: nat, hi: nat): nat
    decreases hi
  {
    if hi <= lo then 0 else OnlineIn(blocks, lo, hi - 1) + (if Off(blocks, hi - 1) then 0 else 1)
  }

  /** The present blocks of [lo, hi), and those of them that are not offline. */
  ghost function PresentSet(blocks: Blocks, lo: nat, hi: nat): set<nat> {
    set id | id in blocks && lo <= id < hi
  }

  ghost function OnlineSet(blocks: Blocks, lo: nat, hi: nat): set<nat> {
    set id | id in blocks && lo <= id < hi && blocks[id] != Offline
  }

  lemma PresentNext(blocks: Blocks, lo: nat, k: nat)
    requires lo <= k
    ensures k !in PresentSet(blocks, lo, k)
    ensures PresentSet(blocks, lo, k + 1) == PresentSet(blocks, lo, k) + (if k in blocks then {k} else {})
  {
  }

  lemma OnlineNext(blocks: Blocks, lo: nat, k: nat)
    requires lo <= k
    ensures k !in OnlineSet(blocks, lo, k)
    ensures OnlineSet(blocks, lo, k + 1) == OnlineSet(blocks, lo, k) + (if Off(blocks, k) then {} else {k})
  {
  }

  /** The counts are the sizes of those sets. */
  lemma {:induction false} Counted(blocks: Blocks, lo: nat, hi: nat)
    ensures PresentIn(blocks, lo, hi) == |PresentSet(blocks, lo, hi)|
    ensures OnlineIn(blocks, lo, hi) == |OnlineSet(blocks, lo, hi)|
    decreases hi
  {
    hide PresentSet, OnlineSet, Off;
    if hi <= lo {
      NoBlocks(blocks, lo, hi);
    } else {
      Counted(blocks, lo, hi - 1);
      PresentNext(blocks, lo, hi - 1);
      OnlineNext(blocks, lo, hi - 1);
      OneMore(PresentSet(blocks, lo, hi - 1), hi - 1);
      OneMore(OnlineSet(blocks, lo, hi - 1), hi - 1);
    }
  }

  lemma NoBlocks(blocks: Blocks, lo: nat, hi: nat)
    requires hi <= lo
    ensures PresentSet(blocks, lo, hi) == {} && OnlineSet(blocks, lo, hi) == {}
  {
  }

  lemma OneMore(s: set<nat>, x: nat)
    requires x !in s
    ensures |s + {x}| == |s| + 1 && s + {} == s
  {
  }

  /** Exactly the blocks of [lo, mid) are online; the rest of [lo, hi) are offline or absent. */
  ghost predicate Converged(blocks: Blocks, lo: nat, mid: nat, hi: nat) {
    (forall id :: lo <= id < mid ==> On(blocks, id)) && forall id :: mid <= id < hi ==> Off(blocks, id)
  }

  /** Only blocks of [lo, hi) may differ. */
  ghost predicate SameBeyond(a: Blocks, b: Blocks, lo: nat, hi: nat) {
    forall id: nat :: !(lo <= id < hi) ==> (id in a <==> id in b) && (id in a ==> a[id] == b[id])
  }

  lemma {:induction false} ConvergedCount(blocks: Blocks, lo: nat, mid: nat, hi: nat, k: nat)
    requires Converged(blocks, lo, mid, hi) && lo <= mid <= hi && lo <= k <= hi
    ensures OnlineIn(blocks, lo, k) == (if k <= mid then k else mid) - lo
    decreases k
  {
    if k > lo {
      ConvergedCount(blocks, lo, mid, hi, k - 1);
      assert k - 1 < mid ==> On(blocks, k - 1);
      assert mid <= k - 1 ==> Off(blocks, k - 1);
    }
  }

  /** 64-bit addition. */
  function Add64(a: nat, b: nat): nat {
    (a + b) % POW64
  }

  predicate Aligned(r: Request, size: nat) {
    size > 0 && (r.blockBytes != 0 ==> r.blockBytes == size)
    && r.base % size == 0 && r.total % size == 0 && r.target <= r.total && r.target % size == 0
  }

  ghost predicate WholeBlocks(bytes: nat, size: nat) {
    exists k: nat :: bytes == k * size
  }

  /** The kernel's own block size or none asked for, everything in whole blocks, and no more wanted than there is. */
  ghost predicate Acceptable(r: Request, size: nat) {
    && size > 0 && (r.blockBytes == 0 || r.blockBytes == size)
    && WholeBlocks(r.base, size) && WholeBlocks(r.total, size) && WholeBlocks(r.target, size) && r.target <= r.total
  }

  lemma WholeExactly(bytes: nat, size: nat)
    requires size > 0
    ensures WholeBlocks(bytes, size) <==> bytes % size == 0
  {
    if bytes % size == 0 {
      var k := bytes / size;
      assert bytes == size * k + bytes % size;
      assert bytes == k * size;
    }
    if WholeBlocks(bytes, size) {
      var k: nat :| bytes == k * size;
      QuotientIs(bytes, size, k, 0);
      assert bytes == size * k + bytes % size;
    }
  }

  lemma AcceptableIsAligned(r: Request, size: nat)
    ensures Acceptable(r, size) <==> Aligned(r, size)
  {
    hide WholeBlocks;
    if size > 0 {
      WholeExactly(r.base, size);
      WholeExactly(r.total, size);
      WholeExactly(r.target, size);
    }
  }

  /** A size in whole blocks. */
  function InBlocks(bytes: nat, size: nat): nat {
    if size > 0 then bytes / size else 0
  }

  function FirstBlock(r: Request, size: nat): nat {
    InBlocks(r.base, size)
  }

  function EndBlock(r: Request, bytes: nat, size: nat): nat {
    InBlocks(Add64(r.base, bytes), size)
  }

  lemma ExactDiv(a: nat, b: nat, m: nat)
    requires m > 0 && a % m == 0 && b % m == 0
    ensures InBlocks(a + b, m) == InBlocks(a, m) + InBlocks(b, m) && InBlocks(b, m) * m == b
  {
    var p := a / m;
    var q := b / m;
    assert a == m * p && b == m * q;
    assert a + b == m * (p + q);
    QuotientIs(a + b, m, p + q, 0);
  }

  /** The blocks of an aligned request that stays below 2 to the 64. */
  lemma RequestBlocks(r: Request, size: nat)
    requires Aligned(r, size) && r.base + r.total < POW64
    ensures EndBlock(r, r.total, size) == FirstBlock(r, size) + InBlocks(r.total, size)
    ensures EndBlock(r, r.target, size) == FirstBlock(r, size) + InBlocks(r.target, size)
    ensures InBlocks(r.target, size) <= InBlocks(r.total, size)
    ensures InBlocks(r.target, size) * size == r.target
  {
    ExactDiv(r.base, r.total, size);
    ExactDiv(r.base, r.target, size);
    DivMono(r.target, r.total, size);
    hide InBlocks, Aligned;
  }

  lemma DivMono(a: nat, b: nat, m: nat)
    requires m > 0 && a <= b
    ensures InBlocks(a, m) <= InBlocks(b, m)
  {
    var p := a / m;
    var q := b / m;
    assert a == m * p + a % m && b == m * q + b % m;
    if q < p {
      MulGap(m, q, p);
    }
  }

  function ProbeAddr(r: Request, size: nat, id: nat): nat
    requires FirstBlock(r, size) <= id
  {
    r.base + (id - FirstBlock(r, size)) * size
  }

  /** What the status report says of a set of blocks. */
  function Report(r: Request, size: nat, blocks: Blocks): Status {
    var lo, hi := FirstBlock(r, size), EndBlock(r, r.total, size);
    var online := OnlineIn(blocks, lo, hi);
    Status(size, r.target, online * size, online, PresentIn(blocks, lo, hi))
  }

  /** Converged blocks are reported as plugging exactly the target. */
  lemma {:induction false} ReportConverged(r: Request, size: nat, blocks: Blocks, lo: nat, mid: nat, hi: nat)
    requires Aligned(r, size) && r.base + r.total < POW64 && Converged(blocks, lo, mid, hi)
    requires lo == FirstBlock(r, size) && hi == EndBlock(r, r.total, size) && mid == EndBlock(r, r.target, size)
    ensures Report(r, size, blocks) == Status(size, r.target, r.target, InBlocks(r.target, size), PresentIn(blocks, lo, hi))
  {
    hide EndBlock, FirstBlock, Aligned, InBlocks;
    RequestBlocks(r, size);
    ConvergedCount(blocks, lo, mid, hi, hi);
  }

  /** A region whose end wraps past 2 to the 64 is reported as holding nothing, whatever the blocks. */
  lemma ReportWrapped(r: Request, size: nat, blocks: Blocks)
    requires Aligned(r, size) && r.base < POW64 && r.total < POW64 && POW64 <= r.base + r.total
    ensures Report(r, size, blocks).plugged == 0
  {
    WrappedEnd(r, r.total, size);
    hide InBlocks;
    assert OnlineIn(blocks, FirstBlock(r, size), EndBlock(r, r.total, size)) == 0;
  }

  /** So the report of a converged region is the target exactly when the end does not wrap, or the target is 0. */
  lemma ReportExactly(r: Request, size: nat, blocks: Blocks)
    requires Aligned(r, size) && r.base < POW64 && r.total < POW64
    requires Converged(blocks, FirstBlock(r, size), EndBlock(r, r.target, size), EndBlock(r, r.total, size))
    ensures Report(r, size, blocks).plugged == r.target <==> r.base + r.total < POW64 || r.target == 0
  {
    hide Report, Converged, Aligned, FirstBlock, EndBlock;
    if r.base + r.total < POW64 {
      ReportConverged(r, size, blocks, FirstBlock(r, size), EndBlock(r, r.target, size), EndBlock(r, r.total, size));
    } else {
      ReportWrapped(r, size, blocks);
    }
  }

  /** Where the request's region ends in whole blocks, and where its target does. */
  function RegionEnd(r: Request, bytes: nat, size: nat): nat {
    FirstBlock(r, size) + InBlocks(bytes, size)
  }

  /** What is wanted: exactly the blocks of the region below the target are online. */
  ghost predicate Reached(r: Request, size: nat, blocks: Blocks) {
    Converged(blocks, FirstBlock(r, size), RegionEnd(r, r.target, size), RegionEnd(r, r.total, size))
  }

  /** The blocks a run may write to: those it plugs and those it unplugs. */
  predicate Handled(r: Request, size: nat, id: nat) {
    FirstBlock(r, size) <= id < EndBlock(r, r.target, size) || EndBlock(r, r.target, size) <= id < EndBlock(r, r.total, size)
  }

  ghost predicate KeptElsewhere(r: Request, size: nat, before: Blocks, after: Blocks) {
    forall id: nat :: !Handled(r, size, id) ==> (id in before <==> id in after) && (id in before ==> before[id] == after[id])
  }

  ghost predicate Settled(r: Request, size: nat, blocks: Blocks) {
    Converged(blocks, FirstBlock(r, size), EndBlock(r, r.target, size), EndBlock(r, r.total, size))
  }

  /** What a successful run may leave of the blocks it found; a settled state is left as it is. */
  ghost predicate Outcome(r: Request, size: nat, before: Blocks, after: Blocks) {
    Settled(r, size, after) && KeptElsewhere(r, size, before, after) && (Settled(r, size, before) ==> after == before)
  }

  /** Every successful run reaches the target exactly when the end of the region does not wrap. */
  lemma ApplyExactly(r: Request, size: nat)
    requires Aligned(r, size) && r.base < POW64 && r.total < POW64
    ensures (forall before: Blocks, after: Blocks :: Outcome(r, size, before, after) ==> Reached(r, size, after))
      <==> r.base + r.total < POW64
  {
    hide Converged, FirstBlock, EndBlock, InBlocks, Aligned, KeptElsewhere;
    if r.base + r.total < POW64 {
      RequestBlocks(r, size);
    } else if r.base + r.target < POW64 {
      LeftOnline(r, size);
    } else {
      LeftAbsent(r, size);
    }
  }

  /** An end that wraps lies at or below the region's start. */
  lemma WrappedEnd(r: Request, bytes: nat, size: nat)
    requires size > 0 && r.base < POW64 && bytes < POW64 && POW64 <= r.base + bytes
    ensures EndBlock(r, bytes, size) <= FirstBlock(r, size)
  {
    var end := Add64(r.base, bytes);
    assert end == r.base + bytes - POW64;
    DivMono(end, r.base, size);
  }

  function AllOnline(lo: nat, end: nat): (r: Blocks)
    ensures forall id: nat :: id in r <==> lo <= id < end
    ensures forall id: nat :: id in r ==> r[id] == Online
    decreases end
  {
    if end <= lo then map[] else AllOnline(lo, end - 1)[end - 1 := Online]
  }

  /** Only the total wraps: a region that is wholly online stays so, past the target as well. */
  lemma LeftOnline(r: Request, size: nat)
    requires Aligned(r, size) && r.base < POW64 && r.total < POW64
    requires r.base + r.target < POW64 <= r.base + r.total
    ensures exists blocks: Blocks :: Outcome(r, size, blocks, blocks) && !Reached(r, size, blocks)
  {
    WrappedEnd(r, r.total, size);
    TargetBlocks(r, size);
    hide InBlocks, Aligned, FirstBlock, EndBlock;
    var lo, end := FirstBlock(r, size), RegionEnd(r, r.total, size);
    var blocks := AllOnline(lo, end);
    var spare := RegionEnd(r, r.target, size);
    assert !Off(blocks, spare);
    assert Outcome(r, size, blocks, blocks);
  }

  /** The target wraps too: nothing is brought online, though some block should be. */
  lemma LeftAbsent(r: Request, size: nat)
    requires Aligned(r, size) && r.base < POW64 && r.total < POW64
    requires POW64 <= r.base + r.target
    ensures exists blocks: Blocks :: Outcome(r, size, blocks, blocks) && !Reached(r, size, blocks)
  {
    WrappedEnd(r, r.target, size);
    ExactDiv(r.base, r.target, size);
    hide InBlocks, Aligned, FirstBlock, EndBlock;
    var blocks: Blocks := map[];
    assert InBlocks(r.target, size) > 0;
    assert !On(blocks, FirstBlock(r, size));
    assert Outcome(r, size, blocks, blocks);
  }

  lemma TargetBlocks(r: Request, size: nat)
    requires Aligned(r, size) && r.base + r.target < POW64 && r.target < r.total
    ensures EndBlock(r, r.target, size) == RegionEnd(r, r.target, size) < RegionEnd(r, r.total, size)
  {
    ExactDiv(r.base, r.target, size);
    ExactDiv(r.base, r.total, size);
    DivMono(r.target, r.total, size);
    hide InBlocks, Aligned;
    assert InBlocks(r.target, size) * size != InBlocks(r.total, size) * size;
  }

  /** Once the target wraps, the blocks taken offline are blocks below the region. */
  lemma WrappedUnplugs(r: Request, size: nat, before: Blocks, after: Blocks, id: nat)
    requires Aligned(r, size) && r.base < POW64 && r.total < POW64 && POW64 <= r.base + r.target
    requires Outcome(r, size, before, after) && Handled(r, size, id)
    ensures id < FirstBlock(r, size) && Off(after, id)
  {
    WrappedEnd(r, r.target, size);
    WrappedEnd(r, r.total, size);
    hide InBlocks, Aligned, FirstBlock, EndBlock, KeptElsewhere;
  }

  /** The address probed for a block is that block's own. */
  lemma ProbeAddress(r: Request, size: nat, id: nat)
    requires Aligned(r, size) && FirstBlock(r, size) <= id
    ensures InBlocks(ProbeAddr(r, size, id), size) == id
  {
    var first := r.base / size;
    assert r.base == size * first;
    assert size * first + (id - first) * size == size * id;
    QuotientIs(size * id, size, id, 0);
  }

  /** The kernel's view: its answers and delays are arbitrary, but it only touches the block it is told to. */
  class Sysfs {
    const blockSize: nat
    var blocks: Blocks
    var writes: nat
    /** How often an access failed or a wait timed out. */
    ghost var faults: nat

    constructor (size: nat, blocks: Blocks)
      ensures blockSize == size && this.blocks == blocks && writes == 0
    {
      blockSize, this.blocks, writes, faults := size, blocks, 0, 0;
    }

    method ReadState(id: nat) returns (r: Reading)
      modifies `faults
      ensures r != Failed ==> r == (if id in blocks then Present(blocks[id]) else Absent)
      ensures old(faults) <= faults && (r == Failed ==> faults > old(faults))
    {
      var io: bool := *;
      faults := if io then faults else faults + 1;
      r := if !io then Failed else if id in blocks then Present(blocks[id]) else Absent;
    }

    /** A write to a state file, and whatever the kernel makes of it. */
    method WriteState(id: nat) returns (ok: bool)
      requires id in blocks
      modifies this
      ensures SameBeyond(old(blocks), blocks, id, id + 1) && id in blocks && writes == old(writes) + 1
      ensures old(faults) <= faults && (!ok ==> faults > old(faults))
    {
      ok := *;
      faults := if ok then faults else faults + 1;
      writes := writes + 1;
      var s: State := *;
      blocks := blocks[id := s];
    }

    /** The wait after a write ends well only once the wanted state has been read. */
    method WaitState(id: nat, want: State) returns (ok: bool)
      requires id in blocks
      modifies `blocks, `faults
      ensures SameBeyond(old(blocks), blocks, id, id + 1) && id in blocks
      ensures ok ==> blocks[id] == want
      ensures old(faults) <= faults && (!ok ==> faults > old(faults))
    {
      var polls: nat := *;
      while polls > 0
        invariant SameBeyond(old(blocks), blocks, id, id + 1) && id in blocks
        invariant old(faults) <= faults
        decreases polls
      {
        var s: State := *;
        blocks := blocks[id := s];
        var r := ReadState(id);
        if r == Failed {
          return false;
        }
        if r == Present(want) {
          return true;
        }
        polls := polls - 1;
      }
      faults := faults + 1;
      return false;
    }

    /** A write to the probe file: the block at that address may appear. */
    method Probe(addr: nat) returns (ok: bool)
      modifies this
      ensures SameBeyond(old(blocks), blocks, InBlocks(addr, blockSize), InBlocks(addr, blockSize) + 1) && writes == old(writes) + 1
      ensures old(faults) <= faults && (!ok ==> faults > old(faults))
    {
      ok := *;
      faults := if ok then faults else faults + 1;
      writes := writes + 1;
      var appears: bool := *;
      if appears {
        var s: State := *;
        blocks := blocks[InBlocks(addr, blockSize) := s];
      }
    }

    method EnsurePresent(addr: nat, id: nat) returns (ok: bool)
      requires InBlocks(addr, blockSize) == id
      modifies this
      ensures SameBeyond(old(blocks), blocks, id, id + 1)
      ensures ok ==> id in blocks
      ensures id in old(blocks) ==> blocks == old(blocks) && writes == old(writes)
      ensures old(writes) <= writes <= old(writes) + 1
      ensures old(faults) <= faults && (!ok ==> faults > old(faults))
    {
      var r := ReadState(id);
      if r == Failed {
        return false;
      }
      if r != Absent {
        return true;
      }
      ok := Probe(addr);
      if !ok {
        return;
      }
      var polls: nat := *;
      while polls > 0
        invariant SameBeyond(old(blocks), blocks, id, id + 1) && writes == old(writes) + 1
        invariant old(faults) <= faults
        decreases polls
      {
        var appears: bool := *;
        if appears {
          var s: State := *;
          blocks := blocks[id := s];
        }
        r := ReadState(id);
        if r.Present? {
          return true;
        }
        polls := polls - 1;
      }
      faults := faults + 1;
      return false;
    }

    method EnsureOnline(id: nat) returns (ok: bool)
      modifies this
      ensures SameBeyond(old(blocks), blocks, id, id + 1)
      ensures ok ==> On(blocks, id)
      ensures On(old(blocks), id) ==> blocks == old(blocks) && writes == old(writes)
      ensures old(writes) <= writes <= old(writes) + 2
      ensures old(faults) <= faults && (!ok && id in old(blocks) ==> faults > old(faults))
    {
      var r := ReadState(id);
      if r == Failed || r == Absent {
        return false;
      }
      if r == Present(Online) {
        return true;
      }
      for attempt := 0 to 2
        invariant SameBeyond(old(blocks), blocks, id, id + 1) && id in blocks
        invariant old(faults) <= faults && (attempt > 0 ==> faults > old(faults))
        invariant writes == old(writes) + attempt
      {
        ok := WriteState(id);
        if !ok {
          continue;
        }
        ok := WaitState(id, Online);
        if ok {
          return;
        }
      }
      return false;
    }

    method EnsureOffline(id: nat) returns (ok: bool)
      modifies this
      ensures SameBeyond(old(blocks), blocks, id, id + 1)
      ensures ok ==> Off(blocks, id)
      ensures Off(old(blocks), id) ==> blocks == old(blocks) && writes == old(writes)
      ensures old(writes) <= writes <= old(writes) + 1
      ensures old(faults) <= faults && (!ok ==> faults > old(faults))
    {
      var r := ReadState(id);
      if r == Failed {
        return false;
      }
      if r == Absent || r == Present(Offline) {
        return true;
      }
      ok := WriteState(id);
      if ok {
        ok := WaitState(id, Offline);
      }
    }

    /** The block size is read from sysfs too; zero is an error. */
    method Collect(r: Request) returns (s: Option<Status>)
      modifies `faults
      ensures s.Some? ==> Aligned(r, blockSize)
      ensures old(faults) <= faults && (s.None? && Aligned(r, blockSize) ==> faults > old(faults))
      ensures s.Some? ==> s.value == Report(r, blockSize, blocks)
    {
      var io: bool := *;
      faults := if io then faults else faults + 1;
      if !io || !Aligned(r, blockSize) {
        return None;
      }
      hide EndBlock, FirstBlock, Aligned;
      var lo, hi := FirstBlock(r, blockSize), EndBlock(r, r.total, blockSize);
      var online, present := 0, 0;
      var id := lo;
      while id < hi
        invariant lo <= id && (if lo <= hi then id <= hi else id == lo)
        invariant online == OnlineIn(blocks, lo, id) && present == PresentIn(blocks, lo, id)
        invariant old(faults) <= faults
      {
        var reading := ReadState(id);
        if reading == Failed {
          return None;
        }
        if reading.Present? {
          present := present + 1;
          if reading.state != Offline {
            online := online + 1;
          }
        }
        id := id + 1;
      }
      return Some(Status(blockSize, r.target, online * blockSize, online, present));
    }

    /** Brings the blocks of [lo, mid) online, lowest first. */
    method Plug(r: Request, lo: nat, mid: nat) returns (ok: bool)
      requires Aligned(r, blockSize) && lo == FirstBlock(r, blockSize)
      modifies this
      ensures SameBeyond(old(blocks), blocks, lo, mid)
      ensures ok ==> forall id :: lo <= id < mid ==> On(blocks, id)
      ensures (forall id :: lo <= id < mid ==> On(old(blocks), id)) ==> blocks == old(blocks) && writes == old(writes)
      ensures old(faults) <= faults && (!ok ==> faults > old(faults))
    {
      hide FirstBlock, ProbeAddr, InBlocks;
      ghost var ready := forall id :: lo <= id < mid ==> On(blocks, id);
      var id := lo;
      while id < mid
        invariant lo <= id
        invariant SameBeyond(old(blocks), blocks, lo, if id <= mid then id else mid)
        invariant forall k :: lo <= k < id && k < mid ==> On(blocks, k)
        invariant ready ==> blocks == old(blocks) && writes == old(writes)
        invariant old(faults) <= faults
      {
        ghost var before := blocks;
        assert ready ==> On(blocks, id);
        ProbeAddress(r, blockSize, id);
        ok := EnsurePresent(ProbeAddr(r, blockSize, id), id);
        if !ok {
          return;
        }
        ok := EnsureOnline(id);
        if !ok {
          return;
        }
        forall k | lo <= k < id ensures On(blocks, k) {
          assert On(before, k);
        }
        id := id + 1;
      }
      ok := true;
    }

    /** Takes the blocks of [mid, hi) offline, highest first. */
    method Unplug(mid: nat, hi: nat) returns (ok: bool)
      modifies this
      ensures SameBeyond(old(blocks), blocks, mid, hi)
      ensures ok ==> forall id :: mid <= id < hi ==> Off(blocks, id)
      ensures (forall id :: mid <= id < hi ==> Off(old(blocks), id)) ==> blocks == old(blocks) && writes == old(writes)
      ensures old(faults) <= faults && (!ok ==> faults > old(faults))
    {
      ghost var ready := forall id :: mid <= id < hi ==> Off(blocks, id);
      var id := hi;
      while id > mid
        invariant id <= hi
        invariant SameBeyond(old(blocks), blocks, if id <= mid then mid else id, hi)
        invariant forall k :: id <= k < hi && mid <= k ==> Off(blocks, k)
        invariant ready ==> blocks == old(blocks) && writes == old(writes)
        invariant old(faults) <= faults
      {
        ghost var before := blocks;
        ok := EnsureOffline(id - 1);
        if !ok {
          return;
        }
        forall k | id <= k < hi ensures Off(blocks, k) {
          assert Off(before, k);
        }
        id := id - 1;
      }
      ok := true;
    }

    /**
     * Whatever the kernel does: a successful run leaves the blocks it plugs online and those it
     * unplugs offline or absent, and reports what it left; no other block is ever touched; and from a
     * settled state nothing is written. An aligned request fails only if some access failed or some
     * wait timed out. ApplyExactly says when this reaches the target.
     */
    method Apply(r: Request) returns (s: Option<Status>)
      modifies this
      ensures s.Some? ==> s.value == Report(r, blockSize, blocks)
      ensures s.None? && Acceptable(r, blockSize) ==> faults > old(faults)
      ensures !Acceptable(r, blockSize) ==> s.None? && blocks == old(blocks) && writes == old(writes)
      ensures KeptElsewhere(r, blockSize, old(blocks), blocks)
      ensures s.Some? ==> Outcome(r, blockSize, old(blocks), blocks)
      ensures Settled(r, blockSize, old(blocks)) ==> blocks == old(blocks) && writes == old(writes)
      ensures s.Some? && r.base + r.total < POW64 ==> s.value.plugged == r.target
    {
      hide EndBlock, FirstBlock, Report, InBlocks, Acceptable;
      AcceptableIsAligned(r, blockSize);
      s := Collect(r);
      if s.None? {
        return;
      }
      hide Aligned;
      var lo, hi, mid := FirstBlock(r, blockSize), EndBlock(r, r.total, blockSize), EndBlock(r, r.target, blockSize);
      var ok := Plug(r, lo, mid);
      if !ok {
        return None;
      }
      ghost var plugged := blocks;
      ok := Unplug(mid, hi);
      if !ok {
        return None;
      }
      forall id | lo <= id < mid ensures On(blocks, id) {
        assert On(plugged, id);
      }
      if r.base + r.total < POW64 {
        ReportConverged(r, blockSize, blocks, lo, mid, hi);
      }
      s := Collect(r);
    }
  }
}
