/** The ELF loader: bounds checks, the overlap check on neighbours, and the concurrent copies. */
module ElfLoad {
  import opened Bytes
  import opened Elf
  import opened Names
  import opened Prelude

  const MAX_INT: nat := 0x7FFF_FFFF_FFFF_FFFF

  /** A program header, and the file from its offset on. */
  datatype Prog = Prog(load: bool, start: nat, memsz: nat, filesz: nat, file: bytes)

  /** The segment of a header; a file that ends early gives fewer bytes than asked for. */
  function SegOf(p: Prog): (s: Seg)
    ensures |s.data| <= s.filesz
  {
    Seg(p.start, p.memsz, p.filesz, if p.filesz <= |p.file| then p.file[..p.filesz] else p.file)
  }

  predicate InRange(size: nat, s: Seg) {
    && s.memsz <= POW64 - 1 - s.start && s.start + s.memsz <= size
    && s.filesz <= MAX_INT && s.filesz <= POW64 - 1 - s.start && s.start + s.filesz <= size
  }

  /** Only loadable headers become segments. */
  function Loads(progs: seq<Prog>): seq<Seg> {
    if progs == [] then
      []
    else
      var k := |progs| - 1;
      Loads(progs[..k]) + (if progs[k].load then [SegOf(progs[k])] else [])
  }

  lemma LoadsStep(progs: seq<Prog>, i: nat)
    requires i < |progs|
    ensures Loads(progs[..i + 1]) == Loads(progs[..i]) + (if progs[i].load then [SegOf(progs[i])] else [])
  {
    assert progs[..i + 1][..i] == progs[..i];
  }

  lemma {:induction false} LoadsAt(progs: seq<Prog>, i: nat)
    requires i < |progs| && progs[i].load
    ensures SegOf(progs[i]) in Loads(progs)
  {
    var k := |progs| - 1;
    if i < k {
      LoadsAt(progs[..k], i);
    }
  }

  /** A header whose memory and file parts lie in memory, below 2 to the 64, its file part no longer than an int. */
  ghost predicate Inside(size: nat, p: Prog) {
    && p.start + p.memsz <= size && p.start + p.filesz <= size
    && p.start + p.memsz <= 0xFFFF_FFFF_FFFF_FFFF && p.start + p.filesz <= 0xFFFF_FFFF_FFFF_FFFF
    && p.filesz <= 0x7FFF_FFFF_FFFF_FFFF
  }

  /** A header whose file part is there, whole. */
  ghost predicate HasFile(p: Prog) {
    0 < p.filesz <= |p.file|
  }

  lemma OneSegment(size: nat, p: Prog)
    ensures InRange(size, SegOf(p)) <==> Inside(size, p)
    ensures Readable(SegOf(p)) <==> HasFile(p)
  {
  }

  /** The segments are those of the loadable headers. */
  lemma {:induction false} LoadsOf(progs: seq<Prog>, s: Seg)
    ensures s in Loads(progs) <==> exists p :: p in progs && p.load && SegOf(p) == s
  {
    hide SegOf;
    if progs != [] {
      var k := |progs| - 1;
      LoadsOf(progs[..k], s);
      assert progs == progs[..k] + [progs[k]];
    }
  }

  lemma {:induction false} AllHeaders(progs: seq<Prog>, size: nat)
    ensures (forall s :: s in Loads(progs) ==> InRange(size, s)) <==> (forall p :: p in progs && p.load ==> Inside(size, p))
    ensures (forall s :: s in Loads(progs) ==> Readable(s)) <==> (forall p :: p in progs && p.load ==> HasFile(p))
  {
    hide Loads, SegOf, InRange, Inside, Readable, HasFile;
    forall s ensures s in Loads(progs) <==> exists p :: p in progs && p.load && SegOf(p) == s {
      LoadsOf(progs, s);
    }
    forall p ensures InRange(size, SegOf(p)) <==> Inside(size, p) {
      OneSegment(size, p);
    }
    forall p ensures Readable(SegOf(p)) <==> HasFile(p) {
      OneSegment(size, p);
    }
    forall p | p in progs && p.load ensures SegOf(p) in Loads(progs) {
    }
  }

  /** The loadable segments, or nothing if one does not fit the guest's memory. */
  method Collect(progs: seq<Prog>, size: nat) returns (r: Option<seq<Seg>>)
    ensures r.Some? <==> forall s :: s in Loads(progs) ==> InRange(size, s)
    ensures r.Some? <==> forall p :: p in progs && p.load ==> Inside(size, p)
    ensures r.Some? ==> r.value == Loads(progs) && Fits(size, r.value)
  {
    AllHeaders(progs, size);
    hide Inside;
    var segs: seq<Seg> := [];
    for i := 0 to |progs|
      invariant segs == Loads(progs[..i]) && Fits(size, segs)
      invariant forall s :: s in segs ==> InRange(size, s)
    {
      hide Loads;
      LoadsStep(progs, i);
      if progs[i].load {
        var s := SegOf(progs[i]);
        if !InRange(size, s) {
          LoadsAt(progs, i);
          return None;
        }
        segs := segs + [s];
      }
    }
    assert progs[..|progs|] == progs;
    return Some(segs);
  }

  ghost predicate ByStart(segs: seq<Seg>) {
    forall i, j :: 0 <= i < j < |segs| ==> segs[i].start <= segs[j].start
  }

  function Insert(s: Seg, segs: seq<Seg>): seq<Seg> {
    if segs == [] then [s] else if s.start <= segs[0].start then [s] + segs else [segs[0]] + Insert(s, segs[1..])
  }

  lemma {:induction false} InsertKeeps(s: Seg, segs: seq<Seg>)
    ensures multiset(Insert(s, segs)) == multiset(segs) + multiset{s}
  {
    if segs != [] {
      InsertKeeps(s, segs[1..]);
      assert segs == [segs[0]] + segs[1..];
    }
  }

  lemma {:induction false} InsertByStart(s: Seg, segs: seq<Seg>)
    requires ByStart(segs)
    ensures ByStart(Insert(s, segs))
  {
    if segs != [] && s.start > segs[0].start {
      InsertByStart(s, segs[1..]);
      InsertKeeps(s, segs[1..]);
      var rest := Insert(s, segs[1..]);
      forall i | 0 <= i < |rest| ensures segs[0].start <= rest[i].start {
        assert rest[i] in multiset(rest);
        assert rest[i] == s || rest[i] in segs[1..];
      }
    }
  }

  method SortByStart(segs: seq<Seg>) returns (r: seq<Seg>)
    ensures multiset(r) == multiset(segs) && ByStart(r)
  {
    r := [];
    for i := 0 to |segs|
      invariant multiset(r) == multiset(segs[..i]) && ByStart(r)
    {
      InsertKeeps(segs[i], r);
      InsertByStart(segs[i], r);
      r := Insert(segs[i], r);
      assert segs[..i + 1] == segs[..i] + [segs[i]];
    }
    assert segs[..|segs|] == segs;
  }

  /** Each segment starts no earlier than its predecessor ends. */
  ghost predicate Stacked(segs: seq<Seg>, n: nat) {
    n <= |segs| && forall i, j :: 0 < j < n && i == j - 1 ==> End(segs[i]) <= segs[j].start
  }

  /** Checking neighbours settles all pairs. */
  lemma {:induction false} StackedApart(segs: seq<Seg>, i: nat, j: nat)
    requires Stacked(segs, |segs|) && i < j < |segs|
    ensures End(segs[i]) <= segs[j].start
    decreases j
  {
    var k := j - 1;
    assert End(segs[k]) <= segs[j].start;
    if i < k {
      StackedApart(segs, i, k);
    }
  }

  method CheckOverlap(segs: seq<Seg>) returns (ok: bool)
    requires ByStart(segs)
    ensures ok ==> PairwiseApart(segs)
    ensures (forall s :: s in segs ==> s.memsz > 0) ==> (ok <==> PairwiseApart(segs))
  {
    var i := 1;
    while i < |segs|
      invariant 1 <= i && (segs == [] || Stacked(segs, i))
    {
      if segs[i].start < End(segs[i - 1]) {
        if forall s :: s in segs ==> s.memsz > 0 {
          assert segs[i - 1] in segs && segs[i] in segs;
          assert !Apart(segs[i - 1], segs[i]);
        }
        return false;
      }
      i := i + 1;
    }
    forall i, j | 0 <= i < j < |segs| ensures Apart(segs[i], segs[j]) {
      StackedApart(segs, i, j);
    }
    return true;
  }

  lemma ApartPermuted(a: seq<Seg>, b: seq<Seg>)
    requires multiset(a) == multiset(b)
    ensures forall s :: s in a <==> s in b
  {
    forall s ensures s in a <==> s in b {
      assert s in a <==> s in multiset(a);
      assert s in b <==> s in multiset(b);
    }
  }

  /** Between two byte writes: the schedule so far accounts for memory and for what is left. */
  ghost predicate Progress(was: bytes, segs: seq<Seg>, schedule: seq<Write>, rest: set<Write>, now: bytes) {
    Fits(|was|, segs) && rest <= Writes(segs)
    && NoDup(schedule) && Elems(schedule) == Writes(segs) - rest
    && (forall w :: w in schedule ==> Good(segs, w))
    && now == After(was, segs, schedule)
  }

  lemma ProgressStep(was: bytes, segs: seq<Seg>, schedule: seq<Write>, rest: set<Write>, now: bytes, w: Write)
    requires Progress(was, segs, schedule, rest, now) && w in rest
    ensures Good(segs, w) && Target(segs, w) < |now| == |was|
    ensures Progress(was, segs, schedule + [w], rest - {w}, now[Target(segs, w) := segs[w.seg].data[w.off]])
  {
    assert w in Writes(segs);
    assert Good(segs, w);
    assert segs[w.seg] in segs;
    hide Elems, NoDup, Writes, After;
    AppendNoDup(schedule, w);
    ElemsAppend(schedule, w);
    AfterStep(was, segs, schedule, w);
  }

  lemma {:induction false} ProgressDone(was: bytes, segs: seq<Seg>, schedule: seq<Write>, now: bytes)
    requires Progress(was, segs, schedule, {}, now)
    ensures Interleaving(segs, schedule) && (forall w :: w in schedule ==> Good(segs, w))
    ensures now == After(was, segs, schedule)
  {
  }

  /**
   * The concurrent copies: at each step any copy may do its next byte, in any order. A copy whose
   * read fails has put what the file held, and the other copies run to their ends all the same.
   */
  method CopyAll(mem: array<byte>, segs: seq<Seg>) returns (kernEnd: nat, failed: bool, ghost schedule: seq<Write>)
    requires Fits(mem.Length, segs)
    modifies mem
    ensures Interleaving(segs, schedule) && (forall w :: w in schedule ==> Good(segs, w))
    ensures mem[..] == After(old(mem[..]), segs, schedule)
    ensures Bounded(segs, kernEnd) && (failed <==> exists s :: s in segs && !Readable(s))
  {
    kernEnd := KernelEnd(segs);
    failed := exists s :: s in segs && !Readable(s);
    schedule := [];
    var rest := Writes(segs);
    hide Progress, Writes, Interleaving, Bounded;
    ghost var was := mem[..];
    assert Progress(was, segs, schedule, rest, mem[..]) by { ProgressNone(was, segs); }
    while rest != {}
      invariant Progress(was, segs, schedule, rest, mem[..])
      decreases |rest|
    {
      var w :| w in rest;
      ProgressStep(was, segs, schedule, rest, mem[..], w);
      mem[segs[w.seg].start + w.off] := segs[w.seg].data[w.off];
      schedule := schedule + [w];
      rest := rest - {w};
    }
    ProgressDone(was, segs, schedule, mem[..]);
  }

  lemma ProgressNone(was: bytes, segs: seq<Seg>)
    requires Fits(|was|, segs)
    ensures Progress(was, segs, [], Writes(segs), was)
  {
  }

  lemma {:induction false} AfterStep(mem: bytes, segs: seq<Seg>, schedule: seq<Write>, w: Write)
    requires Fits(|mem|, segs) && (forall v :: v in schedule ==> Good(segs, v)) && Good(segs, w)
    requires Target(segs, w) < |mem|
    ensures After(mem, segs, schedule + [w]) == After(mem, segs, schedule)[Target(segs, w) := segs[w.seg].data[w.off]]
  {
    assert (schedule + [w])[..|schedule|] == schedule;
  }

  /** e is the highest segment end, 0 if there is none. */
  ghost predicate Bounded(segs: seq<Seg>, e: nat) {
    (forall s :: s in segs ==> End(s) <= e) && (e == 0 || exists s :: s in segs && End(s) == e)
  }

  /** The highest segment end, as the copies are started. */
  method KernelEnd(segs: seq<Seg>) returns (e: nat)
    ensures Bounded(segs, e)
  {
    e := 0;
    for i := 0 to |segs|
      invariant forall s :: s in segs[..i] ==> End(s) <= e
      invariant e == 0 || exists s :: s in segs && End(s) == e
    {
      if End(segs[i]) > e {
        e := End(segs[i]);
      }
    }
  }

  /** A load is refused before anything is copied, ends with a read error, or gives the kernel's end. */
  datatype Load = Refused | ReadError | Done(kernEnd: nat)

  /**
   * A refused load changes nothing. Otherwise all segments are apart and all copies have run: if no
   * file part is longer than its memory part, memory is that of loading in program order, whatever
   * the interleaving. The load succeeds if every segment could be read.
   */
  method LoadElf(mem: array<byte>, progs: seq<Prog>) returns (r: Load)
    modifies mem
    ensures r.Refused? ==> mem[..] == old(mem[..])
    ensures !r.Refused? ==> Fits(mem.Length, Loads(progs)) && PairwiseApart(Loads(progs))
    ensures !r.Refused? ==> (r.Done? <==> forall p :: p in progs && p.load ==> HasFile(p))
    ensures !r.Refused? && Agree(Loads(progs)) ==> mem[..] == InOrder(old(mem[..]), Loads(progs))
    ensures !r.Refused? && (forall s :: s in Loads(progs) ==> |s.data| <= s.memsz) ==> Agree(Loads(progs))
    ensures r.Done? ==> Bounded(Loads(progs), r.kernEnd)
    ensures (exists p :: p in progs && p.load && !Inside(mem.Length, p)) ==> r.Refused?
    ensures (forall p :: p in progs && p.load ==> Inside(mem.Length, p)) && (forall s :: s in Loads(progs) ==> s.memsz > 0) ==>
      (!r.Refused? <==> PairwiseApart(Loads(progs)))
  {
    AllHeaders(progs, mem.Length);
    hide Inside, HasFile, Readable, InRange;
    var found := Collect(progs, mem.Length);
    if found.None? {
      return Refused;
    }
    hide Loads, Agree, InOrder, Interleaving, PairwiseApart;
    var segs := SortByStart(found.value);
    ApartPermuted(segs, found.value);
    SeparatedPermuted(segs, found.value);
    var ok := CheckOverlap(segs);
    if !ok {
      return Refused;
    }
    ghost var was := mem[..];
    var e: nat, failed: bool;
    ghost var schedule: seq<Write>;
    e, failed, schedule := CopyAll(mem, segs);
    AgreePermuted(segs, found.value);
    if Agree(segs) {
      AnyInterleaving(was, segs, schedule, found.value);
    }
    if forall s :: s in Loads(progs) ==> |s.data| <= s.memsz {
      ApartAgree(segs);
    }
    return if failed then ReadError else Done(e);
  }

  lemma AgreePermuted(a: seq<Seg>, b: seq<Seg>)
    requires forall s :: s in a <==> s in b
    ensures Agree(a) <==> Agree(b)
  {
  }

  lemma SeparatedPermuted(a: seq<Seg>, b: seq<Seg>)
    requires multiset(a) == multiset(b)
    ensures PairwiseApart(a) <==> PairwiseApart(b)
  {
    if PairwiseApart(a) {
      SeparatedOneWay(a, b);
    }
    if PairwiseApart(b) {
      SeparatedOneWay(b, a);
    }
  }

  lemma SeparatedOneWay(a: seq<Seg>, b: seq<Seg>)
    requires multiset(a) == multiset(b) && PairwiseApart(a)
    ensures PairwiseApart(b)
  {
    forall i, j | 0 <= i < j < |b| ensures Apart(b[i], b[j]) {
      assert b[i] in multiset(b) && b[j] in multiset(b);
      assert b[i] in multiset(a) && b[j] in multiset(a);
      var k :| 0 <= k < |a| && a[k] == b[i];
      var l :| 0 <= l < |a| && a[l] == b[j];
      if b[i] == b[j] {
        TwiceIn(b, i, j);
        var x, y := TwiceOut(a, b[i]);
      }
    }
  }

  lemma TwiceIn(s: seq<Seg>, i: nat, j: nat)
    requires i < j < |s| && s[i] == s[j]
    ensures multiset(s)[s[i]] >= 2
  {
    var low, high := s[..j], s[j..];
    assert s == low + high;
    assert low[i] in multiset(low) && high[0] in multiset(high);
  }

  lemma TwiceOut(s: seq<Seg>, x: Seg) returns (i: nat, j: nat)
    requires multiset(s)[x] >= 2
    ensures i < j < |s| && s[i] == x && s[j] == x
  {
    assert x in multiset(s);
    i :| 0 <= i < |s| && s[i] == x;
    var low, high := s[..i], s[i + 1..];
    assert s == low + [x] + high;
    if x in multiset(high) {
      var k :| 0 <= k < |high| && high[k] == x;
      j := i + 1 + k;
    } else {
      assert x in multiset(low);
      var k :| 0 <= k < |low| && low[k] == x;
      i, j := k, i;
    }
  }
}
