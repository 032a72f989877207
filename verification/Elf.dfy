/** Loading ELF segments with one concurrent copy each. */
module Elf {
  import opened Bytes
  import opened GuestMemory
  import opened Names

  /**
   * A segment: where it goes, how much memory it claims, how many bytes of the file it asks for,
   * and those of them the file holds.
   */
  datatype Seg = Seg(start: nat, memsz: nat, filesz: nat, data: bytes)

  /** Reading the file part succeeds: there is one, and the file holds all of it. */
  predicate Readable(s: Seg) {
    0 < s.filesz <= |s.data|
  }

  function End(s: Seg): nat {
    s.start + s.memsz
  }

  predicate Fits(size: nat, segs: seq<Seg>) {
    forall s :: s in segs ==> End(s) <= size && s.start + |s.data| <= size
  }

  /** The two memory ranges do not overlap. */
  predicate Apart(a: Seg, b: Seg) {
    End(a) <= b.start || End(b) <= a.start
  }

  ghost predicate PairwiseApart(segs: seq<Seg>) {
    forall i, j :: 0 <= i < j < |segs| ==> Apart(segs[i], segs[j])
  }

  predicate Covers(s: Seg, a: nat) {
    s.start <= a < s.start + |s.data|
  }

  function ByteAt(s: Seg, a: nat): byte
    requires Covers(s, a)
  {
    s.data[a - s.start]
  }

  /** Wherever two segments' file bytes land on one address, they are the same byte. */
  ghost predicate Agree(segs: seq<Seg>) {
    forall s, t, a: nat :: s in segs && t in segs && Covers(s, a) && Covers(t, a) ==> ByteAt(s, a) == ByteAt(t, a)
  }

  // ---------- sequential and concurrent loading ----------

  /** The segments copied one after the other. */
  function InOrder(mem: bytes, segs: seq<Seg>): (r: bytes)
    requires Fits(|mem|, segs)
    ensures |r| == |mem|
  {
    if segs == [] then
      mem
    else
      var k := |segs| - 1;
      assert segs[k] in segs;
      Put(InOrder(mem, segs[..k]), segs[k].start, segs[k].data)
  }

  /** One byte of one copy. */
  datatype Write = Write(seg: nat, off: nat)

  function Writes(segs: seq<Seg>): set<Write> {
    set i, j | 0 <= i < |segs| && 0 <= j < |segs[i].data| :: Write(i, j)
  }

  predicate Good(segs: seq<Seg>, w: Write) {
    w.seg < |segs| && w.off < |segs[w.seg].data|
  }

  function Target(segs: seq<Seg>, w: Write): nat
    requires Good(segs, w)
  {
    segs[w.seg].start + w.off
  }

  /** Memory after the byte writes of a schedule. */
  ghost function After(mem: bytes, segs: seq<Seg>, schedule: seq<Write>): (r: bytes)
    requires Fits(|mem|, segs) && forall w :: w in schedule ==> Good(segs, w)
    ensures |r| == |mem|
  {
    if schedule == [] then
      mem
    else
      var k := |schedule| - 1;
      var w := schedule[k];
      assert w in schedule && Good(segs, w);
      assert segs[w.seg] in segs;
      After(mem, segs, schedule[..k])[Target(segs, w) := segs[w.seg].data[w.off]]
  }

  /** An interleaving of the copies: every byte write once, in any order. */
  ghost predicate Interleaving(segs: seq<Seg>, schedule: seq<Write>) {
    NoDup(schedule) && Elems(schedule) == Writes(segs)
  }

  lemma InterleavingGood(segs: seq<Seg>, schedule: seq<Write>)
    requires Elems(schedule) <= Writes(segs)
    ensures forall w :: w in schedule ==> Good(segs, w)
  {
    forall w | w in schedule ensures Good(segs, w) {
      assert w in Elems(schedule);
    }
  }

  /** Address a holds a byte of some segment that covers it, or, if none does, what it held before. */
  ghost predicate Loaded(mem: bytes, segs: seq<Seg>, a: nat, b: byte) {
    a < |mem| && ((exists s :: s in segs && Covers(s, a) && ByteAt(s, a) == b)
                  || ((forall s :: s in segs ==> !Covers(s, a)) && b == mem[a]))
  }

  lemma {:induction false} InOrderLoaded(mem: bytes, segs: seq<Seg>, a: nat)
    requires Fits(|mem|, segs) && a < |mem|
    ensures Loaded(mem, segs, a, InOrder(mem, segs)[a])
  {
    if segs != [] {
      var k := |segs| - 1;
      var s := segs[k];
      assert s in segs;
      var before := InOrder(mem, segs[..k]);
      InOrderLoaded(mem, segs[..k], a);
      assert forall t :: t in segs <==> t in segs[..k] || t == s by { Snoc(segs); }
      var after := Put(before, s.start, s.data);
      if Covers(s, a) {
        assert after[a] == ByteAt(s, a);
      } else {
        assert after[a] == before[a];
      }
    }
  }

  lemma Snoc<T>(s: seq<T>)
    requires s != []
    ensures s == s[..|s| - 1] + [s[|s| - 1]]
  {
  }

  /** Under any schedule, a written address holds one of the bytes written to it. */
  ghost predicate Written(mem: bytes, segs: seq<Seg>, schedule: seq<Write>, a: nat, b: byte) {
    a < |mem| && ((exists w :: Hits(segs, schedule, w, a) && segs[w.seg].data[w.off] == b)
                  || ((forall w :: !Hits(segs, schedule, w, a)) && b == mem[a]))
  }

  ghost predicate Hits(segs: seq<Seg>, schedule: seq<Write>, w: Write, a: nat) {
    w in schedule && Good(segs, w) && Target(segs, w) == a
  }

  lemma {:induction false} AfterWritten(mem: bytes, segs: seq<Seg>, schedule: seq<Write>, a: nat)
    requires Fits(|mem|, segs) && (forall w :: w in schedule ==> Good(segs, w)) && a < |mem|
    ensures Written(mem, segs, schedule, a, After(mem, segs, schedule)[a])
  {
    if schedule != [] {
      var k := |schedule| - 1;
      var w := schedule[k];
      assert w in schedule && Good(segs, w);
      assert segs[w.seg] in segs;
      AfterWritten(mem, segs, schedule[..k], a);
      Snoc(schedule);
      if Target(segs, w) == a {
        assert Hits(segs, schedule, w, a);
      } else {
        forall v ensures Hits(segs, schedule, v, a) <==> Hits(segs, schedule[..k], v, a) {
        }
      }
    }
  }

  lemma WrittenLoaded(mem: bytes, segs: seq<Seg>, schedule: seq<Write>, a: nat, b: byte)
    requires Interleaving(segs, schedule) && Written(mem, segs, schedule, a, b)
    ensures Loaded(mem, segs, a, b)
  {
    if w :| Hits(segs, schedule, w, a) && segs[w.seg].data[w.off] == b {
      var s := segs[w.seg];
      assert s in segs && Covers(s, a) && ByteAt(s, a) == b;
    } else {
      forall s | s in segs ensures !Covers(s, a) {
        var i :| 0 <= i < |segs| && segs[i] == s;
        if Covers(s, a) {
          CoveredHit(segs, schedule, i, a);
        }
      }
    }
  }

  lemma CoveredHit(segs: seq<Seg>, schedule: seq<Write>, i: nat, a: nat)
    requires Interleaving(segs, schedule) && i < |segs| && Covers(segs[i], a)
    ensures Hits(segs, schedule, Write(i, a - segs[i].start), a)
  {
    assert Write(i, a - segs[i].start) in Writes(segs);
    assert Write(i, a - segs[i].start) in Elems(schedule);
  }

  lemma LoadedUnique(mem: bytes, segs: seq<Seg>, a: nat, b: byte, c: byte)
    requires Agree(segs) && Loaded(mem, segs, a, b) && Loaded(mem, segs, a, c)
    ensures b == c
  {
  }

  lemma LoadedSame(mem: bytes, segs: seq<Seg>, other: seq<Seg>, a: nat, b: byte)
    requires Loaded(mem, segs, a, b) && forall s :: s in segs <==> s in other
    ensures Loaded(mem, other, a, b)
  {
  }

  /** Where the segments agree, every interleaving gives the memory of loading them in program order. */
  lemma {:induction false} AnyInterleaving(mem: bytes, segs: seq<Seg>, schedule: seq<Write>, program: seq<Seg>)
    requires Fits(|mem|, segs) && Fits(|mem|, program) && Agree(segs) && Interleaving(segs, schedule)
    requires forall s :: s in segs <==> s in program
    ensures (forall w :: w in schedule ==> Good(segs, w)) && After(mem, segs, schedule) == InOrder(mem, program)
  {
    InterleavingGood(segs, schedule);
    var r := After(mem, segs, schedule);
    var p := InOrder(mem, program);
    forall a | 0 <= a < |mem| ensures r[a] == p[a] {
      hide Agree, Interleaving, Loaded, Written;
      AfterWritten(mem, segs, schedule, a);
      WrittenLoaded(mem, segs, schedule, a, r[a]);
      InOrderLoaded(mem, program, a);
      LoadedSame(mem, program, segs, a, p[a]);
      LoadedUnique(mem, segs, a, r[a], p[a]);
    }
  }

  // ---------- exactly when the copies race ----------

  ghost function Enumerated(s: set<Write>): (r: seq<Write>)
    ensures NoDup(r) && Elems(r) == s
  {
    if s == {} then
      []
    else
      var x :| x in s;
      var rest := Enumerated(s - {x});
      AppendNoDup(rest, x);
      ElemsAppend(rest, x);
      rest + [x]
  }

  /** An interleaving that does w last leaves w's byte. */
  lemma LastWins(mem: bytes, segs: seq<Seg>, w: Write) returns (schedule: seq<Write>)
    requires Fits(|mem|, segs) && Good(segs, w)
    ensures Interleaving(segs, schedule) && (forall v :: v in schedule ==> Good(segs, v))
    ensures segs[w.seg].start + w.off < |mem|
    ensures After(mem, segs, schedule)[Target(segs, w)] == segs[w.seg].data[w.off]
  {
    assert segs[w.seg] in segs;
    assert w in Writes(segs);
    var rest := Enumerated(Writes(segs) - {w});
    schedule := rest + [w];
    AppendNoDup(rest, w);
    ElemsAppend(rest, w);
    InterleavingGood(segs, schedule);
    assert schedule[..|schedule| - 1] == rest;
  }

  ghost predicate Deterministic(mem: bytes, segs: seq<Seg>)
    requires Fits(|mem|, segs)
  {
    forall x, y :: Interleaving(segs, x) && Interleaving(segs, y) ==> SameAfter(mem, segs, x, y)
  }

  ghost predicate SameAfter(mem: bytes, segs: seq<Seg>, x: seq<Write>, y: seq<Write>)
    requires Fits(|mem|, segs)
  {
    (forall w :: w in x ==> Good(segs, w)) && (forall w :: w in y ==> Good(segs, w))
    && After(mem, segs, x) == After(mem, segs, y)
  }

  /** The result is independent of the interleaving exactly when the segments agree. */
  lemma DeterministicExactly(mem: bytes, segs: seq<Seg>)
    requires Fits(|mem|, segs)
    ensures Deterministic(mem, segs) <==> Agree(segs)
  {
    if Agree(segs) {
      forall x, y | Interleaving(segs, x) && Interleaving(segs, y) ensures SameAfter(mem, segs, x, y) {
        AnyInterleaving(mem, segs, x, segs);
        AnyInterleaving(mem, segs, y, segs);
      }
    }
    if Deterministic(mem, segs) {
      forall s, t, a: nat | s in segs && t in segs && Covers(s, a) && Covers(t, a) ensures ByteAt(s, a) == ByteAt(t, a) {
        var i :| 0 <= i < |segs| && segs[i] == s;
        var j :| 0 <= j < |segs| && segs[j] == t;
        var x := LastWins(mem, segs, Write(i, a - s.start));
        var y := LastWins(mem, segs, Write(j, a - t.start));
        assert SameAfter(mem, segs, x, y);
      }
    }
  }

  /** Segments kept apart agree, if no file part is longer than its memory part. */
  lemma ApartAgree(segs: seq<Seg>)
    requires PairwiseApart(segs) && forall s :: s in segs ==> |s.data| <= s.memsz
    ensures Agree(segs)
  {
    forall s, t, a: nat | s in segs && t in segs && Covers(s, a) && Covers(t, a) ensures ByteAt(s, a) == ByteAt(t, a) {
      var i :| 0 <= i < |segs| && segs[i] == s;
      var j :| 0 <= j < |segs| && segs[j] == t;
    }
  }

  /** A file part longer than its memory part passes the check and may race. */
  lemma OverlongRaces(mem: bytes)
    requires |mem| >= 2
    ensures PairwiseApart([Seg(0, 1, 2, [7, 7]), Seg(1, 1, 1, [9])])
    ensures Fits(|mem|, [Seg(0, 1, 2, [7, 7]), Seg(1, 1, 1, [9])])
    ensures !Deterministic(mem, [Seg(0, 1, 2, [7, 7]), Seg(1, 1, 1, [9])])
  {
    var segs := [Seg(0, 1, 2, [7, 7]), Seg(1, 1, 1, [9])];
    DeterministicExactly(mem, segs);
    assert segs[0] in segs && segs[1] in segs;
    assert Covers(segs[0], 1) && Covers(segs[1], 1) && ByteAt(segs[0], 1) == 7 && ByteAt(segs[1], 1) == 9;
  }
}
