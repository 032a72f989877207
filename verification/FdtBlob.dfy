/** The finished blob, and the round trip of whole trees. */
module FdtBlob {
  import opened Prelude
  import opened Bytes
  import opened Fdt
  import opened FdtRoundTrip
  import opened FdtBuilder

  /** The ten header words. */
  function HeaderBytes(total: nat, offStruct: nat, offStrings: nat, sizeStrings: nat, sizeStruct: nat): (b: bytes)
    ensures |b| == HEADER
  {
    Be(MAGIC, 4) + Be(total, 4) + Be(offStruct, 4) + Be(offStrings, 4) + Be(HEADER, 4)
    + Be(VERSION, 4) + Be(LAST_COMPATIBLE, 4) + Be(0, 4) + Be(sizeStrings, 4) + Be(sizeStruct, 4)
  }

  /** Header, empty reservation map, structure block, strings block. */
  function Blob(st: bytes, strs: bytes): bytes {
    var offStruct := HEADER + RESERVED;
    var offStrings := offStruct + |st|;
    HeaderBytes(offStrings + |strs|, offStruct, offStrings, |strs|, |st|) + Zeros(RESERVED) + st + strs
  }

  lemma {:induction false} Word(b: bytes, i: nat, v: nat)
    requires Holds(b, i, Be(v, 4)) && v < POW32
    ensures i + 4 <= |b| && BeVal(b[i..i + 4]) == v
  {
    PowValues();
    BeRoundTrip(v, 4);
  }

  lemma HeaderWords(b: bytes, total: nat, offStruct: nat, offStrings: nat, sizeStrings: nat, sizeStruct: nat)
    requires Holds(b, 0, HeaderBytes(total, offStruct, offStrings, sizeStrings, sizeStruct))
    requires total < POW32 && offStruct < POW32 && offStrings < POW32 && sizeStrings < POW32 && sizeStruct < POW32
    ensures |b| >= 40
    ensures BeVal(b[0..4]) == 0xD00DFEED && BeVal(b[4..8]) == total && BeVal(b[8..12]) == offStruct && BeVal(b[12..16]) == offStrings
    ensures BeVal(b[16..20]) == 40 && BeVal(b[20..24]) == 17 && BeVal(b[24..28]) == 16 && BeVal(b[28..32]) == 0
    ensures BeVal(b[32..36]) == sizeStrings && BeVal(b[36..40]) == sizeStruct
  {
    hide Holds, Be, BeVal;
    var w := [Be(MAGIC, 4), Be(total, 4), Be(offStruct, 4), Be(offStrings, 4), Be(HEADER, 4),
              Be(VERSION, 4), Be(LAST_COMPATIBLE, 4), Be(0, 4), Be(sizeStrings, 4), Be(sizeStruct, 4)];
    HoldsSplit(b, 0, w[0] + w[1] + w[2] + w[3] + w[4] + w[5] + w[6] + w[7] + w[8], w[9]);
    HoldsSplit(b, 0, w[0] + w[1] + w[2] + w[3] + w[4] + w[5] + w[6] + w[7], w[8]);
    HoldsSplit(b, 0, w[0] + w[1] + w[2] + w[3] + w[4] + w[5] + w[6], w[7]);
    HoldsSplit(b, 0, w[0] + w[1] + w[2] + w[3] + w[4] + w[5], w[6]);
    HoldsSplit(b, 0, w[0] + w[1] + w[2] + w[3] + w[4], w[5]);
    HoldsSplit(b, 0, w[0] + w[1] + w[2] + w[3], w[4]);
    HoldsSplit(b, 0, w[0] + w[1] + w[2], w[3]);
    HoldsSplit(b, 0, w[0] + w[1], w[2]);
    HoldsSplit(b, 0, w[0], w[1]);
    Word(b, 0, MAGIC);
    Word(b, 4, total);
    Word(b, 8, offStruct);
    Word(b, 12, offStrings);
    Word(b, 16, HEADER);
    Word(b, 20, VERSION);
    Word(b, 24, LAST_COMPATIBLE);
    Word(b, 28, 0);
    Word(b, 32, sizeStrings);
    Word(b, 36, sizeStruct);
  }

  lemma BlobParts(st: bytes, strs: bytes)
    ensures var b := Blob(st, strs);
            var o := HEADER + RESERVED;
            && |b| == o + |st| + |strs|
            && Holds(b, 0, HeaderBytes(o + |st| + |strs|, o, o + |st|, |strs|, |st|))
            && Holds(b, HEADER, Zeros(RESERVED)) && Holds(b, o, st) && Holds(b, o + |st|, strs)
  {
    hide HeaderBytes, Be;
  }

  /** The ten header words of a blob: the structure block starts at byte 56, the boot processor is 0. */
  ghost predicate SeenHeader(b: bytes) {
    && |b| >= 56 && |b| % 8 == 0
    && BeVal(b[0..4]) == 0xD00DFEED && BeVal(b[4..8]) == |b| && BeVal(b[8..12]) == 56 && BeVal(b[16..20]) == 40
    && BeVal(b[20..24]) == 17 && BeVal(b[24..28]) == 16 && BeVal(b[28..32]) == 0
    && BeVal(b[12..16]) == 56 + BeVal(b[36..40]) && BeVal(b[12..16]) + BeVal(b[32..36]) == |b|
    && b[40..56] == Zeros(16)
  }

  lemma BlobHeader(st: bytes, strs: bytes)
    requires var size := 56 + |st| + |strs|; size < POW32 && size % 8 == 0
    ensures SeenHeader(Blob(st, strs))
  {
    hide Holds, Blob, HeaderBytes, BeVal;
    var b := Blob(st, strs);
    BlobParts(st, strs);
    HeaderWords(b, 56 + |st| + |strs|, 56, 56 + |st|, |strs|, |st|);
    HoldsSlice(b, 40, Zeros(16));
  }

  /** A blob whose structure block holds an encoded tree reads back as that tree. */
  lemma {:induction false} BlobReads(root: Node, t: Table, strs: bytes)
    requires Good(root, t) && TableOk(strs, t)
    requires var size := HEADER + RESERVED + |EncNode(root, t)| + 4 + |strs|; size < POW32 && size % 8 == 0
    ensures ReadDtb(Blob(EncNode(root, t) + Be(END, 4), strs)) == Some(root)
  {
    hide Holds, EncNode, Good, TableOk, Blob, HeaderBytes, ParseNode, BeVal, ReadU32;
    var st := EncNode(root, t) + Be(END, 4);
    var b := Blob(st, strs);
    var o := HEADER + RESERVED;
    BlobParts(st, strs);
    HeaderWords(b, o + |st| + |strs|, o, o + |st|, |strs|, |st|);
    HoldsSlice(b, HEADER, Zeros(RESERVED));
    HoldsSlice(b, o, st);
    HoldsSlice(b, o + |st|, strs);
    HoldsWhole(st);
    HoldsSplit(st, 0, EncNode(root, t), Be(END, 4));
    NodeBack(st, strs, 0, root, t);
    ReadAt(st, |EncNode(root, t)|, END);
  }

  /** The size of an encoding does not depend on where names were interned. */
  lemma {:induction false} NodeSize(n: Node, t: Table, t': Table)
    ensures |EncNode(n, t)| == |EncNode(n, t')|
    decreases n, 1
  {
    hide EncBegin, EncProps, EncKids;
    PropsSizes(n.props, t, t');
    KidsSizes(n.kids, t, t');
  }

  lemma {:induction false} PropsSizes(ps: seq<Prop>, t: Table, t': Table)
    ensures |EncProps(ps, t)| == |EncProps(ps, t')|
  {
    hide EncProp;
    if ps != [] {
      PropsSizes(ps[1..], t, t');
    }
  }

  lemma {:induction false} KidsSizes(ks: seq<Node>, t: Table, t': Table)
    ensures |EncKids(ks, t)| == |EncKids(ks, t')|
    decreases ks, 0
  {
    hide EncNode;
    if ks != [] {
      NodeSize(ks[0], t, t');
      KidsSizes(ks[1..], t, t');
    }
  }

  /** Lays out the blob; the strings block is zero-padded so that the total is a multiple of eight. */
  method BuildDTB(b: Builder) returns (dtb: bytes)
    requires |b.struct| + |b.strings| + HEADER + RESERVED + 8 <= POW32
    modifies b`strings
    ensures exists n :: 0 <= n < 8 && b.strings == old(b.strings) + Zeros(n)
    ensures dtb == Blob(b.struct, b.strings) && |dtb| % 8 == 0 && |dtb| < POW32
    ensures SeenHeader(dtb)
  {
    hide HeaderBytes, SeenHeader;
    var structOff := HEADER + RESERVED;
    var strOff := structOff + |b.struct|;
    var total := strOff + |b.strings|;
    ghost var was, n := b.strings, 0;
    assert b.strings == was + Zeros(0);
    ghost var need := (8 - total % 8) % 8;
    while total % 8 != 0
      invariant 0 <= n <= need && b.strings == was + Zeros(n)
      invariant total == strOff + |b.strings|
      decreases need - n
    {
      total := total + 1;
      ZerosNext(was, n);
      b.strings := b.strings + [0];
      n := n + 1;
    }
    dtb := HeaderBytes(total, structOff, strOff, |b.strings|, |b.struct|) + Zeros(RESERVED) + b.struct + b.strings;
    BlobHeader(b.struct, b.strings);
  }

  /** NUL-free names, 32-bit value lengths, and a blob that stays below 4 GiB. */
  ghost predicate Flattenable(root: Node) {
    Named(root) && HEADER + RESERVED + |EncNode(root, map[])| + 4 + NameBytes(root) + 8 <= POW32
  }

  /** Builds the blob of a tree, as the generators do: emit, end token, layout. Reading it gives the tree back. */
  method FlattenTree(root: Node) returns (dtb: bytes)
    requires Flattenable(root)
    ensures ReadDtb(dtb) == Some(root) && SeenHeader(dtb)
  {
    hide SeenHeader, EncNode, Good, TableOk, Blob, ReadDtb, Named, NameBytes;
    var b := new Builder();
    b.EmitNode(root);
    b.PutU32(END);
    NodeSize(root, map[], b.strIdx);
    ghost var strs := b.strings;
    dtb := BuildDTB(b);
    ghost var n :| 0 <= n < 8 && b.strings == strs + Zeros(n);
    TableGrows(strs, Zeros(n), b.strIdx);
    assert [] + EncNode(root, b.strIdx) == EncNode(root, b.strIdx);
    BlobSize(b.struct, b.strings);
    BlobReads(root, b.strIdx, b.strings);
  }

  lemma ZerosNext(s: bytes, n: nat)
    ensures s + Zeros(n) + [0] == s + Zeros(n + 1)
  {
  }

  lemma BlobSize(st: bytes, strs: bytes)
    ensures |Blob(st, strs)| == HEADER + RESERVED + |st| + |strs|
  {
  }
}
