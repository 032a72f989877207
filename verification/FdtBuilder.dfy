/** The device-tree builder: appending tokens, interning names, and laying out the blob. */
module FdtBuilder {
  import opened Bytes
  import opened NulStrings
  import opened Fdt
  import opened FdtRoundTrip

  // ---------- a table that only grows ----------

  ghost predicate Extends(t: Table, t': Table) {
    forall s {:trigger t'[s]} {:trigger t[s]} :: s in t ==> s in t' && t'[s] == t[s]
  }

  lemma ExtendsSelf(t: Table)
    ensures Extends(t, t)
  {
  }

  lemma ExtendsTrans(t: Table, t': Table, t'': Table)
    requires Extends(t, t') && Extends(t', t'')
    ensures Extends(t, t'')
  {
  }

  lemma {:induction false} PropsExtend(ps: seq<Prop>, t: Table, t': Table)
    requires GoodProps(ps, t) && Extends(t, t')
    ensures GoodProps(ps, t') && EncProps(ps, t') == EncProps(ps, t)
  {
    hide EncBegin;
    if ps != [] {
      assert GoodProp(ps[0], t);
      PropsExtend(ps[1..], t, t');
    }
  }

  lemma {:induction false} NodeExtends(n: Node, t: Table, t': Table)
    requires Good(n, t) && Extends(t, t')
    ensures Good(n, t') && EncNode(n, t') == EncNode(n, t)
    decreases n, 1
  {
    hide EncBegin, EncProps, GoodProps, Extends;
    PropsExtend(n.props, t, t');
    KidsExtend(n.kids, t, t');
  }

  lemma {:induction false} KidsExtend(ks: seq<Node>, t: Table, t': Table)
    requires GoodKids(ks, t) && Extends(t, t')
    ensures GoodKids(ks, t') && EncKids(ks, t') == EncKids(ks, t)
    decreases ks, 0
  {
    hide Good, EncNode, Extends;
    if ks != [] {
      NodeExtends(ks[0], t, t');
      KidsExtend(ks[1..], t, t');
    }
  }

  lemma {:induction false} PropsSnoc(ps: seq<Prop>, p: Prop, t: Table)
    ensures EncProps(ps + [p], t) == EncProps(ps, t) + EncProp(p, t)
  {
    hide EncProp;
    if ps == [] {
      assert ps + [p] == [p];
      assert EncProps([p], t) == EncProp(p, t) + EncProps([], t);
    } else {
      assert (ps + [p])[1..] == ps[1..] + [p];
      PropsSnoc(ps[1..], p, t);
    }
  }

  lemma {:induction false} KidsSnoc(ks: seq<Node>, k: Node, t: Table)
    ensures EncKids(ks + [k], t) == EncKids(ks, t) + EncNode(k, t)
    decreases |ks|
  {
    hide EncNode;
    if ks == [] {
      assert ks + [k] == [k];
      assert EncKids([k], t) == EncNode(k, t) + EncKids([], t);
    } else {
      assert (ks + [k])[1..] == ks[1..] + [k];
      KidsSnoc(ks[1..], k, t);
    }
  }

  lemma {:induction false} GoodKidsSnoc(ks: seq<Node>, k: Node, t: Table)
    requires GoodKids(ks, t) && Good(k, t)
    ensures GoodKids(ks + [k], t)
    decreases |ks|
  {
    hide Good;
    if ks == [] {
      assert ks + [k] == [k];
      assert GoodKids([], t);
    } else {
      assert (ks + [k])[1..] == ks[1..] + [k];
      GoodKidsSnoc(ks[1..], k, t);
    }
  }

  // ---------- trees that fit ----------

  /** Names without NUL bytes, values shorter than 4 GiB. */
  ghost predicate Named(n: Node)
    decreases n
  {
    && NulFree(n.name)
    && (forall i :: 0 <= i < |n.props| ==> NulFree(n.props[i].name) && |n.props[i].value| < POW32)
    && (forall i :: 0 <= i < |n.kids| ==> Named(n.kids[i]))
  }

  /** Bytes of string block a tree needs at most. */
  function PropNames(ps: seq<Prop>): nat {
    if ps == [] then 0 else PropNames(ps[..|ps| - 1]) + |ps[|ps| - 1].name| + 1
  }

  function NameBytes(n: Node): nat
    decreases n, 1
  {
    PropNames(n.props) + KidNames(n.kids)
  }

  function KidNames(ks: seq<Node>): nat
    decreases ks, 0
  {
    if ks == [] then 0 else KidNames(ks[..|ks| - 1]) + NameBytes(ks[|ks| - 1])
  }

  lemma {:induction false} KidNamesMono(ks: seq<Node>, i: nat)
    requires i <= |ks|
    ensures KidNames(ks[..i]) <= KidNames(ks)
    decreases |ks|
  {
    if i == |ks| {
      assert ks[..i] == ks;
    } else {
      KidNamesMono(ks[..|ks| - 1], i);
      assert ks[..|ks| - 1][..i] == ks[..i];
    }
  }

  lemma {:induction false} PropNamesMono(ps: seq<Prop>, i: nat)
    requires i <= |ps|
    ensures PropNames(ps[..i]) <= PropNames(ps)
    decreases |ps|
  {
    if i == |ps| {
      assert ps[..i] == ps;
    } else {
      PropNamesMono(ps[..|ps| - 1], i);
      assert ps[..|ps| - 1][..i] == ps[..i];
    }
  }

  // ---------- the builder ----------

  lemma TableGrows(strs: bytes, more: bytes, t: Table)
    requires TableOk(strs, t)
    ensures TableOk(strs + more, t)
  {
    forall s | s in t ensures NulFree(s) && Holds(strs + more, t[s], s + [0]) {
      var x := t[s];
      assert Holds(strs, x, s + [0]);
      assert (strs + more)[x..x + |s| + 1] == strs[x..x + |s| + 1];
    }
  }

  class Builder {
    var strings: bytes
    var struct: bytes
    var strIdx: Table

    /** Tokens are aligned; every interned name still stands where it was put. */
    ghost predicate Valid()
      reads this
    {
      && |struct| % 4 == 0
      && TableOk(strings, strIdx)
      && (forall s {:trigger strIdx[s]} :: s in strIdx ==> strIdx[s] < POW32)
    }

    constructor ()
      ensures Valid() && strings == [] && struct == [] && strIdx == map[]
    {
      strings, struct, strIdx := [], [], map[];
    }

    method AddString(s: bytes) returns (off: nat)
      requires Valid() && NulFree(s) && |strings| < POW32
      modifies this`strings, this`strIdx
      ensures Valid() && s in strIdx && off == strIdx[s]
      ensures Extends(old(strIdx), strIdx)
      ensures |strings| <= |old(strings)| + |s| + 1
    {
      if s in strIdx {
        return strIdx[s];
      }
      off := |strings| % POW32;
      TableGrows(strings, s + [0], strIdx);
      assert (strings + (s + [0]))[off..off + |s| + 1] == s + [0];
      strings := strings + (s + [0]);
      strIdx := strIdx[s := off];
    }

    method PutU32(v: nat)
      modifies this`struct
      ensures struct == old(struct) + Be(v, 4)
    {
      struct := struct + Be(v, 4);
    }

    method BeginNode(name: bytes)
      requires Valid()
      modifies this`struct
      ensures Valid() && struct == old(struct) + EncBegin(name)
    {
      PutU32(BEGIN_NODE);
      var n := name + [0];
      while |n| % 4 != 0
        invariant |name| + 1 <= |n| <= Align4(|name| + 1)
        invariant n == name + [0] + Zeros(|n| - |name| - 1)
        decreases Align4(|name| + 1) - |n|
      {
        n := n + [0];
      }
      assert n == Pad4(name + [0]);
      struct := struct + n;
      BeginSize(name);
    }

    method EndNode()
      requires Valid()
      modifies this`struct
      ensures Valid() && struct == old(struct) + Be(END_NODE, 4)
    {
      PutU32(END_NODE);
    }

    /** A property: its name is interned, its value padded. */
    method AddProp(p: Prop)
      requires Valid() && NulFree(p.name) && |p.value| < POW32 && |strings| < POW32
      modifies this
      ensures Valid() && Extends(old(strIdx), strIdx) && GoodProp(p, strIdx)
      ensures struct == old(struct) + EncProp(p, strIdx)
      ensures |strings| <= |old(strings)| + |p.name| + 1
    {
      hide EncProp, Align4, Be, TableOk;
      ghost var before := struct;
      PutU32(PROP);
      PutU32(|p.value|);
      var off := AddString(p.name);
      PutU32(off);
      struct := struct + p.value;
      PadStruct();
      PaddedProp(before, struct, p, strIdx);
    }

    /** Zeros up to the next token boundary. */
    method PadStruct()
      modifies this`struct
      ensures struct == Pad4(old(struct)) && |struct| % 4 == 0
    {
      ghost var full := struct;
      while |struct| % 4 != 0
        invariant |full| <= |struct| <= Align4(|full|)
        invariant struct == full + Zeros(|struct| - |full|)
        decreases Align4(|full|) - |struct|
      {
        struct := struct + [0];
      }
    }

    /** Emits a tree: its name, its properties, its children in order. */
    method EmitNode(n: Node)
      requires Valid() && Named(n) && |strings| + NameBytes(n) < POW32
      modifies this
      ensures Valid() && Extends(old(strIdx), strIdx) && Good(n, strIdx)
      ensures struct == old(struct) + EncNode(n, strIdx)
      ensures |strings| <= |old(strings)| + NameBytes(n)
      decreases n
    {
      hide EncProp, EncBegin, TableOk, NulFree, GoodProps, EncProps, EncKids, GoodKids, PropNames, KidNames;
      ghost var start := struct;
      BeginNode(n.name);
      EmitProps(n);
      ghost var t1 := strIdx;
      EmitKids(n);
      PropsExtend(n.props, t1, strIdx);
      EndNode();
      JoinNode(start, n, strIdx);
    }

    method EmitProps(n: Node)
      requires Valid() && Named(n) && |strings| + PropNames(n.props) < POW32
      modifies this
      ensures Valid() && Extends(old(strIdx), strIdx) && GoodProps(n.props, strIdx)
      ensures struct == old(struct) + EncProps(n.props, strIdx)
      ensures |strings| <= |old(strings)| + PropNames(n.props)
    {
      hide EncProp, TableOk, NulFree, GoodProp, EncProps, Extends;
      ExtendsSelf(strIdx);
      ghost var start, s0 := struct, |strings|;
      EncNone(strIdx);
      for i := 0 to |n.props|
        invariant Valid() && Extends(old(strIdx), strIdx) && GoodProps(n.props[..i], strIdx)
        invariant struct == start + EncProps(n.props[..i], strIdx)
        invariant |strings| <= s0 + PropNames(n.props[..i])
      {
        ghost var t := strIdx;
        PropNamesMono(n.props, i);
        assert n.props[..i + 1] == n.props[..i] + [n.props[i]];
        assert n.props[..i + 1][..i] == n.props[..i];
        AddProp(n.props[i]);
        ExtendsTrans(old(strIdx), t, strIdx);
        PropsExtend(n.props[..i], t, strIdx);
        PropsSnoc(n.props[..i], n.props[i], strIdx);
      }
      assert n.props[..|n.props|] == n.props;
    }

    method EmitKids(n: Node)
      requires Valid() && Named(n) && |strings| + KidNames(n.kids) < POW32
      modifies this
      ensures Valid() && Extends(old(strIdx), strIdx) && GoodKids(n.kids, strIdx)
      ensures struct == old(struct) + EncKids(n.kids, strIdx)
      ensures |strings| <= |old(strings)| + KidNames(n.kids)
      decreases n, 0
    {
      hide EncNode, TableOk, NulFree, Good, EncKids, GoodKids, NameBytes, Extends;
      ExtendsSelf(strIdx);
      ghost var start, s0 := struct, |strings|;
      EncNone(strIdx);
      for i := 0 to |n.kids|
        invariant Valid() && Extends(old(strIdx), strIdx) && GoodKids(n.kids[..i], strIdx)
        invariant struct == start + EncKids(n.kids[..i], strIdx)
        invariant |strings| <= s0 + KidNames(n.kids[..i])
      {
        ghost var t := strIdx;
        assert n.kids[..i + 1] == n.kids[..i] + [n.kids[i]];
        assert n.kids[..i + 1][..i] == n.kids[..i];
        KidNamesMono(n.kids, i + 1);
        EmitNode(n.kids[i]);
        ExtendsTrans(old(strIdx), t, strIdx);
        KidsExtend(n.kids[..i], t, strIdx);
        KidsSnoc(n.kids[..i], n.kids[i], strIdx);
        GoodKidsSnoc(n.kids[..i], n.kids[i], strIdx);
      }
      assert n.kids[..|n.kids|] == n.kids;
    }
  }

  lemma {:induction false} EncNone(t: Table)
    ensures EncProps([], t) == [] && EncKids([], t) == [] && GoodKids([], t) && PropNames([]) == 0 && KidNames([]) == 0
  {
  }

  lemma {:induction false} JoinNode(start: bytes, n: Node, t: Table)
    ensures start + EncBegin(n.name) + EncProps(n.props, t) + EncKids(n.kids, t) + Be(END_NODE, 4) == start + EncNode(n, t)
  {
    hide EncBegin, EncProps, EncKids;
  }

  lemma PaddedProp(before: bytes, after: bytes, p: Prop, t: Table)
    requires |before| % 4 == 0 && p.name in t
    requires after == Pad4(before + Be(PROP, 4) + Be(|p.value|, 4) + Be(t[p.name], 4) + p.value)
    ensures after == before + EncProp(p, t)
  {
    hide Be, Align4;
    AlignShift(|before| + 12, |p.value|);
  }
}
