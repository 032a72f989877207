/** Reading back what was written: every tree comes back as itself. */
module FdtRoundTrip {
  import opened Prelude
  import opened Bytes
  import opened NulStrings
  import opened Fdt

  lemma {:induction false} ReadAt(b: bytes, pos: nat, v: nat)
    requires Holds(b, pos, Be(v, 4)) && v < POW32
    ensures ReadU32(b, pos) == Some(v)
  {
    PowValues();
    BeRoundTrip(v, 4);
  }

  /** Every name in the table stands in the string block where the table says. */
  ghost predicate TableOk(strs: bytes, t: Table) {
    forall s {:trigger t[s]} :: s in t ==> NulFree(s) && Holds(strs, t[s], s + [0])
  }

  ghost predicate GoodProp(p: Prop, t: Table) {
    p.name in t && t[p.name] < POW32 && |p.value| < POW32
  }

  ghost predicate GoodProps(ps: seq<Prop>, t: Table) {
    forall i {:trigger ps[i]} :: 0 <= i < |ps| ==> GoodProp(ps[i], t)
  }

  /** Names are NUL-free, property names are interned, lengths fit 32 bits. */
  ghost predicate Good(n: Node, t: Table)
    decreases n, 1
  {
    NulFree(n.name) && GoodProps(n.props, t) && GoodKids(n.kids, t)
  }

  ghost predicate GoodKids(ks: seq<Node>, t: Table)
    decreases ks, 0
  {
    ks == [] || (Good(ks[0], t) && GoodKids(ks[1..], t))
  }

  lemma AlignShift(pos: nat, n: nat)
    requires pos % 4 == 0
    ensures Align4(pos + n) == pos + Align4(n)
  {
  }

  lemma {:induction false} PropAt(st: bytes, strs: bytes, pos: nat, p: Prop, t: Table)
    requires Holds(st, pos, EncProp(p, t)) && pos % 4 == 0 && TableOk(strs, t) && GoodProp(p, t)
    ensures pos < |st| && ReadU32(st, pos) == Some(3)
    ensures ReadU32(st, pos + 4) == Some(|p.value|) && ReadU32(st, pos + 8) == Some(t[p.name])
    ensures CString(strs, t[p.name]) == Some(p.name)
    ensures Align4(pos + 12 + |p.value|) == pos + |EncProp(p, t)| <= |st|
    ensures st[pos + 12..pos + 12 + |p.value|] == p.value
  {
    hide Holds, ReadU32, CString, Align4, Be;
    var a, b, c, d := Be(PROP, 4), Be(|p.value|, 4), Be(t[p.name], 4), Pad4(p.value);
    AlignShift(pos + 12, |p.value|);
    HoldsSplit(st, pos, a + b + c, d);
    HoldsSplit(st, pos, a + b, c);
    HoldsSplit(st, pos, a, b);
    ReadAt(st, pos, PROP);
    ReadAt(st, pos + 4, |p.value|);
    ReadAt(st, pos + 8, t[p.name]);
    CStringAt(strs, t[p.name], p.name);
    HoldsSplit(st, pos + 12, p.value, Zeros(Align4(|p.value|) - |p.value|));
    HoldsSlice(st, pos + 12, p.value);
    HoldsSlice(st, pos + 12, d);
  }

  lemma {:induction false} PropsBack(st: bytes, strs: bytes, pos: nat, ps: seq<Prop>, t: Table)
    requires Holds(st, pos, EncProps(ps, t)) && pos % 4 == 0 && TableOk(strs, t) && GoodProps(ps, t)
    requires pos + |EncProps(ps, t)| < |st| && ReadU32(st, pos + |EncProps(ps, t)|) != Some(3)
    ensures |EncProps(ps, t)| % 4 == 0
    ensures ParseProps(st, strs, pos) == Some((ps, pos + |EncProps(ps, t)|))
    decreases |ps|
  {
    hide EncProp, Holds, TableOk, CString, ReadU32, Align4, GoodProp;
    PropsSize(ps, t);
    if ps != [] {
      var p, rest := ps[0], ps[1..];
      HoldsSplit(st, pos, EncProp(p, t), EncProps(rest, t));
      PropAt(st, strs, pos, p, t);
      PropsSize(rest, t);
      PropsBack(st, strs, pos + |EncProp(p, t)|, rest, t);
      assert ps == [p] + rest;
    }
  }

  lemma {:induction false} BeginAt(st: bytes, pos: nat, name: bytes)
    requires Holds(st, pos, EncBegin(name)) && pos % 4 == 0 && NulFree(name)
    ensures pos < |st| && ReadU32(st, pos) == Some(1) && CString(st, pos + 4) == Some(name)
    ensures Align4(pos + 4 + |name| + 1) == pos + |EncBegin(name)| <= |st|
  {
    hide Holds, ReadU32, CString, Align4, Be;
    AlignShift(pos + 4, |name| + 1);
    HoldsSplit(st, pos, Be(BEGIN_NODE, 4), Pad4(name + [0]));
    HoldsSlice(st, pos + 4, Pad4(name + [0]));
    ReadAt(st, pos, BEGIN_NODE);
    HoldsSplit(st, pos + 4, name + [0], Zeros(Align4(|name| + 1) - (|name| + 1)));
    CStringAt(st, pos + 4, name);
  }

  lemma {:induction false} KidsStart(st: bytes, pos: nat, ks: seq<Node>, t: Table)
    requires ks != [] && Holds(st, pos, EncKids(ks, t)) && pos % 4 == 0 && GoodKids(ks, t)
    ensures pos < |st| && ReadU32(st, pos) == Some(1)
  {
    hide Holds, EncBegin, EncProps, ReadU32, GoodProps;
    var k := ks[0];
    HoldsSplit(st, pos, EncNode(k, t), EncKids(ks[1..], t));
    NodeParts(st, pos, k, t);
    BeginAt(st, pos, k.name);
  }

  /** The four parts of an encoded node, where they stand. */
  lemma {:induction false} NodeParts(st: bytes, pos: nat, n: Node, t: Table)
    requires Holds(st, pos, EncNode(n, t))
    ensures Holds(st, pos, EncBegin(n.name))
    ensures Holds(st, pos + |EncBegin(n.name)|, EncProps(n.props, t))
    ensures Holds(st, pos + |EncBegin(n.name)| + |EncProps(n.props, t)|, EncKids(n.kids, t))
    ensures Holds(st, pos + |EncBegin(n.name)| + |EncProps(n.props, t)| + |EncKids(n.kids, t)|, Be(END_NODE, 4))
    ensures |EncNode(n, t)| == |EncBegin(n.name)| + |EncProps(n.props, t)| + |EncKids(n.kids, t)| + 4
  {
    hide Holds, EncBegin, EncProps, EncKids;
    var a, b, c, d := EncBegin(n.name), EncProps(n.props, t), EncKids(n.kids, t), Be(END_NODE, 4);
    HoldsSplit(st, pos, a + b + c, d);
    HoldsSplit(st, pos, a + b, c);
    HoldsSplit(st, pos, a, b);
  }

  lemma {:induction false} NodeBack(st: bytes, strs: bytes, pos: nat, n: Node, t: Table)
    requires Holds(st, pos, EncNode(n, t)) && pos % 4 == 0 && TableOk(strs, t) && Good(n, t)
    ensures |EncNode(n, t)| % 4 == 0
    ensures ParseNode(st, strs, pos) == Some((n, pos + |EncNode(n, t)|))
    decreases n, 1
  {
    hide Holds, TableOk, EncBegin, EncProps, EncKids, EncNode, GoodProps, CString, ReadU32, GoodKids, ParseProps, ParseKids, Align4;
    var p1 := pos + |EncBegin(n.name)|;
    var p2 := p1 + |EncProps(n.props, t)|;
    var p3 := p2 + |EncKids(n.kids, t)|;
    NodeParts(st, pos, n, t);
    BeginAt(st, pos, n.name);
    EndAt(st, p3);
    PropsSize(n.props, t);
    BeginSize(n.name);
    if n.kids != [] {
      KidsStart(st, p2, n.kids, t);
    } else {
      NoKids(t);
    }
    PropsBack(st, strs, p1, n.props, t);
    KidsBack(st, strs, p2, n.kids, t);
  }

  lemma BeginSize(name: bytes)
    ensures |EncBegin(name)| % 4 == 0
  {
  }

  lemma {:induction false} NoKids(t: Table)
    ensures EncKids([], t) == []
  {
  }

  lemma EndAt(st: bytes, pos: nat)
    requires Holds(st, pos, Be(END_NODE, 4))
    ensures pos < |st| && ReadU32(st, pos) == Some(2)
  {
    ReadAt(st, pos, END_NODE);
  }

  lemma {:induction false} PropsSize(ps: seq<Prop>, t: Table)
    ensures |EncProps(ps, t)| % 4 == 0
  {
    hide EncProp;
    if ps != [] {
      PropsSize(ps[1..], t);
    }
  }

  lemma {:induction false} KidsBack(st: bytes, strs: bytes, pos: nat, ks: seq<Node>, t: Table)
    requires Holds(st, pos, EncKids(ks, t)) && pos % 4 == 0 && TableOk(strs, t) && GoodKids(ks, t)
    requires pos + |EncKids(ks, t)| < |st| && ReadU32(st, pos + |EncKids(ks, t)|) != Some(1)
    ensures |EncKids(ks, t)| % 4 == 0
    ensures ParseKids(st, strs, pos) == Some((ks, pos + |EncKids(ks, t)|))
    decreases ks, 0
  {
    hide Holds, TableOk, EncNode, Good, ReadU32, ParseNode;
    if ks != [] {
      var k, rest := ks[0], ks[1..];
      HoldsSplit(st, pos, EncNode(k, t), EncKids(rest, t));
      KidsStart(st, pos, ks, t);
      NodeBack(st, strs, pos, k, t);
      KidsBack(st, strs, pos + |EncNode(k, t)|, rest, t);
      assert ks == [k] + rest;
    }
  }
}
