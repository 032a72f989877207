/**
 * Flattened device trees: the blob format, read back as the Devicetree
 * Specification v0.4 chapter 5 lays it out, and the tokens a tree becomes.
 */
module Fdt {
  import opened Prelude
  import opened Bytes
  import opened NulStrings

  const MAGIC := 0xD00DFEED
  const VERSION := 17
  const LAST_COMPATIBLE := 16
  const BEGIN_NODE := 1
  const END_NODE := 2
  const PROP := 3
  const END := 9
  const HEADER := 40
  const RESERVED := 16

  datatype Prop = Prop(name: bytes, value: bytes)

  datatype Node = Node(name: bytes, props: seq<Prop>, kids: seq<Node>)

  // ---------- reading ----------

  function ReadU32(b: bytes, pos: nat): Option<nat> {
    if pos + 4 <= |b| then Some(BeVal(b[pos..pos + 4])) else None
  }

  function Align4(n: nat): (r: nat)
    ensures n <= r < n + 4 && r % 4 == 0
  {
    n + (4 - n % 4) % 4
  }

  /** A node token, its name, its properties, its children, and its end token. */
  function ParseNode(st: bytes, strs: bytes, pos: nat): (r: Option<(Node, nat)>)
    ensures r.Some? ==> pos < r.value.1 <= |st|
    decreases |st| - pos, 1
  {
    if pos >= |st| || ReadU32(st, pos) != Some(1) then None
    else
      var name := CString(st, pos + 4);
      if name.None? || Align4(pos + 4 + |name.value| + 1) > |st| then None
      else
        var props := ParseProps(st, strs, Align4(pos + 4 + |name.value| + 1));
        if props.None? then None
        else
          var kids := ParseKids(st, strs, props.value.1);
          if kids.None? || ReadU32(st, kids.value.1) != Some(2) then None
          else Some((Node(name.value, props.value.0, kids.value.0), kids.value.1 + 4))
  }

  function ParseProps(st: bytes, strs: bytes, pos: nat): (r: Option<(seq<Prop>, nat)>)
    ensures r.Some? ==> pos <= r.value.1
    ensures r.Some? && pos <= |st| ==> r.value.1 <= |st|
    decreases |st| - pos
  {
    if pos >= |st| || ReadU32(st, pos) != Some(3) then Some(([], pos))
    else
      var len, off := ReadU32(st, pos + 4), ReadU32(st, pos + 8);
      if len.None? || off.None? || Align4(pos + 12 + len.value) > |st| then None
      else
        var name := CString(strs, off.value);
        var rest := ParseProps(st, strs, Align4(pos + 12 + len.value));
        if name.None? || rest.None? then None
        else Some(([Prop(name.value, st[pos + 12..pos + 12 + len.value])] + rest.value.0, rest.value.1))
  }

  function ParseKids(st: bytes, strs: bytes, pos: nat): (r: Option<(seq<Node>, nat)>)
    ensures r.Some? ==> pos <= r.value.1
    ensures r.Some? && pos <= |st| ==> r.value.1 <= |st|
    decreases |st| - pos, 2
  {
    if pos >= |st| || ReadU32(st, pos) != Some(1) then Some(([], pos))
    else
      var kid := ParseNode(st, strs, pos);
      if kid.None? then None
      else
        var rest := ParseKids(st, strs, kid.value.1);
        if rest.None? then None else Some(([kid.value.0] + rest.value.0, rest.value.1))
  }

  /** The tree a blob holds, found by following its header. */
  function ReadDtb(b: bytes): Option<Node> {
    if |b| < 40 then None
    else
      var total, offStruct, offStrings, offRsv :=
        BeVal(b[4..8]), BeVal(b[8..12]), BeVal(b[12..16]), BeVal(b[16..20]);
      var sizeStrings, sizeStruct := BeVal(b[32..36]), BeVal(b[36..40]);
      if BeVal(b[0..4]) != 0xD00DFEED || BeVal(b[20..24]) != 17 || BeVal(b[24..28]) != 16 then None
      else if total != |b| || total % 8 != 0 || offRsv % 8 != 0 || offStruct % 4 != 0 then None
      else if offRsv + 16 > offStruct || offStruct + sizeStruct > offStrings || offStrings + sizeStrings > total then None
      else if b[offRsv..offRsv + 16] != Zeros(16) then None
      else
        var st, strs := b[offStruct..offStruct + sizeStruct], b[offStrings..offStrings + sizeStrings];
        var root := ParseNode(st, strs, 0);
        if root.None? || root.value.1 + 4 != |st| || ReadU32(st, root.value.1) != Some(9) then None
        else Some(root.value.0)
  }

  // ---------- writing ----------

  /** Offsets of interned names. */
  type Table = map<bytes, nat>

  function OffsetIn(t: Table, name: bytes): nat {
    if name in t then t[name] else 0
  }

  /** b with zeros up to a multiple of four. */
  function Pad4(b: bytes): (r: bytes)
    ensures |r| == Align4(|b|) && |b| <= |r| && r[..|b|] == b
    ensures forall i :: |b| <= i < |r| ==> r[i] == 0
  {
    b + Zeros(Align4(|b|) - |b|)
  }

  function EncProp(p: Prop, t: Table): (r: bytes)
    ensures |r| == 12 + Align4(|p.value|)
  {
    Be(PROP, 4) + Be(|p.value|, 4) + Be(OffsetIn(t, p.name), 4) + Pad4(p.value)
  }

  function EncProps(ps: seq<Prop>, t: Table): bytes {
    if ps == [] then [] else EncProp(ps[0], t) + EncProps(ps[1..], t)
  }

  function EncBegin(name: bytes): (r: bytes)
    ensures |r| == 4 + Align4(|name| + 1)
  {
    Be(BEGIN_NODE, 4) + Pad4(name + [0])
  }

  function EncNode(n: Node, t: Table): bytes
    decreases n, 1
  {
    EncBegin(n.name) + EncProps(n.props, t) + EncKids(n.kids, t) + Be(END_NODE, 4)
  }

  function EncKids(ks: seq<Node>, t: Table): bytes
    decreases ks, 0
  {
    if ks == [] then [] else EncNode(ks[0], t) + EncKids(ks[1..], t)
  }
}
