/** IPv4 addresses as configuration text: the dotted form the planner writes, and the texts it accepts. */
module Ipv4Text {
  import opened Bytes
  import opened Prelude

  datatype Text = Text(chars: string)

  /** The prefix of an IPv4 address written as an IPv6 one. */
  const MAPPED: string := "::ffff:"

  predicate AllDigits(s: string) {
    forall i :: 0 <= i < |s| ==> '0' <= s[i] <= '9'
  }

  /** One field: decimal digits, no leading zero, at most 255. */
  function Octet(s: string): (r: Option<nat>)
    ensures r.Some? ==> r.value < 256
  {
    if s != [] && AllDigits(s) && (|s| == 1 || s[0] != '0') && Decimal(s) < 256 then Some(Decimal(s)) else None
  }

  /** The fields between dots. */
  function SplitDot(s: string): (r: seq<string>)
    ensures r != []
  {
    if s == [] then [[]]
    else
      var rest := SplitDot(s[1..]);
      if s[0] == '.' then [[]] + rest else [[s[0]] + rest[0]] + rest[1..]
  }

  function Value(a: nat, b: nat, c: nat, d: nat): nat {
    0x100_0000 * a + 0x1_0000 * b + 0x100 * c + d
  }

  function Quad(s: string): (r: Option<nat>)
    ensures r.Some? ==> r.value < POW32
  {
    var p := SplitDot(s);
    if |p| != 4 then None
    else
      var a, b, c, d := Octet(p[0]), Octet(p[1]), Octet(p[2]), Octet(p[3]);
      if a.None? || b.None? || c.None? || d.None? then None else Some(Value(a.value, b.value, c.value, d.value))
  }

  /** The IPv4 address a text stands for, dotted or mapped into IPv6. */
  function ParseIp(s: string): (r: Option<nat>)
    ensures r.Some? ==> r.value < POW32
  {
    if MAPPED <= s then Quad(s[|MAPPED|..]) else Quad(s)
  }

  function Fields(a: string, b: string, c: string, d: string): string {
    a + (['.'] + (b + (['.'] + (c + (['.'] + d)))))
  }

  function DottedChars(v: nat): string {
    Fields(Itoa(v / 0x100_0000), Itoa(v / 0x1_0000 % 256), Itoa(v / 0x100 % 256), Itoa(v % 256))
  }

  /** What a text means; none for a text that is no IPv4 address. */
  function Address(t: Text): (r: Option<nat>)
    ensures r.Some? ==> r.value < POW32
  {
    ParseIp(t.chars)
  }

  /** The canonical text of an address. */
  function Dotted(v: nat): (t: Text)
    ensures v < POW32 ==> Address(t) == Some(v)
  {
    if v < POW32 then
      DottedBack(v);
      Text(DottedChars(v))
    else
      Text(DottedChars(v))
  }

  /** A text that is the canonical one of its address. */
  predicate Canonical(t: Text) {
    Address(t).Some? && t == Dotted(Address(t).value)
  }

  // ---------- what is written reads back ----------

  predicate NoDot(s: string) {
    forall i :: 0 <= i < |s| ==> s[i] != '.'
  }

  lemma {:induction false} SplitField(x: string, rest: string)
    requires NoDot(x)
    ensures SplitDot(x + (['.'] + rest)) == [x] + SplitDot(rest)
  {
    var s := x + (['.'] + rest);
    if x == [] {
      assert s[1..] == rest;
    } else {
      assert s[1..] == x[1..] + (['.'] + rest);
      SplitField(x[1..], rest);
      assert [x[0]] + x[1..] == x;
    }
  }

  lemma {:induction false} SplitLast(x: string)
    requires NoDot(x)
    ensures SplitDot(x) == [x]
  {
    if x != [] {
      SplitLast(x[1..]);
      assert [x[0]] + x[1..] == x;
    }
  }

  lemma SplitFields(a: string, b: string, c: string, d: string)
    requires NoDot(a) && NoDot(b) && NoDot(c) && NoDot(d)
    ensures SplitDot(Fields(a, b, c, d)) == [a, b, c, d]
  {
    hide SplitDot, NoDot;
    SplitField(a, b + (['.'] + (c + (['.'] + d))));
    SplitField(b, c + (['.'] + d));
    SplitField(c, d);
    SplitLast(d);
  }

  lemma {:induction false} ItoaPlain(n: nat)
    ensures AllDigits(Itoa(n)) && NoDot(Itoa(n))
  {
  }

  lemma {:induction false} OctetBack(n: nat)
    requires n < 256
    ensures Octet(Itoa(n)) == Some(n) && NoDot(Itoa(n))
  {
    hide Itoa, Decimal;
    ItoaBack(n);
    ItoaPlain(n);
  }

  lemma ValueBack(v: nat)
    requires v < POW32
    ensures Value(v / 0x100_0000, v / 0x1_0000 % 256, v / 0x100 % 256, v % 256) == v && v / 0x100_0000 < 256
  {
    var x := v / 0x100;
    var y := x / 0x100;
    assert v / 0x1_0000 == y;
    assert v / 0x100_0000 == y / 0x100;
  }

  lemma QuadBack(v: nat)
    requires v < POW32
    ensures Quad(DottedChars(v)) == Some(v)
  {
    hide Itoa, Octet, SplitDot, Fields, Value, NoDot;
    var a, b, c, d := v / 0x100_0000, v / 0x1_0000 % 256, v / 0x100 % 256, v % 256;
    ValueBack(v);
    OctetBack(a);
    OctetBack(b);
    OctetBack(c);
    OctetBack(d);
    SplitFields(Itoa(a), Itoa(b), Itoa(c), Itoa(d));
  }

  /** Both spellings of an address are read as that address. */
  lemma DottedBack(v: nat)
    requires v < POW32
    ensures ParseIp(DottedChars(v)) == Some(v)
    ensures ParseIp(MAPPED + DottedChars(v)) == Some(v)
    ensures DottedChars(v) != MAPPED + DottedChars(v)
  {
    hide Itoa, Quad;
    QuadBack(v);
    var s := DottedChars(v);
    var a := Itoa(v / 0x100_0000);
    assert s[0] == a[0] && '0' <= a[0] <= '9';
    assert (MAPPED + s)[|MAPPED|..] == s;
    assert |MAPPED + s| == |s| + 7;
  }

  // ---------- nothing else is read ----------

  lemma DigitChar(c: char)
    requires '0' <= c <= '9'
    ensures DigitOf(c) < 10 && Digit(DigitOf(c)) == c && (c != '0' ==> DigitOf(c) > 0)
  {
  }

  lemma ItoaStep(n: nat, d: nat)
    requires d < 10
    ensures Itoa(d) == [Digit(d)] && (n > 0 ==> Itoa(10 * n + d) == Itoa(n) + [Digit(d)])
  {
    hide Digit;
    assert (10 * n + d) / 10 == n && (10 * n + d) % 10 == d;
  }

  lemma {:induction false} DecimalBack(s: string)
    requires s != [] && AllDigits(s) && (|s| == 1 || s[0] != '0')
    ensures Itoa(Decimal(s)) == s && (s[0] != '0' ==> Decimal(s) > 0)
  {
    hide Itoa, Digit, DigitOf;
    var k := |s| - 1;
    DigitChar(s[k]);
    ItoaStep(Decimal(s[..k]), DigitOf(s[k]));
    assert s == s[..k] + [s[k]];
    if k == 0 {
      assert s[..0] == [] && s == [s[0]];
    } else {
      DecimalBack(s[..k]);
    }
  }

  function Joined(p: seq<string>): string
    requires p != []
  {
    if |p| == 1 then p[0] else p[0] + (['.'] + Joined(p[1..]))
  }

  lemma {:induction false} SplitJoined(s: string)
    ensures Joined(SplitDot(s)) == s
  {
    if s != [] {
      SplitJoined(s[1..]);
      var rest := SplitDot(s[1..]);
      assert s == [s[0]] + s[1..];
      if s[0] == '.' {
        assert ([[]] + rest)[1..] == rest;
        assert [] + (['.'] + Joined(rest)) == s;
      } else {
        var p := [[s[0]] + rest[0]] + rest[1..];
        assert p[1..] == rest[1..];
        if |rest| == 1 {
          assert p == [[s[0]] + rest[0]];
        } else {
          ConcatAssoc([s[0]], rest[0], ['.'] + Joined(rest[1..]));
        }
      }
    }
  }

  lemma {:induction false} JoinedFour(a: string, b: string, c: string, d: string)
    ensures Joined([a, b, c, d]) == Fields(a, b, c, d)
  {
    assert [a, b, c, d][1..] == [b, c, d] && [b, c, d][1..] == [c, d] && [c, d][1..] == [d];
    assert Joined([d]) == d;
    assert Joined([c, d]) == c + (['.'] + d);
    assert Joined([b, c, d]) == b + (['.'] + (c + (['.'] + d)));
  }

  lemma ValueParts(a: nat, b: nat, c: nat, d: nat)
    requires a < 256 && b < 256 && c < 256 && d < 256
    ensures var v := Value(a, b, c, d); v / 0x100_0000 == a && v / 0x1_0000 % 256 == b && v / 0x100 % 256 == c && v % 256 == d
  {
    var v := Value(a, b, c, d);
    assert v / 0x100 == 0x1_0000 * a + 0x100 * b + c;
    assert v / 0x1_0000 == 0x100 * a + b;
  }

  lemma {:induction false} QuadOnly(s: string)
    requires Quad(s).Some?
    ensures s == DottedChars(Quad(s).value)
  {
    hide Itoa, Decimal, SplitDot, Fields, Value, AllDigits, Joined;
    var p := SplitDot(s);
    SplitJoined(s);
    assert p == [p[0], p[1], p[2], p[3]];
    JoinedFour(p[0], p[1], p[2], p[3]);
    DecimalBack(p[0]);
    DecimalBack(p[1]);
    DecimalBack(p[2]);
    DecimalBack(p[3]);
    ValueParts(Decimal(p[0]), Decimal(p[1]), Decimal(p[2]), Decimal(p[3]));
  }

  /** A text is read as an address exactly if it is the dotted form of it, alone or behind "::ffff:". */
  lemma {:induction false} ParseExactly(s: string, v: nat)
    ensures ParseIp(s) == Some(v) <==> v < POW32 && (s == DottedChars(v) || s == "::ffff:" + DottedChars(v))
  {
    hide Quad, DottedChars;
    if v < POW32 {
      DottedBack(v);
    }
    var rest := if MAPPED <= s then s[|MAPPED|..] else s;
    if Quad(rest).Some? {
      QuadOnly(rest);
    }
    if MAPPED <= s {
      assert s == MAPPED + rest;
    }
  }
}
