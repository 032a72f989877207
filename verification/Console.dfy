/**
 * The console filters: streams of bytes in which whole terminal control
 * sequences are recognised and dropped, answered or passed on.
 *
 * A carry buffer holds an unfinished sequence from one read to the next. What
 * comes out does not depend on how the stream was cut into reads.
 */
module Console {
  import opened Prelude
  import opened Bytes

  const ESC: byte := 0x1b
  const BRACKET: byte := 0x5b

  /** A byte on its own, or a control sequence from ESC [ to its final byte. */
  datatype Token = Lone(b: byte) | Csi(text: bytes)

  function TokenBytes(t: Token): bytes {
    match t
    case Lone(b) => [b]
    case Csi(text) => text
  }

  predicate Final(b: byte) {
    0x40 <= b <= 0x7e
  }

  /** The first final byte at or after i, or the end. */
  function FinalAt(d: bytes, i: nat): (e: nat)
    requires i <= |d|
    ensures i <= e <= |d|
    decreases |d| - i
  {
    if i == |d| || Final(d[i]) then i else FinalAt(d, i + 1)
  }

  /** The token at the front; none while the bytes so far could still become a longer sequence. */
  function Next(d: bytes): (t: Option<Token>)
    requires d != []
    ensures t.Some? ==> 0 < |TokenBytes(t.value)| <= |d| && d[..|TokenBytes(t.value)|] == TokenBytes(t.value)
  {
    if d[0] != ESC then Some(Lone(d[0]))
    else if |d| == 1 then None
    else if d[1] != BRACKET then Some(Lone(d[0]))
    else
      var e := FinalAt(d, 2);
      if e == |d| then None else Some(Csi(d[..e + 1]))
  }

  /** The complete tokens of a stream. */
  function Tokens(d: bytes): seq<Token>
    decreases |d|
  {
    if d == [] || Next(d).None? then []
    else [Next(d).value] + Tokens(d[|TokenBytes(Next(d).value)|..])
  }

  /** The unfinished end of a stream. */
  function Rest(d: bytes): bytes
    decreases |d|
  {
    if d == [] || Next(d).None? then d
    else Rest(d[|TokenBytes(Next(d).value)|..])
  }

  // ---------- cutting a stream ----------

  lemma {:induction false} FinalAtStable(a: bytes, b: bytes, i: nat)
    requires i <= |a| && FinalAt(a, i) < |a|
    ensures FinalAt(a + b, i) == FinalAt(a, i)
    decreases |a| - i
  {
    if !Final(a[i]) {
      FinalAtStable(a, b, i + 1);
    }
  }

  /** More input never changes a token already complete. */
  lemma NextStable(a: bytes, b: bytes)
    requires a != [] && Next(a).Some?
    ensures Next(a + b) == Next(a)
  {
    if |a| > 1 && a[0] == ESC && a[1] == BRACKET {
      FinalAtStable(a, b, 2);
      var e := FinalAt(a, 2);
      assert (a + b)[..e + 1] == a[..e + 1];
    }
  }

  /** Reading a then b is reading a, then what a left over together with b. */
  lemma {:induction false} Cut(a: bytes, b: bytes)
    ensures Tokens(a + b) == Tokens(a) + Tokens(Rest(a) + b)
    ensures Rest(a + b) == Rest(Rest(a) + b)
    decreases |a|
  {
    hide Next, TokenBytes;
    if a == [] {
      assert a + b == b;
      assert Rest(a) + b == b;
    } else if Next(a).Some? {
      NextStable(a, b);
      var n := |TokenBytes(Next(a).value)|;
      assert (a + b)[n..] == a[n..] + b;
      Cut(a[n..], b);
      ConcatAssoc([Next(a).value], Tokens(a[n..]), Tokens(Rest(a) + b));
    }
  }

  function Flat(ts: seq<Token>): bytes {
    if ts == [] then [] else TokenBytes(ts[0]) + Flat(ts[1..])
  }

  /** Nothing is lost: the tokens and the unfinished end are the stream. */
  lemma {:induction false} Lossless(d: bytes)
    ensures Flat(Tokens(d)) + Rest(d) == d
    decreases |d|
  {
    hide TokenBytes, Next;
    if d != [] && Next(d).Some? {
      var t := Next(d).value;
      var n := |TokenBytes(t)|;
      var rest := Tokens(d[n..]);
      Lossless(d[n..]);
      assert ([t] + rest)[1..] == rest;
      ConcatAssoc(TokenBytes(t), Flat(rest), Rest(d[n..]));
      assert d == d[..n] + d[n..];
    } else {
      assert Flat([]) + d == d;
    }
  }

  // ---------- which sequences are recognised ----------

  const PASTE_ON: bytes := [ESC, BRACKET, 0x3f, 0x32, 0x30, 0x30, 0x34, 0x68]
  const PASTE_OFF: bytes := [ESC, BRACKET, 0x3f, 0x32, 0x30, 0x30, 0x34, 0x6c]
  const QUERY: bytes := [ESC, BRACKET, 0x36, 0x6e]
  const QUERY_PRIVATE: bytes := [ESC, BRACKET, 0x3f, 0x36, 0x6e]
  const REPORT: bytes := [ESC, BRACKET, 0x31, 0x3b, 0x31, 0x52]
  const CHAR_R: byte := 0x52
  const CHAR_N: byte := 0x6e

  /** Digits, semicolons and question marks. */
  predicate ParamByte(b: byte) {
    0x30 <= b <= 0x39 || b == 0x3b || b == 0x3f
  }

  predicate AllParams(s: bytes) {
    forall i :: 0 <= i < |s| ==> ParamByte(s[i])
  }

  /** A cursor report or a bracketed-paste acknowledgement on the input side. */
  predicate HostReply(s: bytes) {
    || s == PASTE_ON || s == PASTE_OFF
    || (|s| >= 3 && s[0] == ESC && s[1] == BRACKET && s[|s| - 1] == CHAR_R && AllParams(s[2..|s| - 1]))
  }

  /** What the output side drops without an answer. */
  predicate Dropped(s: bytes) {
    || s == PASTE_ON || s == PASTE_OFF
    || (|s| >= 3 && s[0] == ESC && s[1] == BRACKET && (s[|s| - 1] == CHAR_R || s[|s| - 1] == CHAR_N) && AllParams(s[2..|s| - 1]))
  }

  predicate Query(s: bytes) {
    s == QUERY || s == QUERY_PRIVATE
  }

  // ---------- the filters as functions of the tokens ----------

  function InputOne(t: Token): bytes {
    if t.Csi? && HostReply(t.text) then [] else TokenBytes(t)
  }

  function InputOut(ts: seq<Token>): bytes {
    if ts == [] then [] else InputOne(ts[0]) + InputOut(ts[1..])
  }

  function PayloadOne(t: Token): bytes {
    if t.Csi? && (Query(t.text) || Dropped(t.text)) then [] else TokenBytes(t)
  }

  function Payload(ts: seq<Token>): bytes {
    if ts == [] then [] else PayloadOne(ts[0]) + Payload(ts[1..])
  }

  function ReplyOne(t: Token): bytes {
    if t.Csi? && Query(t.text) then REPORT else []
  }

  function Replies(ts: seq<Token>): bytes {
    if ts == [] then [] else ReplyOne(ts[0]) + Replies(ts[1..])
  }

  lemma {:induction false} InputOutConcat(a: seq<Token>, b: seq<Token>)
    ensures InputOut(a + b) == InputOut(a) + InputOut(b)
  {
    hide InputOne;
    if a == [] {
      assert a + b == b;
    } else {
      assert (a + b)[1..] == a[1..] + b;
      InputOutConcat(a[1..], b);
      ConcatAssoc(InputOne(a[0]), InputOut(a[1..]), InputOut(b));
    }
  }

  lemma {:induction false} OutputConcat(a: seq<Token>, b: seq<Token>)
    ensures Payload(a + b) == Payload(a) + Payload(b) && Replies(a + b) == Replies(a) + Replies(b)
  {
    hide PayloadOne, ReplyOne;
    if a == [] {
      assert a + b == b;
    } else {
      assert (a + b)[1..] == a[1..] + b;
      OutputConcat(a[1..], b);
      ConcatAssoc(PayloadOne(a[0]), Payload(a[1..]), Payload(b));
      ConcatAssoc(ReplyOne(a[0]), Replies(a[1..]), Replies(b));
    }
  }
}
