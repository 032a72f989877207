/**
 * The console filters over the raw bytes: how a stream falls into single bytes and control
 * sequences, and which of them are kept, dropped and answered, spelled out in byte values.
 */
module ConsolePieces {
  import opened Bytes
  import opened Console

  predicate EndsSequence(b: byte) {
    0x40 <= b <= 0x7e
  }

  /** ESC [, then bytes that do not end it, then one that does. */
  ghost predicate ControlSequence(p: bytes) {
    && |p| >= 3 && p[0] == 0x1b && p[1] == 0x5b && EndsSequence(p[|p| - 1])
    && forall i :: 2 <= i < |p| - 1 ==> !EndsSequence(p[i])
  }

  /** A front piece of a stream: a plain byte, an ESC that starts no sequence, or a control sequence. */
  ghost predicate FrontPiece(p: bytes, d: bytes) {
    || (|p| == 1 && p[0] != 0x1b)
    || (p == [0x1b] && |d| >= 2 && d[1] != 0x5b)
    || ControlSequence(p)
  }

  /** What may still become a control sequence. */
  ghost predicate Unfinished(t: bytes) {
    || t == [] || t == [0x1b]
    || (|t| >= 2 && t[0] == 0x1b && t[1] == 0x5b && forall i :: 2 <= i < |t| ==> !EndsSequence(t[i]))
  }

  /** The stream is the pieces in order and then an unfinished tail. */
  ghost predicate Pieces(d: bytes, ps: seq<bytes>, tail: bytes)
    decreases |ps|
  {
    if ps == [] then d == tail && Unfinished(tail)
    else ps[0] <= d && FrontPiece(ps[0], d) && Pieces(d[|ps[0]|..], ps[1..], tail)
  }

  /** A stream falls into pieces in one way only. */
  lemma {:induction false} PiecesUnique(d: bytes, ps: seq<bytes>, tail: bytes, qs: seq<bytes>, end: bytes)
    requires Pieces(d, ps, tail) && Pieces(d, qs, end)
    ensures ps == qs && tail == end
    decreases |ps|
  {
    hide FrontPiece, Unfinished;
    if ps == [] {
      if qs != [] {
        NotBoth(d, qs[0]);
      }
    } else if qs == [] {
      NotBoth(d, ps[0]);
    } else {
      FrontUnique(d, ps[0], qs[0]);
      PiecesUnique(d[|ps[0]|..], ps[1..], tail, qs[1..], end);
      assert ps == [ps[0]] + ps[1..] && qs == [qs[0]] + qs[1..];
    }
  }

  lemma NotBoth(d: bytes, p: bytes)
    requires p <= d && FrontPiece(p, d)
    ensures !Unfinished(d)
  {
    assert forall i :: 0 <= i < |p| ==> p[i] == d[i];
    if ControlSequence(p) {
      assert EndsSequence(d[|p| - 1]);
    }
  }

  lemma FrontUnique(d: bytes, p: bytes, q: bytes)
    requires p <= d && FrontPiece(p, d) && q <= d && FrontPiece(q, d)
    ensures p == q
  {
    assert forall i :: 0 <= i < |p| ==> p[i] == d[i];
    assert forall i :: 0 <= i < |q| ==> q[i] == d[i];
    assert |p| == |q|;
    assert p == d[..|p|] && q == d[..|q|];
  }

  // ---------- the tokens are the pieces ----------

  function Texts(ts: seq<Token>): (ps: seq<bytes>)
    ensures |ps| == |ts|
  {
    if ts == [] then [] else [TokenBytes(ts[0])] + Texts(ts[1..])
  }

  lemma {:induction false} FinalAtFinds(d: bytes, i: nat)
    requires i <= |d|
    ensures var e := FinalAt(d, i);
            && (forall k :: i <= k < e ==> !EndsSequence(d[k]))
            && (e < |d| ==> EndsSequence(d[e]))
    decreases |d| - i
  {
    if i < |d| && !Final(d[i]) {
      FinalAtFinds(d, i + 1);
    }
  }

  /** The token at the front is the front piece; where there is none the stream is unfinished. */
  lemma NextIsFront(d: bytes)
    requires d != []
    ensures Next(d).Some? ==> TokenBytes(Next(d).value) <= d && FrontPiece(TokenBytes(Next(d).value), d)
    ensures Next(d).Some? ==> (Next(d).value.Csi? <==> ControlSequence(TokenBytes(Next(d).value)))
    ensures Next(d).None? ==> Unfinished(d)
  {
    if |d| >= 2 && d[0] == ESC && d[1] == BRACKET {
      FinalAtFinds(d, 2);
    }
  }

  lemma {:induction false} TokensArePieces(d: bytes)
    ensures Pieces(d, Texts(Tokens(d)), Rest(d))
    decreases |d|
  {
    hide Next, TokenBytes, FrontPiece, Unfinished, ControlSequence;
    if d == [] {
      assert Unfinished([]) by {
        NothingUnfinished();
      }
    } else {
      NextIsFront(d);
      if Next(d).Some? {
        var p := TokenBytes(Next(d).value);
        TokensArePieces(d[|p|..]);
        assert Tokens(d)[1..] == Tokens(d[|p|..]);
        assert Texts(Tokens(d))[1..] == Texts(Tokens(d[|p|..]));
      }
    }
  }

  lemma NothingUnfinished()
    ensures Unfinished([])
  {
  }

  // ---------- what is kept and what is answered ----------

  predicate ParameterByte(b: byte) {
    0x30 <= b <= 0x39 || b == 0x3b || b == 0x3f
  }

  /** ESC [, digits, semicolons and question marks, and the given final byte. */
  ghost predicate ReportLike(p: bytes, last: byte) {
    && |p| >= 3 && p[0] == 0x1b && p[1] == 0x5b && p[|p| - 1] == last
    && forall i :: 2 <= i < |p| - 1 ==> ParameterByte(p[i])
  }

  /** ESC [ ? 2 0 0 4 h and ESC [ ? 2 0 0 4 l. */
  ghost predicate PasteMode(p: bytes) {
    || p == [0x1b, 0x5b, 0x3f, 0x32, 0x30, 0x30, 0x34, 0x68]
    || p == [0x1b, 0x5b, 0x3f, 0x32, 0x30, 0x30, 0x34, 0x6c]
  }

  /** What the guest never gets: paste modes, and cursor reports ending in R. */
  ghost predicate Unwanted(p: bytes) {
    PasteMode(p) || ReportLike(p, 0x52)
  }

  /** What the terminal never gets: those, and status queries ending in n. */
  ghost predicate Hidden(p: bytes) {
    PasteMode(p) || ReportLike(p, 0x52) || ReportLike(p, 0x6e)
  }

  /** ESC [ 6 n and ESC [ ? 6 n. */
  ghost predicate AsksPosition(p: bytes) {
    p == [0x1b, 0x5b, 0x36, 0x6e] || p == [0x1b, 0x5b, 0x3f, 0x36, 0x6e]
  }

  ghost function Typed(ps: seq<bytes>): bytes {
    if ps == [] then [] else (if Unwanted(ps[0]) then [] else ps[0]) + Typed(ps[1..])
  }

  ghost function Shown(ps: seq<bytes>): bytes {
    if ps == [] then [] else (if Hidden(ps[0]) then [] else ps[0]) + Shown(ps[1..])
  }

  /** One ESC [ 1 ; 1 R for each position query, in order. */
  ghost function Answers(ps: seq<bytes>): bytes {
    if ps == [] then []
    else (if AsksPosition(ps[0]) then [0x1b, 0x5b, 0x31, 0x3b, 0x31, 0x52] else []) + Answers(ps[1..])
  }

  lemma SameParams(p: bytes)
    requires |p| >= 3
    ensures AllParams(p[2..|p| - 1]) <==> forall i :: 2 <= i < |p| - 1 ==> ParameterByte(p[i])
  {
    var s := p[2..|p| - 1];
    if AllParams(s) {
      forall i | 2 <= i < |p| - 1 ensures ParameterByte(p[i]) {
        assert p[i] == s[i - 2];
      }
    } else {
      var k :| 0 <= k < |s| && !ParamByte(s[k]);
      assert s[k] == p[k + 2] && !ParameterByte(p[k + 2]);
    }
  }

  lemma Recognised(p: bytes)
    ensures HostReply(p) <==> Unwanted(p)
    ensures Dropped(p) <==> Hidden(p)
    ensures Query(p) <==> AsksPosition(p)
    ensures Query(p) ==> Hidden(p)
  {
    hide AllParams;
    if |p| >= 3 {
      SameParams(p);
    }
  }

  /** Only whole control sequences are recognised. */
  lemma HiddenIsControl(p: bytes)
    requires Hidden(p)
    ensures ControlSequence(p)
  {
  }

  lemma TokenFilters(t: Token)
    requires t.Csi? <==> ControlSequence(TokenBytes(t))
    ensures InputOne(t) == if Unwanted(TokenBytes(t)) then [] else TokenBytes(t)
    ensures PayloadOne(t) == if Hidden(TokenBytes(t)) then [] else TokenBytes(t)
    ensures ReplyOne(t) == if AsksPosition(TokenBytes(t)) then [0x1b, 0x5b, 0x31, 0x3b, 0x31, 0x52] else []
  {
    var p := TokenBytes(t);
    Recognised(p);
    if Hidden(p) {
      HiddenIsControl(p);
    }
    hide HostReply, Dropped, Query, PasteMode, ReportLike, AsksPosition, ControlSequence;
  }

  lemma {:induction false} FiltersOfTokens(d: bytes)
    ensures var ps := Texts(Tokens(d));
            InputOut(Tokens(d)) == Typed(ps) && Payload(Tokens(d)) == Shown(ps) && Replies(Tokens(d)) == Answers(ps)
    decreases |d|
  {
    hide Next, TokenBytes, ControlSequence, FrontPiece, Unfinished, InputOne, PayloadOne, ReplyOne, Unwanted, Hidden, AsksPosition;
    if d != [] && Next(d).Some? {
      NextIsFront(d);
      var t := Next(d).value;
      var rest := d[|TokenBytes(t)|..];
      TokenFilters(t);
      FiltersOfTokens(rest);
      assert Tokens(d)[1..] == Tokens(rest);
      assert Texts(Tokens(d))[1..] == Texts(Tokens(rest));
    }
  }

  /** However a stream falls into pieces, the filters do with it what is said of the pieces. */
  lemma {:induction false} FiltersOfPieces(d: bytes, ps: seq<bytes>, tail: bytes)
    requires Pieces(d, ps, tail)
    ensures InputOut(Tokens(d)) == Typed(ps) && Payload(Tokens(d)) == Shown(ps) && Replies(Tokens(d)) == Answers(ps) && Rest(d) == tail
  {
    hide Pieces, Tokens, Rest, InputOut, Payload, Replies, Typed, Shown, Answers, Texts;
    TokensArePieces(d);
    PiecesUnique(d, ps, tail, Texts(Tokens(d)), Rest(d));
    FiltersOfTokens(d);
  }
}
