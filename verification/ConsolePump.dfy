/** The filter objects and the pumps that drive them, against the token functions. */
module ConsolePump {
  import opened Prelude
  import opened Bytes
  import opened Console
  import opened ConsolePieces

  const DETACH: byte := 0x1d
  const EOT: byte := 0x04

  method IsHostTerminalReply(s: bytes) returns (r: bool)
    ensures r == HostReply(s) == Unwanted(s)
  {
    Recognised(s);
    hide Unwanted;
    if |s| < 3 || s[0] != ESC || s[1] != BRACKET {
      return false;
    }
    if s == PASTE_ON || s == PASTE_OFF {
      return true;
    }
    if s[|s| - 1] != CHAR_R {
      return false;
    }
    r := AllOf(s[2..|s| - 1]);
  }

  method ShouldDropTerminalReply(s: bytes) returns (r: bool)
    ensures r == Dropped(s) == Hidden(s)
  {
    Recognised(s);
    hide Hidden;
    if s == PASTE_ON || s == PASTE_OFF {
      return true;
    }
    if |s| < 3 || s[0] != ESC || s[1] != BRACKET {
      return false;
    }
    if s[|s| - 1] != CHAR_R && s[|s| - 1] != CHAR_N {
      return false;
    }
    r := AllOf(s[2..|s| - 1]);
  }

  method AllOf(s: bytes) returns (r: bool)
    ensures r == AllParams(s)
  {
    for i := 0 to |s|
      invariant forall k :: 0 <= k < i ==> ParamByte(s[k])
    {
      if (s[i] < 0x30 || s[i] > 0x39) && s[i] != 0x3b && s[i] != 0x3f {
        assert !ParamByte(s[i]);
        return false;
      }
    }
    return true;
  }

  lemma TokenStep(d: bytes, i: nat)
    requires i < |d| && Next(d[i..]).Some?
    ensures var t := Next(d[i..]).value;
            var n := |TokenBytes(t)|;
            && i + n <= |d| && d[i..][n..] == d[i + n..]
            && Tokens(d[i..]) == [t] + Tokens(d[i + n..])
            && Rest(d[i..]) == Rest(d[i + n..])
  {
  }

  lemma NextFinal(d: bytes, i: nat)
    requires i + 1 < |d| && d[i] == ESC && d[i + 1] == BRACKET
    ensures FinalAt(d[i..], 2) == FinalAt(d, i + 2) - i
    ensures var e := FinalAt(d, i + 2);
            Next(d[i..]) == if e == |d| then None else Some(Csi(d[i..e + 1]))
  {
    FinalShift(d, i, i + 2);
    var e := FinalAt(d, i + 2);
    if e < |d| {
      assert d[i..][..e - i + 1] == d[i..e + 1];
    }
  }

  lemma {:induction false} FinalShift(d: bytes, i: nat, j: nat)
    requires i <= j <= |d|
    ensures FinalAt(d[i..], j - i) == FinalAt(d, j) - i
    decreases |d| - j
  {
    if j < |d| && !Final(d[j]) {
      FinalShift(d, i, j + 1);
    }
  }

  /** Walks to the final byte of a control sequence. */
  method FindFinal(d: bytes, start: nat) returns (end: nat)
    requires start <= |d|
    ensures end == FinalAt(d, start)
  {
    end := start;
    while end < |d|
      invariant start <= end <= |d|
      invariant FinalAt(d, start) == FinalAt(d, end)
    {
      if d[end] >= 0x40 && d[end] <= 0x7e {
        return;
      }
      end := end + 1;
    }
  }

  /** The token at position i, as the filters' loops find it. */
  method NextAt(d: bytes, i: nat) returns (t: Option<Token>)
    requires i < |d|
    ensures t == Next(d[i..])
  {
    if d[i] != ESC {
      return Some(Lone(d[i]));
    }
    if i + 1 >= |d| {
      return None;
    }
    if d[i + 1] != BRACKET {
      return Some(Lone(d[i]));
    }
    var end := FindFinal(d, i + 2);
    NextFinal(d, i);
    if end >= |d| {
      return None;
    }
    return Some(Csi(d[i..end + 1]));
  }

  /** Strips host replies from the input stream. */
  class InputReplyFilter {
    var carry: bytes

    constructor ()
      ensures carry == []
    {
      carry := [];
    }

    method Process(chunk: bytes) returns (out: bytes)
      modifies this
      ensures out == InputOut(Tokens(old(carry) + chunk))
      ensures carry == Rest(old(carry) + chunk)
      ensures forall ps, tail :: Pieces(old(carry) + chunk, ps, tail) ==> out == Typed(ps) && carry == tail
    {
      hide InputOne, Next, TokenBytes, Pieces, Typed;
      AllPieces(carry + chunk);
      var data := carry + chunk;
      carry, out := [], [];
      var i := 0;
      assert data[0..] == data;
      while i < |data|
        invariant 0 <= i <= |data|
        invariant carry == [] && Rest(data[i..]) == Rest(data)
        invariant out + InputOut(Tokens(data[i..])) == InputOut(Tokens(data))
      {
        var t := NextAt(data, i);
        if t.None? {
          carry := data[i..];
          return;
        }
        TokenStep(data, i);
        InputStep(t.value, Tokens(data[i + |TokenBytes(t.value)|..]));
        ConcatAssoc(out, InputOne(t.value), InputOut(Tokens(data[i + |TokenBytes(t.value)|..])));
        var one := KeepInput(t.value);
        out := out + one;
        i := i + |TokenBytes(t.value)|;
      }
      assert data[i..] == [];
    }
  }

  lemma {:induction false} InputStep(t: Token, ts: seq<Token>)
    ensures InputOut([t] + ts) == InputOne(t) + InputOut(ts)
  {
    hide InputOne;
    assert ([t] + ts)[1..] == ts;
  }

  lemma {:induction false} OutputStep(t: Token, ts: seq<Token>)
    ensures Payload([t] + ts) == PayloadOne(t) + Payload(ts) && Replies([t] + ts) == ReplyOne(t) + Replies(ts)
  {
    hide PayloadOne, ReplyOne;
    assert ([t] + ts)[1..] == ts;
  }

  method KeepInput(t: Token) returns (one: bytes)
    ensures one == InputOne(t)
    ensures one == if t.Csi? && Unwanted(t.text) then [] else TokenBytes(t)
  {
    Recognised(TokenBytes(t));
    hide HostReply, Unwanted;
    if t.Csi? {
      var drop := IsHostTerminalReply(t.text);
      if drop {
        return [];
      }
    }
    return TokenBytes(t);
  }

  method AnswerOutput(t: Token) returns (payload: bytes, reply: bytes)
    ensures payload == PayloadOne(t) && reply == ReplyOne(t)
    ensures t.Csi? ==> payload == (if Hidden(t.text) then [] else t.text)
    ensures t.Csi? ==> reply == (if AsksPosition(t.text) then [0x1b, 0x5b, 0x31, 0x3b, 0x31, 0x52] else [])
    ensures t.Lone? ==> payload == [t.b] && reply == []
  {
    Recognised(TokenBytes(t));
    hide Dropped, Hidden;
    if t.Csi? {
      if t.text == QUERY || t.text == QUERY_PRIVATE {
        return [], REPORT;
      }
      var drop := ShouldDropTerminalReply(t.text);
      if drop {
        return [], [];
      }
    }
    return TokenBytes(t), [];
  }

  /** Answers terminal queries and drops replies in the output stream. */
  class TerminalOutputFilter {
    var carry: bytes

    constructor ()
      ensures carry == []
    {
      carry := [];
    }

    method Filter(chunk: bytes) returns (payload: bytes, reply: bytes)
      modifies this
      ensures payload == Payload(Tokens(old(carry) + chunk)) && reply == Replies(Tokens(old(carry) + chunk))
      ensures carry == Rest(old(carry) + chunk)
      ensures forall ps, tail :: Pieces(old(carry) + chunk, ps, tail) ==> payload == Shown(ps) && reply == Answers(ps) && carry == tail
    {
      hide PayloadOne, ReplyOne, Next, TokenBytes, Pieces, Shown, Answers;
      AllPieces(carry + chunk);
      var data := carry + chunk;
      carry, payload, reply := [], [], [];
      var i := 0;
      assert data[0..] == data;
      while i < |data|
        invariant 0 <= i <= |data|
        invariant carry == [] && Rest(data[i..]) == Rest(data)
        invariant payload + Payload(Tokens(data[i..])) == Payload(Tokens(data))
        invariant reply + Replies(Tokens(data[i..])) == Replies(Tokens(data))
      {
        var t := NextAt(data, i);
        if t.None? {
          carry := data[i..];
          return;
        }
        ghost var rest := Tokens(data[i + |TokenBytes(t.value)|..]);
        TokenStep(data, i);
        OutputStep(t.value, rest);
        ConcatAssoc(payload, PayloadOne(t.value), Payload(rest));
        ConcatAssoc(reply, ReplyOne(t.value), Replies(rest));
        var p, r := AnswerOutput(t.value);
        payload, reply := payload + p, reply + r;
        i := i + |TokenBytes(t.value)|;
      }
      assert data[i..] == [];
    }

    method Flush() returns (tail: bytes)
      modifies this
      ensures tail == old(carry) && carry == []
    {
      tail := carry;
      carry := [];
    }
  }

  // ---------- whole streams ----------

  /** Everything before the first detach byte. */
  function BeforeDetach(s: bytes): bytes {
    if s == [] || s[0] == DETACH then [] else [s[0]] + BeforeDetach(s[1..])
  }

  lemma {:induction false} BeforeDetachCut(a: bytes, b: bytes)
    ensures DETACH in a ==> BeforeDetach(a + b) == BeforeDetach(a)
    ensures DETACH !in a ==> BeforeDetach(a) == a && BeforeDetach(a + b) == a + BeforeDetach(b)
  {
    if a == [] {
      assert a + b == b;
    } else {
      assert (a + b)[1..] == a[1..] + b;
      assert a == [a[0]] + a[1..];
      if a[0] != DETACH {
        BeforeDetachCut(a[1..], b);
      }
    }
  }

  /** What the guest is sent for a stream of input, whatever the reads: up to the detach key, or all and then EOT. */
  function Delivered(stream: bytes): bytes {
    var all := InputOut(Tokens(stream));
    if DETACH in all then BeforeDetach(all) else all + [EOT]
  }

  lemma {:induction false} InputCut(a: bytes, b: bytes)
    ensures InputOut(Tokens(a + b)) == InputOut(Tokens(a)) + InputOut(Tokens(Rest(a) + b))
    ensures Rest(a + b) == Rest(Rest(a) + b)
  {
    Cut(a, b);
    InputOutConcat(Tokens(a), Tokens(Rest(a) + b));
  }

  lemma {:induction false} OutputCut(a: bytes, b: bytes)
    ensures Payload(Tokens(a + b)) == Payload(Tokens(a)) + Payload(Tokens(Rest(a) + b))
    ensures Replies(Tokens(a + b)) == Replies(Tokens(a)) + Replies(Tokens(Rest(a) + b))
    ensures Rest(a + b) == Rest(Rest(a) + b)
  {
    Cut(a, b);
    OutputConcat(Tokens(a), Tokens(Rest(a) + b));
  }

  lemma JoinPrefix(chunks: seq<bytes>, i: nat)
    requires i < |chunks|
    ensures Join(chunks[..i + 1]) == Join(chunks[..i]) + chunks[i]
  {
    assert chunks[..i + 1] == chunks[..i] + [chunks[i]];
    JoinAppend(chunks[..i], chunks[i]);
  }

  lemma {:induction false} JoinSplit(chunks: seq<bytes>, i: nat) returns (tail: bytes)
    requires i <= |chunks|
    ensures Join(chunks) == Join(chunks[..i]) + tail
    decreases |chunks| - i
  {
    if i == |chunks| {
      assert chunks[..i] == chunks;
      tail := [];
    } else {
      JoinPrefix(chunks, i);
      var rest := JoinSplit(chunks, i + 1);
      tail := chunks[i] + rest;
      ConcatAssoc(Join(chunks[..i]), chunks[i], rest);
    }
  }

  /** The guest is sent all that was typed and then byte 0x04, or what comes before the first byte 0x1d. */
  ghost predicate SentOf(typed: bytes, sent: bytes, detached: bool) {
    && (detached <==> 0x1d in typed)
    && (!detached ==> sent == typed + [0x04])
    && (detached ==> 0x1d !in sent && sent + [0x1d] <= typed)
  }

  lemma {:induction false} BeforeDetachIs(s: bytes)
    requires DETACH in s
    ensures 0x1d !in BeforeDetach(s) && BeforeDetach(s) + [0x1d] <= s
  {
    if s[0] != DETACH {
      assert s == [s[0]] + s[1..];
      BeforeDetachIs(s[1..]);
      var b := BeforeDetach(s[1..]);
      assert s[..|b| + 2] == [s[0]] + s[1..][..|b| + 1];
    }
  }

  lemma {:induction false} AllSent(d: bytes)
    ensures forall ps, tail :: Pieces(d, ps, tail) ==> SentOf(Typed(ps), Delivered(d), DETACH in InputOut(Tokens(d)))
  {
    hide Pieces, Typed, InputOut, Tokens;
    AllPieces(d);
    var all := InputOut(Tokens(d));
    if DETACH in all {
      BeforeDetachIs(all);
    }
  }

  lemma {:induction false} AllPieces(d: bytes)
    ensures forall ps, tail :: Pieces(d, ps, tail) ==>
              InputOut(Tokens(d)) == Typed(ps) && Payload(Tokens(d)) == Shown(ps) && Replies(Tokens(d)) == Answers(ps) && Rest(d) == tail
    ensures exists ps, tail :: Pieces(d, ps, tail)
  {
    hide Pieces, Typed, Shown, Answers, InputOut, Payload, Replies, Tokens, Rest;
    TokensArePieces(d);
    forall ps, tail | Pieces(d, ps, tail)
      ensures InputOut(Tokens(d)) == Typed(ps) && Payload(Tokens(d)) == Shown(ps) && Replies(Tokens(d)) == Answers(ps) && Rest(d) == tail
    {
      FiltersOfPieces(d, ps, tail);
    }
  }

  /** The input pump over all the reads of a session that ends in end of file. */
  method PumpInput(chunks: seq<bytes>) returns (sent: bytes, detached: bool)
    ensures sent == Delivered(Join(chunks))
    ensures detached == (DETACH in InputOut(Tokens(Join(chunks))))
    ensures forall ps, tail :: Pieces(Join(chunks), ps, tail) ==> SentOf(Typed(ps), sent, detached)
  {
    hide InputOut, Tokens, Rest, Pieces, Typed, SentOf;
    AllSent(Join(chunks));
    var filter := new InputReplyFilter();
    sent := [];
    EmptyStream();
    for i := 0 to |chunks|
      invariant filter.carry == Rest(Join(chunks[..i]))
      invariant sent == InputOut(Tokens(Join(chunks[..i]))) && DETACH !in sent
    {
      ghost var so := Join(chunks[..i]);
      JoinPrefix(chunks, i);
      InputCut(so, chunks[i]);
      var data := filter.Process(chunks[i]);
      if DETACH in data {
        ghost var tail := JoinSplit(chunks, i + 1);
        InputCut(so + chunks[i], tail);
        BeforeDetachCut(sent, data);
        ghost var more := InputOut(Tokens(Rest(so + chunks[i]) + tail));
        BeforeDetachCut(sent + data, more);
        assert Join(chunks) == so + chunks[i] + tail;
        var head := Prefix(data);
        sent := sent + head;
        return sent, true;
      }
      sent := sent + data;
    }
    assert chunks[..|chunks|] == chunks;
    return sent + [EOT], false;
  }

  lemma EmptyStream()
    ensures Tokens([]) == [] && Rest([]) == [] && InputOut([]) == [] && Payload([]) == [] && Replies([]) == []
  {
  }

  /** The bytes of a read before its detach byte. */
  method Prefix(data: bytes) returns (head: bytes)
    ensures head == BeforeDetach(data)
  {
    var idx := 0;
    while idx < |data| && data[idx] != DETACH
      invariant 0 <= idx <= |data|
      invariant BeforeDetach(data) == data[..idx] + BeforeDetach(data[idx..])
    {
      assert data[..idx + 1] == data[..idx] + [data[idx]];
      assert data[idx..][1..] == data[idx + 1..];
      idx := idx + 1;
    }
    head := data[..idx];
  }

  /** The output pump: what reaches the terminal, and what is answered to the guest. */
  method PumpOutput(chunks: seq<bytes>) returns (shown: bytes, answered: bytes)
    ensures shown == Payload(Tokens(Join(chunks))) + Rest(Join(chunks))
    ensures answered == Replies(Tokens(Join(chunks)))
    ensures forall ps, tail :: Pieces(Join(chunks), ps, tail) ==> shown == Shown(ps) + tail && answered == Answers(ps)
  {
    hide Payload, Replies, Tokens, Rest, Pieces, Shown, Answers;
    AllPieces(Join(chunks));
    var filter := new TerminalOutputFilter();
    shown, answered := [], [];
    EmptyStream();
    for i := 0 to |chunks|
      invariant filter.carry == Rest(Join(chunks[..i]))
      invariant shown == Payload(Tokens(Join(chunks[..i]))) && answered == Replies(Tokens(Join(chunks[..i])))
    {
      JoinPrefix(chunks, i);
      OutputCut(Join(chunks[..i]), chunks[i]);
      var payload, reply := filter.Filter(chunks[i]);
      shown, answered := shown + payload, answered + reply;
    }
    assert chunks[..|chunks|] == chunks;
    var tail := filter.Flush();
    shown := shown + tail;
  }

  // ---------- only recognised sequences are removed ----------

  /** The tokens a filter with the given recogniser takes out. */
  function Removed(ts: seq<Token>, drop: bytes -> bool): seq<Token> {
    if ts == [] then []
    else (if ts[0].Csi? && drop(ts[0].text) then [ts[0]] else []) + Removed(ts[1..], drop)
  }

  /** The tokens are kept and gone, merged in order. */
  ghost predicate Merged(ts: seq<Token>, kept: bytes, gone: seq<Token>)
    decreases |ts|
  {
    if ts == [] then kept == [] && gone == []
    else
      || (gone != [] && gone[0] == ts[0] && Merged(ts[1..], kept, gone[1..]))
      || (TokenBytes(ts[0]) <= kept && Merged(ts[1..], kept[|TokenBytes(ts[0])|..], gone))
  }

  function Unanswered(): bytes -> bool {
    s => Query(s) || Dropped(s)
  }

  /** A token taken out, and a token kept, in front of a merge. */
  lemma {:induction false} MergedOut(t: Token, ts: seq<Token>, kept: bytes, gone: seq<Token>)
    requires Merged(ts, kept, gone)
    ensures Merged([t] + ts, kept, [t] + gone)
  {
    hide TokenBytes;
    assert ([t] + ts)[1..] == ts && ([t] + gone)[1..] == gone;
  }

  lemma {:induction false} MergedKept(t: Token, ts: seq<Token>, kept: bytes, gone: seq<Token>)
    requires Merged(ts, kept, gone)
    ensures Merged([t] + ts, TokenBytes(t) + kept, gone)
  {
    hide TokenBytes;
    var all := TokenBytes(t) + kept;
    assert ([t] + ts)[1..] == ts && all[|TokenBytes(t)|..] == kept && TokenBytes(t) <= all;
  }

  lemma {:induction false} RemovedStep(t: Token, ts: seq<Token>, drop: bytes -> bool)
    ensures Removed([t] + ts, drop) == (if t.Csi? && drop(t.text) then [t] else []) + Removed(ts, drop)
  {
    assert ([t] + ts)[1..] == ts;
  }

  lemma {:induction false} InputMerged(ts: seq<Token>)
    ensures Merged(ts, InputOut(ts), Removed(ts, HostReply))
  {
    hide HostReply, TokenBytes, Merged, Removed, InputOut;
    if ts == [] {
      MergedNone(HostReply);
    } else {
      var t, rest := ts[0], ts[1..];
      var gone := Removed(rest, HostReply);
      InputMerged(rest);
      assert ts == [t] + rest;
      InputStep(t, rest);
      RemovedStep(t, rest, HostReply);
      if t.Csi? && HostReply(t.text) {
        MergedOut(t, rest, InputOut(rest), gone);
        assert [] + InputOut(rest) == InputOut(rest);
      } else {
        MergedKept(t, rest, InputOut(rest), gone);
        assert [] + gone == gone;
      }
    }
  }

  lemma MergedNone(drop: bytes -> bool)
    ensures Merged([], [], []) && Removed([], drop) == [] && InputOut([]) == [] && Payload([]) == []
  {
  }

  lemma {:induction false} OutputMerged(ts: seq<Token>)
    ensures Merged(ts, Payload(ts), Removed(ts, Unanswered()))
  {
    hide Query, Dropped, TokenBytes, Merged, Removed, Payload;
    if ts == [] {
      MergedNone(Unanswered());
    } else {
      var t, rest := ts[0], ts[1..];
      var gone := Removed(rest, Unanswered());
      OutputMerged(rest);
      assert ts == [t] + rest;
      OutputStep(t, rest);
      RemovedStep(t, rest, Unanswered());
      if t.Csi? && (Query(t.text) || Dropped(t.text)) {
        MergedOut(t, rest, Payload(rest), gone);
        assert [] + Payload(rest) == Payload(rest);
      } else {
        MergedKept(t, rest, Payload(rest), gone);
        assert [] + gone == gone;
      }
    }
  }

  lemma {:induction false} RemovedRecognised(ts: seq<Token>, drop: bytes -> bool)
    ensures forall i :: 0 <= i < |Removed(ts, drop)| ==> Removed(ts, drop)[i].Csi? && drop(Removed(ts, drop)[i].text)
  {
    if ts != [] {
      RemovedRecognised(ts[1..], drop);
    }
  }

  /**
   * Of every stream, both filters pass on exactly what is not a recognised sequence: the tokens and the
   * unfinished end are the stream, what comes out and what was removed merge back into the tokens, and
   * everything removed was recognised.
   */
  lemma {:induction false} OnlyRecognised(d: bytes)
    ensures Flat(Tokens(d)) + Rest(d) == d
    ensures Merged(Tokens(d), InputOut(Tokens(d)), Removed(Tokens(d), HostReply))
    ensures Merged(Tokens(d), Payload(Tokens(d)), Removed(Tokens(d), Unanswered()))
    ensures forall t :: t in Removed(Tokens(d), HostReply) ==> t.Csi? && HostReply(t.text)
    ensures forall t :: t in Removed(Tokens(d), Unanswered()) ==> t.Csi? && (Query(t.text) || Dropped(t.text))
  {
    Lossless(d);
    InputMerged(Tokens(d));
    OutputMerged(Tokens(d));
    RemovedRecognised(Tokens(d), HostReply);
    RemovedRecognised(Tokens(d), Unanswered());
  }

  // ---------- what arrives unchanged ----------

  /** No token is one the input filter takes out. */
  ghost predicate NoReplies(ts: seq<Token>) {
    forall i :: 0 <= i < |ts| ==> !(ts[i].Csi? && HostReply(ts[i].text))
  }

  /** No token is one the output filter takes out. */
  ghost predicate NoQueries(ts: seq<Token>) {
    forall i :: 0 <= i < |ts| ==> !(ts[i].Csi? && (Query(ts[i].text) || Dropped(ts[i].text)))
  }

  lemma {:induction false} InputLength(ts: seq<Token>)
    requires forall i :: 0 <= i < |ts| ==> TokenBytes(ts[i]) != []
    ensures |InputOut(ts)| <= |Flat(ts)|
    ensures NoReplies(ts) ==> InputOut(ts) == Flat(ts)
    ensures !NoReplies(ts) ==> |InputOut(ts)| < |Flat(ts)|
  {
    hide HostReply, TokenBytes;
    if ts != [] {
      InputLength(ts[1..]);
      assert NoReplies(ts) <==> !(ts[0].Csi? && HostReply(ts[0].text)) && NoReplies(ts[1..]) by {
        assert ts == [ts[0]] + ts[1..];
      }
    }
  }

  lemma {:induction false} PayloadLength(ts: seq<Token>)
    requires forall i :: 0 <= i < |ts| ==> TokenBytes(ts[i]) != []
    ensures |Payload(ts)| <= |Flat(ts)|
    ensures NoQueries(ts) ==> Payload(ts) == Flat(ts)
    ensures !NoQueries(ts) ==> |Payload(ts)| < |Flat(ts)|
  {
    hide Query, Dropped, TokenBytes;
    if ts != [] {
      PayloadLength(ts[1..]);
      assert NoQueries(ts) <==> !(ts[0].Csi? && (Query(ts[0].text) || Dropped(ts[0].text))) && NoQueries(ts[1..]) by {
        assert ts == [ts[0]] + ts[1..];
      }
    }
  }

  lemma {:induction false} TokensNonEmpty(d: bytes)
    ensures forall i :: 0 <= i < |Tokens(d)| ==> TokenBytes(Tokens(d)[i]) != []
    decreases |d|
  {
    if d != [] && Next(d).Some? {
      TokensNonEmpty(d[|TokenBytes(Next(d).value)|..]);
      hide Next, TokenBytes;
    }
  }

  /** The filtered input is the stream itself exactly when it ends in no unfinished sequence and holds no reply. */
  lemma {:induction false} InputExactly(d: bytes)
    ensures InputOut(Tokens(d)) == d <==> Rest(d) == [] && NoReplies(Tokens(d))
  {
    hide InputOut, Tokens, Rest, Flat, NoReplies, TokenBytes;
    Lossless(d);
    TokensNonEmpty(d);
    InputLength(Tokens(d));
  }

  /** What the terminal is shown is the stream itself exactly when it holds no query and no reply. */
  lemma {:induction false} OutputExactly(d: bytes)
    ensures Payload(Tokens(d)) + Rest(d) == d <==> NoQueries(Tokens(d))
  {
    hide Payload, Tokens, Rest, Flat, NoQueries, TokenBytes;
    Lossless(d);
    TokensNonEmpty(d);
    PayloadLength(Tokens(d));
  }

  /** The guest is sent all of the input exactly when, besides, there is no detach key in it. */
  lemma {:induction false} DeliveredExactly(d: bytes)
    ensures Delivered(d) == d + [EOT] <==> DETACH !in d && Rest(d) == [] && NoReplies(Tokens(d))
  {
    hide InputOut, Tokens, Rest, NoReplies;
    InputExactly(d);
    var all := InputOut(Tokens(d));
    if DETACH in all {
      NoDetach(all);
      assert Delivered(d) != d + [EOT] by {
        if DETACH in d {
          assert DETACH in d + [EOT];
        } else {
          assert all != d;
          ShorterBefore(all);
          InputShrinks(d);
        }
      }
    } else if all + [EOT] == d + [EOT] {
      assert all == (all + [EOT])[..|all|] && d == (d + [EOT])[..|d|];
    }
  }

  lemma {:induction false} NoDetach(s: bytes)
    ensures DETACH !in BeforeDetach(s)
  {
    if s != [] {
      NoDetach(s[1..]);
    }
  }

  lemma {:induction false} ShorterBefore(s: bytes)
    ensures |BeforeDetach(s)| <= |s|
  {
    if s != [] {
      ShorterBefore(s[1..]);
    }
  }

  lemma {:induction false} InputShrinks(d: bytes)
    ensures |InputOut(Tokens(d))| + |Rest(d)| <= |d|
  {
    hide InputOut, Tokens, Rest, Flat, TokenBytes;
    Lossless(d);
    TokensNonEmpty(d);
    InputLength(Tokens(d));
  }

  /** At end of input the carry is not flushed: with nothing else to remove, exactly the unfinished end is lost. */
  lemma {:induction false} UnfinishedLost(d: bytes)
    requires DETACH !in d && NoReplies(Tokens(d))
    ensures |Rest(d)| <= |d| && Delivered(d) == d[..|d| - |Rest(d)|] + [EOT]
  {
    hide InputOut, Tokens, Rest, Flat, NoReplies, TokenBytes;
    Lossless(d);
    TokensNonEmpty(d);
    InputLength(Tokens(d));
    var all := InputOut(Tokens(d));
    assert d[..|all|] == all;
    assert forall i :: 0 <= i < |all| ==> all[i] == d[i];
  }

  /** A lone ESC at the end of input never reaches the guest. */
  lemma LoneEscapeLost()
    ensures Delivered([ESC]) == [EOT]
  {
    assert Tokens([ESC]) == [] && Rest([ESC]) == [ESC];
    UnfinishedLost([ESC]);
    assert [ESC][..0] + [EOT] == [EOT];
  }

  /** A shifted F3 key is sent as ESC [ 1 ; 2 R, the form of a cursor report: it does not reach the guest. */
  lemma ShiftF3Lost()
    ensures var key := [ESC, BRACKET, 0x31, 0x3b, 0x32, CHAR_R];
            InputOut(Tokens(key)) == [] && Delivered(key) != key + [EOT]
  {
    var key: bytes := [ESC, BRACKET, 0x31, 0x3b, 0x32, CHAR_R];
    assert FinalAt(key, 2) == 5 by {
      assert FinalAt(key, 4) == 5;
    }
    assert key[..6] == key && key[6..] == [];
    assert Next(key) == Some(Csi(key));
    assert Tokens(key) == [Csi(key)] + Tokens([]);
    assert [Csi(key)][1..] == [];
    assert !NoReplies(Tokens(key)) by {
      assert Tokens(key)[0] == Csi(key) && HostReply(key);
    }
    DeliveredExactly(key);
  }
}
