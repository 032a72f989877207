/** What comes back off the wire, for every message and every stream of messages. */
module WireRoundTrip {
  import opened Prelude
  import opened Bytes
  import opened Wire

  // ---------- fields ----------

  /** A 16-bit field holds a number up to multiples of 65536. */
  lemma {:induction false} U16At(b: bytes, off: nat, v: nat)
    requires Holds(b, off, Be(v, 2))
    ensures GetUint(b, off, 2) == Some((v % POW16, off + 2))
  {
    var low := v % POW16;
    assert Be(low, 2) == Be(v, 2) by {
      assert low % 256 == v % 256 && (low / 256) % 256 == (v / 256) % 256;
      assert Be(v, 2) == Be(v / 256, 1) + [v % 256] && Be(v / 256, 1) == Be(v / 256 / 256, 0) + [(v / 256) % 256];
      assert Be(low, 2) == Be(low / 256, 1) + [low % 256] && Be(low / 256, 1) == Be(low / 256 / 256, 0) + [(low / 256) % 256];
    }
    PowValues();
    BeRoundTrip(low, 2);
  }

  lemma {:induction false} U32At(b: bytes, off: nat, v: nat)
    requires Holds(b, off, Be(v, 4)) && v < POW32
    ensures GetUint(b, off, 4) == Some((v, off + 4))
  {
    PowValues();
    BeRoundTrip(v, 4);
  }

  lemma StringAt(b: bytes, off: nat, s: bytes)
    requires Holds(b, off, PutString(s)) && |s| < POW32
    ensures GetString(b, off) == Some((s, off + |PutString(s)|))
  {
    HoldsSplit(b, off, Be(|s|, 4), s);
    U32At(b, off, |s|);
  }

  ghost predicate Short(items: seq<bytes>) {
    forall i :: 0 <= i < |items| ==> |items[i]| < POW32
  }

  lemma {:induction false} ItemsAt(b: bytes, off: nat, items: seq<bytes>)
    requires Holds(b, off, PutItems(items)) && Short(items)
    ensures GetItems(b, off, |items|) == Some((items, off + |PutItems(items)|))
    decreases |items|
  {
    hide PutString, GetString, Holds;
    if items != [] {
      HoldsSplit(b, off, PutString(items[0]), PutItems(items[1..]));
      StringAt(b, off, items[0]);
      ItemsAt(b, off + |PutString(items[0])|, items[1..]);
      assert items == [items[0]] + items[1..];
    }
  }

  lemma ListAt(b: bytes, off: nat, items: seq<bytes>)
    requires Holds(b, off, PutList(items)) && Short(items) && |items| < POW16
    ensures GetList(b, off) == Some((items, off + |PutList(items)|))
  {
    hide PutItems, GetItems, Be, Holds, GetUint;
    HoldsSplit(b, off, Be(|items|, 2), PutItems(items));
    U16At(b, off, |items|);
    ItemsAt(b, off + 2, items);
  }

  /** A list too long for its count comes back shorter, if at all. */
  lemma LongListAt(b: bytes, off: nat, items: seq<bytes>)
    requires Holds(b, off, PutList(items)) && |items| >= POW16
    ensures GetList(b, off).Some? ==> |GetList(b, off).value.0| < |items|
  {
    hide PutItems, Be, Holds, GetUint;
    HoldsSplit(b, off, Be(|items|, 2), PutItems(items));
    U16At(b, off, |items|);
  }

  lemma {:induction false} U64At(b: bytes, off: nat, v: u64)
    requires Holds(b, off, Be(v, 8))
    ensures GetU64(b, off) == Some((v, off + 8))
  {
    PowValues();
    BeRoundTrip(v, 8);
  }

  lemma {:induction false} U64sAt(b: bytes, off: nat, vs: seq<u64>)
    requires Holds(b, off, PutU64s(vs))
    ensures GetU64s(b, off, |vs|) == Some((vs, off + |PutU64s(vs)|))
    decreases |vs|
  {
    hide GetU64, Holds;
    if vs != [] {
      HoldsSplit(b, off, Be(vs[0], 8), PutU64s(vs[1..]));
      U64At(b, off, vs[0]);
      U64sAt(b, off + 8, vs[1..]);
      assert vs == [vs[0]] + vs[1..];
    }
  }

  lemma OptionAt(b: bytes, off: nat, vs: Option<seq<u64>>, n: nat, was: Option<seq<u64>>)
    requires Holds(b, off, PutOption(vs)) && (vs.Some? ==> |vs.value| == n)
    ensures GetOption(b, off, n, was) == Some((if vs.Some? then vs else was, off + |PutOption(vs)|))
  {
    if vs.Some? {
      HoldsSplit(b, off, [1], PutU64s(vs.value));
      assert b[off] == b[off..off + 1][0] == 1;
      U64sAt(b, off + 1, vs.value);
    } else {
      assert b[off] == b[off..off + 1][0] == 0;
    }
  }

  // ---------- requests ----------

  /** What a request looks like to the receiver: sizes clamped, fields its mode does not send dropped. */
  function Seen(r: Request): Request {
    var base := NO_REQUEST.(mode := r.mode);
    if r.mode == "exec" || r.mode == "stream" then
      base.(columns := ClampU16(r.columns), rows := ClampU16(r.rows), stdin := r.stdin,
            command := r.command, env := r.env, workDir := r.workDir)
    else if r.mode == "memory_hotplug_get" || r.mode == "memory_hotplug_update" then
      base.(baseAddr := r.baseAddr, totalBytes := r.totalBytes, blockBytes := r.blockBytes, targetBytes := r.targetBytes)
    else if r.mode == "resize" then base.(columns := ClampU16(r.columns), rows := ClampU16(r.rows))
    else base
  }

  /** The lists the mode sends fit their 16-bit counts. */
  predicate Countable(r: Request) {
    r.mode == "exec" || r.mode == "stream" ==> |r.command| < POW16 && |r.env| < POW16
  }

  /** The parts of an exec body, where they stand. */
  lemma ExecParts(b: bytes, r: Request)
    requires Holds(b, 0, RequestBody(r, 1))
    ensures var p2 := 4 + |PutString(r.stdin)|;
            var p3 := p2 + |PutList(r.command)|;
            var p4 := p3 + |PutList(r.env)|;
            && Holds(b, 0, Be(ClampU16(r.columns), 2)) && Holds(b, 2, Be(ClampU16(r.rows), 2))
            && Holds(b, 4, PutString(r.stdin)) && Holds(b, p2, PutList(r.command))
            && Holds(b, p3, PutList(r.env)) && Holds(b, p4, PutString(r.workDir))
  {
    hide Holds, PutString, PutList, ClampU16;
    var e := PutList(r.env) + PutString(r.workDir);
    var d := PutList(r.command) + e;
    var c := PutString(r.stdin) + d;
    var a := Be(ClampU16(r.rows), 2) + c;
    HoldsSplit(b, 0, Be(ClampU16(r.columns), 2), a);
    HoldsSplit(b, 2, Be(ClampU16(r.rows), 2), c);
    HoldsSplit(b, 4, PutString(r.stdin), d);
    HoldsSplit(b, 4 + |PutString(r.stdin)|, PutList(r.command), e);
    HoldsSplit(b, 4 + |PutString(r.stdin)| + |PutList(r.command)|, PutList(r.env), PutString(r.workDir));
  }

  lemma {:induction false} ItemsShort(items: seq<bytes>)
    requires |PutItems(items)| < POW32
    ensures Short(items)
  {
    if items != [] {
      ItemsShort(items[1..]);
    }
  }

  lemma ExecShort(b: bytes, r: Request)
    requires Holds(b, 0, RequestBody(r, 1)) && |b| < POW32
    ensures |r.stdin| < POW32 && |r.workDir| < POW32 && Short(r.command) && Short(r.env)
  {
    hide PutItems;
    ItemsShort(r.command);
    ItemsShort(r.env);
  }

  /** An exec body parses back to the request exactly when both lists can be counted. */
  lemma ExecBack(b: bytes, r: Request, base: Request)
    requires Holds(b, 0, RequestBody(r, 1)) && |b| < POW32
    ensures ParseExec(base, b) == Some(base.(columns := ClampU16(r.columns), rows := ClampU16(r.rows), stdin := r.stdin,
                                             command := r.command, env := r.env, workDir := r.workDir))
            <==> |r.command| < POW16 && |r.env| < POW16
  {
    hide Holds, PutString, PutList, RequestBody, GetUint, GetString, GetList;
    ExecParts(b, r);
    ExecShort(b, r);
    var p2 := 4 + |PutString(r.stdin)|;
    var p3 := p2 + |PutList(r.command)|;
    U16At(b, 0, ClampU16(r.columns));
    U16At(b, 2, ClampU16(r.rows));
    StringAt(b, 4, r.stdin);
    if |r.command| < POW16 {
      ListAt(b, p2, r.command);
      if |r.env| < POW16 {
        ListAt(b, p3, r.env);
        StringAt(b, p3 + |PutList(r.env)|, r.workDir);
      } else {
        LongListAt(b, p3, r.env);
      }
    } else {
      LongListAt(b, p2, r.command);
    }
  }

  lemma {:induction false} HotplugBack(b: bytes, r: Request)
    requires Holds(b, 0, PutU64s([r.baseAddr, r.totalBytes, r.blockBytes, r.targetBytes]))
    ensures GetU64s(b, 0, 4).Some? && GetU64s(b, 0, 4).value.0 == [r.baseAddr, r.totalBytes, r.blockBytes, r.targetBytes]
  {
    U64sAt(b, 0, [r.baseAddr, r.totalBytes, r.blockBytes, r.targetBytes]);
  }

  lemma ResizeBack(b: bytes, r: Request)
    requires Holds(b, 0, Be(ClampU16(r.columns), 2) + Be(ClampU16(r.rows), 2))
    ensures GetUint(b, 0, 2) == Some((ClampU16(r.columns), 2)) && GetUint(b, 2, 2) == Some((ClampU16(r.rows), 4))
  {
    HoldsSplit(b, 0, Be(ClampU16(r.columns), 2), Be(ClampU16(r.rows), 2));
    U16At(b, 0, ClampU16(r.columns));
    U16At(b, 2, ClampU16(r.rows));
  }

  lemma RequestBack(r: Request, mode: byte)
    requires ModeToByte(r.mode) == Some(mode) && |RequestBody(r, mode)| < POW32
    ensures ParseRequest(mode, RequestBody(r, mode)) == Some(Seen(r)) <==> Countable(r)
  {
    hide GetU64s, GetUint, ParseExec, PutU64s, Holds, ClampU16;
    var b := RequestBody(r, mode);
    HoldsWhole(b);
    assert ByteToMode(mode) == r.mode;
    if mode == 1 || mode == 2 {
      assert RequestBody(r, 1) == b;
      ExecBack(b, r, NO_REQUEST.(mode := r.mode));
    } else if mode == 4 || mode == 5 {
      HotplugBack(b, r);
    } else if mode == 6 {
      ResizeBack(b, r);
    }
  }

  // ---------- frames ----------

  /** Decoding reads the length, then exactly that many bytes. */
  lemma {:induction false} FrameAt(p: bytes, rest: bytes)
    requires p != [] && |p| <= MAX_FRAME
    ensures var s := Be(|p|, 4) + p + rest;
            && GetUint(s, 0, 4) == Some((|p|, 4)) && 4 + |p| <= |s|
            && s[4] == p[0] && s[5..4 + |p|] == p[1..] && s[4 + |p|..] == rest
  {
    hide GetUint, Be;
    var h := Be(|p|, 4);
    var s := h + p + rest;
    assert Holds(s, 0, h);
    U32At(s, 0, |p|);
    assert s[5..4 + |p|] == p[1..];
    assert s[4 + |p|..] == rest;
  }

  /** A request comes back as the receiver sees it, followed by the rest of the stream, exactly when its lists can be counted. */
  lemma RequestRoundTrip(r: Request, rest: bytes)
    requires Encode(Req(r)).Some?
    ensures Decode(Encode(Req(r)).value + rest, IntoRequest) == Some((Req(Seen(r)), rest)) <==> Countable(r)
  {
    hide RequestBody, ParseRequest, GetUint, Be;
    var mode := ModeToByte(r.mode).value;
    var p := [mode] + RequestBody(r, mode);
    FrameAt(p, rest);
    assert p[1..] == RequestBody(r, mode);
    RequestBack(r, mode);
  }

  /** 65536 arguments are lost: the frame does not come back as the request. */
  lemma ManyArguments(r: Request, rest: bytes)
    requires Encode(Req(r)).Some? && r.mode == "exec" && |r.command| == 65536
    ensures Decode(Encode(Req(r)).value + rest, IntoRequest) != Some((Req(Seen(r)), rest))
  {
    RequestRoundTrip(r, rest);
  }

  // ---------- responses ----------

  /** What a response looks like when parsed into was: absent counters keep what was there. */
  function SeenIn(r: Response, was: Response): Response {
    r.(exitCode := Signed32(Low32(r.exitCode)),
       stats := if r.stats.Some? then r.stats else was.stats,
       hotplug := if r.hotplug.Some? then r.hotplug else was.hotplug)
  }

  lemma ResponseParts(b: bytes, r: Response)
    requires Holds(b, 0, ResponseBody(r))
    ensures var p1 := 5 + |PutString(r.stdout)|;
            var p2 := p1 + |PutString(r.stderr)|;
            var p3 := p2 + |PutString(r.error)|;
            && Holds(b, 0, [if r.ok then 1 else 0]) && Holds(b, 1, Be(Low32(r.exitCode), 4))
            && Holds(b, 5, PutString(r.stdout)) && Holds(b, p1, PutString(r.stderr)) && Holds(b, p2, PutString(r.error))
            && Holds(b, p3, PutOption(r.stats)) && Holds(b, p3 + |PutOption(r.stats)|, PutOption(r.hotplug))
  {
    hide Holds, PutString, PutOption, Low32;
    var e := PutOption(r.stats) + PutOption(r.hotplug);
    var d := PutString(r.error) + e;
    var c := PutString(r.stderr) + d;
    var a := PutString(r.stdout) + c;
    HoldsSplit(b, 0, [if r.ok then 1 else 0], Be(Low32(r.exitCode), 4) + a);
    HoldsSplit(b, 1, Be(Low32(r.exitCode), 4), a);
    HoldsSplit(b, 5, PutString(r.stdout), c);
    HoldsSplit(b, 5 + |PutString(r.stdout)|, PutString(r.stderr), d);
    HoldsSplit(b, 5 + |PutString(r.stdout)| + |PutString(r.stderr)|, PutString(r.error), e);
    HoldsSplit(b, 5 + |PutString(r.stdout)| + |PutString(r.stderr)| + |PutString(r.error)|, PutOption(r.stats), PutOption(r.hotplug));
  }

  lemma ResponseShort(r: Response)
    requires |ResponseBody(r)| < POW32
    ensures |r.stdout| < POW32 && |r.stderr| < POW32 && |r.error| < POW32
  {
    hide PutOption;
  }

  lemma ResponseBack(r: Response, was: Response)
    requires |ResponseBody(r)| < POW32
    ensures ParseResponse(ResponseBody(r), was) == Some(SeenIn(r, was))
  {
    hide Holds, PutString, PutOption, ResponseBody, GetUint, GetString, GetOption, Low32, Signed32;
    var b := ResponseBody(r);
    var p1 := 5 + |PutString(r.stdout)|;
    var p2 := p1 + |PutString(r.stderr)|;
    var p3 := p2 + |PutString(r.error)|;
    HoldsWhole(b);
    ResponseParts(b, r);
    ResponseShort(r);
    HoldsSlice(b, 0, [if r.ok then 1 else 0]);
    assert b[0] == b[0..1][0] == if r.ok then 1 else 0;
    Low32Fits(r.exitCode);
    U32At(b, 1, Low32(r.exitCode));
    StringAt(b, 5, r.stdout);
    StringAt(b, p1, r.stderr);
    StringAt(b, p2, r.error);
    OptionAt(b, p3, r.stats, 14, was.stats);
    OptionAt(b, p3 + |PutOption(r.stats)|, r.hotplug, 5, was.hotplug);
  }

  lemma Low32Fits(v: int)
    ensures Low32(v) < POW32
  {
  }

  /** A response comes back through any destination, with the counters it lacks left as the destination had them. */
  lemma ResponseRoundTrip(r: Response, was: Response, rest: bytes)
    requires Encode(Resp(r)).Some?
    ensures Decode(Encode(Resp(r)).value + rest, IntoResponse(was)) == Some((Resp(SeenIn(r, was)), rest))
  {
    hide ResponseBody, ParseResponse, GetUint, Be, SeenIn;
    var p := [0] + ResponseBody(r);
    FrameAt(p, rest);
    assert p[1..] == ResponseBody(r);
    ResponseBack(r, was);
  }

  const NO_RESPONSE := Response(false, [], [], [], 0, None, None)

  lemma SignedBack(v: int)
    ensures Signed32(Low32(v)) == v <==> -0x8000_0000 <= v < 0x8000_0000
  {
  }

  /** The exit code received is the one sent exactly when it fits 32 bits. */
  lemma ExitCodeKept(r: Response, was: Response, rest: bytes)
    requires Encode(Resp(r)).Some?
    ensures var d := Decode(Encode(Resp(r)).value + rest, IntoResponse(was));
            && d.Some? && d.value.0.Resp?
            && (d.value.0.resp.exitCode == r.exitCode <==> -0x8000_0000 <= r.exitCode < 0x8000_0000)
  {
    hide Decode, Encode, Signed32, Low32;
    ResponseRoundTrip(r, was, rest);
    SignedBack(r.exitCode);
  }

  /** Decoding into a used destination is as good as into a fresh one exactly when it holds no counters the response lacks. */
  lemma ReuseExactly(r: Response, was: Response, rest: bytes)
    requires Encode(Resp(r)).Some?
    ensures var s := Encode(Resp(r)).value + rest;
            Decode(s, IntoResponse(was)) == Decode(s, IntoResponse(NO_RESPONSE))
            <==> (was.stats.Some? ==> r.stats.Some?) && (was.hotplug.Some? ==> r.hotplug.Some?)
  {
    hide Decode, Encode, Signed32, Low32;
    ResponseRoundTrip(r, was, rest);
    ResponseRoundTrip(r, NO_RESPONSE, rest);
  }

  /** A destination that held memory counters still holds them after a response that has none. */
  lemma StaleCounters(counters: seq<u64>, rest: bytes)
    requires |counters| == 14
    ensures Encode(Resp(NO_RESPONSE)).Some?
    ensures var d := Decode(Encode(Resp(NO_RESPONSE)).value + rest, IntoResponse(NO_RESPONSE.(stats := Some(counters))));
            d.Some? && d.value.0.Resp? && d.value.0.resp.stats == Some(counters)
  {
    assert |ResponseBody(NO_RESPONSE)| < 100 by {
      hide Be;
    }
    hide Decode, Signed32, Low32, ResponseBody;
    ResponseRoundTrip(NO_RESPONSE, NO_RESPONSE.(stats := Some(counters)), rest);
  }

  // ---------- streams ----------

  function SeenMessage(m: Message): Message {
    match m
    case Req(r) => Req(Seen(r))
    case Resp(r) => Resp(SeenIn(r, NO_RESPONSE))
  }

  /** The destination for a message, fresh each time. */
  function FreshDest(m: Message): Dest {
    if m.Req? then IntoRequest else IntoResponse(NO_RESPONSE)
  }

  ghost predicate Sendable(m: Message) {
    Encode(m).Some? && (m.Req? ==> Countable(m.req))
  }

  lemma MessageRoundTrip(m: Message, rest: bytes)
    requires Sendable(m)
    ensures Decode(Encode(m).value + rest, FreshDest(m)) == Some((SeenMessage(m), rest))
  {
    hide Decode, Encode, Countable;
    match m
    case Req(r) => RequestRoundTrip(r, rest);
    case Resp(r) => ResponseRoundTrip(r, NO_RESPONSE, rest);
  }

  function EncodeAll(ms: seq<Message>): Option<bytes> {
    if ms == [] then Some([])
    else
      var first, rest := Encode(ms[0]), EncodeAll(ms[1..]);
      if first.None? || rest.None? then None else Some(first.value + rest.value)
  }

  /** Decodes one message per destination. */
  function DecodeAll(s: bytes, dests: seq<Dest>): Option<(seq<Message>, bytes)>
    decreases |dests|
  {
    if dests == [] then Some(([], s))
    else
      var first := Decode(s, dests[0]);
      if first.None? then None
      else
        var rest := DecodeAll(first.value.1, dests[1..]);
        if rest.None? then None else Some(([first.value.0] + rest.value.0, rest.value.1))
  }

  function Map<T, U>(f: T -> U, s: seq<T>): (r: seq<U>)
    ensures |r| == |s| && forall i :: 0 <= i < |s| ==> r[i] == f(s[i])
  {
    if s == [] then [] else [f(s[0])] + Map(f, s[1..])
  }

  /** Any list of messages, sent back to back, is received as that list; each decode stops at its own frame. */
  lemma {:induction false} StreamRoundTrip(ms: seq<Message>, rest: bytes)
    requires forall i :: 0 <= i < |ms| ==> Sendable(ms[i])
    ensures EncodeAll(ms).Some?
    ensures DecodeAll(EncodeAll(ms).value + rest, Map(FreshDest, ms)) == Some((Map(SeenMessage, ms), rest))
    decreases |ms|
  {
    hide Decode, Encode, Countable, SeenMessage, FreshDest;
    if ms == [] {
      assert [] + rest == rest;
    } else {
      StreamRoundTrip(ms[1..], rest);
      var head, tail := Encode(ms[0]).value, EncodeAll(ms[1..]).value;
      MessageRoundTrip(ms[0], tail + rest);
      ConcatAssoc(head, tail, rest);
      assert Map(FreshDest, ms)[1..] == Map(FreshDest, ms[1..]);
    }
  }
}
