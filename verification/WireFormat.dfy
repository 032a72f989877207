/** The wire format spelled out: what each frame holds byte by byte, and what each field arrives as. */
module WireFormat {
  import opened Prelude
  import opened Bytes
  import opened Wire
  import opened WireRoundTrip

  /** The 16-bit number nearest to a terminal size. */
  ghost predicate Nearest16(v: int, got: int) {
    && 0 <= got <= 65535
    && (0 <= v <= 65535 ==> got == v)
    && (v < 0 ==> got == 0)
    && (v > 65535 ==> got == 65535)
  }

  lemma ClampIsNearest(v: int, got: int)
    ensures got == ClampU16(v) <==> Nearest16(v, got)
  {
  }

  // ---------- what arrives ----------

  predicate HasSize(mode: string) {
    mode == "exec" || mode == "stream" || mode == "resize"
  }

  predicate HasCommand(mode: string) {
    mode == "exec" || mode == "stream"
  }

  predicate HasMemory(mode: string) {
    mode == "memory_hotplug_get" || mode == "memory_hotplug_update"
  }

  /** The request that arrives, field by field. */
  ghost predicate Arrives(r: Request, got: Request) {
    && got.mode == r.mode
    && (if HasSize(r.mode) then Nearest16(r.columns, got.columns) && Nearest16(r.rows, got.rows)
        else got.columns == 0 && got.rows == 0)
    && (if HasCommand(r.mode) then got.stdin == r.stdin && got.command == r.command && got.env == r.env && got.workDir == r.workDir
        else got.stdin == [] && got.command == [] && got.env == [] && got.workDir == [])
    && (if HasMemory(r.mode) then
          got.baseAddr == r.baseAddr && got.totalBytes == r.totalBytes && got.blockBytes == r.blockBytes && got.targetBytes == r.targetBytes
        else got.baseAddr == 0 && got.totalBytes == 0 && got.blockBytes == 0 && got.targetBytes == 0)
  }

  /** Every request whose lists have at most 65535 items each arrives so, and the next frame is where it was. */
  lemma RequestArrives(r: Request, rest: bytes)
    requires Encode(Req(r)).Some?
    requires HasCommand(r.mode) ==> |r.command| <= 65535 && |r.env| <= 65535
    ensures var d := Decode(Encode(Req(r)).value + rest, IntoRequest);
            d.Some? && d.value.0.Req? && Arrives(r, d.value.0.req) && d.value.1 == rest
  {
    hide Decode, Encode, Seen, Arrives;
    RequestRoundTrip(r, rest);
    SeenArrives(r);
  }

  lemma SeenArrives(r: Request)
    ensures Arrives(r, Seen(r))
  {
    ClampIsNearest(r.columns, ClampU16(r.columns));
    ClampIsNearest(r.rows, ClampU16(r.rows));
    hide ClampU16, Nearest16;
  }

  /** A terminal size arrives as sent exactly when it fits 16 bits. */
  lemma SizesKept(r: Request, rest: bytes)
    requires Encode(Req(r)).Some? && HasSize(r.mode)
    requires HasCommand(r.mode) ==> |r.command| <= 65535 && |r.env| <= 65535
    ensures var d := Decode(Encode(Req(r)).value + rest, IntoRequest);
            && d.Some? && d.value.0.Req?
            && (d.value.0.req.columns == r.columns <==> 0 <= r.columns <= 65535)
            && (d.value.0.req.rows == r.rows <==> 0 <= r.rows <= 65535)
  {
    hide Decode, Encode;
    RequestArrives(r, rest);
  }

  /** The response that arrives in a destination: its exit code as a signed 32-bit number, the counters it has or else those there. */
  ghost predicate ArrivesIn(r: Response, was: Response, got: Response) {
    && got.ok == r.ok && got.error == r.error && got.stdout == r.stdout && got.stderr == r.stderr
    && -0x8000_0000 <= got.exitCode < 0x8000_0000 && (got.exitCode - r.exitCode) % 0x1_0000_0000 == 0
    && got.stats == (if r.stats.Some? then r.stats else was.stats)
    && got.hotplug == (if r.hotplug.Some? then r.hotplug else was.hotplug)
  }

  lemma ResponseArrives(r: Response, was: Response, rest: bytes)
    requires Encode(Resp(r)).Some?
    ensures var d := Decode(Encode(Resp(r)).value + rest, IntoResponse(was));
            d.Some? && d.value.0.Resp? && ArrivesIn(r, was, d.value.0.resp) && d.value.1 == rest
  {
    hide Decode, Encode, SeenIn, ArrivesIn;
    ResponseRoundTrip(r, was, rest);
    SeenInArrives(r, was);
  }

  lemma SeenInArrives(r: Response, was: Response)
    ensures ArrivesIn(r, was, SeenIn(r, was))
  {
  }

  ghost predicate MessageArrives(m: Message, got: Message) {
    match m
    case Req(r) => got.Req? && Arrives(r, got.req)
    case Resp(r) => got.Resp? && ArrivesIn(r, Response(false, [], [], [], 0, None, None), got.resp)
  }

  /** Messages sent back to back all arrive, in order, each as it would alone. */
  lemma {:induction false} StreamArrives(ms: seq<Message>, rest: bytes)
    requires forall i :: 0 <= i < |ms| ==> Sendable(ms[i])
    ensures EncodeAll(ms).Some?
    ensures var d := DecodeAll(EncodeAll(ms).value + rest, Map(FreshDest, ms));
            && d.Some? && |d.value.0| == |ms| && d.value.1 == rest
            && forall i :: 0 <= i < |ms| ==> MessageArrives(ms[i], d.value.0[i])
  {
    hide Arrives, ArrivesIn, Seen, SeenIn, Sendable, EncodeAll, DecodeAll;
    StreamRoundTrip(ms, rest);
    forall i | 0 <= i < |ms| ensures MessageArrives(ms[i], SeenMessage(ms[i])) {
      match ms[i]
      case Req(r) => SeenArrives(r);
      case Resp(r) => SeenInArrives(r, NO_RESPONSE);
    }
  }

  // ---------- what a frame holds ----------

  /** The tag byte of a message. */
  ghost predicate HasTag(m: Message, tag: byte) {
    match m
    case Req(r) =>
      || (r.mode == "exec" && tag == 1) || (r.mode == "stream" && tag == 2) || (r.mode == "memory_stats" && tag == 3)
      || (r.mode == "memory_hotplug_get" && tag == 4) || (r.mode == "memory_hotplug_update" && tag == 5)
      || (r.mode == "resize" && tag == 6)
    case Resp(_) => tag == 0
  }

  /** A frame starts with its length in four big-endian bytes and its tag, and is never over 64 MiB. */
  lemma {:induction false} FrameHead(m: Message)
    requires Encode(m).Some?
    ensures var f := Encode(m).value;
            5 <= |f| <= 4 + 67108864 && BeVal(f[..4]) == |f| - 4 && HasTag(m, f[4])
  {
    hide RequestBody, ResponseBody, Be;
    var p := Payload(m).value;
    FrameAt(p, []);
    assert Be(|p|, 4) + p + [] == Encode(m).value;
  }

  /** A message cannot be sent exactly when its mode is unknown or its payload is over 64 MiB. */
  lemma Refused(m: Message)
    ensures Encode(m).None? <==>
            (m.Req? && m.req.mode !in ["exec", "stream", "memory_stats", "memory_hotplug_get", "memory_hotplug_update", "resize"])
            || (Payload(m).Some? && |Payload(m).value| > 67108864)
  {
    hide RequestBody, ResponseBody;
  }

  /** A decoded frame had a length from 1 to 64 MiB, all its bytes, and a tag for the destination. */
  lemma DecodedFrame(s: bytes, dest: Dest)
    requires Decode(s, dest).Some?
    ensures var d := Decode(s, dest).value;
            && |s| >= 5 && 1 <= BeVal(s[..4]) <= 67108864 && 4 + BeVal(s[..4]) <= |s|
            && d.1 == s[4 + BeVal(s[..4])..]
            && (if dest.IntoRequest? then d.0.Req? && HasTag(d.0, s[4]) else d.0.Resp? && s[4] == 0)
  {
    hide BeVal, ParseResponse;
    assert s[0..4] == s[..4];
    if 1 <= s[4] <= 6 {
      ParsedMode(s[4], s[5..4 + BeVal(s[..4])]);
    }
  }

  lemma ParsedMode(tag: byte, b: bytes)
    requires 1 <= tag <= 6
    ensures ParseRequest(tag, b).Some? ==> HasTag(Req(ParseRequest(tag, b).value), tag)
  {
    hide GetUint, GetU64s, GetString, GetList;
  }

  /** A list: its count in two bytes, then each item behind its length in four. */
  function ItemStart(items: seq<bytes>, i: nat): nat
    requires i <= |items|
  {
    if i == 0 then 2 else ItemStart(items, i - 1) + 4 + |items[i - 1]|
  }

  lemma {:induction false} ListHolds(items: seq<bytes>, i: nat)
    requires i < |items|
    ensures Holds(PutList(items), 0, Be(|items|, 2))
    ensures Holds(PutList(items), ItemStart(items, i), Be(|items[i]|, 4))
    ensures Holds(PutList(items), ItemStart(items, i) + 4, items[i])
  {
    hide Be, Holds;
    var b := PutList(items);
    HoldsWhole(b);
    HoldsSplit(b, 0, Be(|items|, 2), PutItems(items));
    ItemHolds(b, items, i);
  }

  lemma {:induction false} ItemHolds(b: bytes, items: seq<bytes>, i: nat)
    requires i <= |items| && Holds(b, 2, PutItems(items))
    ensures Holds(b, ItemStart(items, i), PutItems(items[i..]))
    ensures i < |items| ==> Holds(b, ItemStart(items, i), Be(|items[i]|, 4)) && Holds(b, ItemStart(items, i) + 4, items[i])
    decreases i
  {
    hide Be, Holds;
    if i == 0 {
      assert items[0..] == items;
    } else {
      ItemHolds(b, items, i - 1);
      assert items[i - 1..][1..] == items[i..];
      HoldsSplit(b, ItemStart(items, i - 1), PutString(items[i - 1]), PutItems(items[i..]));
    }
    if i < |items| {
      assert items[i..][0] == items[i];
      HoldsSplit(b, ItemStart(items, i), PutString(items[i]), PutItems(items[i..][1..]));
      HoldsSplit(b, ItemStart(items, i), Be(|items[i]|, 4), items[i]);
    }
  }

  /** The body of a request frame, in the order of its fields. */
  lemma {:induction false} RequestHolds(r: Request, cols: nat, rows: nat)
    requires Encode(Req(r)).Some? && Nearest16(r.columns, cols) && Nearest16(r.rows, rows)
    ensures var f := Encode(Req(r)).value;
            && (HasSize(r.mode) ==> Holds(f, 5, Be(cols, 2)) && Holds(f, 7, Be(rows, 2)))
            && (HasCommand(r.mode) ==>
                  var c := 13 + |r.stdin|;
                  var e := c + |PutList(r.command)|;
                  var w := e + |PutList(r.env)|;
                  && Holds(f, 9, Be(|r.stdin|, 4)) && Holds(f, 13, r.stdin)
                  && Holds(f, c, PutList(r.command)) && Holds(f, e, PutList(r.env))
                  && Holds(f, w, Be(|r.workDir|, 4)) && Holds(f, w + 4, r.workDir) && |f| == w + 4 + |r.workDir|)
            && (HasMemory(r.mode) ==>
                  && Holds(f, 5, Be(r.baseAddr, 8)) && Holds(f, 13, Be(r.totalBytes, 8))
                  && Holds(f, 21, Be(r.blockBytes, 8)) && Holds(f, 29, Be(r.targetBytes, 8)) && |f| == 37)
            && (r.mode == "memory_stats" ==> |f| == 5)
            && (r.mode == "resize" ==> |f| == 9)
  {
    ClampIsNearest(r.columns, cols);
    ClampIsNearest(r.rows, rows);
    hide Nearest16, ClampU16, PutString, PutList, PutU64s, Be, Holds;
    var f := Encode(Req(r)).value;
    var mode := ModeToByte(r.mode).value;
    var body := RequestBody(r, mode);
    FrameParts(f, mode, body);
    if HasCommand(r.mode) {
      CommandHolds(f, r, cols, rows);
    } else if HasMemory(r.mode) {
      MemoryHolds(f, r);
    } else if r.mode == "resize" {
      HoldsSplit(f, 5, Be(cols, 2), Be(rows, 2));
    }
  }

  lemma {:induction false} FrameParts(f: bytes, tag: byte, body: bytes)
    requires f == Be(1 + |body|, 4) + ([tag] + body)
    ensures Holds(f, 5, body) && |f| == 5 + |body|
  {
    hide Be;
    HoldsWhole(f);
    HoldsSplit(f, 0, Be(1 + |body|, 4), [tag] + body);
    HoldsSplit(f, 4, [tag], body);
  }

  lemma {:induction false} CommandHolds(f: bytes, r: Request, cols: nat, rows: nat)
    requires cols == ClampU16(r.columns) && rows == ClampU16(r.rows)
    requires Holds(f, 5, RequestBody(r, 1)) && |f| == 5 + |RequestBody(r, 1)|
    ensures var c := 13 + |r.stdin|;
            var e := c + |PutList(r.command)|;
            var w := e + |PutList(r.env)|;
            && Holds(f, 5, Be(cols, 2)) && Holds(f, 7, Be(rows, 2))
            && Holds(f, 9, Be(|r.stdin|, 4)) && Holds(f, 13, r.stdin)
            && Holds(f, c, PutList(r.command)) && Holds(f, e, PutList(r.env))
            && Holds(f, w, Be(|r.workDir|, 4)) && Holds(f, w + 4, r.workDir) && |f| == w + 4 + |r.workDir|
  {
    hide ClampU16, PutList, Be, Holds;
    var w := PutString(r.workDir);
    var e := PutList(r.env) + w;
    var c := PutList(r.command) + e;
    var s := PutString(r.stdin) + c;
    HoldsSplit(f, 5, Be(cols, 2), Be(rows, 2) + s);
    HoldsSplit(f, 7, Be(rows, 2), s);
    StringHolds(f, 9, r.stdin, c);
    HoldsSplit(f, 13 + |r.stdin|, PutList(r.command), e);
    HoldsSplit(f, 13 + |r.stdin| + |PutList(r.command)|, PutList(r.env), w);
    HoldsSplit(f, 13 + |r.stdin| + |PutList(r.command)| + |PutList(r.env)|, Be(|r.workDir|, 4), r.workDir);
  }

  lemma {:induction false} MemoryHolds(f: bytes, r: Request)
    requires Holds(f, 5, PutU64s([r.baseAddr, r.totalBytes, r.blockBytes, r.targetBytes]))
    ensures |PutU64s([r.baseAddr, r.totalBytes, r.blockBytes, r.targetBytes])| == 32
    ensures Holds(f, 5, Be(r.baseAddr, 8)) && Holds(f, 13, Be(r.totalBytes, 8))
    ensures Holds(f, 21, Be(r.blockBytes, 8)) && Holds(f, 29, Be(r.targetBytes, 8))
  {
    hide Be, Holds;
    var vs := [r.baseAddr, r.totalBytes, r.blockBytes, r.targetBytes];
    CounterHolds(f, 5, vs, 0);
    CounterHolds(f, 5, vs, 1);
    CounterHolds(f, 5, vs, 2);
    CounterHolds(f, 5, vs, 3);
  }

  lemma {:induction false} CounterHolds(f: bytes, off: nat, vs: seq<u64>, i: nat)
    requires i < |vs| && Holds(f, off, PutU64s(vs))
    ensures Holds(f, off + 8 * i, Be(vs[i], 8)) && |PutU64s(vs)| == 8 * |vs|
    decreases |vs|
  {
    hide Be, Holds;
    HoldsSplit(f, off, Be(vs[0], 8), PutU64s(vs[1..]));
    if |vs| > 1 {
      CounterHolds(f, off + 8, vs[1..], if i == 0 then 0 else i - 1);
    }
  }

  /** The body of a response frame, in the order of its fields. */
  lemma {:induction false} ResponseHolds(r: Response)
    requires Encode(Resp(r)).Some?
    ensures var f := Encode(Resp(r)).value;
            var e := 14 + |r.stdout|;
            var m := e + 4 + |r.stderr|;
            var c := m + 4 + |r.error|;
            && Holds(f, 5, [if r.ok then 1 else 0]) && Holds(f, 6, Be(r.exitCode % 0x1_0000_0000, 4))
            && Holds(f, 10, Be(|r.stdout|, 4)) && Holds(f, 14, r.stdout)
            && Holds(f, e, Be(|r.stderr|, 4)) && Holds(f, e + 4, r.stderr)
            && Holds(f, m, Be(|r.error|, 4)) && Holds(f, m + 4, r.error)
            && CountersAt(f, c, r.stats)
            && CountersAt(f, c + 1 + (if r.stats.Some? then 112 else 0), r.hotplug)
            && |f| == c + 2 + (if r.stats.Some? then 112 else 0) + (if r.hotplug.Some? then 40 else 0)
  {
    hide PutString, PutOption, Be, Holds, Low32, CountersAt;
    var f := Encode(Resp(r)).value;
    var body := ResponseBody(r);
    FrameParts(f, 0, body);
    OutputHolds(f, r);
    assert Low32(r.exitCode) == r.exitCode % 0x1_0000_0000 by {
      LowWord(r.exitCode);
    }
    var c := 22 + |r.stdout| + |r.stderr| + |r.error|;
    OptionHolds(f, c, r.stats);
    OptionHolds(f, c + |PutOption(r.stats)|, r.hotplug);
  }

  lemma LowWord(v: int)
    ensures Low32(v) == v % 0x1_0000_0000
  {
  }

  lemma OutputHolds(f: bytes, r: Response)
    requires Holds(f, 5, ResponseBody(r)) && |f| == 5 + |ResponseBody(r)|
    ensures var e := 14 + |r.stdout|;
            var m := e + 4 + |r.stderr|;
            var c := m + 4 + |r.error|;
            && Holds(f, 5, [if r.ok then 1 else 0]) && Holds(f, 6, Be(Low32(r.exitCode), 4))
            && Holds(f, 10, Be(|r.stdout|, 4)) && Holds(f, 14, r.stdout)
            && Holds(f, e, Be(|r.stderr|, 4)) && Holds(f, e + 4, r.stderr)
            && Holds(f, m, Be(|r.error|, 4)) && Holds(f, m + 4, r.error)
            && Holds(f, c, PutOption(r.stats)) && Holds(f, c + |PutOption(r.stats)|, PutOption(r.hotplug))
            && |f| == c + |PutOption(r.stats)| + |PutOption(r.hotplug)|
  {
    hide PutString, PutOption, Be, Holds, Low32;
    var o := PutOption(r.stats) + PutOption(r.hotplug);
    var m := PutString(r.error) + o;
    var e := PutString(r.stderr) + m;
    var s := PutString(r.stdout) + e;
    var n := 14 + |r.stdout|;
    HoldsSplit(f, 5, [if r.ok then 1 else 0], Be(Low32(r.exitCode), 4) + s);
    HoldsSplit(f, 6, Be(Low32(r.exitCode), 4), s);
    StringHolds(f, 10, r.stdout, e);
    StringHolds(f, n, r.stderr, m);
    StringHolds(f, n + 4 + |r.stderr|, r.error, o);
    HoldsSplit(f, n + 8 + |r.stderr| + |r.error|, PutOption(r.stats), PutOption(r.hotplug));
  }

  lemma {:induction false} StringHolds(f: bytes, off: nat, s: bytes, rest: bytes)
    requires Holds(f, off, PutString(s) + rest)
    ensures Holds(f, off, Be(|s|, 4)) && Holds(f, off + 4, s) && Holds(f, off + 4 + |s|, rest) && |PutString(s)| == 4 + |s|
  {
    hide Be, Holds;
    HoldsSplit(f, off, PutString(s), rest);
    HoldsSplit(f, off, Be(|s|, 4), s);
  }

  /** A presence byte, and behind a 1 the counters, eight bytes each. */
  ghost predicate CountersAt(f: bytes, off: nat, vs: Option<seq<u64>>) {
    && Holds(f, off, [if vs.Some? then 1 else 0])
    && (vs.Some? ==> forall i {:trigger vs.value[i]} :: 0 <= i < |vs.value| ==> Holds(f, off + 1 + 8 * i, Be(vs.value[i], 8)))
  }

  lemma {:induction false} OptionHolds(f: bytes, off: nat, vs: Option<seq<u64>>)
    requires Holds(f, off, PutOption(vs))
    ensures CountersAt(f, off, vs)
    ensures |PutOption(vs)| == 1 + if vs.Some? then 8 * |vs.value| else 0
  {
    hide Be, Holds;
    if vs.Some? {
      HoldsSplit(f, off, [1], PutU64s(vs.value));
      forall i | 0 <= i < |vs.value| ensures Holds(f, off + 1 + 8 * i, Be(vs.value[i], 8)) {
        CounterHolds(f, off + 1, vs.value, i);
      }
      U64sLength(vs.value);
    }
  }

  lemma {:induction false} U64sLength(vs: seq<u64>)
    ensures |PutU64s(vs)| == 8 * |vs|
  {
    if vs != [] {
      U64sLength(vs[1..]);
    }
  }
}
