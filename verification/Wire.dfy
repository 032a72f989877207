/**
 * The guest exec wire format: length-prefixed frames holding requests and
 * responses, as written and as parsed.
 */
module Wire {
  import opened Prelude
  import opened Bytes

  type u64 = x: nat | x < POW64

  const MAX_FRAME := 64 * 1024 * 1024

  datatype Request = Request(
    mode: string, command: seq<bytes>, columns: int, rows: int, stdin: bytes, env: seq<bytes>, workDir: bytes,
    baseAddr: u64, totalBytes: u64, blockBytes: u64, targetBytes: u64)

  /** The fourteen counters of MemoryStats, in wire order. */
  type Stats = s: seq<u64> | |s| == 14 witness [0, 0, 0, 0, 0, 0, 0, 0, 0, 0, 0, 0, 0, 0]

  /** The five counters of MemoryHotplug, in wire order. */
  type Hotplug = s: seq<u64> | |s| == 5 witness [0, 0, 0, 0, 0]

  datatype Response = Response(
    ok: bool, error: bytes, stdout: bytes, stderr: bytes, exitCode: int, stats: Option<Stats>, hotplug: Option<Hotplug>)

  datatype Message = Req(req: Request) | Resp(resp: Response)

  // ---------- writing ----------

  const MODES: seq<string> := ["exec", "stream", "memory_stats", "memory_hotplug_get", "memory_hotplug_update", "resize"]

  function ModeToByte(mode: string): (b: Option<byte>)
    ensures b.Some? ==> 1 <= b.value <= 6 && MODES[b.value - 1] == mode
    ensures b.None? ==> mode !in MODES
  {
    if mode == "exec" then Some(1)
    else if mode == "stream" then Some(2)
    else if mode == "memory_stats" then Some(3)
    else if mode == "memory_hotplug_get" then Some(4)
    else if mode == "memory_hotplug_update" then Some(5)
    else if mode == "resize" then Some(6)
    else None
  }

  function ByteToMode(b: byte): string {
    if 1 <= b <= 6 then MODES[b - 1] else ""
  }

  function ClampU16(v: int): nat {
    if v < 0 then 0 else if v > 0xFFFF then 0xFFFF else v
  }

  function PutString(s: bytes): bytes {
    Be(|s|, 4) + s
  }

  function PutItems(items: seq<bytes>): bytes {
    if items == [] then [] else PutString(items[0]) + PutItems(items[1..])
  }

  /** The item count is cut to 16 bits; the items are all written. */
  function PutList(items: seq<bytes>): bytes {
    Be(|items|, 2) + PutItems(items)
  }

  function PutU64s(vs: seq<u64>): bytes {
    if vs == [] then [] else Be(vs[0], 8) + PutU64s(vs[1..])
  }

  function RequestBody(r: Request, mode: byte): bytes {
    if mode == 1 || mode == 2 then
      Be(ClampU16(r.columns), 2) + (Be(ClampU16(r.rows), 2) + (PutString(r.stdin) +
      (PutList(r.command) + (PutList(r.env) + PutString(r.workDir)))))
    else if mode == 4 || mode == 5 then PutU64s([r.baseAddr, r.totalBytes, r.blockBytes, r.targetBytes])
    else if mode == 6 then Be(ClampU16(r.columns), 2) + Be(ClampU16(r.rows), 2)
    else []
  }

  /** int32 conversion, as the 32-bit pattern. */
  function Low32(v: int): nat {
    v % POW32
  }

  function PutOption(vs: Option<seq<u64>>): bytes {
    if vs.None? then [0] else [1] + PutU64s(vs.value)
  }

  function ResponseBody(r: Response): bytes {
    [if r.ok then 1 else 0] + (Be(Low32(r.exitCode), 4) + (PutString(r.stdout) + (PutString(r.stderr) + (PutString(r.error) +
    (PutOption(r.stats) + PutOption(r.hotplug))))))
  }

  function Payload(m: Message): Option<bytes> {
    match m
    case Req(r) =>
      var mode := ModeToByte(r.mode);
      if mode.None? then None else Some([mode.value] + RequestBody(r, mode.value))
    case Resp(r) => Some([0] + ResponseBody(r))
  }

  /** The frame of a message; none for an unknown mode or a payload over the cap. */
  function Encode(m: Message): Option<bytes> {
    var p := Payload(m);
    if p.None? || |p.value| > MAX_FRAME then None else Some(Be(|p.value|, 4) + p.value)
  }

  // ---------- parsing ----------

  /** What a read gives: a value and the next offset, or an error. */
  type Read<+T> = Option<(T, nat)>

  function GetU8(b: bytes, off: nat): (r: Read<byte>)
    ensures r.Some? ==> off < r.value.1 <= |b|
  {
    if off + 1 > |b| then None else Some((b[off], off + 1))
  }

  /** A big-endian integer of n bytes. */
  function GetUint(b: bytes, off: nat, n: nat): (r: Read<nat>)
    ensures r.Some? ==> r.value.1 == off + n <= |b|
  {
    if off + n > |b| then None else Some((BeVal(b[off..off + n]), off + n))
  }

  function GetString(b: bytes, off: nat): (r: Read<bytes>)
    ensures r.Some? ==> off < r.value.1 <= |b|
  {
    var n := GetUint(b, off, 4);
    if n.None? || |b| - n.value.1 < n.value.0 then None
    else Some((b[n.value.1..n.value.1 + n.value.0], n.value.1 + n.value.0))
  }

  function GetItems(b: bytes, off: nat, n: nat): (r: Read<seq<bytes>>)
    ensures r.Some? ==> |r.value.0| == n && off <= r.value.1
    ensures r.Some? && off <= |b| ==> r.value.1 <= |b|
    decreases n
  {
    if n == 0 then Some(([], off))
    else
      var first := GetString(b, off);
      if first.None? then None
      else
        var rest := GetItems(b, first.value.1, n - 1);
        if rest.None? then None else Some(([first.value.0] + rest.value.0, rest.value.1))
  }

  function GetList(b: bytes, off: nat): (r: Read<seq<bytes>>)
    ensures r.Some? ==> off < r.value.1 <= |b|
  {
    var n := GetUint(b, off, 2);
    if n.None? then None else GetItems(b, n.value.1, n.value.0)
  }

  function GetU64(b: bytes, off: nat): (r: Read<u64>)
    ensures r.Some? ==> r.value.1 == off + 8 <= |b|
  {
    if off + 8 > |b| then None
    else
      BeValBound(b[off..off + 8]);
      PowValues();
      Some((BeVal(b[off..off + 8]), off + 8))
  }

  function GetU64s(b: bytes, off: nat, n: nat): (r: Read<seq<u64>>)
    ensures r.Some? ==> |r.value.0| == n && r.value.1 == off + 8 * n
    ensures r.Some? && off <= |b| ==> r.value.1 <= |b|
    decreases n
  {
    if n == 0 then Some(([], off))
    else
      var first := GetU64(b, off);
      if first.None? then None
      else
        var rest := GetU64s(b, first.value.1, n - 1);
        if rest.None? then None else Some(([first.value.0] + rest.value.0, rest.value.1))
  }

  const NO_REQUEST := Request("", [], 0, 0, [], [], [], 0, 0, 0, 0)

  function ParseRequest(tag: byte, b: bytes): Option<Request> {
    var base := NO_REQUEST.(mode := ByteToMode(tag));
    if tag == 1 || tag == 2 then ParseExec(base, b)
    else if tag == 4 || tag == 5 then
      var v := GetU64s(b, 0, 4);
      if v.None? then None
      else Some(base.(baseAddr := v.value.0[0], totalBytes := v.value.0[1], blockBytes := v.value.0[2], targetBytes := v.value.0[3]))
    else if tag == 6 then
      var cols := GetUint(b, 0, 2);
      if cols.None? then None
      else
        var rows := GetUint(b, cols.value.1, 2);
        if rows.None? then None else Some(base.(columns := cols.value.0, rows := rows.value.0))
    else Some(base)
  }

  function ParseExec(base: Request, b: bytes): Option<Request> {
    var cols := GetUint(b, 0, 2);
    if cols.None? then None
    else
      var rows := GetUint(b, cols.value.1, 2);
      if rows.None? then None
      else
        var stdin := GetString(b, rows.value.1);
        if stdin.None? then None
        else
          var cmd := GetList(b, stdin.value.1);
          if cmd.None? then None
          else
            var env := GetList(b, cmd.value.1);
            if env.None? then None
            else
              var dir := GetString(b, env.value.1);
              if dir.None? then None
              else Some(base.(columns := cols.value.0, rows := rows.value.0, stdin := stdin.value.0,
                              command := cmd.value.0, env := env.value.0, workDir := dir.value.0))
  }

  /** A 32-bit pattern as a signed number. */
  function Signed32(v: nat): int {
    if v < POW32 / 2 then v else v - POW32
  }

  /** Counters behind a presence byte; without them the destination keeps what it had. */
  function GetOption(b: bytes, off: nat, n: nat, was: Option<seq<u64>>): (r: Read<Option<seq<u64>>>)
    ensures r.Some? ==> off < r.value.1 <= |b|
    ensures r.Some? && r.value.0 != was ==> r.value.0.Some? && |r.value.0.value| == n
  {
    var has := GetU8(b, off);
    if has.None? then None
    else if has.value.0 == 0 then Some((was, has.value.1))
    else
      var vs := GetU64s(b, has.value.1, n);
      if vs.None? then None else Some((Some(vs.value.0), vs.value.1))
  }

  /** The fields every response carries. */
  datatype Head = Head(ok: bool, exitCode: int, stdout: bytes, stderr: bytes, error: bytes)

  function GetHead(b: bytes): Read<Head> {
    var ok := GetU8(b, 0);
    if ok.None? then None
    else
      var code := GetUint(b, ok.value.1, 4);
      if code.None? then None
      else
        var out := GetString(b, code.value.1);
        if out.None? then None
        else
          var err := GetString(b, out.value.1);
          if err.None? then None
          else
            var msg := GetString(b, err.value.1);
            if msg.None? then None
            else Some((Head(ok.value.0 != 0, Signed32(code.value.0), out.value.0, err.value.0, msg.value.0), msg.value.1))
  }

  /** Parses into dest, which is not cleared first. */
  function ParseResponse(b: bytes, dest: Response): Option<Response> {
    var head := GetHead(b);
    if head.None? then None
    else
      var h := head.value.0;
      var stats := GetOption(b, head.value.1, 14, dest.stats);
      if stats.None? then None
      else
        var plug := GetOption(b, stats.value.1, 5, dest.hotplug);
        if plug.None? then None
        else Some(Response(h.ok, h.error, h.stdout, h.stderr, h.exitCode, stats.value.0, plug.value.0))
  }

  /** The destination the caller passes decides which kind of message is acceptable. */
  datatype Dest = IntoRequest | IntoResponse(was: Response)

  /** One frame off the front of a stream: the message and what follows it. */
  function Decode(s: bytes, dest: Dest): Option<(Message, bytes)> {
    var len := GetUint(s, 0, 4);
    if len.None? || len.value.0 == 0 || len.value.0 > MAX_FRAME || 4 + len.value.0 > |s| then None
    else
      var n := len.value.0;
      var tag, body, rest := s[4], s[5..4 + n], s[4 + n..];
      if tag == 0 then
        if dest.IntoRequest? then None
        else
          var r := ParseResponse(body, dest.was);
          if r.None? then None else Some((Resp(r.value), rest))
      else if 1 <= tag <= 6 then
        if dest.IntoResponse? then None
        else
          var r := ParseRequest(tag, body);
          if r.None? then None else Some((Req(r.value), rest))
      else None
  }
}
