/** The parser as it runs: a reader with a moving offset, filling a message field by field. */
module WireReader {
  import opened Prelude
  import opened Bytes
  import opened Wire

  /** Reads a frame body; the offset never passes its end, whatever the bytes. */
  class Reader {
    const b: bytes
    var off: nat

    ghost predicate Valid()
      reads this
    {
      off <= |b|
    }

    constructor (b: bytes)
      ensures Valid() && off == 0 && this.b == b
    {
      this.b := b;
      off := 0;
    }

    method U8() returns (r: Option<byte>)
      requires Valid()
      modifies this
      ensures Valid() && old(off) <= off
      ensures r.Some? <==> GetU8(b, old(off)).Some?
      ensures r.Some? ==> GetU8(b, old(off)) == Some((r.value, off))
    {
      if |b| - off < 1 {
        return None;
      }
      r := Some(b[off]);
      off := off + 1;
    }

    /** u16 and u32. */
    method Uint(n: nat) returns (r: Option<nat>)
      requires Valid()
      modifies this
      ensures Valid() && old(off) <= off
      ensures r.Some? <==> GetUint(b, old(off), n).Some?
      ensures r.Some? ==> GetUint(b, old(off), n) == Some((r.value, off))
    {
      if |b| - off < n {
        return None;
      }
      r := Some(BeVal(b[off..off + n]));
      off := off + n;
    }

    method U64() returns (r: Option<u64>)
      requires Valid()
      modifies this
      ensures Valid() && old(off) <= off
      ensures r.Some? <==> GetU64(b, old(off)).Some?
      ensures r.Some? ==> GetU64(b, old(off)) == Some((r.value, off))
    {
      if |b| - off < 8 {
        return None;
      }
      BeValBound(b[off..off + 8]);
      PowValues();
      r := Some(BeVal(b[off..off + 8]));
      off := off + 8;
    }

    /** A length-prefixed byte string; after a bad length the offset stands past the prefix. */
    method String() returns (r: Option<bytes>)
      requires Valid()
      modifies this
      ensures Valid() && old(off) <= off
      ensures r.Some? <==> GetString(b, old(off)).Some?
      ensures r.Some? ==> GetString(b, old(off)) == Some((r.value, off))
    {
      var n := Uint(4);
      if n.None? || |b| - off < n.value {
        return None;
      }
      r := Some(b[off..off + n.value]);
      off := off + n.value;
    }

    method Strings() returns (r: Option<seq<bytes>>)
      requires Valid()
      modifies this
      ensures Valid() && old(off) <= off
      ensures r.Some? <==> GetList(b, old(off)).Some?
      ensures r.Some? ==> GetList(b, old(off)) == Some((r.value, off))
    {
      hide GetString;
      var n := Uint(2);
      if n.None? {
        return None;
      }
      ghost var start := off;
      var out: seq<bytes> := [];
      ProgressStart(b, start, n.value);
      for i := 0 to n.value
        invariant Valid() && start <= off && |out| == i
        invariant Progress(b, start, n.value, out, off, i)
      {
        ghost var at := off;
        var s := String();
        if s.None? {
          ProgressFails(b, start, n.value, out, at, i);
          return None;
        }
        ProgressStep(b, start, n.value, out, at, i);
        out := out + [s.value];
      }
      ProgressEnd(b, start, n.value, out, off);
      return Some(out);
    }

    /** n counters in a row. */
    method U64s(n: nat) returns (r: Option<seq<u64>>)
      requires Valid()
      modifies this
      ensures Valid() && old(off) <= off
      ensures r.Some? <==> GetU64s(b, old(off), n).Some?
      ensures r.Some? ==> GetU64s(b, old(off), n) == Some((r.value, off))
      decreases n
    {
      if n == 0 {
        return Some([]);
      }
      var first := U64();
      if first.None? {
        return None;
      }
      var rest := U64s(n - 1);
      if rest.None? {
        return None;
      }
      return Some([first.value] + rest.value);
    }

    /** Counters behind a presence byte, or what the destination had. */
    method Counters(n: nat, was: Option<seq<u64>>) returns (r: Option<Option<seq<u64>>>)
      requires Valid() && (was.Some? ==> |was.value| == n)
      modifies this
      ensures Valid() && old(off) <= off
      ensures r.Some? <==> GetOption(b, old(off), n, was).Some?
      ensures r.Some? ==> GetOption(b, old(off), n, was) == Some((r.value, off))
      ensures r.Some? && r.value.Some? ==> |r.value.value| == n
    {
      hide GetU64s;
      var has := U8();
      if has.None? {
        return None;
      }
      if has.value == 0 {
        return Some(was);
      }
      CountOf(b, off, n);
      var vs := U64s(n);
      if vs.None? {
        return None;
      }
      return Some(Some(vs.value));
    }
  }

  /** i of n items have been read from start; the rest will complete the list. */
  ghost predicate Progress(b: bytes, start: nat, n: nat, out: seq<bytes>, off: nat, i: nat) {
    i <= n && (var rest := GetItems(b, off, n - i);
               GetItems(b, start, n) == if rest.None? then None else Some((out + rest.value.0, rest.value.1)))
  }

  lemma ProgressStart(b: bytes, start: nat, n: nat)
    ensures Progress(b, start, n, [], start, 0)
  {
    var all := GetItems(b, start, n);
    if all.Some? {
      assert [] + all.value.0 == all.value.0;
    }
  }

  lemma {:induction false} ProgressEnd(b: bytes, start: nat, n: nat, out: seq<bytes>, off: nat)
    requires Progress(b, start, n, out, off, n)
    ensures GetItems(b, start, n) == Some((out, off))
  {
    assert out + [] == out;
  }

  lemma {:induction false} ProgressFails(b: bytes, start: nat, n: nat, out: seq<bytes>, off: nat, i: nat)
    requires Progress(b, start, n, out, off, i) && i < n && GetString(b, off).None?
    ensures GetItems(b, start, n).None?
  {
  }

  lemma ProgressStep(b: bytes, start: nat, n: nat, out: seq<bytes>, off: nat, i: nat)
    requires Progress(b, start, n, out, off, i) && i < n && GetString(b, off).Some?
    ensures var s := GetString(b, off).value; Progress(b, start, n, out + [s.0], s.1, i + 1)
  {
    hide GetString;
    var s := GetString(b, off).value;
    var rest := GetItems(b, s.1, n - i - 1);
    if rest.Some? {
      ConcatAssoc(out, [s.0], rest.value.0);
    }
  }

  method ReadRequest(tag: byte, body: bytes) returns (r: Option<Request>)
    ensures r == ParseRequest(tag, body)
  {
    hide GetU64s, GetUint, GetList, GetString;
    var req := NO_REQUEST.(mode := ByteToMode(tag));
    var rd := new Reader(body);
    if tag == 1 || tag == 2 {
      r := ReadExec(req, rd);
    } else if tag == 4 || tag == 5 {
      var v := rd.U64s(4);
      if v.None? {
        return None;
      }
      CountOf(body, 0, 4);
      req := req.(baseAddr := v.value[0], totalBytes := v.value[1], blockBytes := v.value[2], targetBytes := v.value[3]);
      return Some(req);
    } else if tag == 6 {
      var cols := rd.Uint(2);
      if cols.None? {
        return None;
      }
      var rows := rd.Uint(2);
      if rows.None? {
        return None;
      }
      return Some(req.(columns := cols.value, rows := rows.value));
    } else {
      return Some(req);
    }
  }

  lemma {:induction false} CountOf(b: bytes, off: nat, n: nat)
    ensures GetU64s(b, off, n).Some? ==> |GetU64s(b, off, n).value.0| == n
  {
  }

  method ReadExec(base: Request, rd: Reader) returns (r: Option<Request>)
    requires rd.off == 0
    modifies rd
    ensures r == ParseExec(base, rd.b)
  {
    hide GetU64s, GetUint, GetList, GetString;
    var req := base;
    var cols := rd.Uint(2);
    if cols.None? {
      return None;
    }
    var rows := rd.Uint(2);
    if rows.None? {
      return None;
    }
    req := req.(columns := cols.value, rows := rows.value);
    var stdin := rd.String();
    if stdin.None? {
      return None;
    }
    req := req.(stdin := stdin.value);
    var cmd := rd.Strings();
    if cmd.None? {
      return None;
    }
    req := req.(command := cmd.value);
    var env := rd.Strings();
    if env.None? {
      return None;
    }
    req := req.(env := env.value);
    var dir := rd.String();
    if dir.None? {
      return None;
    }
    return Some(req.(workDir := dir.value));
  }

  /** The destination after the fields every response carries, as far as they could be read. */
  function HeadFilled(b: bytes, was: Response): Response {
    var ok := GetU8(b, 0);
    if ok.None? then was
    else
      var r1 := was.(ok := ok.value.0 != 0);
      var code := GetUint(b, ok.value.1, 4);
      if code.None? then r1
      else
        var r2 := r1.(exitCode := Signed32(code.value.0));
        var out := GetString(b, code.value.1);
        if out.None? then r2
        else
          var r3 := r2.(stdout := out.value.0);
          var err := GetString(b, out.value.1);
          if err.None? then r3
          else
            var r4 := r3.(stderr := err.value.0);
            var msg := GetString(b, err.value.1);
            if msg.None? then r4 else r4.(error := msg.value.0)
  }

  /** The destination after a body, read to its end or not. */
  function Filled(b: bytes, was: Response): (r: Response)
    ensures ParseResponse(b, was).Some? ==> r == ParseResponse(b, was).value
  {
    FilledHead(b, was);
    var head, r := GetHead(b), HeadFilled(b, was);
    if head.None? then r
    else
      var stats := GetOption(b, head.value.1, 14, was.stats);
      if stats.None? then r
      else
        var plug := GetOption(b, stats.value.1, 5, was.hotplug);
        r.(stats := stats.value.0, hotplug := if plug.None? then was.hotplug else plug.value.0)
  }

  lemma FilledHead(b: bytes, was: Response)
    ensures HeadFilled(b, was).stats == was.stats && HeadFilled(b, was).hotplug == was.hotplug
    ensures GetHead(b).Some? ==>
      var h, r := GetHead(b).value.0, HeadFilled(b, was);
      h == Head(r.ok, r.exitCode, r.stdout, r.stderr, r.error)
  {
    hide GetUint, GetString, GetU8;
  }

  /** A caller's response variable. */
  class ResponseBox {
    var value: Response

    constructor (r: Response)
      ensures value == r
    {
      value := r;
    }

    /** The fields every response carries, in wire order. */
    method FillHead(rd: Reader) returns (ok: bool)
      requires rd.off == 0
      modifies this, rd
      ensures rd.Valid() && value == HeadFilled(rd.b, old(value))
      ensures ok == GetHead(rd.b).Some?
      ensures ok ==> GetHead(rd.b) == Some((Head(value.ok, value.exitCode, value.stdout, value.stderr, value.error), rd.off))
    {
      hide GetUint, GetString, GetU8;
      var okByte := rd.U8();
      if okByte.None? {
        return false;
      }
      value := value.(ok := okByte.value != 0);
      var code := rd.Uint(4);
      if code.None? {
        return false;
      }
      value := value.(exitCode := Signed32(code.value));
      var out := rd.String();
      if out.None? {
        return false;
      }
      value := value.(stdout := out.value);
      var err := rd.String();
      if err.None? {
        return false;
      }
      value := value.(stderr := err.value);
      var msg := rd.String();
      if msg.None? {
        return false;
      }
      value := value.(error := msg.value);
      return true;
    }

    /** Fills the box field by field; what the frame lacks stays as it was. */
    method Fill(body: bytes) returns (ok: bool)
      modifies this
      ensures ok == ParseResponse(body, old(value)).Some?
      ensures value == Filled(body, old(value))
    {
      hide GetOption, GetHead, HeadFilled;
      FilledHead(body, value);
      var rd := new Reader(body);
      ok := FillHead(rd);
      if !ok {
        return;
      }
      var stats := rd.Counters(14, value.stats);
      if stats.None? {
        return false;
      }
      value := value.(stats := stats.value);
      var plug := rd.Counters(5, value.hotplug);
      if plug.None? {
        return false;
      }
      value := value.(hotplug := plug.value);
      return true;
    }
  }
}
