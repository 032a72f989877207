/** NUL-terminated byte strings inside a buffer. */
module NulStrings {
  import opened Bytes
  import opened Prelude

  /** The NUL-terminated string at pos. */
  function CString(b: bytes, pos: nat): (r: Option<bytes>)
    ensures r.Some? ==> pos + |r.value| < |b|
    decreases |b| - pos
  {
    if pos >= |b| then None
    else if b[pos] == 0 then Some([])
    else
      var rest := CString(b, pos + 1);
      if rest.None? then None else Some([b[pos]] + rest.value)
  }

  ghost predicate NulFree(s: bytes) {
    forall i :: 0 <= i < |s| ==> s[i] != 0
  }

  lemma {:induction false} CStringAt(b: bytes, pos: nat, s: bytes)
    requires Holds(b, pos, s + [0]) && NulFree(s)
    ensures CString(b, pos) == Some(s)
    decreases |s|
  {
    HoldsSplit(b, pos, s, [0]);
    if s == [] {
      assert b[pos..pos + 1] == [0] && b[pos] == b[pos..pos + 1][0];
    } else {
      assert s + [0] == [s[0]] + (s[1..] + [0]);
      HoldsSplit(b, pos, [s[0]], s[1..] + [0]);
      assert b[pos] == b[pos..pos + 1][0] == s[0];
      CStringAt(b, pos + 1, s[1..]);
      assert s == [s[0]] + s[1..];
    }
  }
}
