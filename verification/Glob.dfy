/** Transfer patterns: a double star takes any run of path segments. */
module Glob {
  import opened Prelude

  const STARS: string := "**"

  /** path.Match on one segment: whether it matches, or None for a malformed pattern. */
  type Matcher = (string, string) -> Option<bool>

  /** The segments of a path, dealt out in order to the segments of a pattern. */
  ghost predicate Deals(m: Matcher, pat: seq<string>, rel: seq<string>, parts: seq<seq<string>>) {
    |parts| == |pat| && Flat(parts) == rel
    && forall i :: 0 <= i < |pat| ==> Takes(m, pat[i], parts[i])
  }

  /** A double star takes any run; any other segment takes exactly one it matches. */
  ghost predicate Takes(m: Matcher, p: string, part: seq<string>) {
    p == STARS || (|part| == 1 && m(p, part[0]) == Some(true))
  }

  function Flat(parts: seq<seq<string>>): seq<string> {
    if parts == [] then [] else parts[0] + Flat(parts[1..])
  }

  ghost predicate Fits(m: Matcher, pat: seq<string>, rel: seq<string>) {
    exists parts :: Deals(m, pat, rel, parts)
  }

  /** Some segment of the pattern is malformed for some path segment. */
  ghost predicate Malformed(m: Matcher, pat: seq<string>) {
    exists i, s :: 0 <= i < |pat| && pat[i] != STARS && m(pat[i], s) == None
  }

  lemma FitsHead(m: Matcher, pat: seq<string>, rel: seq<string>, k: nat)
    requires pat != [] && k <= |rel| && Takes(m, pat[0], rel[..k]) && Fits(m, pat[1..], rel[k..])
    ensures Fits(m, pat, rel)
  {
    var parts :| Deals(m, pat[1..], rel[k..], parts);
    var all := [rel[..k]] + parts;
    assert all[1..] == parts && Flat(all) == rel[..k] + rel[k..] == rel;
    assert Deals(m, pat, rel, all);
  }

  lemma FitsTail(m: Matcher, pat: seq<string>, rel: seq<string>) returns (k: nat)
    requires pat != [] && Fits(m, pat, rel)
    ensures k <= |rel| && Takes(m, pat[0], rel[..k]) && Fits(m, pat[1..], rel[k..])
  {
    var parts :| Deals(m, pat, rel, parts);
    k := |parts[0]|;
    assert rel == parts[0] + Flat(parts[1..]);
    assert rel[..k] == parts[0] && rel[k..] == Flat(parts[1..]);
    assert Deals(m, pat[1..], rel[k..], parts[1..]);
  }

  lemma FitsEmpty(m: Matcher, rel: seq<string>)
    ensures Fits(m, [], rel) <==> rel == []
  {
    assert Deals(m, [], [], []);
  }

  lemma FitsStars(m: Matcher, rel: seq<string>)
    ensures Fits(m, [STARS], rel)
  {
    FitsEmpty(m, []);
    assert rel[..|rel|] == rel && rel[|rel|..] == [] && [STARS][1..] == [];
    FitsHead(m, [STARS], rel, |rel|);
  }

  lemma MalformedTail(m: Matcher, pat: seq<string>)
    requires pat != [] && Malformed(m, pat[1..])
    ensures Malformed(m, pat)
  {
    var i, s :| 0 <= i < |pat[1..]| && pat[1..][i] != STARS && m(pat[1..][i], s) == None;
    assert pat[i + 1] == pat[1..][i];
  }

  /**
   * The answer, when there is one, says exactly whether the path can be dealt out to the pattern;
   * there is none only if some segment of the pattern is malformed.
   */
  method MatchSegments(m: Matcher, pat: seq<string>, rel: seq<string>) returns (r: Option<bool>)
    ensures r.Some? ==> (r.value <==> Fits(m, pat, rel))
    ensures r.None? ==> Malformed(m, pat)
    decreases |pat|
  {
    hide Fits, Malformed;
    if pat == [] {
      FitsEmpty(m, rel);
      return Some(rel == []);
    }
    if pat[0] == STARS {
      if |pat| == 1 {
        FitsStars(m, rel);
        assert pat == [STARS];
        return Some(true);
      }
      for k := 0 to |rel| + 1
        invariant forall j :: 0 <= j < k ==> !Fits(m, pat[1..], rel[j..])
      {
        r := MatchSegments(m, pat[1..], rel[k..]);
        if r.None? {
          MalformedTail(m, pat);
          return;
        }
        if r.value {
          FitsHead(m, pat, rel, k);
          return;
        }
      }
      if Fits(m, pat, rel) {
        var k := FitsTail(m, pat, rel);
      }
      return Some(false);
    }
    if rel == [] {
      NeedsOne(m, pat, rel);
      return Some(false);
    }
    r := m(pat[0], rel[0]);
    OneStep(m, pat, rel);
    if r.None? {
      return;
    }
    if !r.value {
      return;
    }
    r := MatchSegments(m, pat[1..], rel[1..]);
    if r.None? {
      MalformedTail(m, pat);
    }
  }

  lemma NeedsOne(m: Matcher, pat: seq<string>, rel: seq<string>)
    requires pat != [] && pat[0] != STARS
    ensures Fits(m, pat, rel) ==> rel != [] && m(pat[0], rel[0]) == Some(true) && Fits(m, pat[1..], rel[1..])
  {
    if Fits(m, pat, rel) {
      var k := FitsTail(m, pat, rel);
    }
  }

  /** An ordinary pattern segment settles exactly one path segment. */
  lemma OneStep(m: Matcher, pat: seq<string>, rel: seq<string>)
    requires pat != [] && pat[0] != STARS && rel != []
    ensures Fits(m, pat, rel) <==> m(pat[0], rel[0]) == Some(true) && Fits(m, pat[1..], rel[1..])
    ensures m(pat[0], rel[0]) == None ==> Malformed(m, pat)
  {
    NeedsOne(m, pat, rel);
    if m(pat[0], rel[0]) == Some(true) && Fits(m, pat[1..], rel[1..]) {
      assert rel[..1] == [rel[0]];
      FitsHead(m, pat, rel, 1);
    }
  }
}
