/** Service names: their order, and sorted lists of them. */
module Names {

  datatype Name = Name(text: string)

  /** The byte-wise lexicographic order sort.Strings uses. */
  predicate Lex(a: string, b: string) {
    b != [] && (a == [] || a[0] < b[0] || (a[0] == b[0] && Lex(a[1..], b[1..])))
  }

  predicate Before(a: Name, b: Name) {
    Lex(a.text, b.text)
  }

  lemma {:induction false} LexTotal(a: string, b: string)
    requires a != b
    ensures Lex(a, b) != Lex(b, a)
  {
    if a != [] && b != [] && a[0] == b[0] {
      assert a == [a[0]] + a[1..] && b == [b[0]] + b[1..];
      LexTotal(a[1..], b[1..]);
    }
  }

  lemma {:induction false} LexTransitive(a: string, b: string, c: string)
    requires Lex(a, b) && Lex(b, c)
    ensures Lex(a, c) && a != c
  {
    if a != [] && a[0] == b[0] == c[0] {
      LexTransitive(a[1..], b[1..], c[1..]);
    }
  }

  lemma BeforeTotal(a: Name, b: Name)
    requires a != b
    ensures Before(a, b) != Before(b, a)
  {
    LexTotal(a.text, b.text);
  }

  lemma BeforeTransitive(a: Name, b: Name, c: Name)
    requires Before(a, b) && Before(b, c)
    ensures Before(a, c) && a != c
  {
    LexTransitive(a.text, b.text, c.text);
  }

  predicate NoDup<T(==)>(s: seq<T>) {
    forall i, j :: 0 <= i < j < |s| ==> s[i] != s[j]
  }

  function Elems<T>(s: seq<T>): set<T> {
    set x | x in s
  }

  lemma {:induction false} ElemsSize<T>(s: seq<T>)
    requires NoDup(s)
    ensures |Elems(s)| == |s|
  {
    if s != [] {
      var k := |s| - 1;
      ElemsSize(s[..k]);
      ElemsStep(s, k);
      assert s[..k + 1] == s;
      hide Elems, NoDup;
    }
  }

  lemma ElemsAppend<T>(s: seq<T>, x: T)
    ensures Elems(s + [x]) == Elems(s) + {x}
  {
  }

  lemma ElemsStep<T>(s: seq<T>, k: nat)
    requires NoDup(s) && k < |s|
    ensures s[k] in Elems(s) && s[k] !in Elems(s[..k]) && s[..k + 1] == s[..k] + [s[k]]
    ensures Elems(s[..k + 1]) == Elems(s[..k]) + {s[k]}
  {
    ElemsAppend(s[..k], s[k]);
    assert s[..k + 1] == s[..k] + [s[k]];
  }

  lemma ElemsEnds<T>(s: seq<T>)
    ensures Elems(s[..0]) == {} && s[..|s|] == s
  {
  }

  lemma ElemsNonEmpty<T>(s: seq<T>)
    ensures s != [] ==> Elems(s) != {}
  {
    if s != [] {
      assert s[0] in Elems(s);
    }
  }

  lemma AppendNoDup<T>(s: seq<T>, x: T)
    requires NoDup(s) && x !in Elems(s)
    ensures NoDup(s + [x])
  {
    assert forall i :: 0 <= i < |s| ==> s[i] in Elems(s);
  }

  lemma {:induction false} SubsetSize<T>(a: set<T>, b: set<T>)
    requires a <= b
    ensures |a| <= |b|
    ensures |a| == |b| ==> a == b
    decreases a
  {
    if a != {} {
      var x :| x in a;
      SubsetSize(a - {x}, b - {x});
      assert a == (a - {x}) + {x} && b == (b - {x}) + {x};
    } else if |b| == 0 {
      assert b == {};
    }
  }

  lemma SmallerMisses<T>(a: set<T>, b: set<T>)
    requires |a| < |b|
    ensures b - a != {}
  {
    if b <= a {
      SubsetSize(b, a);
    } else {
      var x :| x in b && x !in a;
      assert x in b - a;
    }
  }

  predicate Ascending(s: seq<Name>) {
    forall i, j :: 0 <= i < j < |s| ==> Before(s[i], s[j])
  }

  /** A set has only one ascending listing. */
  lemma {:induction false} AscendingUnique(s: seq<Name>, t: seq<Name>)
    requires Ascending(s) && Ascending(t) && Elems(s) == Elems(t)
    ensures s == t
  {
    if s == [] {
      ElemsNonEmpty(t);
    } else {
      FirstIsLeast(s, t);
      TailElems(s);
      TailElems(t);
      AscendingUnique(s[1..], t[1..]);
      assert s == [s[0]] + s[1..] && t == [t[0]] + t[1..];
    }
  }

  lemma FirstIsLeast(s: seq<Name>, t: seq<Name>)
    requires Ascending(s) && Ascending(t) && Elems(s) == Elems(t) && s != []
    ensures t != [] && s[0] == t[0]
  {
    assert s[0] in Elems(t);
    var i :| 0 <= i < |t| && t[i] == s[0];
    assert t[0] in Elems(s);
    var j :| 0 <= j < |s| && s[j] == t[0];
    if s[0] != t[0] {
      BeforeTotal(s[0], t[0]);
      assert false;
    }
  }

  lemma TailElems(s: seq<Name>)
    requires Ascending(s) && s != []
    ensures Elems(s[1..]) == Elems(s) - {s[0]} && Ascending(s[1..])
  {
    forall i | 0 < i < |s| ensures s[i] != s[0] {
      BeforeTransitiveSelf(s[0], s[i]);
    }
  }

  lemma BeforeTransitiveSelf(a: Name, b: Name)
    requires Before(a, b)
    ensures a != b
  {
    if a == b {
      BeforeTransitive(a, b, a);
    }
  }

  lemma AscendingNoDup(s: seq<Name>)
    requires Ascending(s)
    ensures NoDup(s)
  {
    forall i, j | 0 <= i < j < |s| ensures s[i] != s[j] {
      BeforeTransitiveSelf(s[i], s[j]);
    }
  }

  /** x put in its place in an ascending list. */
  function Insert(x: Name, s: seq<Name>): seq<Name> {
    if s == [] then [x] else if Before(x, s[0]) then [x] + s else [s[0]] + Insert(x, s[1..])
  }

  lemma {:induction false} InsertElems(x: Name, s: seq<Name>)
    ensures Elems(Insert(x, s)) == Elems(s) + {x}
  {
    if s != [] {
      InsertElems(x, s[1..]);
      assert s == [s[0]] + s[1..];
      assert Elems(s) == {s[0]} + Elems(s[1..]);
      assert Elems([s[0]] + Insert(x, s[1..])) == {s[0]} + Elems(Insert(x, s[1..]));
    }
  }

  lemma {:induction false} InsertAscending(x: Name, s: seq<Name>)
    requires Ascending(s) && x !in s
    ensures Ascending(Insert(x, s))
  {
    if s != [] {
      if Before(x, s[0]) {
        forall i | 0 < i < |s| ensures Before(x, s[i]) {
          BeforeTransitive(x, s[0], s[i]);
        }
      } else {
        BeforeTotal(x, s[0]);
        InsertAscending(x, s[1..]);
        InsertElems(x, s[1..]);
        var r := Insert(x, s[1..]);
        forall i | 0 <= i < |r| ensures Before(s[0], r[i]) {
          assert r[i] in Elems(r);
        }
      }
    }
  }

  /** The ascending listing of a set. */
  ghost function Sorted(s: set<Name>): (r: seq<Name>)
    ensures Ascending(r) && Elems(r) == s
  {
    if s == {} then
      []
    else
      var x :| x in s;
      var rest := Sorted(s - {x});
      assert x !in Elems(rest);
      InsertAscending(x, rest);
      InsertElems(x, rest);
      Insert(x, rest)
  }

  lemma {:induction false} SortedIs(s: set<Name>, r: seq<Name>)
    requires Ascending(r) && Elems(r) == s
    ensures r == Sorted(s)
  {
    AscendingUnique(r, Sorted(s));
  }

  /** Sorting distinct names gives the ascending listing, whatever order they came in. */
  method SortStrings(names: seq<Name>) returns (r: seq<Name>)
    requires NoDup(names)
    ensures r == Sorted(Elems(names))
  {
    r := [];
    for i := 0 to |names|
      invariant Ascending(r) && Elems(r) == Elems(names[..i])
    {
      assert names[i] !in Elems(names[..i]);
      assert names[i] !in Elems(r);
      InsertAscending(names[i], r);
      InsertElems(names[i], r);
      r := Insert(names[i], r);
      assert names[..i + 1] == names[..i] + [names[i]];
    }
    assert names[..|names|] == names;
    SortedIs(Elems(names), r);
  }

  /** The members of a set, listed in no particular order. */
  method Listing(s: set<Name>) returns (r: seq<Name>)
    ensures NoDup(r) && Elems(r) == s
  {
    r := [];
    var rest := s;
    while rest != {}
      invariant NoDup(r) && Elems(r) == s - rest && rest <= s
      decreases |rest|
    {
      hide Elems, NoDup;
      var x :| x in rest;
      AppendNoDup(r, x);
      ElemsAppend(r, x);
      r := r + [x];
      rest := rest - {x};
    }
  }
}
