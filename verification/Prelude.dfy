/** Small definitions several modules share. */
module Prelude {

  datatype Option<+T> = None | Some(value: T)

  function Pow2(n: nat): (r: nat)
    ensures r > 0
  {
    if n == 0 then 1 else 2 * Pow2(n - 1)
  }

  /** Decimal rendering of an index, as strconv.Itoa gives it. */
  function Itoa(n: nat): (s: string)
    ensures s != []
    ensures forall i :: 0 <= i < |s| ==> '0' <= s[i] <= '9'
  {
    if n < 10 then [Digit(n)] else Itoa(n / 10) + [Digit(n % 10)]
  }

  function Digit(n: nat): (c: char)
    requires n < 10
    ensures '0' <= c <= '9'
  {
    ['0', '1', '2', '3', '4', '5', '6', '7', '8', '9'][n]
  }

  /** The value of a decimal digit, and of a string of them. */
  function DigitOf(c: char): nat {
    if '0' <= c <= '9' then c as int - '0' as int else 0
  }

  function Decimal(s: string): nat {
    if s == [] then 0 else 10 * Decimal(s[..|s| - 1]) + DigitOf(s[|s| - 1])
  }

  /** A rendered number reads as that number, with no leading zero. */
  lemma {:induction false} ItoaBack(n: nat)
    ensures Decimal(Itoa(n)) == n && (n > 0 ==> Itoa(n)[0] != '0') && (n < 10 ==> |Itoa(n)| == 1)
    decreases n
  {
    DigitBack(n % 10);
    if n < 10 {
      assert Itoa(n)[..0] == [];
    } else {
      ItoaBack(n / 10);
      assert Itoa(n)[..|Itoa(n)| - 1] == Itoa(n / 10);
    }
  }

  lemma DigitBack(n: nat)
    requires n < 10
    ensures DigitOf(Digit(n)) == n && (n > 0 ==> Digit(n) != '0')
  {
  }

  lemma {:induction false} ItoaDiffers(a: nat, b: nat)
    requires a != b
    ensures Itoa(a) != Itoa(b)
  {
    ItoaBack(a);
    ItoaBack(b);
  }

  /** A set of numbers below n has at most n elements. */
  lemma {:induction false} BoundedSetSize(s: set<nat>, n: nat)
    requires forall x :: x in s ==> x < n
    ensures |s| <= n
  {
    if n > 0 {
      BoundedSetSize(s - {n - 1}, n - 1);
      if n - 1 in s {
        assert s == (s - {n - 1}) + {n - 1};
      } else {
        assert s == s - {n - 1};
      }
    } else {
      assert s == {};
    }
  }

  lemma ConcatAssoc<T>(a: seq<T>, b: seq<T>, c: seq<T>)
    ensures a + (b + c) == a + b + c
  {
  }
}
