/**
 * Ordering of strings by code point, element by element, with a proper prefix
 * before the longer string. This is the order Python's `<` on `str` uses, and the
 * order MongoDB's default (binary) collation gives to strings when it sorts.
 */
module Strings {

  function Sign(n: int): (r: int)
    ensures r == -1 <==> n < 0
    ensures r == 0 <==> n == 0
    ensures r == 1 <==> n > 0
  {
    if n < 0 then -1 else if n == 0 then 0 else 1
  }

  /** Three-way lexicographic comparison: negative, zero or positive as `a` sorts before, with or after `b`. */
  function Cmp(a: string, b: string): (r: int)
    ensures -1 <= r <= 1
    decreases |a|
  {
    if a == [] && b == [] then 0
    else if a == [] then -1
    else if b == [] then 1
    else if a[0] < b[0] then -1
    else if a[0] > b[0] then 1
    else Cmp(a[1..], b[1..])
  }

  predicate StrLe(a: string, b: string) {
    Cmp(a, b) <= 0
  }

  /** The comparison says "equal" exactly for equal strings. */
  lemma {:induction false} CmpZero(a: string, b: string)
    ensures Cmp(a, b) == 0 <==> a == b
    decreases |a|
  {
    if a != [] && b != [] && a[0] == b[0] {
      CmpZero(a[1..], b[1..]);
      assert a == [a[0]] + a[1..] && b == [b[0]] + b[1..];
    }
  }

  /** Swapping the arguments flips the answer. */
  lemma {:induction false} CmpFlip(a: string, b: string)
    ensures Cmp(b, a) == -Cmp(a, b)
    decreases |a|
  {
    if a != [] && b != [] && a[0] == b[0] {
      CmpFlip(a[1..], b[1..]);
    }
  }

  /** The order is transitive. */
  lemma {:induction false} CmpTrans(a: string, b: string, c: string)
    requires Cmp(a, b) <= 0 && Cmp(b, c) <= 0
    ensures Cmp(a, c) <= 0
    decreases |a|
  {
    if a != [] && b != [] && c != [] && a[0] == b[0] == c[0] {
      CmpTrans(a[1..], b[1..], c[1..]);
    }
  }

  /** Comparing two concatenations whose first parts have the same length: the
      first parts decide, unless they are equal, and then the second parts do. */
  lemma {:induction false} CmpAppend(a: string, b: string, c: string, e: string)
    requires |a| == |c|
    ensures Cmp(a + b, c + e) == if a == c then Cmp(b, e) else Cmp(a, c)
    decreases |a|
  {
    if a == [] {
      assert a + b == b && c + e == e;
    } else {
      assert (a + b)[0] == a[0] && (c + e)[0] == c[0];
      assert (a + b)[1..] == a[1..] + b && (c + e)[1..] == c[1..] + e;
      CmpAppend(a[1..], b, c[1..], e);
      if a[0] == c[0] {
        assert a == [a[0]] + a[1..] && c == [c[0]] + c[1..];
      }
    }
  }
}
