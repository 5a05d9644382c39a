/** Regrouping of concatenations, which the solver does not do by itself, and counting in a list. */
module Sequences {
  lemma Assoc<T>(a: seq<T>, b: seq<T>, c: seq<T>)
    ensures a + b + c == a + (b + c)
  {
  }

  lemma Regroup<T>(a: seq<T>, b: seq<T>, c: seq<T>, d: seq<T>)
    ensures a + (b + c) + d == a + b + (c + d)
  {
    Assoc(a, b, c);
    Assoc(a + b, c, d);
  }

  lemma Neutral<T>(a: seq<T>)
    ensures a + [] == a && [] + a == a
  {
  }

  /** How often x is in s. */
  function Times<T(==)>(s: seq<T>, x: T): nat {
    if s == [] then 0 else (if s[0] == x then 1 else 0) + Times(s[1..], x)
  }

  lemma TimesCons<T>(s: seq<T>, y: T, x: T)
    ensures Times([y] + s, x) == (if y == x then 1 else 0) + Times(s, x)
  {
    assert ([y] + s)[1..] == s;
  }

  lemma {:induction false} TimesSnoc<T>(s: seq<T>, y: T, x: T)
    ensures Times(s + [y], x) == Times(s, x) + if y == x then 1 else 0
  {
    if s == [] {
      assert s + [y] == [y];
    } else {
      TimesSnoc(s[1..], y, x);
      assert (s + [y])[1..] == s[1..] + [y];
    }
  }
}
