/** What the loops share: regrouping concatenations, a prefix in front of a result, agreement of functions. */
module Sequences {
  import opened Wrappers

  lemma Reassociate<T>(a: seq<T>, b: seq<T>, c: seq<T>)
    ensures a + (b + c) == (a + b) + c
  {
  }

  function FlatMap<T, U>(f: T -> seq<U>, s: seq<T>): seq<U> {
    if s == [] then [] else f(s[0]) + FlatMap(f, s[1..])
  }

  lemma {:induction false} FlatMapConcat<T, U>(f: T -> seq<U>, a: seq<T>, b: seq<T>)
    ensures FlatMap(f, a + b) == FlatMap(f, a) + FlatMap(f, b)
  {
    if a == [] {
      assert a + b == b;
    } else {
      FlatMapConcat(f, a[1..], b);
      assert (a + b)[0] == a[0] && (a + b)[1..] == a[1..] + b;
      Reassociate(f(a[0]), FlatMap(f, a[1..]), FlatMap(f, b));
    }
  }

  /** `out` followed by what the rest of the loop yields, or its error. */
  function Prepend<T, E>(out: seq<T>, rest: Result<seq<T>, E>): Result<seq<T>, E> {
    if rest.Ok? then Ok(out + rest.value) else rest
  }

  lemma PrependNothing<T, E>(rest: Result<seq<T>, E>)
    ensures Prepend([], rest) == rest
  {
    assert rest.Ok? ==> [] + rest.value == rest.value;
  }

  lemma PrependTwice<T, E>(a: seq<T>, b: seq<T>, rest: Result<seq<T>, E>)
    ensures Prepend(a, Prepend(b, rest)) == Prepend(a + b, rest)
  {
    if rest.Ok? {
      Reassociate(a, b, rest.value);
    }
  }

  /** The two agree on the first `n` positions. */
  ghost predicate AgreeBelow<V>(f: nat -> V, g: nat -> V, n: nat) {
    n > 0 ==> f(n - 1) == g(n - 1) && AgreeBelow(f, g, n - 1)
  }

  lemma {:induction false} AgreesWithItself<V>(f: nat -> V, n: nat)
    ensures AgreeBelow(f, f, n)
  {
    if n > 0 {
      AgreesWithItself(f, n - 1);
    }
  }

  lemma {:induction false} AgreeAt<V>(f: nat -> V, g: nat -> V, n: nat, pos: nat)
    requires AgreeBelow(f, g, n) && pos < n
    ensures f(pos) == g(pos)
  {
    if pos < n - 1 {
      AgreeAt(f, g, n - 1, pos);
    }
  }
}
