/** Concatenating what a function makes of each element of a sequence. */
module Flatten {

  function Flat<T, U>(f: T -> seq<U>, xs: seq<T>): seq<U> {
    if xs == [] then [] else f(xs[0]) + Flat(f, xs[1..])
  }

  lemma FlatCons<T, U>(f: T -> seq<U>, x: T, xs: seq<T>)
    ensures Flat(f, [x] + xs) == f(x) + Flat(f, xs)
  {
    assert ([x] + xs)[1..] == xs;
  }

  lemma {:induction false} FlatConcat<T, U>(f: T -> seq<U>, xs: seq<T>, ys: seq<T>)
    ensures Flat(f, xs + ys) == Flat(f, xs) + Flat(f, ys)
  {
    if xs == [] {
      assert xs + ys == ys;
    } else {
      FlatConcat(f, xs[1..], ys);
      assert xs + ys == [xs[0]] + (xs[1..] + ys);
      FlatCons(f, xs[0], xs[1..]);
      FlatCons(f, xs[0], xs[1..] + ys);
      assert xs == [xs[0]] + xs[1..];
    }
  }

  lemma FlatSnoc<T, U>(f: T -> seq<U>, xs: seq<T>, i: nat)
    requires i < |xs|
    ensures Flat(f, xs[..i + 1]) == Flat(f, xs[..i]) + f(xs[i])
  {
    FlatConcat(f, xs[..i], [xs[i]]);
    assert xs[..i + 1] == xs[..i] + [xs[i]];
    assert Flat(f, [xs[i]]) == f(xs[i]) + Flat(f, []);
  }

  lemma {:induction false} FlatLength<T(!new), U>(f: T -> seq<U>, n: nat, xs: seq<T>)
    requires forall x :: |f(x)| == n
    ensures |Flat(f, xs)| == n * |xs|
  {
    if xs != [] {
      var x := xs[0];
      assert |f(x)| == n;
      FlatLength(f, n, xs[1..]);
    }
  }
}
