// Runs of a state machine over a sequence of inputs.

module Folding {

  /** The state after the first n inputs. */
  ghost function FoldTo<S, T>(f: (S, T) -> S, init: S, s: seq<T>, n: nat): S
    requires n <= |s|
  {
    if n == 0 then init else f(FoldTo(f, init, s, n - 1), s[n - 1])
  }

  ghost function Fold<S, T>(f: (S, T) -> S, init: S, s: seq<T>): S {
    FoldTo(f, init, s, |s|)
  }

  lemma {:induction false} FoldToPrefix<S, T>(f: (S, T) -> S, init: S, a: seq<T>, b: seq<T>, n: nat)
    requires n <= |a|
    ensures FoldTo(f, init, a + b, n) == FoldTo(f, init, a, n)
  {
    if n > 0 {
      FoldToPrefix(f, init, a, b, n - 1);
    }
  }

  lemma {:induction false} FoldToConcat<S, T>(f: (S, T) -> S, init: S, a: seq<T>, b: seq<T>, n: nat)
    requires n <= |b|
    ensures FoldTo(f, init, a + b, |a| + n) == FoldTo(f, Fold(f, init, a), b, n)
  {
    if n == 0 {
      FoldToPrefix(f, init, a, b, |a|);
    } else {
      FoldToConcat(f, init, a, b, n - 1);
      assert (a + b)[|a| + n - 1] == b[n - 1];
    }
  }

  /** Running over two pieces in turn is running over the whole. */
  lemma FoldConcat<S, T>(f: (S, T) -> S, init: S, a: seq<T>, b: seq<T>)
    ensures Fold(f, init, a + b) == Fold(f, Fold(f, init, a), b)
  {
    FoldToConcat(f, init, a, b, |b|);
  }

  lemma FoldSnoc<S, T>(f: (S, T) -> S, init: S, a: seq<T>, x: T)
    ensures Fold(f, init, a + [x]) == f(Fold(f, init, a), x)
  {
    FoldToPrefix(f, init, a, [x], |a|);
  }

  lemma FoldOne<S, T>(f: (S, T) -> S, init: S, x: T)
    ensures Fold(f, init, [x]) == f(init, x)
  {
    assert FoldTo(f, init, [x], 0) == init;
  }

  /** An input that changes nothing never changes anything. */
  lemma {:induction false} FoldToStays<S, T(!new)>(f: (S, T) -> S, x: S, s: seq<T>, n: nat)
    requires n <= |s|
    requires forall c :: f(x, c) == x
    ensures FoldTo(f, x, s, n) == x
  {
    if n > 0 {
      FoldToStays(f, x, s, n - 1);
    }
  }

  /** A property that every step keeps holds after every run. */
  lemma {:induction false} FoldToKeeps<S(!new), T(!new)>(f: (S, T) -> S, keeps: S -> bool, init: S, s: seq<T>, n: nat)
    requires n <= |s| && keeps(init)
    requires forall x, c :: keeps(x) ==> keeps(f(x, c))
    ensures keeps(FoldTo(f, init, s, n))
  {
    if n > 0 {
      FoldToKeeps(f, keeps, init, s, n - 1);
    }
  }

  /** A map from the states of one machine to those of another that every step respects
      is respected by every run. */
  lemma {:induction false} FoldToMap<S(!new), R, T(!new)>(
    f: (S, T) -> S, g: (R, T) -> R, h: S -> R, init: S, s: seq<T>, n: nat)
    requires n <= |s|
    requires forall x, c :: g(h(x), c) == h(f(x, c))
    ensures FoldTo(g, h(init), s, n) == h(FoldTo(f, init, s, n))
  {
    if n > 0 {
      FoldToMap(f, g, h, init, s, n - 1);
    }
  }

  /** A run along which every state is known. */
  lemma {:induction false} FoldToIs<S, T>(f: (S, T) -> S, g: nat -> S, s: seq<T>, n: nat)
    requires n <= |s|
    requires forall k: nat :: k < n ==> f(g(k), s[k]) == g(k + 1)
    ensures FoldTo(f, g(0), s, n) == g(n)
  {
    if n > 0 {
      FoldToIs(f, g, s, n - 1);
      assert f(g(n - 1), s[n - 1]) == g(n);
    }
  }
}
