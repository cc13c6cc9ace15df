/** Shift registers in the abstract: a state that is updated once per input item.

    The lemmas here hold for every step function, so the facts about particular bit operations
    stay in one-step lemmas of their own. */
module Folds {

  /** The state after feeding all of `xs`, first item first. */
  function Fold<S, B>(f: (S, B) -> S, s: S, xs: seq<B>): S {
    if |xs| == 0 then s else f(Fold(f, s, xs[..|xs| - 1]), xs[|xs| - 1])
  }

  /** What each step emits. */
  function Outputs<S, B, C>(f: (S, B) -> S, o: (S, B) -> C, s: S, xs: seq<B>): (r: seq<C>)
    ensures |r| == |xs|
  {
    if |xs| == 0 then []
    else
      var n := |xs| - 1;
      Outputs(f, o, s, xs[..n]) + [o(Fold(f, s, xs[..n]), xs[n])]
  }

  /** `k` applications of `h`. */
  function Iterate<S>(h: S -> S, s: S, k: nat): S {
    if k == 0 then s else h(Iterate(h, s, k - 1))
  }

  /** What `o` shows of the first `k` iterates. */
  function Samples<S, B>(h: S -> S, o: S -> B, s: S, k: nat): (r: seq<B>)
    ensures |r| == k
  {
    if k == 0 then [] else Samples(h, o, s, k - 1) + [o(Iterate(h, s, k - 1))]
  }

  ghost predicate Injective<S(!new), B(!new)>(f: (S, B) -> S) {
    forall c, e, d :: f(c, d) == f(e, d) ==> c == e
  }

  ghost predicate Respects<S(!new)>(h: S -> S, op: (S, S) -> S) {
    forall s, t :: h(op(s, t)) == op(h(s), h(t))
  }

  ghost predicate Conjoins<S(!new)>(o: S -> bool, op: (S, S) -> S) {
    forall s, t :: o(op(s, t)) == (o(s) && o(t))
  }

  lemma {:induction false} FoldAppend<S, B>(f: (S, B) -> S, s: S, x: seq<B>, y: seq<B>)
    ensures Fold(f, s, x + y) == Fold(f, Fold(f, s, x), y)
  {
    if |y| == 0 {
      assert x + y == x;
    } else {
      var y' := y[..|y| - 1];
      FoldAppend(f, s, x, y');
      assert (x + y)[..|x + y| - 1] == x + y';
    }
  }

  /** Feeding the same items keeps different states apart. */
  lemma {:induction false} FoldInjective<S(!new), B(!new)>(f: (S, B) -> S, c: S, e: S, x: seq<B>)
    requires Injective(f)
    requires Fold(f, c, x) == Fold(f, e, x)
    ensures c == e
  {
    if |x| > 0 {
      FoldInjective(f, c, e, x[..|x| - 1]);
    }
  }

  /** Two machines whose steps correspond under `h` stay in correspondence. */
  lemma {:induction false} FoldHomomorphism<S(!new), T(!new), B(!new)>(
    f: (S, B) -> S, g: (T, B) -> T, h: S -> T, s: S, x: seq<B>)
    requires forall c, d :: h(f(c, d)) == g(h(c), d)
    ensures h(Fold(f, s, x)) == Fold(g, h(s), x)
  {
    if |x| > 0 {
      FoldHomomorphism(f, g, h, s, x[..|x| - 1]);
    }
  }

  /** Where a step undoes into equal outputs and a weaker agreement, up to `m` outputs can be read
      back from the final states. */
  lemma {:induction false} OutputsDetermined<S(!new), B(!new), C(!new)>(
    f: (S, B) -> S, o: (S, B) -> C, agree: (S, S, nat) -> bool, m: nat,
    c: S, e: S, x: seq<B>, y: seq<B>, j: nat)
    requires forall s, t, a, b, i: nat ::
               i < m && agree(f(s, a), f(t, b), i) ==> o(s, a) == o(t, b) && agree(s, t, i + 1)
    requires |x| == |y| && |x| + j <= m
    requires agree(Fold(f, c, x), Fold(f, e, y), j)
    ensures Outputs(f, o, c, x) == Outputs(f, o, e, y)
  {
    if |x| > 0 {
      var n := |x| - 1;
      OutputsDetermined(f, o, agree, m, c, e, x[..n], y[..n], j + 1);
    }
  }

  /** If a state and an output determine the input, the outputs of a run determine its inputs. */
  lemma {:induction false} InputsDetermined<S(!new), B(!new), C(!new)>(
    f: (S, B) -> S, o: (S, B) -> C, s: S, x: seq<B>, y: seq<B>)
    requires forall t, a, b :: o(t, a) == o(t, b) ==> a == b
    requires |x| == |y| && Outputs(f, o, s, x) == Outputs(f, o, s, y)
    ensures x == y
  {
    if |x| > 0 {
      var n := |x| - 1;
      var ox, oy := Outputs(f, o, s, x), Outputs(f, o, s, y);
      assert ox[..n] == Outputs(f, o, s, x[..n]) && oy[..n] == Outputs(f, o, s, y[..n]);
      InputsDetermined(f, o, s, x[..n], y[..n]);
      assert ox[n] == oy[n];
      assert x == x[..n] + [x[n]] && y == y[..n] + [y[n]];
    }
  }

  lemma {:induction false} IterateAdd<S>(h: S -> S, s: S, j: nat, k: nat)
    ensures Iterate(h, s, j + k) == Iterate(h, Iterate(h, s, j), k)
  {
    if k > 0 {
      IterateAdd(h, s, j, k - 1);
    }
  }

  lemma {:induction false} IterateAgree<S(!new)>(h: S -> S, s: S, t: S, j: nat, k: nat)
    requires j <= k && Iterate(h, s, j) == Iterate(h, t, j)
    ensures Iterate(h, s, k) == Iterate(h, t, k)
    decreases k - j
  {
    if j < k {
      IterateAgree(h, s, t, j + 1, k);
    }
  }

  /** A cancellative operation that `h` respects can be cancelled below `k` iterations. */
  lemma {:induction false} IterateDistribute<S(!new)>(h: S -> S, op: (S, S) -> S, a: S, b: S, k: nat)
    requires Respects(h, op)
    ensures Iterate(h, op(a, b), k) == op(Iterate(h, a, k), Iterate(h, b, k))
  {
    if k > 0 {
      IterateDistribute(h, op, a, b, k - 1);
    }
  }

  /** A machine that steps by `h` when it is fed `o` of its own state. */
  lemma {:induction false} FoldSamples<S(!new), B(!new)>(f: (S, B) -> S, h: S -> S, o: S -> B, s: S, k: nat)
    requires forall t :: f(t, o(t)) == h(t)
    ensures Fold(f, s, Samples(h, o, s, k)) == Iterate(h, s, k)
  {
    if k > 0 {
      FoldSamples(f, h, o, s, k - 1);
      assert Samples(h, o, s, k)[..k - 1] == Samples(h, o, s, k - 1);
    }
  }

  /** Sampling on after `j` iterations. */
  lemma {:induction false} SamplesAppend<S, B>(h: S -> S, o: S -> B, s: S, j: nat, k: nat)
    ensures Samples(h, o, s, j + k) == Samples(h, o, s, j) + Samples(h, o, Iterate(h, s, j), k)
  {
    if k > 0 {
      SamplesAppend(h, o, s, j, k - 1);
      IterateAdd(h, s, j, k - 1);
    }
  }

  /** Masking with a mask whose first `n` samples are set keeps the first `n` samples. */
  lemma {:induction false} SamplesMask<S(!new)>(
    h: S -> S, o: S -> bool, op: (S, S) -> S, s: S, m: S, n: nat)
    requires Respects(h, op) && Conjoins(o, op)
    requires forall i: nat :: i < n ==> o(Iterate(h, m, i))
    ensures Samples(h, o, op(s, m), n) == Samples(h, o, s, n)
  {
    if n > 0 {
      SamplesMask(h, o, op, s, m, n - 1);
      IterateDistribute(h, op, s, m, n - 1);
    }
  }

  lemma FoldStep<S, B>(f: (S, B) -> S, s: S, xs: seq<B>, i: nat)
    requires i < |xs|
    ensures Fold(f, s, xs[..i + 1]) == f(Fold(f, s, xs[..i]), xs[i])
  {
    assert xs[..i + 1][..i] == xs[..i];
  }

  lemma FoldFour<S, B>(f: (S, B) -> S, s: S, b: seq<B>)
    requires |b| == 4
    ensures Fold(f, s, b) == f(f(f(f(s, b[0]), b[1]), b[2]), b[3])
  {
    FoldStep(f, s, b, 0);
    FoldStep(f, s, b, 1);
    FoldStep(f, s, b, 2);
    FoldStep(f, s, b, 3);
    assert b[..4] == b && b[..0] == [];
  }

  // ------------------------------------------------------------------ linear steps

  /** The places at which two streams differ. */
  function Differences(x: seq<bool>, y: seq<bool>): (z: seq<bool>)
    requires |x| == |y|
    ensures |z| == |x|
  {
    seq(|x|, i requires 0 <= i < |x| => x[i] != y[i])
  }

  ghost predicate LinearStep<S(!new)>(f: (S, bool) -> S, g: (S, S) -> S) {
    forall s, t, a, b :: f(g(s, t), a != b) == g(f(s, a), f(t, b))
  }

  ghost predicate Associates<S(!new)>(g: (S, S) -> S) {
    forall x, y, z :: g(g(x, y), z) == g(x, g(y, z))
  }

  ghost predicate Commutes<S(!new)>(g: (S, S) -> S) {
    forall x, y :: g(x, y) == g(y, x)
  }

  /** Folding a linear step is linear. */
  lemma {:induction false} FoldLinear<S(!new)>(
    f: (S, bool) -> S, g: (S, S) -> S, c: S, e: S, x: seq<bool>, y: seq<bool>)
    requires |x| == |y|
    requires LinearStep(f, g)
    ensures Fold(f, g(c, e), Differences(x, y)) == g(Fold(f, c, x), Fold(f, e, y))
  {
    if |x| > 0 {
      var n := |x| - 1;
      FoldLinear(f, g, c, e, x[..n], y[..n]);
      assert Differences(x, y)[..n] == Differences(x[..n], y[..n]);
    }
  }

  /** Four terms of an associative and commutative operation. */
  lemma MiddleSwap<S(!new)>(g: (S, S) -> S, a: S, b: S, u: S, v: S)
    requires Associates(g) && Commutes(g)
    ensures g(g(a, b), g(u, v)) == g(g(a, u), g(b, v))
  {
    calc {
      g(g(a, b), g(u, v));
      g(a, g(b, g(u, v)));
      g(a, g(g(b, u), v));
      g(a, g(g(u, b), v));
      g(a, g(u, g(b, v)));
      g(g(a, u), g(b, v));
    }
  }
}
