/** Combining values with a binary operator: sequential folds, arbitrary
    reduction trees, and the element-wise lifting of an operator to whole
    buffers. The main results are that, for a commutative and associative
    operator, every reduction tree over any ordering of the inputs gives the
    same value, and that lifting to buffers keeps both properties. */
module Algebra {

  ghost predicate Commutative<T(!new)>(f: (T, T) -> T) {
    forall x, y :: f(x, y) == f(y, x)
  }

  ghost predicate Associative<T(!new)>(f: (T, T) -> T) {
    forall x, y, z :: f(f(x, y), z) == f(x, f(y, z))
  }

  /** Combines a non-empty sequence from left to right:
      f(...f(f(xs[0], xs[1]), xs[2])..., xs[|xs| - 1]). */
  function Fold<T>(f: (T, T) -> T, xs: seq<T>): T
    requires |xs| > 0
    decreases |xs|
  {
    if |xs| == 1 then xs[0] else f(Fold(f, xs[..|xs| - 1]), xs[|xs| - 1])
  }

  /** Folding a concatenation folds each part and combines the two results. */
  lemma {:induction false} FoldAppend<T(!new)>(f: (T, T) -> T, xs: seq<T>, ys: seq<T>)
    requires Associative(f)
    requires |xs| > 0 && |ys| > 0
    ensures Fold(f, xs + ys) == f(Fold(f, xs), Fold(f, ys))
    decreases |ys|
  {
    if |ys| == 1 {
      assert (xs + ys)[..|xs + ys| - 1] == xs;
    } else {
      var init := ys[..|ys| - 1];
      assert (xs + ys)[..|xs + ys| - 1] == xs + init;
      FoldAppend(f, xs, init);
    }
  }

  /** Any one element can be taken out and combined last. */
  lemma {:induction false} FoldExtract<T(!new)>(f: (T, T) -> T, ys: seq<T>, j: nat)
    requires Commutative(f) && Associative(f)
    requires 2 <= |ys| && j < |ys|
    ensures Fold(f, ys) == f(Fold(f, ys[..j] + ys[j + 1..]), ys[j])
  {
    var front, x, back := ys[..j], ys[j], ys[j + 1..];
    assert ys == front + [x] + back;
    if back == [] {
      assert ys[..|ys| - 1] == front;
      assert front + back == front;
    } else if front == [] {
      assert ys == [x] + back;
      assert front + back == back;
      FoldAppend(f, [x], back);
    } else {
      FoldAppend(f, front + [x], back);
      FoldAppend(f, front, [x]);
      FoldAppend(f, front, back);
      calc {
        Fold(f, ys);
        f(f(Fold(f, front), x), Fold(f, back));
        f(Fold(f, front), f(x, Fold(f, back)));
        f(Fold(f, front), f(Fold(f, back), x));
        f(f(Fold(f, front), Fold(f, back)), x);
      }
    }
  }

  /** For a commutative and associative operator the fold does not depend on
      the order of the inputs. */
  lemma {:induction false} FoldPermutation<T(!new)>(f: (T, T) -> T, xs: seq<T>, ys: seq<T>)
    requires Commutative(f) && Associative(f)
    requires |xs| > 0
    requires multiset(xs) == multiset(ys)
    ensures |ys| > 0 && Fold(f, xs) == Fold(f, ys)
    decreases |xs|
  {
    assert |ys| == |multiset(ys)| == |xs|;
    if |xs| == 1 {
      assert ys[0] in multiset(xs);
    } else {
      var x, init := xs[|xs| - 1], xs[..|xs| - 1];
      assert xs == init + [x];
      assert x in multiset(ys);
      var j :| 0 <= j < |ys| && ys[j] == x;
      var rest := ys[..j] + ys[j + 1..];
      assert ys == ys[..j] + [x] + ys[j + 1..];
      assert multiset(ys) == multiset(rest) + multiset{x};
      assert multiset(xs) == multiset(init) + multiset{x};
      assert multiset(rest) == multiset(ys) - multiset{x} == multiset(init);
      FoldPermutation(f, init, rest);
      FoldExtract(f, ys, j);
    }
  }

  /** A reduction tree: the shape in which partial results are combined. */
  datatype Tree<T> = Leaf(value: T) | Node(left: Tree<T>, right: Tree<T>)

  /** The inputs of a tree, left to right. */
  function Leaves<T>(t: Tree<T>): (s: seq<T>)
    ensures |s| > 0
  {
    match t
    case Leaf(v) => [v]
    case Node(l, r) => Leaves(l) + Leaves(r)
  }

  /** The value a tree computes when every node applies f. */
  function Eval<T>(f: (T, T) -> T, t: Tree<T>): T {
    match t
    case Leaf(v) => v
    case Node(l, r) => f(Eval(f, l), Eval(f, r))
  }

  /** Under an associative operator only the order of the leaves matters,
      not how the tree groups them. */
  lemma {:induction false} EvalIsFold<T(!new)>(f: (T, T) -> T, t: Tree<T>)
    requires Associative(f)
    ensures Eval(f, t) == Fold(f, Leaves(t))
  {
    match t
    case Leaf(v) =>
    case Node(l, r) =>
      EvalIsFold(f, l);
      EvalIsFold(f, r);
      FoldAppend(f, Leaves(l), Leaves(r));
  }

  /** Any reduction tree whose leaves are a rearrangement of xs computes the
      left-to-right fold of xs: neither grouping nor order matters. */
  lemma ReductionTreeOrderFree<T(!new)>(f: (T, T) -> T, t: Tree<T>, xs: seq<T>)
    requires Commutative(f) && Associative(f)
    requires multiset(Leaves(t)) == multiset(xs)
    ensures |xs| > 0 && Eval(f, t) == Fold(f, xs)
  {
    EvalIsFold(f, t);
    FoldPermutation(f, Leaves(t), xs);
  }

  /** Position-wise combination of two buffers: what the buffer reducer
      computes, as a value. Buffers of different lengths are cut to the
      shorter one. */
  function Zip<T>(f: (T, T) -> T, a: seq<T>, b: seq<T>): seq<T> {
    var n := if |a| <= |b| then |a| else |b|;
    seq(n, i requires 0 <= i < n => f(a[i], b[i]))
  }

  /** An element operator lifted to whole buffers. */
  function Lift<T>(f: (T, T) -> T): (seq<T>, seq<T>) -> seq<T> {
    (a, b) => Zip(f, a, b)
  }

  lemma LiftCommutative<T(!new)>(f: (T, T) -> T)
    requires Commutative(f)
    ensures Commutative(Lift(f))
  {
    forall a: seq<T>, b: seq<T> ensures Lift(f)(a, b) == Lift(f)(b, a) {
      assert Zip(f, a, b) == Zip(f, b, a);
    }
  }

  lemma LiftAssociative<T(!new)>(f: (T, T) -> T)
    requires Associative(f)
    ensures Associative(Lift(f))
  {
    forall a: seq<T>, b: seq<T>, c: seq<T>
      ensures Lift(f)(Lift(f)(a, b), c) == Lift(f)(a, Lift(f)(b, c))
    {
      assert Zip(f, Zip(f, a, b), c) == Zip(f, a, Zip(f, b, c));
    }
  }

  /** Every buffer of bufs has length n. */
  ghost predicate Uniform<T>(bufs: seq<seq<T>>, n: nat) {
    forall j :: 0 <= j < |bufs| ==> |bufs[j]| == n
  }

  /** The values at position i across all buffers. */
  function Column<T>(bufs: seq<seq<T>>, i: nat): (c: seq<T>)
    requires forall j :: 0 <= j < |bufs| ==> i < |bufs[j]|
    ensures |c| == |bufs|
  {
    seq(|bufs|, j requires 0 <= j < |bufs| => bufs[j][i])
  }

  /** Folding equal-length buffers position-wise keeps their length. */
  lemma {:induction false} FoldLiftLength<T>(f: (T, T) -> T, bufs: seq<seq<T>>, n: nat)
    requires |bufs| > 0 && Uniform(bufs, n)
    ensures |Fold(Lift(f), bufs)| == n
    decreases |bufs|
  {
    if |bufs| > 1 {
      FoldLiftLength(f, bufs[..|bufs| - 1], n);
    }
  }

  /** Folding equal-length buffers position-wise gives, at each position,
      the fold of that position's values. */
  lemma {:induction false} FoldLiftAt<T>(f: (T, T) -> T, bufs: seq<seq<T>>, n: nat, i: nat)
    requires |bufs| > 0 && Uniform(bufs, n) && i < n
    ensures |Fold(Lift(f), bufs)| == n
    ensures Fold(Lift(f), bufs)[i] == Fold(f, Column(bufs, i))
    decreases |bufs|
  {
    if |bufs| > 1 {
      var init := bufs[..|bufs| - 1];
      FoldLiftAt(f, init, n, i);
      assert Column(bufs, i)[..|bufs| - 1] == Column(init, i);
    }
  }
}
