/** Namespace `rabit`: `AllReduce<OP, DType>`, which hands the buffer, the
    element size, the count, the reducer callback `op::Reducer<OP, DType>`,
    the type tag and the operator tag to the engine. The engine's transport
    is not part of this model; what the call promises is modelled instead:
    every worker's buffer ends up holding the position-wise combination,
    under OP, of all workers' buffers. An in-process stand-in for the engine
    shows the reducer delivering exactly that, and lemmas show that the
    result does not depend on the order or grouping in which an engine
    combines workers. */
module Rabit {
  import opened MachineInt
  import opened TypeTag
  import opened Algebra
  import opened Op

  /** The scalar arguments `AllReduce` passes to the engine. */
  datatype EngineCall = EngineCall(elemSize: nat, count: nat, dtype: DataType, opType: OpType)

  /** The engine call made by `AllReduce<OP, DType>(buf, count)`. Only
      operator/type pairs that compile have one. The call identifies the
      operator and the element type it was made for. */
  function AllReduceCall(op: Op, kind: ElemKind, count: nat): (c: EngineCall)
    requires Instantiable(op, kind)
    ensures OpOf(c.opType) == op && KindOf(c.dtype) == kind && c.count == count
    ensures c.elemSize == ElemSize(kind)
    ensures (c.elemSize == 4 || c.elemSize == 8) && (c.elemSize == 8 <==> kind == Double)
  {
    EngineCall(ElemSize(kind), count, GetType(kind), KType(op))
  }

  /** Two workers' calls agree (which the engine needs for one collective)
      exactly when they use the same operator, element type and count. */
  lemma AllReduceCallsAgree(op1: Op, k1: ElemKind, n1: nat, op2: Op, k2: ElemKind, n2: nat)
    requires Instantiable(op1, k1) && Instantiable(op2, k2)
    ensures AllReduceCall(op1, k1, n1) == AllReduceCall(op2, k2, n2) <==> op1 == op2 && k1 == k2 && n1 == n2
  {
    var c1, c2 := AllReduceCall(op1, k1, n1), AllReduceCall(op2, k2, n2);
    assert OpOf(c1.opType) == op1 && OpOf(c2.opType) == op2;
    assert KindOf(c1.dtype) == k1 && KindOf(c2.dtype) == k2;
  }

  /** What every worker's buffer holds after AllReduce: the workers' buffers
      (in worker order) combined position-wise under f. */
  function AllReduced<T>(f: (T, T) -> T, bufs: seq<seq<T>>): seq<T>
    requires |bufs| > 0
  {
    Fold(Lift(f), bufs)
  }

  /** Position i of the result is the combination under f of every worker's
      value at position i. */
  lemma AllReducedAt<T>(f: (T, T) -> T, bufs: seq<seq<T>>, n: nat)
    requires |bufs| > 0 && Uniform(bufs, n)
    ensures |AllReduced(f, bufs)| == n
    ensures forall i :: 0 <= i < n ==> AllReduced(f, bufs)[i] == Fold(f, Column(bufs, i))
  {
    FoldLiftLength(f, bufs, n);
    forall i | 0 <= i < n
      ensures |AllReduced(f, bufs)| == n && AllReduced(f, bufs)[i] == Fold(f, Column(bufs, i))
    {
      FoldLiftAt(f, bufs, n, i);
    }
  }

  /** An engine may combine the workers' buffers in any order and grouping:
      every reduction tree over a rearrangement of the buffers yields the
      AllReduce result, provided the element operator is commutative and
      associative. */
  lemma AllReduceOrderFree<T(!new)>(f: (T, T) -> T, t: Tree<seq<T>>, bufs: seq<seq<T>>)
    requires Commutative(f) && Associative(f)
    requires multiset(Leaves(t)) == multiset(bufs)
    ensures |bufs| > 0 && Eval(Lift(f), t) == AllReduced(f, bufs)
  {
    LiftCommutative(f);
    LiftAssociative(f);
    ReductionTreeOrderFree(Lift(f), t, bufs);
  }

  /** The same for every operator on `unsigned`. */
  lemma UInt32AllReduceOrderFree(op: Op, t: Tree<seq<uint32>>, bufs: seq<seq<uint32>>)
    requires multiset(Leaves(t)) == multiset(bufs)
    ensures |bufs| > 0 && Eval(Lift(UInt32Op(op)), t) == AllReduced(UInt32Op(op), bufs)
  {
    UInt32OpAlgebra(op);
    AllReduceOrderFree(UInt32Op(op), t, bufs);
  }

  /** The same for Max, Min and BitOR on `int`. */
  lemma Int32AllReduceOrderFree(op: Op, t: Tree<seq<int32>>, bufs: seq<seq<int32>>)
    requires op != Sum
    requires multiset(Leaves(t)) == multiset(bufs)
    ensures |bufs| > 0 && Eval(Lift(Int32Op(op)), t) == AllReduced(Int32Op(op), bufs)
  {
    Int32OpAlgebra(op);
    AllReduceOrderFree(Int32Op(op), t, bufs);
  }

  /** Combines the workers' buffers one after another, as an in-process
      engine would: the first buffer is copied, then `Reducer` merges each
      further buffer into it. */
  method ReduceAcross<T>(f: (T, T) -> T, bufs: seq<seq<T>>, count: nat) returns (r: array<T>)
    requires |bufs| > 0 && Uniform(bufs, count)
    ensures fresh(r)
    ensures r.Length == count && r[..] == AllReduced(f, bufs)
  {
    r := new T[count](i requires 0 <= i < count => bufs[0][i]);
    assert r[..] == Fold(Lift(f), bufs[..1]);
    var w := 1;
    while w < |bufs|
      invariant 1 <= w <= |bufs|
      invariant r.Length == count
      invariant r[..] == Fold(Lift(f), bufs[..w])
    {
      var src := new T[count](i requires 0 <= i < count => bufs[w][i]);
      ghost var before := r[..];
      Reducer(f, src, r, count);
      assert bufs[..w + 1][..w] == bufs[..w];
      assert r[..] == Zip(f, before, bufs[w]);
      w := w + 1;
    }
    assert bufs[..w] == bufs;
  }

  /** The first count elements of every worker's buffer. */
  function Snapshot<T>(workers: seq<array<T>>, count: nat): (s: seq<seq<T>>)
    requires forall w :: 0 <= w < |workers| ==> count <= workers[w].Length
    reads set w | 0 <= w < |workers| :: workers[w]
    ensures |s| == |workers|
    ensures forall w :: 0 <= w < |workers| ==> s[w] == workers[w][..count]
    decreases |workers|
  {
    if workers == [] then []
    else Snapshot(workers[..|workers| - 1], count) + [workers[|workers| - 1][..count]]
  }

  /** Copies s into the front of a. */
  method CopyInto<T>(a: array<T>, s: seq<T>)
    requires |s| <= a.Length
    modifies a
    ensures a[..|s|] == s
    ensures forall i :: |s| <= i < a.Length ==> a[i] == old(a[i])
  {
    for i := 0 to |s|
      invariant forall k :: 0 <= k < i ==> a[k] == s[k]
      invariant forall k :: i <= k < a.Length ==> a[k] == old(a[k])
    {
      a[i] := s[i];
    }
  }

  /** `AllReduce<OP, DType>(buf, count)` across simulated workers, one
      buffer each: afterwards the first count elements of every worker's
      buffer hold the AllReduce result of what all workers held, and nothing
      beyond count changes. */
  method AllReduce<T>(f: (T, T) -> T, workers: seq<array<T>>, count: nat)
    requires |workers| > 0
    requires forall w :: 0 <= w < |workers| ==> count <= workers[w].Length
    modifies set w | 0 <= w < |workers| :: workers[w]
    ensures forall w :: 0 <= w < |workers| ==>
              workers[w][..count] == AllReduced(f, old(Snapshot(workers, count)))
    ensures forall w, i :: 0 <= w < |workers| && count <= i < workers[w].Length ==>
              workers[w][i] == old(workers[w][i])
  {
    var bufs := Snapshot(workers, count);
    var r := ReduceAcross(f, bufs, count);
    var result := r[..];
    var w := 0;
    while w < |workers|
      invariant 0 <= w <= |workers|
      invariant forall v :: 0 <= v < w ==> workers[v][..count] == result
      invariant forall v, i :: 0 <= v < |workers| && count <= i < workers[v].Length ==>
                  workers[v][i] == old(workers[v][i])
    {
      CopyInto(workers[w], result);
      w := w + 1;
    }
  }

  /** Fold of [0, 1, 2, 3] under any operator, spelled out. */
  lemma FoldFour<T>(f: (T, T) -> T, a: T, b: T, c: T, d: T)
    ensures Fold(f, [a, b, c, d]) == f(f(f(a, b), c), d)
  {
    assert [a, b, c, d][..3] == [a, b, c];
    assert [a, b, c][..2] == [a, b];
    assert [a, b][..1] == [a];
    assert Fold(f, [a]) == a;
    assert Fold(f, [a, b]) == f(a, b);
    assert Fold(f, [a, b, c]) == f(f(a, b), c);
  }

  /** Four workers holding [0], [1], [2], [3], one integer each: the
      single-position result of AllReduce under f is f applied across
      0, 1, 2, 3. */
  lemma FourWorkers<T>(f: (T, T) -> T, a: T, b: T, c: T, d: T)
    ensures AllReduced(f, [[a], [b], [c], [d]]) == [f(f(f(a, b), c), d)]
  {
    var bufs := [[a], [b], [c], [d]];
    AllReducedAt(f, bufs, 1);
    assert Column(bufs, 0) == [a, b, c, d];
    FoldFour(f, a, b, c, d);
  }

  /** Four workers holding [0], [1], [2], [3]: AllReduce with Max on `int`
      leaves [3] on every worker, whatever order the engine combines them
      in. */
  lemma FourWorkersMax(t: Tree<seq<int32>>)
    requires multiset(Leaves(t)) == multiset([[0], [1], [2], [3]])
    ensures AllReduced(Int32Op(Max), [[0], [1], [2], [3]]) == [3]
    ensures Eval(Lift(Int32Op(Max)), t) == [3]
  {
    FourWorkers(Int32Op(Max), 0, 1, 2, 3);
    Int32AllReduceOrderFree(Max, t, [[0], [1], [2], [3]]);
  }

  /** Four workers holding [0], [1], [2], [3]: AllReduce with Sum on
      `unsigned` leaves [6] on every worker, whatever the order. */
  lemma FourWorkersSumUInt32(t: Tree<seq<uint32>>)
    requires multiset(Leaves(t)) == multiset([[0], [1], [2], [3]])
    ensures AllReduced(UInt32Op(Sum), [[0], [1], [2], [3]]) == [6]
    ensures Eval(Lift(UInt32Op(Sum)), t) == [6]
  {
    FourWorkers(UInt32Op(Sum), 0, 1, 2, 3);
    UInt32AllReduceOrderFree(Sum, t, [[0], [1], [2], [3]]);
  }

  /** Signed Sum over the values 0, 1, 2, 3 held by four workers: every
      reduction tree over them, in any order and grouping, gives 6 without
      overflowing. */
  lemma FourWorkersSumInt32(t: Tree<int32>)
    requires multiset(Leaves(t)) == multiset([0, 1, 2, 3])
    ensures SumTreeInt32(t) == Some(6)
  {
    var leaves, values: seq<int32> := Leaves(t), [0, 1, 2, 3];
    forall i | 0 <= i < |leaves| ensures leaves[i] >= 0 {
      assert leaves[i] in multiset(leaves);
      assert leaves[i] in multiset(values);
    }
    ExactSumPermutation(leaves, values);
    assert ExactSum([0, 1, 2, 3]) == 6 by {
      var s: seq<int32> := [0, 1, 2, 3];
      assert s[..3][..2][..1][..0] == [];
      assert ExactSum(s[..3][..2][..1]) == 0;
      assert ExactSum(s[..3][..2]) == 1;
      assert ExactSum(s[..3]) == 3;
    }
    NonNegativeSumTree(t);
  }

  /** Max over 3, 7, 2, 9 is 9 for every order and grouping. */
  lemma MaxAnyOrder(t: Tree<int32>)
    requires multiset(Leaves(t)) == multiset([3, 7, 2, 9])
    ensures Eval(Int32Op(Max), t) == 9
  {
    Int32TreeOrderFree(Max, t, [3, 7, 2, 9]);
    FoldFour(Int32Op(Max), 3, 7, 2, 9);
  }
}
