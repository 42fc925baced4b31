/** Namespace `op`: the four element-wise reduction operators, each with the
    operator tag it identifies itself to the engine by and its in-place
    `Reduce(dst, src)` rule, and the buffer reducer `Reducer<OP, DType>`
    that the engine is handed as its callback. The rules are modelled on the
    two integer element types: `unsigned` (all four operators) and `int`
    (Max, Min and BitOR everywhere, Sum where it does not overflow). */
module Op {
  import opened MachineInt
  import opened TypeTag
  import opened Algebra

  /** The operator structs `op::Max`, `op::Min`, `op::Sum`, `op::BitOR`. */
  datatype Op = Max | Min | Sum | BitOR

  /** The engine's operator enumeration. */
  datatype OpType = kMax | kMin | kSum | kBitwiseOR

  /** The rule a received tag selects: how the engine reads a tag back. */
  function OpOf(t: OpType): Op {
    match t
    case kMax => Max
    case kMin => Min
    case kSum => Sum
    case kBitwiseOR => BitOR
  }

  /** `OP::kType`. The tag determines the operator, so the reduce rule can be
      recovered from it. */
  function KType(op: Op): (t: OpType)
    ensures OpOf(t) == op
  {
    match op
    case Max => kMax
    case Min => kMin
    case Sum => kSum
    case BitOR => kBitwiseOR
  }

  /** The four operator tags are pairwise distinct. */
  lemma KTypeInjective(a: Op, b: Op)
    ensures KType(a) == KType(b) <==> a == b
  {
    assert OpOf(KType(a)) == a && OpOf(KType(b)) == b;
  }

  /** Which operator/element-type pairs instantiate at all: `|=` does not
      compile on floating-point types. */
  predicate Instantiable(op: Op, k: ElemKind) {
    op == BitOR ==> k == Int || k == Unsigned
  }

  /** `OP::Reduce(dst, src)` on `unsigned`: the new value of dst. */
  function ReduceUInt32(op: Op, dst: uint32, src: uint32): (r: uint32)
    ensures op == Max ==> r >= dst && r >= src && (r == dst || r == src)
    ensures op == Max && dst >= src ==> r == dst
    ensures op == Min ==> r <= dst && r <= src && (r == dst || r == src)
    ensures op == Min && dst <= src ==> r == dst
    ensures op == Sum ==> (r as int == dst as int + src as int ||
                           r as int == dst as int + src as int - TWO_32)
    ensures op == BitOR ==> forall k :: 0 <= k < 32 ==> BitOf(r, k) == (BitOf(dst, k) || BitOf(src, k))
  {
    match op
    case Max => if dst < src then src else dst
    case Min => if dst > src then src else dst
    case Sum => ((dst as int + src as int) % TWO_32) as uint32
    case BitOR => OrUInt32(dst, src)
  }

  /** C++ leaves signed overflow undefined, so Sum on `int` is only defined
      when the exact sum fits. */
  predicate DefinedInt32(op: Op, dst: int32, src: int32) {
    op == Sum ==> InInt32(dst as int + src as int)
  }

  /** `OP::Reduce(dst, src)` on `int`: the new value of dst. `|` acts on the
      two's complement bit patterns. */
  function ReduceInt32(op: Op, dst: int32, src: int32): (r: int32)
    requires DefinedInt32(op, dst, src)
    ensures op == Max ==> r >= dst && r >= src && (r == dst || r == src)
    ensures op == Max && dst >= src ==> r == dst
    ensures op == Min ==> r <= dst && r <= src && (r == dst || r == src)
    ensures op == Min && dst <= src ==> r == dst
    ensures op == Sum ==> r as int == dst as int + src as int
    ensures op == BitOR ==> forall k :: 0 <= k < 32 ==>
              BitOf(ToBits(r), k) == (BitOf(ToBits(dst), k) || BitOf(ToBits(src), k))
    ensures op == BitOR ==> (r < 0 <==> dst < 0 || src < 0)
  {
    match op
    case Max => if dst < src then src else dst
    case Min => if dst > src then src else dst
    case Sum => dst + src
    case BitOR =>
      var r := FromBits(OrUInt32(ToBits(dst), ToBits(src)));
      SignBit(r);
      SignBit(dst);
      SignBit(src);
      r
  }

  /** `OP::Reduce` on `unsigned` as a binary operator. */
  function UInt32Op(op: Op): (uint32, uint32) -> uint32 {
    (a, b) => ReduceUInt32(op, a, b)
  }

  /** `OP::Reduce` on `int` for the operators that are defined everywhere. */
  function Int32Op(op: Op): (int32, int32) -> int32
    requires op != Sum
  {
    (a, b) => ReduceInt32(op, a, b)
  }

  /** Every operator on `unsigned` is commutative and associative, Sum
      included because it wraps. */
  lemma UInt32OpAlgebra(op: Op)
    ensures Commutative(UInt32Op(op)) && Associative(UInt32Op(op))
  {
    var f := UInt32Op(op);
    forall a: uint32, b: uint32 ensures f(a, b) == f(b, a) {
      if op == BitOR {
        OrBitsCommutative(a as nat, b as nat, 32);
      }
    }
    forall a: uint32, b: uint32, c: uint32 ensures f(f(a, b), c) == f(a, f(b, c)) {
      UInt32Associative(op, a, b, c);
    }
  }

  lemma UInt32Associative(op: Op, a: uint32, b: uint32, c: uint32)
    ensures ReduceUInt32(op, ReduceUInt32(op, a, b), c) == ReduceUInt32(op, a, ReduceUInt32(op, b, c))
  {
    match op
    case Max =>
    case Min =>
    case Sum => WrapAssociative(a as int, b as int, c as int);
    case BitOR => OrBitsAssociative(a as nat, b as nat, c as nat, 32);
  }

  lemma WrapAssociative(a: int, b: int, c: int)
    requires 0 <= a < TWO_32 && 0 <= b < TWO_32 && 0 <= c < TWO_32
    ensures ((a + b) % TWO_32 + c) % TWO_32 == (a + (b + c) % TWO_32) % TWO_32
  {
    var ab := if a + b < TWO_32 then a + b else a + b - TWO_32;
    var bc := if b + c < TWO_32 then b + c else b + c - TWO_32;
    assert (a + b) % TWO_32 == ab;
    assert (b + c) % TWO_32 == bc;
  }

  /** Max, Min and BitOR on `int` are commutative and associative. */
  lemma Int32OpAlgebra(op: Op)
    requires op != Sum
    ensures Commutative(Int32Op(op)) && Associative(Int32Op(op))
  {
    if op == BitOR {
      forall a: int32, b: int32 ensures Int32Op(op)(a, b) == Int32Op(op)(b, a) {
        OrBitsCommutative(ToBits(a) as nat, ToBits(b) as nat, 32);
      }
      forall a: int32, b: int32, c: int32
        ensures Int32Op(op)(Int32Op(op)(a, b), c) == Int32Op(op)(a, Int32Op(op)(b, c))
      {
        OrBitsAssociative(ToBits(a) as nat, ToBits(b) as nat, ToBits(c) as nat, 32);
      }
    }
  }

  /** A reduction tree over any rearrangement of some `unsigned` values
      computes their left-to-right reduction, for every operator. */
  lemma UInt32TreeOrderFree(op: Op, t: Tree<uint32>, xs: seq<uint32>)
    requires multiset(Leaves(t)) == multiset(xs)
    ensures |xs| > 0 && Eval(UInt32Op(op), t) == Fold(UInt32Op(op), xs)
  {
    UInt32OpAlgebra(op);
    ReductionTreeOrderFree(UInt32Op(op), t, xs);
  }

  /** The same on `int` for Max, Min and BitOR. */
  lemma Int32TreeOrderFree(op: Op, t: Tree<int32>, xs: seq<int32>)
    requires op != Sum
    requires multiset(Leaves(t)) == multiset(xs)
    ensures |xs| > 0 && Eval(Int32Op(op), t) == Fold(Int32Op(op), xs)
  {
    Int32OpAlgebra(op);
    ReductionTreeOrderFree(Int32Op(op), t, xs);
  }

  /** Reducing a value with itself leaves it unchanged, for every operator
      but Sum; for BitOR this is `x | x == x`. */
  lemma Idempotent(op: Op, x: uint32, y: int32)
    requires op != Sum
    ensures ReduceUInt32(op, x, x) == x
    ensures ReduceInt32(op, y, y) == y
  {
    if op == BitOR {
      Pow2Width();
      OrBitsIdempotent(x as nat, 32);
      OrBitsIdempotent(ToBits(y) as nat, 32);
      FromToBits(y);
    }
  }

  /** Signed Sum is commutative and associative wherever it is defined: both
      groupings, when neither overflows, give the same value. */
  lemma Int32SumAlgebra(a: int32, b: int32, c: int32)
    ensures DefinedInt32(Sum, a, b) ==> ReduceInt32(Sum, a, b) == ReduceInt32(Sum, b, a)
    ensures DefinedInt32(Sum, a, b) && DefinedInt32(Sum, b, c) &&
            DefinedInt32(Sum, ReduceInt32(Sum, a, b), c) && DefinedInt32(Sum, a, ReduceInt32(Sum, b, c))
            ==> ReduceInt32(Sum, ReduceInt32(Sum, a, b), c) == ReduceInt32(Sum, a, ReduceInt32(Sum, b, c))
  {
  }

  /** The exact mathematical sum of some `int` values. */
  function ExactSum(xs: seq<int32>): int {
    if xs == [] then 0 else ExactSum(xs[..|xs| - 1]) + xs[|xs| - 1] as int
  }

  lemma {:induction false} ExactSumAppend(xs: seq<int32>, ys: seq<int32>)
    ensures ExactSum(xs + ys) == ExactSum(xs) + ExactSum(ys)
    decreases |ys|
  {
    if ys == [] {
      assert xs + ys == xs;
    } else {
      assert (xs + ys)[..|xs + ys| - 1] == xs + ys[..|ys| - 1];
      ExactSumAppend(xs, ys[..|ys| - 1]);
    }
  }

  /** Any one value can be taken out and added last. */
  lemma ExactSumExtract(ys: seq<int32>, j: nat)
    requires j < |ys|
    ensures ExactSum(ys) == ExactSum(ys[..j] + ys[j + 1..]) + ys[j] as int
  {
    var front, x, back := ys[..j], ys[j], ys[j + 1..];
    assert ys == (front + [x]) + back;
    ExactSumAppend(front + [x], back);
    ExactSumAppend(front, [x]);
    ExactSumAppend(front, back);
    assert ExactSum([x]) == x as int by {
      assert [x][..0] == [];
    }
  }

  /** The exact sum does not depend on the order of the values. */
  lemma {:induction false} ExactSumPermutation(xs: seq<int32>, ys: seq<int32>)
    requires multiset(xs) == multiset(ys)
    ensures ExactSum(xs) == ExactSum(ys)
    decreases |xs|
  {
    if xs == [] {
      assert ys == [] by {
        assert |ys| == |multiset(ys)| == 0;
      }
    } else {
      var x, init := xs[|xs| - 1], xs[..|xs| - 1];
      assert ExactSum(xs) == ExactSum(init) + x as int;
      assert x in multiset(ys) by {
        assert x in multiset(xs);
      }
      var j :| 0 <= j < |ys| && ys[j] == x;
      var rest := ys[..j] + ys[j + 1..];
      assert multiset(rest) == multiset(init) by {
        assert xs == init + [x];
        assert ys == ys[..j] + [x] + ys[j + 1..];
        assert multiset(ys) == multiset(rest) + multiset{x};
        assert multiset(xs) == multiset(init) + multiset{x};
        assert multiset(rest) == multiset(ys) - multiset{x};
      }
      ExactSumPermutation(init, rest);
      ExactSumExtract(ys, j);
    }
  }

  datatype Option<T> = None | Some(value: T)

  /** Evaluates a reduction tree with signed Sum; None when some node's sum
      overflows, i.e. when the C++ program would have undefined behaviour. */
  function SumTreeInt32(t: Tree<int32>): Option<int32> {
    match t
    case Leaf(v) => Some(v)
    case Node(l, r) =>
      match (SumTreeInt32(l), SumTreeInt32(r))
      case (Some(a), Some(b)) => if DefinedInt32(Sum, a, b) then Some(ReduceInt32(Sum, a, b)) else None
      case _ => None
  }

  /** Any reduction tree over signed values whose nodes do not overflow
      yields the exact sum of its leaves, whatever its shape and order. */
  lemma {:induction false} SumTreeInt32Exact(t: Tree<int32>)
    requires SumTreeInt32(t).Some?
    ensures SumTreeInt32(t).value as int == ExactSum(Leaves(t))
  {
    match t
    case Leaf(v) =>
      assert [v][..0] == [];
    case Node(l, r) =>
      SumTreeInt32Exact(l);
      SumTreeInt32Exact(r);
      ExactSumAppend(Leaves(l), Leaves(r));
  }

  /** Non-negative leaves whose total fits never overflow, in any tree. */
  lemma {:induction false} NonNegativeSumTree(t: Tree<int32>)
    requires forall i :: 0 <= i < |Leaves(t)| ==> Leaves(t)[i] >= 0
    requires ExactSum(Leaves(t)) <= INT32_MAX
    ensures SumTreeInt32(t).Some? && SumTreeInt32(t).value as int == ExactSum(Leaves(t))
  {
    match t
    case Leaf(v) =>
      assert [v][..0] == [];
    case Node(l, r) =>
      ExactSumAppend(Leaves(l), Leaves(r));
      assert forall i :: 0 <= i < |Leaves(l)| ==> Leaves(l)[i] == Leaves(t)[i];
      assert forall i :: 0 <= i < |Leaves(r)| ==> Leaves(r)[i] == Leaves(t)[|Leaves(l)| + i];
      ExactSumNonNegative(Leaves(l));
      ExactSumNonNegative(Leaves(r));
      NonNegativeSumTree(l);
      NonNegativeSumTree(r);
  }

  lemma {:induction false} ExactSumNonNegative(xs: seq<int32>)
    requires forall i :: 0 <= i < |xs| ==> xs[i] >= 0
    ensures ExactSum(xs) >= 0
    decreases |xs|
  {
    if xs != [] {
      ExactSumNonNegative(xs[..|xs| - 1]);
    }
  }

  /** Two non-overflowing signed Sum reduction trees over the same values,
      in any order and grouping, give the same result. */
  lemma SumTreeInt32OrderFree(t1: Tree<int32>, t2: Tree<int32>)
    requires SumTreeInt32(t1).Some? && SumTreeInt32(t2).Some?
    requires multiset(Leaves(t1)) == multiset(Leaves(t2))
    ensures SumTreeInt32(t1) == SumTreeInt32(t2)
  {
    SumTreeInt32Exact(t1);
    SumTreeInt32Exact(t2);
    ExactSumPermutation(Leaves(t1), Leaves(t2));
  }

  /** `op::Reducer<OP, DType>(src, dst, len)`: applies the element rule,
      here `reduce`, to every position below len, in increasing order, in
      place in dst. The two buffers may be the same array. */
  method Reducer<T>(reduce: (T, T) --> T, src: array<T>, dst: array<T>, len: int)
    requires len <= src.Length && len <= dst.Length
    requires forall i :: 0 <= i < len ==> reduce.requires(dst[i], src[i])
    modifies dst
    ensures forall i :: 0 <= i < len ==> dst[i] == reduce(old(dst[i]), old(src[i]))
    ensures forall i :: 0 <= i < dst.Length && len <= i ==> dst[i] == old(dst[i])
    ensures src != dst ==> src[..] == old(src[..])
  {
    var i := 0;
    while i < len
      invariant 0 <= i && (i <= len || i == 0)
      invariant forall k :: 0 <= k < i ==> dst[k] == reduce(old(dst[k]), old(src[k]))
      invariant forall k :: i <= k < dst.Length ==> dst[k] == old(dst[k])
      invariant forall k :: i <= k < src.Length ==> src[k] == old(src[k])
    {
      dst[i] := reduce(dst[i], src[i]);
      i := i + 1;
    }
  }

  /** `Reducer<OP, unsigned>`. */
  method ReducerUInt32(op: Op, src: array<uint32>, dst: array<uint32>, len: int)
    requires len <= src.Length && len <= dst.Length
    modifies dst
    ensures forall i :: 0 <= i < len ==> dst[i] == ReduceUInt32(op, old(dst[i]), old(src[i]))
    ensures forall i :: 0 <= i < dst.Length && len <= i ==> dst[i] == old(dst[i])
    ensures src != dst ==> src[..] == old(src[..])
  {
    Reducer(UInt32Op(op), src, dst, len);
  }

  /** `Reducer<OP, int>`: with Sum, no position may overflow. */
  method ReducerInt32(op: Op, src: array<int32>, dst: array<int32>, len: int)
    requires len <= src.Length && len <= dst.Length
    requires forall i :: 0 <= i < len ==> DefinedInt32(op, dst[i], src[i])
    modifies dst
    ensures forall i :: 0 <= i < len ==> dst[i] == ReduceInt32(op, old(dst[i]), old(src[i]))
    ensures forall i :: 0 <= i < dst.Length && len <= i ==> dst[i] == old(dst[i])
    ensures src != dst ==> src[..] == old(src[..])
  {
    Reducer((a, b) requires DefinedInt32(op, a, b) => ReduceInt32(op, a, b), src, dst, len);
  }
}
