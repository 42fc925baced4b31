# Typed reduction operators of the rabit AllReduce interface

This project models, in Dafny, the inline template layer of rabit's
programming interface (`src/rabit-inl.h`): the part that sits between
application code and the fault-tolerant engine when a worker calls
`AllReduce<OP, DType>(buf, count)`.

- **Type tags** (`engine::mpi::GetType<DType>`): the four supported element
  types `int`, `unsigned`, `float`, `double` map to the engine's enumeration
  `kInt`, `kUInt`, `kFloat`, `kDouble`. Module `TypeTag`.
- **Reduction operators** (`op::Max`, `op::Min`, `op::Sum`, `op::BitOR`): each
  has an operator tag (`kMax`, `kMin`, `kSum`, `kBitwiseOR`) and an in-place
  rule `Reduce(dst, src)`. Module `Op` gives the rule as a function returning
  the new `dst`, for `unsigned` and for `int`. `unsigned` is the newtype
  `uint32` over `[0, 2^32)`, and Sum on it is computed modulo 2^32. `int` is the
  newtype `int32`: Sum on it is only defined when the exact sum fits, because
  signed overflow is undefined in C++. `|` works on bits (module
  `MachineInt`): bit by bit on `unsigned`, and on the two's complement
  pattern for `int`.
- **Buffer reducer** (`op::Reducer<OP, DType>`): the callback handed to the
  engine. It is a loop over `i = 0 .. len-1` that updates `dst[i]` in place.
  It is modelled as the method `Op.Reducer` on Dafny arrays, generic in the
  element rule.
- **AllReduce** (`rabit::AllReduce<OP, DType>`): it forwards to the engine
  the buffer, `sizeof(DType)`, the count, the reducer, `GetType<DType>()`
  and `OP::kType`. The engine is not part of this model, so module `Rabit`
  states what the call promises. Afterwards every worker's first `count`
  elements hold all workers' buffers combined position by position under OP
  (`Rabit.AllReduced`, a fold over the workers). An in-process stand-in for
  the engine (`Rabit.ReduceAcross`, `Rabit.AllReduce`) produces that value
  by calling the reducer. The lemmas prove that an engine may combine
  workers in any order and any grouping: every reduction tree
  (`Algebra.Tree`) over any rearrangement of the buffers gives the same
  result. The generic algebra behind this (folds, trees, lifting an
  operator to buffers) is in module `Algebra`.

`dst |= src` does not compile for `float` or `double`, so `Op.Instantiable`
excludes BitOR on them and `Rabit.AllReduceCall` requires it.

`sizeof` is taken as 4 bytes for `int`, `unsigned` and `float` and 8 for
`double` (the usual 32/64-bit ABIs).

## Model

| member | source | states |
|---|---|---|
| `TypeTag.GetType` | src/rabit-inl.h:14-31 | the tag determines the element type it was made from (`KindOf(GetType(k)) == k`) |
| `TypeTag.GetTypeOnto` | src/rabit-inl.h:14-31 | every one of the four tags is the tag of some element type |
| `TypeTag.GetTypeInjective` | src/rabit-inl.h:14-31 | the four tags `kInt`, `kUInt`, `kFloat`, `kDouble` are pairwise distinct |
| `TypeTag.ElemSize` | src/rabit-inl.h:107 | the element size passed to the engine is 4 or 8 bytes, and 8 exactly for `double` |
| `Op.KType` | src/rabit-inl.h:36-58 | an operator's tag determines the operator, so the engine can map a received tag back to its reduce rule |
| `Op.KTypeInjective` | src/rabit-inl.h:36-58 | the four operator tags are pairwise distinct |
| `MachineInt.OrUInt32` | src/rabit-inl.h:57-63 | bit k of `a OR b` is set exactly when bit k of `a` or of `b` is set, for all 32 bits |
| `Op.ReduceUInt32` | src/rabit-inl.h:36-63 | on `unsigned`: Max gives an operand no smaller than both and keeps `dst` when `dst >= src`; Min is the dual; Sum gives `dst + src`, wrapped once past 2^32; BitOR sets exactly the bits set in either operand |
| `Op.ReduceInt32` | src/rabit-inl.h:36-63 | on `int`: the same for Max and Min; Sum, where defined, is the exact sum; BitOR sets exactly the bits of either two's complement pattern, and the result is negative iff an operand is |
| `Op.UInt32OpAlgebra` | src/rabit-inl.h:36-63 | every operator on `unsigned`, wrapping Sum included, is commutative and associative |
| `Op.UInt32Associative` | src/rabit-inl.h:36-63 | `(a op b) op c == a op (b op c)` for every operator on `unsigned` |
| `Op.Int32OpAlgebra` | src/rabit-inl.h:36-49 | Max, Min and BitOR on `int` are commutative and associative |
| `Op.Int32SumAlgebra` | src/rabit-inl.h:50-56 | signed Sum is commutative where defined; when both groupings are defined they agree |
| `Op.Idempotent` | src/rabit-inl.h:36-63 | `Reduce(x, x)` leaves `x` unchanged for Max, Min and BitOR (`x OR x == x`), on both types |
| `Op.UInt32TreeOrderFree` | src/rabit-inl.h:36-63 | a reduction tree over any rearrangement of some `unsigned` values gives their left-to-right reduction, for every operator |
| `Op.Int32TreeOrderFree` | src/rabit-inl.h:36-63 | the same for Max, Min and BitOR on `int` |
| `Op.SumTreeInt32Exact` | src/rabit-inl.h:50-56 | a signed Sum reduction tree in which no node overflows yields the exact sum of its leaves |
| `Op.NonNegativeSumTree` | src/rabit-inl.h:50-56 | non-negative `int` values whose total fits can be summed in any tree without overflow, and the result is their exact sum |
| `Op.SumTreeInt32OrderFree` | src/rabit-inl.h:50-56 | two non-overflowing signed Sum trees over the same values, in any order and grouping, agree |
| `Op.Reducer` | src/rabit-inl.h:64-71 | for every `0 <= i < len`, `dst[i]` becomes `reduce(old dst[i], src[i])`; entries at or past `len` are unchanged (so `len <= 0` changes nothing); `src` is unchanged unless it is `dst` |
| `Op.ReducerUInt32` | src/rabit-inl.h:64-71 | `Reducer<OP, unsigned>`: position i becomes `ReduceUInt32(op, old dst[i], src[i])`, nothing else changes |
| `Op.ReducerInt32` | src/rabit-inl.h:64-71 | `Reducer<OP, int>`: the same with `ReduceInt32`, when no position's Sum overflows |
| `Rabit.AllReduceCall` | src/rabit-inl.h:105-109 | the engine call carries the element size `sizeof(DType)` (4, or 8 exactly for `double`), the count, and tags from which the operator and the element type are recovered |
| `Rabit.AllReduceCallsAgree` | src/rabit-inl.h:105-109 | two workers make the same engine call iff they use the same operator, element type and count |
| `Rabit.AllReducedAt` | src/rabit-inl.h:105-109 | the AllReduce result has `count` elements; position i is the fold under OP of every worker's value at position i |
| `Rabit.AllReduceOrderFree` | src/rabit-inl.h:105-109 | for a commutative, associative element rule, every reduction tree over any rearrangement of the workers' buffers gives the AllReduce result |
| `Rabit.UInt32AllReduceOrderFree` | src/rabit-inl.h:105-109 | the same for every operator on `unsigned` |
| `Rabit.Int32AllReduceOrderFree` | src/rabit-inl.h:105-109 | the same for Max, Min and BitOR on `int` |
| `Rabit.ReduceAcross` | src/rabit-inl.h:105-108 | combining the workers' buffers one after another with `Reducer` yields, in a newly allocated array, exactly the AllReduce result |
| `Rabit.AllReduce` | src/rabit-inl.h:105-109 | afterwards every worker's first `count` elements hold the AllReduce result of what all workers held; nothing at or past `count` changes |
| `Rabit.FourWorkersMax` | src/rabit-inl.h:105-109 | four workers holding [0], [1], [2], [3]: Max on `int` gives [3] in any combining order |
| `Rabit.FourWorkersSumUInt32` | src/rabit-inl.h:105-109 | the same workers: Sum on `unsigned` gives [6] in any combining order |
| `Rabit.FourWorkersSumInt32` | src/rabit-inl.h:105-109 | the same values under Sum on `int`: every reduction tree gives 6 without overflow |
| `Rabit.MaxAnyOrder` | src/rabit-inl.h:36-42 | Max over 3, 7, 2, 9 is 9 for every order and grouping |

## Left out

- `Init`, `Finalize`, `GetRank`, `GetWorldSize`, `GetProcessorName`, `LoadCheckPoint`, `CheckPoint` and `VersionNumber` (src/rabit-inl.h:75-93, 111-121) are not modelled. Each is a one-line forward to the engine, and the engine is not part of this model.
- `Bcast` (src/rabit-inl.h:95-103) is not modelled. Its effect rests on the engine's network broadcast across processes.
- The engine's transport, fault tolerance and checkpoint store (`engine::AllReduce_` and the rest) are external to this file. `Rabit.AllReduce` is an in-process stand-in for what AllReduce promises, not a model of the transport.
- The engine's check that all workers pass the same operator, element type and count is not modelled. `Rabit.AllReduceCallsAgree` only shows that the call it receives determines all three.
- Max, Min and Sum on `float` and `double` are not modelled: floating-point addition is not associative. Those types appear only through their type tags.
- The `MPI::Datatype` argument of `Reducer` and its casts from `void*` are not modelled. The buffers are typed Dafny arrays.
- Rabit.AllReduce: takes an element rule defined on all inputs, so it is not instantiated with Sum on `int`. For that operator, order-independence is stated one position at a time, on reduction trees (`Op.SumTreeInt32Exact`, `Op.SumTreeInt32OrderFree`).
- Op.Reducer: requires `len` to be at most the length of both buffers. Reading or writing past a buffer is undefined behaviour in C++, and such a call has no meaning to model.
