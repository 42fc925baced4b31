/** `engine::mpi::GetType`: the compile-time element type of a buffer,
    translated to the runtime enumeration the engine uses to pick its typed
    code path. */
module TypeTag {

  /** The four C++ element types that have a `GetType` specialisation. Any
      other type has none, so using it is a compile-time error; a closed
      datatype makes that case unrepresentable. */
  datatype ElemKind = Int | Unsigned | Float | Double

  /** The engine's data-type enumeration. */
  datatype DataType = kInt | kUInt | kFloat | kDouble

  /** The element type a tag stands for: how the engine reads a tag back. */
  function KindOf(t: DataType): ElemKind {
    match t
    case kInt => Int
    case kUInt => Unsigned
    case kFloat => Float
    case kDouble => Double
  }

  /** `GetType<DType>()`. The tag determines the element type it was made
      from, so the engine can tell any two element types apart. */
  function GetType(k: ElemKind): (t: DataType)
    ensures KindOf(t) == k
  {
    match k
    case Int => kInt
    case Unsigned => kUInt
    case Float => kFloat
    case Double => kDouble
  }

  /** Every tag is the image of exactly one element type. */
  lemma GetTypeOnto(t: DataType)
    ensures GetType(KindOf(t)) == t
  {
  }

  /** The four tags are pairwise distinct. */
  lemma GetTypeInjective(a: ElemKind, b: ElemKind)
    ensures GetType(a) == GetType(b) <==> a == b
  {
    assert KindOf(GetType(a)) == a && KindOf(GetType(b)) == b;
  }

  /** `sizeof(DType)`, the element size `AllReduce` passes to the engine
      (32-bit `int`, `unsigned` and `float`, 64-bit `double`). */
  function ElemSize(k: ElemKind): (n: nat)
    ensures n == 4 || n == 8
    ensures n == 8 <==> k == Double
  {
    match k
    case Int => 4
    case Unsigned => 4
    case Float => 4
    case Double => 8
  }
}
