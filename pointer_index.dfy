/**
 * `PointerIndex`: one index operand of an element-address computation, either a
 * compile-time constant or the reserved "dynamic" value.
 */
module PointerIndices {
  import opened Common

  /** The reserved value `static_cast<size_t>(-1)` that marks a dynamically computed index. */
  const DynamicIndex: Size := SizeModulus - 1

  datatype PointerIndex = PointerIndex(index: Size) {

    /** `isConstant()`: the index is a compile-time constant. */
    predicate IsConstant() {
      index != DynamicIndex
    }

    /** `isDynamic()`: the index is computed at run time. */
    predicate IsDynamic() {
      index == DynamicIndex
    }
  }

  /** The default constructor `PointerIndex()` builds the dynamic index. */
  function DefaultIndex(): (p: PointerIndex)
    ensures p.IsDynamic() && !p.IsConstant()
    ensures p.index == DynamicIndex
  {
    PointerIndex(DynamicIndex)
  }

  /** `PointerIndex(size_t)`: constant unless the value collides with the dynamic marker. */
  function ConstantIndex(i: Size): (p: PointerIndex)
    ensures p.index == i
    ensures p.IsConstant() <==> i != DynamicIndex
  {
    PointerIndex(i)
  }

  /** Every index is exactly one of constant and dynamic. */
  lemma ConstantIsNotDynamic(p: PointerIndex)
    ensures p.IsConstant() <==> !p.IsDynamic()
  {
  }

  /** A dynamic index is indistinguishable from the default one, whatever built it. */
  lemma DynamicIsDefault(p: PointerIndex)
    ensures p.IsDynamic() <==> p == DefaultIndex()
  {
  }

  /** `operator==` on indices compares the stored values, so it is identity of the datatype. */
  function IndexEquals(a: PointerIndex, b: PointerIndex): (r: bool)
    ensures r <==> a == b
  {
    a.index == b.index
  }
}
