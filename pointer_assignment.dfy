/**
 * The four pointer-assignment constraint forms, their kinds, equality and hash codes.
 *
 * The source builds them as a small class hierarchy; here they are one tagged
 * union whose constructor names are the source's class names. Pointers and
 * pointees are named by the value-tree node that owns them.
 */
module PointerAssignments {
  import opened Common
  import opened PointerIndices

  /** `PointerAssignmentKind`, in declaration order. */
  datatype PointerAssignmentKind = AssignedAddressOf | AssignedElementPtr | AssignedPointee | PointeeAssigned

  /** The enumerator's underlying integer value, as `static_cast<int>(kind)` yields it. */
  function KindValue(k: PointerAssignmentKind): (v: bv64)
    ensures v < 4
  {
    match k
    case AssignedAddressOf => 0
    case AssignedElementPtr => 1
    case AssignedPointee => 2
    case PointeeAssigned => 3
  }

  /** Distinct kinds have distinct values. */
  lemma KindValueInjective(k: PointerAssignmentKind, k': PointerAssignmentKind)
    ensures KindValue(k) == KindValue(k') ==> k == k'
  {
  }

  datatype PointerAssignment =
    | /** `p = &q`: the constrained pointer may point to `pointee`. */
      PointerAssignedAddressOf(pointee: NodeId)
    | /** `p = &q[...]`: the address of an element of what `pointer` points to. */
      PointerAssignedElementPtr(pointer: NodeId, indices: seq<PointerIndex>)
    | /** `p = *q`: load through `pointer`. */
      PointerAssignedPointee(pointer: NodeId)
    | /** `*p = q`: store `pointer` through the constrained pointer. */
      PointeeAssignedPointer(pointer: NodeId)
  {
    /** `kind()`. */
    function Kind(): PointerAssignmentKind {
      match this
      case PointerAssignedAddressOf(_) => AssignedAddressOf
      case PointerAssignedElementPtr(_, _) => AssignedElementPtr
      case PointerAssignedPointee(_) => AssignedPointee
      case PointeeAssignedPointer(_) => PointeeAssigned
    }

    /** The forms whose right-hand side is a pointer (`PointerAssignedPointerBase::classof`). */
    predicate HasPointerOperand() {
      !PointerAssignedAddressOf?
    }
  }

  /**
   * `isTrivialAssignment()`: the element-address form is a plain copy `p = q`.
   */
  function IsTrivialAssignment(s: seq<PointerIndex>): (r: bool)
    ensures r <==> (s == [] || s == [ConstantIndex(0)])
  {
    if |s| == 0 then true else |s| == 1 && s[0].index == 0
  }

  /**
   * The `operator==` the source's hash sets use, AS WRITTEN. The virtual
   * operator of the left operand decides. `PointerAssignedAddressOf` does not
   * override it, so the base class compares the kinds alone; the pointer forms
   * compare kind and pointer; the element-address form compares pointer and
   * index sequence and refuses any other kind.
   */
  function EqualsAsWritten(a: PointerAssignment, b: PointerAssignment): bool {
    match a
    case PointerAssignedAddressOf(_) => a.Kind() == b.Kind()
    case PointerAssignedElementPtr(p, s) =>
      b.PointerAssignedElementPtr? && p == b.pointer && |s| == |b.indices|
      && forall i :: 0 <= i < |s| ==> IndexEquals(s[i], b.indices[i])
    case _ => a.Kind() == b.Kind() && a.pointer == b.pointer
  }

  /**
   * Equality with the override `PointerAssignedAddressOf` evidently needs: two
   * address-of constraints are equal when they name the same pointee. The other
   * forms compare as the source's operators do.
   */
  function Equals(a: PointerAssignment, b: PointerAssignment): (r: bool)
    ensures r <==> a == b
  {
    match a
    case PointerAssignedAddressOf(q) => b.PointerAssignedAddressOf? && q == b.pointee
    case _ => EqualsAsWritten(a, b)
  }

  /** The element-address `operator==` refuses every other kind. */
  lemma ElementPtrEqualsOnlyElementPtr(a: PointerAssignment, b: PointerAssignment)
    requires a.PointerAssignedElementPtr? && !b.PointerAssignedElementPtr?
    ensures !EqualsAsWritten(a, b) && !Equals(a, b)
  {
  }

  /** Two element-address constraints are equal iff pointers and index sequences agree element-wise. */
  lemma ElementPtrEquality(p: NodeId, s: seq<PointerIndex>, q: NodeId, t: seq<PointerIndex>)
    ensures EqualsAsWritten(PointerAssignedElementPtr(p, s), PointerAssignedElementPtr(q, t))
        <==> p == q && |s| == |t| && forall i :: 0 <= i < |s| ==> s[i].index == t[i].index
    ensures EqualsAsWritten(PointerAssignedElementPtr(p, s), PointerAssignedElementPtr(q, t))
        <==> PointerAssignedElementPtr(p, s) == PointerAssignedElementPtr(q, t)
  {
    if p == q && |s| == |t| && forall i :: 0 <= i < |s| ==> s[i].index == t[i].index {
      assert s == t;
    }
  }

  /** The as-written equality holds between ANY two address-of constraints. */
  lemma AddressOfAsWrittenAllEqual(x: NodeId, y: NodeId)
    ensures EqualsAsWritten(PointerAssignedAddressOf(x), PointerAssignedAddressOf(y))
    ensures x != y ==> !Equals(PointerAssignedAddressOf(x), PointerAssignedAddressOf(y))
  {
  }

  // ---------------------------------------------------------------------------
  // Hash codes (size_t arithmetic, wrapping modulo 2^64)
  // ---------------------------------------------------------------------------

  /** `CombineHash(lhs, rhs)`: `lhs ^ (rhs + 0x9e3779b9 + (lhs << 6) + (lhs >> 2))`. */
  function CombineHash(lhs: bv64, rhs: bv64): bv64 {
    lhs ^ (rhs + 0x9e3779b9 + (lhs << 6) + (lhs >> 2))
  }

  /** `std::hash<size_t>` of an index value, the identity on the libstdc++ targets. */
  function IndexHash(p: PointerIndex): bv64 {
    p.index as bv64
  }

  /** Left fold of `CombineHash` over the hashes of an index sequence. */
  function FoldHash(acc: bv64, s: seq<PointerIndex>): bv64
    decreases |s|
  {
    if s == [] then acc else FoldHash(CombineHash(acc, IndexHash(s[0])), s[1..])
  }

  /**
   * `GetHashCode()`. `address` gives the machine address of each `Pointer`
   * object; the hash of a pointer form is that address or-ed with the kind.
   */
  function HashCode(a: PointerAssignment, address: NodeId -> bv64): bv64 {
    match a
    case PointerAssignedAddressOf(_) => KindValue(a.Kind())
    case PointerAssignedElementPtr(p, s) => FoldHash(address(p) | KindValue(a.Kind()), s)
    case _ => address(a.pointer) | KindValue(a.Kind())
  }

  /** One step of the fold. */
  lemma FoldHashStep(acc: bv64, s: seq<PointerIndex>)
    requires s != []
    ensures FoldHash(acc, s) == FoldHash(CombineHash(acc, IndexHash(s[0])), s[1..])
  {
  }

  /** Folding over a concatenation folds over the first part, then over the second. */
  lemma {:induction false} FoldHashAppend(acc: bv64, s: seq<PointerIndex>, t: seq<PointerIndex>)
    ensures FoldHash(acc, s + t) == FoldHash(FoldHash(acc, s), t)
    decreases |s|
  {
    if s == [] {
      assert s + t == t;
    } else {
      assert (s + t)[1..] == s[1..] + t;
      FoldHashAppend(CombineHash(acc, IndexHash(s[0])), s[1..], t);
    }
  }

  /** Extending the index sequence by one index combines its hash into the old hash. */
  lemma FoldHashSnoc(acc: bv64, s: seq<PointerIndex>, i: PointerIndex)
    ensures FoldHash(acc, s + [i]) == CombineHash(FoldHash(acc, s), IndexHash(i))
  {
    FoldHashAppend(acc, s, [i]);
  }

  /** An empty index sequence leaves the base hash unchanged. */
  lemma ElementPtrEmptyHash(p: NodeId, address: NodeId -> bv64)
    ensures HashCode(PointerAssignedElementPtr(p, []), address) == address(p) | 1
  {
  }

  /**
   * The hash is a function of the constraint's value: constraints equal under
   * either equality hash equally, for every assignment of addresses.
   */
  lemma HashRespectsEquality(a: PointerAssignment, b: PointerAssignment, address: NodeId -> bv64)
    ensures EqualsAsWritten(a, b) ==> HashCode(a, address) == HashCode(b, address)
    ensures Equals(a, b) ==> HashCode(a, address) == HashCode(b, address)
  {
    if EqualsAsWritten(a, b) && a.PointerAssignedElementPtr? {
      ElementPtrEquality(a.pointer, a.indices, b.pointer, b.indices);
    }
  }

  /**
   * `PointerAssignedElementPtr::GetHashCode`: the loop over the index sequence
   * with the `baseHash` accumulator.
   */
  method GetHashCode(pointer: NodeId, indexSequence: seq<PointerIndex>, address: NodeId -> bv64)
    returns (baseHash: bv64)
    ensures baseHash == HashCode(PointerAssignedElementPtr(pointer, indexSequence), address)
  {
    baseHash := address(pointer) | KindValue(AssignedElementPtr);
    var k := 0;
    while k < |indexSequence|
      invariant 0 <= k <= |indexSequence|
      invariant FoldHash(baseHash, indexSequence[k..])
             == FoldHash(address(pointer) | KindValue(AssignedElementPtr), indexSequence)
    {
      var indexHash := IndexHash(indexSequence[k]);
      FoldHashStep(baseHash, indexSequence[k..]);
      assert indexSequence[k..][1..] == indexSequence[k + 1..];
      baseHash := CombineHash(baseHash, indexHash);
      k := k + 1;
    }
    assert indexSequence[k..] == [];
  }

  // ---------------------------------------------------------------------------
  // The constraint sets as the source's hash sets hold them
  // ---------------------------------------------------------------------------

  /**
   * `std::unordered_set::emplace` under the as-written equality: the candidate
   * joins the container only when no element already compares equal to it.
   * The container is a sequence here because the as-written equality is
   * coarser than identity.
   */
  function EmplaceAsWritten(s: seq<PointerAssignment>, c: PointerAssignment): (r: (seq<PointerAssignment>, bool))
    ensures r.1 <==> forall x :: x in s ==> !EqualsAsWritten(c, x)
    ensures r.1 ==> r.0 == s + [c]
    ensures !r.1 ==> r.0 == s
  {
    if exists x :: x in s && EqualsAsWritten(c, x) then (s, false) else (s + [c], true)
  }

  /** Emplacing a sequence of constraints one after another. */
  function EmplaceAllAsWritten(s: seq<PointerAssignment>, cs: seq<PointerAssignment>): seq<PointerAssignment>
    decreases |cs|
  {
    if cs == [] then s else EmplaceAllAsWritten(EmplaceAsWritten(s, cs[0]).0, cs[1..])
  }

  /**
   * As written, a pointer's address-of set never holds more than one
   * constraint, however many distinct pointees are added to it.
   */
  lemma {:induction false} AddressOfSetHoldsAtMostOne(s: seq<PointerAssignment>, cs: seq<PointerAssignment>)
    requires |s| <= 1
    requires forall c :: c in s ==> c.PointerAssignedAddressOf?
    requires forall c :: c in cs ==> c.PointerAssignedAddressOf?
    ensures |EmplaceAllAsWritten(s, cs)| <= 1
    decreases |cs|
  {
    if cs != [] {
      var s' := EmplaceAsWritten(s, cs[0]).0;
      if s != [] {
        assert EqualsAsWritten(cs[0], s[0]);
      }
      AddressOfSetHoldsAtMostOne(s', cs[1..]);
    }
  }

  /**
   * The discrepancy on a concrete input: after `p = &x`, the constraint `p = &y`
   * for a different `y` is reported as not fresh and is not recorded.
   */
  lemma SecondAddressOfIsLost(x: NodeId, y: NodeId)
    requires x != y
    ensures EmplaceAsWritten([], PointerAssignedAddressOf(x)) == ([PointerAssignedAddressOf(x)], true)
    ensures EmplaceAsWritten([PointerAssignedAddressOf(x)], PointerAssignedAddressOf(y))
         == ([PointerAssignedAddressOf(x)], false)
  {
    assert [] + [PointerAssignedAddressOf(x)] == [PointerAssignedAddressOf(x)];
    assert EqualsAsWritten(PointerAssignedAddressOf(y), PointerAssignedAddressOf(x));
  }
}
