/**
 * `Pointer`: a pointee that is itself a pointer. It keeps the four sets of
 * constraints recorded on it and its points-to set.
 */
module Pointers {
  import opened Common
  import opened PointerIndices
  import opened PointerAssignments
  import opened PointeeSets

  class Pointer {
    /** The value-tree node this pointer belongs to. */
    const node: NodeId
    /** `GetPointeeSet()`: where the solver accumulates the points-to set. */
    const pointeeSet: PointeeSet

    var assignedAddressOf: set<PointerAssignment>
    var assignedElementPtr: set<PointerAssignment>
    var assignedPointee: set<PointerAssignment>
    var pointeeAssigned: set<PointerAssignment>

    /** Each constraint set holds constraints of its own form only. */
    ghost predicate Valid()
      reads this
    {
      && (forall c :: c in assignedAddressOf ==> c.PointerAssignedAddressOf?)
      && (forall c :: c in assignedElementPtr ==> c.PointerAssignedElementPtr?)
      && (forall c :: c in assignedPointee ==> c.PointerAssignedPointee?)
      && (forall c :: c in pointeeAssigned ==> c.PointeeAssignedPointer?)
    }

    /** All constraints recorded on this pointer, of the four forms together. */
    ghost function Constraints(): set<PointerAssignment>
      reads this
    {
      assignedAddressOf + assignedElementPtr + assignedPointee + pointeeAssigned
    }

    constructor (node: NodeId)
      ensures Valid() && this.node == node && fresh(pointeeSet)
      ensures Constraints() == {} && pointeeSet.pointees == {}
    {
      this.node := node;
      this.pointeeSet := new PointeeSet();
      assignedAddressOf, assignedElementPtr, assignedPointee, pointeeAssigned := {}, {}, {}, {};
    }

    /**
     * `AssignedAddressOf(pointee)`: records `p = &pointee`; the result says
     * whether no equal constraint was present before.
     */
    method AssignedAddressOf(pointee: NodeId) returns (added: bool)
      requires Valid()
      modifies this
      ensures Valid()
      ensures added <==> forall c :: c in old(assignedAddressOf) ==> !Equals(c, PointerAssignedAddressOf(pointee))
      ensures assignedAddressOf == old(assignedAddressOf) + {PointerAssignedAddressOf(pointee)}
      ensures Constraints() == old(Constraints()) + {PointerAssignedAddressOf(pointee)}
      ensures added <==> PointerAssignedAddressOf(pointee) !in old(Constraints())
      ensures unchanged(this`assignedElementPtr, this`assignedPointee, this`pointeeAssigned)
    {
      var c := PointerAssignedAddressOf(pointee);
      added := c !in assignedAddressOf;
      assignedAddressOf := assignedAddressOf + {c};
    }

    /**
     * `AssignedElementPtr(pointer, indexSequence)`: records `p = &pointer[indexSequence]`.
     */
    method AssignedElementPtr(pointer: NodeId, indexSequence: seq<PointerIndex>) returns (added: bool)
      requires Valid()
      modifies this
      ensures Valid()
      ensures added <==> forall c :: c in old(assignedElementPtr) ==> !Equals(c, PointerAssignedElementPtr(pointer, indexSequence))
      ensures assignedElementPtr == old(assignedElementPtr) + {PointerAssignedElementPtr(pointer, indexSequence)}
      ensures Constraints() == old(Constraints()) + {PointerAssignedElementPtr(pointer, indexSequence)}
      ensures added <==> PointerAssignedElementPtr(pointer, indexSequence) !in old(Constraints())
      ensures unchanged(this`assignedAddressOf, this`assignedPointee, this`pointeeAssigned)
    {
      var c := PointerAssignedElementPtr(pointer, indexSequence);
      added := c !in assignedElementPtr;
      assignedElementPtr := assignedElementPtr + {c};
    }

    /**
     * `AssignedPointer(pointer)`: the plain copy `p = q`, recorded as the
     * element-address constraint with the single index 0.
     */
    method AssignedPointer(pointer: NodeId) returns (added: bool)
      requires Valid()
      modifies this
      ensures Valid()
      ensures assignedElementPtr == old(assignedElementPtr) + {PointerAssignedElementPtr(pointer, [ConstantIndex(0)])}
      ensures Constraints() == old(Constraints()) + {PointerAssignedElementPtr(pointer, [ConstantIndex(0)])}
      ensures added <==> PointerAssignedElementPtr(pointer, [ConstantIndex(0)]) !in old(Constraints())
      ensures unchanged(this`assignedAddressOf, this`assignedPointee, this`pointeeAssigned)
    {
      added := AssignedElementPtr(pointer, [ConstantIndex(0)]);
    }

    /** `AssignedPointee(pointer)`: records `p = *pointer`. */
    method AssignedPointee(pointer: NodeId) returns (added: bool)
      requires Valid()
      modifies this
      ensures Valid()
      ensures added <==> forall c :: c in old(assignedPointee) ==> !Equals(c, PointerAssignedPointee(pointer))
      ensures assignedPointee == old(assignedPointee) + {PointerAssignedPointee(pointer)}
      ensures Constraints() == old(Constraints()) + {PointerAssignedPointee(pointer)}
      ensures added <==> PointerAssignedPointee(pointer) !in old(Constraints())
      ensures unchanged(this`assignedAddressOf, this`assignedElementPtr, this`pointeeAssigned)
    {
      var c := PointerAssignedPointee(pointer);
      added := c !in assignedPointee;
      assignedPointee := assignedPointee + {c};
    }

    /** `PointeeAssigned(pointer)`: records `*p = pointer`. */
    method PointeeAssigned(pointer: NodeId) returns (added: bool)
      requires Valid()
      modifies this
      ensures Valid()
      ensures added <==> forall c :: c in old(pointeeAssigned) ==> !Equals(c, PointeeAssignedPointer(pointer))
      ensures pointeeAssigned == old(pointeeAssigned) + {PointeeAssignedPointer(pointer)}
      ensures Constraints() == old(Constraints()) + {PointeeAssignedPointer(pointer)}
      ensures added <==> PointeeAssignedPointer(pointer) !in old(Constraints())
      ensures unchanged(this`assignedAddressOf, this`assignedElementPtr, this`assignedPointee)
    {
      var c := PointeeAssignedPointer(pointer);
      added := c !in pointeeAssigned;
      pointeeAssigned := pointeeAssigned + {c};
    }

    /** `GetNumAssignedAddressOf()` and its three siblings, as one count per form. */
    function NumConstraints(kind: PointerAssignmentKind): (n: nat)
      reads this
      requires Valid()
      ensures n == |set c | c in Constraints() && c.Kind() == kind|
    {
      match kind
      case AssignedAddressOf =>
        KindFilter(Constraints(), assignedAddressOf, assignedElementPtr + assignedPointee + pointeeAssigned, kind);
        |assignedAddressOf|
      case AssignedElementPtr =>
        KindFilter(Constraints(), assignedElementPtr, assignedAddressOf + assignedPointee + pointeeAssigned, kind);
        |assignedElementPtr|
      case AssignedPointee =>
        KindFilter(Constraints(), assignedPointee, assignedAddressOf + assignedElementPtr + pointeeAssigned, kind);
        |assignedPointee|
      case PointeeAssigned =>
        KindFilter(Constraints(), pointeeAssigned, assignedAddressOf + assignedElementPtr + assignedPointee, kind);
        |pointeeAssigned|
    }
  }

  /** The constraints of one kind in `all`, when `part` holds exactly those. */
  lemma KindFilter(all: set<PointerAssignment>, part: set<PointerAssignment>, rest: set<PointerAssignment>, kind: PointerAssignmentKind)
    requires all == part + rest
    requires forall c :: c in part ==> c.Kind() == kind
    requires forall c :: c in rest ==> c.Kind() != kind
    ensures (set c | c in all && c.Kind() == kind) == part
  {
  }

  /** A client of `AssignedPointee`: adding the same load constraint twice reports "fresh" once only. */
  method AssignedPointeeTwiceIsNoOp(p: Pointer, q: NodeId) returns (first: bool, second: bool)
    requires p.Valid()
    requires PointerAssignedPointee(q) !in p.Constraints()
    modifies p
    ensures first && !second
    ensures p.Constraints() == old(p.Constraints()) + {PointerAssignedPointee(q)}
  {
    first := p.AssignedPointee(q);
    ghost var afterFirst := p.Constraints();
    second := p.AssignedPointee(q);
    assert p.Constraints() == afterFirst;
  }
}
