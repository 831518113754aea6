/**
 * `PointeeSet`: the deduplicating set of pointees a pointer may point to.
 * The source wraps an `std::unordered_set<Pointee *>`; pointees are named by
 * their nodes here, and the set is a field the methods reassign.
 */
module PointeeSets {
  import opened Common

  class PointeeSet {
    var pointees: set<NodeId>

    constructor ()
      ensures pointees == {}
    {
      pointees := {};
    }

    /** `insert`: reports whether the insertion took place. */
    method Insert(pointee: NodeId) returns (inserted: bool)
      modifies this
      ensures inserted <==> pointee !in old(pointees)
      ensures pointees == old(pointees) + {pointee}
    {
      inserted := pointee !in pointees;
      pointees := pointees + {pointee};
    }

    /** `count`: 1 when the pointee is an element, otherwise 0. */
    function Count(pointee: NodeId): (n: nat)
      reads this
      ensures n <= 1
      ensures n == 1 <==> pointee in pointees
    {
      if pointee in pointees then 1 else 0
    }

    /** `isSubset(another)`: every element of `another` is counted once in this set. */
    function IsSubset(another: PointeeSet): (r: bool)
      reads this, another
      ensures r <==> another.pointees <= pointees
    {
      forall e :: e in another.pointees ==> Count(e) == 1
    }

    /** `isSubsetOf(another)`: the mirror image of `isSubset`. */
    function IsSubsetOf(another: PointeeSet): (r: bool)
      reads this, another
      ensures r <==> pointees <= another.pointees
      ensures r == another.IsSubset(this)
    {
      another.IsSubset(this)
    }

    /** `operator==`: set equality, which is mutual inclusion. */
    function Equals(rhs: PointeeSet): (r: bool)
      reads this, rhs
      ensures r <==> IsSubset(rhs) && IsSubsetOf(rhs)
    {
      pointees == rhs.pointees
    }

    /**
     * `MergeFrom(source)`: inserts every element of `source` and reports
     * whether at least one of them was new. `source` may be this very set.
     */
    method MergeFrom(source: PointeeSet) returns (newElement: bool)
      modifies this
      ensures pointees == old(pointees) + old(source.pointees)
      ensures newElement <==> !(old(source.pointees) <= old(pointees))
      ensures newElement <==> |pointees| > |old(pointees)|
    {
      newElement := false;
      var remaining := source.pointees;
      ghost var merged: set<NodeId> := {};
      while remaining != {}
        invariant remaining + merged == old(source.pointees)
        invariant remaining !! merged
        invariant pointees == old(pointees) + merged
        invariant newElement <==> !(merged <= old(pointees))
        decreases remaining
      {
        var sourceElement :| sourceElement in remaining;
        var inserted := Insert(sourceElement);
        if inserted {
          newElement := true;
        }
        remaining := remaining - {sourceElement};
        merged := merged + {sourceElement};
      }
      GrowsIffNotSubset(old(pointees), old(source.pointees));
    }

    /** `MergeTo(target)`: merges this set into `target`. */
    method MergeTo(target: PointeeSet) returns (newElement: bool)
      modifies target
      ensures target.pointees == old(target.pointees) + old(pointees)
      ensures newElement <==> !(old(pointees) <= old(target.pointees))
    {
      newElement := target.MergeFrom(this);
    }
  }

  /** A union is strictly larger than its left operand iff the right one brings a new element. */
  lemma GrowsIffNotSubset(a: set<NodeId>, b: set<NodeId>)
    ensures |a + b| > |a| <==> !(b <= a)
  {
    if b <= a {
      assert a + b == a;
    } else {
      var x :| x in b && x !in a;
      assert x in b - a;
      assert a + b == a + (b - a);
      assert a * (b - a) == {};
      assert |a + (b - a)| == |a| + |b - a|;
    }
  }
}
