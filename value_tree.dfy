/**
 * `ValueTree`: the forest of value trees of a module, its five root maps, and
 * the `Pointer` object owned by every pointer-typed node.
 */
module ValueTrees {
  import opened Common
  import opened PointerIndices
  import opened PointerAssignments
  import opened Pointers
  import opened ValueTreeNodes

  /**
   * `find_in(map, key)`: the node stored under `key`, or `None` (a null
   * pointer) when the key is absent.
   */
  function FindIn(m: map<ValueId, NodeId>, key: ValueId): (r: Option<NodeId>)
    ensures r.None? <==> key !in m
    ensures r.Some? ==> key in m && m[key] == r.value
  {
    if key in m then Some(m[key]) else None
  }

  /** Every entry of a root map is a root of the given kind whose value is its key. */
  ghost predicate IndexesRoots(a: Arena, m: map<ValueId, NodeId>, kind: ValueKind) {
    forall k :: k in m ==>
      && m[k] < |a|
      && IsRoot(a, m[k])
      && a[m[k]].value == Some(k)
      && a[m[k]].kind == kind
  }

  /**
   * The node arena and the five root maps of a `ValueTree`: `_roots` (values),
   * `_allocaMemoryRoots`, `_globalMemoryRoots`, `_argumentMemoryRoots` and
   * `_returnValueRoots`. Their construction is an input of this model.
   */
  datatype TreeShape = TreeShape(
    nodes: Arena,
    roots: map<ValueId, NodeId>,
    allocaMemoryRoots: map<ValueId, NodeId>,
    globalMemoryRoots: map<ValueId, NodeId>,
    argumentMemoryRoots: map<ValueId, NodeId>,
    returnValueRoots: map<ValueId, NodeId>)
  {
    ghost predicate Valid() {
      && WellFormed(nodes)
      && IndexesRoots(nodes, roots, Normal)
      && IndexesRoots(nodes, allocaMemoryRoots, StackMemory)
      && IndexesRoots(nodes, globalMemoryRoots, GlobalMemory)
      && IndexesRoots(nodes, argumentMemoryRoots, ArgumentMemory)
      && IndexesRoots(nodes, returnValueRoots, FunctionReturnValue)
    }

    /** `GetValueNode(value)`: the root that stands for `value` itself. */
    function GetValueNode(value: ValueId): (r: Option<NodeId>)
      requires Valid()
      ensures r.None? <==> value !in roots
      ensures r.Some? ==> r.value < |nodes| && IsRoot(nodes, r.value)
                          && nodes[r.value].value == Some(value) && nodes[r.value].kind == Normal
    {
      FindIn(roots, value)
    }

    /** `GetAllocaMemoryNode(inst)`: the stack memory allocated by an `alloca`. */
    function GetAllocaMemoryNode(inst: ValueId): (r: Option<NodeId>)
      requires Valid()
      ensures r.None? <==> inst !in allocaMemoryRoots
      ensures r.Some? ==> r.value < |nodes| && IsRoot(nodes, r.value)
                          && nodes[r.value].value == Some(inst) && nodes[r.value].kind == StackMemory
    {
      FindIn(allocaMemoryRoots, inst)
    }

    /** `GetGlobalMemoryNode(variable)`: the memory a global variable refers to. */
    function GetGlobalMemoryNode(variable: ValueId): (r: Option<NodeId>)
      requires Valid()
      ensures r.None? <==> variable !in globalMemoryRoots
      ensures r.Some? ==> r.value < |nodes| && IsRoot(nodes, r.value)
                          && nodes[r.value].value == Some(variable) && nodes[r.value].kind == GlobalMemory
    {
      FindIn(globalMemoryRoots, variable)
    }

    /** `GetArgumentMemoryNode(argument)`: the memory a pointer argument refers to. */
    function GetArgumentMemoryNode(argument: ValueId): (r: Option<NodeId>)
      requires Valid()
      ensures r.None? <==> argument !in argumentMemoryRoots
      ensures r.Some? ==> r.value < |nodes| && IsRoot(nodes, r.value)
                          && nodes[r.value].value == Some(argument) && nodes[r.value].kind == ArgumentMemory
      ensures r.Some? ==> IsExternal(nodes, r.value)
    {
      FindIn(argumentMemoryRoots, argument)
    }

    /** `GetFunctionReturnValueNode(function)`: the value a function returns. */
    function GetFunctionReturnValueNode(fn: ValueId): (r: Option<NodeId>)
      requires Valid()
      ensures r.None? <==> fn !in returnValueRoots
      ensures r.Some? ==> r.value < |nodes| && IsRoot(nodes, r.value)
                          && nodes[r.value].value == Some(fn) && nodes[r.value].kind == FunctionReturnValue
      ensures r.Some? ==> !IsExternal(nodes, r.value)
    {
      FindIn(returnValueRoots, fn)
    }
  }

  /**
   * The roots of one map in the order its iteration lists its keys (the
   * order of an `unordered_map` is not fixed, so it is a parameter).
   */
  ghost predicate IsIterationOrder(m: map<ValueId, NodeId>, keys: seq<ValueId>) {
    |keys| == |m| && forall k :: k in m <==> k in keys
  }

  function RootsInOrder(m: map<ValueId, NodeId>, keys: seq<ValueId>): (r: seq<NodeId>)
    requires forall i :: 0 <= i < |keys| ==> keys[i] in m
    ensures |r| == |keys| && forall i :: 0 <= i < |keys| ==> r[i] == m[keys[i]]
  {
    seq(|keys|, i requires 0 <= i < |keys| => m[keys[i]])
  }

  /** Visits tree after tree and stops at the first one whose visit returns false. */
  function VisitRoots(a: Arena, rs: seq<NodeId>, visitor: NodeId -> bool): (r: VisitResult)
    requires WellFormed(a) && forall i :: 0 <= i < |rs| ==> rs[i] < |a|
  {
    if rs == [] then VisitResult(true, [])
    else
      var first := Visit(a, rs[0], visitor);
      if !first.completed then first
      else
        var rest := VisitRoots(a, rs[1..], visitor);
        VisitResult(rest.completed, first.visited + rest.visited)
  }

  /** The nodes of all trees of `rs`, tree after tree, each in pre-order. */
  function ForestPreOrder(a: Arena, rs: seq<NodeId>): seq<NodeId>
    requires WellFormed(a) && forall i :: 0 <= i < |rs| ==> rs[i] < |a|
  {
    if rs == [] then [] else PreOrder(a, rs[0]) + ForestPreOrder(a, rs[1..])
  }

  /** Visiting a forest is the stop-at-first-false walk of its concatenated pre-orders. */
  lemma {:induction false} VisitRootsIsPreOrder(a: Arena, rs: seq<NodeId>, visitor: NodeId -> bool)
    requires WellFormed(a) && forall i :: 0 <= i < |rs| ==> rs[i] < |a|
    ensures VisitRoots(a, rs, visitor).completed <==> AllAccepted(ForestPreOrder(a, rs), visitor)
    ensures VisitRoots(a, rs, visitor).visited == StopPrefix(ForestPreOrder(a, rs), visitor)
  {
    if rs != [] {
      VisitIsPreOrder(a, rs[0], visitor);
      VisitRootsIsPreOrder(a, rs[1..], visitor);
      StopPrefixAppend(PreOrder(a, rs[0]), ForestPreOrder(a, rs[1..]), visitor);
      AllAcceptedAppend(PreOrder(a, rs[0]), ForestPreOrder(a, rs[1..]), visitor);
    }
  }

  /** The iteration order of each of the five root maps. */
  datatype IterationOrder = IterationOrder(
    values: seq<ValueId>,
    allocaMemory: seq<ValueId>,
    globalMemory: seq<ValueId>,
    argumentMemory: seq<ValueId>,
    returnValues: seq<ValueId>)

  ghost predicate IsOrderOf(shape: TreeShape, order: IterationOrder) {
    && IsIterationOrder(shape.roots, order.values)
    && IsIterationOrder(shape.allocaMemoryRoots, order.allocaMemory)
    && IsIterationOrder(shape.globalMemoryRoots, order.globalMemory)
    && IsIterationOrder(shape.argumentMemoryRoots, order.argumentMemory)
    && IsIterationOrder(shape.returnValueRoots, order.returnValues)
  }

  ghost predicate AreRoots(a: Arena, rs: seq<NodeId>) {
    forall i :: 0 <= i < |rs| ==> rs[i] < |a| && IsRoot(a, rs[i])
  }

  lemma RootsInOrderAreRoots(a: Arena, m: map<ValueId, NodeId>, keys: seq<ValueId>, kind: ValueKind)
    requires IndexesRoots(a, m, kind) && IsIterationOrder(m, keys)
    ensures AreRoots(a, RootsInOrder(m, keys))
  {
  }

  lemma AreRootsAppend(a: Arena, rs: seq<NodeId>, ts: seq<NodeId>)
    requires AreRoots(a, rs) && AreRoots(a, ts)
    ensures AreRoots(a, rs + ts)
  {
    assert forall i :: |rs| <= i < |rs + ts| ==> (rs + ts)[i] == ts[i - |rs|];
  }

  /** All roots, map after map in the order `ValueTree::Visit` walks them. */
  function AllRoots(shape: TreeShape, order: IterationOrder): (r: seq<NodeId>)
    requires shape.Valid() && IsOrderOf(shape, order)
    ensures AreRoots(shape.nodes, r)
  {
    var a := shape.nodes;
    var r0 := RootsInOrder(shape.roots, order.values);
    var r1 := RootsInOrder(shape.allocaMemoryRoots, order.allocaMemory);
    var r2 := RootsInOrder(shape.globalMemoryRoots, order.globalMemory);
    var r3 := RootsInOrder(shape.argumentMemoryRoots, order.argumentMemory);
    var r4 := RootsInOrder(shape.returnValueRoots, order.returnValues);
    RootsInOrderAreRoots(a, shape.roots, order.values, Normal);
    RootsInOrderAreRoots(a, shape.allocaMemoryRoots, order.allocaMemory, StackMemory);
    RootsInOrderAreRoots(a, shape.globalMemoryRoots, order.globalMemory, GlobalMemory);
    RootsInOrderAreRoots(a, shape.argumentMemoryRoots, order.argumentMemory, ArgumentMemory);
    RootsInOrderAreRoots(a, shape.returnValueRoots, order.returnValues, FunctionReturnValue);
    AreRootsAppend(a, r0, r1);
    AreRootsAppend(a, r0 + r1, r2);
    AreRootsAppend(a, r0 + r1 + r2, r3);
    AreRootsAppend(a, r0 + r1 + r2 + r3, r4);
    r0 + r1 + r2 + r3 + r4
  }

  /**
   * One call of `Pointer::AssignedAddressOf`, `AssignedElementPtr`,
   * `AssignedPointee` or `PointeeAssigned` on the pointer of node `target`.
   */
  datatype Emit = Emit(target: NodeId, constraint: PointerAssignment)

  /** The constraints recorded so far, per pointer node. */
  type ConstraintState = map<NodeId, set<PointerAssignment>>

  /** The state after one adder call (a call on a node without a pointer changes nothing). */
  function AddConstraint(s: ConstraintState, e: Emit): ConstraintState {
    if e.target in s then s[e.target := s[e.target] + {e.constraint}] else s
  }

  /** The state after a sequence of adder calls, in order. */
  function Apply(s: ConstraintState, es: seq<Emit>): ConstraintState
    decreases |es|
  {
    if es == [] then s else Apply(AddConstraint(s, es[0]), es[1..])
  }

  /** The constraints a sequence of calls adds to `target`. */
  function AddedTo(es: seq<Emit>, target: NodeId): set<PointerAssignment> {
    set i | 0 <= i < |es| && es[i].target == target :: es[i].constraint
  }

  /**
   * Applying calls adds to each pointer exactly the constraints aimed at it:
   * the result depends on the calls only as a set, not on their order or
   * repetitions.
   */
  lemma {:induction false} ApplyIsUnion(s: ConstraintState, es: seq<Emit>)
    ensures Apply(s, es).Keys == s.Keys
    ensures forall t :: t in s ==> Apply(s, es)[t] == s[t] + AddedTo(es, t)
    decreases |es|
  {
    if es != [] {
      var s' := AddConstraint(s, es[0]);
      ApplyIsUnion(s', es[1..]);
      forall t | t in s
        ensures Apply(s, es)[t] == s[t] + AddedTo(es, t)
      {
        assert AddedTo(es, t) == (if es[0].target == t then {es[0].constraint} else {}) + AddedTo(es[1..], t) by {
          forall c | c in AddedTo(es, t)
            ensures c in (if es[0].target == t then {es[0].constraint} else {}) + AddedTo(es[1..], t)
          {
            var i :| 0 <= i < |es| && es[i].target == t && es[i].constraint == c;
            if i > 0 {
              assert es[1..][i - 1] == es[i];
            }
          }
          forall c | c in AddedTo(es[1..], t)
            ensures c in AddedTo(es, t)
          {
            var i :| 0 <= i < |es[1..]| && es[1..][i].target == t && es[1..][i].constraint == c;
            assert es[i + 1] == es[1..][i];
          }
        }
      }
    } else {
      forall t | t in s
        ensures AddedTo(es, t) == {}
      {
      }
    }
  }

  /** Applying the same calls a second time changes nothing. */
  lemma ApplyIdempotent(s: ConstraintState, es: seq<Emit>)
    ensures Apply(Apply(s, es), es) == Apply(s, es)
  {
    ApplyIsUnion(s, es);
    ApplyIsUnion(Apply(s, es), es);
  }

  /** Applying a concatenation applies its two parts one after the other. */
  lemma {:induction false} ApplyAppend(s: ConstraintState, es: seq<Emit>, fs: seq<Emit>)
    ensures Apply(s, es + fs) == Apply(Apply(s, es), fs)
    decreases |es|
  {
    if es == [] {
      assert es + fs == fs;
    } else {
      assert (es + fs)[0] == es[0];
      assert (es + fs)[1..] == es[1..] + fs;
      ApplyAppend(AddConstraint(s, es[0]), es[1..], fs);
    }
  }

  /** Calls the adder of the constraint's form on `p`. */
  method Forward(p: Pointer, c: PointerAssignment) returns (added: bool)
    requires p.Valid()
    modifies p
    ensures p.Valid()
    ensures p.Constraints() == old(p.Constraints()) + {c}
    ensures added <==> c !in old(p.Constraints())
  {
    match c
    case PointerAssignedAddressOf(q) =>
      added := p.AssignedAddressOf(q);
    case PointerAssignedElementPtr(q, s) =>
      added := p.AssignedElementPtr(q, s);
    case PointerAssignedPointee(q) =>
      added := p.AssignedPointee(q);
    case PointeeAssignedPointer(q) =>
      added := p.PointeeAssigned(q);
  }

  /** A map that agrees with `before` except at `k`, where it holds `v`. */
  lemma UpdateOne(now: ConstraintState, before: ConstraintState, k: NodeId, v: set<PointerAssignment>)
    requires now.Keys == before.Keys && k in now && now[k] == v
    requires forall n :: n in now && n != k ==> now[n] == before[n]
    ensures now == before[k := v]
  {
  }

  /** One more call after a sequence of calls. */
  lemma ApplySnoc(s: ConstraintState, es: seq<Emit>, e: Emit)
    ensures Apply(s, es + [e]) == AddConstraint(Apply(s, es), e)
  {
    ApplyAppend(s, es, [e]);
  }

  class ValueTree {
    const shape: TreeShape
    /** The `Pointer` owned by each pointer-typed node (`InitializePointee`). */
    const pointers: map<NodeId, Pointer>

    ghost predicate Valid()
      reads this, pointers.Values
    {
      && shape.Valid()
      && (forall n: NodeId :: n in pointers <==> n < |shape.nodes| && shape.nodes[n].isPointerType)
      && (forall n :: n in pointers ==> pointers[n].node == n && pointers[n].Valid())
    }

    /** The constraints recorded on every pointer. */
    ghost function State(): ConstraintState
      reads this, pointers.Values
    {
      map n | n in pointers :: pointers[n].Constraints()
    }

    /** Gives every pointer-typed node of `shape` a fresh `Pointer` with no constraints. */
    constructor (shape: TreeShape)
      requires shape.Valid()
      ensures Valid() && this.shape == shape
      ensures fresh(pointers.Values)
      ensures forall n :: n in State() ==> State()[n] == {}
    {
      var ps: map<NodeId, Pointer> := map[];
      var i := 0;
      while i < |shape.nodes|
        invariant 0 <= i <= |shape.nodes|
        invariant forall n: NodeId :: n in ps <==> n < i && shape.nodes[n].isPointerType
        invariant forall n :: n in ps ==> ps[n].node == n && ps[n].Valid() && ps[n].Constraints() == {} && fresh(ps[n])
      {
        if shape.nodes[i].isPointerType {
          var p := new Pointer(i);
          ps := ps[i := p];
        }
        i := i + 1;
      }
      this.shape := shape;
      this.pointers := ps;
    }

    /**
     * `node->pointer()->X(...)`: one adder call on the pointer of `e.target`.
     */
    method Record(e: Emit) returns (added: bool)
      requires Valid() && e.target in pointers
      modifies pointers.Values
      ensures Valid()
      ensures State() == AddConstraint(old(State()), e)
      ensures added <==> e.constraint !in old(State())[e.target]
    {
      ghost var before := State();
      var p := pointers[e.target];
      assert forall n :: n in pointers && n != e.target ==> pointers[n] != p by {
        forall n | n in pointers && n != e.target
          ensures pointers[n] != p
        {
          assert pointers[n].node != p.node;
        }
      }
      added := Forward(p, e.constraint);
      ghost var now := State();
      assert forall n :: n in now ==> now[n] == pointers[n].Constraints();
      UpdateOne(now, before, e.target, before[e.target] + {e.constraint});
    }

    /**
     * `Visit(visitor)`: visits the trees of the five maps in turn and stops at
     * the first false.
     */
    function Visit(order: IterationOrder, visitor: NodeId -> bool): (r: VisitResult)
      reads this
      requires shape.Valid() && IsOrderOf(shape, order)
      ensures r.completed <==> AllAccepted(ForestPreOrder(shape.nodes, AllRoots(shape, order)), visitor)
      ensures r.visited == StopPrefix(ForestPreOrder(shape.nodes, AllRoots(shape, order)), visitor)
    {
      VisitRootsIsPreOrder(shape.nodes, AllRoots(shape, order), visitor);
      VisitRoots(shape.nodes, AllRoots(shape, order), visitor)
    }
  }
}
