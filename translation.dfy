/**
 * What each `PointerInstructionHandler<...>::Handle` does, as a function of
 * the tree shape and the instruction: the adder calls it makes, in order,
 * and whether it then faults. A fault stands for a failed assertion, a
 * failed `llvm::cast`, an out-of-range `GetChild`/`getArg`/`getArgOperand`,
 * or a null dereference of a node that a lookup did not find; calls made
 * before the fault are kept.
 */
module Translation {
  import opened Common
  import opened PointerIndices
  import opened PointerAssignments
  import opened ValueTreeNodes
  import opened ValueTrees
  import opened Ir

  datatype Outcome = Outcome(emits: seq<Emit>, faulted: bool)

  /** A handler that returns without a call. */
  const Nothing := Outcome([], false)

  /** `AssignedPointer(q)`, which records `p = &q[0]`. */
  function Copy(q: NodeId): (c: PointerAssignment)
    ensures c.PointerAssignedElementPtr? && c.pointer == q && IsTrivialAssignment(c.indices)
  {
    PointerAssignedElementPtr(q, [ConstantIndex(0)])
  }

  ghost predicate IsPointerNode(shape: TreeShape, n: NodeId) {
    n < |shape.nodes| && shape.nodes[n].isPointerType
  }

  /**
   * Every call targets a node that owns a `Pointer`; a constraint whose right
   * side is a pointer names a node that owns one, and `p = &q` names a node.
   */
  ghost predicate WellTyped(shape: TreeShape, e: Emit) {
    && IsPointerNode(shape, e.target)
    && match e.constraint
       case PointerAssignedAddressOf(q) => q < |shape.nodes|
       case PointerAssignedElementPtr(q, _) => IsPointerNode(shape, q)
       case PointerAssignedPointee(q) => IsPointerNode(shape, q)
       case PointeeAssignedPointer(q) => IsPointerNode(shape, q)
  }

  ghost predicate AllWellTyped(shape: TreeShape, es: seq<Emit>) {
    forall k :: 0 <= k < |es| ==> WellTyped(shape, es[k])
  }

  /**
   * `GetValueNode(v)` followed by the `isPointer()` assertion and `pointer()`:
   * `None` when there is no node for `v` or it is not a pointer.
   */
  function ResolvePointer(shape: TreeShape, v: ValueId): (r: Option<NodeId>)
    requires shape.Valid()
    ensures r.Some? <==> v in shape.roots && shape.nodes[shape.roots[v]].isPointerType
    ensures r.Some? ==> r.value == shape.roots[v] && IsPointerNode(shape, r.value)
  {
    match shape.GetValueNode(v)
    case None => None
    case Some(n) => if shape.nodes[n].isPointerType then Some(n) else None
  }

  /** The same for the return-value node of a function. */
  function ResolveReturnSlot(shape: TreeShape, f: ValueId): (r: Option<NodeId>)
    requires shape.Valid()
    ensures r.Some? <==> f in shape.returnValueRoots && shape.nodes[shape.returnValueRoots[f]].isPointerType
    ensures r.Some? ==> r.value == shape.returnValueRoots[f] && IsPointerNode(shape, r.value)
  {
    match shape.GetFunctionReturnValueNode(f)
    case None => None
    case Some(n) => if shape.nodes[n].isPointerType then Some(n) else None
  }

  /** One more call after `o`, or a fault in its place (`None`); nothing once `o` has faulted. */
  function Then(o: Outcome, e: Option<Emit>): (r: Outcome)
    ensures o.faulted ==> r == o
    ensures !o.faulted && e.None? ==> r == Outcome(o.emits, true)
    ensures !o.faulted && e.Some? ==> r == Outcome(o.emits + [e.value], false)
  {
    if o.faulted then o
    else if e.None? then Outcome(o.emits, true)
    else Outcome(o.emits + [e.value], false)
  }

  /** `target.AssignedPointer(node of v)`, or a fault when `v` does not resolve. */
  function CopyInto(shape: TreeShape, target: NodeId, v: ValueId): Option<Emit>
    requires shape.Valid()
  {
    match ResolvePointer(shape, v)
    case None => None
    case Some(s) => Some(Emit(target, Copy(s)))
  }

  lemma ThenWellTyped(shape: TreeShape, o: Outcome, e: Option<Emit>)
    requires AllWellTyped(shape, o.emits) && (e.Some? ==> WellTyped(shape, e.value))
    ensures AllWellTyped(shape, Then(o, e).emits)
  {
  }

  // ---------------------------------------------------------------- Alloca

  /** `p = alloca`: the alloca's value node records `p = &m`, `m` its stack memory. */
  function AllocaSpec(shape: TreeShape, inst: Instruction): (r: Outcome)
    requires shape.Valid() && inst.kind.Alloca?
    ensures AllWellTyped(shape, r.emits)
    ensures r.faulted <==> ResolvePointer(shape, inst.result.id).None? || inst.result.id !in shape.allocaMemoryRoots
    ensures r.faulted ==> r.emits == []
    ensures !r.faulted ==> r.emits == [Emit(shape.roots[inst.result.id],
                                            PointerAssignedAddressOf(shape.allocaMemoryRoots[inst.result.id]))]
  {
    match ResolvePointer(shape, inst.result.id)
    case None => Outcome([], true)
    case Some(p) =>
      match shape.GetAllocaMemoryNode(inst.result.id)
      case None => Outcome([], true)
      case Some(m) => Outcome([Emit(p, PointerAssignedAddressOf(m))], false)
  }

  // ---------------------------------------------------------------- Call

  /** The binding of actual `i` to formal `i`, when that formal is a pointer. */
  /** `paramNode.AssignedPointer(argNode)` for one pointer formal and its actual. */
  function BindFormal(shape: TreeShape, o: Outcome, formal: Value, arg: Value): (r: Outcome)
    requires shape.Valid()
    ensures o.faulted ==> r == o
    ensures !o.faulted ==> (r.faulted <==> ResolvePointer(shape, formal.id).None? || ResolvePointer(shape, arg.id).None?)
    ensures r.faulted ==> r.emits == o.emits
    ensures !r.faulted ==> r.emits == o.emits + [Emit(shape.roots[formal.id], Copy(shape.roots[arg.id]))]
  {
    match ResolvePointer(shape, formal.id)
    case None => Then(o, None)
    case Some(p) => Then(o, CopyInto(shape, p, arg.id))
  }

  function BindArg(shape: TreeShape, formals: seq<Value>, args: seq<Value>, o: Outcome, i: nat): (r: Outcome)
    requires shape.Valid() && i < |args|
  {
    if i >= |formals| || !formals[i].isPointer then o
    else BindFormal(shape, o, formals[i], args[i])
  }

  /** The bindings of actuals `i..` in order. */
  function BindArgs(shape: TreeShape, formals: seq<Value>, args: seq<Value>, o: Outcome, i: nat): (r: Outcome)
    requires shape.Valid() && i <= |args|
    decreases |args| - i
  {
    if i == |args| then o
    else BindArgs(shape, formals, args, BindArg(shape, formals, args, o, i), i + 1)
  }

  /** Formal `k` is a pointer bound to actual `k`. */
  ghost predicate IsBinding(shape: TreeShape, formals: seq<Value>, args: seq<Value>, k: int, e: Emit)
    requires shape.Valid()
  {
    && 0 <= k < |args| && k < |formals| && formals[k].isPointer
    && formals[k].id in shape.roots && args[k].id in shape.roots
    && e == Emit(shape.roots[formals[k].id], Copy(shape.roots[args[k].id]))
  }

  /**
   * Binding the actuals adds, for every pointer formal `k`, the constraint
   * "formal k = actual k", and nothing else; it faults iff some pointer
   * formal or its actual does not resolve to a pointer.
   */
  lemma {:induction false} BindArgsBindsPointerFormals(shape: TreeShape, formals: seq<Value>, args: seq<Value>, o: Outcome, i: nat)
    requires shape.Valid() && i <= |args| && !o.faulted && AllWellTyped(shape, o.emits)
    ensures var r := BindArgs(shape, formals, args, o, i);
      && AllWellTyped(shape, r.emits)
      && o.emits <= r.emits
      && (r.faulted <==> exists k :: i <= k < |args| && k < |formals| && formals[k].isPointer &&
                                      (ResolvePointer(shape, formals[k].id).None? || ResolvePointer(shape, args[k].id).None?))
      && (!r.faulted ==>
            && (forall k :: i <= k < |args| && k < |formals| && formals[k].isPointer ==>
                  Emit(shape.roots[formals[k].id], Copy(shape.roots[args[k].id])) in r.emits)
            && (forall e :: e in r.emits ==> e in o.emits || exists k :: i <= k && IsBinding(shape, formals, args, k, e)))
  {
    BindArgsFaults(shape, formals, args, o, i);
    BindArgsMakesEveryBinding(shape, formals, args, o, i);
    BindArgsMakesOnlyBindings(shape, formals, args, o, i);
  }

  /** Binding faults iff some pointer formal or its actual does not resolve; it only appends well-typed calls. */
  lemma {:induction false} BindArgsFaults(shape: TreeShape, formals: seq<Value>, args: seq<Value>, o: Outcome, i: nat)
    requires shape.Valid() && i <= |args| && !o.faulted && AllWellTyped(shape, o.emits)
    ensures var r := BindArgs(shape, formals, args, o, i);
      && AllWellTyped(shape, r.emits)
      && o.emits <= r.emits
      && (r.faulted <==> exists k :: i <= k < |args| && k < |formals| && formals[k].isPointer &&
                                      (ResolvePointer(shape, formals[k].id).None? || ResolvePointer(shape, args[k].id).None?))
    decreases |args| - i
  {
    if i < |args| {
      var o' := BindArg(shape, formals, args, o, i);
      if o'.faulted {
        BindArgsAbsorbs(shape, formals, args, o', i + 1);
      } else {
        BindArgsFaults(shape, formals, args, o', i + 1);
      }
    }
  }

  /** Without a fault, every pointer formal from `i` on is bound to its actual. */
  lemma {:induction false} BindArgsMakesEveryBinding(shape: TreeShape, formals: seq<Value>, args: seq<Value>, o: Outcome, i: nat)
    requires shape.Valid() && i <= |args| && !o.faulted
    ensures var r := BindArgs(shape, formals, args, o, i);
      !r.faulted ==>
        forall k :: i <= k < |args| && k < |formals| && formals[k].isPointer ==>
          && formals[k].id in shape.roots && args[k].id in shape.roots
          && Emit(shape.roots[formals[k].id], Copy(shape.roots[args[k].id])) in r.emits
    decreases |args| - i
  {
    if i < |args| {
      var o' := BindArg(shape, formals, args, o, i);
      if o'.faulted {
        BindArgsAbsorbs(shape, formals, args, o', i + 1);
      } else {
        BindArgsMakesEveryBinding(shape, formals, args, o', i + 1);
        BindArgsExtends(shape, formals, args, o', i + 1);
        if i < |formals| && formals[i].isPointer {
          assert o'.emits[|o'.emits| - 1] in BindArgs(shape, formals, args, o, i).emits;
        }
      }
    }
  }

  /** Without a fault, every call binding adds is a binding of a pointer formal from `i` on. */
  lemma {:induction false} BindArgsMakesOnlyBindings(shape: TreeShape, formals: seq<Value>, args: seq<Value>, o: Outcome, i: nat)
    requires shape.Valid() && i <= |args| && !o.faulted
    ensures var r := BindArgs(shape, formals, args, o, i);
      !r.faulted ==> forall e :: e in r.emits ==> e in o.emits || exists k :: i <= k && IsBinding(shape, formals, args, k, e)
    decreases |args| - i
  {
    if i < |args| {
      var o' := BindArg(shape, formals, args, o, i);
      if o'.faulted {
        BindArgsAbsorbs(shape, formals, args, o', i + 1);
      } else {
        BindArgsMakesOnlyBindings(shape, formals, args, o', i + 1);
        var r := BindArgs(shape, formals, args, o, i);
        if !r.faulted {
          forall e | e in r.emits
            ensures e in o.emits || exists k :: i <= k && IsBinding(shape, formals, args, k, e)
          {
            if e !in o.emits && e in o'.emits {
              assert o'.emits == o.emits + [e];
              assert IsBinding(shape, formals, args, i, e);
            }
          }
        }
      }
    }
  }

  /** Binding only appends. */
  lemma {:induction false} BindArgsExtends(shape: TreeShape, formals: seq<Value>, args: seq<Value>, o: Outcome, i: nat)
    requires shape.Valid() && i <= |args|
    ensures o.emits <= BindArgs(shape, formals, args, o, i).emits
    decreases |args| - i
  {
    if i < |args| {
      BindArgsExtends(shape, formals, args, BindArg(shape, formals, args, o, i), i + 1);
    }
  }

  lemma {:induction false} BindArgsAbsorbs(shape: TreeShape, formals: seq<Value>, args: seq<Value>, o: Outcome, i: nat)
    requires shape.Valid() && i <= |args| && o.faulted
    ensures BindArgs(shape, formals, args, o, i) == o
    decreases |args| - i
  {
    if i < |args| {
      BindArgsAbsorbs(shape, formals, args, BindArg(shape, formals, args, o, i), i + 1);
    }
  }

  /** The call's result records `r = ret(f)` when the callee returns a pointer. */
  function BindResult(shape: TreeShape, inst: Instruction, f: Function, o: Outcome): (r: Outcome)
    requires shape.Valid()
    ensures AllWellTyped(shape, o.emits) ==> AllWellTyped(shape, r.emits)
    ensures o.faulted ==> r == o
    ensures !o.faulted ==>
      (r.faulted <==> f.returnsPointer && (ResolveReturnSlot(shape, f.id).None? || ResolvePointer(shape, inst.result.id).None?))
  {
    if o.faulted || !f.returnsPointer then o
    else match ResolveReturnSlot(shape, f.id)
      case None => Then(o, None)
      case Some(ret) =>
        match ResolvePointer(shape, inst.result.id)
        case None => Then(o, None)
        case Some(p) => Then(o, Some(Emit(p, Copy(ret))))
  }

  /**
   * A call to `getCalledFunction()`: no constraint for an intrinsic or an
   * indirect call; otherwise every pointer formal is bound to its actual and
   * a pointer result to the callee's return value.
   */
  function CallSpec(shape: TreeShape, inst: Instruction): (r: Outcome)
    requires shape.Valid() && inst.kind.Call?
  {
    if inst.kind.isIntrinsic || inst.kind.callee.None? then Nothing
    else
      var f := inst.kind.callee.value;
      BindResult(shape, inst, f, BindArgs(shape, f.formals, inst.kind.args, Nothing, 0))
  }

  /**
   * The loop body of the call handler as written: `getArg(i)` of the
   * enclosing function, and `getArgOperand(i)` of the call, each failing
   * its range assertion past the end.
   */
  function BindArgAsWritten(shape: TreeShape, formals: seq<Value>, args: seq<Value>, o: Outcome, i: nat): (r: Outcome)
    requires shape.Valid()
    ensures AllWellTyped(shape, o.emits) ==> AllWellTyped(shape, r.emits)
  {
    if o.faulted then o
    else if i >= |formals| then Then(o, None)
    else if !formals[i].isPointer then o
    else if i >= |args| then Then(o, None)
    else BindFormal(shape, o, formals[i], args[i])
  }

  /** The loop over `i < getNumOperands()`: the actuals and the callee operand. */
  function BindArgsAsWritten(shape: TreeShape, formals: seq<Value>, args: seq<Value>, o: Outcome, i: nat): (r: Outcome)
    requires shape.Valid() && i <= |args| + 1
    ensures AllWellTyped(shape, o.emits) ==> AllWellTyped(shape, r.emits)
    decreases |args| + 1 - i
  {
    if i == |args| + 1 then o
    else BindArgsAsWritten(shape, formals, args, BindArgAsWritten(shape, formals, args, o, i), i + 1)
  }

  /**
   * The call handler as written, which uses the enclosing function
   * `inst.getFunction()`. When it does not fault, it records what the
   * corrected handler would for a call of the enclosing function: its pointer
   * formals bound to the actuals, and the result to its return slot.
   */
  function CallSpecAsWritten(shape: TreeShape, inst: Instruction): (r: Outcome)
    requires shape.Valid() && inst.kind.Call?
    ensures AllWellTyped(shape, r.emits)
    ensures inst.kind.isIntrinsic ==> r == Nothing
    ensures !inst.kind.isIntrinsic && !r.faulted ==>
      r == BindResult(shape, inst, inst.parent, BindArgs(shape, inst.parent.formals, inst.kind.args, Nothing, 0))
  {
    if inst.kind.isIntrinsic then Nothing
    else
      var f := inst.parent;
      BindArgsAsWrittenAgreesWhenNoFault(shape, f.formals, inst.kind.args, Nothing, 0);
      BindResult(shape, inst, f, BindArgsAsWritten(shape, f.formals, inst.kind.args, Nothing, 0))
  }

  /**
   * Unless it faults, the loop as written makes exactly the bindings of the
   * corrected loop over the same formals: its extra iterations can only fault.
   */
  lemma {:induction false} BindArgsAsWrittenAgreesWhenNoFault(shape: TreeShape, formals: seq<Value>, args: seq<Value>, o: Outcome, i: nat)
    requires shape.Valid() && i <= |args| && !o.faulted
    ensures var r := BindArgsAsWritten(shape, formals, args, o, i);
      !r.faulted ==> r == BindArgs(shape, formals, args, o, i)
    decreases |args| - i
  {
    var o' := BindArgAsWritten(shape, formals, args, o, i);
    if o'.faulted {
      BindArgsAsWrittenAbsorbs(shape, formals, args, o', i + 1);
    } else if i < |args| {
      assert o' == BindArg(shape, formals, args, o, i);
      BindArgsAsWrittenAgreesWhenNoFault(shape, formals, args, o', i + 1);
    } else {
      assert BindArgsAsWritten(shape, formals, args, o', i + 1) == o';
    }
  }

  /**
   * A call that does not fault as written binds every pointer formal of the
   * enclosing function, up to the number of actuals, to the actual at its
   * position.
   */
  lemma CallAsWrittenBindsEnclosingFormals(shape: TreeShape, inst: Instruction)
    requires shape.Valid() && inst.kind.Call? && !inst.kind.isIntrinsic
    requires !CallSpecAsWritten(shape, inst).faulted
    ensures var formals, args := inst.parent.formals, inst.kind.args;
      forall k :: 0 <= k < |args| && k < |formals| && formals[k].isPointer ==>
        && formals[k].id in shape.roots && args[k].id in shape.roots
        && Emit(shape.roots[formals[k].id], Copy(shape.roots[args[k].id])) in CallSpecAsWritten(shape, inst).emits
  {
    var formals, args := inst.parent.formals, inst.kind.args;
    var bound := BindArgs(shape, formals, args, Nothing, 0);
    BindArgsMakesEveryBinding(shape, formals, args, Nothing, 0);
    assert bound.emits <= BindResult(shape, inst, inst.parent, bound).emits;
  }

  lemma {:induction false} BindArgsAsWrittenAbsorbs(shape: TreeShape, formals: seq<Value>, args: seq<Value>, o: Outcome, i: nat)
    requires shape.Valid() && i <= |args| + 1 && o.faulted
    ensures BindArgsAsWritten(shape, formals, args, o, i) == o
    decreases |args| + 1 - i
  {
    if i < |args| + 1 {
      BindArgsAsWrittenAbsorbs(shape, formals, args, BindArgAsWritten(shape, formals, args, o, i), i + 1);
    }
  }

  /**
   * The loop as written faults iff the enclosing function has no formal at
   * position `|args|` (the iteration for the callee operand), or that formal
   * is a pointer (then `getArgOperand(|args|)` is out of range), or some
   * pointer formal before it, or its actual, does not resolve.
   */
  lemma {:induction false} BindArgsAsWrittenFaults(shape: TreeShape, formals: seq<Value>, args: seq<Value>, o: Outcome, i: nat)
    requires shape.Valid() && i <= |args| && !o.faulted
    ensures BindArgsAsWritten(shape, formals, args, o, i).faulted <==>
      || |formals| <= |args| || formals[|args|].isPointer
      || exists k :: i <= k < |args| && formals[k].isPointer &&
                     (ResolvePointer(shape, formals[k].id).None? || ResolvePointer(shape, args[k].id).None?)
    decreases |args| - i
  {
    var o' := BindArgAsWritten(shape, formals, args, o, i);
    if o'.faulted {
      BindArgsAsWrittenAbsorbs(shape, formals, args, o', i + 1);
      if i < |formals| && i < |args| {
        assert formals[i].isPointer;
      }
    } else if i < |args| {
      BindArgsAsWrittenFaults(shape, formals, args, o', i + 1);
      if |args| < |formals| && !formals[|args|].isPointer {
        assert formals[i].isPointer ==>
          ResolvePointer(shape, formals[i].id).Some? && ResolvePointer(shape, args[i].id).Some?;
      }
    } else {
      assert BindArgsAsWritten(shape, formals, args, o', i + 1) == o';
    }
  }

  /**
   * As written, a call faults whenever the enclosing function has no more
   * formals than the call has actuals, or its formal at position `|args|` is
   * a pointer.
   */
  lemma CallAsWrittenFaultsWithoutSpareFormal(shape: TreeShape, inst: Instruction)
    requires shape.Valid() && inst.kind.Call? && !inst.kind.isIntrinsic
    requires |inst.parent.formals| <= |inst.kind.args| || inst.parent.formals[|inst.kind.args|].isPointer
    ensures CallSpecAsWritten(shape, inst).faulted
  {
    BindArgsAsWrittenFaults(shape, inst.parent.formals, inst.kind.args, Nothing, 0);
  }

  /**
   * As written, a call inside a function with no formal arguments faults on
   * its first operand, whatever it calls.
   */
  lemma CallAsWrittenFaultsInFunctionWithoutFormals(shape: TreeShape, inst: Instruction)
    requires shape.Valid() && inst.kind.Call? && !inst.kind.isIntrinsic && inst.parent.formals == []
    ensures CallSpecAsWritten(shape, inst).faulted && CallSpecAsWritten(shape, inst).emits == []
  {
    var args := inst.kind.args;
    var o := BindArgAsWritten(shape, [], args, Nothing, 0);
    assert o == Outcome([], true);
    BindArgsAsWrittenAbsorbs(shape, [], args, o, 1);
  }

  /** A small tree: two pointer-typed value roots, for a formal `p` (value 2) and an actual `a` (value 3). */
  function TwoPointerShape(): TreeShape {
    TreeShape([ValueRoot(2), ValueRoot(3)], map[2 := 0, 3 := 1], map[], map[], map[], map[])
  }

  /** A pointer-typed root node for the value `v`, with no children. */
  function ValueRoot(v: ValueId): Node {
    Node(Normal, Some(v), None, 0, [], true, false, false)
  }

  /** `main()` (value 0, no formals) calls `f(p)` (value 1) with actual `a`. */
  function MainCallsF(): Instruction {
    Instruction(Value(4, false), Function(0, [], false),
                Call(false, Some(Function(1, [Value(2, true)], false)), [Value(3, true)]))
  }

  lemma TwoPointerShapeIsValid()
    ensures TwoPointerShape().Valid()
  {
    TwoPointerArenaIsWellFormed();
    TwoPointerRootsAreIndexed();
  }

  lemma TwoPointerArenaIsWellFormed()
    ensures WellFormed(TwoPointerShape().nodes)
  {
    RootsOnlyAreWellFormed(TwoPointerShape().nodes);
  }

  lemma TwoPointerRootsAreIndexed()
    ensures IndexesRoots(TwoPointerShape().nodes, TwoPointerShape().roots, Normal)
  {
    assert TwoPointerShape().roots.Keys == {2, 3};
  }

  /** The corrected handler binds `f`'s formal `p` to the actual `a`. */
  lemma CorrectedCallBindsFormalOfCallee()
    ensures TwoPointerShape().Valid()
    ensures CallSpec(TwoPointerShape(), MainCallsF()) == Outcome([Emit(0, Copy(1))], false)
  {
    var shape := TwoPointerShape();
    TwoPointerShapeIsValid();
    var formals, args := [Value(2, true)], [Value(3, true)];
    assert ResolvePointer(shape, 2) == Some(0);
    assert ResolvePointer(shape, 3) == Some(1);
    var o := BindArg(shape, formals, args, Nothing, 0);
    assert o == Outcome([Emit(0, Copy(1))], false);
    assert BindArgs(shape, formals, args, Nothing, 0) == BindArgs(shape, formals, args, o, 1) == o;
  }

  /**
   * For `main()` calling `f(a)`: as written the handler faults before adding
   * anything; the corrected handler records `p = a`.
   */
  lemma CallAsWrittenCounterexample()
    ensures TwoPointerShape().Valid()
    ensures && CallSpecAsWritten(TwoPointerShape(), MainCallsF()) == Outcome([], true)
            && CallSpec(TwoPointerShape(), MainCallsF()) == Outcome([Emit(0, Copy(1))], false)
  {
    CorrectedCallBindsFormalOfCallee();
    CallAsWrittenFaultsInFunctionWithoutFormals(TwoPointerShape(), MainCallsF());
  }

  /**
   * The corrected call handler: nothing for intrinsic or indirect calls;
   * otherwise every pointer formal of the callee is bound to its actual,
   * and a pointer result to the callee's return value, and nothing else is
   * added.
   */
  lemma CallBindsFormalsAndResult(shape: TreeShape, inst: Instruction)
    requires shape.Valid() && inst.kind.Call?
    ensures var r := CallSpec(shape, inst);
      && AllWellTyped(shape, r.emits)
      && (inst.kind.isIntrinsic || inst.kind.callee.None? ==> r == Nothing)
      && (!inst.kind.isIntrinsic && inst.kind.callee.Some? ==>
            var f := inst.kind.callee.value;
            var args := inst.kind.args;
            (r.faulted <==>
               || (exists k :: 0 <= k < |args| && k < |f.formals| && f.formals[k].isPointer &&
                     (ResolvePointer(shape, f.formals[k].id).None? || ResolvePointer(shape, args[k].id).None?))
               || (f.returnsPointer &&
                     (ResolveReturnSlot(shape, f.id).None? || ResolvePointer(shape, inst.result.id).None?))))
      && (!inst.kind.isIntrinsic && inst.kind.callee.Some? && !r.faulted ==>
            var f := inst.kind.callee.value;
            var args := inst.kind.args;
            && (forall k :: 0 <= k < |args| && k < |f.formals| && f.formals[k].isPointer ==>
                  && f.formals[k].id in shape.roots && args[k].id in shape.roots
                  && Emit(shape.roots[f.formals[k].id], Copy(shape.roots[args[k].id])) in r.emits)
            && (f.returnsPointer ==>
                  Emit(shape.roots[inst.result.id], Copy(shape.returnValueRoots[f.id])) in r.emits)
            && (forall e :: e in r.emits ==>
                  (exists k :: 0 <= k && IsBinding(shape, f.formals, args, k, e)) ||
                  (f.returnsPointer && e == Emit(shape.roots[inst.result.id], Copy(shape.returnValueRoots[f.id])))))
  {
    if !inst.kind.isIntrinsic && inst.kind.callee.Some? {
      var f := inst.kind.callee.value;
      BindArgsBindsPointerFormals(shape, f.formals, inst.kind.args, Nothing, 0);
    }
  }

  // ---------------------------------------------------------------- ExtractValue

  /** `GetChild(index)` once per index, in order; `None` when an index is out of range. */
  function Descend(a: Arena, n: NodeId, indices: seq<nat>): (r: Option<NodeId>)
    requires WellFormed(a) && n < |a|
    ensures r.Some? ==> n <= r.value < |a| && RootOf(a, r.value) == RootOf(a, n)
    ensures indices == [] ==> r == Some(n)
    decreases |indices|
  {
    if indices == [] then Some(n)
    else match GetChild(a, n, indices[0])
      case None => None
      case Some(c) => Descend(a, c, indices[1..])
  }

  /** A descent splits at any point into two descents. */
  lemma {:induction false} DescendAppend(a: Arena, n: NodeId, xs: seq<nat>, ys: seq<nat>)
    requires WellFormed(a) && n < |a|
    ensures Descend(a, n, xs + ys) == match Descend(a, n, xs) case None => None case Some(m) => Descend(a, m, ys)
    decreases |xs|
  {
    if xs == [] {
      assert xs + ys == ys;
    } else {
      assert (xs + ys)[0] == xs[0] && (xs + ys)[1..] == xs[1..] + ys;
      match GetChild(a, n, xs[0])
      case None =>
      case Some(c) => DescendAppend(a, c, xs[1..], ys);
    }
  }

  /** `r = extractvalue agg, i...`: a pointer result records `r = s`, `s` the sub-object reached. */
  function ExtractValueSpec(shape: TreeShape, inst: Instruction): (r: Outcome)
    requires shape.Valid() && inst.kind.ExtractValue?
    ensures AllWellTyped(shape, r.emits)
    ensures !inst.result.isPointer ==> r == Nothing
    ensures inst.result.isPointer ==>
      (r.faulted <==>
         || ResolvePointer(shape, inst.result.id).None?
         || inst.kind.aggregate.id !in shape.roots
         || var s := Descend(shape.nodes, shape.roots[inst.kind.aggregate.id], inst.kind.fieldIndices);
            s.None? || !IsPointerNode(shape, s.value))
    ensures inst.result.isPointer && !r.faulted ==>
      && inst.kind.aggregate.id in shape.roots && inst.result.id in shape.roots
      && var s := Descend(shape.nodes, shape.roots[inst.kind.aggregate.id], inst.kind.fieldIndices);
      && s.Some? && IsPointerNode(shape, s.value)
      && RootOf(shape.nodes, s.value) == shape.roots[inst.kind.aggregate.id]
      && r.emits == [Emit(shape.roots[inst.result.id], Copy(s.value))]
    ensures r.faulted ==> r.emits == []
  {
    if !inst.result.isPointer then Nothing
    else match ResolvePointer(shape, inst.result.id)
      case None => Outcome([], true)
      case Some(t) =>
        match shape.GetValueNode(inst.kind.aggregate.id)
        case None => Outcome([], true)
        case Some(src) =>
          match Descend(shape.nodes, src, inst.kind.fieldIndices)
          case None => Outcome([], true)
          case Some(s) =>
            if shape.nodes[s].isPointerType then Outcome([Emit(t, Copy(s))], false) else Outcome([], true)
  }

  // ---------------------------------------------------------------- GetElementPtr

  /** `getZExtValue()` asserts that the constant's value fits in 64 bits. */
  predicate ZExtFits(g: GepIndex) {
    g.NonConstant? || g.value < SizeModulus
  }

  /**
   * A GEP index as a `PointerIndex`: a constant keeps its value, anything
   * else is dynamic; `None` when `getZExtValue()` fails on a constant too
   * wide for 64 bits.
   */
  function ToPointerIndex(g: GepIndex): (p: Option<PointerIndex>)
    ensures p.None? <==> !ZExtFits(g)
    ensures g.ConstantInt? && ZExtFits(g) ==> p == Some(ConstantIndex(g.value))
    ensures g.NonConstant? ==> p.Some? && p.value.IsDynamic()
  {
    match g
    case ConstantInt(v) => if v < SizeModulus then Some(ConstantIndex(v)) else None
    case NonConstant => Some(DefaultIndex())
  }

  /**
   * The index sequence of a GEP: one entry per index, in order; `None` when
   * some constant index is too wide for `getZExtValue()`.
   */
  function IndexSequence(indices: seq<GepIndex>): (r: Option<seq<PointerIndex>>)
    ensures r.None? <==> exists k :: 0 <= k < |indices| && !ZExtFits(indices[k])
    ensures r.Some? ==> |r.value| == |indices|
    ensures r.Some? ==> forall k :: 0 <= k < |indices| && indices[k].NonConstant? ==> r.value[k].IsDynamic()
    ensures r.Some? ==> forall k :: 0 <= k < |indices| && indices[k].ConstantInt? && indices[k].value != DynamicIndex ==>
      r.value[k].IsConstant() && r.value[k].index == indices[k].value
  {
    if forall k :: 0 <= k < |indices| ==> ZExtFits(indices[k]) then
      Some(seq(|indices|, k requires 0 <= k < |indices| => ToPointerIndex(indices[k]).value))
    else None
  }

  /**
   * A constant index whose zero-extended value is `2^64 - 1` (an `i64 -1`,
   * say) reads back as dynamic: the two cannot be told apart.
   */
  lemma AllOnesConstantReadsAsDynamic()
    ensures IndexSequence([ConstantInt(SizeModulus - 1)]) == IndexSequence([NonConstant])
  {
    var allOnes, dynamic := IndexSequence([ConstantInt(SizeModulus - 1)]), IndexSequence([NonConstant]);
    assert ZExtFits(ConstantInt(SizeModulus - 1));
    assert allOnes.value == [DefaultIndex()];
    assert dynamic.value == [DefaultIndex()];
  }

  /**
   * `r = getelementptr s, i...`: the result records `r = &s[i...]`. It faults
   * iff either side does not resolve or some constant index is too wide for
   * `getZExtValue()`.
   */
  function GetElementPtrSpec(shape: TreeShape, inst: Instruction): (r: Outcome)
    requires shape.Valid() && inst.kind.GetElementPtr?
    ensures AllWellTyped(shape, r.emits)
    ensures r.faulted <==>
      || ResolvePointer(shape, inst.result.id).None? || ResolvePointer(shape, inst.kind.pointerOperand.id).None?
      || IndexSequence(inst.kind.indices).None?
    ensures r.faulted ==> r.emits == []
    ensures !r.faulted ==> r.emits == [Emit(shape.roots[inst.result.id],
      PointerAssignedElementPtr(shape.roots[inst.kind.pointerOperand.id], IndexSequence(inst.kind.indices).value))]
  {
    match ResolvePointer(shape, inst.result.id)
    case None => Outcome([], true)
    case Some(t) =>
      match ResolvePointer(shape, inst.kind.pointerOperand.id)
      case None => Outcome([], true)
      case Some(s) =>
        match IndexSequence(inst.kind.indices)
        case None => Outcome([], true)
        case Some(indexSequence) => Outcome([Emit(t, PointerAssignedElementPtr(s, indexSequence))], false)
  }

  /** An `i128` index of value `2^64` faults the GEP handler, whatever its operands. */
  lemma WideConstantIndexFaults(shape: TreeShape, inst: Instruction)
    requires shape.Valid() && inst.kind.GetElementPtr? && ConstantInt(SizeModulus) in inst.kind.indices
    ensures GetElementPtrSpec(shape, inst) == Outcome([], true)
  {
    var k :| 0 <= k < |inst.kind.indices| && inst.kind.indices[k] == ConstantInt(SizeModulus);
    assert !ZExtFits(inst.kind.indices[k]);
  }

  // ---------------------------------------------------------------- Load

  /** `r = load s`: a pointer result records `r = *s`; any other load adds nothing. */
  function LoadSpec(shape: TreeShape, inst: Instruction): (r: Outcome)
    requires shape.Valid() && inst.kind.Load?
    ensures AllWellTyped(shape, r.emits)
    ensures !inst.result.isPointer ==> r == Nothing
    ensures inst.result.isPointer ==>
      (r.faulted <==> ResolvePointer(shape, inst.result.id).None? || ResolvePointer(shape, inst.kind.pointerOperand.id).None?)
    ensures r.faulted ==> r.emits == []
    ensures inst.result.isPointer && !r.faulted ==>
      r.emits == [Emit(shape.roots[inst.result.id], PointerAssignedPointee(shape.roots[inst.kind.pointerOperand.id]))]
  {
    if !inst.result.isPointer then Nothing
    else match (ResolvePointer(shape, inst.result.id), ResolvePointer(shape, inst.kind.pointerOperand.id))
      case (Some(t), Some(s)) => Outcome([Emit(t, PointerAssignedPointee(s))], false)
      case _ => Outcome([], true)
  }

  // ---------------------------------------------------------------- PHI and Select

  /** `target = v` for each of `vs[i..]`, in order. */
  function CopyEach(shape: TreeShape, target: NodeId, vs: seq<Value>, o: Outcome, i: nat): (r: Outcome)
    requires shape.Valid() && i <= |vs|
    decreases |vs| - i
  {
    if i == |vs| then o
    else CopyEach(shape, target, vs, Then(o, CopyInto(shape, target, vs[i].id)), i + 1)
  }

  lemma {:induction false} CopyEachAbsorbs(shape: TreeShape, target: NodeId, vs: seq<Value>, o: Outcome, i: nat)
    requires shape.Valid() && i <= |vs| && o.faulted
    ensures CopyEach(shape, target, vs, o, i) == o
    decreases |vs| - i
  {
    if i < |vs| {
      CopyEachAbsorbs(shape, target, vs, Then(o, CopyInto(shape, target, vs[i].id)), i + 1);
    }
  }

  /** `CopyEach` faults iff some value does not resolve, after one call per value before the first such one. */
  lemma {:induction false} CopyEachFaults(shape: TreeShape, target: NodeId, vs: seq<Value>, o: Outcome, i: nat)
    requires shape.Valid() && i <= |vs| && !o.faulted
    ensures var r := CopyEach(shape, target, vs, o, i);
      && (r.faulted <==> exists k :: i <= k < |vs| && ResolvePointer(shape, vs[k].id).None?)
      && (r.faulted ==>
            exists j :: && i <= j < |vs| && ResolvePointer(shape, vs[j].id).None?
                        && (forall k :: i <= k < j ==> ResolvePointer(shape, vs[k].id).Some?)
                        && |r.emits| == |o.emits| + j - i)
    decreases |vs| - i
  {
    if i < |vs| {
      var o' := Then(o, CopyInto(shape, target, vs[i].id));
      assert ResolvePointer(shape, vs[i].id).None? <==> o'.faulted;
      if o'.faulted {
        CopyEachAbsorbs(shape, target, vs, o', i + 1);
        assert |o'.emits| == |o.emits| + i - i;
      } else {
        CopyEachFaults(shape, target, vs, o', i + 1);
        var r := CopyEach(shape, target, vs, o', i + 1);
        if r.faulted {
          var j :| && i + 1 <= j < |vs| && ResolvePointer(shape, vs[j].id).None?
                   && (forall k :: i + 1 <= k < j ==> ResolvePointer(shape, vs[k].id).Some?)
                   && |r.emits| == |o'.emits| + j - (i + 1);
          assert forall k :: i <= k < j ==> ResolvePointer(shape, vs[k].id).Some?;
        }
      }
    }
  }

  /** Every call `CopyEach` adds targets a pointer node and copies from one. */
  lemma {:induction false} CopyEachWellTyped(shape: TreeShape, target: NodeId, vs: seq<Value>, o: Outcome, i: nat)
    requires shape.Valid() && i <= |vs|
    requires IsPointerNode(shape, target) && AllWellTyped(shape, o.emits)
    ensures AllWellTyped(shape, CopyEach(shape, target, vs, o, i).emits)
    decreases |vs| - i
  {
    if i < |vs| {
      ThenWellTyped(shape, o, CopyInto(shape, target, vs[i].id));
      CopyEachWellTyped(shape, target, vs, Then(o, CopyInto(shape, target, vs[i].id)), i + 1);
    }
  }

  /** Without a fault, `CopyEach` appends `target = v` for each value, in order. */
  lemma {:induction false} CopyEachEmits(shape: TreeShape, target: NodeId, vs: seq<Value>, o: Outcome, i: nat)
    requires shape.Valid() && i <= |vs| && !o.faulted
    ensures var r := CopyEach(shape, target, vs, o, i);
      !r.faulted ==>
        && |r.emits| == |o.emits| + |vs| - i
        && r.emits[..|o.emits|] == o.emits
        && forall k :: i <= k < |vs| ==> Some(r.emits[|o.emits| + k - i]) == CopyInto(shape, target, vs[k].id)
    decreases |vs| - i
  {
    if i < |vs| {
      var o' := Then(o, CopyInto(shape, target, vs[i].id));
      if o'.faulted {
        CopyEachAbsorbs(shape, target, vs, o', i + 1);
      } else {
        CopyEachEmits(shape, target, vs, o', i + 1);
        var r := CopyEach(shape, target, vs, o, i);
        if !r.faulted {
          assert r.emits[..|o'.emits|] == o'.emits;
          assert r.emits[..|o.emits|] == o'.emits[..|o.emits|];
          assert r.emits[|o.emits|] == o'.emits[|o.emits|];
        }
      }
    }
  }

  /**
   * `CopyEach` makes exactly one call per value, in order, each recording
   * `target = v`; it faults iff some value does not resolve to a pointer,
   * and then keeps the calls for the values before the first such one.
   */
  lemma CopyEachOnePerValue(shape: TreeShape, target: NodeId, vs: seq<Value>, o: Outcome, i: nat)
    requires shape.Valid() && i <= |vs| && !o.faulted
    requires IsPointerNode(shape, target) && AllWellTyped(shape, o.emits)
    ensures var r := CopyEach(shape, target, vs, o, i);
      && AllWellTyped(shape, r.emits)
      && (r.faulted <==> exists k :: i <= k < |vs| && ResolvePointer(shape, vs[k].id).None?)
      && (!r.faulted ==>
            && |r.emits| == |o.emits| + |vs| - i
            && r.emits[..|o.emits|] == o.emits
            && forall k :: i <= k < |vs| ==> r.emits[|o.emits| + k - i] == Emit(target, Copy(shape.roots[vs[k].id])))
      && (r.faulted ==>
            exists j :: && i <= j < |vs| && ResolvePointer(shape, vs[j].id).None?
                        && (forall k :: i <= k < j ==> ResolvePointer(shape, vs[k].id).Some?)
                        && |r.emits| == |o.emits| + j - i)
  {
    CopyEachFaults(shape, target, vs, o, i);
    CopyEachWellTyped(shape, target, vs, o, i);
    CopyEachEmits(shape, target, vs, o, i);
  }

  /** `r = phi v...`: a pointer result records `r = v` for every incoming value. */
  function PhiSpec(shape: TreeShape, inst: Instruction): (r: Outcome)
    requires shape.Valid() && inst.kind.Phi?
  {
    if !inst.result.isPointer then Nothing
    else match ResolvePointer(shape, inst.result.id)
      case None => Outcome([], true)
      case Some(t) => CopyEach(shape, t, inst.kind.incoming, Nothing, 0)
  }

  /** `r = select c, t, f`: a pointer result records `r = t` and then `r = f`. */
  function SelectSpec(shape: TreeShape, inst: Instruction): (r: Outcome)
    requires shape.Valid() && inst.kind.Select?
  {
    if !inst.result.isPointer then Nothing
    else match ResolvePointer(shape, inst.result.id)
      case None => Outcome([], true)
      case Some(t) => CopyEach(shape, t, [inst.kind.trueValue, inst.kind.falseValue], Nothing, 0)
  }

  /** A pointer PHI faults iff its result or one of its incoming values does not resolve to a pointer. */
  lemma PhiFaults(shape: TreeShape, inst: Instruction)
    requires shape.Valid() && inst.kind.Phi? && inst.result.isPointer
    ensures PhiSpec(shape, inst).faulted <==>
      || ResolvePointer(shape, inst.result.id).None?
      || exists k :: 0 <= k < |inst.kind.incoming| && ResolvePointer(shape, inst.kind.incoming[k].id).None?
  {
    match ResolvePointer(shape, inst.result.id)
    case None =>
    case Some(t) => CopyEachFaults(shape, t, inst.kind.incoming, Nothing, 0);
  }

  /**
   * PHI adds exactly one `AssignedPointer` per incoming value, in order, and
   * nothing for a non-pointer result; a pointer PHI faults iff its result or
   * one of its incoming values does not resolve.
   */
  lemma PhiOnePerIncoming(shape: TreeShape, inst: Instruction)
    requires shape.Valid() && inst.kind.Phi?
    ensures var r := PhiSpec(shape, inst);
      && AllWellTyped(shape, r.emits)
      && (!inst.result.isPointer ==> r == Nothing)
      && (inst.result.isPointer ==>
            (r.faulted <==> ResolvePointer(shape, inst.result.id).None? ||
                            exists k :: 0 <= k < |inst.kind.incoming| && ResolvePointer(shape, inst.kind.incoming[k].id).None?))
      && (inst.result.isPointer && !r.faulted ==>
            var vs := inst.kind.incoming;
            && |r.emits| == |vs|
            && forall k :: 0 <= k < |vs| ==>
                 vs[k].id in shape.roots && r.emits[k] == Emit(shape.roots[inst.result.id], Copy(shape.roots[vs[k].id])))
  {
    if inst.result.isPointer {
      PhiFaults(shape, inst);
      match ResolvePointer(shape, inst.result.id)
      case None =>
      case Some(t) =>
        CopyEachWellTyped(shape, t, inst.kind.incoming, Nothing, 0);
        CopyEachEmits(shape, t, inst.kind.incoming, Nothing, 0);
    }
  }

  /** Select adds exactly two: the true operand, then the false operand. */
  lemma SelectAddsTwo(shape: TreeShape, inst: Instruction)
    requires shape.Valid() && inst.kind.Select?
    ensures var r := SelectSpec(shape, inst);
      && AllWellTyped(shape, r.emits)
      && (!inst.result.isPointer ==> r == Nothing)
      && (inst.result.isPointer ==>
            (r.faulted <==> || ResolvePointer(shape, inst.result.id).None?
                            || ResolvePointer(shape, inst.kind.trueValue.id).None?
                            || ResolvePointer(shape, inst.kind.falseValue.id).None?))
      && (inst.result.isPointer && !r.faulted ==>
            && inst.kind.trueValue.id in shape.roots && inst.kind.falseValue.id in shape.roots
            && r.emits == [Emit(shape.roots[inst.result.id], Copy(shape.roots[inst.kind.trueValue.id])),
                        Emit(shape.roots[inst.result.id], Copy(shape.roots[inst.kind.falseValue.id]))])
  {
    if inst.result.isPointer {
      match ResolvePointer(shape, inst.result.id)
      case None =>
      case Some(t) => CopyEachOnePerValue(shape, t, [inst.kind.trueValue, inst.kind.falseValue], Nothing, 0);
    }
  }

  // ---------------------------------------------------------------- Return

  /** `ret v`: a pointer `v` is copied into the return-value node of the enclosing function. */
  function ReturnSpec(shape: TreeShape, inst: Instruction): (r: Outcome)
    requires shape.Valid() && inst.kind.Return?
    ensures AllWellTyped(shape, r.emits)
    ensures r.faulted ==> r.emits == []
    ensures inst.kind.returnValue.None? || !inst.kind.returnValue.value.isPointer ==> r == Nothing
    ensures inst.kind.returnValue.Some? && inst.kind.returnValue.value.isPointer ==>
      (r.faulted <==> ResolveReturnSlot(shape, inst.parent.id).None? ||
                      ResolvePointer(shape, inst.kind.returnValue.value.id).None?)
    ensures inst.kind.returnValue.Some? && !r.faulted && r != Nothing ==>
      r.emits == [Emit(shape.returnValueRoots[inst.parent.id], Copy(shape.roots[inst.kind.returnValue.value.id]))]
  {
    match inst.kind.returnValue
    case None => Nothing
    case Some(v) => ReturnValueSpec(shape, inst.parent, v)
  }

  function ReturnValueSpec(shape: TreeShape, f: Function, v: Value): (r: Outcome)
    requires shape.Valid()
    ensures AllWellTyped(shape, r.emits)
  {
    if !v.isPointer then Nothing
    else match ResolveReturnSlot(shape, f.id)
      case None => Outcome([], true)
      case Some(ret) => Then(Nothing, CopyInto(shape, ret, v.id))
  }

  /** The return handler as written: `getReturnValue()` is dereferenced even for `ret void`. */
  function ReturnSpecAsWritten(shape: TreeShape, inst: Instruction): (r: Outcome)
    requires shape.Valid() && inst.kind.Return?
    ensures AllWellTyped(shape, r.emits)
    ensures inst.kind.returnValue.None? ==> r == Outcome([], true)
    ensures inst.kind.returnValue.Some? ==> r == ReturnSpec(shape, inst)
  {
    match inst.kind.returnValue
    case None => Outcome([], true)
    case Some(v) => ReturnValueSpec(shape, inst.parent, v)
  }

  /** As written, every `ret void` faults; the corrected handler adds nothing for it. */
  lemma ReturnVoidAsWrittenFaults(shape: TreeShape, f: Function, result: Value)
    requires shape.Valid()
    ensures ReturnSpecAsWritten(shape, Instruction(result, f, Return(None))).faulted
    ensures ReturnSpec(shape, Instruction(result, f, Return(None))) == Nothing
  {
  }

  // ---------------------------------------------------------------- Store

  /** `store v, p`: a pointer `v` records `*p = v`; storing any other value adds nothing. */
  function StoreSpec(shape: TreeShape, inst: Instruction): (r: Outcome)
    requires shape.Valid() && inst.kind.Store?
    ensures AllWellTyped(shape, r.emits)
    ensures !inst.kind.valueOperand.isPointer ==> r == Nothing
    ensures inst.kind.valueOperand.isPointer ==>
      (r.faulted <==> ResolvePointer(shape, inst.kind.pointerOperand.id).None? ||
                      ResolvePointer(shape, inst.kind.valueOperand.id).None?)
    ensures r.faulted ==> r.emits == []
    ensures inst.kind.valueOperand.isPointer && !r.faulted ==>
      r.emits == [Emit(shape.roots[inst.kind.pointerOperand.id], PointeeAssignedPointer(shape.roots[inst.kind.valueOperand.id]))]
  {
    if !inst.kind.valueOperand.isPointer then Nothing
    else StoreOperandsSpec(shape, inst.kind.valueOperand, inst.kind.pointerOperand)
  }

  function StoreOperandsSpec(shape: TreeShape, value: Value, pointer: Value): (r: Outcome)
    requires shape.Valid()
    ensures AllWellTyped(shape, r.emits)
  {
    match (ResolvePointer(shape, pointer.id), ResolvePointer(shape, value.id))
    case (Some(t), Some(s)) => Outcome([Emit(t, PointeeAssignedPointer(s))], false)
    case _ => Outcome([], true)
  }

  /** The store handler as written: it tests the type of the pointer operand, not of the stored value. */
  function StoreSpecAsWritten(shape: TreeShape, inst: Instruction): (r: Outcome)
    requires shape.Valid() && inst.kind.Store?
    ensures AllWellTyped(shape, r.emits)
    ensures inst.kind.pointerOperand.isPointer && inst.kind.valueOperand.isPointer ==> r == StoreSpec(shape, inst)
    ensures inst.kind.pointerOperand.isPointer ==>
      (r.faulted <==> ResolvePointer(shape, inst.kind.pointerOperand.id).None? ||
                      ResolvePointer(shape, inst.kind.valueOperand.id).None?)
  {
    if !inst.kind.pointerOperand.isPointer then Nothing
    else StoreOperandsSpec(shape, inst.kind.valueOperand, inst.kind.pointerOperand)
  }

  /**
   * As written, storing a non-pointer value through a pointer faults
   * whenever the stored value has no pointer node (a constant, an integer);
   * the corrected handler adds nothing for it.
   */
  lemma StoreOfNonPointerAsWrittenFaults(shape: TreeShape, inst: Instruction)
    requires shape.Valid() && inst.kind.Store?
    requires inst.kind.pointerOperand.isPointer && !inst.kind.valueOperand.isPointer
    requires ResolvePointer(shape, inst.kind.valueOperand.id).None?
    ensures StoreSpecAsWritten(shape, inst).faulted
    ensures StoreSpec(shape, inst) == Nothing
  {
  }

  // ---------------------------------------------------------------- Dispatch

  /**
   * Which handlers run for `call`, `ret` and `store`: those of the source as
   * written, or the corrected ones that bind the callee's formals, add
   * nothing for `ret void` and test the stored value's type.
   */
  datatype Variant = AsWritten | Corrected

  /** `UpdateAndersonSolverOnInst`: the handler of the instruction's kind; nothing for any other kind. */
  function Dispatch(shape: TreeShape, variant: Variant, inst: Instruction): (r: Outcome)
    requires shape.Valid()
    ensures AllWellTyped(shape, r.emits)
    ensures inst.kind.Other? ==> r == Nothing
  {
    match inst.kind
    case Alloca => AllocaSpec(shape, inst)
    case Call(_, _, _) =>
      if variant.AsWritten? then CallSpecAsWritten(shape, inst)
      else
        CallBindsFormalsAndResult(shape, inst);
        CallSpec(shape, inst)
    case ExtractValue(_, _) => ExtractValueSpec(shape, inst)
    case GetElementPtr(_, _) => GetElementPtrSpec(shape, inst)
    case Load(_) => LoadSpec(shape, inst)
    case Phi(_) =>
      PhiOnePerIncoming(shape, inst);
      PhiSpec(shape, inst)
    case Return(_) => if variant.AsWritten? then ReturnSpecAsWritten(shape, inst) else ReturnSpec(shape, inst)
    case Select(_, _) =>
      SelectAddsTwo(shape, inst);
      SelectSpec(shape, inst)
    case Store(_, _) => if variant.AsWritten? then StoreSpecAsWritten(shape, inst) else StoreSpec(shape, inst)
    case Other => Nothing
  }

  /** The two variants differ only on calls, `ret` and stores. */
  lemma VariantsAgreeOffCallReturnStore(shape: TreeShape, inst: Instruction)
    requires shape.Valid() && !inst.kind.Call? && !inst.kind.Return? && !inst.kind.Store?
    ensures Dispatch(shape, AsWritten, inst) == Dispatch(shape, Corrected, inst)
  {
  }

  // ---------------------------------------------------------------- runOnModule

  /** One instruction after `o`; nothing once a handler has faulted. */
  function Step(shape: TreeShape, variant: Variant, o: Outcome, inst: Instruction): (r: Outcome)
    requires shape.Valid()
    ensures o.faulted ==> r == o
    ensures AllWellTyped(shape, o.emits) ==> AllWellTyped(shape, r.emits)
    ensures o.emits <= r.emits
  {
    if o.faulted then o
    else
      var d := Dispatch(shape, variant, inst);
      Outcome(o.emits + d.emits, d.faulted)
  }

  function RunInstructions(shape: TreeShape, variant: Variant, o: Outcome, insts: seq<Instruction>): (r: Outcome)
    requires shape.Valid()
    ensures AllWellTyped(shape, o.emits) ==> AllWellTyped(shape, r.emits)
    ensures o.emits <= r.emits
    decreases |insts|
  {
    if insts == [] then o else RunInstructions(shape, variant, Step(shape, variant, o, insts[0]), insts[1..])
  }

  function RunBlocks(shape: TreeShape, variant: Variant, o: Outcome, blocks: seq<seq<Instruction>>): (r: Outcome)
    requires shape.Valid()
    ensures AllWellTyped(shape, o.emits) ==> AllWellTyped(shape, r.emits)
    ensures o.emits <= r.emits
    decreases |blocks|
  {
    if blocks == [] then o else RunBlocks(shape, variant, RunInstructions(shape, variant, o, blocks[0]), blocks[1..])
  }

  /** The translation of a module: functions, blocks and instructions in order, stopping at the first fault. */
  function RunFunctions(shape: TreeShape, variant: Variant, o: Outcome, functions: Module): (r: Outcome)
    requires shape.Valid()
    ensures AllWellTyped(shape, o.emits) ==> AllWellTyped(shape, r.emits)
    ensures o.emits <= r.emits
    decreases |functions|
  {
    if functions == [] then o else RunFunctions(shape, variant, RunBlocks(shape, variant, o, functions[0]), functions[1..])
  }

  lemma {:induction false} RunInstructionsAbsorbs(shape: TreeShape, variant: Variant, o: Outcome, insts: seq<Instruction>)
    requires shape.Valid() && o.faulted
    ensures RunInstructions(shape, variant, o, insts) == o
    decreases |insts|
  {
    if insts != [] {
      RunInstructionsAbsorbs(shape, variant, Step(shape, variant, o, insts[0]), insts[1..]);
    }
  }

  lemma {:induction false} RunBlocksAbsorbs(shape: TreeShape, variant: Variant, o: Outcome, blocks: seq<seq<Instruction>>)
    requires shape.Valid() && o.faulted
    ensures RunBlocks(shape, variant, o, blocks) == o
    decreases |blocks|
  {
    if blocks != [] {
      RunInstructionsAbsorbs(shape, variant, o, blocks[0]);
      RunBlocksAbsorbs(shape, variant, RunInstructions(shape, variant, o, blocks[0]), blocks[1..]);
    }
  }

  lemma {:induction false} RunFunctionsAbsorbs(shape: TreeShape, variant: Variant, o: Outcome, functions: Module)
    requires shape.Valid() && o.faulted
    ensures RunFunctions(shape, variant, o, functions) == o
    decreases |functions|
  {
    if functions != [] {
      RunBlocksAbsorbs(shape, variant, o, functions[0]);
      RunFunctionsAbsorbs(shape, variant, RunBlocks(shape, variant, o, functions[0]), functions[1..]);
    }
  }

  /** The handler of some instruction of `insts` faults. */
  ghost predicate SomeInstructionFaults(shape: TreeShape, variant: Variant, insts: seq<Instruction>)
    requires shape.Valid()
  {
    exists i :: 0 <= i < |insts| && Dispatch(shape, variant, insts[i]).faulted
  }

  ghost predicate SomeBlockFaults(shape: TreeShape, variant: Variant, blocks: seq<seq<Instruction>>)
    requires shape.Valid()
  {
    exists b :: 0 <= b < |blocks| && SomeInstructionFaults(shape, variant, blocks[b])
  }

  ghost predicate SomeFunctionFaults(shape: TreeShape, variant: Variant, functions: Module)
    requires shape.Valid()
  {
    exists f :: 0 <= f < |functions| && SomeBlockFaults(shape, variant, functions[f])
  }

  /** A run over instructions faults iff it started faulted or the handler of one of them faults. */
  lemma {:induction false} RunInstructionsFaults(shape: TreeShape, variant: Variant, o: Outcome, insts: seq<Instruction>)
    requires shape.Valid()
    ensures RunInstructions(shape, variant, o, insts).faulted <==> o.faulted || SomeInstructionFaults(shape, variant, insts)
    decreases |insts|
  {
    if insts != [] {
      var rest := insts[1..];
      RunInstructionsFaults(shape, variant, Step(shape, variant, o, insts[0]), rest);
      if SomeInstructionFaults(shape, variant, rest) {
        var i :| 0 <= i < |rest| && Dispatch(shape, variant, rest[i]).faulted;
        assert insts[i + 1] == rest[i];
      }
      if SomeInstructionFaults(shape, variant, insts) {
        var i :| 0 <= i < |insts| && Dispatch(shape, variant, insts[i]).faulted;
        if i > 0 {
          assert rest[i - 1] == insts[i];
        }
      }
    }
  }

  /** A run over blocks faults iff it started faulted or the handler of one of their instructions faults. */
  lemma {:induction false} RunBlocksFaults(shape: TreeShape, variant: Variant, o: Outcome, blocks: seq<seq<Instruction>>)
    requires shape.Valid()
    ensures RunBlocks(shape, variant, o, blocks).faulted <==> o.faulted || SomeBlockFaults(shape, variant, blocks)
    decreases |blocks|
  {
    if blocks != [] {
      var rest := blocks[1..];
      RunInstructionsFaults(shape, variant, o, blocks[0]);
      RunBlocksFaults(shape, variant, RunInstructions(shape, variant, o, blocks[0]), rest);
      if SomeBlockFaults(shape, variant, rest) {
        var b :| 0 <= b < |rest| && SomeInstructionFaults(shape, variant, rest[b]);
        assert blocks[b + 1] == rest[b];
      }
      if SomeBlockFaults(shape, variant, blocks) {
        var b :| 0 <= b < |blocks| && SomeInstructionFaults(shape, variant, blocks[b]);
        if b > 0 {
          assert rest[b - 1] == blocks[b];
        }
      }
    }
  }

  /** A module run faults iff it started faulted or the handler of one of its instructions faults. */
  lemma {:induction false} RunFunctionsFaults(shape: TreeShape, variant: Variant, o: Outcome, functions: Module)
    requires shape.Valid()
    ensures RunFunctions(shape, variant, o, functions).faulted <==> o.faulted || SomeFunctionFaults(shape, variant, functions)
    decreases |functions|
  {
    if functions != [] {
      var rest := functions[1..];
      RunBlocksFaults(shape, variant, o, functions[0]);
      RunFunctionsFaults(shape, variant, RunBlocks(shape, variant, o, functions[0]), rest);
      if SomeFunctionFaults(shape, variant, rest) {
        var f :| 0 <= f < |rest| && SomeBlockFaults(shape, variant, rest[f]);
        assert functions[f + 1] == rest[f];
      }
      if SomeFunctionFaults(shape, variant, functions) {
        var f :| 0 <= f < |functions| && SomeBlockFaults(shape, variant, functions[f]);
        if f > 0 {
          assert rest[f - 1] == functions[f];
        }
      }
    }
  }

  /**
   * As written, a module with a `ret void` anywhere (the end of any function
   * that returns nothing) faults; the corrected handler adds nothing for it.
   */
  lemma ReturnVoidStopsTheModuleAsWritten(shape: TreeShape, m: Module, f: nat, b: nat, i: nat)
    requires shape.Valid()
    requires f < |m| && b < |m[f]| && i < |m[f][b]| && m[f][b][i].kind == Return(None)
    ensures RunFunctions(shape, AsWritten, Nothing, m).faulted
    ensures Dispatch(shape, Corrected, m[f][b][i]) == Nothing
  {
    assert Dispatch(shape, AsWritten, m[f][b][i]).faulted;
    assert SomeInstructionFaults(shape, AsWritten, m[f][b]);
    assert SomeBlockFaults(shape, AsWritten, m[f]);
    RunFunctionsFaults(shape, AsWritten, Nothing, m);
  }
}
