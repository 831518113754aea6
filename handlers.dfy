/**
 * The instruction handlers, `UpdateAndersonSolverOnInst` and the instruction
 * loop of `runOnModule`, as methods that make the adder calls on the tree's
 * `Pointer` objects. Each is proved to make exactly the calls, and to fault
 * exactly when, its specification in `Translation` says.
 */
module Handlers {
  import opened Common
  import opened PointerIndices
  import opened PointerAssignments
  import opened ValueTreeNodes
  import opened ValueTrees
  import opened Ir
  import opened Translation

  /** Makes the call `e` after the calls `es` made so far from `s0`. */
  method RecordNext(tree: ValueTree, ghost s0: ConstraintState, ghost es: seq<Emit>, e: Emit)
    requires tree.Valid() && tree.State() == Apply(s0, es) && WellTyped(tree.shape, e)
    modifies tree.pointers.Values
    ensures tree.Valid() && tree.State() == Apply(s0, es + [e])
  {
    var _ := tree.Record(e);
    ApplySnoc(s0, es, e);
  }

  method HandleAlloca(tree: ValueTree, inst: Instruction) returns (faulted: bool)
    requires tree.Valid() && inst.kind.Alloca?
    modifies tree.pointers.Values
    ensures tree.Valid()
    ensures tree.State() == Apply(old(tree.State()), AllocaSpec(tree.shape, inst).emits)
    ensures faulted == AllocaSpec(tree.shape, inst).faulted
  {
    var pointerNode := ResolvePointer(tree.shape, inst.result.id);
    if pointerNode.None? {
      return true;
    }
    var allocatedMemoryNode := tree.shape.GetAllocaMemoryNode(inst.result.id);
    if allocatedMemoryNode.None? {
      return true;
    }
    RecordNext(tree, tree.State(), [], Emit(pointerNode.value, PointerAssignedAddressOf(allocatedMemoryNode.value)));
    return false;
  }

  /** One pass of the argument loop for a pointer formal: `paramNode->AssignedPointer(argNode)`. */
  method BindFormalTo(tree: ValueTree, formal: Value, arg: Value, ghost s0: ConstraintState, ghost o: Outcome)
    returns (faulted: bool, ghost o': Outcome)
    requires tree.Valid() && !o.faulted && tree.State() == Apply(s0, o.emits)
    modifies tree.pointers.Values
    ensures tree.Valid() && o' == BindFormal(tree.shape, o, formal, arg)
    ensures tree.State() == Apply(s0, o'.emits) && faulted == o'.faulted
  {
    var paramNode := ResolvePointer(tree.shape, formal.id);
    var argNode := ResolvePointer(tree.shape, arg.id);
    if paramNode.None? || argNode.None? {
      return true, Outcome(o.emits, true);
    }
    var e := Emit(paramNode.value, Copy(argNode.value));
    RecordNext(tree, s0, o.emits, e);
    return false, Outcome(o.emits + [e], false);
  }

  /** The argument loop of the call handler: binds every pointer formal of `callee` to its actual. */
  method BindArguments(tree: ValueTree, callee: Function, args: seq<Value>) returns (faulted: bool, ghost o: Outcome)
    requires tree.Valid()
    modifies tree.pointers.Values
    ensures tree.Valid() && o == BindArgs(tree.shape, callee.formals, args, Nothing, 0)
    ensures tree.State() == Apply(old(tree.State()), o.emits) && faulted == o.faulted
  {
    ghost var s0 := tree.State();
    ghost var goal := BindArgs(tree.shape, callee.formals, args, Nothing, 0);
    o := Nothing;
    var i := 0;
    while i < |args|
      invariant 0 <= i <= |args|
      invariant tree.Valid() && !o.faulted
      invariant tree.State() == Apply(s0, o.emits)
      invariant BindArgs(tree.shape, callee.formals, args, o, i) == goal
    {
      if i < |callee.formals| && callee.formals[i].isPointer {
        faulted, o := BindFormalTo(tree, callee.formals[i], args[i], s0, o);
        if faulted {
          BindArgsAbsorbs(tree.shape, callee.formals, args, o, i + 1);
          return;
        }
      }
      i := i + 1;
    }
    return false, o;
  }

  /** The result part of the call handler: `result = return value of f`, when `f` returns a pointer. */
  method BindReturn(tree: ValueTree, inst: Instruction, f: Function, ghost s0: ConstraintState, ghost o: Outcome)
    returns (faulted: bool)
    requires tree.Valid() && !o.faulted && tree.State() == Apply(s0, o.emits)
    modifies tree.pointers.Values
    ensures tree.Valid()
    ensures tree.State() == Apply(s0, BindResult(tree.shape, inst, f, o).emits)
    ensures faulted == BindResult(tree.shape, inst, f, o).faulted
  {
    if !f.returnsPointer {
      return false;
    }
    var returnPtrNode := ResolvePointer(tree.shape, inst.result.id);
    var functionReturnValueNode := ResolveReturnSlot(tree.shape, f.id);
    if functionReturnValueNode.None? || returnPtrNode.None? {
      return true;
    }
    RecordNext(tree, s0, o.emits, Emit(returnPtrNode.value, Copy(functionReturnValueNode.value)));
    return false;
  }

  /** The corrected call handler, on the callee `getCalledFunction()`. */
  method HandleCall(tree: ValueTree, inst: Instruction) returns (faulted: bool)
    requires tree.Valid() && inst.kind.Call?
    modifies tree.pointers.Values
    ensures tree.Valid()
    ensures tree.State() == Apply(old(tree.State()), CallSpec(tree.shape, inst).emits)
    ensures faulted == CallSpec(tree.shape, inst).faulted
  {
    if inst.kind.isIntrinsic || inst.kind.callee.None? {
      return false;
    }
    var callee := inst.kind.callee.value;
    ghost var s0 := tree.State();
    ghost var o;
    faulted, o := BindArguments(tree, callee, inst.kind.args);
    if faulted {
      return;
    }
    faulted := BindReturn(tree, inst, callee, s0, o);
  }

  /**
   * The argument loop as written: `i` runs up to `getNumOperands()`, one past
   * the actuals, over the formals of the `enclosing` function; `getArg(i)`
   * and `getArgOperand(i)` fault past their ends.
   */
  method BindArgumentsAsWritten(tree: ValueTree, enclosing: Function, args: seq<Value>) returns (faulted: bool, ghost o: Outcome)
    requires tree.Valid()
    modifies tree.pointers.Values
    ensures tree.Valid() && o == BindArgsAsWritten(tree.shape, enclosing.formals, args, Nothing, 0)
    ensures tree.State() == Apply(old(tree.State()), o.emits) && faulted == o.faulted
  {
    ghost var s0 := tree.State();
    ghost var goal := BindArgsAsWritten(tree.shape, enclosing.formals, args, Nothing, 0);
    o := Nothing;
    var i := 0;
    while i < |args| + 1
      invariant 0 <= i <= |args| + 1
      invariant tree.Valid() && !o.faulted
      invariant tree.State() == Apply(s0, o.emits)
      invariant BindArgsAsWritten(tree.shape, enclosing.formals, args, o, i) == goal
    {
      if i >= |enclosing.formals| || (enclosing.formals[i].isPointer && i >= |args|) {
        o := Outcome(o.emits, true);
        BindArgsAsWrittenAbsorbs(tree.shape, enclosing.formals, args, o, i + 1);
        return true, o;
      }
      if enclosing.formals[i].isPointer {
        faulted, o := BindFormalTo(tree, enclosing.formals[i], args[i], s0, o);
        if faulted {
          BindArgsAsWrittenAbsorbs(tree.shape, enclosing.formals, args, o, i + 1);
          return;
        }
      }
      i := i + 1;
    }
    return false, o;
  }

  /** The call handler as written, on the enclosing function `inst.getFunction()`. */
  method HandleCallAsWritten(tree: ValueTree, inst: Instruction) returns (faulted: bool)
    requires tree.Valid() && inst.kind.Call?
    modifies tree.pointers.Values
    ensures tree.Valid()
    ensures tree.State() == Apply(old(tree.State()), CallSpecAsWritten(tree.shape, inst).emits)
    ensures faulted == CallSpecAsWritten(tree.shape, inst).faulted
  {
    if inst.kind.isIntrinsic {
      return false;
    }
    var enclosing := inst.parent;
    ghost var s0 := tree.State();
    ghost var o;
    faulted, o := BindArgumentsAsWritten(tree, enclosing, inst.kind.args);
    if faulted {
      return;
    }
    faulted := BindReturn(tree, inst, enclosing, s0, o);
  }

  method HandleExtractValue(tree: ValueTree, inst: Instruction) returns (faulted: bool)
    requires tree.Valid() && inst.kind.ExtractValue?
    modifies tree.pointers.Values
    ensures tree.Valid()
    ensures tree.State() == Apply(old(tree.State()), ExtractValueSpec(tree.shape, inst).emits)
    ensures faulted == ExtractValueSpec(tree.shape, inst).faulted
  {
    if !inst.result.isPointer {
      return false;
    }
    var targetPtrNode := ResolvePointer(tree.shape, inst.result.id);
    if targetPtrNode.None? {
      return true;
    }
    var sourceValueNode := tree.shape.GetValueNode(inst.kind.aggregate.id);
    if sourceValueNode.None? {
      return true;
    }
    var a := tree.shape.nodes;
    var indices := inst.kind.fieldIndices;
    var sourcePtrNode: NodeId := sourceValueNode.value;
    var k := 0;
    while k < |indices|
      invariant 0 <= k <= |indices| && sourcePtrNode < |a|
      invariant Descend(a, sourceValueNode.value, indices) == Descend(a, sourcePtrNode, indices[k..])
    {
      assert indices[k..][0] == indices[k] && indices[k..][1..] == indices[k + 1..];
      var child := GetChild(a, sourcePtrNode, indices[k]);
      if child.None? {
        return true;
      }
      sourcePtrNode := child.value;
      k := k + 1;
    }
    if !a[sourcePtrNode].isPointerType {
      return true;
    }
    RecordNext(tree, tree.State(), [], Emit(targetPtrNode.value, Copy(sourcePtrNode)));
    return false;
  }

  /** The index loop of the GEP handler: `getZExtValue()` of each constant, the default index otherwise. */
  method BuildIndexSequence(indices: seq<GepIndex>) returns (r: Option<seq<PointerIndex>>)
    ensures r == IndexSequence(indices)
  {
    var indexSequence: seq<PointerIndex> := [];
    var k := 0;
    while k < |indices|
      invariant 0 <= k <= |indices| && |indexSequence| == k
      invariant forall j :: 0 <= j < k ==> ZExtFits(indices[j]) && indexSequence[j] == ToPointerIndex(indices[j]).value
    {
      match indices[k] {
        case ConstantInt(v) =>
          if v >= SizeModulus {
            assert !ZExtFits(indices[k]);
            return None;
          }
          indexSequence := indexSequence + [ConstantIndex(v)];
        case NonConstant =>
          indexSequence := indexSequence + [DefaultIndex()];
      }
      k := k + 1;
    }
    assert forall j :: 0 <= j < |indices| ==> ZExtFits(indices[j]);
    assert IndexSequence(indices).Some?;
    assert forall j :: 0 <= j < |indices| ==> IndexSequence(indices).value[j] == indexSequence[j];
    assert IndexSequence(indices).value == indexSequence;
    return Some(indexSequence);
  }

  method HandleGetElementPtr(tree: ValueTree, inst: Instruction) returns (faulted: bool)
    requires tree.Valid() && inst.kind.GetElementPtr?
    modifies tree.pointers.Values
    ensures tree.Valid()
    ensures tree.State() == Apply(old(tree.State()), GetElementPtrSpec(tree.shape, inst).emits)
    ensures faulted == GetElementPtrSpec(tree.shape, inst).faulted
  {
    var targetPtrNode := ResolvePointer(tree.shape, inst.result.id);
    if targetPtrNode.None? {
      return true;
    }
    var sourcePtrNode := ResolvePointer(tree.shape, inst.kind.pointerOperand.id);
    if sourcePtrNode.None? {
      return true;
    }
    var indexSequence := BuildIndexSequence(inst.kind.indices);
    if indexSequence.None? {
      return true;
    }
    var e := Emit(targetPtrNode.value, PointerAssignedElementPtr(sourcePtrNode.value, indexSequence.value));
    assert GetElementPtrSpec(tree.shape, inst) == Outcome([e], false);
    RecordNext(tree, tree.State(), [], e);
    return false;
  }

  method HandleLoad(tree: ValueTree, inst: Instruction) returns (faulted: bool)
    requires tree.Valid() && inst.kind.Load?
    modifies tree.pointers.Values
    ensures tree.Valid()
    ensures tree.State() == Apply(old(tree.State()), LoadSpec(tree.shape, inst).emits)
    ensures faulted == LoadSpec(tree.shape, inst).faulted
  {
    if !inst.result.isPointer {
      return false;
    }
    var resultPtrNode := ResolvePointer(tree.shape, inst.result.id);
    var sourcePtrNode := ResolvePointer(tree.shape, inst.kind.pointerOperand.id);
    if resultPtrNode.None? || sourcePtrNode.None? {
      return true;
    }
    RecordNext(tree, tree.State(), [], Emit(resultPtrNode.value, PointerAssignedPointee(sourcePtrNode.value)));
    return false;
  }

  /** The loop shared by the PHI and select handlers: `target = v` for each value in turn. */
  method AssignEach(tree: ValueTree, target: NodeId, values: seq<Value>) returns (faulted: bool)
    requires tree.Valid() && IsPointerNode(tree.shape, target)
    modifies tree.pointers.Values
    ensures tree.Valid()
    ensures tree.State() == Apply(old(tree.State()), CopyEach(tree.shape, target, values, Nothing, 0).emits)
    ensures faulted == CopyEach(tree.shape, target, values, Nothing, 0).faulted
  {
    ghost var s0 := tree.State();
    ghost var o := Nothing;
    var k := 0;
    while k < |values|
      invariant 0 <= k <= |values|
      invariant tree.Valid() && !o.faulted
      invariant tree.State() == Apply(s0, o.emits)
      invariant CopyEach(tree.shape, target, values, o, k) == CopyEach(tree.shape, target, values, Nothing, 0)
    {
      var sourcePtrNode := ResolvePointer(tree.shape, values[k].id);
      if sourcePtrNode.None? {
        CopyEachAbsorbs(tree.shape, target, values, Outcome(o.emits, true), k + 1);
        return true;
      }
      var e := Emit(target, Copy(sourcePtrNode.value));
      RecordNext(tree, s0, o.emits, e);
      o := Outcome(o.emits + [e], false);
      k := k + 1;
    }
    return false;
  }

  method HandlePhi(tree: ValueTree, inst: Instruction) returns (faulted: bool)
    requires tree.Valid() && inst.kind.Phi?
    modifies tree.pointers.Values
    ensures tree.Valid()
    ensures tree.State() == Apply(old(tree.State()), PhiSpec(tree.shape, inst).emits)
    ensures faulted == PhiSpec(tree.shape, inst).faulted
  {
    if !inst.result.isPointer {
      return false;
    }
    var resultPtrNode := ResolvePointer(tree.shape, inst.result.id);
    if resultPtrNode.None? {
      return true;
    }
    faulted := AssignEach(tree, resultPtrNode.value, inst.kind.incoming);
  }

  /** `ret v` once `v` is known: a pointer `v` is copied into the return-value node of `f`. */
  method AssignReturnValue(tree: ValueTree, f: Function, v: Value) returns (faulted: bool)
    requires tree.Valid()
    modifies tree.pointers.Values
    ensures tree.Valid()
    ensures tree.State() == Apply(old(tree.State()), ReturnValueSpec(tree.shape, f, v).emits)
    ensures faulted == ReturnValueSpec(tree.shape, f, v).faulted
  {
    if !v.isPointer {
      return false;
    }
    var returnValueNode := ResolvePointer(tree.shape, v.id);
    var functionReturnValueNode := ResolveReturnSlot(tree.shape, f.id);
    if returnValueNode.None? || functionReturnValueNode.None? {
      return true;
    }
    RecordNext(tree, tree.State(), [], Emit(functionReturnValueNode.value, Copy(returnValueNode.value)));
    return false;
  }

  /** The corrected return handler: nothing for `ret void`. */
  method HandleReturn(tree: ValueTree, inst: Instruction) returns (faulted: bool)
    requires tree.Valid() && inst.kind.Return?
    modifies tree.pointers.Values
    ensures tree.Valid()
    ensures tree.State() == Apply(old(tree.State()), ReturnSpec(tree.shape, inst).emits)
    ensures faulted == ReturnSpec(tree.shape, inst).faulted
  {
    if inst.kind.returnValue.None? {
      return false;
    }
    faulted := AssignReturnValue(tree, inst.parent, inst.kind.returnValue.value);
  }

  /** The return handler as written: `ret void` dereferences the null return value. */
  method HandleReturnAsWritten(tree: ValueTree, inst: Instruction) returns (faulted: bool)
    requires tree.Valid() && inst.kind.Return?
    modifies tree.pointers.Values
    ensures tree.Valid()
    ensures tree.State() == Apply(old(tree.State()), ReturnSpecAsWritten(tree.shape, inst).emits)
    ensures faulted == ReturnSpecAsWritten(tree.shape, inst).faulted
  {
    if inst.kind.returnValue.None? {
      return true;
    }
    faulted := AssignReturnValue(tree, inst.parent, inst.kind.returnValue.value);
  }

  method HandleSelect(tree: ValueTree, inst: Instruction) returns (faulted: bool)
    requires tree.Valid() && inst.kind.Select?
    modifies tree.pointers.Values
    ensures tree.Valid()
    ensures tree.State() == Apply(old(tree.State()), SelectSpec(tree.shape, inst).emits)
    ensures faulted == SelectSpec(tree.shape, inst).faulted
  {
    if !inst.result.isPointer {
      return false;
    }
    var resultPtrNode := ResolvePointer(tree.shape, inst.result.id);
    if resultPtrNode.None? {
      return true;
    }
    var sourcePtrValues := [inst.kind.trueValue, inst.kind.falseValue];
    faulted := AssignEach(tree, resultPtrNode.value, sourcePtrValues);
  }

  /** `store value, pointer` once the guard has passed: records `*pointer = value`. */
  method AssignPointee(tree: ValueTree, value: Value, pointer: Value) returns (faulted: bool)
    requires tree.Valid()
    modifies tree.pointers.Values
    ensures tree.Valid()
    ensures tree.State() == Apply(old(tree.State()), StoreOperandsSpec(tree.shape, value, pointer).emits)
    ensures faulted == StoreOperandsSpec(tree.shape, value, pointer).faulted
  {
    var targetPtrNode := ResolvePointer(tree.shape, pointer.id);
    var sourcePtrNode := ResolvePointer(tree.shape, value.id);
    if targetPtrNode.None? || sourcePtrNode.None? {
      return true;
    }
    RecordNext(tree, tree.State(), [], Emit(targetPtrNode.value, PointeeAssignedPointer(sourcePtrNode.value)));
    return false;
  }

  /** The corrected store handler, which tests the stored value's type. */
  method HandleStore(tree: ValueTree, inst: Instruction) returns (faulted: bool)
    requires tree.Valid() && inst.kind.Store?
    modifies tree.pointers.Values
    ensures tree.Valid()
    ensures tree.State() == Apply(old(tree.State()), StoreSpec(tree.shape, inst).emits)
    ensures faulted == StoreSpec(tree.shape, inst).faulted
  {
    if !inst.kind.valueOperand.isPointer {
      return false;
    }
    faulted := AssignPointee(tree, inst.kind.valueOperand, inst.kind.pointerOperand);
  }

  /** The store handler as written, which tests the pointer operand's type. */
  method HandleStoreAsWritten(tree: ValueTree, inst: Instruction) returns (faulted: bool)
    requires tree.Valid() && inst.kind.Store?
    modifies tree.pointers.Values
    ensures tree.Valid()
    ensures tree.State() == Apply(old(tree.State()), StoreSpecAsWritten(tree.shape, inst).emits)
    ensures faulted == StoreSpecAsWritten(tree.shape, inst).faulted
  {
    if !inst.kind.pointerOperand.isPointer {
      return false;
    }
    faulted := AssignPointee(tree, inst.kind.valueOperand, inst.kind.pointerOperand);
  }

  /** `UpdateAndersonSolverOnInst`: runs the handler of the instruction's kind. */
  method UpdateAndersonSolverOnInst(tree: ValueTree, variant: Variant, inst: Instruction) returns (faulted: bool)
    requires tree.Valid()
    modifies tree.pointers.Values
    ensures tree.Valid()
    ensures tree.State() == Apply(old(tree.State()), Dispatch(tree.shape, variant, inst).emits)
    ensures faulted == Dispatch(tree.shape, variant, inst).faulted
  {
    match inst.kind
    case Alloca => faulted := HandleAlloca(tree, inst);
    case Call(_, _, _) =>
      if variant.AsWritten? {
        faulted := HandleCallAsWritten(tree, inst);
      } else {
        faulted := HandleCall(tree, inst);
      }
    case ExtractValue(_, _) => faulted := HandleExtractValue(tree, inst);
    case GetElementPtr(_, _) => faulted := HandleGetElementPtr(tree, inst);
    case Load(_) => faulted := HandleLoad(tree, inst);
    case Phi(_) => faulted := HandlePhi(tree, inst);
    case Return(_) =>
      if variant.AsWritten? {
        faulted := HandleReturnAsWritten(tree, inst);
      } else {
        faulted := HandleReturn(tree, inst);
      }
    case Select(_, _) => faulted := HandleSelect(tree, inst);
    case Store(_, _) =>
      if variant.AsWritten? {
        faulted := HandleStoreAsWritten(tree, inst);
      } else {
        faulted := HandleStore(tree, inst);
      }
    case Other => faulted := false;
  }

  /**
   * The instruction loop of `runOnModule`: every instruction of every block
   * of every function, in order, up to the first fault.
   */
  method RunOnModule(tree: ValueTree, variant: Variant, m: Module) returns (faulted: bool)
    requires tree.Valid() && WellFormedModule(m)
    modifies tree.pointers.Values
    ensures tree.Valid()
    ensures tree.State() == Apply(old(tree.State()), RunFunctions(tree.shape, variant, Nothing, m).emits)
    ensures faulted == RunFunctions(tree.shape, variant, Nothing, m).faulted
  {
    var shape := tree.shape;
    ghost var s0 := tree.State();
    ghost var goal := RunFunctions(shape, variant, Nothing, m);
    ghost var o := Nothing;
    var f := 0;
    while f < |m|
      invariant 0 <= f <= |m| && tree.Valid() && !o.faulted
      invariant tree.State() == Apply(s0, o.emits)
      invariant RunFunctions(shape, variant, o, m[f..]) == goal
    {
      var blocks := m[f];
      assert m[f..][0] == blocks && m[f..][1..] == m[f + 1..];
      var b := 0;
      while b < |blocks|
        invariant 0 <= b <= |blocks| && tree.Valid() && !o.faulted
        invariant tree.State() == Apply(s0, o.emits)
        invariant RunFunctions(shape, variant, RunBlocks(shape, variant, o, blocks[b..]), m[f + 1..]) == goal
      {
        var insts := blocks[b];
        assert blocks[b..][0] == insts && blocks[b..][1..] == blocks[b + 1..];
        var i := 0;
        while i < |insts|
          invariant 0 <= i <= |insts| && tree.Valid() && !o.faulted
          invariant tree.State() == Apply(s0, o.emits)
          invariant RunFunctions(shape, variant, RunBlocks(shape, variant, RunInstructions(shape, variant, o, insts[i..]), blocks[b + 1..]), m[f + 1..]) == goal
        {
          assert insts[i..][0] == insts[i] && insts[i..][1..] == insts[i + 1..];
          ghost var d := Dispatch(shape, variant, insts[i]);
          var instFaulted := UpdateAndersonSolverOnInst(tree, variant, insts[i]);
          ApplyAppend(s0, o.emits, d.emits);
          o := Outcome(o.emits + d.emits, d.faulted);
          if instFaulted {
            RunInstructionsAbsorbs(shape, variant, o, insts[i + 1..]);
            RunBlocksAbsorbs(shape, variant, o, blocks[b + 1..]);
            RunFunctionsAbsorbs(shape, variant, o, m[f + 1..]);
            return true;
          }
          i := i + 1;
        }
        assert insts[i..] == [];
        b := b + 1;
      }
      assert blocks[b..] == [];
      f := f + 1;
    }
    assert m[f..] == [];
    return false;
  }
}
