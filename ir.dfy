/**
 * The part of LLVM IR the translator reads: values with a pointer-type flag,
 * functions, and the instruction kinds it handles.
 */
module Ir {
  import opened Common

  /** An LLVM value: its identity and whether its type is a pointer type. */
  datatype Value = Value(id: ValueId, isPointer: bool)

  /** An LLVM function: its identity, its formal arguments, and whether its return type is a pointer type. */
  datatype Function = Function(id: ValueId, formals: seq<Value>, returnsPointer: bool)

  /**
   * A GEP index operand: a `ConstantInt` with its value read as unsigned at
   * its own bit width (which may exceed 64 bits), or anything else.
   */
  datatype GepIndex = ConstantInt(value: nat) | NonConstant

  datatype InstKind =
    | Alloca
      /** `callee` is `getCalledFunction()`: `None` for an indirect call. */
    | Call(isIntrinsic: bool, callee: Option<Function>, args: seq<Value>)
    | ExtractValue(aggregate: Value, fieldIndices: seq<nat>)
    | GetElementPtr(pointerOperand: Value, indices: seq<GepIndex>)
    | Load(pointerOperand: Value)
    | Phi(incoming: seq<Value>)
      /** `returnValue` is `None` for `ret void`. */
    | Return(returnValue: Option<Value>)
    | Select(trueValue: Value, falseValue: Value)
    | Store(valueOperand: Value, pointerOperand: Value)
    | Other

  /** An instruction: the value it defines, the function that contains it, and its kind. */
  datatype Instruction = Instruction(result: Value, parent: Function, kind: InstKind)

  /** A module: its functions, each a list of basic blocks of instructions. */
  type Module = seq<seq<seq<Instruction>>>

  /** Every instruction in `blocks` has `f` as its enclosing function. */
  ghost predicate InstructionsOf(blocks: seq<seq<Instruction>>, f: Function) {
    forall b, i :: 0 <= b < |blocks| && 0 <= i < |blocks[b]| ==> blocks[b][i].parent == f
  }

  /** `inst.getFunction()` is the function whose body holds the instruction: one per function of the module. */
  ghost predicate WellFormedModule(m: Module) {
    forall f :: 0 <= f < |m| ==> exists g: Function :: InstructionsOf(m[f], g)
  }
}
