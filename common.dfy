/** Types shared by the points-to analysis modules. */
module Common {

  /** An optional value; `None` stands for the source's null pointer. */
  datatype Option<+T> = None | Some(value: T)

  /**
   * Identity of a node of the value tree. Every node owns exactly one `Pointee`
   * object (a `Pointer` when the node's type is a pointer type), so the node's
   * index also identifies its pointee and, for pointer nodes, its pointer.
   */
  type NodeId = nat

  /** Identity of an LLVM value: an instruction, an argument, a global or a function. */
  type ValueId = nat

  /** `size_t` on the 64-bit targets the analysis runs on. */
  const SizeModulus: int := 0x1_0000_0000_0000_0000

  type Size = x: int | 0 <= x < SizeModulus
}
