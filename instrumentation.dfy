/**
 * The code a `#pragma bound(buffer, size, permissions)` puts around the
 * call it guards: before the call, a DASICS bound handle over the buffer and
 * a handle over the top of the stack are allocated; after the call's `;`,
 * both are freed. The recompiling plugin inserts that code; the demo plugin
 * inserts `printf` calls that print it.
 */
module Instrumentation {
  /** The handle named after the buffer, `A0_handler`. */
  function BoundHandle(a0: string): string {
    a0 + "_handler"
  }

  const StackHandle: string := "stack_handler"

  /** `dasics_libcfg_free(h);` */
  function FreeLine(h: string): string {
    "dasics_libcfg_free(" + h + ");"
  }

  /**
   * The allocation of the buffer's bound, without its line end:
   * `A0_handler = dasics_libcfg_alloc(A2, (uint64_t)A0, (uint64_t)A0 + A1 - 1);`,
   * permissions `A2` over the bytes from `A0` to `A0 + A1 - 1`.
   */
  function BoundLine(a0: string, a1: string, a2: string): string {
    a0 + "_handler = dasics_libcfg_alloc(" + a2 + ", (uint64_t)" + a0 + ", (uint64_t)" + a0 + " + " + a1 + " - 1);"
  }

  // ------------------------------------------------------------ the recompiling plugin

  function BoudCode(a0: string, a1: string, a2: string): string {
    "" + a0 + "_handler = dasics_libcfg_alloc(" + a2 + ", (uint64_t)" + a0 + ", (uint64_t)" + a0 + " + " + a1 + " - 1);\n"
  }

  /** Reads the stack pointer into `sp` and allocates `stack_handler` over `[sp - 0x2000, sp]`. */
  function SPHandeCode(): string {
    "" + "uint64_t sp;\n" + "asm volatile (\"mv %0, sp\" : \"=r\"(sp));\n"
      + "\nstack_handler = dasics_libcfg_alloc(DASICS_LIBCFG_V | DASICS_LIBCFG_W | DASICS_LIBCFG_R, sp - 0x2000, sp);\n"
  }

  function FreeCode(a0: string): string {
    "\n" + "dasics_libcfg_free(" + a0 + "_handler);\n" + "dasics_libcfg_free(stack_handler);\n"
  }

  // ------------------------------------------------------------ the demo plugin

  function DemoBoudCode(a0: string, a1: string, a2: string): string {
    "printf(\"" + a0 + "_handler = dasics_libcfg_alloc(" + a2 + ", (uint64_t)" + a0 + ", (uint64_t)" + a0 + " + " + a1 + " - 1);\\n\");\n"
  }

  /** Prints the stack-pointer read and the allocation of `stack_handler`. */
  function DemoSPHandeCode(): string {
    "printf(\"" + "uint64_t sp;\\n" + "asm volatile (\\\"mv %%0, sp\\\" : \\\"=r\\\"(sp));\\n"
      + "stack_handler = dasics_libcfg_alloc(DASICS_LIBCFG_V | DASICS_LIBCFG_W | DASICS_LIBCFG_R, sp - 0x2000, sp);\\n\");\n"
  }

  function DemoFreeCode(a0: string): string {
    "printf(\"" + "dasics_libcfg_free(" + a0 + "_handler);\\n" + "dasics_libcfg_free(stack_handler);\\n\");\n"
  }

  // ------------------------------------------------------------ what the strings are

  /** `BoudCode` is the bound allocation, as one line. */
  lemma BoudCodeIsTheBoundLine(a0: string, a1: string, a2: string)
    ensures BoudCode(a0, a1, a2) == BoundLine(a0, a1, a2) + "\n"
  {
    assert " - 1);\n" == " - 1);" + "\n";
    var p := a0 + "_handler = dasics_libcfg_alloc(" + a2 + ", (uint64_t)" + a0 + ", (uint64_t)" + a0 + " + " + a1;
    assert "" + a0 == a0;
    assert BoudCode(a0, a1, a2) == p + " - 1);\n";
  }

  /** The demo's `BoudCode` is the same line inside `printf("...\n");`. */
  lemma DemoBoudCodePrintsTheBoundLine(a0: string, a1: string, a2: string)
    ensures DemoBoudCode(a0, a1, a2) == "printf(\"" + BoundLine(a0, a1, a2) + "\\n\");\n"
  {
    assert " - 1);\\n\");\n" == " - 1);" + "\\n\");\n";
    var p := a0 + "_handler = dasics_libcfg_alloc(" + a2 + ", (uint64_t)" + a0 + ", (uint64_t)" + a0 + " + " + a1;
    assert DemoBoudCode(a0, a1, a2) == "printf(\"" + p + " - 1);\\n\");\n";
  }

  /** The bound line assigns the handle named after the buffer. */
  lemma BoundLineAssignsTheBufferHandle(a0: string, a1: string, a2: string)
    ensures exists rest :: BoundLine(a0, a1, a2) == BoundHandle(a0) + " = dasics_libcfg_alloc(" + rest
  {
    assert "_handler = dasics_libcfg_alloc(" == "_handler" + " = dasics_libcfg_alloc(";
    var rest := a2 + ", (uint64_t)" + a0 + ", (uint64_t)" + a0 + " + " + a1 + " - 1);";
    assert BoundLine(a0, a1, a2) == BoundHandle(a0) + " = dasics_libcfg_alloc(" + rest;
  }

  /** `FreeCode` frees the buffer's handle, then the stack's, one line each. */
  lemma FreeCodeFreesBothHandles(a0: string)
    ensures FreeCode(a0) == "\n" + FreeLine(BoundHandle(a0)) + "\n" + FreeLine(StackHandle) + "\n"
  {
    assert "_handler);\n" == "_handler" + ");" + "\n";
    assert "dasics_libcfg_free(stack_handler);\n" == "dasics_libcfg_free(" + "stack_handler" + ");" + "\n";
  }

  lemma DemoFreeSplits()
    ensures "_handler);\\n" == "_handler" + ");" + "\\n"
    ensures "dasics_libcfg_free(stack_handler);\\n\");\n" == "dasics_libcfg_free(" + "stack_handler" + ");" + "\\n\");\n"
  {
    assert ");\\n\");\n" == ");" + "\\n\");\n";
    assert "stack_handler);\\n\");\n" == "stack_handler" + ");\\n\");\n";
  }

  /** The demo's `FreeCode` prints the same two lines. */
  lemma DemoFreeCodePrintsTheFrees(a0: string)
    ensures DemoFreeCode(a0) == "printf(\"" + FreeLine(BoundHandle(a0)) + "\\n" + FreeLine(StackHandle) + "\\n\");\n"
  {
    DemoFreeSplits();
  }
}
