# Andersen constraint model and `#pragma bound` splitter, in Dafny

This project models two parts of the dasics-clang tool chain and proves properties of each.

1. **The constraint side of the Andersen points-to analysis:**
   - the constraint forms, `PointerAssignment` and its four subclasses, with their equality and hash codes;
   - the `PointerIndex` index values;
   - the `PointeeSet` points-to set;
   - the `Pointer` object and its four deduplicating constraint sets;
   - the arena of `ValueTreeNode`s, with its scope queries and its pre-order `Visit`;
   - the `ValueTree` with its five root maps;
   - the translation of each LLVM instruction kind (`alloca`, `call`, `extractvalue`, `getelementptr`, `load`, `phi`, `ret`, `select`, `store`) into constraint adder calls.

   The translation exists twice:
   - as pure specification functions in `Translation`, each returning the calls it makes and whether it faults;
   - as imperative handler methods in `Handlers`, which make those calls on the `Pointer` objects. Each method is proved to leave exactly the state its specification function prescribes.

   The call, `ret` and store handlers come in two variants (see "## Findings"):
   - `AsWritten` is the source's code;
   - `Corrected` is what that code evidently intends.

   The dispatcher, the module run and `RunOnModule` take the variant as a parameter, and the other six handlers are shared by both.

2. **The `#pragma bound(buffer, size, permissions)` front end:**
   - the token loop that splits the pragma's arguments at commas outside nested parentheses, and its three error cases;
   - the two handlers: the recompiling plugin's handles only the first accepted pragma, the demo plugin's handles every one;
   - the DASICS allocation and free lines that the rewriter places around the guarded call.

Some conventions used throughout:
- A node's `NodeId` also names the `Pointee`/`Pointer` it owns.
- A handler *fault* stands for an assertion failure, a failed `llvm::cast`, an out-of-range `GetChild`/`getArg` or a null dereference. The calls made before a fault are kept, and a module run stops at the first fault.
- Machine addresses, which feed the hash codes, are a parameter.
- The iteration order of each `unordered_map` is a parameter.

Two behaviours of the code are worth spelling out:
- An operand with no pointer node is not skipped. The handler dereferences the missing node, so the model faults.
- Argument text is not kept verbatim. The splitter inserts one space before every word or `|` that follows something already in the argument, including right after `(`. `BoundPragma.GroupText` states this.

## Model

| member | source | states |
|---|---|---|
| PointerIndices.DefaultIndex | andersen/AndersonPointsToAnalysis.h:215-222 | the default index holds the reserved value 2^64-1 and is dynamic, not constant |
| PointerIndices.ConstantIndex | andersen/AndersonPointsToAnalysis.h:229-231 | a constant index keeps its value and is constant exactly when that value is not the dynamic marker |
| PointerIndices.ConstantIsNotDynamic | andersen/AndersonPointsToAnalysis.h:246-253 | every index is exactly one of constant and dynamic |
| PointerIndices.DynamicIsDefault | andersen/AndersonPointsToAnalysis.h:215-222 | an index is dynamic iff it equals the default-constructed index |
| PointerIndices.IndexEquals | andersen/AndersonPointsToAnalysis.h:255-257 | index `operator==` holds iff the two indices are the same value |
| PointerAssignments.KindValue | andersen/AndersonPointsToAnalysis.h:57-81 | each kind's integer value is below 4 |
| PointerAssignments.KindValueInjective | andersen/AndersonPointsToAnalysis.h:57-81 | distinct kinds have distinct integer values |
| PointerAssignments.IsTrivialAssignment | andersen/AndersonPointsToAnalysis.h:304-309 | an element-address constraint is trivial iff its index sequence is empty or the single constant 0 |
| PointerAssignments.Equals | andersen/AndersonPointsToAnalysis.h:181-187 | the corrected constraint equality holds iff the two constraints are the same value |
| PointerAssignments.AddressOfAsWrittenAllEqual | andersen/AndersonPointsToAnalysis.h:105-107 | as written, any two address-of constraints compare equal; the corrected equality separates distinct pointees |
| PointerAssignments.ElementPtrEqualsOnlyElementPtr | andersen/PointerAssignment.cpp:23-30 | the element-address `operator==` is false against every other kind |
| PointerAssignments.ElementPtrEquality | andersen/PointerAssignment.cpp:23-30 | two element-address constraints are equal iff pointers match and index sequences match element by element, which is value identity |
| PointerAssignments.FoldHashAppend | andersen/PointerAssignment.cpp:14-21 | hashing a concatenated index sequence hashes the first part, then continues with the second |
| PointerAssignments.FoldHashSnoc | andersen/PointerAssignment.cpp:16-19 | one more index combines its hash into the previous hash with `CombineHash` |
| PointerAssignments.ElementPtrEmptyHash | andersen/AndersonPointsToAnalysis.h:177-179 | with no indices the hash is the pointer's address or-ed with kind value 1 |
| PointerAssignments.HashRespectsEquality | andersen/AndersonPointsToAnalysis.h:101-105 | constraints that are equal under either equality have equal hash codes, for every address assignment |
| PointerAssignments.GetHashCode | andersen/PointerAssignment.cpp:14-21 | the loop returns the base hash folded with `CombineHash` over the index hashes, in order |
| PointerAssignments.EmplaceAsWritten | andersen/AndersonPointsToAnalysis.h:720-723 | emplace inserts, and reports true, iff no stored constraint compares equal as written |
| PointerAssignments.AddressOfSetHoldsAtMostOne | andersen/AndersonPointsToAnalysis.h:897 | as written, an address-of set keeps at most one constraint whatever is added to it |
| PointerAssignments.SecondAddressOfIsLost | andersen/AndersonPointsToAnalysis.h:720-723 | after `p = &x`, adding `p = &y` for `y != x` reports not fresh and records nothing |
| PointeeSets.PointeeSet.Insert | andersen/AndersonPointsToAnalysis.h:521-523 | adds the pointee and reports true iff it was absent |
| PointeeSets.PointeeSet.Count | andersen/AndersonPointsToAnalysis.h:552-558 | the count is at most 1, and 1 iff the pointee is an element |
| PointeeSets.PointeeSet.IsSubset | andersen/AndersonPointsToAnalysis.h:566-570 | true iff the other set is included in this one |
| PointeeSets.PointeeSet.IsSubsetOf | andersen/AndersonPointsToAnalysis.h:578-580 | true iff this set is included in the other; it is the mirror of `IsSubset` |
| PointeeSets.PointeeSet.Equals | andersen/AndersonPointsToAnalysis.h:608-610 | set equality holds iff each set includes the other |
| PointeeSets.PointeeSet.MergeFrom | andersen/AndersonPointsToAnalysis.h:588-596 | the set becomes the union; the result is true iff the source had an element not already present, iff the set grew; `source` may alias this set |
| PointeeSets.PointeeSet.MergeTo | andersen/AndersonPointsToAnalysis.h:604-606 | the target becomes the union, with the same "new element" result |
| PointeeSets.GrowsIffNotSubset | andersen/AndersonPointsToAnalysis.h:588-596 | a union is larger than its left operand iff the right operand is not included in it |
| Pointers.Pointer.constructor | andersen/AndersonPointsToAnalysis.h:704-710 | a new pointer has no constraints and an empty, fresh points-to set |
| Pointers.Pointer.AssignedAddressOf | andersen/AndersonPointsToAnalysis.h:720-723 | adds `p = &q` to the address-of set only; the result is true iff no equal constraint was present |
| Pointers.Pointer.AssignedElementPtr | andersen/AndersonPointsToAnalysis.h:743-746 | adds `p = &q[s]` to the element-address set only; the result is true iff it was new |
| Pointers.Pointer.AssignedPointer | andersen/AndersonPointsToAnalysis.h:731-733 | the copy `p = q` is recorded as `p = &q[0]` in the element-address set |
| Pointers.Pointer.AssignedPointee | andersen/AndersonPointsToAnalysis.h:754-757 | adds `p = *q` to the load set only; the result is true iff it was new |
| Pointers.Pointer.PointeeAssigned | andersen/AndersonPointsToAnalysis.h:765-768 | adds `*p = q` to the store set only; the result is true iff it was new |
| Pointers.Pointer.NumConstraints | andersen/AndersonPointsToAnalysis.h:793-876 | each `GetNum...` is the number of recorded constraints of that kind |
| Pointers.AssignedPointeeTwiceIsNoOp | andersen/AndersonPointsToAnalysis.h:754-757 | adding the same load constraint `p = *q` twice reports fresh the first time only and records it once |
| ValueTreeNodes.RootOf | andersen/AndersonPointsToAnalysis.h:1120-1122 | following parent links reaches a root no larger than the node; a root is its own root |
| ValueTreeNodes.IsGlobal | andersen/AndersonPointsToAnalysis.h:1129-1134 | a node is global iff the value of its tree's root is a global object |
| ValueTreeNodes.IsExternal | andersen/AndersonPointsToAnalysis.h:1141-1154 | a node is external iff its root is argument memory, or global memory with available-externally linkage |
| ValueTreeNodes.RootValue | andersen/AndersonPointsToAnalysis.h:1179-1230 | the four getters return the value of the tree's root, and fail (the `llvm::cast` assertion) iff that value is not of the class the getter casts to |
| ValueTreeNodes.GetChild | andersen/AndersonPointsToAnalysis.h:1258-1261 | fails iff the index is out of range, and otherwise returns that child, whose parent is the node |
| ValueTreeNodes.PreOrder | andersen/AndersonPointsToAnalysis.h:1304-1317 | a tree's pre-order starts with its root, and every id in it is at least the root's |
| ValueTreeNodes.PreOrderIsSubtree | andersen/AndersonPointsToAnalysis.h:1304-1317 | a node is in a tree's pre-order iff following its parent links reaches the tree's root: the pre-order lists exactly that tree |
| ValueTreeNodes.TreeSharesScope | andersen/AndersonPointsToAnalysis.h:1129-1154 | every node of a tree is global, or external, exactly when the tree's root is |
| ValueTreeNodes.PreOrderSharesRoot | andersen/AndersonPointsToAnalysis.h:1129-1154 | every node in a tree's pre-order has the tree's root as its root |
| ValueTreeNodes.StopPrefix | andersen/AndersonPointsToAnalysis.h:1304-1317 | a stop-at-first-false walk sees a prefix of the list, all accepted but the last; it sees the whole list iff all are accepted |
| ValueTreeNodes.StopPrefixAppend | andersen/AndersonPointsToAnalysis.h:1310-1314 | the walk over a concatenation goes on into the second part iff the first part is accepted throughout |
| ValueTreeNodes.AllAcceptedAppend | andersen/AndersonPointsToAnalysis.h:1310-1316 | a concatenation is accepted throughout iff both parts are |
| ValueTreeNodes.VisitIsPreOrder | andersen/AndersonPointsToAnalysis.h:1304-1317 | `Visit` shows the visitor the tree in pre-order up to the first false, and returns true iff every node was accepted |
| ValueTreeNodes.VisitChildrenIsPreOrder | andersen/AndersonPointsToAnalysis.h:1310-1316 | the same for the children loop, from any child on |
| ValueTrees.FindIn | andersen/AndersonPointsToAnalysis.h:1579-1587 | yields null iff the key is absent, and the stored node otherwise |
| ValueTrees.TreeShape.GetValueNode | andersen/AndersonPointsToAnalysis.h:1385-1387 | the node for a value is a normal-kind root that carries that value, and is missing iff the value has no root |
| ValueTrees.TreeShape.GetAllocaMemoryNode | andersen/AndersonPointsToAnalysis.h:1406-1408 | the stack-memory root of an `alloca`, missing iff it has none |
| ValueTrees.TreeShape.GetGlobalMemoryNode | andersen/AndersonPointsToAnalysis.h:1426-1428 | the global-memory root of a global variable, missing iff it has none |
| ValueTrees.TreeShape.GetArgumentMemoryNode | andersen/AndersonPointsToAnalysis.h:1446-1448 | the argument-memory root of an argument, which is always external |
| ValueTrees.TreeShape.GetFunctionReturnValueNode | andersen/AndersonPointsToAnalysis.h:1466-1468 | the return-value root of a function, which is never external |
| ValueTrees.RootsInOrder | andersen/AndersonPointsToAnalysis.h:1537-1541 | one root per key, in the map's iteration order |
| ValueTrees.AllRoots | andersen/AndersonPointsToAnalysis.h:1536-1563 | the five maps' roots, map after map, are all roots of the arena |
| ValueTrees.VisitRootsIsPreOrder | andersen/AndersonPointsToAnalysis.h:1536-1563 | visiting tree after tree is the stop-at-first-false walk of their concatenated pre-orders |
| ValueTrees.ValueTree.Visit | andersen/AndersonPointsToAnalysis.h:1536-1563 | `ValueTree::Visit` shows the visitor every tree of the five maps in pre-order up to the first false, and returns true iff all were accepted |
| ValueTrees.ApplyIsUnion | andersen/AndersonPointsToAnalysis.h:897-900 | after a sequence of adder calls, each pointer holds its old constraints plus exactly those aimed at it; order and repetition do not matter |
| ValueTrees.ApplyIdempotent | andersen/AndersonPointsToAnalysis.h:897-900 | repeating the same calls changes nothing |
| ValueTrees.ApplyAppend | andersen/AndersonPointsToAnalysis.h:897-900 | applying two call sequences in turn equals applying their concatenation |
| ValueTrees.Forward | andersen/AndersonPointsToAnalysis.h:720-768 | calling the adder of a constraint's form adds exactly that constraint and reports whether it was new |
| ValueTrees.ValueTree.constructor | andersen/AndersonPointsToAnalysis.h:1337-1343 | every pointer-typed node gets a fresh `Pointer` with no constraints |
| ValueTrees.ValueTree.Record | andersen/AndersonPointsToAnalysis.h:720-768 | one adder call on a node's pointer adds the constraint to that pointer alone |
| Translation.Copy | andersen/AndersonPointsToAnalysis.h:731-733 | `AssignedPointer(q)` records a trivial element-address constraint on `q` |
| Translation.ResolvePointer | andersen/AndersonPointsToAnalysis.cpp:19-20 | a value resolves iff it has a value node of pointer type, and then to that node |
| Translation.ResolveReturnSlot | andersen/AndersonPointsToAnalysis.cpp:58-59 | a function's return value resolves iff it has a return-value node of pointer type |
| Translation.AllocaSpec | andersen/AndersonPointsToAnalysis.cpp:17-24 | records exactly `p = &m`, with `m` the allocated stack memory; faults iff `p` is not a pointer node or there is no memory node |
| Translation.BindArgsBindsPointerFormals | andersen/AndersonPointsToAnalysis.cpp:36-50 | corrected loop over the callee's formals and the actuals: binds every pointer formal to its actual and adds nothing else; faults iff some pointer formal or its actual does not resolve |
| Translation.BindFormal | andersen/AndersonPointsToAnalysis.cpp:43-49 | one pointer formal: faults iff the formal or its actual does not resolve, and else appends exactly `formal = actual` |
| Translation.BindArgsFaults | andersen/AndersonPointsToAnalysis.cpp:36-50 | the corrected loop faults iff some pointer formal or its actual does not resolve, and only appends well-typed calls |
| Translation.BindArgsMakesEveryBinding | andersen/AndersonPointsToAnalysis.cpp:36-50 | without a fault, every pointer formal is bound to its actual |
| Translation.BindArgsMakesOnlyBindings | andersen/AndersonPointsToAnalysis.cpp:36-50 | without a fault, every call the loop adds is such a binding |
| Translation.CallBindsFormalsAndResult | andersen/AndersonPointsToAnalysis.cpp:29-63 | the corrected call: nothing for intrinsic or indirect calls; otherwise it faults iff a pointer formal or its actual, or (for a pointer-returning callee) the result or the return slot, does not resolve; without a fault it adds the formal bindings and `result = return value`, and nothing else |
| Translation.CallAsWrittenFaultsInFunctionWithoutFormals | andersen/AndersonPointsToAnalysis.cpp:34-37 | as written, any non-intrinsic call inside a function with no formals faults before adding anything |
| Translation.CallAsWrittenCounterexample | andersen/AndersonPointsToAnalysis.cpp:34-50 | a concrete call `f(a)` from `main()`: as written it faults, while the corrected handler records `p = a` |
| Translation.CorrectedCallBindsFormalOfCallee | andersen/AndersonPointsToAnalysis.cpp:29-50 | for `main()` calling `f(a)`, the corrected handler records exactly `p = a` for `f`'s formal `p` |
| Translation.CallSpecAsWritten | andersen/AndersonPointsToAnalysis.cpp:29-63 | the call handler as written adds only calls that target pointer nodes, nothing for an intrinsic, and, when it does not fault, exactly what the corrected handler adds for a call of the enclosing function `inst.getFunction()`: its pointer formals bound to the actuals, and the result to its return slot |
| Translation.BindArgsAsWrittenAgreesWhenNoFault | andersen/AndersonPointsToAnalysis.cpp:34-50 | unless it faults, the loop as written makes exactly the bindings of the corrected loop over the same formals |
| Translation.CallAsWrittenBindsEnclosingFormals | andersen/AndersonPointsToAnalysis.cpp:34-50 | a call that does not fault as written binds every pointer formal of the enclosing function, up to the number of actuals, to its actual |
| Translation.BindArgsAsWrittenFaults | andersen/AndersonPointsToAnalysis.cpp:34-50 | the loop as written faults iff the enclosing function has no formal at position `|args|`, or that formal is a pointer, or a pointer formal before it, or its actual, does not resolve |
| Translation.CallAsWrittenFaultsWithoutSpareFormal | andersen/AndersonPointsToAnalysis.cpp:34-42 | as written, a call faults whenever the enclosing function has no more formals than the call has actuals |
| Translation.Descend | andersen/AndersonPointsToAnalysis.cpp:79-81 | following `GetChild` per index stays inside the starting node's tree; no indices stay put |
| Translation.DescendAppend | andersen/AndersonPointsToAnalysis.cpp:79-81 | descending along `xs + ys` is descending along `xs`, then along `ys` |
| Translation.ExtractValueSpec | andersen/AndersonPointsToAnalysis.cpp:68-85 | nothing for a non-pointer result; otherwise it faults iff the result does not resolve, the aggregate has no node, an index is out of range or the sub-object reached is not a pointer, and else records exactly `r = s`, `s` that sub-object |
| Translation.ToPointerIndex | andersen/AndersonPointsToAnalysis.cpp:103-108 | a `ConstantInt` index keeps its value, and fails (the `getZExtValue()` assertion) iff that value needs more than 64 bits; any other index is dynamic |
| Translation.IndexSequence | andersen/AndersonPointsToAnalysis.cpp:99-109 | one index per operand, in order, constant or dynamic as the operand is; fails iff some constant index needs more than 64 bits |
| Translation.AllOnesConstantReadsAsDynamic | andersen/AndersonPointsToAnalysis.cpp:105 | a constant index whose zero-extended value is 2^64-1 yields the same index sequence as a non-constant one |
| Translation.GetElementPtrSpec | andersen/AndersonPointsToAnalysis.cpp:90-112 | records exactly `r = &s[indices]`; faults iff the result or the pointer operand does not resolve, or a constant index needs more than 64 bits |
| Translation.WideConstantIndexFaults | andersen/AndersonPointsToAnalysis.cpp:103-105 | an `i128` index of value 2^64 faults the GEP handler and adds nothing |
| Translation.LoadSpec | andersen/AndersonPointsToAnalysis.cpp:117-131 | nothing for a non-pointer load; otherwise exactly `r = *s`, faulting iff either side does not resolve |
| Translation.CopyEachOnePerValue | andersen/AndersonPointsToAnalysis.cpp:145-151 | one `target = v` per value in order; faults iff some value does not resolve, keeping the calls for the values before it |
| Translation.PhiFaults | andersen/AndersonPointsToAnalysis.cpp:136-152 | a pointer PHI faults iff its result or one of its incoming values does not resolve |
| Translation.PhiOnePerIncoming | andersen/AndersonPointsToAnalysis.cpp:136-152 | a pointer PHI faults iff its result or some incoming value does not resolve, and else records `r = v` for every incoming value, in order; any other PHI adds nothing |
| Translation.SelectAddsTwo | andersen/AndersonPointsToAnalysis.cpp:175-194 | a pointer select faults iff its result or either operand does not resolve, and else records `r = t`, then `r = f`; any other select adds nothing |
| Translation.ReturnSpec | andersen/AndersonPointsToAnalysis.cpp:157-170 | `ret void` and a non-pointer return add nothing; a pointer return records `ret slot = v`, faulting iff the slot or `v` does not resolve |
| Translation.ReturnVoidAsWrittenFaults | andersen/AndersonPointsToAnalysis.cpp:158-159 | as written every `ret void` faults; the corrected handler adds nothing |
| Translation.ReturnSpecAsWritten | andersen/AndersonPointsToAnalysis.cpp:157-170 | as written, `ret void` faults and every `ret v` behaves as the corrected handler |
| Translation.StoreSpec | andersen/AndersonPointsToAnalysis.cpp:199-214 | storing a pointer records exactly `*p = v`, faulting iff either side does not resolve; storing anything else adds nothing |
| Translation.StoreOfNonPointerAsWrittenFaults | andersen/AndersonPointsToAnalysis.cpp:200-204 | as written, storing a value with no pointer node faults; the corrected handler adds nothing |
| Translation.StoreSpecAsWritten | andersen/AndersonPointsToAnalysis.cpp:199-214 | as written, the guard always passes for a pointer operand, so the store faults iff either operand does not resolve, and agrees with the corrected handler on pointer stores |
| Translation.Dispatch | andersen/AndersonPointsToAnalysis.cpp:228-235 | every call the dispatcher makes, in either variant, targets a pointer node; other instruction kinds add nothing |
| Translation.VariantsAgreeOffCallReturnStore | andersen/AndersonPointsToAnalysis.cpp:228-235 | the two variants differ only on calls, `ret` and stores |
| Translation.Step | andersen/AndersonPointsToAnalysis.cpp:249 | an instruction after a fault changes nothing; emits only grow |
| Translation.RunInstructions | andersen/AndersonPointsToAnalysis.cpp:248-250 | a run over instructions, in either variant, only extends the calls and keeps them well typed |
| Translation.RunBlocks | andersen/AndersonPointsToAnalysis.cpp:247-251 | the same over basic blocks |
| Translation.RunFunctions | andersen/AndersonPointsToAnalysis.cpp:246-252 | the same over the module's functions |
| Translation.RunFunctionsAbsorbs | andersen/AndersonPointsToAnalysis.cpp:246-252 | once a handler has faulted, the rest of the module adds nothing |
| Translation.RunInstructionsFaults | andersen/AndersonPointsToAnalysis.cpp:248-250 | a run over instructions faults iff it started faulted or the handler of one of them faults |
| Translation.RunBlocksFaults | andersen/AndersonPointsToAnalysis.cpp:247-251 | the same over basic blocks |
| Translation.RunFunctionsFaults | andersen/AndersonPointsToAnalysis.cpp:246-252 | a module run faults iff the handler of some instruction of the module faults |
| Translation.ReturnVoidStopsTheModuleAsWritten | andersen/AndersonPointsToAnalysis.cpp:157-159 | as written, a module with a `ret void` anywhere faults; the corrected handler adds nothing for it |
| Handlers.HandleAlloca | andersen/AndersonPointsToAnalysis.cpp:17-24 | leaves the constraint state that `AllocaSpec` prescribes and faults exactly when it does |
| Handlers.BindArguments | andersen/AndersonPointsToAnalysis.cpp:36-50 | corrected: the argument loop over the callee's formals makes exactly the bindings `BindArgs` prescribes |
| Handlers.BindFormalTo | andersen/AndersonPointsToAnalysis.cpp:43-49 | one pass of the argument loop makes exactly the call `BindFormal` prescribes |
| Handlers.HandleCall | andersen/AndersonPointsToAnalysis.cpp:29-63 | corrected: leaves the state `CallSpec` prescribes and faults exactly when it does |
| Handlers.BindReturn | andersen/AndersonPointsToAnalysis.cpp:52-61 | the result part of the call handler leaves the state `BindResult` prescribes |
| Handlers.BindArgumentsAsWritten | andersen/AndersonPointsToAnalysis.cpp:34-50 | the loop as written, up to `getNumOperands()` over the enclosing function's formals, makes exactly the calls `BindArgsAsWritten` prescribes |
| Handlers.HandleCallAsWritten | andersen/AndersonPointsToAnalysis.cpp:29-63 | as written: leaves the state `CallSpecAsWritten` prescribes and faults exactly when it does |
| Handlers.HandleExtractValue | andersen/AndersonPointsToAnalysis.cpp:68-85 | the `GetChild` loop reaches the node `Descend` gives; leaves the state `ExtractValueSpec` prescribes |
| Handlers.HandleGetElementPtr | andersen/AndersonPointsToAnalysis.cpp:90-112 | leaves the state `GetElementPtrSpec` prescribes and faults exactly when it does |
| Handlers.BuildIndexSequence | andersen/AndersonPointsToAnalysis.cpp:99-109 | the index loop builds exactly `IndexSequence`, stopping at a constant too wide for 64 bits |
| Handlers.HandleLoad | andersen/AndersonPointsToAnalysis.cpp:117-131 | leaves the state `LoadSpec` prescribes |
| Handlers.AssignEach | andersen/AndersonPointsToAnalysis.cpp:145-151 | the copy loop makes exactly the calls `CopyEach` prescribes |
| Handlers.HandlePhi | andersen/AndersonPointsToAnalysis.cpp:136-152 | leaves the state `PhiSpec` prescribes |
| Handlers.HandleReturn | andersen/AndersonPointsToAnalysis.cpp:157-170 | corrected: leaves the state `ReturnSpec` prescribes, so `ret void` adds nothing |
| Handlers.AssignReturnValue | andersen/AndersonPointsToAnalysis.cpp:162-169 | `ret v` for a known `v` leaves the state `ReturnValueSpec` prescribes |
| Handlers.HandleReturnAsWritten | andersen/AndersonPointsToAnalysis.cpp:157-170 | as written: leaves the state `ReturnSpecAsWritten` prescribes, so `ret void` faults |
| Handlers.HandleSelect | andersen/AndersonPointsToAnalysis.cpp:175-194 | leaves the state `SelectSpec` prescribes |
| Handlers.HandleStore | andersen/AndersonPointsToAnalysis.cpp:199-214 | corrected: leaves the state `StoreSpec` prescribes, testing the stored value's type |
| Handlers.AssignPointee | andersen/AndersonPointsToAnalysis.cpp:206-213 | the store once its guard has passed leaves the state `StoreOperandsSpec` prescribes |
| Handlers.HandleStoreAsWritten | andersen/AndersonPointsToAnalysis.cpp:199-214 | as written: leaves the state `StoreSpecAsWritten` prescribes, testing the pointer operand's type |
| Handlers.UpdateAndersonSolverOnInst | andersen/AndersonPointsToAnalysis.cpp:228-235 | runs the handler of the instruction's kind in the given variant: the state `Dispatch` prescribes |
| Handlers.RunOnModule | andersen/AndersonPointsToAnalysis.cpp:243-252 | for a module whose instructions each belong to the function that holds them, the three nested loops leave the state of all calls `RunFunctions` prescribes in the given variant, and fault iff it does |
| BoundPragma.Step | CodeRefactor_recompile.cpp:72-112 | one iteration stops iff the token is not allowed or is `)` at depth 1, succeeding iff it is that `)`; otherwise depth stays at least 1 |
| BoundPragma.Split | CodeRefactor_recompile.cpp:59-118 | arguments are left untouched iff the first token is not `(`; success means exactly three arguments |
| BoundPragma.SplitArguments | CodeRefactor_recompile.cpp:59-118 | the token loop computes `Split`: the same arguments and the same error |
| BoundPragma.ScanClose | CodeRefactor_recompile.cpp:73-79 | `)` at depth 1 ends the loop and pushes the current argument unless it is empty |
| BoundPragma.ScanComma | CodeRefactor_recompile.cpp:88-91 | a comma at depth 1 pushes the current argument, even an empty one, and starts the next |
| BoundPragma.ScanSegment | CodeRefactor_recompile.cpp:71-108 | tokens inside one argument only extend its text and change the depth by their net parentheses |
| BoundPragma.ScanArguments | CodeRefactor_recompile.cpp:71-113 | well-formed arguments separated by commas and closed by `)` push exactly their texts |
| BoundPragma.SplitRender | CodeRefactor_recompile.cpp:59-118 | round trip: splitting `(a1, ..., an)` returns the arguments' texts (a last empty one is dropped) and succeeds iff three remain |
| BoundPragma.ThreeArgumentsAreAccepted | CodeRefactor_recompile.cpp:115-118 | three well-formed arguments, the last non-empty, are accepted with their texts |
| BoundPragma.TextOfWords | CodeRefactor_recompile.cpp:98-108 | a run of words becomes the words joined by single spaces |
| BoundPragma.FlatIsArgument | CodeRefactor_recompile.cpp:98-108 | any run of words and `|` is one argument |
| BoundPragma.GroupText | CodeRefactor_recompile.cpp:81-108 | a parenthesised group of words is kept with its parentheses, with a space after `(` |
| BoundPragma.UnclosedIsUnexpected | CodeRefactor_recompile.cpp:109-112 | reaching the end of the directive before the closing `)` is an error |
| BoundPragma.UnclosedPragmaIsRejected | CodeRefactor_recompile.cpp:109-112 | `(` followed by tokens that never close the list is rejected as an unexpected token |
| BoundPragma.UnexpectedTokenStops | CodeRefactor_recompile.cpp:109-112 | a token that may not appear in an argument stops the split, at any depth, and keeps the arguments already pushed |
| BoundPragma.BoundPragmaHandler.constructor | CodeRefactor_recompile.cpp:44-45 | starts unchecked with no arguments |
| BoundPragma.BoundPragmaHandler.HandlePragma | CodeRefactor_recompile.cpp:47-160 | once checked, returns at once and keeps the arguments; otherwise splits, keeps the split's arguments, and becomes checked iff the pragma was accepted; a checked handler always holds three arguments |
| BoundPragma.OnlyTheFirstPragmaCounts | CodeRefactor_recompile.cpp:53-56 | after an accepted pragma, a second one changes nothing |
| BoundPragma.DemoPragmaHandler.constructor | CodeRefactor_demo.cpp:41 | starts with no arguments |
| BoundPragma.DemoPragmaHandler.HandlePragma | CodeRefactor_demo.cpp:44-108 | with no guard, every pragma is split again and replaces the arguments unless it lacks `(` |
| Instrumentation.BoudCodeIsTheBoundLine | CodeRefactor_recompile.cpp:251-252 | the inserted allocation is one line: handle, `dasics_libcfg_alloc(A2, A0, A0 + A1 - 1)` |
| Instrumentation.BoundLineAssignsTheBufferHandle | CodeRefactor_recompile.cpp:251-252 | the allocation assigns the handle named `A0_handler` |
| Instrumentation.FreeCodeFreesBothHandles | CodeRefactor_recompile.cpp:255 | after a blank line, the code frees the buffer's handle, then the stack handle, one line each |
| Instrumentation.DemoBoudCodePrintsTheBoundLine | CodeRefactor_demo.cpp:169-170 | the demo prints the same allocation line inside `printf("...\n");` |
| Instrumentation.DemoFreeCodePrintsTheFrees | CodeRefactor_demo.cpp:173 | the demo prints the same two free lines in one `printf` |

## Left out

- The points-to solver (`PointsToSolver`, `Solve`, `TakeValueTree`) is not part of this model. The model stops at the constraints the translator records.
- Value-tree construction (`ValueTree(module)`, `InitializeChildren`, the type layout that gives each node its children) is not modelled. The tree shape is an input, and its constructor assumes a well-formed arena.
- `GetNumPointees`, `GetNumPointers` and the `GetNum...Roots` counters are left out; they are only size bookkeeping.
- The iterator classes of `PointeeSet`, `find`, and the `assigned_...` ranges are left out. Their iteration order is unspecified.
- LLVM type and kind queries (`isPointerTy`, `isa<GlobalObject>`, the linkage test, `isa<IntrinsicInst>`, `getCalledFunction`) are given as booleans and options on values and instructions.
- Translation.BindArgsBindsPointerFormals: states the corrected argument loop, over the callee's formals and the call's actuals. The loop as written is `BindArgsAsWritten`, whose fault condition is `BindArgsAsWrittenFaults` (Findings, row 2).
- Translation.CallBindsFormalsAndResult: states the corrected call handler. The handler as written is `CallSpecAsWritten`, with `CallAsWrittenFaultsWithoutSpareFormal` and `CallAsWrittenCounterexample`.
- Handlers.BindArguments: the corrected loop. The loop as written is `Handlers.BindArgumentsAsWritten`.
- Handlers.HandleCall: the corrected handler. The handler as written is `Handlers.HandleCallAsWritten`.
- Handlers.HandleReturn: the corrected handler, where `ret void` adds nothing. The handler as written is `Handlers.HandleReturnAsWritten` (Findings, row 3).
- Handlers.HandleStore: the corrected handler, whose guard tests the stored value. The handler as written is `Handlers.HandleStoreAsWritten` (Findings, row 4).
- ValueTreeNodes.IsExternal: the `llvm::cast<GlobalObject>` in the linkage test is taken to succeed, since only a global object has a linkage that can be external.
- The visitor is a pure function. A visitor with side effects is not modelled.
- `unordered_map` order is a parameter of `Visit`.
- A failed `llvm::cast` and a failed `assert` are both modelled as a fault. An NDEBUG build, where the assertions vanish and the code dereferences null, is not distinguished.
- Machine addresses of `Pointer` objects enter the hashes as a parameter. `std::hash` of integers is taken as the identity, as in libstdc++.
- `PointerAssignments.HashRespectsEquality`: hash-table bucket behaviour is not modelled, only that equal constraints hash equally.
- Pointers.Pointer.AssignedAddressOf: records by value identity, which is the corrected equality. The as-written behaviour is `PointerAssignments.EmplaceAsWritten` (Findings, row 1).
- The function-name lookahead after the arguments (recompile 125-155, demo 115-140) is left out. It fills `UFuncName` through a raw lexer, and its two diagnostics do not change `Args` or `BoundIsChecked`.
- The printed messages (`llvm::outs`) and diagnostics text are left out; only which error was reported is modelled.
- `UntrustedPragmaHandler::HandlePragma` (recompile 164-220) is left out. It only looks up a function name.
- The source range of each `Word` token is left out. Its spelling is taken as given, literals included.
- The rewriter's work in `FireMatchCallback::run` is left out: the order of `InsertText` calls (before the call, after its `;`), the scan for `;`, the `ReplaceText` of the call with ` lib_call(&Malicious, (uint64_t)stack_buffer);` (recompile 248) and the `main` lookup. The string equalities this would need exceed what this model proves cheaply; only the inserted strings are modelled.
- Instrumentation.SPHandeCode: the stack-handle code is given only as the source's literal, with no lemma. The recompiling version has a blank line before `stack_handler = ...`; the demo's printed version has none, and its `%%0` prints as `%0`.
- The handlers' `Args[0]`, `Args[1]` and `Args[2]` reads in `FireMatchCallback::run` are taken as three given strings. The demo reads them even after a rejected pragma; that out-of-range read is not modelled.

## Findings

| source | as written | input that shows it | evidently intended | confidence | as-written member | corrected member |
|---|---|---|---|---|---|---|
| andersen/AndersonPointsToAnalysis.h:130-157 | `PointerAssignedAddressOf` overrides neither `operator==` nor `GetHashCode`, so the base class compares kinds only and any two address-of constraints are equal | `p = &x` then `p = &y` with `x != y`: the second is reported as not new and is dropped | two address-of constraints equal iff they name the same pointee | not executed | PointerAssignments.SecondAddressOfIsLost | PointerAssignments.Equals |
| andersen/AndersonPointsToAnalysis.cpp:34-42 | the call handler binds the formals of `inst.getFunction()` (the caller) and loops to `getNumOperands()` (one more than the actuals) | `main()` with no formals calling `f(a)`: `getArg(0)` is out of range and nothing is bound | bind the formals of `getCalledFunction()` to the call's `arg_size()` actuals | not executed | Translation.CallAsWrittenCounterexample | Translation.CallBindsFormalsAndResult |
| andersen/AndersonPointsToAnalysis.cpp:158-159 | `getReturnValue()` is dereferenced without a null test | any `ret void`, whose return value is null | a `ret void` adds nothing | not executed | Translation.ReturnVoidAsWrittenFaults | Translation.ReturnSpec |
| andersen/AndersonPointsToAnalysis.cpp:200-204 | the guard tests the pointer operand's type, which is always a pointer, instead of what it points to (the commented-out line 201) | `store i32 0, ptr p`: the constant has no pointer node and the handler faults | storing a non-pointer value adds nothing | not executed | Translation.StoreOfNonPointerAsWrittenFaults | Translation.StoreSpec |
