/**
 * `ValueTreeNode`: one node of a value tree, stored in an arena indexed by
 * `NodeId`. A root node stands for an LLVM value (or the memory behind one);
 * a non-root node is a sub-object of its parent at some offset. Each node
 * owns one pointee, identified here by the node's own id.
 */
module ValueTreeNodes {
  import opened Common

  datatype ValueKind = Normal | StackMemory | GlobalMemory | ArgumentMemory | FunctionReturnValue

  /**
   * The fields of a node. The three booleans stand for LLVM queries the node
   * makes on its type and value: `isPointerTy()` of its type, and, for a root,
   * `isa<GlobalObject>` of its value and the available-externally linkage of
   * the global object behind a global-memory root.
   */
  datatype Node = Node(
    kind: ValueKind,
    value: Option<ValueId>,
    parent: Option<NodeId>,
    offset: nat,
    children: seq<NodeId>,
    isPointerType: bool,
    isGlobalObject: bool,
    availableExternally: bool)

  type Arena = seq<Node>

  /**
   * The arena holds a forest: parent links and child lists agree, a child has
   * a larger id than its parent, and a node carries a value (and offset 0)
   * exactly when it is a root.
   */
  ghost predicate WellFormed(a: Arena) {
    && (forall n :: 0 <= n < |a| && a[n].parent.Some? ==>
          a[n].parent.value < n && n in a[a[n].parent.value].children)
    && (forall n, i :: 0 <= n < |a| && 0 <= i < |a[n].children| ==>
          n < a[n].children[i] < |a| && a[a[n].children[i]].parent == Some(n))
    && (forall n, i, j :: 0 <= n < |a| && 0 <= i < j < |a[n].children| ==> a[n].children[i] != a[n].children[j])
    && (forall n :: 0 <= n < |a| ==> (a[n].parent.None? <==> a[n].value.Some?))
    && (forall n :: 0 <= n < |a| && a[n].parent.None? ==> a[n].offset == 0)
  }

  /** An arena of parentless, childless root nodes, one value each, is well formed. */
  lemma RootsOnlyAreWellFormed(a: Arena)
    requires forall n :: 0 <= n < |a| ==> a[n].parent.None? && a[n].children == [] && a[n].value.Some? && a[n].offset == 0
    ensures WellFormed(a)
  {
  }

  /** `isRoot()`: the node has no parent. */
  predicate IsRoot(a: Arena, n: NodeId)
    requires n < |a|
  {
    a[n].parent.None?
  }

  /** The root of the tree that holds `n`, reached by following parent links. */
  function RootOf(a: Arena, n: NodeId): (r: NodeId)
    requires WellFormed(a) && n < |a|
    ensures r <= n && IsRoot(a, r)
    ensures IsRoot(a, n) ==> r == n
    ensures !IsRoot(a, n) ==> r == RootOf(a, a[n].parent.value)
    decreases n
  {
    match a[n].parent
    case None => n
    case Some(p) => RootOf(a, p)
  }

  /** `isGlobal()`: a non-root asks its parent; a root asks whether its value is a global object. */
  function IsGlobal(a: Arena, n: NodeId): (r: bool)
    requires WellFormed(a) && n < |a|
    ensures r == a[RootOf(a, n)].isGlobalObject
    decreases n
  {
    match a[n].parent
    case Some(p) => IsGlobal(a, p)
    case None => a[n].isGlobalObject
  }

  /** Whether a root node stands for something defined outside the module. */
  predicate RootIsExternal(root: Node) {
    match root.kind
    case ArgumentMemory => true
    case GlobalMemory => root.availableExternally
    case _ => false
  }

  /**
   * `isExternal()`: a non-root asks its parent. Argument memory is external;
   * global memory is external when its global has available-externally
   * linkage; every other root is not.
   */
  function IsExternal(a: Arena, n: NodeId): (r: bool)
    requires WellFormed(a) && n < |a|
    ensures r == RootIsExternal(a[RootOf(a, n)])
    ensures IsRoot(a, n) && a[n].kind == ArgumentMemory ==> r
    ensures IsRoot(a, n) && a[n].kind == GlobalMemory ==> (r <==> a[n].availableExternally)
    ensures IsRoot(a, n) && (a[n].kind == Normal || a[n].kind == StackMemory || a[n].kind == FunctionReturnValue) ==> !r
    decreases n
  {
    match a[n].parent
    case Some(p) => IsExternal(a, p)
    case None =>
      if a[n].kind == ArgumentMemory then true
      else if a[n].kind == GlobalMemory then a[n].availableExternally
      else false
  }

  /** The LLVM classes the four root getters cast a root's value to, and every other class. */
  datatype ValueClass = AllocaInstValue | GlobalVariableValue | ArgumentValue | FunctionValue | OtherValue

  /**
   * `GetStackMemoryAllocator()` (`want` is `AllocaInstValue`),
   * `GetGlobalVariable()`, `GetArgument()` and `GetFunction()`: a non-root
   * asks its parent; a root casts its own value to the class `want`, and
   * `None` stands for the assertion failure of that `llvm::cast` when the
   * value is of another class. `classOf` gives each value's LLVM class.
   */
  function RootValue(a: Arena, n: NodeId, classOf: ValueId -> ValueClass, want: ValueClass): (r: Option<ValueId>)
    requires WellFormed(a) && n < |a|
    ensures a[RootOf(a, n)].value.Some?
    ensures r.Some? <==> classOf(a[RootOf(a, n)].value.value) == want
    ensures r.Some? ==> r == a[RootOf(a, n)].value
    decreases n
  {
    match a[n].parent
    case Some(p) => RootValue(a, p, classOf, want)
    case None => if classOf(a[n].value.value) == want then a[n].value else None
  }

  /** `GetChild(index)`: `None` stands for the out-of-range assertion failure. */
  function GetChild(a: Arena, n: NodeId, index: nat): (r: Option<NodeId>)
    requires WellFormed(a) && n < |a|
    ensures r.None? <==> index >= |a[n].children|
    ensures r.Some? ==> r.value < |a| && a[r.value].parent == Some(n) && r.value == a[n].children[index]
  {
    if index < |a[n].children| then Some(a[n].children[index]) else None
  }

  /** The nodes of the tree rooted at `n`, in pre-order. */
  function PreOrder(a: Arena, n: NodeId): (r: seq<NodeId>)
    requires WellFormed(a) && n < |a|
    ensures |r| > 0 && r[0] == n
    ensures forall k :: 0 <= k < |r| ==> n <= r[k] < |a|
    decreases |a| - n, 1
  {
    [n] + PreOrderFrom(a, n, 0)
  }

  /** The pre-orders of the children of `n` from the `i`-th on, concatenated. */
  function PreOrderFrom(a: Arena, n: NodeId, i: nat): (r: seq<NodeId>)
    requires WellFormed(a) && n < |a| && i <= |a[n].children|
    ensures forall k :: 0 <= k < |r| ==> n < r[k] < |a|
    decreases |a| - n, 0, |a[n].children| - i
  {
    if i == |a[n].children| then []
    else PreOrder(a, a[n].children[i]) + PreOrderFrom(a, n, i + 1)
  }

  /** `m` lies in the tree rooted at `n`: following parent links from `m` reaches `n`. */
  ghost predicate IsDescendant(a: Arena, m: NodeId, n: NodeId)
    requires WellFormed(a) && m < |a|
    decreases m
  {
    m == n || (a[m].parent.Some? && IsDescendant(a, a[m].parent.value, n))
  }

  /** A node in the tree of a child of `n` lies in the tree of `n`, below `n`. */
  lemma {:induction false} DescendantOfChild(a: Arena, m: NodeId, n: NodeId, j: nat)
    requires WellFormed(a) && m < |a| && n < |a| && j < |a[n].children|
    requires IsDescendant(a, m, a[n].children[j])
    ensures IsDescendant(a, m, n) && n < m
    decreases m
  {
    if m != a[n].children[j] {
      DescendantOfChild(a, a[m].parent.value, n, j);
    }
  }

  /** The child of `n` through which the parent links of a proper descendant `m` pass. */
  lemma {:induction false} ChildOnPath(a: Arena, m: NodeId, n: NodeId) returns (j: nat)
    requires WellFormed(a) && m < |a| && n < |a| && IsDescendant(a, m, n) && m != n
    ensures j < |a[n].children| && IsDescendant(a, m, a[n].children[j])
    decreases m
  {
    var p := a[m].parent.value;
    if p == n {
      assert m in a[n].children;
      var k :| 0 <= k < |a[n].children| && a[n].children[k] == m;
      j := k;
    } else {
      j := ChildOnPath(a, p, n);
    }
  }

  /** A tree's pre-order lists exactly the nodes of that tree. */
  lemma {:induction false} PreOrderIsSubtree(a: Arena, n: NodeId)
    requires WellFormed(a) && n < |a|
    ensures forall m: NodeId :: m in PreOrder(a, n) <==> m < |a| && IsDescendant(a, m, n)
    decreases |a| - n, 1
  {
    PreOrderFromIsSubtree(a, n, 0);
    forall m: NodeId | m < |a|
      ensures m in PreOrder(a, n) <==> IsDescendant(a, m, n)
    {
      if m != n && IsDescendant(a, m, n) {
        var j := ChildOnPath(a, m, n);
      }
      if m in PreOrderFrom(a, n, 0) {
        var j :| 0 <= j < |a[n].children| && m < |a| && IsDescendant(a, m, a[n].children[j]);
        DescendantOfChild(a, m, n, j);
      }
    }
  }

  lemma {:induction false} PreOrderFromIsSubtree(a: Arena, n: NodeId, i: nat)
    requires WellFormed(a) && n < |a| && i <= |a[n].children|
    ensures forall m: NodeId :: m in PreOrderFrom(a, n, i) <==>
      exists j :: i <= j < |a[n].children| && m < |a| && IsDescendant(a, m, a[n].children[j])
    decreases |a| - n, 0, |a[n].children| - i
  {
    if i < |a[n].children| {
      PreOrderIsSubtree(a, a[n].children[i]);
      PreOrderFromIsSubtree(a, n, i + 1);
    }
  }

  /** Every node of a tree shares the tree's root. */
  lemma {:induction false} PreOrderSharesRoot(a: Arena, n: NodeId)
    requires WellFormed(a) && n < |a|
    ensures forall k :: 0 <= k < |PreOrder(a, n)| ==> RootOf(a, PreOrder(a, n)[k]) == RootOf(a, n)
    decreases |a| - n, 1
  {
    PreOrderFromSharesRoot(a, n, 0);
  }

  lemma {:induction false} PreOrderFromSharesRoot(a: Arena, n: NodeId, i: nat)
    requires WellFormed(a) && n < |a| && i <= |a[n].children|
    ensures forall k :: 0 <= k < |PreOrderFrom(a, n, i)| ==> RootOf(a, PreOrderFrom(a, n, i)[k]) == RootOf(a, n)
    decreases |a| - n, 0, |a[n].children| - i
  {
    if i < |a[n].children| {
      var c := a[n].children[i];
      PreOrderSharesRoot(a, c);
      PreOrderFromSharesRoot(a, n, i + 1);
      assert RootOf(a, c) == RootOf(a, n);
    }
  }

  /** Consequently the whole tree is global, or external, exactly when its root is. */
  lemma TreeSharesScope(a: Arena, n: NodeId, k: nat)
    requires WellFormed(a) && n < |a| && k < |PreOrder(a, n)|
    ensures IsGlobal(a, PreOrder(a, n)[k]) == IsGlobal(a, n)
    ensures IsExternal(a, PreOrder(a, n)[k]) == IsExternal(a, n)
  {
    PreOrderSharesRoot(a, n);
  }

  /** What the visitor is shown, and whether every call returned true. */
  datatype VisitResult = VisitResult(completed: bool, visited: seq<NodeId>)

  /**
   * `Visit(visitor)`: calls the visitor on this node, then visits the children
   * in order, stopping at the first false. `visited` lists the nodes the
   * visitor was called on, in call order.
   */
  function Visit(a: Arena, n: NodeId, visitor: NodeId -> bool): (r: VisitResult)
    requires WellFormed(a) && n < |a|
    decreases |a| - n, 1
  {
    if !visitor(n) then VisitResult(false, [n])
    else
      var rest := VisitChildren(a, n, 0, visitor);
      VisitResult(rest.completed, [n] + rest.visited)
  }

  function VisitChildren(a: Arena, n: NodeId, i: nat, visitor: NodeId -> bool): (r: VisitResult)
    requires WellFormed(a) && n < |a| && i <= |a[n].children|
    decreases |a| - n, 0, |a[n].children| - i
  {
    if i == |a[n].children| then VisitResult(true, [])
    else
      var first := Visit(a, a[n].children[i], visitor);
      if !first.completed then first
      else
        var rest := VisitChildren(a, n, i + 1, visitor);
        VisitResult(rest.completed, first.visited + rest.visited)
  }

  predicate AllAccepted(s: seq<NodeId>, visitor: NodeId -> bool) {
    forall k :: 0 <= k < |s| ==> visitor(s[k])
  }

  lemma AllAcceptedTail(s: seq<NodeId>, visitor: NodeId -> bool)
    requires s != [] && visitor(s[0])
    ensures AllAccepted(s, visitor) <==> AllAccepted(s[1..], visitor)
  {
    assert forall k :: 1 <= k < |s| ==> s[k] == s[1..][k - 1];
  }

  /**
   * The prefix of `s` a visitor that stops at its first false is called on:
   * all of `s` when every element is accepted, and otherwise up to and
   * including the first rejected element.
   */
  function StopPrefix(s: seq<NodeId>, visitor: NodeId -> bool): (r: seq<NodeId>)
    ensures r <= s
    ensures forall k :: 0 <= k < |r| - 1 ==> visitor(r[k])
    ensures AllAccepted(s, visitor) ==> r == s
    ensures !AllAccepted(s, visitor) ==> |r| > 0 && !visitor(r[|r| - 1])
  {
    if s == [] then []
    else if !visitor(s[0]) then [s[0]]
    else
      AllAcceptedTail(s, visitor);
      [s[0]] + StopPrefix(s[1..], visitor)
  }

  lemma {:induction false} StopPrefixAppend(s: seq<NodeId>, t: seq<NodeId>, visitor: NodeId -> bool)
    ensures StopPrefix(s + t, visitor) ==
      if AllAccepted(s, visitor) then s + StopPrefix(t, visitor) else StopPrefix(s, visitor)
  {
    if s != [] {
      assert (s + t)[0] == s[0];
      assert (s + t)[1..] == s[1..] + t;
      if visitor(s[0]) {
        StopPrefixAppend(s[1..], t, visitor);
        AllAcceptedTail(s, visitor);
        if AllAccepted(s, visitor) {
          assert s == [s[0]] + s[1..];
        }
      }
    } else {
      assert s + t == t;
    }
  }

  lemma AllAcceptedAppend(s: seq<NodeId>, t: seq<NodeId>, visitor: NodeId -> bool)
    ensures AllAccepted(s + t, visitor) <==> AllAccepted(s, visitor) && AllAccepted(t, visitor)
  {
    assert forall k :: 0 <= k < |s| ==> (s + t)[k] == s[k];
    assert forall k :: 0 <= k < |t| ==> (s + t)[|s| + k] == t[k];
    if AllAccepted(s, visitor) && AllAccepted(t, visitor) {
      forall k | 0 <= k < |s + t|
        ensures visitor((s + t)[k])
      {
        if k >= |s| {
          assert (s + t)[k] == t[k - |s|];
        }
      }
    }
  }

  /**
   * `Visit` calls the visitor in pre-order, stops at the first false, and
   * returns true iff the visitor accepted every node of the tree.
   */
  lemma {:induction false} VisitIsPreOrder(a: Arena, n: NodeId, visitor: NodeId -> bool)
    requires WellFormed(a) && n < |a|
    ensures Visit(a, n, visitor).completed <==> AllAccepted(PreOrder(a, n), visitor)
    ensures Visit(a, n, visitor).visited == StopPrefix(PreOrder(a, n), visitor)
    decreases |a| - n, 1
  {
    var tail := PreOrderFrom(a, n, 0);
    assert PreOrder(a, n) == [n] + tail;
    StopPrefixAppend([n], tail, visitor);
    AllAcceptedAppend([n], tail, visitor);
    if visitor(n) {
      VisitChildrenIsPreOrder(a, n, 0, visitor);
    } else {
      assert StopPrefix([n], visitor) == [n];
    }
  }

  lemma {:induction false} VisitChildrenIsPreOrder(a: Arena, n: NodeId, i: nat, visitor: NodeId -> bool)
    requires WellFormed(a) && n < |a| && i <= |a[n].children|
    ensures VisitChildren(a, n, i, visitor).completed <==> AllAccepted(PreOrderFrom(a, n, i), visitor)
    ensures VisitChildren(a, n, i, visitor).visited == StopPrefix(PreOrderFrom(a, n, i), visitor)
    decreases |a| - n, 0, |a[n].children| - i
  {
    if i < |a[n].children| {
      var c := a[n].children[i];
      VisitIsPreOrder(a, c, visitor);
      VisitChildrenIsPreOrder(a, n, i + 1, visitor);
      StopPrefixAppend(PreOrder(a, c), PreOrderFrom(a, n, i + 1), visitor);
      AllAcceptedAppend(PreOrder(a, c), PreOrderFrom(a, n, i + 1), visitor);
    }
  }
}
