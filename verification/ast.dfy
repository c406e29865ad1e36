/** The syntax tree store. Nodes, functions, variables and scopes live in
    bucket arrays whose elements never move, so a pointer to one of them is
    modelled as its index. A node records its parent, its children in
    order, and a link for the free list on which removed nodes wait to be
    reused. */
module Ast {
  import opened Wrappers
  import opened Tokens
  import IrDs

  type NodeId = nat
  type ScopeId = nat
  type VarId = nat
  type FunId = nat

  /** `Node_Type` */
  datatype NodeType = NUnknown | NProgram | NVarDecl | NAssign | NFunction | NStatementSeq
    | NReturn | NExpr | NVar | NIf | NElse | NConstant

  /** `Expr_Op_Type`: binary arithmetic and bitwise (B), comparison and
      logical (C), and unary (U) operations. */
  datatype ExprOp = ExUnknown
    | BAdd | BSub | BMul | BDiv | BMod | BShiftL | BShiftR | BAnd | BXor | BOr
    | COr | CAnd | CEq | CNeq | CLt | CLtEq | CGt | CGtEq
    | UAdd | USub | UPreInc | UPreDec | ULogicInv | UBinInv | UCast
  {
    /** The enumerator's value. */
    function Ord(): nat
    {
      match this
      case ExUnknown => 0
      case BAdd => 1
      case BSub => 2
      case BMul => 3
      case BDiv => 4
      case BMod => 5
      case BShiftL => 6
      case BShiftR => 7
      case BAnd => 8
      case BXor => 9
      case BOr => 10
      case COr => 11
      case CAnd => 12
      case CEq => 13
      case CNeq => 14
      case CLt => 15
      case CLtEq => 16
      case CGt => 17
      case CGtEq => 18
      case UAdd => 19
      case USub => 20
      case UPreInc => 21
      case UPreDec => 22
      case ULogicInv => 23
      case UBinInv => 24
      case UCast => 25
    }

    /** The comparison and logical operations, `EX_C_OR` to `EX_C_GTEQ`. */
    predicate IsComparison()
    {
      COr.Ord() <= Ord() <= CGtEq.Ord()
    }
  }

  /** The value of a constant as far as the model knows it: `Known(v)` is the
      exact mathematical value; `Untracked` is a floating-point value, or an
      integer that went through a conversion the model does not track. */
  datatype Val = Known(v: int) | Untracked

  /** `Constant`: its type and value. */
  datatype Constant = Constant(ctype: DataType, value: Val)

  /** `Expr`: the operation and the type of its result. */
  datatype Expr = Expr(op: ExprOp, resultType: DataType)

  /** `Variable`. Tokens are indices into the token sequence. */
  datatype Variable = Variable(token: nat, vtype: DataType, name: string, scope: ScopeId)

  /** `Scope`: its enclosing scope and its variables in creation order. */
  datatype Scope = Scope(parent: Option<ScopeId>, variables: seq<VarId>)

  /** `Function` */
  datatype Function = Function(scope: Option<ScopeId>, params: seq<VarId>, returnType: DataType,
                               name: string, token: nat)

  /** `Node`. The C++ struct overlays `fun`, `var`, `con` and `exp` in one
      union; here they are separate fields, each read only for the node
      types that use it. */
  datatype Node = Node(
    ntype: NodeType,
    parent: Option<NodeId>,
    children: seq<NodeId>,
    scope: ScopeId,
    token: nat,
    hasError: bool,
    nextFree: Option<NodeId>,
    implicit: bool,
    fun: Option<FunId>,
    variable: Option<VarId>,
    con: Constant,
    exp: Expr)

  /** A zero-initialised node. */
  const ZeroNode: Node := Node(NUnknown, None, [], 0, 0, false, None, false, None, None,
                               Constant(DataType.Unknown, Known(0)), Expr(ExUnknown, DataType.Unknown))

  /** `AST` */
  datatype Tree = Tree(
    nodes: seq<Node>,
    funs: seq<Function>,
    vars: seq<Variable>,
    scopes: seq<Scope>,
    root: Option<NodeId>,
    globalScope: ScopeId,
    freeList: Option<NodeId>,
    hasError: bool)

  predicate OptBelow(o: Option<nat>, n: nat)
  {
    o.Some? ==> o.value < n
  }

  /** Every reference held by `n` names an existing element. */
  predicate NodeOk(n: Node, nodeCount: nat, scopeCount: nat, varCount: nat, funCount: nat)
  {
    && OptBelow(n.parent, nodeCount)
    && (forall k :: 0 <= k < |n.children| ==> n.children[k] < nodeCount)
    && n.scope < scopeCount
    && OptBelow(n.nextFree, nodeCount)
    && OptBelow(n.fun, funCount)
    && OptBelow(n.variable, varCount)
  }

  /** A scope's parent was created before it, so walking parents ends. */
  predicate ScopeOk(s: Scope, index: nat, varCount: nat)
  {
    && OptBelow(s.parent, index)
    && (forall k :: 0 <= k < |s.variables| ==> s.variables[k] < varCount)
  }

  predicate FunOk(f: Function, scopeCount: nat, varCount: nat)
  {
    && OptBelow(f.scope, scopeCount)
    && (forall k :: 0 <= k < |f.params| ==> f.params[k] < varCount)
  }

  /** Every reference in the store names an existing element. */
  predicate Valid(t: Tree)
  {
    && |t.scopes| > 0
    && (forall i :: 0 <= i < |t.nodes| ==> NodeOk(t.nodes[i], |t.nodes|, |t.scopes|, |t.vars|, |t.funs|))
    && (forall i :: 0 <= i < |t.scopes| ==> ScopeOk(t.scopes[i], i, |t.vars|))
    && (forall i :: 0 <= i < |t.vars| ==> t.vars[i].scope < |t.scopes|)
    && (forall i :: 0 <= i < |t.funs| ==> FunOk(t.funs[i], |t.scopes|, |t.vars|))
    && t.globalScope < |t.scopes|
    && OptBelow(t.root, |t.nodes|)
    && OptBelow(t.freeList, |t.nodes|)
  }

  /** An empty store with only the global scope (`init_parser`). */
  function EmptyTree(): (t: Tree)
    ensures Valid(t) && |t.nodes| == 0 && |t.scopes| == 1 && t.scopes[t.globalScope] == Scope(None, [])
  {
    Tree([], [], [], [Scope(None, [])], None, 0, None, false)
  }

  /** Replaces node `id`, keeping everything else. */
  function SetNode(t: Tree, id: NodeId, n: Node): (r: Tree)
    requires Valid(t) && id < |t.nodes| && NodeOk(n, |t.nodes|, |t.scopes|, |t.vars|, |t.funs|)
    ensures Valid(r) && |r.nodes| == |t.nodes|
    ensures r.nodes[id] == n
    ensures forall k :: 0 <= k < |t.nodes| && k != id ==> r.nodes[k] == t.nodes[k]
    ensures r.scopes == t.scopes && r.vars == t.vars && r.funs == t.funs
    ensures r.root == t.root && r.freeList == t.freeList && r.hasError == t.hasError
    ensures r.globalScope == t.globalScope
  {
    t.(nodes := t.nodes[id := n])
  }

  /** Replaces variable `id`; the caller fills in the name and type. */
  function SetVariable(t: Tree, id: VarId, v: Variable): (r: Tree)
    requires Valid(t) && id < |t.vars| && v.scope < |t.scopes|
    ensures Valid(r) && r.vars == t.vars[id := v]
    ensures r.nodes == t.nodes && r.scopes == t.scopes && r.funs == t.funs
    ensures r.root == t.root && r.freeList == t.freeList && r.hasError == t.hasError
    ensures r.globalScope == t.globalScope
  {
    t.(vars := t.vars[id := v])
  }

  /** Replaces function `id`. */
  function SetFunction(t: Tree, id: FunId, f: Function): (r: Tree)
    requires Valid(t) && id < |t.funs| && FunOk(f, |t.scopes|, |t.vars|)
    ensures Valid(r) && r.funs == t.funs[id := f]
    ensures r.nodes == t.nodes && r.scopes == t.scopes && r.vars == t.vars
    ensures r.root == t.root && r.freeList == t.freeList && r.hasError == t.hasError
    ensures r.globalScope == t.globalScope
  {
    t.(funs := t.funs[id := f])
  }

  /** `ast_node_add_child`: the child's parent becomes `parent` and the
      child is appended to `parent`'s children; no child changes nothing. */
  function AddChild(t: Tree, parent: NodeId, child: Option<NodeId>): (r: Tree)
    requires Valid(t) && parent < |t.nodes| && OptBelow(child, |t.nodes|)
    ensures Valid(r) && |r.nodes| == |t.nodes|
    ensures child.None? ==> r == t
    ensures child.Some? ==> r.nodes[parent].children == t.nodes[parent].children + [child.value]
    ensures child.Some? ==> r.nodes[child.value].parent == Some(parent)
    ensures child.Some? && child.value != parent ==>
      && r.nodes[parent] == t.nodes[parent].(children := t.nodes[parent].children + [child.value])
      && r.nodes[child.value] == t.nodes[child.value].(parent := Some(parent))
    ensures forall k :: 0 <= k < |t.nodes| && k != parent && (child.None? || k != child.value) ==> r.nodes[k] == t.nodes[k]
    ensures r.scopes == t.scopes && r.vars == t.vars && r.funs == t.funs
    ensures r.root == t.root && r.freeList == t.freeList && r.hasError == t.hasError
    ensures r.globalScope == t.globalScope
  {
    match child
    case None => t
    case Some(c) =>
      var t1 := SetNode(t, c, t.nodes[c].(parent := Some(parent)));
      SetNode(t1, parent, t1.nodes[parent].(children := t1.nodes[parent].children + [c]))
  }

  /** Position of the first occurrence of `x` in `s`. */
  function FirstIndex(s: seq<nat>, x: nat): (r: Option<nat>)
    ensures r.Some? ==> r.value < |s| && s[r.value] == x && x !in s[..r.value]
    ensures r.None? ==> x !in s
  {
    if |s| == 0 then None
    else if s[0] == x then Some(0)
    else
      match FirstIndex(s[1..], x)
      case None => None
      case Some(i) =>
        assert s[..i + 1] == [s[0]] + s[1..][..i];
        Some(i + 1)
  }

  /** The children of `p` without the first occurrence of `x`. */
  function WithoutFirst(s: seq<nat>, x: nat): (r: seq<nat>)
    ensures x !in s ==> r == s
    ensures x in s ==> exists i :: 0 <= i < |s| && s[i] == x && x !in s[..i] && r == s[..i] + s[i + 1..]
  {
    match FirstIndex(s, x)
    case None => s
    case Some(i) => IrDs.DelN(s, i, 1)
  }

  /** `ast_move_node`: the node leaves its recorded parent's children (only
      the first occurrence goes), then is appended under `newParent` if one
      is given. Without a new parent the node's own `parent` field is left
      as it was. */
  function MoveNode(t: Tree, node: NodeId, newParent: Option<NodeId>): (r: Tree)
    requires Valid(t) && node < |t.nodes| && OptBelow(newParent, |t.nodes|)
    ensures Valid(r) && |r.nodes| == |t.nodes|
    ensures r.scopes == t.scopes && r.vars == t.vars && r.funs == t.funs
    ensures r.root == t.root && r.freeList == t.freeList && r.hasError == t.hasError
  {
    var t1 := Detach(t, node);
    if newParent.Some? then AddChild(t1, newParent.value, Some(node)) else t1
  }

  /** The first half of `ast_move_node`. */
  function Detach(t: Tree, node: NodeId): (r: Tree)
    requires Valid(t) && node < |t.nodes|
    ensures Valid(r) && |r.nodes| == |t.nodes|
    ensures t.nodes[node].parent.None? ==> r == t
    ensures t.nodes[node].parent.Some? ==>
      var p := t.nodes[node].parent.value;
      && r.nodes[p].children == WithoutFirst(t.nodes[p].children, node)
      && r.nodes[p] == t.nodes[p].(children := r.nodes[p].children)
      && forall k :: 0 <= k < |t.nodes| && k != p ==> r.nodes[k] == t.nodes[k]
    ensures r.scopes == t.scopes && r.vars == t.vars && r.funs == t.funs
    ensures r.root == t.root && r.freeList == t.freeList && r.hasError == t.hasError
  {
    match t.nodes[node].parent
    case None => t
    case Some(p) =>
      var kids := WithoutFirst(t.nodes[p].children, node);
      assert forall k :: 0 <= k < |kids| ==> kids[k] in t.nodes[p].children;
      SetNode(t, p, t.nodes[p].(children := kids))
  }

  /** Moving to a new parent: the node is the last child there, its parent
      is the new one, and the old parent lost exactly its first
      occurrence. Without a new parent the stale parent link stays. */
  lemma MoveNodeEffect(t: Tree, node: NodeId, newParent: Option<NodeId>)
    requires Valid(t) && node < |t.nodes| && OptBelow(newParent, |t.nodes|)
    ensures var r := MoveNode(t, node, newParent);
      newParent.Some? ==>
        && r.nodes[node].parent == newParent
        && |r.nodes[newParent.value].children| > 0
        && r.nodes[newParent.value].children[|r.nodes[newParent.value].children| - 1] == node
    ensures newParent.None? ==> MoveNode(t, node, newParent).nodes[node].parent == t.nodes[node].parent
    ensures var r := MoveNode(t, node, newParent);
      t.nodes[node].parent.Some? && t.nodes[node].parent != newParent ==>
        r.nodes[t.nodes[node].parent.value].children == WithoutFirst(t.nodes[t.nodes[node].parent.value].children, node)
  {
  }

  /** `ast_insert_between`. Inside the children, slot `index` takes
      `newNode`, whose parent becomes `parent`, and the displaced child is
      appended to `newNode`'s children. At the end (or with no children)
      `newNode` is appended. An index past the end is asserted against. */
  function InsertBetween(t: Tree, parent: NodeId, index: nat, newNode: NodeId): (r: Tree)
    requires Valid(t) && parent < |t.nodes| && newNode < |t.nodes|
    requires index <= |t.nodes[parent].children|
    ensures Valid(r) && |r.nodes| == |t.nodes|
    ensures r.scopes == t.scopes && r.vars == t.vars && r.funs == t.funs
    ensures r.root == t.root && r.freeList == t.freeList && r.hasError == t.hasError
  {
    var kids := t.nodes[parent].children;
    if index < |kids| then
      var child := kids[index];
      var t1 := SetNode(t, newNode, t.nodes[newNode].(parent := Some(parent)));
      var t2 := SetNode(t1, parent, t1.nodes[parent].(children := t1.nodes[parent].children[index := newNode]));
      AddChild(t2, newNode, Some(child))
    else
      AddChild(t, parent, Some(newNode))
  }

  /** The effect of inserting inside the children: the new node takes the
      slot, the displaced child hangs below it, the other slots keep their
      children, and no other node or field changes. */
  lemma InsertBetweenEffect(t: Tree, parent: NodeId, index: nat, newNode: NodeId)
    requires Valid(t) && parent < |t.nodes| && newNode < |t.nodes|
    requires index < |t.nodes[parent].children|
    requires newNode != parent && newNode !in t.nodes[parent].children
    ensures var r := InsertBetween(t, parent, index, newNode);
      var kids := t.nodes[parent].children;
      && r.nodes[parent].children == kids[index := newNode]
      && r.nodes[newNode].parent == Some(parent)
      && r.nodes[newNode].children == t.nodes[newNode].children + [kids[index]]
      && r.nodes[kids[index]].parent == Some(newNode)
    ensures var r := InsertBetween(t, parent, index, newNode);
      var kids := t.nodes[parent].children;
      && r.nodes[newNode] == t.nodes[newNode].(parent := Some(parent), children := t.nodes[newNode].children + [kids[index]])
      && (kids[index] != parent ==>
            && r.nodes[parent] == t.nodes[parent].(children := kids[index := newNode])
            && r.nodes[kids[index]] == t.nodes[kids[index]].(parent := Some(newNode)))
      && (kids[index] == parent ==>
            r.nodes[parent] == t.nodes[parent].(children := kids[index := newNode], parent := Some(newNode)))
      && forall k :: 0 <= k < |t.nodes| && k != parent && k != newNode && k != kids[index] ==> r.nodes[k] == t.nodes[k]
  {
  }

  /** Inserting at the end appends, as `AddChild` does. */
  lemma InsertAtEndAppends(t: Tree, parent: NodeId, newNode: NodeId)
    requires Valid(t) && parent < |t.nodes| && newNode < |t.nodes|
    ensures InsertBetween(t, parent, |t.nodes[parent].children|, newNode) == AddChild(t, parent, Some(newNode))
  {
  }

  /** `ast_create_node`: the free-list head if there is one, otherwise a
      new zero node at the end. Only the token and the scope are written,
      so a reused node keeps everything else it had. */
  function CreateNode(t: Tree, scope: ScopeId, token: nat): (r: (Tree, NodeId))
    requires Valid(t) && scope < |t.scopes|
    ensures Valid(r.0) && r.1 < |r.0.nodes|
    ensures t.freeList.Some? ==>
      && r.1 == t.freeList.value
      && |r.0.nodes| == |t.nodes|
      && r.0.freeList == t.nodes[r.1].nextFree
      && r.0.nodes[r.1] == t.nodes[r.1].(token := token, scope := scope)
    ensures t.freeList.None? ==>
      && r.1 == |t.nodes|
      && r.0.nodes == t.nodes + [ZeroNode.(token := token, scope := scope)]
      && r.0.freeList == None
    ensures forall k :: 0 <= k < |t.nodes| && k != r.1 ==> r.0.nodes[k] == t.nodes[k]
    ensures r.0.scopes == t.scopes && r.0.vars == t.vars && r.0.funs == t.funs
    ensures r.0.hasError == t.hasError && r.0.globalScope == t.globalScope
    ensures r.0.root == t.root
  {
    match t.freeList
    case Some(h) =>
      var t1 := SetNode(t, h, t.nodes[h].(token := token, scope := scope));
      (t1.(freeList := t.nodes[h].nextFree), h)
    case None =>
      var n := ZeroNode.(token := token, scope := scope);
      var t1 := t.(nodes := t.nodes + [n]);
      assert forall i :: 0 <= i < |t.nodes| ==> t1.nodes[i] == t.nodes[i];
      (t1, |t.nodes|)
  }

  /** `ast_remove_node`: detach from the parent (`ast_move_node` with no new
      parent, which is `Detach`), then become the head of the
      free list. The node's own children are left as they were. */
  function RemoveNode(t: Tree, node: NodeId): (r: Tree)
    requires Valid(t) && node < |t.nodes|
    ensures Valid(r) && |r.nodes| == |t.nodes|
    ensures r.freeList == Some(node)
    ensures r.nodes[node].nextFree == t.freeList
    ensures forall k :: 0 <= k < |t.nodes| && k != node && Some(k) != t.nodes[node].parent ==> r.nodes[k] == t.nodes[k]
    ensures t.nodes[node].parent != Some(node) ==> r.nodes[node] == t.nodes[node].(nextFree := t.freeList)
    ensures t.nodes[node].parent.Some? && t.nodes[node].parent != Some(node) ==>
      var p := t.nodes[node].parent.value;
      r.nodes[p] == t.nodes[p].(children := WithoutFirst(t.nodes[p].children, node))
    ensures r.scopes == t.scopes && r.vars == t.vars && r.funs == t.funs
    ensures r.root == t.root && r.hasError == t.hasError && r.globalScope == t.globalScope
  {
    var t1 := if t.nodes[node].parent.Some? then Detach(t, node) else t;
    var t2 := SetNode(t1, node, t1.nodes[node].(nextFree := t.freeList));
    t2.(freeList := Some(node))
  }

  /** The free list is last in, first out: the node removed last is the
      next one handed out, with everything it held except its token and
      scope. */
  lemma RemoveThenCreateReuses(t: Tree, node: NodeId, scope: ScopeId, token: nat)
    requires Valid(t) && node < |t.nodes| && scope < |t.scopes|
    ensures var t1 := RemoveNode(t, node);
      var (t2, id) := CreateNode(t1, scope, token);
      && id == node
      && t2.freeList == t.freeList
      && t2.nodes[id] == t1.nodes[node].(token := token, scope := scope)
  {
  }

  /** `ast_create_fun`: a new function with no parameters. */
  function CreateFun(t: Tree, token: nat): (r: (Tree, FunId))
    requires Valid(t)
    ensures Valid(r.0) && r.1 == |t.funs|
    ensures r.0.funs == t.funs + [Function(None, [], DataType.Unknown, [], token)]
    ensures r.0.nodes == t.nodes && r.0.scopes == t.scopes && r.0.vars == t.vars
    ensures r.0.root == t.root && r.0.freeList == t.freeList && r.0.hasError == t.hasError
    ensures r.0.globalScope == t.globalScope
  {
    (t.(funs := t.funs + [Function(None, [], DataType.Unknown, [], token)]), |t.funs|)
  }

  /** `ast_create_var`: a new variable appended to the end of the scope's
      variables. Its name and type are filled in by the caller. */
  function CreateVar(t: Tree, scope: ScopeId, token: nat): (r: (Tree, VarId))
    requires Valid(t) && scope < |t.scopes|
    ensures Valid(r.0) && r.1 == |t.vars|
    ensures r.0.vars == t.vars + [Variable(token, DataType.Unknown, [], scope)]
    ensures |r.0.scopes| == |t.scopes|
    ensures r.0.scopes[scope] == t.scopes[scope].(variables := t.scopes[scope].variables + [r.1])
    ensures forall k :: 0 <= k < |t.scopes| && k != scope ==> r.0.scopes[k] == t.scopes[k]
    ensures r.0.nodes == t.nodes && r.0.funs == t.funs
    ensures r.0.root == t.root && r.0.freeList == t.freeList && r.0.hasError == t.hasError
    ensures r.0.globalScope == t.globalScope
  {
    var id := |t.vars|;
    var s := t.scopes[scope];
    (t.(vars := t.vars + [Variable(token, DataType.Unknown, [], scope)],
        scopes := t.scopes[scope := s.(variables := s.variables + [id])]), id)
  }

  /** `ast_create_scope`: a new empty scope under `parent`. */
  function CreateScope(t: Tree, parent: Option<ScopeId>): (r: (Tree, ScopeId))
    requires Valid(t) && OptBelow(parent, |t.scopes|)
    ensures Valid(r.0) && r.1 == |t.scopes|
    ensures r.0.scopes == t.scopes + [Scope(parent, [])]
    ensures r.0.nodes == t.nodes && r.0.vars == t.vars && r.0.funs == t.funs
    ensures r.0.root == t.root && r.0.freeList == t.freeList && r.0.hasError == t.hasError
    ensures r.0.globalScope == t.globalScope
  {
    (t.(scopes := t.scopes + [Scope(parent, [])]), |t.scopes|)
  }

  /** A variable of `scope` named `name`: the first in creation order. */
  function FindInScope(t: Tree, vs: seq<VarId>, name: string): (r: Option<VarId>)
    requires forall k :: 0 <= k < |vs| ==> vs[k] < |t.vars|
    ensures r.Some? ==> r.value in vs && r.value < |t.vars| && t.vars[r.value].name == name
    ensures r.Some? ==> exists i :: (0 <= i < |vs| && vs[i] == r.value &&
      forall j :: 0 <= j < i ==> t.vars[vs[j]].name != name)
    ensures r.None? <==> forall k :: 0 <= k < |vs| ==> t.vars[vs[k]].name != name
  {
    if |vs| == 0 then None
    else if t.vars[vs[0]].name == name then Some(vs[0])
    else
      var r := FindInScope(t, vs[1..], name);
      if r.Some? then
        var i :| 0 <= i < |vs[1..]| && vs[1..][i] == r.value &&
          forall j :: 0 <= j < i ==> t.vars[vs[1..][j]].name != name;
        assert vs[i + 1] == r.value;
        r
      else r
  }

  /** The scope and its ancestors, innermost first. */
  function Chain(t: Tree, scope: Option<ScopeId>): (r: seq<ScopeId>)
    requires Valid(t) && OptBelow(scope, |t.scopes|)
    ensures forall k :: 0 <= k < |r| ==> r[k] < |t.scopes|
    decreases if scope.Some? then scope.value + 1 else 0
  {
    match scope
    case None => []
    case Some(s) => [s] + Chain(t, t.scopes[s].parent)
  }

  /** `ast_search_var_from_scope_and_name`: the innermost scope with a
      variable of that name decides, and within it the first declared. */
  function SearchVar(t: Tree, name: string, scope: Option<ScopeId>): (r: Option<VarId>)
    requires Valid(t) && OptBelow(scope, |t.scopes|)
    decreases if scope.Some? then scope.value + 1 else 0
  {
    match scope
    case None => None
    case Some(s) =>
      var here := FindInScope(t, t.scopes[s].variables, name);
      if here.Some? then here else SearchVar(t, name, t.scopes[s].parent)
  }

  /** The first scope of the chain in which `name` is declared, as a
      position in the chain. */
  function FirstDeclaring(t: Tree, chain: seq<ScopeId>, name: string): (r: Option<nat>)
    requires Valid(t) && forall k :: 0 <= k < |chain| ==> chain[k] < |t.scopes|
    ensures r.Some? ==> r.value < |chain| && FindInScope(t, t.scopes[chain[r.value]].variables, name).Some?
    ensures r.Some? ==> forall k :: 0 <= k < r.value ==> FindInScope(t, t.scopes[chain[k]].variables, name).None?
    ensures r.None? ==> forall k :: 0 <= k < |chain| ==> FindInScope(t, t.scopes[chain[k]].variables, name).None?
  {
    if |chain| == 0 then None
    else if FindInScope(t, t.scopes[chain[0]].variables, name).Some? then Some(0)
    else
      match FirstDeclaring(t, chain[1..], name)
      case None => None
      case Some(k) => Some(k + 1)
  }

  /** What the search finds: the first variable of that name in the first
      scope of the chain that declares one, and nothing when no scope on
      the chain declares it. */
  lemma {:induction false} SearchVarSpec(t: Tree, name: string, scope: Option<ScopeId>)
    requires Valid(t) && OptBelow(scope, |t.scopes|)
    ensures var chain := Chain(t, scope);
      var k := FirstDeclaring(t, chain, name);
      SearchVar(t, name, scope) == if k.None? then None else FindInScope(t, t.scopes[chain[k.value]].variables, name)
    decreases if scope.Some? then scope.value + 1 else 0
  {
    match scope
    case None =>
    case Some(s) =>
      var chain := Chain(t, scope);
      var rest := Chain(t, t.scopes[s].parent);
      assert chain == [s] + rest;
      assert chain[1..] == rest;
      SearchVarSpec(t, name, t.scopes[s].parent);
  }

  /** A variable declared in the scope where the search starts is found
      when it is the first of its name there. */
  lemma SearchFindsLocalFirst(t: Tree, name: string, s: ScopeId)
    requires Valid(t) && s < |t.scopes|
    requires FindInScope(t, t.scopes[s].variables, name).Some?
    ensures SearchVar(t, name, Some(s)) == FindInScope(t, t.scopes[s].variables, name)
  {
  }

  /** `ast_node_has_error_in_tree`, with `fuel` bounding the depth of the
      walk. */
  function HasErrorInTree(t: Tree, node: NodeId, fuel: nat): bool
    requires Valid(t) && node < |t.nodes|
    decreases fuel, 0
  {
    t.nodes[node].hasError || (fuel > 0 && AnyChildHasError(t, t.nodes[node].children, fuel - 1))
  }

  function AnyChildHasError(t: Tree, kids: seq<NodeId>, fuel: nat): bool
    requires Valid(t) && forall k :: 0 <= k < |kids| ==> kids[k] < |t.nodes|
    decreases fuel, 1, |kids|
  {
    |kids| > 0 && (HasErrorInTree(t, kids[0], fuel) || AnyChildHasError(t, kids[1..], fuel))
  }

  /** The nodes reachable from `node` along child links within `fuel`
      steps. */
  function Reach(t: Tree, node: NodeId, fuel: nat): set<NodeId>
    requires Valid(t) && node < |t.nodes|
    decreases fuel, 0
  {
    {node} + (if fuel > 0 then ReachAll(t, t.nodes[node].children, fuel - 1) else {})
  }

  function ReachAll(t: Tree, kids: seq<NodeId>, fuel: nat): set<NodeId>
    requires Valid(t) && forall k :: 0 <= k < |kids| ==> kids[k] < |t.nodes|
    decreases fuel, 1, |kids|
  {
    if |kids| == 0 then {} else Reach(t, kids[0], fuel) + ReachAll(t, kids[1..], fuel)
  }

  /** The search is true exactly when the node or some descendant carries
      an error. */
  lemma {:induction false} HasErrorInTreeSpec(t: Tree, node: NodeId, fuel: nat)
    requires Valid(t) && node < |t.nodes|
    ensures HasErrorInTree(t, node, fuel) <==>
      exists m :: m in Reach(t, node, fuel) && m < |t.nodes| && t.nodes[m].hasError
    decreases fuel, 0
  {
    ReachInRange(t, node, fuel);
    if fuel > 0 {
      AnyChildHasErrorSpec(t, t.nodes[node].children, fuel - 1);
    }
  }

  lemma {:induction false} AnyChildHasErrorSpec(t: Tree, kids: seq<NodeId>, fuel: nat)
    requires Valid(t) && forall k :: 0 <= k < |kids| ==> kids[k] < |t.nodes|
    ensures AnyChildHasError(t, kids, fuel) <==>
      exists m :: m in ReachAll(t, kids, fuel) && m < |t.nodes| && t.nodes[m].hasError
    decreases fuel, 1, |kids|
  {
    if |kids| > 0 {
      HasErrorInTreeSpec(t, kids[0], fuel);
      AnyChildHasErrorSpec(t, kids[1..], fuel);
    }
  }

  lemma {:induction false} ReachInRange(t: Tree, node: NodeId, fuel: nat)
    requires Valid(t) && node < |t.nodes|
    ensures forall m :: m in Reach(t, node, fuel) ==> m < |t.nodes|
    decreases fuel, 0
  {
    if fuel > 0 {
      ReachAllInRange(t, t.nodes[node].children, fuel - 1);
    }
  }

  lemma {:induction false} ReachAllInRange(t: Tree, kids: seq<NodeId>, fuel: nat)
    requires Valid(t) && forall k :: 0 <= k < |kids| ==> kids[k] < |t.nodes|
    ensures forall m :: m in ReachAll(t, kids, fuel) ==> m < |t.nodes|
    decreases fuel, 1, |kids|
  {
    if |kids| > 0 {
      ReachInRange(t, kids[0], fuel);
      ReachAllInRange(t, kids[1..], fuel);
    }
  }
}
