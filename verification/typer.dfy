/** The type checker: a post-order walk over the syntax tree that folds
    constant subexpressions, gives every expression node its result type,
    inserts implicit casts where operand types differ, and checks
    assignments. Errors are marked on the nodes and on the tree; the first
    error inside a subtree is the only one reported for it. */
module Typer {
  import opened Wrappers
  import opened Tokens
  import opened Ast
  import opened IrMaths
  import TyperTable
  import IrDs

  /** The tree being typed and the nodes whose errors were reported, in
      report order. */
  datatype State = State(tree: Tree, reported: seq<NodeId>)

  /** How a typing step ends: with a new state; with the process exit that
      `typer` performs when the tree has an error; with a failure of the
      C++ code (an assertion, a null variable, an integer division trap, or
      a removal loop on links that disagree); or with the walk running out
      of its depth bound. */
  datatype Run = Ran(st: State) | Exited(st: State) | Crashed | OutOfFuel

  /** What every typing step keeps: the store stays valid, no node goes
      away, variables, scopes and functions are untouched, the error flag
      and the report list only grow, and a new report comes with the
      error flag. */
  predicate Grows(s: State, r: State)
  {
    && Valid(r.tree)
    && |s.tree.nodes| <= |r.tree.nodes|
    && r.tree.scopes == s.tree.scopes && r.tree.vars == s.tree.vars && r.tree.funs == s.tree.funs
    && r.tree.root == s.tree.root && r.tree.globalScope == s.tree.globalScope
    && (s.tree.hasError ==> r.tree.hasError)
    && s.reported <= r.reported
    && (|r.reported| > |s.reported| ==> r.tree.hasError)
  }

  lemma GrowsTrans(s1: State, s2: State, s3: State)
    requires Grows(s1, s2) && Grows(s2, s3)
    ensures Grows(s1, s3)
  {
  }

  /** Rewrites the fields of node `id` that hold no references. */
  function Retag(s: State, id: NodeId, n: Node): (r: State)
    requires Valid(s.tree) && id < |s.tree.nodes|
    requires n == s.tree.nodes[id].(ntype := n.ntype, con := n.con, exp := n.exp, implicit := n.implicit)
    ensures Grows(s, r) && r.reported == s.reported && r.tree.hasError == s.tree.hasError
    ensures |r.tree.nodes| == |s.tree.nodes| && r.tree.nodes[id] == n
    ensures forall k :: 0 <= k < |s.tree.nodes| && k != id ==> r.tree.nodes[k] == s.tree.nodes[k]
    ensures r.tree.freeList == s.tree.freeList
  {
    State(SetNode(s.tree, id, n), s.reported)
  }

  // ---------------------------------------------------------------- errors

  /** The node's subtree, searched to the depth of the whole store. */
  function Erroneous(t: Tree, node: NodeId): bool
    requires Valid(t) && node < |t.nodes|
  {
    HasErrorInTree(t, node, |t.nodes|)
  }

  /** `typer_error`: the tree and the node are marked; the message is
      reported only when nothing in the node's subtree was marked before. */
  function TyperError(s: State, node: NodeId): (r: State)
    requires Valid(s.tree) && node < |s.tree.nodes|
    ensures Grows(s, r) && r.tree.hasError
    ensures |r.tree.nodes| == |s.tree.nodes| && r.tree.freeList == s.tree.freeList
    ensures r.tree.nodes[node] == s.tree.nodes[node].(hasError := true)
    ensures forall k :: 0 <= k < |s.tree.nodes| && k != node ==> r.tree.nodes[k] == s.tree.nodes[k]
    ensures r.reported == s.reported || r.reported == s.reported + [node]
  {
    var t := SetNode(s.tree, node, s.tree.nodes[node].(hasError := true)).(hasError := true);
    State(t, if Erroneous(s.tree, node) then s.reported else s.reported + [node])
  }

  /** An error is reported exactly when no node reachable from the failing
      one carried an error mark. */
  lemma ReportsOnlyFirstError(s: State, node: NodeId)
    requires Valid(s.tree) && node < |s.tree.nodes|
    ensures TyperError(s, node).reported == s.reported + [node] <==>
      forall m :: m in Reach(s.tree, node, |s.tree.nodes|) && m < |s.tree.nodes| ==> !s.tree.nodes[m].hasError
    ensures TyperError(s, node).reported != s.reported + [node] ==> TyperError(s, node).reported == s.reported
  {
    HasErrorInTreeSpec(s.tree, node, |s.tree.nodes|);
  }

  /** Once a node is marked, an error on any node that reaches it is not
      reported: the first error of a subtree silences those above it. */
  lemma ErrorSilencesEnclosing(s: State, node: NodeId, above: NodeId)
    requires Valid(s.tree) && node < |s.tree.nodes| && above < |s.tree.nodes|
    requires node in Reach(TyperError(s, node).tree, above, |s.tree.nodes|)
    ensures var s1 := TyperError(s, node); TyperError(s1, above).reported == s1.reported
  {
    var s1 := TyperError(s, node);
    HasErrorInTreeSpec(s1.tree, above, |s1.tree.nodes|);
  }

  // ------------------------------------------------------------ constants

  /** 2^53: integers up to this magnitude pass through a double exactly. */
  const ExactLimit: int := 0x20_0000_0000_0000

  /** 2^52: for a dividend up to this magnitude the double quotient of two
      exact integers truncates to the integer quotient. Rounding moves the
      quotient x / y by at most half a unit in its last place, which is at
      most 1 / (2 |y|) there, while a quotient that is not an integer lies
      at least 1 / |y| from the next integer away from zero. */
  const QuotientLimit: int := 0x10_0000_0000_0000

  /** `T_CON_VAL` when the model knows it: an integer constant's value
      within the exact range of a double. A floating-point constant, an
      untracked value or a larger integer gives nothing. */
  function AsDouble(c: Constant): Option<int>
  {
    if !IsFloat(c.ctype) && c.value.Known? && -ExactLimit <= c.value.v <= ExactLimit then Some(c.value.v) else None
  }

  /** `s_value` when the model knows it. */
  function AsInt(c: Constant): (r: Option<int>)
    ensures r.Some? ==> S64_MIN <= r.value <= S64_MAX
  {
    if c.value.Known? && S64_MIN <= c.value.v <= S64_MAX then Some(c.value.v) else None
  }

  /** A double result converted back to `s64`: exact within 2^53. */
  function FromDouble(x: int): Val
  {
    if -ExactLimit <= x <= ExactLimit then Known(x) else Untracked
  }

  /** The values a conversion from a double to the target's C type keeps;
      outside them the conversion is undefined. `u8` is plain `char`,
      which is signed, so U8 and B8 take -128..127. */
  function Range(t: DataType): (r: Option<(int, int)>)
  {
    match t
    case U8 => Some((-0x80, 0x7F))
    case B8 => Some((-0x80, 0x7F))
    case U16 => Some((0, 0xFFFF))
    case U32 => Some((0, 0xFFFF_FFFF))
    case U64 => Some((0, U64_MAX))
    case Msi => Some((0, U64_MAX))
    case S8 => Some((-0x80, 0x7F))
    case S16 => Some((-0x8000, 0x7FFF))
    case S32 => Some((S32_MIN, S32_MAX))
    case S64 => Some((S64_MIN, S64_MAX))
    case _ => None
  }

  /** The value `typer_cast_const` stores for an integer target: the
      unsigned targets and B8 take the absolute value of the converted
      value. Floating-point targets and values the model does not know
      give an untracked value. */
  function CastValue(c: Constant, target: DataType): Val
  {
    match (AsDouble(c), Range(target))
    case (Some(v), Some((lo, hi))) =>
      if !(lo <= v <= hi) then Untracked
      else if IsUnsigned(target) then Known(if v < 0 then -v else v)
      else Known(v)
    case _ => Untracked
  }

  /** Targets a constant cannot be cast to. */
  predicate NotANumber(t: DataType)
  {
    t == Void || t == DataType.Unknown || t == Custom
  }

  /** `typer_cast_const`: a cast to VOID or to a non-number type is an
      error that leaves the constant as it was; any other target becomes
      the constant's type. */
  function CastConst(s: State, c: NodeId, target: DataType): (r: State)
    requires Valid(s.tree) && c < |s.tree.nodes|
    ensures Grows(s, r) && |r.tree.nodes| == |s.tree.nodes| && r.tree.freeList == s.tree.freeList
    ensures forall k :: 0 <= k < |s.tree.nodes| && k != c ==> r.tree.nodes[k] == s.tree.nodes[k]
    ensures NotANumber(target) ==>
      && r.tree.nodes[c] == s.tree.nodes[c].(hasError := true) && r.tree.hasError
    ensures !NotANumber(target) ==>
      && r.tree.nodes[c] == s.tree.nodes[c].(con := Constant(target, r.tree.nodes[c].con.value))
      && r.reported == s.reported && r.tree.hasError == s.tree.hasError
  {
    if NotANumber(target) then TyperError(s, c)
    else
      var n := s.tree.nodes[c];
      Retag(s, c, n.(con := Constant(target, CastValue(n.con, target))))
  }

  /** A value inside the target's range survives the cast unchanged; a
      floating-point target leaves it untracked. */
  lemma CastKeepsInRange(s: State, c: NodeId, target: DataType, lo: int, hi: int)
    requires Valid(s.tree) && c < |s.tree.nodes|
    requires Range(target) == Some((lo, hi)) && !IsFloat(s.tree.nodes[c].con.ctype)
    requires s.tree.nodes[c].con.value.Known?
    requires var v := s.tree.nodes[c].con.value.v; -ExactLimit <= v <= ExactLimit && lo <= v <= hi
    requires !IsUnsigned(target) || s.tree.nodes[c].con.value.v >= 0
    ensures CastConst(s, c, target).tree.nodes[c].con == Constant(target, s.tree.nodes[c].con.value)
  {
  }

  /** Through the signed `char`, a negative value cast to U8 comes out as
      its magnitude, and 128 has no defined conversion. */
  lemma CastToU8TakesMagnitude()
    ensures CastValue(Constant(S64, Known(-5)), U8) == Known(5)
    ensures CastValue(Constant(S64, Known(127)), U8) == Known(127)
    ensures CastValue(Constant(S64, Known(128)), U8) == Untracked
    ensures CastValue(Constant(S64, Known(-5)), S8) == Known(-5)
    ensures CastValue(Constant(S64, Known(70000)), U16) == Untracked
  {
  }

  /** A floating-point target or a floating-point source leaves the value
      untracked. */
  lemma FloatCastsUntracked(c: Constant, target: DataType)
    requires IsFloat(target) || IsFloat(c.ctype)
    ensures CastValue(c, target) == Untracked
  {
  }

  // ---------------------------------------------------------------- folding

  /** The parts of the store a removal leaves alone. */
  predicate SameStore(t: Tree, r: Tree)
  {
    && r.scopes == t.scopes && r.vars == t.vars && r.funs == t.funs
    && r.root == t.root && r.hasError == t.hasError && r.globalScope == t.globalScope
  }

  /** The children are distinct, are not the node, and record it as their
      parent: the links of a tree built by the parser. */
  predicate Linked(t: Tree, node: NodeId)
    requires Valid(t) && node < |t.nodes|
  {
    var kids := t.nodes[node].children;
    && node !in kids
    && (forall i, j :: 0 <= i < j < |kids| ==> kids[i] != kids[j])
    && (forall k :: 0 <= k < |kids| ==> t.nodes[kids[k]].parent == Some(node))
  }

  /** The nodes of `ids` link to one another through `nextFree`, in order,
      and the last links to `tail`. */
  predicate FreeChain(t: Tree, ids: seq<NodeId>, tail: Option<NodeId>)
  {
    && (forall k :: 0 <= k < |ids| ==> ids[k] < |t.nodes|)
    && (forall k :: 0 <= k < |ids| - 1 ==> t.nodes[ids[k]].nextFree == Some(ids[k + 1]))
    && (|ids| > 0 ==> t.nodes[ids[|ids| - 1]].nextFree == tail)
  }

  /** One turn of the removal loop at the end of `typer_const_expr`: the
      last child is removed. The removal detaches the child from the
      parent it records; when that is not `node`, the list would not
      shrink and the loop would not end, which gives nothing here. */
  function RemoveLast(t: Tree, node: NodeId): (r: Option<Tree>)
    requires Valid(t) && node < |t.nodes| && |t.nodes[node].children| > 0
    ensures r.Some? ==> var last := t.nodes[node].children[|t.nodes[node].children| - 1];
      && Valid(r.value) && |r.value.nodes| == |t.nodes| && SameStore(t, r.value)
      && r.value.freeList == Some(last) && last != node
      && r.value.nodes[last] == t.nodes[last].(nextFree := t.freeList)
      && r.value.nodes[node] == t.nodes[node].(children := WithoutFirst(t.nodes[node].children, last))
      && |r.value.nodes[node].children| < |t.nodes[node].children|
      && (forall k :: k in r.value.nodes[node].children ==> k in t.nodes[node].children)
      && (forall k :: 0 <= k < |t.nodes| && k != node && k != last ==> r.value.nodes[k] == t.nodes[k])
  {
    var kids := t.nodes[node].children;
    var last := kids[|kids| - 1];
    if last == node || t.nodes[last].parent != Some(node) then None
    else
      WithoutFirstShrinks(kids, last);
      Some(RemoveNode(t, last))
  }

  lemma LinkedStep(t: Tree, node: NodeId, r: Tree)
    requires Valid(t) && node < |t.nodes| && |t.nodes[node].children| > 0
    requires var kids := t.nodes[node].children; var last := kids[|kids| - 1];
      && last != node && t.nodes[last].parent == Some(node)
      && Valid(r) && |r.nodes| == |t.nodes|
      && r.nodes[node].children == WithoutFirst(kids, last)
      && (forall k :: 0 <= k < |t.nodes| && k != node && k != last ==> r.nodes[k] == t.nodes[k])
    ensures Linked(t, node) ==>
      && Linked(r, node)
      && r.nodes[node].children == t.nodes[node].children[..|t.nodes[node].children| - 1]
  {
    var kids := t.nodes[node].children;
    var n := |kids| - 1;
    var last := kids[n];
    if Linked(t, node) {
      assert last !in kids[..n];
      assert FirstIndex(kids, last) == Some(n);
      forall k | 0 <= k < n
        ensures r.nodes[kids[k]] == t.nodes[kids[k]]
      {
      }
    }
  }

  /** The removal loop: children go, last first, until none is left. */
  function RemoveChildren(t: Tree, node: NodeId): (r: Option<Tree>)
    requires Valid(t) && node < |t.nodes|
    ensures r.Some? ==> Valid(r.value) && |r.value.nodes| == |t.nodes| && SameStore(t, r.value)
    ensures r.Some? ==> r.value.nodes[node] == t.nodes[node].(children := [])
    decreases |t.nodes[node].children|
  {
    if |t.nodes[node].children| == 0 then Some(t)
    else
      match RemoveLast(t, node)
      case None => None
      case Some(t1) => RemoveChildren(t1, node)
  }

  /** The loop changes only the node and its children. */
  lemma {:induction false} RemovalFrame(t: Tree, node: NodeId, k: NodeId)
    requires Valid(t) && node < |t.nodes| && RemoveChildren(t, node).Some?
    requires k < |t.nodes| && k != node && k !in t.nodes[node].children
    ensures RemoveChildren(t, node).value.nodes[k] == t.nodes[k]
    decreases |t.nodes[node].children|
  {
    if |t.nodes[node].children| > 0 {
      var t1 := RemoveLast(t, node).value;
      RemovalFrame(t1, node, k);
    }
  }

  /** Removing the last child first puts the children on the free list in
      their original order, ahead of what was there before. */
  lemma {:induction false} FreedInOrder(t: Tree, node: NodeId)
    requires Valid(t) && node < |t.nodes| && Linked(t, node)
    ensures var r := RemoveChildren(t, node);
      var kids := t.nodes[node].children;
      && r.Some?
      && r.value.freeList == (if |kids| == 0 then t.freeList else Some(kids[0]))
      && FreeChain(r.value, kids, t.freeList)
    decreases |t.nodes[node].children|
  {
    var kids := t.nodes[node].children;
    if |kids| > 0 {
      var n := |kids| - 1;
      var t1 := RemoveLast(t, node).value;
      LinkedStep(t, node, t1);
      FreedInOrder(t1, node);
      var r := RemoveChildren(t1, node).value;
      assert kids[n] !in kids[..n];
      RemovalFrame(t1, node, kids[n]);
      ChainExtend(r, kids, t.freeList);
    }
  }

  lemma ChainExtend(r: Tree, ids: seq<NodeId>, tail: Option<NodeId>)
    requires |ids| > 0 && FreeChain(r, ids[..|ids| - 1], Some(ids[|ids| - 1]))
    requires ids[|ids| - 1] < |r.nodes| && r.nodes[ids[|ids| - 1]].nextFree == tail
    ensures FreeChain(r, ids, tail)
  {
    var n := |ids| - 1;
    assert forall k :: 0 <= k < n ==> ids[k] == ids[..n][k];
  }

  lemma WithoutFirstShrinks(s: seq<nat>, x: nat)
    requires x in s
    ensures |WithoutFirst(s, x)| == |s| - 1
    ensures forall k :: k in WithoutFirst(s, x) ==> k in s
  {
    var i := FirstIndex(s, x).value;
    var r := IrDs.DelN(s, i, 1);
    assert r == WithoutFirst(s, x);
    forall j | 0 <= j < |r|
      ensures r[j] in s
    {
      if j < i {
        assert r[j] == r[..i][j];
      } else {
        assert r[j] == s[j + 1];
      }
    }
  }

  /** What a fold leaves: the node's new constant and the new value of its
      first operand, which only the pre-increment and pre-decrement
      change; or the trap of an integer `%` by zero or of the one quotient
      that overflows. */
  datatype Fold = Folded(con: Constant, operand: Val) | Trap

  /** Truncating remainder, as C computes `%`. */
  function Rem(a: int, b: int): int
    requires b != 0
  {
    if a >= 0 then a % b else -((-a) % b)
  }

  function Pow2(n: nat): (r: nat)
    ensures r >= 1
  {
    if n == 0 then 1 else 2 * Pow2(n - 1)
  }

  /** One bit of `&`, `|` or `^`. */
  function BitOp(op: ExprOp, p: int, q: int): int
  {
    match op
    case BAnd => if p == 1 && q == 1 then 1 else 0
    case BOr => if p == 1 || q == 1 then 1 else 0
    case _ => if p != q then 1 else 0
  }

  /** The low `n` bits of `x op y` for a bitwise `op`, read as an unsigned
      number. `% 2` is the lowest two's-complement bit and `/ 2` the rest,
      negative values included, since Dafny's division floors. */
  function Bitwise(op: ExprOp, x: int, y: int, n: nat): int
    decreases n
  {
    if n == 0 then 0 else BitOp(op, x % 2, y % 2) + 2 * Bitwise(op, x / 2, y / 2, n - 1)
  }

  /** 64 bits read as a two's-complement `s64`. */
  function SignedWord(u: int): int
  {
    if u > S64_MAX then u - 0x1_0000_0000_0000_0000 else u
  }

  /** `x op y` on two `s64` values for a bitwise `op`. */
  function BitwiseValue(op: ExprOp, x: int, y: int): int
  {
    SignedWord(Bitwise(op, x, y, 64))
  }

  /** An integer comparison through doubles. */
  function Compare(op: ExprOp, a: int, b: int): bool
  {
    match op
    case CEq => a == b
    case CNeq => a != b
    case CLt => a < b
    case CLtEq => a <= b
    case CGt => a > b
    case _ => a >= b
  }

  function Bool(b: bool): Val
  {
    Known(if b then 1 else 0)
  }

  /** The value a binary fold stores: `+ - * /` and the ordering
      comparisons go through doubles, `%`, shifts and the bitwise
      operations work on `s_value`, `||` and `&&` test for zero. With a
      floating-point operand (`float`) the value is not tracked. */
  function BinaryValue(op: ExprOp, a: Constant, b: Constant, float: bool): Option<Val>
  {
    var da := AsDouble(a);
    var db := AsDouble(b);
    var ia := AsInt(a);
    var ib := AsInt(b);
    match op
    case BAdd => Some(if float || da.None? || db.None? then Untracked else FromDouble(da.value + db.value))
    case BSub => Some(if float || da.None? || db.None? then Untracked else FromDouble(da.value - db.value))
    case BMul => Some(if float || da.None? || db.None? then Untracked else FromDouble(da.value * db.value))
    case BDiv =>
      Some(if float || da.None? || db.None? || db.value == 0 then Untracked
           else if da.value % db.value == 0 || -QuotientLimit <= da.value <= QuotientLimit
           then Known(Quot(da.value, db.value))
           else Untracked)
    case BMod =>
      if ia.None? || ib.None? then Some(Untracked)
      else if ib.value == 0 || (ia.value == S64_MIN && ib.value == -1) then None
      else Some(Known(Rem(ia.value, ib.value)))
    case BShiftL =>
      Some(if ia.None? || ib.None? || !(0 <= ib.value < 64) || ia.value < 0 || ia.value * Pow2(ib.value) > S64_MAX
           then Untracked else Known(ia.value * Pow2(ib.value)))
    case BShiftR =>
      Some(if ia.None? || ib.None? || !(0 <= ib.value < 64) then Untracked else Known(ia.value / Pow2(ib.value)))
    case BAnd => Some(if ia.None? || ib.None? then Untracked else Known(BitwiseValue(BAnd, ia.value, ib.value)))
    case BXor => Some(if ia.None? || ib.None? then Untracked else Known(BitwiseValue(BXor, ia.value, ib.value)))
    case BOr => Some(if ia.None? || ib.None? then Untracked else Known(BitwiseValue(BOr, ia.value, ib.value)))
    case COr => Some(if float || ia.None? || ib.None? then Untracked else Bool(ia.value != 0 || ib.value != 0))
    case CAnd => Some(if float || ia.None? || ib.None? then Untracked else Bool(ia.value != 0 && ib.value != 0))
    case _ => Some(if float || da.None? || db.None? then Untracked else Bool(Compare(op, da.value, db.value)))
  }

  /** The value a unary fold stores, and its first operand's new value. */
  function UnaryValue(op: ExprOp, a: Constant, float: bool): (Val, Val)
  {
    var da := AsDouble(a);
    var ia := AsInt(a);
    match op
    case UAdd => (if float || da.None? then Untracked else FromDouble(da.value), a.value)
    case USub => (if float || da.None? then Untracked else FromDouble(-da.value), a.value)
    case UPreInc =>
      var v := if float || ia.None? || ia.value == S64_MAX then Untracked else Known(ia.value + 1);
      (v, v)
    case UPreDec =>
      var v := if float || ia.None? || ia.value == S64_MIN then Untracked else Known(ia.value - 1);
      (v, v)
    case ULogicInv => (if float || ia.None? then Untracked else Bool(ia.value == 0), a.value)
    case _ => (if ia.None? then Untracked else Known(-ia.value - 1), a.value)
  }

  /** `EX_B_ADD` to `EX_C_GTEQ`. */
  predicate IsBinary(op: ExprOp)
  {
    BAdd.Ord() <= op.Ord() <= CGtEq.Ord()
  }

  /** `EX_U_ADD` to `EX_U_BIN_INV`; the cast is handled apart. */
  predicate IsUnary(op: ExprOp)
  {
    UAdd.Ord() <= op.Ord() <= UBinInv.Ord()
  }

  /** `%`, the shifts, the bitwise operations and `~`: invalid on
      floating-point operands. */
  predicate IntegerOnly(op: ExprOp)
  {
    BMod.Ord() <= op.Ord() <= BOr.Ord() || op == UBinInv
  }

  /** What the callers of `typer_const_expr` establish: an operation
      with its operand count, every operand a constant. */
  predicate Foldable(t: Tree, node: NodeId)
    requires Valid(t) && node < |t.nodes|
  {
    var n := t.nodes[node];
    && (IsBinary(n.exp.op) || IsUnary(n.exp.op) || n.exp.op == UCast)
    && |n.children| == (if IsBinary(n.exp.op) then 2 else 1)
    && t.nodes[n.children[0]].ntype == NConstant
    && (|n.children| == 2 ==> t.nodes[n.children[1]].ntype == NConstant)
  }

  /** Some operand of the node has a floating-point type. */
  predicate FloatOperand(t: Tree, node: NodeId)
    requires Valid(t) && node < |t.nodes| && Foldable(t, node)
  {
    var n := t.nodes[node];
    IsFloat(t.nodes[n.children[0]].con.ctype) || (|n.children| == 2 && IsFloat(t.nodes[n.children[1]].con.ctype))
  }

  /** The constant a non-cast fold stores and the first operand's new
      value. Comparisons give S64; otherwise a floating-point operand gives
      F64 and integers give S64. */
  function Folding(op: ExprOp, a: Constant, b: Constant, float: bool): Fold
  {
    var ty := if float then F64 else S64;
    if IsBinary(op) then
      match BinaryValue(op, a, b, float)
      case None => Trap
      case Some(v) => Folded(Constant(if op.IsComparison() then S64 else ty, v), a.value)
    else
      var (v, operand) := UnaryValue(op, a, float);
      Folded(Constant(ty, v), operand)
  }

  /** The end of a fold: the children go to the free list. */
  function Finish(s: State, node: NodeId): (r: Run)
    requires Valid(s.tree) && node < |s.tree.nodes|
    ensures r.Ran? || r.Crashed?
    ensures r.Ran? ==> Grows(s, r.st) && r.st.reported == s.reported && |r.st.tree.nodes| == |s.tree.nodes|
    ensures r.Ran? ==> r.st.tree.nodes[node] == s.tree.nodes[node].(children := [])
  {
    match RemoveChildren(s.tree, node)
    case Some(t) => Ran(State(t, s.reported))
    case None => Crashed
  }

  /** A constant cast: the operand is converted, and the node becomes a
      constant of the cast's type holding the operand's value, even when
      the conversion was an error. */
  function FoldCast(s: State, node: NodeId): (r: Run)
    requires Valid(s.tree) && node < |s.tree.nodes| && Foldable(s.tree, node) && s.tree.nodes[node].exp.op == UCast
    ensures r.Ran? || r.Crashed?
    ensures r.Ran? ==> Grows(s, r.st) && |r.st.tree.nodes| == |s.tree.nodes|
    ensures r.Ran? ==> var m := r.st.tree.nodes[node];
      m.ntype == NConstant && m.children == [] && m.con.ctype == s.tree.nodes[node].exp.resultType
  {
    var n := s.tree.nodes[node];
    var c := n.children[0];
    var s1 := CastConst(s, c, n.exp.resultType);
    var v := s1.tree.nodes[c].con.value;
    var s2 := Retag(s1, node, s1.tree.nodes[node].(ntype := NConstant, con := Constant(n.exp.resultType, v)));
    Finish(s2, node)
  }

  /** A constant operation: the node becomes a constant holding the
      folded value, or the integer division traps. */
  function FoldOperation(s: State, node: NodeId): (r: Run)
    requires Valid(s.tree) && node < |s.tree.nodes| && Foldable(s.tree, node) && s.tree.nodes[node].exp.op != UCast
    ensures r.Ran? || r.Crashed?
    ensures r.Ran? ==> Grows(s, r.st) && |r.st.tree.nodes| == |s.tree.nodes| && r.st.reported == s.reported
    ensures r.Ran? ==> var m := r.st.tree.nodes[node];
      m.ntype == NConstant && m.children == []
  {
    ApplyFold(s, node, FoldOf(s.tree, node))
  }

  /** Stores a fold's outcome: the first operand's new value, then the
      node's constant, then the children go. */
  function ApplyFold(s: State, node: NodeId, f: Fold): (r: Run)
    requires Valid(s.tree) && node < |s.tree.nodes| && |s.tree.nodes[node].children| > 0
    ensures r.Ran? || r.Crashed?
    ensures r.Ran? ==> Grows(s, r.st) && |r.st.tree.nodes| == |s.tree.nodes| && r.st.reported == s.reported
    ensures r.Ran? ==> var m := r.st.tree.nodes[node];
      m.ntype == NConstant && m.children == []
  {
    match f
    case Trap => Crashed
    case Folded(con, operand) =>
      var c := s.tree.nodes[node].children[0];
      var s1 := Retag(s, c, s.tree.nodes[c].(con := s.tree.nodes[c].con.(value := operand)));
      var s2 := Retag(s1, node, s1.tree.nodes[node].(ntype := NConstant, con := con));
      Finish(s2, node)
  }

  /** `typer_const_expr`. A floating-point operand of `%`, a shift, a
      bitwise operation or `~` is an error that leaves the node an
      expression with its children; every other fold makes the node a
      constant without children. */
  function ConstExpr(s: State, node: NodeId): (r: Run)
    requires Valid(s.tree) && node < |s.tree.nodes| && Foldable(s.tree, node)
    ensures r.Ran? || r.Crashed?
    ensures r.Ran? ==> Grows(s, r.st)
    ensures var n := s.tree.nodes[node];
      n.exp.op != UCast && FloatOperand(s.tree, node) && IntegerOnly(n.exp.op) ==>
        && r.Ran? && r.st.tree.hasError
        && r.st.tree.nodes[node] == n.(hasError := true, con := n.con.(ctype := F64))
    ensures var n := s.tree.nodes[node];
      !(n.exp.op != UCast && FloatOperand(s.tree, node) && IntegerOnly(n.exp.op)) && r.Ran? ==>
        r.st.tree.nodes[node].ntype == NConstant && r.st.tree.nodes[node].children == []
  {
    var n := s.tree.nodes[node];
    if n.exp.op == UCast then FoldCast(s, node)
    else if FloatOperand(s.tree, node) && IntegerOnly(n.exp.op) then
      Ran(TyperError(Retag(s, node, n.(con := n.con.(ctype := F64))), node))
    else FoldOperation(s, node)
  }

  /** The operand order of a fold: the constant it stores and, for the
      first operand, its value after the fold. */
  function FoldOf(t: Tree, node: NodeId): Fold
    requires Valid(t) && node < |t.nodes| && Foldable(t, node)
  {
    var n := t.nodes[node];
    var a := t.nodes[n.children[0]].con;
    var b := if |n.children| == 2 then t.nodes[n.children[1]].con else a;
    Folding(n.exp.op, a, b, FloatOperand(t, node))
  }

  /** Retagging nodes keeps the links between a node and its children. */
  lemma RetagKeepsLinked(s: State, id: NodeId, n: Node, node: NodeId)
    requires Valid(s.tree) && id < |s.tree.nodes| && node < |s.tree.nodes|
    requires n == s.tree.nodes[id].(ntype := n.ntype, con := n.con, exp := n.exp, implicit := n.implicit)
    requires Linked(s.tree, node)
    ensures Linked(Retag(s, id, n).tree, node)
    ensures Retag(s, id, n).tree.nodes[node].children == s.tree.nodes[node].children
  {
    var r := Retag(s, id, n).tree;
    var kids := s.tree.nodes[node].children;
    forall k | 0 <= k < |kids|
      ensures r.nodes[kids[k]].parent == Some(node)
    {
      if kids[k] != id {
        assert r.nodes[kids[k]] == s.tree.nodes[kids[k]];
      }
    }
  }

  /** A fold of linked constant operands that neither traps nor hits the
      floating-point check stores the folded constant in the node, which
      keeps its other fields, puts the operands on the free list in
      order, and changes no other node. */
  lemma FoldStoresResult(s: State, node: NodeId) returns (st: State)
    requires Valid(s.tree) && node < |s.tree.nodes| && Foldable(s.tree, node) && Linked(s.tree, node)
    requires var n := s.tree.nodes[node];
      n.exp.op != UCast && !(FloatOperand(s.tree, node) && IntegerOnly(n.exp.op))
    requires FoldOf(s.tree, node).Folded?
    ensures ConstExpr(s, node) == Ran(st) && Grows(s, st)
    ensures st.reported == s.reported && st.tree.hasError == s.tree.hasError
    ensures var n := s.tree.nodes[node];
      && st.tree.nodes[node] == n.(ntype := NConstant, children := [], con := FoldOf(s.tree, node).con)
      && st.tree.freeList == Some(n.children[0])
      && FreeChain(st.tree, n.children, s.tree.freeList)
      && forall k :: 0 <= k < |s.tree.nodes| && k != node && k !in n.children ==> st.tree.nodes[k] == s.tree.nodes[k]
  {
    AppliedFold(s, node, FoldOf(s.tree, node));
    st := ApplyFold(s, node, FoldOf(s.tree, node)).st;
  }

  lemma AppliedFold(s: State, node: NodeId, f: Fold)
    requires Valid(s.tree) && node < |s.tree.nodes| && |s.tree.nodes[node].children| > 0 && Linked(s.tree, node)
    requires f.Folded?
    ensures var n := s.tree.nodes[node]; var r := ApplyFold(s, node, f);
      && r.Ran? && r.st.reported == s.reported && r.st.tree.hasError == s.tree.hasError
      && r.st.tree.nodes[node] == n.(ntype := NConstant, children := [], con := f.con)
      && r.st.tree.freeList == Some(n.children[0])
      && FreeChain(r.st.tree, n.children, s.tree.freeList)
      && forall k :: 0 <= k < |s.tree.nodes| && k != node && k !in n.children ==> r.st.tree.nodes[k] == s.tree.nodes[k]
  {
    var n := s.tree.nodes[node];
    var c := n.children[0];
    var s1 := Retag(s, c, s.tree.nodes[c].(con := s.tree.nodes[c].con.(value := f.operand)));
    RetagKeepsLinked(s, c, s.tree.nodes[c].(con := s.tree.nodes[c].con.(value := f.operand)), node);
    var s2 := Retag(s1, node, s1.tree.nodes[node].(ntype := NConstant, con := f.con));
    RetagKeepsLinked(s1, node, s1.tree.nodes[node].(ntype := NConstant, con := f.con), node);
    FreedInOrder(s2.tree, node);
    forall k | 0 <= k < |s.tree.nodes| && k != node && k !in n.children
      ensures RemoveChildren(s2.tree, node).value.nodes[k] == s.tree.nodes[k]
    {
      RemovalFrame(s2.tree, node, k);
    }
  }

  /** A cast of a linked constant operand: the node becomes a constant of
      the cast's type. For a number type it holds the converted value and
      nothing is reported; for VOID or a non-number type it holds the
      operand's unchanged value and the operand carries the error. */
  lemma FoldCastStores(s: State, node: NodeId)
    requires Valid(s.tree) && node < |s.tree.nodes| && Foldable(s.tree, node) && Linked(s.tree, node)
    requires s.tree.nodes[node].exp.op == UCast
    ensures var n := s.tree.nodes[node]; var c := s.tree.nodes[n.children[0]]; var r := ConstExpr(s, node);
      && r.Ran?
      && r.st.tree.nodes[node] == n.(ntype := NConstant, children := [], con := Constant(n.exp.resultType,
           if NotANumber(n.exp.resultType) then c.con.value else CastValue(c.con, n.exp.resultType)))
      && (NotANumber(n.exp.resultType) ==> r.st.tree.hasError)
      && (!NotANumber(n.exp.resultType) ==> r.st.reported == s.reported && r.st.tree.hasError == s.tree.hasError)
      && r.st.tree.freeList == Some(n.children[0])
  {
    var n := s.tree.nodes[node];
    var c := n.children[0];
    var s1 := CastConst(s, c, n.exp.resultType);
    assert Linked(s1.tree, node) by {
      assert s1.tree.nodes[node] == s.tree.nodes[node];
      assert s1.tree.nodes[c].parent == s.tree.nodes[c].parent;
    }
    var v := s1.tree.nodes[c].con.value;
    var s2 := Retag(s1, node, s1.tree.nodes[node].(ntype := NConstant, con := Constant(n.exp.resultType, v)));
    RetagKeepsLinked(s1, node, s1.tree.nodes[node].(ntype := NConstant, con := Constant(n.exp.resultType, v)), node);
    FreedInOrder(s2.tree, node);
  }

  /** With integer operands in the exact range of a double, `+ - *` fold
      to the exact result when that is in range too, and `/` to the
      truncating quotient when the division leaves no remainder or the
      dividend is at most 2^52 in magnitude. */
  lemma FoldsExactArithmetic(a: Constant, b: Constant, x: int, y: int)
    requires !IsFloat(a.ctype) && !IsFloat(b.ctype) && a.value == Known(x) && b.value == Known(y)
    requires -ExactLimit <= x <= ExactLimit && -ExactLimit <= y <= ExactLimit
    ensures -ExactLimit <= x + y <= ExactLimit ==> Folding(BAdd, a, b, false) == Folded(Constant(S64, Known(x + y)), a.value)
    ensures -ExactLimit <= x - y <= ExactLimit ==> Folding(BSub, a, b, false) == Folded(Constant(S64, Known(x - y)), a.value)
    ensures -ExactLimit <= x * y <= ExactLimit ==> Folding(BMul, a, b, false) == Folded(Constant(S64, Known(x * y)), a.value)
    ensures y != 0 && (x % y == 0 || -QuotientLimit <= x <= QuotientLimit) ==>
      Folding(BDiv, a, b, false) == Folded(Constant(S64, Known(Quot(x, y))), a.value)
  {
  }

  /** Integer `/` truncates toward zero, and a zero divisor leaves the
      value untracked (the conversion of an infinite or NaN quotient is
      undefined). */
  lemma DivisionTruncates()
    ensures Folding(BDiv, Constant(S64, Known(7)), Constant(S64, Known(2)), false).con.value == Known(3)
    ensures Folding(BDiv, Constant(S64, Known(-7)), Constant(S64, Known(2)), false).con.value == Known(-3)
    ensures Folding(BDiv, Constant(S64, Known(7)), Constant(S64, Known(0)), false).con.value == Untracked
  {
  }

  /** Beyond 2^53 a double cannot hold every integer, and the model does
      not follow the rounding. */
  lemma DoublesLoseLargeValues()
    ensures Folding(BAdd, Constant(S64, Known(ExactLimit + 1)), Constant(S64, Known(0)), false).con.value == Untracked
    ensures Folding(BMul, Constant(S64, Known(ExactLimit)), Constant(S64, Known(2)), false).con.value == Untracked
  {
  }

  /** Comparisons of integers in the exact range fold to 1 or 0 of type
      S64. */
  lemma FoldsComparisons(a: Constant, b: Constant, x: int, y: int)
    requires !IsFloat(a.ctype) && !IsFloat(b.ctype) && a.value == Known(x) && b.value == Known(y)
    requires -ExactLimit <= x <= ExactLimit && -ExactLimit <= y <= ExactLimit
    ensures Folding(CEq, a, b, false) == Folded(Constant(S64, Bool(x == y)), a.value)
    ensures Folding(CNeq, a, b, false) == Folded(Constant(S64, Bool(x != y)), a.value)
    ensures Folding(CLt, a, b, false) == Folded(Constant(S64, Bool(x < y)), a.value)
    ensures Folding(CLtEq, a, b, false) == Folded(Constant(S64, Bool(x <= y)), a.value)
    ensures Folding(CGt, a, b, false) == Folded(Constant(S64, Bool(x > y)), a.value)
    ensures Folding(CGtEq, a, b, false) == Folded(Constant(S64, Bool(x >= y)), a.value)
  {
  }

  /** `||` and `&&` test any `s64` values against zero. */
  lemma FoldsLogic(a: Constant, b: Constant, x: int, y: int)
    requires a.value == Known(x) && b.value == Known(y)
    requires S64_MIN <= x <= S64_MAX && S64_MIN <= y <= S64_MAX
    ensures Folding(COr, a, b, false) == Folded(Constant(S64, Bool(x != 0 || y != 0)), a.value)
    ensures Folding(CAnd, a, b, false) == Folded(Constant(S64, Bool(x != 0 && y != 0)), a.value)
  {
  }

  /** A floating-point operand: the value is not tracked, and the type is
      S64 for a comparison and F64 otherwise. */
  lemma FloatFoldsUntracked(op: ExprOp, a: Constant, b: Constant)
    requires (IsBinary(op) || IsUnary(op)) && !IntegerOnly(op)
    ensures Folding(op, a, b, true) == Folded(Constant(if op.IsComparison() then S64 else F64, Untracked), Folding(op, a, b, true).operand)
  {
    if IsBinary(op) {
      assert BinaryValue(op, a, b, true) == Some(Untracked);
    } else {
      assert UnaryValue(op, a, true).0 == Untracked;
    }
  }

  /** Truncating division, as C computes `/` on integers. */
  function Quot(a: int, b: int): int
    requires b != 0
  {
    if a >= 0 then a / b else -((-a) / b)
  }

  /** C's `%`: the remainder completes the truncating quotient, takes the
      sign of the dividend and is smaller than the divisor in magnitude. */
  lemma RemTruncates(a: int, b: int)
    requires b != 0
    ensures a == b * Quot(a, b) + Rem(a, b)
    ensures a >= 0 ==> Rem(a, b) >= 0
    ensures a <= 0 ==> Rem(a, b) <= 0
    ensures -(if b < 0 then -b else b) < Rem(a, b) < (if b < 0 then -b else b)
    ensures Rem(-7, 2) == -1 && Rem(7, -2) == 1
  {
    if a < 0 {
      var q := (-a) / b;
      assert -a == b * q + (-a) % b;
      assert b * Quot(a, b) == -(b * q);
      assert 0 <= (-a) % b;
    } else {
      assert 0 <= a % b;
    }
  }

  /** `%` traps on a zero divisor and on the one quotient that overflows;
      otherwise it folds to the truncating remainder. The shifts fold
      for counts 0 to 63: right is floor division by a power of two, left
      a multiplication that must not overflow or start negative. */
  lemma FoldsIntegerOperations(a: Constant, b: Constant, x: int, y: int, float: bool)
    requires a.value == Known(x) && b.value == Known(y)
    requires S64_MIN <= x <= S64_MAX && S64_MIN <= y <= S64_MAX
    ensures y == 0 || (x == S64_MIN && y == -1) <==> Folding(BMod, a, b, float) == Trap
    ensures y != 0 && !(x == S64_MIN && y == -1) ==>
      Folding(BMod, a, b, float) == Folded(Constant(if float then F64 else S64, Known(Rem(x, y))), a.value)
    ensures 0 <= y < 64 ==> Folding(BShiftR, a, b, false) == Folded(Constant(S64, Known(x / Pow2(y))), a.value)
    ensures 0 <= y < 64 && 0 <= x && x * Pow2(y) <= S64_MAX ==>
      Folding(BShiftL, a, b, false) == Folded(Constant(S64, Known(x * Pow2(y))), a.value)
  {
  }

  /** The unary folds on integers: negation through a double, the
      pre-increment and pre-decrement writing their result into the
      operand too, `!` as a zero test and `~` as -x - 1. */
  lemma FoldsUnary(a: Constant, x: int)
    requires !IsFloat(a.ctype) && a.value == Known(x) && S64_MIN <= x <= S64_MAX
    ensures -ExactLimit <= x <= ExactLimit ==> Folding(USub, a, a, false) == Folded(Constant(S64, Known(-x)), a.value)
    ensures x < S64_MAX ==> Folding(UPreInc, a, a, false) == Folded(Constant(S64, Known(x + 1)), Known(x + 1))
    ensures x > S64_MIN ==> Folding(UPreDec, a, a, false) == Folded(Constant(S64, Known(x - 1)), Known(x - 1))
    ensures Folding(ULogicInv, a, a, false) == Folded(Constant(S64, Bool(x == 0)), a.value)
    ensures Folding(UBinInv, a, a, false) == Folded(Constant(S64, Known(-x - 1)), a.value)
  {
  }

  /** The low `n` bits of `x` are its lowest bit below twice the low
      `n - 1` bits of the rest. */
  lemma LowBits(x: int, n: nat)
    requires n >= 1
    ensures x % Pow2(n) == x % 2 + 2 * ((x / 2) % Pow2(n - 1))
  {
    var p := Pow2(n - 1);
    var q := (x / 2) / p;
    var r := (x / 2) % p;
    assert x / 2 == q * p + r;
    assert x == q * (2 * p) + (2 * r + x % 2);
    IrDs.DivUnique(x, 2 * p, q, 2 * r + x % 2);
  }

  /** Each bitwise operation is commutative. */
  lemma {:induction false} BitwiseCommutes(op: ExprOp, x: int, y: int, n: nat)
    ensures Bitwise(op, x, y, n) == Bitwise(op, y, x, n)
    decreases n
  {
    if n > 0 {
      BitwiseCommutes(op, x / 2, y / 2, n - 1);
    }
  }

  /** `x & x` and `x | x` keep the low `n` bits of `x`; `x ^ x` clears
      them. */
  lemma {:induction false} BitwiseSelf(x: int, n: nat)
    ensures Bitwise(BAnd, x, x, n) == x % Pow2(n)
    ensures Bitwise(BOr, x, x, n) == x % Pow2(n)
    ensures Bitwise(BXor, x, x, n) == 0
    decreases n
  {
    if n > 0 {
      BitwiseSelf(x / 2, n - 1);
      LowBits(x, n);
    }
  }

  /** `x ^ -1` flips each of the low `n` bits of `x`. */
  lemma {:induction false} XorAllOnes(x: int, n: nat)
    ensures Bitwise(BXor, x, -1, n) == Pow2(n) - 1 - x % Pow2(n)
    decreases n
  {
    if n > 0 {
      XorAllOnes(x / 2, n - 1);
      LowBits(x, n);
      assert (-1) % 2 == 1 && (-1) / 2 == -1;
    }
  }

  /** Bit by bit, `|` and `&` together count each set bit of `x` and of `y`
      once. */
  lemma {:induction false} OrPlusAnd(x: int, y: int, n: nat)
    ensures Bitwise(BOr, x, y, n) + Bitwise(BAnd, x, y, n) == x % Pow2(n) + y % Pow2(n)
    decreases n
  {
    if n > 0 {
      OrPlusAnd(x / 2, y / 2, n - 1);
      LowBits(x, n);
      LowBits(y, n);
    }
  }

  lemma {:induction false} Pow2Add(a: nat, b: nat)
    ensures Pow2(a + b) == Pow2(a) * Pow2(b)
    decreases a
  {
    if a > 0 {
      Pow2Add(a - 1, b);
    }
  }

  lemma Pow2Is64()
    ensures Pow2(64) == 0x1_0000_0000_0000_0000
  {
    assert Pow2(2) == 4;
    Pow2Add(2, 2);
    Pow2Add(4, 4);
    Pow2Add(8, 8);
    Pow2Add(16, 16);
    Pow2Add(32, 32);
  }

  /** A bitwise fold of two tracked values is the wrapped result of the
      operation on their 64 low bits, whatever the operand types. */
  lemma BitwiseFold(op: ExprOp, a: Constant, b: Constant, x: int, y: int, float: bool)
    requires op == BAnd || op == BOr || op == BXor
    requires a.value == Known(x) && b.value == Known(y)
    requires S64_MIN <= x <= S64_MAX && S64_MIN <= y <= S64_MAX
    ensures BinaryValue(op, a, b, float) == Some(Known(BitwiseValue(op, x, y)))
  {
  }

  /** The low `n` bits are a number below 2^n. */
  lemma {:induction false} BitwiseRange(op: ExprOp, x: int, y: int, n: nat)
    ensures 0 <= Bitwise(op, x, y, n) < Pow2(n)
    decreases n
  {
    if n > 0 {
      BitwiseRange(op, x / 2, y / 2, n - 1);
    }
  }

  /** The low 64 bits of an `s64`, as an unsigned number. */
  lemma LowWord(x: int)
    requires S64_MIN <= x <= S64_MAX
    ensures x % 0x1_0000_0000_0000_0000 == if x < 0 then x + 0x1_0000_0000_0000_0000 else x
  {
    var w := 0x1_0000_0000_0000_0000;
    IrDs.DivUnique(x, w, if x < 0 then -1 else 0, if x < 0 then x + w else x);
  }

  /** The bitwise operations on any `s64` values keep the laws of the
      two's-complement operations: each is commutative and stays within
      `s64`, `&` and `|` are idempotent, `x ^ x` is 0, `x ^ -1` is -x - 1
      (what `~x` folds to), and `(x | y) + (x & y)` is `x + y` in 64-bit
      arithmetic. */
  lemma BitwiseLaws(x: int, y: int)
    requires S64_MIN <= x <= S64_MAX && S64_MIN <= y <= S64_MAX
    ensures forall op :: op == BAnd || op == BOr || op == BXor ==>
              BitwiseValue(op, x, y) == BitwiseValue(op, y, x) && S64_MIN <= BitwiseValue(op, x, y) <= S64_MAX
    ensures BitwiseValue(BAnd, x, x) == x && BitwiseValue(BOr, x, x) == x
    ensures BitwiseValue(BXor, x, x) == 0
    ensures BitwiseValue(BXor, x, -1) == -x - 1
    ensures (BitwiseValue(BOr, x, y) + BitwiseValue(BAnd, x, y) - x - y) % 0x1_0000_0000_0000_0000 == 0
  {
    forall op | op == BAnd || op == BOr || op == BXor
      ensures BitwiseValue(op, x, y) == BitwiseValue(op, y, x) && S64_MIN <= BitwiseValue(op, x, y) <= S64_MAX
    {
      BitwiseCommutes(op, x, y, 64);
      BitwiseRange(op, x, y, 64);
      Pow2Is64();
    }
    assert BitwiseValue(BAnd, x, x) == x && BitwiseValue(BOr, x, x) == x && BitwiseValue(BXor, x, x) == 0 by {
      BitwiseSelf(x, 64);
      Pow2Is64();
      LowWord(x);
    }
    assert BitwiseValue(BXor, x, -1) == -x - 1 by {
      XorAllOnes(x, 64);
      Pow2Is64();
      LowWord(x);
    }
    OrAndWord(x, y);
  }

  /** `(x | y) + (x & y)` and `x + y` differ by a multiple of 2^64. */
  lemma OrAndWord(x: int, y: int)
    requires S64_MIN <= x <= S64_MAX && S64_MIN <= y <= S64_MAX
    ensures (BitwiseValue(BOr, x, y) + BitwiseValue(BAnd, x, y) - x - y) % 0x1_0000_0000_0000_0000 == 0
  {
    var w := 0x1_0000_0000_0000_0000;
    var o := Bitwise(BOr, x, y, 64);
    var n := Bitwise(BAnd, x, y, 64);
    var k := (if x < 0 then 1 else 0) + (if y < 0 then 1 else 0)
           - (if o > S64_MAX then 1 else 0) - (if n > S64_MAX then 1 else 0);
    var d := BitwiseValue(BOr, x, y) + BitwiseValue(BAnd, x, y) - x - y;
    assert d == k * w by {
      assert o + n == x % w + y % w && 0 <= o < w && 0 <= n < w by {
        OrPlusAnd(x, y, 64);
        BitwiseRange(BOr, x, y, 64);
        BitwiseRange(BAnd, x, y, 64);
        Pow2Is64();
      }
      LowWord(x);
      LowWord(y);
    }
    IrDs.DivUnique(d, w, k, 0);
  }

  // ------------------------------------------------------------ expressions

  /** The type an operand node carries: a constant's type, its variable's
      type, or an expression's result type. A variable node without a
      variable would be dereferenced as null, which gives nothing. */
  function OperandType(t: Tree, id: NodeId): Option<DataType>
    requires Valid(t) && id < |t.nodes|
  {
    var n := t.nodes[id];
    if n.ntype == NConstant then Some(n.con.ctype)
    else if n.ntype == NVar then (if n.variable.Some? then Some(t.vars[n.variable.value].vtype) else None)
    else Some(n.exp.resultType)
  }

  /** An implicit cast to `target`: a node from `ast_create_node` with the
      given scope and token becomes a cast expression and is inserted
      between `node` and its child at `index`. */
  function InsertCast(s: State, node: NodeId, index: nat, target: DataType, scope: ScopeId, token: nat): (r: State)
    requires Valid(s.tree) && node < |s.tree.nodes| && index < |s.tree.nodes[node].children|
    requires scope < |s.tree.scopes|
    ensures Grows(s, r) && r.reported == s.reported && r.tree.hasError == s.tree.hasError
  {
    var (t1, c) := CreateNode(s.tree, scope, token);
    assert t1.nodes[node].children == s.tree.nodes[node].children;
    var s1 := Retag(State(t1, s.reported), c, t1.nodes[c].(ntype := NExpr, exp := Expr(UCast, target), implicit := true));
    State(InsertBetween(s1.tree, node, index, c), s.reported)
  }

  /** The node `InsertCast` will take: the free-list head, or a new one. */
  function NextNode(t: Tree): NodeId
  {
    if t.freeList.Some? then t.freeList.value else |t.nodes|
  }

  /** Node `c` is an implicit cast to `target` in slot `i` of `node`, and
      holds `kid` as its last child. */
  predicate CastAt(t: Tree, node: NodeId, i: nat, c: NodeId, target: DataType, kid: NodeId)
  {
    && node < |t.nodes| && c < |t.nodes| && i < |t.nodes[node].children| && t.nodes[node].children[i] == c
    && t.nodes[c].ntype == NExpr && t.nodes[c].exp == Expr(UCast, target) && t.nodes[c].implicit
    && t.nodes[c].parent == Some(node)
    && |t.nodes[c].children| > 0 && t.nodes[c].children[|t.nodes[c].children| - 1] == kid
  }

  /** The cast takes the child's slot and holds the child as its last
      child; the other slots keep theirs, and the child records the cast
      as its parent. A new node holds only the child. */
  lemma CastPlacement(s: State, node: NodeId, index: nat, target: DataType, scope: ScopeId, token: nat)
    requires Valid(s.tree) && node < |s.tree.nodes| && index < |s.tree.nodes[node].children|
    requires scope < |s.tree.scopes|
    requires NextNode(s.tree) != node && NextNode(s.tree) !in s.tree.nodes[node].children
    ensures var kids := s.tree.nodes[node].children; var c := NextNode(s.tree);
      var r := InsertCast(s, node, index, target, scope, token).tree;
      && r.nodes[node].children == kids[index := c] && r.nodes[node].exp == s.tree.nodes[node].exp
      && CastAt(r, node, index, c, target, kids[index])
      && r.nodes[c].scope == scope && r.nodes[c].token == token
      && (s.tree.freeList.None? ==> r.nodes[c].children == [kids[index]])
      && r.nodes[kids[index]].parent == Some(c)
    ensures var kids := s.tree.nodes[node].children; var c := NextNode(s.tree);
      var r := InsertCast(s, node, index, target, scope, token).tree;
      forall k :: 0 <= k < |s.tree.nodes| && k != node && k != c && k != kids[index] ==> r.nodes[k] == s.tree.nodes[k]
  {
    var (t1, c) := CreateNode(s.tree, scope, token);
    var n1 := t1.nodes[c].(ntype := NExpr, exp := Expr(UCast, target), implicit := true);
    var s1 := Retag(State(t1, s.reported), c, n1);
    assert s1.tree.nodes[node] == s.tree.nodes[node].(token := s1.tree.nodes[node].token);
    InsertBetweenEffect(s1.tree, node, index, c);
  }

  /** A binary operation whose operands are not both constants: the
      result type and side from the promotion table, then an implicit
      cast on the promoted side to the other operand's type. A type error
      marks the node and leaves it the unknown type. */
  function BinaryTyped(s: State, node: NodeId, lt: DataType, rt: DataType): (r: Run)
    requires Valid(s.tree) && node < |s.tree.nodes| && |s.tree.nodes[node].children| == 2
    ensures r.Ran? || r.Crashed?
    ensures r.Ran? ==> Grows(s, r.st)
  {
    var n := s.tree.nodes[node];
    match TyperTable.BinaryResult(n.exp.op, lt, rt)
    case TypeError =>
      var s1 := TyperError(s, node);
      Ran(Retag(s1, node, s1.tree.nodes[node].(exp := n.exp.(resultType := DataType.Unknown))))
    case Crash => Crashed
    case Typed(ty, side, _) => Ran(PromoteSide(Retag(s, node, n.(exp := n.exp.(resultType := ty))), node, side, lt, rt))
  }

  /** `promote_side`: a cast of the left operand to the right one's type
      in slot 0, made with the left operand's scope and token, or the
      mirror image in slot 1. */
  function PromoteSide(s: State, node: NodeId, side: TyperTable.Side, lt: DataType, rt: DataType): (r: State)
    requires Valid(s.tree) && node < |s.tree.nodes| && |s.tree.nodes[node].children| == 2
    ensures Grows(s, r) && r.reported == s.reported && r.tree.hasError == s.tree.hasError
  {
    var n := s.tree.nodes[node];
    var left := s.tree.nodes[n.children[0]];
    var right := s.tree.nodes[n.children[1]];
    match side
    case NoSide => s
    case LeftSide => InsertCast(s, node, 0, rt, left.scope, left.token)
    case RightSide => InsertCast(s, node, 1, lt, right.scope, right.token)
  }

  /** `typer_expr`. */
  function TyperExpr(s: State, node: NodeId): (r: Run)
    requires Valid(s.tree) && node < |s.tree.nodes|
    ensures r.Ran? || r.Crashed?
    ensures r.Ran? ==> Grows(s, r.st)
  {
    var n := s.tree.nodes[node];
    var op := n.exp.op;
    if IsBinary(op) then
      if |n.children| != 2 then Ran(TyperError(s, node))
      else if s.tree.nodes[n.children[0]].ntype == NConstant && s.tree.nodes[n.children[1]].ntype == NConstant then
        ConstExpr(s, node)
      else
        match (OperandType(s.tree, n.children[0]), OperandType(s.tree, n.children[1]))
        case (Some(lt), Some(rt)) => BinaryTyped(s, node, lt, rt)
        case _ => Crashed
    else if IsUnary(op) || op == UCast then
      if |n.children| != 1 then Ran(TyperError(s, node))
      else if s.tree.nodes[n.children[0]].ntype == NConstant then ConstExpr(s, node)
      else if op == UCast then Ran(s)
      else
        match OperandType(s.tree, n.children[0])
        case Some(ty) => Ran(Retag(s, node, n.(exp := n.exp.(resultType := ty))))
        case None => Crashed
    else Ran(TyperError(s, node))
  }

  /** The binary operations whose operands are not both constants go
      through the promotion table. */
  lemma BinaryDispatch(s: State, node: NodeId, lt: DataType, rt: DataType)
    requires Valid(s.tree) && node < |s.tree.nodes|
    requires var n := s.tree.nodes[node];
      && IsBinary(n.exp.op) && |n.children| == 2
      && !(s.tree.nodes[n.children[0]].ntype == NConstant && s.tree.nodes[n.children[1]].ntype == NConstant)
      && OperandType(s.tree, n.children[0]) == Some(lt) && OperandType(s.tree, n.children[1]) == Some(rt)
    ensures TyperExpr(s, node) == BinaryTyped(s, node, lt, rt)
  {
  }

  /** A binary operation on a constant and a non-constant, or on two
      non-constants, takes its type from the promotion table; when one
      side is promoted, a cast to the other side's type takes that
      operand's slot, so for an arithmetic operation both operands then
      carry the result type. */
  lemma PromotesWithImplicitCast(s: State, node: NodeId, lt: DataType, rt: DataType)
    requires Valid(s.tree) && node < |s.tree.nodes|
    requires var n := s.tree.nodes[node];
      && IsBinary(n.exp.op) && |n.children| == 2
      && !(s.tree.nodes[n.children[0]].ntype == NConstant && s.tree.nodes[n.children[1]].ntype == NConstant)
      && OperandType(s.tree, n.children[0]) == Some(lt) && OperandType(s.tree, n.children[1]) == Some(rt)
    requires TyperTable.BinaryResult(s.tree.nodes[node].exp.op, lt, rt).Typed?
    requires NextNode(s.tree) != node && NextNode(s.tree) !in s.tree.nodes[node].children
    ensures var n := s.tree.nodes[node]; var res := TyperTable.BinaryResult(n.exp.op, lt, rt);
      var r := TyperExpr(s, node);
      && r.Ran? && r.st.reported == s.reported && r.st.tree.hasError == s.tree.hasError
      && r.st.tree.nodes[node].exp == n.exp.(resultType := res.result)
      && (res.side == TyperTable.NoSide ==> r.st.tree.nodes[node] == n.(exp := n.exp.(resultType := res.result)))
      && (res.side != TyperTable.NoSide ==>
            var i := if res.side == TyperTable.LeftSide then 0 else 1;
            var target := if res.side == TyperTable.LeftSide then rt else lt;
            && r.st.tree.nodes[node].children == n.children[i := NextNode(s.tree)]
            && CastAt(r.st.tree, node, i, NextNode(s.tree), target, n.children[i])
            && (!n.exp.op.IsComparison() ==> target == res.result))
  {
    BinaryDispatch(s, node, lt, rt);
    BinaryTypedPlacesCast(s, node, lt, rt);
  }

  /** The typed branch of a binary operation, on its own. */
  lemma BinaryTypedPlacesCast(s: State, node: NodeId, lt: DataType, rt: DataType)
    requires Valid(s.tree) && node < |s.tree.nodes| && |s.tree.nodes[node].children| == 2
    requires TyperTable.BinaryResult(s.tree.nodes[node].exp.op, lt, rt).Typed?
    requires NextNode(s.tree) != node && NextNode(s.tree) !in s.tree.nodes[node].children
    ensures var n := s.tree.nodes[node]; var res := TyperTable.BinaryResult(n.exp.op, lt, rt);
      var r := BinaryTyped(s, node, lt, rt);
      && r.Ran? && r.st.reported == s.reported && r.st.tree.hasError == s.tree.hasError
      && r.st.tree.nodes[node].exp == n.exp.(resultType := res.result)
      && (res.side == TyperTable.NoSide ==> r.st.tree.nodes[node] == n.(exp := n.exp.(resultType := res.result)))
      && (res.side != TyperTable.NoSide ==>
            var i := if res.side == TyperTable.LeftSide then 0 else 1;
            var target := if res.side == TyperTable.LeftSide then rt else lt;
            && r.st.tree.nodes[node].children == n.children[i := NextNode(s.tree)]
            && CastAt(r.st.tree, node, i, NextNode(s.tree), target, n.children[i])
            && (!n.exp.op.IsComparison() ==> target == res.result))
  {
    var n := s.tree.nodes[node];
    var res := TyperTable.BinaryResult(n.exp.op, lt, rt);
    var s1 := Retag(s, node, n.(exp := n.exp.(resultType := res.result)));
    assert BinaryTyped(s, node, lt, rt) == Ran(PromoteSide(s1, node, res.side, lt, rt));
    PromotedSide(s1, node, res.side, lt, rt);
  }

  /** Where `PromoteSide` puts the cast. */
  lemma PromotedSide(s: State, node: NodeId, side: TyperTable.Side, lt: DataType, rt: DataType)
    requires Valid(s.tree) && node < |s.tree.nodes| && |s.tree.nodes[node].children| == 2
    requires NextNode(s.tree) != node && NextNode(s.tree) !in s.tree.nodes[node].children
    ensures var n := s.tree.nodes[node]; var r := PromoteSide(s, node, side, lt, rt);
      && (side == TyperTable.NoSide ==> r == s)
      && (side != TyperTable.NoSide ==>
            var i := if side == TyperTable.LeftSide then 0 else 1;
            var target := if side == TyperTable.LeftSide then rt else lt;
            && r.tree.nodes[node].children == n.children[i := NextNode(s.tree)]
            && r.tree.nodes[node].exp == n.exp
            && CastAt(r.tree, node, i, NextNode(s.tree), target, n.children[i]))
  {
    var n := s.tree.nodes[node];
    if side == TyperTable.LeftSide {
      CastPlacement(s, node, 0, rt, s.tree.nodes[n.children[0]].scope, s.tree.nodes[n.children[0]].token);
    } else if side == TyperTable.RightSide {
      CastPlacement(s, node, 1, lt, s.tree.nodes[n.children[1]].scope, s.tree.nodes[n.children[1]].token);
    }
  }

  /** A type error in the promotion table marks the node, which keeps its
      children and gets the unknown result type. */
  lemma TypeErrorLeavesUnknown(s: State, node: NodeId, lt: DataType, rt: DataType)
    requires Valid(s.tree) && node < |s.tree.nodes|
    requires var n := s.tree.nodes[node];
      && IsBinary(n.exp.op) && |n.children| == 2
      && !(s.tree.nodes[n.children[0]].ntype == NConstant && s.tree.nodes[n.children[1]].ntype == NConstant)
      && OperandType(s.tree, n.children[0]) == Some(lt) && OperandType(s.tree, n.children[1]) == Some(rt)
    requires TyperTable.BinaryResult(s.tree.nodes[node].exp.op, lt, rt) == TyperTable.TypeError
    ensures var n := s.tree.nodes[node]; var r := TyperExpr(s, node);
      && r.Ran? && r.st.tree.hasError
      && r.st.tree.nodes[node] == n.(hasError := true, exp := n.exp.(resultType := DataType.Unknown))
  {
  }

  /** The cases of `typer_expr` that end in an error. */
  lemma ExprErrorDispatch(s: State, node: NodeId)
    requires Valid(s.tree) && node < |s.tree.nodes|
    requires var n := s.tree.nodes[node];
      || (IsBinary(n.exp.op) && |n.children| != 2)
      || ((IsUnary(n.exp.op) || n.exp.op == UCast) && |n.children| != 1)
      || !(IsBinary(n.exp.op) || IsUnary(n.exp.op) || n.exp.op == UCast)
    ensures TyperExpr(s, node) == Ran(TyperError(s, node))
  {
    var n := s.tree.nodes[node];
    if IsBinary(n.exp.op) {
      assert |n.children| != 2;
    } else if IsUnary(n.exp.op) || n.exp.op == UCast {
      assert |n.children| != 1;
    }
  }

  /** An operation with the wrong number of operands, and an unknown
      operation, are errors on the node and change nothing else. */
  lemma ArityErrors(s: State, node: NodeId)
    requires Valid(s.tree) && node < |s.tree.nodes|
    requires var n := s.tree.nodes[node];
      || (IsBinary(n.exp.op) && |n.children| != 2)
      || ((IsUnary(n.exp.op) || n.exp.op == UCast) && |n.children| != 1)
      || !(IsBinary(n.exp.op) || IsUnary(n.exp.op) || n.exp.op == UCast)
    ensures var r := TyperExpr(s, node);
      && r.Ran? && r.st.tree.hasError
      && r.st.tree.nodes == s.tree.nodes[node := s.tree.nodes[node].(hasError := true)]
  {
    ExprErrorDispatch(s, node);
    var t := TyperError(s, node).tree.nodes;
    var u := s.tree.nodes[node := s.tree.nodes[node].(hasError := true)];
    assert |t| == |u|;
    assert forall k :: 0 <= k < |t| ==> t[k] == u[k];
  }

  /** A unary operation on a non-constant takes its operand's type and
      changes nothing else; a cast of a non-constant changes nothing. */
  lemma UnaryTakesOperandType(s: State, node: NodeId)
    requires Valid(s.tree) && node < |s.tree.nodes|
    requires var n := s.tree.nodes[node];
      && (IsUnary(n.exp.op) || n.exp.op == UCast) && |n.children| == 1
      && s.tree.nodes[n.children[0]].ntype != NConstant
      && OperandType(s.tree, n.children[0]).Some?
    ensures var n := s.tree.nodes[node]; var r := TyperExpr(s, node);
      && r.Ran? && r.st.reported == s.reported
      && (n.exp.op == UCast ==> r.st == s)
      && (n.exp.op != UCast ==>
            r.st.tree.nodes == s.tree.nodes[node := n.(exp := n.exp.(resultType := OperandType(s.tree, n.children[0]).value))])
  {
    var n := s.tree.nodes[node];
    if n.exp.op != UCast {
      var m := n.(exp := n.exp.(resultType := OperandType(s.tree, n.children[0]).value));
      assert !IsBinary(n.exp.op);
      var r := Retag(s, node, m);
      assert TyperExpr(s, node) == Ran(r);
      var u := s.tree.nodes[node := m];
      assert |r.tree.nodes| == |u|;
      assert forall k :: 0 <= k < |u| ==> r.tree.nodes[k] == u[k];
    } else {
      assert !IsBinary(n.exp.op);
    }
  }

  // ------------------------------------------------------------ assignments

  /** The type of an assignment's target, when the target is a variable
      or a declaration that has one. */
  function TargetType(t: Tree, node: NodeId): Option<DataType>
    requires Valid(t) && node < |t.nodes|
  {
    var n := t.nodes[node];
    if |n.children| != 2 then None
    else
      var l := t.nodes[n.children[0]];
      if (l.ntype == NVar || l.ntype == NVarDecl) && l.variable.Some? then Some(t.vars[l.variable.value].vtype)
      else None
  }

  /** The check of `typer_depth_first` for an assignment whose sides have
      types `lt` and `rt`: equal types pass; an integer and a
      floating-point type, either way round, are an error; two types of
      one category get an implicit cast to `lt` on the right; a signed
      and an unsigned type, or a non-number type, pass unchanged. */
  function AssignCheck(s: State, node: NodeId, lt: DataType, rt: DataType): (r: State)
    requires Valid(s.tree) && node < |s.tree.nodes| && |s.tree.nodes[node].children| == 2
    ensures Grows(s, r)
  {
    var n := s.tree.nodes[node];
    var cl := TyperTable.CategoryOf(lt);
    var cr := TyperTable.CategoryOf(rt);
    if lt == rt then s
    else if TyperTable.IsInteger(cl) && cr == TyperTable.FloatCat then TyperError(s, node)
    else if TyperTable.IsInteger(cr) && cl == TyperTable.FloatCat then TyperError(s, node)
    else if cl == cr && cl != TyperTable.NoCat then InsertCast(s, node, 1, lt, n.scope, n.token)
    else s
  }

  /** The `N_ASSIGN` case of `typer_depth_first`. The node must have two
      children, the left one a variable or a declaration; the right one's
      type comes from its result type, its variable, or its constant,
      which is first converted to the target's type when they differ. Any
      other right side is an invalid case. */
  function Assign(s: State, node: NodeId): (r: Run)
    requires Valid(s.tree) && node < |s.tree.nodes|
    ensures r.Ran? || r.Crashed?
    ensures r.Ran? ==> Grows(s, r.st)
    ensures TargetType(s.tree, node).None? ==> r.Crashed?
  {
    var n := s.tree.nodes[node];
    match TargetType(s.tree, node)
    case None => Crashed
    case Some(lt) =>
      var right := n.children[1];
      var rn := s.tree.nodes[right];
      if rn.ntype == NExpr then Ran(AssignCheck(s, node, lt, rn.exp.resultType))
      else if rn.ntype == NVar then
        (if rn.variable.Some? then Ran(AssignCheck(s, node, lt, s.tree.vars[rn.variable.value].vtype)) else Crashed)
      else if rn.ntype == NConstant then
        if rn.con.ctype == lt then Ran(s)
        else
          var s1 := CastConst(s, right, lt);
          Ran(AssignCheck(s1, node, lt, s1.tree.nodes[right].con.ctype))
      else Crashed
  }

  /** The type of an assignment's right side that is an expression or a
      variable. */
  function SourceType(t: Tree, node: NodeId): Option<DataType>
    requires Valid(t) && node < |t.nodes| && |t.nodes[node].children| == 2
  {
    var rn := t.nodes[t.nodes[node].children[1]];
    if rn.ntype == NExpr || (rn.ntype == NVar && rn.variable.Some?) then OperandType(t, t.nodes[node].children[1])
    else None
  }

  /** An assignment whose right side is an expression or a variable goes
      straight to the type check. */
  lemma AssignDispatch(s: State, node: NodeId, lt: DataType, rt: DataType)
    requires Valid(s.tree) && node < |s.tree.nodes|
    requires TargetType(s.tree, node) == Some(lt) && SourceType(s.tree, node) == Some(rt)
    ensures Assign(s, node) == Ran(AssignCheck(s, node, lt, rt))
  {
    var rn := s.tree.nodes[s.tree.nodes[node].children[1]];
    if rn.ntype == NExpr {
      assert rt == rn.exp.resultType;
    } else {
      assert rn.ntype == NVar && rt == s.tree.vars[rn.variable.value].vtype;
    }
  }

  /** Assigning a floating-point value to an integer, or an integer value
      to a floating-point target, is an error on the assignment. */
  lemma AssignRejectsIntFloatMix(s: State, node: NodeId, lt: DataType, rt: DataType)
    requires Valid(s.tree) && node < |s.tree.nodes|
    requires TargetType(s.tree, node) == Some(lt) && SourceType(s.tree, node) == Some(rt)
    requires var cl := TyperTable.CategoryOf(lt); var cr := TyperTable.CategoryOf(rt);
      (TyperTable.IsInteger(cl) && cr == TyperTable.FloatCat) || (cl == TyperTable.FloatCat && TyperTable.IsInteger(cr))
    ensures var r := Assign(s, node);
      && r.Ran? && r.st.tree.hasError
      && r.st.tree.nodes == s.tree.nodes[node := s.tree.nodes[node].(hasError := true)]
  {
    AssignDispatch(s, node, lt, rt);
    var r := TyperError(s, node);
    var u := s.tree.nodes[node := s.tree.nodes[node].(hasError := true)];
    assert AssignCheck(s, node, lt, rt) == r;
    assert |r.tree.nodes| == |u|;
    assert forall k :: 0 <= k < |u| ==> r.tree.nodes[k] == u[k];
  }

  /** Different types of one category: the right side is wrapped in an
      implicit cast to the target's type, made with the assignment's
      scope and token. */
  lemma AssignCastsWithinCategory(s: State, node: NodeId, lt: DataType, rt: DataType) returns (st: State)
    requires Valid(s.tree) && node < |s.tree.nodes|
    requires TargetType(s.tree, node) == Some(lt) && SourceType(s.tree, node) == Some(rt)
    requires lt != rt && TyperTable.CategoryOf(lt) == TyperTable.CategoryOf(rt) && TyperTable.CategoryOf(lt) != TyperTable.NoCat
    requires NextNode(s.tree) != node && NextNode(s.tree) !in s.tree.nodes[node].children
    ensures Assign(s, node) == Ran(st)
    ensures st.reported == s.reported && st.tree.hasError == s.tree.hasError
    ensures var n := s.tree.nodes[node]; var c := NextNode(s.tree);
      && st.tree.nodes[node].children == [n.children[0], c]
      && CastAt(st.tree, node, 1, c, lt, n.children[1])
      && st.tree.nodes[c].scope == n.scope && st.tree.nodes[c].token == n.token
  {
    var n := s.tree.nodes[node];
    var c := NextNode(s.tree);
    assert |n.children| == 2;
    st := InsertCast(s, node, 1, lt, n.scope, n.token);
    assert Assign(s, node) == Ran(st) by {
      AssignDispatch(s, node, lt, rt);
      SameCategoryCasts(s, node, lt, rt);
    }
    CastOnRightSide(s, node, lt);
  }

  /** The cast on an assignment's right side, placed with the assignment's
      scope and token. */
  lemma CastOnRightSide(s: State, node: NodeId, lt: DataType)
    requires Valid(s.tree) && node < |s.tree.nodes| && |s.tree.nodes[node].children| == 2
    requires NextNode(s.tree) != node && NextNode(s.tree) !in s.tree.nodes[node].children
    ensures var n := s.tree.nodes[node]; var c := NextNode(s.tree);
      var st := InsertCast(s, node, 1, lt, n.scope, n.token);
      && st.tree.nodes[node].children == [n.children[0], c]
      && CastAt(st.tree, node, 1, c, lt, n.children[1])
      && st.tree.nodes[c].scope == n.scope && st.tree.nodes[c].token == n.token
  {
    var n := s.tree.nodes[node];
    CastPlacement(s, node, 1, lt, n.scope, n.token);
    assert n.children[1 := NextNode(s.tree)] == [n.children[0], NextNode(s.tree)];
  }

  /** The check's cast branch. */
  lemma SameCategoryCasts(s: State, node: NodeId, lt: DataType, rt: DataType)
    requires Valid(s.tree) && node < |s.tree.nodes| && |s.tree.nodes[node].children| == 2
    requires lt != rt && TyperTable.CategoryOf(lt) == TyperTable.CategoryOf(rt) && TyperTable.CategoryOf(lt) != TyperTable.NoCat
    ensures var n := s.tree.nodes[node]; AssignCheck(s, node, lt, rt) == InsertCast(s, node, 1, lt, n.scope, n.token)
  {
  }

  /** A signed value assigned to an unsigned target or the reverse, and a
      target of a non-number type, pass without a cast or an error. */
  lemma AssignLeavesOtherMixes(s: State, node: NodeId, lt: DataType, rt: DataType)
    requires Valid(s.tree) && node < |s.tree.nodes|
    requires TargetType(s.tree, node) == Some(lt) && SourceType(s.tree, node) == Some(rt)
    requires var cl := TyperTable.CategoryOf(lt); var cr := TyperTable.CategoryOf(rt);
      || (TyperTable.IsInteger(cl) && TyperTable.IsInteger(cr) && cl != cr)
      || cl == TyperTable.NoCat || cr == TyperTable.NoCat
    ensures Assign(s, node) == Ran(s)
  {
    AssignDispatch(s, node, lt, rt);
  }

  /** A constant assigned to a number-typed target is converted to the
      target's type in place; nothing is reported and no cast node is
      made. */
  lemma AssignConvertsConstant(s: State, node: NodeId, lt: DataType)
    requires Valid(s.tree) && node < |s.tree.nodes|
    requires TargetType(s.tree, node) == Some(lt) && !NotANumber(lt)
    requires s.tree.nodes[s.tree.nodes[node].children[1]].ntype == NConstant
    ensures var n := s.tree.nodes[node]; var c := s.tree.nodes[n.children[1]].con; var r := Assign(s, node);
      && r.Ran? && r.st.reported == s.reported && r.st.tree.hasError == s.tree.hasError
      && r.st.tree.nodes[node].children == n.children
      && r.st.tree.nodes[n.children[1]].con == (if c.ctype == lt then c else Constant(lt, CastValue(c, lt)))
  {
  }

  // ------------------------------------------------------------ the walk

  /** What `typer_depth_first` does at a node once its children are done. */
  function Visit(s: State, node: NodeId): (r: Run)
    requires Valid(s.tree) && node < |s.tree.nodes|
    ensures r.Ran? || r.Crashed?
    ensures r.Ran? ==> Grows(s, r.st)
    ensures s.tree.nodes[node].ntype !in {NExpr, NAssign} ==> r == Ran(s)
  {
    match s.tree.nodes[node].ntype
    case NExpr => TyperExpr(s, node)
    case NAssign => Assign(s, node)
    case _ => Ran(s)
  }

  /** `typer_depth_first`: the children in order, then the node. The
      recursion is bounded by `fuel` levels. */
  function DepthFirst(s: State, node: NodeId, fuel: nat): (r: Run)
    requires Valid(s.tree) && node < |s.tree.nodes|
    ensures r.Ran? ==> Grows(s, r.st)
    ensures !r.Exited?
    decreases fuel, 0, 0
  {
    if fuel == 0 then OutOfFuel
    else
      VisitAfter(Children(s, node, 0, |s.tree.nodes[node].children|, fuel - 1), s, node)
  }

  /** What follows the loop over a node's children: the node's own visit
      when the loop ran, the loop's outcome otherwise. */
  function VisitAfter(r: Run, s: State, node: NodeId): (v: Run)
    requires Valid(s.tree) && node < |s.tree.nodes| && (r.Ran? ==> Grows(s, r.st)) && !r.Exited?
    ensures v.Ran? ==> Grows(s, v.st)
    ensures !v.Exited?
  {
    if r.Ran? then Visit(r.st, node) else r
  }

  /** The loop over the children from index `i`, reading the list afresh
      each turn as `typer_depth_first` does. The C++ loop re-reads the
      length on every turn; the model also stops at `bound`, the count at
      the start, so that the recursion terminates. The two differ only when
      a child's walk appends to this node's own child list. */
  function Children(s: State, node: NodeId, i: nat, bound: nat, fuel: nat): (r: Run)
    requires Valid(s.tree) && node < |s.tree.nodes|
    ensures r.Ran? ==> Grows(s, r.st)
    ensures !r.Exited?
    decreases fuel, 1, bound - i
  {
    var kids := s.tree.nodes[node].children;
    if i >= bound || i >= |kids| then Ran(s)
    else
      var r1 := DepthFirst(s, kids[i], fuel);
      if r1.Ran? then Children(r1.st, node, i + 1, bound, fuel) else r1
  }

  /** `typer`: the walk from the root, then the exit when the tree has an
      error. A tree without a root is dereferenced as null. The depth
      bound is one more than the number of nodes, the deepest an acyclic
      tree can be. */
  function TypeTree(t: Tree): (r: Run)
    requires Valid(t)
    ensures r.Ran? ==> !r.st.tree.hasError && r.st.reported == [] && Grows(State(t, []), r.st)
    ensures r.Exited? ==> r.st.tree.hasError && Grows(State(t, []), r.st)
    ensures t.hasError ==> !r.Ran?
  {
    match t.root
    case None => Crashed
    case Some(root) =>
      var r1 := DepthFirst(State(t, []), root, |t.nodes| + 1);
      if !r1.Ran? then r1
      else if r1.st.tree.hasError then Exited(r1.st)
      else r1
  }

  /** A node that is neither an expression nor an assignment, and has no
      children, is left as it is. */
  lemma LeafPassesUnchanged(s: State, node: NodeId, fuel: nat)
    requires Valid(s.tree) && node < |s.tree.nodes| && fuel > 0
    requires s.tree.nodes[node].children == [] && s.tree.nodes[node].ntype !in {NExpr, NAssign}
    ensures DepthFirst(s, node, fuel) == Ran(s)
  {
  }

  /** The shape of `v = x + y;` with `v` an `s64` variable and `x`, `y`
      constants of type S64 whose values and sum a double holds exactly. */
  predicate ConstantSum(t: Tree, a: NodeId, v: NodeId, e: NodeId, x: NodeId, y: NodeId, i: int, j: int)
  {
    && Valid(t) && !t.hasError && t.root == Some(a)
    && a < |t.nodes| && v < |t.nodes| && e < |t.nodes| && x < |t.nodes| && y < |t.nodes|
    && a != v && a != e && a != x && a != y && v != e && e != x && e != y && x != y
    && t.nodes[a].ntype == NAssign && t.nodes[a].children == [v, e]
    && t.nodes[v].ntype == NVar && t.nodes[v].children == [] && t.nodes[v].variable.Some?
    && t.nodes[v].variable.value < |t.vars| && t.vars[t.nodes[v].variable.value].vtype == S64
    && t.nodes[e].ntype == NExpr && t.nodes[e].exp.op == BAdd && t.nodes[e].children == [x, y]
    && t.nodes[x].ntype == NConstant && t.nodes[x].children == [] && t.nodes[x].parent == Some(e)
    && t.nodes[y].ntype == NConstant && t.nodes[y].children == [] && t.nodes[y].parent == Some(e)
    && t.nodes[x].con == Constant(S64, Known(i)) && t.nodes[y].con == Constant(S64, Known(j))
    && -ExactLimit <= i <= ExactLimit && -ExactLimit <= j <= ExactLimit && -ExactLimit <= i + j <= ExactLimit
  }

  /** The walk over an operation on two constant leaves is the fold. */
  lemma WalkFolds(s: State, node: NodeId, fuel: nat)
    requires Valid(s.tree) && node < |s.tree.nodes| && fuel >= 2 && s.tree.nodes[node].ntype == NExpr
    requires Foldable(s.tree, node) && |s.tree.nodes[node].children| == 2
    requires forall k :: 0 <= k < 2 ==> s.tree.nodes[s.tree.nodes[node].children[k]].children == []
    ensures DepthFirst(s, node, fuel) == ConstExpr(s, node)
  {
    var kids := s.tree.nodes[node].children;
    LeafPassesUnchanged(s, kids[0], fuel - 1);
    LeafPassesUnchanged(s, kids[1], fuel - 1);
    WalksChildrenFirst(s, node, fuel, s, s);
    ConstantOperandsFold(s, node);
  }

  /** The sum's operands can be folded, and the fold is the exact
      constant `i + j`. */
  lemma SumFoldValue(t: Tree, a: NodeId, v: NodeId, e: NodeId, x: NodeId, y: NodeId, i: int, j: int)
    requires ConstantSum(t, a, v, e, x, y, i, j)
    ensures Foldable(t, e) && Linked(t, e) && !FloatOperand(t, e) && t.nodes[e].exp.op != UCast
    ensures FoldOf(t, e).Folded? && FoldOf(t, e).con == Constant(S64, Known(i + j))
  {
    assert !FloatOperand(t, e);
    assert FoldOf(t, e) == Folding(BAdd, t.nodes[x].con, t.nodes[y].con, false);
    FoldsExactArithmetic(t.nodes[x].con, t.nodes[y].con, i, j);
    assert Linked(t, e);
  }

  /** The fold of the sum: the constant `i + j`, its operands freed in
      order, the assignment and the variable left alone. */
  lemma SumFolds(t: Tree, rep: seq<NodeId>, a: NodeId, v: NodeId, e: NodeId, x: NodeId, y: NodeId, i: int, j: int)
    returns (st: State)
    requires ConstantSum(t, a, v, e, x, y, i, j)
    ensures ConstExpr(State(t, rep), e) == Ran(st) && Grows(State(t, rep), st)
    ensures st.reported == rep && !st.tree.hasError
    ensures st.tree.nodes[e] == t.nodes[e].(ntype := NConstant, children := [], con := Constant(S64, Known(i + j)))
    ensures st.tree.nodes[a] == t.nodes[a] && st.tree.nodes[v] == t.nodes[v]
    ensures st.tree.freeList == Some(x) && st.tree.nodes[x].nextFree == Some(y)
  {
    SumFoldValue(t, a, v, e, x, y, i, j);
    var kids := t.nodes[e].children;
    assert kids == [x, y] && a !in kids && v !in kids;
    st := FoldStoresResult(State(t, rep), e);
    assert st.tree.nodes[x].nextFree == Some(y) by {
      assert FreeChain(st.tree, kids, t.freeList) && kids[0] == x && kids[1] == y;
    }
  }

  /** Typing `v = x + y;` folds the sum before the assignment is checked:
      the sum becomes the constant `i + j`, its operands go to the free
      list in order, and the assignment needs no cast, so nothing is
      reported. Three levels of depth are enough. */
  lemma TypesConstantSum(s: State, a: NodeId, v: NodeId, e: NodeId, x: NodeId, y: NodeId, i: int, j: int, fuel: nat)
    returns (st: State)
    requires ConstantSum(s.tree, a, v, e, x, y, i, j) && fuel >= 3
    ensures DepthFirst(s, a, fuel) == Ran(st)
    ensures st.reported == s.reported && !st.tree.hasError
    ensures st.tree.nodes[e] == s.tree.nodes[e].(ntype := NConstant, children := [], con := Constant(S64, Known(i + j)))
    ensures st.tree.nodes[a] == s.tree.nodes[a]
    ensures st.tree.freeList == Some(x) && st.tree.nodes[x].nextFree == Some(y)
  {
    LeafPassesUnchanged(s, v, fuel - 1);
    WalkFolds(s, e, fuel - 1);
    assert s == State(s.tree, s.reported);
    st := SumFolds(s.tree, s.reported, a, v, e, x, y, i, j);
    assert TargetType(st.tree, a) == Some(S64);
    MatchingConstantPasses(st, a);
    WalksChildrenFirst(s, a, fuel, s, st);
  }

  /** A walk from the root that ends without an error is the typer's
      result. */
  lemma WalkWithoutErrorRuns(t: Tree, root: NodeId, st: State)
    requires Valid(t) && t.root == Some(root) && !st.tree.hasError
    requires DepthFirst(State(t, []), root, |t.nodes| + 1) == Ran(st)
    ensures TypeTree(t) == Ran(st)
  {
  }

  /** `typer_depth_first` on a node with two children: the first child's
      walk, then the second's on the state it left, then the node itself. */
  lemma WalksChildrenFirst(s: State, node: NodeId, fuel: nat, s1: State, s2: State)
    requires Valid(s.tree) && node < |s.tree.nodes| && fuel > 0 && |s.tree.nodes[node].children| == 2
    requires DepthFirst(s, s.tree.nodes[node].children[0], fuel - 1) == Ran(s1)
    requires Valid(s1.tree) && node < |s1.tree.nodes| && s1.tree.nodes[node].children == s.tree.nodes[node].children
    requires DepthFirst(s1, s.tree.nodes[node].children[1], fuel - 1) == Ran(s2)
    requires Valid(s2.tree) && node < |s2.tree.nodes|
    ensures DepthFirst(s, node, fuel) == Visit(s2, node)
  {
    var kids := s.tree.nodes[node].children;
    assert Children(s1, node, 1, 2, fuel - 1) == Children(s2, node, 2, 2, fuel - 1);
  }

  /** The walks over `kids` one after the other, from state `s`, up to the
      first that does not run. */
  function WalkEach(s: State, kids: seq<NodeId>, fuel: nat): (r: Run)
    requires Valid(s.tree) && forall k :: 0 <= k < |kids| ==> kids[k] < |s.tree.nodes|
    ensures r.Ran? ==> Grows(s, r.st)
    ensures !r.Exited?
    decreases |kids|
  {
    if |kids| == 0 then Ran(s)
    else
      var r1 := DepthFirst(s, kids[0], fuel);
      if r1.Ran? then WalkEach(r1.st, kids[1..], fuel) else r1
  }

  /** Each walk over `all[i..]` in turn that runs leaves the child list of
      `node` as `all`. */
  predicate KeepsChildren(s: State, node: NodeId, all: seq<NodeId>, i: nat, fuel: nat)
    requires Valid(s.tree) && node < |s.tree.nodes| && i <= |all|
    requires forall k :: 0 <= k < |all| ==> all[k] < |s.tree.nodes|
    decreases |all| - i
  {
    i < |all| ==>
      var r1 := DepthFirst(s, all[i], fuel);
      r1.Ran? ==> r1.st.tree.nodes[node].children == all && KeepsChildren(r1.st, node, all, i + 1, fuel)
  }

  /** The children loop from index `i` is the walk over the rest of the
      list, as long as the walks leave the list alone. */
  lemma {:induction false} ChildrenWalkEach(s: State, node: NodeId, all: seq<NodeId>, i: nat, fuel: nat)
    requires Valid(s.tree) && node < |s.tree.nodes| && i <= |all|
    requires forall k :: 0 <= k < |all| ==> all[k] < |s.tree.nodes|
    requires s.tree.nodes[node].children == all && KeepsChildren(s, node, all, i, fuel)
    ensures Children(s, node, i, |all|, fuel) == WalkEach(s, all[i..], fuel)
    decreases |all| - i
  {
    if i < |all| {
      var r1 := DepthFirst(s, all[i], fuel);
      assert all[i..][0] == all[i] && all[i..][1..] == all[i + 1..];
      if r1.Ran? {
        ChildrenWalkEach(r1.st, node, all, i + 1, fuel);
      }
    }
  }

  /** `typer_depth_first` on a node of any arity walks each child in order
      and then visits the node, when the child walks leave its child list
      alone; the first child walk that does not run ends the walk. */
  lemma {:induction false} WalksChildrenInOrder(s: State, node: NodeId, fuel: nat)
    requires Valid(s.tree) && node < |s.tree.nodes| && fuel > 0
    requires KeepsOwnChildren(s, node, fuel - 1)
    ensures DepthFirst(s, node, fuel) == VisitAfter(WalkEach(s, s.tree.nodes[node].children, fuel - 1), s, node)
  {
    ChildrenWalkAll(s, node, fuel - 1);
    assert DepthFirst(s, node, fuel) == VisitAfter(Children(s, node, 0, |s.tree.nodes[node].children|, fuel - 1), s, node);
  }

  /** The walks of `node`'s children leave its child list alone, stated for
      the loop as it starts, at index 0. */
  predicate KeepsOwnChildren(s: State, node: NodeId, fuel: nat)
    requires Valid(s.tree) && node < |s.tree.nodes|
  {
    assert NodeOk(s.tree.nodes[node], |s.tree.nodes|, |s.tree.scopes|, |s.tree.vars|, |s.tree.funs|);
    forall i :: i == 0 ==> KeepsChildren(s, node, s.tree.nodes[node].children, i, fuel)
  }

  /** The whole children loop is the walk over the child list. */
  lemma ChildrenWalkAll(s: State, node: NodeId, fuel: nat)
    requires Valid(s.tree) && node < |s.tree.nodes|
    requires KeepsOwnChildren(s, node, fuel)
    ensures Children(s, node, 0, |s.tree.nodes[node].children|, fuel) == WalkEach(s, s.tree.nodes[node].children, fuel)
  {
    var all := s.tree.nodes[node].children;
    assert NodeOk(s.tree.nodes[node], |s.tree.nodes|, |s.tree.scopes|, |s.tree.vars|, |s.tree.funs|);
    assert KeepsChildren(s, node, all, 0, fuel);
    ChildrenWalkEach(s, node, all, 0, fuel);
    assert all[0..] == all;
  }
  /** An operation whose operands are all constants is folded. */
  lemma ConstantOperandsFold(s: State, node: NodeId)
    requires Valid(s.tree) && node < |s.tree.nodes| && s.tree.nodes[node].ntype == NExpr
    requires Foldable(s.tree, node)
    ensures Visit(s, node) == ConstExpr(s, node)
  {
    var op := s.tree.nodes[node].exp.op;
    assert IsBinary(op) ==> !IsUnary(op) && op != UCast;
  }

  /** An assignment of a constant that already has the target's type
      changes nothing. */
  lemma MatchingConstantPasses(s: State, node: NodeId)
    requires Valid(s.tree) && node < |s.tree.nodes| && s.tree.nodes[node].ntype == NAssign
    requires TargetType(s.tree, node).Some?
    requires var r := s.tree.nodes[s.tree.nodes[node].children[1]];
      r.ntype == NConstant && r.con.ctype == TargetType(s.tree, node).value
    ensures Visit(s, node) == Ran(s)
  {
  }
}
