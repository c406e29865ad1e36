/** The recursive-descent parser: statements by recursive descent,
    expressions by precedence climbing. Identifiers are resolved against the
    scope chain while parsing. An error is remembered by its line and
    parsing goes on; a second error on the same line, or any error at all
    by the end, terminates the process, which is the `Exit` outcome here. */
module Parser {
  import opened Wrappers
  import opened Tokens
  import opened Ast
  import IrString
  import IrMaths

  /** `Parser`: the index of the current token, the line of the last
      reported error (0 while there has been none), the current scope and
      the tree built so far. */
  datatype PState = PState(pos: nat, lastErrorLine: nat, scope: ScopeId, tree: Tree)

  /** What a parsing function produced and the state after it, or `Exit`
      when the process was terminated. */
  datatype Parsed<T> = Ok(st: PState, value: T) | Exit

  /** Token sequences as the lexer produces them: never empty, with the
      end-of-file token last. */
  predicate WellTokens(toks: seq<Token>)
  {
    |toks| > 0 && toks[|toks| - 1].kind == Eof
  }

  /** What holds of every parser state: the position is on a token, every
      reference in the tree is in range and nothing was ever removed, so
      every new node is appended. */
  predicate Inv(toks: seq<Token>, st: PState)
  {
    && WellTokens(toks)
    && st.pos < |toks|
    && Valid(st.tree)
    && st.scope < |st.tree.scopes|
    && st.tree.freeList.None?
  }

  /** How a parsing function may change the state: the position only moves
      forward, the current scope is restored, the stores only grow,
      existing variables and the parents of existing scopes never change. */
  predicate Step(toks: seq<Token>, a: PState, b: PState)
  {
    && Inv(toks, b)
    && a.pos <= b.pos
    && b.scope == a.scope
    && |a.tree.nodes| <= |b.tree.nodes|
    && |a.tree.scopes| <= |b.tree.scopes|
    && a.tree.vars <= b.tree.vars
    && |a.tree.funs| <= |b.tree.funs|
    && b.tree.root == a.tree.root
    && b.tree.globalScope == a.tree.globalScope
    && (forall k :: 0 <= k < |a.tree.scopes| ==> b.tree.scopes[k].parent == a.tree.scopes[k].parent)
  }

  /** The first `base` nodes of `a` are in `b` unchanged. */
  predicate Keeps(a: Tree, b: Tree, base: nat)
  {
    base <= |a.nodes| <= |b.nodes| && forall k :: 0 <= k < base ==> b.nodes[k] == a.nodes[k]
  }

  /** Like `Step`, for parsing functions below the function level, which
      leave the function records alone. */
  predicate Local(toks: seq<Token>, a: PState, b: PState)
  {
    Step(toks, a, b) && b.tree.funs == a.tree.funs
  }

  // ---------------------------------------------------------------------
  // Token access

  /** `next_token`: moves to the following token unless the current one is
      the end of file. */
  function Next(toks: seq<Token>, st: PState): (r: PState)
    requires Inv(toks, st)
    ensures Inv(toks, r) && r == st.(pos := r.pos)
    ensures toks[st.pos].kind != Eof ==> r.pos == st.pos + 1
    ensures toks[st.pos].kind == Eof ==> r.pos == st.pos
  {
    if toks[st.pos].kind != Eof then st.(pos := st.pos + 1) else st
  }

  /** `peek_token(p, i)`: the token `i` places away, or the last token when
      that is past the end. A negative `i` is added as an unsigned size, so
      before the first token it too gives the last one. */
  function PeekIndex(toks: seq<Token>, st: PState, i: int): (r: nat)
    requires WellTokens(toks)
    ensures r < |toks|
    ensures 0 <= st.pos + i < |toks| ==> r == st.pos + i
    ensures !(0 <= st.pos + i < |toks|) ==> r == |toks| - 1
  {
    if 0 <= st.pos + i < |toks| then st.pos + i else |toks| - 1
  }

  /** `parser_error`: an error on the line of the previous one terminates
      the process; otherwise its line is remembered. */
  function Error(toks: seq<Token>, st: PState, tok: nat): (r: Parsed<()>)
    requires tok < |toks|
    ensures r.Exit? <==> st.lastErrorLine == toks[tok].line
    ensures r.Ok? ==> r.st == st.(lastErrorLine := toks[tok].line)
  {
    if st.lastErrorLine == toks[tok].line then Exit
    else Ok(st.(lastErrorLine := toks[tok].line), ())
  }

  /** `parser_error` when `cond` holds, nothing otherwise. */
  function ErrorIf(toks: seq<Token>, st: PState, cond: bool, tok: nat): (r: Parsed<()>)
    requires tok < |toks|
    ensures !cond ==> r == Ok(st, ())
    ensures cond ==> r == Error(toks, st, tok)
  {
    if cond then Error(toks, st, tok) else Ok(st, ())
  }

  /** `accept`: consumes the current token when it has kind `k` and yields
      its index. */
  function Accept(toks: seq<Token>, st: PState, k: TokenKind): (r: (PState, Option<nat>))
    requires Inv(toks, st)
    ensures Inv(toks, r.0) && r.0 == st.(pos := r.0.pos) && r.0.pos >= st.pos
    ensures toks[st.pos].kind == k ==> r.1 == Some(st.pos) && r.0 == Next(toks, st)
    ensures toks[st.pos].kind != k ==> r == (st, None)
  {
    if toks[st.pos].kind == k then (Next(toks, st), Some(st.pos)) else (st, None)
  }

  /** `expect`: `accept`, with an error at the current token when the kind
      does not match. */
  function Expect(toks: seq<Token>, st: PState, k: TokenKind): (r: Parsed<Option<nat>>)
    requires Inv(toks, st)
    ensures r.Ok? ==> Inv(toks, r.st) && r.st.pos >= st.pos && r.st.tree == st.tree && r.st.scope == st.scope
    ensures toks[st.pos].kind == k ==> r == Ok(Next(toks, st), Some(st.pos))
    ensures toks[st.pos].kind != k ==> r.Exit? || r.value.None?
  {
    var a := Accept(toks, st, k);
    if a.1.Some? then Ok(a.0, a.1)
    else
      var e := Error(toks, st, st.pos);
      if e.Exit? then Exit else Ok(e.st, None)
  }

  /** `token_text`: "NULL" for a missing token. */
  function TokenText(toks: seq<Token>, tok: Option<nat>): string
    requires OptBelow(tok, |toks|)
  {
    if tok.Some? then toks[tok.value].text else "NULL"
  }

  /** `token_data_type`: unknown for a missing token. */
  function TokenDataType(toks: seq<Token>, tok: Option<nat>): DataType
    requires OptBelow(tok, |toks|)
  {
    if tok.Some? then toks[tok.value].dataType else DataType.Unknown
  }

  // ---------------------------------------------------------------------
  // Node building

  /** `ast_create_node` followed by setting the node type. With the free
      list empty the node is appended. */
  function Make(t: Tree, scope: ScopeId, tok: nat, ntype: NodeType): (r: (Tree, NodeId))
    requires Valid(t) && scope < |t.scopes| && t.freeList.None?
    ensures Valid(r.0) && r.1 == |t.nodes| && r.0.freeList.None?
    ensures r.0.nodes == t.nodes + [ZeroNode.(token := tok, scope := scope, ntype := ntype)]
    ensures r.0.scopes == t.scopes && r.0.vars == t.vars && r.0.funs == t.funs
    ensures r.0.root == t.root && r.0.globalScope == t.globalScope
  {
    var c := CreateNode(t, scope, tok);
    var t1 := SetNode(c.0, c.1, c.0.nodes[c.1].(ntype := ntype));
    assert t1.nodes == t.nodes + [ZeroNode.(token := tok, scope := scope, ntype := ntype)];
    (t1, c.1)
  }

  /** The tree with node `id` replaced by `n`. */
  function Put(t: Tree, id: NodeId, n: Node): (r: Tree)
    requires Valid(t) && id < |t.nodes| && NodeOk(n, |t.nodes|, |t.scopes|, |t.vars|, |t.funs|)
    ensures Valid(r) && r.nodes == t.nodes[id := n]
    ensures r.scopes == t.scopes && r.vars == t.vars && r.funs == t.funs
    ensures r.root == t.root && r.freeList == t.freeList && r.globalScope == t.globalScope
  {
    SetNode(t, id, n)
  }

  /** A new node for token `tok` in the current scope, with the given
      type, operation and variable; nothing else changes. */
  function Fresh(toks: seq<Token>, st: PState, tok: nat, ntype: NodeType, exp: Ast.Expr, v: Option<VarId>): (r: PState)
    requires Inv(toks, st) && OptBelow(v, |st.tree.vars|)
    ensures Local(toks, st, r) && r.pos == st.pos && r.lastErrorLine == st.lastErrorLine
    ensures r.tree.vars == st.tree.vars && r.tree.scopes == st.tree.scopes
    ensures r.tree.nodes == st.tree.nodes + [ZeroNode.(token := tok, scope := st.scope, ntype := ntype, exp := exp, variable := v)]
    ensures Keeps(st.tree, r.tree, |st.tree.nodes|)
  {
    var c := Make(st.tree, st.scope, tok, ntype);
    var t1 := Put(c.0, c.1, c.0.nodes[c.1].(exp := exp, variable := v));
    assert t1.nodes == st.tree.nodes + [ZeroNode.(token := tok, scope := st.scope, ntype := ntype, exp := exp, variable := v)];
    st.(tree := t1)
  }

  /** Moves past the current token and creates a node for it. */
  function Open(toks: seq<Token>, st: PState, ntype: NodeType, exp: Ast.Expr): (r: PState)
    requires Inv(toks, st)
    ensures Local(toks, st, r) && r.lastErrorLine == st.lastErrorLine
    ensures r.tree.vars == st.tree.vars && r.tree.scopes == st.tree.scopes
    ensures toks[st.pos].kind != Eof ==> r.pos == st.pos + 1
    ensures r.tree.nodes == st.tree.nodes + [ZeroNode.(token := st.pos, scope := st.scope, ntype := ntype, exp := exp)]
    ensures Keeps(st.tree, r.tree, |st.tree.nodes|)
  {
    Fresh(toks, Next(toks, st), st.pos, ntype, exp, None)
  }

  /** `ast_node_add_child` on the parser's tree. */
  function Attach(toks: seq<Token>, st: PState, parent: NodeId, child: Option<NodeId>): (r: PState)
    requires Inv(toks, st) && parent < |st.tree.nodes| && OptBelow(child, |st.tree.nodes|)
    ensures Local(toks, st, r) && r.pos == st.pos && r.lastErrorLine == st.lastErrorLine
    ensures r.tree.vars == st.tree.vars && r.tree.scopes == st.tree.scopes
    ensures r.tree == AddChild(st.tree, parent, child)
    ensures child.None? ==> r == st
    ensures child.Some? && child.value != parent ==>
      && r.tree.nodes[parent] == st.tree.nodes[parent].(children := st.tree.nodes[parent].children + [child.value])
      && Keeps(st.tree, r.tree, if parent < child.value then parent else child.value)
  {
    st.(tree := AddChild(st.tree, parent, child))
  }

  /** The operand `child` added under `parent`; when there is none, an
      error at token `errTok` instead. */
  function Adopt(toks: seq<Token>, st: PState, parent: NodeId, child: Option<NodeId>, errTok: nat): (r: Parsed<()>)
    requires Inv(toks, st) && parent < |st.tree.nodes| && OptBelow(child, |st.tree.nodes|) && errTok < |toks|
    requires child.Some? ==> parent < child.value
    ensures r.Ok? ==> Local(toks, st, r.st) && r.st.pos == st.pos && r.st.tree.vars == st.tree.vars
    ensures r.Ok? ==> r.st.tree.nodes[parent] == st.tree.nodes[parent].(children :=
      st.tree.nodes[parent].children + (if child.Some? then [child.value] else []))
    ensures r.Ok? ==> Keeps(st.tree, r.st.tree, parent)
    ensures child.Some? ==> r.Ok? && r.st.lastErrorLine == st.lastErrorLine
    ensures child.None? ==> r == Error(toks, st, errTok)
  {
    if child.None? then Error(toks, st, errTok)
    else Ok(Attach(toks, st, parent, child), ())
  }

  /** The operands of a binary node `n`: `left`, then `right`, which must
      be there (an error at token `errTok` otherwise). */
  function Link(toks: seq<Token>, st: PState, n: NodeId, left: NodeId, right: Option<NodeId>, errTok: nat): (r: Parsed<()>)
    requires Inv(toks, st) && left < n < |st.tree.nodes| && OptBelow(right, |st.tree.nodes|) && errTok < |toks|
    requires right.Some? ==> n < right.value
    ensures r.Ok? ==> Local(toks, st, r.st) && r.st.pos == st.pos && r.st.tree.vars == st.tree.vars
    ensures r.Ok? ==> r.st.tree.nodes[n] == st.tree.nodes[n].(children :=
      st.tree.nodes[n].children + [left] + (if right.Some? then [right.value] else []))
    ensures r.Ok? ==> Keeps(st.tree, r.st.tree, left)
  {
    var s1 := Attach(toks, st, n, Some(left));
    var r2 := Adopt(toks, s1, n, right, errTok);
    if r2.Exit? then Exit
    else
      LocalTrans(toks, st, s1, r2.st);
      KeepsTrans(st.tree, s1.tree, r2.st.tree, left, n, left);
      r2
  }

  lemma KeepsTrans(a: Tree, b: Tree, c: Tree, x: nat, y: nat, base: nat)
    ensures Keeps(a, b, x) && Keeps(b, c, y) && base <= x && base <= y ==> Keeps(a, c, base)
  {
  }

  lemma StepTrans(toks: seq<Token>, a: PState, b: PState, c: PState)
    ensures Step(toks, a, b) && Step(toks, b, c) ==> Step(toks, a, c)
  {
  }

  /** A step stays a step when both ends are given another current scope
      that exists at the start. */
  lemma StepRescope(toks: seq<Token>, a: PState, b: PState, scope: ScopeId)
    requires Step(toks, a, b) && scope < |a.tree.scopes|
    ensures Step(toks, a.(scope := scope), b.(scope := scope))
  {
  }

  lemma LocalTrans(toks: seq<Token>, a: PState, b: PState, c: PState)
    ensures Local(toks, a, b) && Local(toks, b, c) ==> Local(toks, a, c)
  {
  }

  // ---------------------------------------------------------------------
  // Expressions

  /** The floor the outermost `parse_expr` call starts from. */
  const Floor: int := -999

  /** The binary operators of `parse_expr` and their priorities. */
  function BinaryOp(k: TokenKind): (r: Option<(ExprOp, int)>)
    ensures r.Some? ==> r.value.0 !in {ExUnknown, UAdd, USub, UPreInc, UPreDec, ULogicInv, UBinInv, UCast}
    ensures r.Some? ==> 10 <= r.value.1 <= 100
  {
    if k == Punct('*') then Some((BMul, 100))
    else if k == Punct('/') then Some((BDiv, 100))
    else if k == Punct('%') then Some((BMod, 100))
    else if k == Punct('+') then Some((BAdd, 90))
    else if k == Punct('-') then Some((BSub, 90))
    else if k == Op(ShiftL) then Some((BShiftL, 80))
    else if k == Op(ShiftR) then Some((BShiftR, 80))
    else if k == Punct('<') then Some((CLt, 70))
    else if k == Punct('>') then Some((CGt, 70))
    else if k == Op(LEq) then Some((CLtEq, 70))
    else if k == Op(GEq) then Some((CGtEq, 70))
    else if k == Op(DEq) then Some((CEq, 60))
    else if k == Op(NotEq) then Some((CNeq, 60))
    else if k == Punct('&') then Some((BAnd, 50))
    else if k == Punct('^') then Some((BXor, 40))
    else if k == Punct('|') then Some((BOr, 30))
    else if k == Op(And) then Some((CAnd, 20))
    else if k == Op(Or) then Some((COr, 10))
    else None
  }

  /** The priority levels of the binary operations, highest first:
      multiplicative, additive, shifts, orderings, equalities, then `&`,
      `^`, `|`, `&&` and `||`. */
  function Level(op: ExprOp): int
  {
    if op in {BMul, BDiv, BMod} then 100
    else if op in {BAdd, BSub} then 90
    else if op in {BShiftL, BShiftR} then 80
    else if op in {CLt, CGt, CLtEq, CGtEq} then 70
    else if op in {CEq, CNeq} then 60
    else if op == BAnd then 50
    else if op == BXor then 40
    else if op == BOr then 30
    else if op == CAnd then 20
    else if op == COr then 10
    else 0
  }

  /** The tokens `parse_expr` takes as binary operators, each with the
      priority of its operation's level; two different tokens never stand
      for the same operation. */
  lemma BinaryPriorities(k: TokenKind, k2: TokenKind)
    ensures BinaryOp(k).Some? <==> k in {Punct('*'), Punct('/'), Punct('%'), Punct('+'), Punct('-'),
      Op(ShiftL), Op(ShiftR), Punct('<'), Punct('>'), Op(LEq), Op(GEq), Op(DEq), Op(NotEq),
      Punct('&'), Punct('^'), Punct('|'), Op(And), Op(Or)}
    ensures BinaryOp(k).Some? ==> BinaryOp(k).value.1 == Level(BinaryOp(k).value.0)
    ensures BinaryOp(k).Some? && BinaryOp(k2).Some? && k != k2 ==> BinaryOp(k).value.0 != BinaryOp(k2).value.0
  {
  }

  /** The operators that create a one-child node over the following term. */
  function UnaryOp(k: TokenKind): (r: Option<ExprOp>)
    ensures r.Some? ==> r.value in {USub, UPreInc, UPreDec, ULogicInv, UBinInv}
  {
    if k == Punct('-') then Some(USub)
    else if k == Op(DPlus) then Some(UPreInc)
    else if k == Op(DMinus) then Some(UPreDec)
    else if k == Punct('!') then Some(ULogicInv)
    else if k == Punct('~') then Some(UBinInv)
    else None
  }

  /** The leading run of decimal digits. */
  function LeadingDigits(s: string): (r: string)
    ensures r <= s
    ensures forall i :: 0 <= i < |r| ==> IrString.IsNumber(r[i])
    ensures |r| < |s| ==> !IrString.IsNumber(s[|r|])
  {
    if |s| > 0 && IrString.IsNumber(s[0]) then [s[0]] + LeadingDigits(s[1..]) else []
  }

  lemma {:induction false} DigitsValueRange(s: string)
    requires forall i :: 0 <= i < |s| ==> IrString.IsNumber(s[i])
    ensures 0 <= IrString.DigitsValue(s)
    ensures |s| > 0 && s[0] != '0' ==> IrString.DigitsValue(s) >= IrString.Pow10(|s| - 1)
  {
    if |s| > 0 {
      DigitsValueRange(s[..|s| - 1]);
    }
  }

  /** `strtoll(text, &end, 10)` on a text that starts with its digits: the
      value of the leading digits, saturated at the largest 64-bit signed
      value; nothing when there is no leading digit. */
  function StrToLL(s: string): (r: Option<int>)
    ensures r.Some? <==> |s| > 0 && IrString.IsNumber(s[0])
    ensures r.Some? ==> 0 <= r.value <= IrMaths.S64_MAX
    ensures r.Some? && IrString.DigitsValue(LeadingDigits(s)) <= IrMaths.S64_MAX ==>
      r.value == IrString.DigitsValue(LeadingDigits(s))
  {
    var d := LeadingDigits(s);
    if |d| == 0 then None
    else
      DigitsValueRange(d);
      Some(if IrString.DigitsValue(d) > IrMaths.S64_MAX then IrMaths.S64_MAX else IrString.DigitsValue(d))
  }

  /** Whether `strtod` converts anything at the start of the text: a digit,
      or a point followed by one. */
  predicate StrToDConverts(s: string)
  {
    |s| > 0 && (IrString.IsNumber(s[0]) || (s[0] == '.' && |s| > 1 && IrString.IsNumber(s[1])))
  }

  /** The constant a number token denotes: a text with a point is a 64-bit
      float whose value is not tracked, any other an S64 integer. */
  function NumberConstant(text: string): (c: Constant)
    ensures '.' in text <==> c.ctype == F64
    ensures '.' !in text ==> c.ctype == S64 && c.value.Known?
  {
    if '.' in text then Constant(F64, Untracked)
    else
      var v := StrToLL(text);
      Constant(S64, Known(if v.Some? then v.value else 0))
  }

  /** `parse_term`. */
  function Term(toks: seq<Token>, st: PState): (r: Parsed<Option<NodeId>>)
    requires Inv(toks, st)
    ensures r.Ok? ==> Local(toks, st, r.st) && OptBelow(r.value, |r.st.tree.nodes|)
    ensures r.Ok? ==> r.st.tree.vars == st.tree.vars
    ensures r.Ok? && r.value.Some? ==> r.st.pos > st.pos && r.value.value >= |st.tree.nodes|
    ensures r.Ok? && r.value.Some? ==> r.st.tree.nodes[r.value.value].exp.op != UAdd
    ensures r.Ok? ==> Keeps(st.tree, r.st.tree, |st.tree.nodes|)
    decreases |toks| - st.pos, 1
  {
    var k := toks[st.pos].kind;
    if k == Punct('(') then TermParen(toks, st)
    else if k == Punct('+') then TermPlus(toks, st)
    else if UnaryOp(k).Some? then TermUnary(toks, st)
    else if k == Kw(Cast) then TermCast(toks, st)
    else if k == Num then TermNumber(toks, st)
    else if k == Id then TermVar(toks, st)
    else Ok(st, None)
  }

  /** A parenthesised subexpression; a missing ')' is reported twice, at
      the token found and at the '('. */
  function TermParen(toks: seq<Token>, st: PState): (r: Parsed<Option<NodeId>>)
    requires Inv(toks, st) && toks[st.pos].kind == Punct('(')
    ensures r.Ok? ==> Local(toks, st, r.st) && OptBelow(r.value, |r.st.tree.nodes|)
    ensures r.Ok? ==> r.st.tree.vars == st.tree.vars
    ensures r.Ok? ==> r.st.pos > st.pos
    ensures r.Ok? && r.value.Some? ==> r.value.value >= |st.tree.nodes|
    ensures r.Ok? && r.value.Some? ==> r.st.tree.nodes[r.value.value].exp.op != UAdd
    ensures r.Ok? ==> Keeps(st.tree, r.st.tree, |st.tree.nodes|)
    decreases |toks| - st.pos, 0
  {
    var r1 := Expression(toks, Next(toks, st), Floor);
    if r1.Exit? then Exit
    else
      var r2 := Expect(toks, r1.st, Punct(')'));
      if r2.Exit? then Exit
      else
        var r3 := ErrorIf(toks, r2.st, r2.value.None?, st.pos);
        if r3.Exit? then Exit else Ok(r3.st, r1.value)
  }

  /** Unary '+': the operand itself, with no node of its own. */
  function TermPlus(toks: seq<Token>, st: PState): (r: Parsed<Option<NodeId>>)
    requires Inv(toks, st) && toks[st.pos].kind == Punct('+')
    ensures r.Ok? ==> Local(toks, st, r.st) && OptBelow(r.value, |r.st.tree.nodes|)
    ensures r.Ok? ==> r.st.tree.vars == st.tree.vars
    ensures r.Ok? ==> r.st.pos > st.pos
    ensures r.Ok? && r.value.Some? ==> r.value.value >= |st.tree.nodes|
    ensures r.Ok? && r.value.Some? ==> r.st.tree.nodes[r.value.value].exp.op != UAdd
    ensures r.Ok? ==> Keeps(st.tree, r.st.tree, |st.tree.nodes|)
    decreases |toks| - st.pos, 0
  {
    var r1 := Term(toks, Next(toks, st));
    if r1.Exit? then Exit
    else
      var r2 := ErrorIf(toks, r1.st, r1.value.None?, st.pos);
      if r2.Exit? then Exit else Ok(r2.st, r1.value)
  }

  /** Unary '+' is its operand: when a term follows, the result is that
      term's node and state, with no node of its own; without one, the
      error is at the '+' token. */
  lemma PlusIsOperand(toks: seq<Token>, st: PState)
    requires Inv(toks, st) && toks[st.pos].kind == Punct('+')
    ensures var r := TermPlus(toks, st); var r1 := Term(toks, Next(toks, st));
      && (r1.Ok? && r1.value.Some? ==> r == r1)
      && (r1.Exit? ==> r.Exit?)
      && (r1.Ok? && r1.value.None? ==>
            (r.Exit? <==> r1.st.lastErrorLine == toks[st.pos].line)
            && (r.Ok? ==> r == Ok(r1.st.(lastErrorLine := toks[st.pos].line), None)))
  {
  }

  /** A parenthesised term is the inner expression: its node and tree,
      with the position just past the ')'. Without the ')' both errors are
      reported, first at the token found and then at the '(', and the
      inner expression is still the result. */
  lemma ParenIsInner(toks: seq<Token>, st: PState)
    requires Inv(toks, st) && toks[st.pos].kind == Punct('(')
    ensures var r := TermParen(toks, st); var r1 := Expression(toks, Next(toks, st), Floor);
      && (r1.Exit? ==> r.Exit?)
      && (r1.Ok? && toks[r1.st.pos].kind == Punct(')') ==> r == Ok(Next(toks, r1.st), r1.value))
      && (r1.Ok? && toks[r1.st.pos].kind != Punct(')') ==>
            (r.Ok? <==> r1.st.lastErrorLine != toks[r1.st.pos].line && toks[r1.st.pos].line != toks[st.pos].line)
            && (r.Ok? ==> r == Ok(r1.st.(lastErrorLine := toks[st.pos].line), r1.value)))
  {
  }

  /** '-', '++', '--', '!' and '~': a node over the following term,
      created before the term is parsed. */
  function TermUnary(toks: seq<Token>, st: PState): (r: Parsed<Option<NodeId>>)
    requires Inv(toks, st) && UnaryOp(toks[st.pos].kind).Some?
    ensures r.Ok? ==> Local(toks, st, r.st) && r.st.tree.vars == st.tree.vars
    ensures r.Ok? ==> r.st.pos > st.pos && r.value == Some(|st.tree.nodes|) && |r.st.tree.nodes| > |st.tree.nodes|
    ensures r.Ok? ==> var n := r.st.tree.nodes[|st.tree.nodes|];
      && n.ntype == NExpr && n.exp.op == UnaryOp(toks[st.pos].kind).value
      && |n.children| <= 1
    ensures r.Ok? ==> Keeps(st.tree, r.st.tree, |st.tree.nodes|)
    decreases |toks| - st.pos, 0
  {
    var n := |st.tree.nodes|;
    var s2 := Open(toks, st, NExpr, Ast.Expr(UnaryOp(toks[st.pos].kind).value, DataType.Unknown));
    var r1 := Term(toks, s2);
    if r1.Exit? then Exit
    else
      var r2 := Adopt(toks, r1.st, n, r1.value, st.pos);
      if r2.Exit? then Exit
      else
        LocalTrans(toks, st, s2, r1.st);
        LocalTrans(toks, st, r1.st, r2.st);
        KeepsTrans(st.tree, s2.tree, r1.st.tree, n, n + 1, n);
        Ok(r2.st, Some(n))
  }

  /** The head of a cast, `cast(T)`: a cast node whose result type is the
      data type of the type token (unknown when that token is missing). `parse_term`
      creates the node just before reading the type token; reading a
      token leaves the tree alone, so creating it just after gives the same
      tree. */
  function CastHead(toks: seq<Token>, st: PState): (r: Parsed<()>)
    requires Inv(toks, st) && toks[st.pos].kind == Kw(Cast)
    ensures r.Ok? ==> Local(toks, st, r.st) && r.st.tree.vars == st.tree.vars
    ensures r.Ok? ==> r.st.pos > st.pos && |r.st.tree.nodes| == |st.tree.nodes| + 1
    ensures r.Ok? ==> var n := r.st.tree.nodes[|st.tree.nodes|];
      n.ntype == NExpr && n.exp.op == UCast && n.children == [] && n.token == st.pos
    ensures r.Ok? ==> Keeps(st.tree, r.st.tree, |st.tree.nodes|)
  {
    var r1 := Expect(toks, Next(toks, st), Punct('('));
    if r1.Exit? then Exit
    else
      var r2 := Expect(toks, r1.st, BasicType);
      if r2.Exit? then Exit
      else
        var s2 := Fresh(toks, r2.st, st.pos, NExpr, Ast.Expr(UCast, TokenDataType(toks, r2.value)), None);
        var r3 := Expect(toks, s2, Punct(')'));
        if r3.Exit? then Exit else Ok(r3.st, ())
  }

  /** `cast(T) term`: a cast node over the following term. */
  function TermCast(toks: seq<Token>, st: PState): (r: Parsed<Option<NodeId>>)
    requires Inv(toks, st) && toks[st.pos].kind == Kw(Cast)
    ensures r.Ok? ==> Local(toks, st, r.st) && r.st.tree.vars == st.tree.vars
    ensures r.Ok? ==> r.st.pos > st.pos && r.value == Some(|st.tree.nodes|) && |r.st.tree.nodes| > |st.tree.nodes|
    ensures r.Ok? ==> var n := r.st.tree.nodes[|st.tree.nodes|];
      n.ntype == NExpr && n.exp.op == UCast && |n.children| <= 1
    ensures r.Ok? ==> Keeps(st.tree, r.st.tree, |st.tree.nodes|)
    decreases |toks| - st.pos, 0
  {
    var n := |st.tree.nodes|;
    var r1 := CastHead(toks, st);
    if r1.Exit? then Exit
    else
      var r2 := Term(toks, r1.st);
      if r2.Exit? then Exit
      else
        var r3 := Adopt(toks, r2.st, n, r2.value, st.pos);
        if r3.Exit? then Exit
        else
          LocalTrans(toks, st, r1.st, r2.st);
          LocalTrans(toks, st, r2.st, r3.st);
          KeepsTrans(st.tree, r1.st.tree, r2.st.tree, n, n + 1, n);
          Ok(r3.st, Some(n))
  }

  /** A number literal: an F64 constant when its text holds a point, an
      S64 constant otherwise; an error when the conversion reads nothing. */
  function TermNumber(toks: seq<Token>, st: PState): (r: Parsed<Option<NodeId>>)
    requires Inv(toks, st) && toks[st.pos].kind == Num
    ensures r.Ok? ==> Local(toks, st, r.st) && r.st.tree.vars == st.tree.vars
    ensures r.Ok? ==> r.st.pos == st.pos + 1 && r.value == Some(|st.tree.nodes|) && |r.st.tree.nodes| > |st.tree.nodes|
    ensures r.Ok? ==> var n := r.st.tree.nodes[|st.tree.nodes|];
      && n.ntype == NConstant && n.con == NumberConstant(toks[st.pos].text) && n.token == st.pos
    ensures var text := toks[st.pos].text;
      var converts := if '.' in text then StrToDConverts(text) else StrToLL(text).Some?;
      converts ==> r.Ok? && r.st.lastErrorLine == st.lastErrorLine
    ensures r.Ok? ==> Keeps(st.tree, r.st.tree, |st.tree.nodes|)
    decreases |toks| - st.pos, 0
  {
    var text := toks[st.pos].text;
    var s1 := Fresh(toks, st, st.pos, NConstant, ZeroNode.exp, None);
    var n := |st.tree.nodes|;
    var t1 := Put(s1.tree, n, s1.tree.nodes[n].(con := NumberConstant(text)));
    var s2 := Next(toks, s1.(tree := t1));
    var converts := if '.' in text then StrToDConverts(text) else StrToLL(text).Some?;
    var r1 := ErrorIf(toks, s2, !converts, st.pos);
    if r1.Exit? then Exit else Ok(r1.st, Some(n))
  }

  /** An identifier: a variable node bound to what the scope search finds
      from the current scope; an error when it finds nothing. */
  function TermVar(toks: seq<Token>, st: PState): (r: Parsed<Option<NodeId>>)
    requires Inv(toks, st) && toks[st.pos].kind == Id
    ensures r.Ok? ==> Local(toks, st, r.st) && r.st.tree.vars == st.tree.vars
    ensures r.Ok? ==> r.st.pos == st.pos + 1 && r.value == Some(|st.tree.nodes|) && |r.st.tree.nodes| > |st.tree.nodes|
    ensures r.Ok? ==> var n := r.st.tree.nodes[|st.tree.nodes|];
      && n.ntype == NVar && n.token == st.pos
      && n.variable == SearchVar(st.tree, toks[st.pos].text, Some(st.scope))
    ensures SearchVar(st.tree, toks[st.pos].text, Some(st.scope)).None? ==>
      r.Exit? || r.st.lastErrorLine == toks[st.pos].line
    ensures r.Ok? ==> Keeps(st.tree, r.st.tree, |st.tree.nodes|)
    decreases |toks| - st.pos, 0
  {
    var v := SearchVar(st.tree, toks[st.pos].text, Some(st.scope));
    SearchVarInScope(st.tree, toks[st.pos].text, Some(st.scope));
    var s1 := Fresh(toks, Next(toks, st), st.pos, NVar, ZeroNode.exp, v);
    var r1 := ErrorIf(toks, s1, v.None?, st.pos);
    if r1.Exit? then Exit else Ok(r1.st, Some(|st.tree.nodes|))
  }

  /** The loop of `parse_expr` with floor `floor` ends at the token at
      `pos`: it is no binary operator, or one whose priority is not above
      the floor. */
  predicate Stops(toks: seq<Token>, pos: nat, floor: int)
  {
    pos < |toks| && (BinaryOp(toks[pos].kind).None? || BinaryOp(toks[pos].kind).value.1 <= floor)
  }

  /** `parse_expr`: a term, then every following operator whose priority
      is above `floor`, each with a right operand parsed above its own
      priority. */
  function Expression(toks: seq<Token>, st: PState, floor: int): (r: Parsed<Option<NodeId>>)
    requires Inv(toks, st)
    ensures r.Ok? ==> Local(toks, st, r.st) && OptBelow(r.value, |r.st.tree.nodes|)
    ensures r.Ok? ==> r.st.tree.vars == st.tree.vars
    ensures r.Ok? && r.value.Some? ==> r.st.pos > st.pos && r.value.value >= |st.tree.nodes|
    ensures r.Ok? && r.value.Some? ==> r.st.tree.nodes[r.value.value].exp.op != UAdd
    ensures r.Ok? ==> Keeps(st.tree, r.st.tree, |st.tree.nodes|)
    ensures r.Ok? && r.value.Some? ==> Stops(toks, r.st.pos, floor)
    decreases |toks| - st.pos, 3
  {
    var r1 := Term(toks, st);
    if r1.Exit? then Exit
    else if r1.value.None? then r1
    else ExprLoop(toks, r1.st, r1.value.value, floor, |st.tree.nodes|)
  }

  /** One round of the loop of `parse_expr`: a node for the binary
      operator at the current token, over `left` and the right operand
      parsed above the operator's priority; an error when there is none. */
  function BinaryStep(toks: seq<Token>, st: PState, left: NodeId): (r: Parsed<NodeId>)
    requires Inv(toks, st) && left < |st.tree.nodes| && BinaryOp(toks[st.pos].kind).Some?
    ensures r.Ok? ==> Local(toks, st, r.st) && r.st.tree.vars == st.tree.vars
    ensures r.Ok? ==> r.st.pos > st.pos && r.value == |st.tree.nodes| && |r.st.tree.nodes| > r.value
    ensures r.Ok? ==> var n := r.st.tree.nodes[|st.tree.nodes|];
      && n.ntype == NExpr && n.exp.op == BinaryOp(toks[st.pos].kind).value.0
      && 1 <= |n.children| <= 2 && n.children[0] == left
    ensures r.Ok? ==> Keeps(st.tree, r.st.tree, left)
    ensures r.Ok? && |r.st.tree.nodes[|st.tree.nodes|].children| == 2 ==>
      Stops(toks, r.st.pos, BinaryOp(toks[st.pos].kind).value.1)
    decreases |toks| - st.pos, 1
  {
    var b := BinaryOp(toks[st.pos].kind).value;
    var n := |st.tree.nodes|;
    var s1 := Open(toks, st, NExpr, Ast.Expr(b.0, DataType.Unknown));
    var r1 := Expression(toks, s1, b.1);
    if r1.Exit? then Exit
    else
      var r2 := Link(toks, r1.st, n, left, r1.value, st.pos);
      if r2.Exit? then Exit
      else
        LocalTrans(toks, st, s1, r1.st);
        LocalTrans(toks, st, r1.st, r2.st);
        KeepsTrans(st.tree, s1.tree, r1.st.tree, n, n + 1, n);
        KeepsTrans(st.tree, r1.st.tree, r2.st.tree, n, left, left);
        Ok(r2.st, n)
  }

  /** The loop of `parse_expr` with `left` as the expression so far; `base`
      is the node count when the expression started. */
  function ExprLoop(toks: seq<Token>, st: PState, left: NodeId, floor: int, base: nat): (r: Parsed<Option<NodeId>>)
    requires Inv(toks, st) && base <= left < |st.tree.nodes|
    requires st.tree.nodes[left].exp.op != UAdd
    ensures r.Ok? ==> Local(toks, st, r.st) && OptBelow(r.value, |r.st.tree.nodes|)
    ensures r.Ok? ==> r.st.tree.vars == st.tree.vars
    ensures r.Ok? ==> r.value.Some? && r.value.value >= base
    ensures r.Ok? ==> r.st.tree.nodes[r.value.value].exp.op != UAdd
    ensures r.Ok? ==> Keeps(st.tree, r.st.tree, base)
    ensures r.Ok? ==> Stops(toks, r.st.pos, floor)
    ensures Stops(toks, st.pos, floor) ==> r == Ok(st, Some(left))
    ensures r.Ok? && !Stops(toks, st.pos, floor) ==> r.value.value >= |st.tree.nodes|
    decreases |toks| - st.pos, 2
  {
    var b := BinaryOp(toks[st.pos].kind);
    if b.None? || b.value.1 <= floor then Ok(st, Some(left))
    else
      var r1 := BinaryStep(toks, st, left);
      if r1.Exit? then Exit
      else
        var r2 := ExprLoop(toks, r1.st, r1.value, floor, base);
        if r2.Exit? then Exit
        else
          LocalTrans(toks, st, r1.st, r2.st);
          KeepsTrans(st.tree, r1.st.tree, r2.st.tree, base, base, base);
          r2
  }

  /** The scope search only yields variables that exist. */
  lemma SearchVarInScope(t: Tree, name: string, scope: Option<ScopeId>)
    requires Valid(t) && OptBelow(scope, |t.scopes|)
    ensures OptBelow(SearchVar(t, name, scope), |t.vars|)
    decreases if scope.Some? then scope.value + 1 else 0
  {
    if scope.Some? {
      SearchVarInScope(t, name, t.scopes[scope.value].parent);
    }
  }

  // ---------------------------------------------------------------------
  // Statements

  /** `peek_pattern`: the tokens from the current one on have the given
      kinds (reading past the end gives the last token). */
  predicate PeekPattern(toks: seq<Token>, st: PState, kinds: seq<TokenKind>)
    requires WellTokens(toks)
  {
    forall i :: 0 <= i < |kinds| ==> toks[PeekIndex(toks, st, i)].kind == kinds[i]
  }

  /** The tokens from position `pos` on have the given kinds. */
  predicate StartsWith(toks: seq<Token>, pos: nat, kinds: seq<TokenKind>)
  {
    pos + |kinds| <= |toks| && forall i :: 0 <= i < |kinds| ==> toks[pos + i].kind == kinds[i]
  }

  /** For a pattern without the end of file, `peek_pattern` sees exactly
      the tokens at and after the current position. */
  lemma PeekPatternStarts(toks: seq<Token>, st: PState, kinds: seq<TokenKind>)
    requires Inv(toks, st) && Eof !in kinds
    ensures PeekPattern(toks, st, kinds) <==> StartsWith(toks, st.pos, kinds)
  {
    if PeekPattern(toks, st, kinds) && |kinds| > 0 {
      var i := |kinds| - 1;
      assert toks[PeekIndex(toks, st, i)].kind == kinds[i];
      assert kinds[i] in kinds;
    }
    if StartsWith(toks, st.pos, kinds) {
      forall i | 0 <= i < |kinds|
        ensures toks[PeekIndex(toks, st, i)].kind == kinds[i]
      {
        assert toks[st.pos + i].kind == kinds[i];
      }
    }
  }

  function OptSeq(o: Option<NodeId>): (r: seq<NodeId>)
    ensures o.None? ==> r == []
    ensures o.Some? ==> r == [o.value]
  {
    if o.Some? then [o.value] else []
  }

  /** What every statement-level parsing function guarantees: the nodes
      that existed are untouched, and a result is a new node after which
      the position has advanced. */
  predicate Parses(toks: seq<Token>, st: PState, r: Parsed<Option<NodeId>>)
  {
    r.Ok? ==>
      && Local(toks, st, r.st) && Keeps(st.tree, r.st.tree, |st.tree.nodes|)
      && OptBelow(r.value, |r.st.tree.nodes|)
      && (r.value.Some? ==> r.value.value >= |st.tree.nodes| && r.st.pos > st.pos)
  }

  /** `parser_create_scope_and_descend`: a new scope under the current one
      becomes current. */
  function Descend(toks: seq<Token>, st: PState): (r: PState)
    requires Inv(toks, st)
    ensures Inv(toks, r) && r.pos == st.pos && r.lastErrorLine == st.lastErrorLine
    ensures r.scope == |st.tree.scopes| && r.tree.scopes == st.tree.scopes + [Scope(Some(st.scope), [])]
    ensures r.tree == st.tree.(scopes := r.tree.scopes)
  {
    var c := CreateScope(st.tree, Some(st.scope));
    st.(tree := c.0, scope := c.1)
  }

  /** `parser_ascend_scope`: the parent of the current scope becomes
      current; `parser_ascend_scope` asserts that there is one. */
  function Ascend(toks: seq<Token>, st: PState): (r: PState)
    requires Inv(toks, st) && st.tree.scopes[st.scope].parent.Some?
    ensures Inv(toks, r) && r == st.(scope := st.tree.scopes[st.scope].parent.value)
  {
    st.(scope := st.tree.scopes[st.scope].parent.value)
  }

  /** `ast_create_var` in the current scope, with its type and name filled
      in. */
  function Declare(toks: seq<Token>, st: PState, tok: nat, vtype: DataType, name: string): (r: (PState, VarId))
    requires Inv(toks, st)
    ensures Local(toks, st, r.0) && r.0.pos == st.pos && r.0.lastErrorLine == st.lastErrorLine
    ensures r.1 == |st.tree.vars| && r.0.tree.vars == st.tree.vars + [Variable(tok, vtype, name, st.scope)]
    ensures r.0.tree.nodes == st.tree.nodes && |r.0.tree.scopes| == |st.tree.scopes|
    ensures r.0.tree.scopes[st.scope].variables == st.tree.scopes[st.scope].variables + [r.1]
  {
    var c := CreateVar(st.tree, st.scope, tok);
    var t := SetVariable(c.0, c.1, Variable(tok, vtype, name, st.scope));
    (st.(tree := t), c.1)
  }

  /** A new node with the single child `a`. */
  function Wrap(toks: seq<Token>, st: PState, tok: nat, ntype: NodeType, exp: Ast.Expr, a: NodeId): (r: PState)
    requires Inv(toks, st) && a < |st.tree.nodes|
    ensures Local(toks, st, r) && r.pos == st.pos && r.lastErrorLine == st.lastErrorLine
    ensures r.tree.vars == st.tree.vars && r.tree.scopes == st.tree.scopes
    ensures |r.tree.nodes| == |st.tree.nodes| + 1
    ensures r.tree.nodes[|st.tree.nodes|] ==
      ZeroNode.(token := tok, scope := st.scope, ntype := ntype, exp := exp, children := [a])
    ensures r.tree.nodes[a] == st.tree.nodes[a].(parent := Some(|st.tree.nodes|))
    ensures forall k :: 0 <= k < |st.tree.nodes| && k != a ==> r.tree.nodes[k] == st.tree.nodes[k]
  {
    var n := |st.tree.nodes|;
    var s1 := Fresh(toks, st, tok, ntype, exp, None);
    var s2 := Attach(toks, s1, n, Some(a));
    LocalTrans(toks, st, s1, s2);
    s2
  }

  /** A new node with children `a` and then `b` (when there is one). */
  function Join(toks: seq<Token>, st: PState, tok: nat, ntype: NodeType, exp: Ast.Expr, a: NodeId, b: Option<NodeId>): (r: PState)
    requires Inv(toks, st) && a < |st.tree.nodes| && OptBelow(b, |st.tree.nodes|)
    requires b.Some? ==> b.value != a
    ensures Local(toks, st, r) && r.pos == st.pos && r.lastErrorLine == st.lastErrorLine
    ensures r.tree.vars == st.tree.vars && r.tree.scopes == st.tree.scopes
    ensures |r.tree.nodes| == |st.tree.nodes| + 1
    ensures r.tree.nodes[|st.tree.nodes|] ==
      ZeroNode.(token := tok, scope := st.scope, ntype := ntype, exp := exp, children := [a] + OptSeq(b))
    ensures r.tree.nodes[a] == st.tree.nodes[a].(parent := Some(|st.tree.nodes|))
    ensures b.Some? ==> r.tree.nodes[b.value] == st.tree.nodes[b.value].(parent := Some(|st.tree.nodes|))
    ensures forall k :: 0 <= k < |st.tree.nodes| && k != a && (b.None? || k != b.value) ==> r.tree.nodes[k] == st.tree.nodes[k]
  {
    var s1 := Wrap(toks, st, tok, ntype, exp, a);
    var s2 := Attach(toks, s1, |st.tree.nodes|, b);
    LocalTrans(toks, st, s1, s2);
    JoinShape(st.tree.nodes, s1.tree.nodes, s2.tree.nodes, a, b);
    s2
  }

  /** The nodes after `Wrap` over `a` and then adding `b` under the new
      node. */
  lemma JoinShape(n0: seq<Node>, n1: seq<Node>, n2: seq<Node>, a: NodeId, b: Option<NodeId>)
    requires a < |n0| && OptBelow(b, |n0|) && (b.Some? ==> b.value != a)
    requires |n1| == |n0| + 1 && n1[a] == n0[a].(parent := Some(|n0|))
    requires forall k :: 0 <= k < |n0| && k != a ==> n1[k] == n0[k]
    requires b.None? ==> n2 == n1
    requires b.Some? ==>
      && |n2| == |n1|
      && n2[|n0|] == n1[|n0|].(children := n1[|n0|].children + [b.value])
      && n2[b.value] == n1[b.value].(parent := Some(|n0|))
      && forall k :: 0 <= k < |n1| && k != |n0| && k != b.value ==> n2[k] == n1[k]
    ensures |n2| == |n0| + 1
    ensures n2[|n0|] == n1[|n0|].(children := n1[|n0|].children + OptSeq(b))
    ensures n2[a] == n0[a].(parent := Some(|n0|))
    ensures b.Some? ==> n2[b.value] == n0[b.value].(parent := Some(|n0|))
    ensures forall k :: 0 <= k < |n0| && k != a && (b.None? || k != b.value) ==> n2[k] == n0[k]
  {
  }

  /** `parse_return`: `return e;`, where the expression may be missing. */
  function ReturnStatement(toks: seq<Token>, st: PState): (r: Parsed<Option<NodeId>>)
    requires Inv(toks, st)
    ensures Parses(toks, st, r)
    ensures toks[st.pos].kind != Kw(Return) ==> r == Ok(st, None)
    ensures toks[st.pos].kind == Kw(Return) && r.Ok? ==>
      && r.value == Some(|st.tree.nodes|)
      && var n := r.st.tree.nodes[|st.tree.nodes|];
      n.ntype == NReturn && n.token == st.pos && |n.children| <= 1
  {
    var a := Accept(toks, st, Kw(Return));
    if a.1.None? then Ok(st, None)
    else
      var n := |st.tree.nodes|;
      var s1 := Fresh(toks, a.0, st.pos, NReturn, ZeroNode.exp, None);
      var r1 := Expression(toks, s1, Floor);
      if r1.Exit? then Exit
      else
        var s2 := Attach(toks, r1.st, n, r1.value);
        var r2 := Expect(toks, s2, Punct(';'));
        if r2.Exit? then Exit
        else
          LocalTrans(toks, st, s1, r1.st);
          LocalTrans(toks, st, r1.st, r2.st);
          KeepsTrans(st.tree, s1.tree, r1.st.tree, n, n + 1, n);
          Ok(r2.st, Some(n))
  }

  /** Every node from index `from` on refers to no variable or to one
      below `bound`. */
  predicate VarsBelow(t: Tree, from: nat, bound: nat)
  {
    forall k :: from <= k < |t.nodes| ==> OptBelow(t.nodes[k].variable, bound)
  }

  /** `parse_var_decl`: `T x;` or `T x = e;`. The variable is created only
      after the initializer has been parsed, so no node of the initializer
      refers to it; with an initializer the result is an assignment node
      over the declaration node. */
  function VarDeclaration(toks: seq<Token>, st: PState): (r: Parsed<Option<NodeId>>)
    requires Inv(toks, st)
    ensures Parses(toks, st, r)
    ensures !StartsWith(toks, st.pos, [BasicType, Id]) ==> r == Ok(st, None)
    ensures StartsWith(toks, st.pos, [BasicType, Id]) && r.Ok? ==>
      && r.st.pos >= st.pos + 2 && r.value.Some?
      && var nodes := r.st.tree.nodes;
      var d := |st.tree.nodes|;
      && d < |nodes| && nodes[d].ntype == NVarDecl && nodes[d].token == st.pos + 1
      && nodes[d].variable == Some(|st.tree.vars|)
      && |r.st.tree.vars| == |st.tree.vars| + 1
      && r.st.tree.vars[|st.tree.vars|].vtype == toks[st.pos].dataType
      && r.st.tree.vars[|st.tree.vars|].name == toks[st.pos + 1].text
      && r.st.tree.vars[|st.tree.vars|].scope == st.scope
      && (r.value.value == d ||
          (nodes[r.value.value].ntype == NAssign && |nodes[r.value.value].children| >= 1 &&
           nodes[r.value.value].children[0] == d))
      && VarsBelow(r.st.tree, d + 1, |st.tree.vars|)
  {
    PeekPatternStarts(toks, st, [BasicType, Id]);
    if !PeekPattern(toks, st, [BasicType, Id]) then Ok(st, None)
    else
      assert toks[st.pos + 0].kind == [BasicType, Id][0] && toks[st.pos + 1].kind == [BasicType, Id][1];
      // both `expect`s match
      var s0 := Next(toks, Next(toks, st));
      var d := |st.tree.nodes|;
      var s1 := Fresh(toks, s0, st.pos + 1, NVarDecl, ZeroNode.exp, None);
      var r1 := VarInit(toks, s1, d);
      if r1.Exit? then Exit
      else
        var s2 := Bind(toks, r1.st, d, PeekIndex(toks, r1.st, 1), toks[st.pos].dataType, toks[st.pos + 1].text);
        LocalTrans(toks, st, s1, r1.st);
        LocalTrans(toks, st, r1.st, s2);
        KeepsTrans(st.tree, s1.tree, r1.st.tree, d, d, d);
        Ok(s2, Some(r1.value))
  }

  /** The declared variable, created in the current scope, becomes the
      variable of declaration node `d`. */
  function Bind(toks: seq<Token>, st: PState, d: NodeId, tok: nat, vtype: DataType, name: string): (r: PState)
    requires Inv(toks, st) && d < |st.tree.nodes|
    ensures Local(toks, st, r) && r.pos == st.pos && r.lastErrorLine == st.lastErrorLine
    ensures r.tree.vars == st.tree.vars + [Variable(tok, vtype, name, st.scope)]
    ensures r.tree.nodes == st.tree.nodes[d := st.tree.nodes[d].(variable := Some(|st.tree.vars|))]
    ensures VarsBelow(r.tree, d + 1, |st.tree.vars|)
  {
    var b := Declare(toks, st, tok, vtype, name);
    var t := Put(b.0.tree, d, b.0.tree.nodes[d].(variable := Some(b.1)));
    b.0.(tree := t)
  }

  /** What follows the name in a declaration whose node is `d`: `= e ;`
      makes an assignment node over `d` and `e` (an error at the `=`
      instead when `e` is missing); otherwise a `;` is required. */
  function VarInit(toks: seq<Token>, st: PState, d: NodeId): (r: Parsed<NodeId>)
    requires Inv(toks, st) && d + 1 == |st.tree.nodes|
    ensures r.Ok? ==> Local(toks, st, r.st) && r.st.tree.vars == st.tree.vars && r.st.pos >= st.pos
    ensures r.Ok? ==> Keeps(st.tree, r.st.tree, d)
    ensures r.Ok? ==> r.st.tree.nodes[d] == st.tree.nodes[d].(parent := r.st.tree.nodes[d].parent)
    ensures r.Ok? ==> r.value < |r.st.tree.nodes|
    ensures r.Ok? && r.value != d ==>
      && r.value > d && r.st.tree.nodes[r.value].ntype == NAssign
      && r.st.tree.nodes[r.value].token == st.tree.nodes[d].token
      && |r.st.tree.nodes[r.value].children| >= 1 && r.st.tree.nodes[r.value].children[0] == d
  {
    var a := Accept(toks, st, Punct('='));
    if a.1.Some? then
      var r1 := Expression(toks, a.0, Floor);
      if r1.Exit? then Exit
      else if r1.value.None? then
        var e := Error(toks, r1.st, PeekIndex(toks, r1.st, -1));
        if e.Exit? then Exit
        else
          var x := Expect(toks, e.st, Punct(';'));
          if x.Exit? then Exit
          else
            LocalTrans(toks, st, a.0, x.st);
            Ok(x.st, d)
      else
        var s2 := Join(toks, r1.st, r1.st.tree.nodes[d].token, NAssign, ZeroNode.exp, d, r1.value);
        var x := Expect(toks, s2, Punct(';'));
        if x.Exit? then Exit
        else
          LocalTrans(toks, st, a.0, r1.st);
          LocalTrans(toks, st, r1.st, x.st);
          Ok(x.st, |r1.st.tree.nodes|)
    else
      var b := Accept(toks, st, Punct(';'));
      if b.1.Some? then Ok(b.0, d)
      else
        var e := Error(toks, st, st.pos);
        if e.Exit? then Exit else Ok(e.st, d)
  }

  /** The assignment operators of `parse_assign`: `=` carries no operator,
      each `op=` its binary operator; any other token makes no
      assignment. */
  function AssignOp(k: TokenKind): (r: Option<Option<ExprOp>>)
  {
    if k == Punct('=') then Some(None)
    else if k == Op(PlusEq) then Some(Some(BAdd))
    else if k == Op(MinusEq) then Some(Some(BSub))
    else if k == Op(MulEq) then Some(Some(BMul))
    else if k == Op(DivEq) then Some(Some(BDiv))
    else if k == Op(ModEq) then Some(Some(BMod))
    else if k == Op(ShiftLEq) then Some(Some(BShiftL))
    else if k == Op(ShiftREq) then Some(Some(BShiftR))
    else if k == Op(AndEq) then Some(Some(BAnd))
    else if k == Op(XorEq) then Some(Some(BXor))
    else if k == Op(OrEq) then Some(Some(BOr))
    else None
  }

  /** The operator token each compound assignment stands for. */
  function CompoundBase(c: Compound): Option<TokenKind>
  {
    match c
    case PlusEq => Some(Punct('+'))
    case MinusEq => Some(Punct('-'))
    case MulEq => Some(Punct('*'))
    case DivEq => Some(Punct('/'))
    case ModEq => Some(Punct('%'))
    case ShiftLEq => Some(Op(ShiftL))
    case ShiftREq => Some(Op(ShiftR))
    case AndEq => Some(Punct('&'))
    case XorEq => Some(Punct('^'))
    case OrEq => Some(Punct('|'))
    case _ => None
  }

  /** `x op= e` computes what the binary expression `x op e` computes: the
      operator of each compound assignment is the one its base token has in
      expressions, and only `=` and the ten `op=` tokens assign. */
  lemma AssignOpMatchesBinary(k: TokenKind)
    ensures AssignOp(k).Some? <==> k == Punct('=') || (k.Op? && CompoundBase(k.op).Some?)
    ensures k.Op? && CompoundBase(k.op).Some? ==>
      && BinaryOp(CompoundBase(k.op).value).Some?
      && AssignOp(k) == Some(Some(BinaryOp(CompoundBase(k.op).value).value.0))
  {
  }

  /** The shape of an assignment node `a` over the target node `v1`, a
      variable node at the identifier token: for `x = e` the target is its
      first child; for `x op= e` its children are a second variable node
      for the same variable and an `op` node whose first child is the
      target. */
  predicate AssignShape(t: Tree, a: NodeId, v1: NodeId, op: Option<ExprOp>, idTok: nat, assignTok: nat)
  {
    match op
    case None =>
      && AssignNodes(t, a, v1, idTok, assignTok)
      && t.nodes[a].children[0] == v1
    case Some(o) =>
      && AssignNodes(t, a, v1, idTok, assignTok)
      && |t.nodes[a].children| == 2
      && var v2 := t.nodes[a].children[0];
      var x := t.nodes[a].children[1];
      && v2 != v1 && v2 < |t.nodes| && x < |t.nodes|
      && t.nodes[v2].ntype == NVar && t.nodes[v2].variable == t.nodes[v1].variable
      && t.nodes[v2].token == idTok
      && t.nodes[x].ntype == NExpr && t.nodes[x].exp.op == o
      && |t.nodes[x].children| >= 1 && t.nodes[x].children[0] == v1
  }

  /** The target node and the assignment node of `AssignShape`. */
  predicate AssignNodes(t: Tree, a: NodeId, v1: NodeId, idTok: nat, assignTok: nat)
  {
    && a < |t.nodes| && v1 < |t.nodes|
    && t.nodes[v1].ntype == NVar && t.nodes[v1].token == idTok
    && t.nodes[a].ntype == NAssign && t.nodes[a].token == assignTok
    && |t.nodes[a].children| >= 1
  }

  /** Where the assignment node ends up: after the target for `x = e`,
      two nodes further for `x op= e`. */
  function TailNode(op: Option<ExprOp>, n: nat): (r: nat)
    ensures n <= r <= n + 2
  {
    if op.None? then n else n + 2
  }

  /** The nodes of an assignment once its target `v1` and value `e` have
      been parsed. */
  function AssignTail(toks: seq<Token>, st: PState, op: Option<ExprOp>, v1: NodeId,
                      e: Option<NodeId>, idTok: nat, assignTok: nat): (r: PState)
    requires Inv(toks, st) && v1 < |st.tree.nodes| && OptBelow(e, |st.tree.nodes|)
    requires e.Some? ==> e.value > v1
    requires st.tree.nodes[v1].ntype == NVar && st.tree.nodes[v1].token == idTok
    ensures Local(toks, st, r) && r.tree.vars == st.tree.vars && r.pos == st.pos
    ensures r.lastErrorLine == st.lastErrorLine
    ensures Keeps(st.tree, r.tree, v1)
    ensures r.tree.nodes[v1].variable == st.tree.nodes[v1].variable
    ensures TailNode(op, |st.tree.nodes|) < |r.tree.nodes|
    ensures AssignShape(r.tree, TailNode(op, |st.tree.nodes|), v1, op, idTok, assignTok)
  {
    if op.None? then Join(toks, st, assignTok, NAssign, ZeroNode.exp, v1, e)
    else CompoundTail(toks, st, op.value, v1, e, idTok, assignTok)
  }

  function CompoundTail(toks: seq<Token>, st: PState, op: ExprOp, v1: NodeId,
                        e: Option<NodeId>, idTok: nat, assignTok: nat): (r: PState)
    requires Inv(toks, st) && v1 < |st.tree.nodes| && OptBelow(e, |st.tree.nodes|)
    requires e.Some? ==> e.value > v1
    requires st.tree.nodes[v1].ntype == NVar && st.tree.nodes[v1].token == idTok
    ensures Local(toks, st, r) && r.tree.vars == st.tree.vars && r.pos == st.pos
    ensures r.lastErrorLine == st.lastErrorLine
    ensures Keeps(st.tree, r.tree, v1)
    ensures r.tree.nodes[v1].variable == st.tree.nodes[v1].variable
    ensures |st.tree.nodes| + 2 < |r.tree.nodes|
    ensures AssignShape(r.tree, |st.tree.nodes| + 2, v1, Some(op), idTok, assignTok)
  {
    var n := |st.tree.nodes|;
    var s1 := OpNode(toks, st, op, v1, e, idTok, assignTok);
    var s3 := CompoundAssign(toks, s1, op, v1, n, idTok, assignTok);
    LocalTrans(toks, st, s1, s3);
    KeepsTrans(st.tree, s1.tree, s3.tree, v1, n, v1);
    s3
  }

  /** The operator node of a compound assignment, over the target `v1`
      and the value. */
  function OpNode(toks: seq<Token>, st: PState, op: ExprOp, v1: NodeId,
                  e: Option<NodeId>, idTok: nat, assignTok: nat): (r: PState)
    requires Inv(toks, st) && v1 < |st.tree.nodes| && OptBelow(e, |st.tree.nodes|)
    requires e.Some? ==> e.value > v1
    requires st.tree.nodes[v1].ntype == NVar && st.tree.nodes[v1].token == idTok
    ensures Local(toks, st, r) && r.tree.vars == st.tree.vars && r.pos == st.pos
    ensures r.lastErrorLine == st.lastErrorLine
    ensures Keeps(st.tree, r.tree, v1)
    ensures |r.tree.nodes| == |st.tree.nodes| + 1
    ensures r.tree.nodes[v1].ntype == NVar && r.tree.nodes[v1].token == idTok
    ensures r.tree.nodes[v1].variable == st.tree.nodes[v1].variable
    ensures r.tree.nodes[|st.tree.nodes|].ntype == NExpr && r.tree.nodes[|st.tree.nodes|].exp.op == op
    ensures |r.tree.nodes[|st.tree.nodes|].children| >= 1 && r.tree.nodes[|st.tree.nodes|].children[0] == v1
  {
    Join(toks, st, assignTok, NExpr, Ast.Expr(op, DataType.Unknown), v1, e)
  }

  /** The rest of a compound assignment once its operator node `n` exists:
      a second variable node for the target, then the assignment node over
      that variable and `n`. */
  function CompoundAssign(toks: seq<Token>, st: PState, op: ExprOp, v1: NodeId,
                          n: NodeId, idTok: nat, assignTok: nat): (r: PState)
    requires Inv(toks, st) && v1 < n && n + 1 == |st.tree.nodes|
    requires st.tree.nodes[v1].ntype == NVar && st.tree.nodes[v1].token == idTok
    requires st.tree.nodes[n].ntype == NExpr && st.tree.nodes[n].exp.op == op
    requires |st.tree.nodes[n].children| >= 1 && st.tree.nodes[n].children[0] == v1
    ensures Local(toks, st, r) && r.tree.vars == st.tree.vars && r.pos == st.pos
    ensures r.lastErrorLine == st.lastErrorLine
    ensures Keeps(st.tree, r.tree, n)
    ensures |r.tree.nodes| == n + 3
    ensures AssignShape(r.tree, n + 2, v1, Some(op), idTok, assignTok)
  {
    var s2 := Fresh(toks, st, idTok, NVar, ZeroNode.exp, st.tree.nodes[v1].variable);
    var s3 := Join(toks, s2, assignTok, NAssign, ZeroNode.exp, n + 1, Some(n));
    LocalTrans(toks, st, s2, s3);
    CompoundShape(s3.tree, n, v1, op, idTok, assignTok);
    s3
  }

  /** The node facts that make up the shape of a compound assignment whose
      operator node is `n`. */
  lemma CompoundShape(t: Tree, n: NodeId, v1: NodeId, op: ExprOp, idTok: nat, assignTok: nat)
    requires v1 < n && n + 2 < |t.nodes|
    requires t.nodes[v1].ntype == NVar && t.nodes[v1].token == idTok
    requires t.nodes[n].ntype == NExpr && t.nodes[n].exp.op == op
    requires |t.nodes[n].children| >= 1 && t.nodes[n].children[0] == v1
    requires t.nodes[n + 1].ntype == NVar && t.nodes[n + 1].variable == t.nodes[v1].variable && t.nodes[n + 1].token == idTok
    requires t.nodes[n + 2].ntype == NAssign && t.nodes[n + 2].token == assignTok
    requires t.nodes[n + 2].children == [n + 1, n]
    ensures AssignShape(t, n + 2, v1, Some(op), idTok, assignTok)
  {
  }

  /** Whether the current and next tokens start an assignment. */
  predicate AssignStart(toks: seq<Token>, st: PState)
    requires WellTokens(toks) && st.pos < |toks|
  {
    toks[st.pos].kind == Id && AssignOp(toks[PeekIndex(toks, st, 1)].kind).Some?
  }

  /** `parse_assign` once its opening test has passed (`Statement` makes
      that test, `AssignStart`): `x = e;` or `x op= e;`, with the target
      resolved by the scope search (an error when it finds nothing) and an
      error at the assignment token when the value is missing. */
  function Assignment(toks: seq<Token>, st: PState): (r: Parsed<Option<NodeId>>)
    requires Inv(toks, st) && AssignStart(toks, st)
    ensures Parses(toks, st, r)
    ensures r.Ok? ==>
      && r.value.Some? && st.pos + 1 < |toks|
      && AssignShape(r.st.tree, r.value.value, |st.tree.nodes|, AssignOp(toks[st.pos + 1].kind).value, st.pos, st.pos + 1)
      && r.st.tree.nodes[|st.tree.nodes|].variable == SearchVar(st.tree, toks[st.pos].text, Some(st.scope))
  {
    assert toks[st.pos].kind != Eof;
    var v1 := |st.tree.nodes|;
    var r1 := AssignHead(toks, st);
    if r1.Exit? then Exit
    else
      // the `;` has been checked before the nodes are built; neither
      // step depends on the other
      var t := AssignTail(toks, r1.st, AssignOp(toks[st.pos + 1].kind).value, v1, r1.value, st.pos, st.pos + 1);
      LocalTrans(toks, st, r1.st, t);
      KeepsTrans(st.tree, r1.st.tree, t.tree, v1, v1, v1);
      Ok(t, Some(TailNode(AssignOp(toks[st.pos + 1].kind).value, |r1.st.tree.nodes|)))
  }

  /** An assignment up to its closing `;`: the target node `v1`, then the
      value, when there is one. */
  function AssignHead(toks: seq<Token>, st: PState): (r: Parsed<Option<NodeId>>)
    requires Inv(toks, st) && AssignStart(toks, st)
    ensures r.Ok? ==> Local(toks, st, r.st) && r.st.pos > st.pos
    ensures r.Ok? ==> Keeps(st.tree, r.st.tree, |st.tree.nodes|) && |r.st.tree.nodes| > |st.tree.nodes|
    ensures r.Ok? ==> r.st.tree.nodes[|st.tree.nodes|] == ZeroNode.(token := st.pos, scope := st.scope,
      ntype := NVar, variable := SearchVar(st.tree, toks[st.pos].text, Some(st.scope)))
    ensures r.Ok? ==> OptBelow(r.value, |r.st.tree.nodes|)
    ensures r.Ok? && r.value.Some? ==> r.value.value > |st.tree.nodes|
  {
    var v1 := |st.tree.nodes|;
    var r1 := AssignTarget(toks, st);
    if r1.Exit? then Exit
    else
      assert toks[st.pos].kind != Eof;
      var r2 := AssignValue(toks, r1.st);
      if r2.Exit? then Exit
      else
        LocalTrans(toks, st, r1.st, r2.st);
        KeepsTrans(st.tree, r1.st.tree, r2.st.tree, v1, v1 + 1, v1);
        r2
  }

  /** The rest of an assignment from the assignment token on: the value,
      with an error at the assignment token when it is missing, and the
      closing `;`. */
  function AssignValue(toks: seq<Token>, st: PState): (r: Parsed<Option<NodeId>>)
    requires Inv(toks, st) && AssignOp(toks[st.pos].kind).Some?
    ensures r.Ok? ==> Local(toks, st, r.st) && r.st.pos > st.pos && r.st.tree.vars == st.tree.vars
    ensures r.Ok? ==> Keeps(st.tree, r.st.tree, |st.tree.nodes|)
    ensures r.Ok? ==> OptBelow(r.value, |r.st.tree.nodes|)
    ensures r.Ok? && r.value.Some? ==> r.value.value >= |st.tree.nodes|
  {
    var r2 := Expression(toks, Next(toks, st), Floor);
    if r2.Exit? then Exit
    else
      var r3 := ErrorIf(toks, r2.st, r2.value.None?, st.pos);
      if r3.Exit? then Exit
      else
        var x := Expect(toks, r3.st, Punct(';'));
        if x.Exit? then Exit else Ok(x.st, r2.value)
  }

  /** The target of an assignment: a variable node for the identifier,
      bound to what the scope search finds; an error when it finds
      nothing. The position ends on the assignment token. */
  function AssignTarget(toks: seq<Token>, st: PState): (r: Parsed<()>)
    requires Inv(toks, st) && AssignStart(toks, st)
    ensures r.Ok? ==> Local(toks, st, r.st) && r.st.tree.vars == st.tree.vars
    ensures r.Ok? ==> r.st.pos == st.pos + 1 && |r.st.tree.nodes| == |st.tree.nodes| + 1
    ensures r.Ok? ==> Keeps(st.tree, r.st.tree, |st.tree.nodes|)
    ensures r.Ok? ==> r.st.tree.nodes[|st.tree.nodes|] == ZeroNode.(token := st.pos, scope := st.scope,
      ntype := NVar, variable := SearchVar(st.tree, toks[st.pos].text, Some(st.scope)))
  {
    var v := SearchVar(st.tree, toks[st.pos].text, Some(st.scope));
    SearchVarInScope(st.tree, toks[st.pos].text, Some(st.scope));
    var s1 := Fresh(toks, Next(toks, st), st.pos, NVar, ZeroNode.exp, v);
    ErrorIf(toks, s1, v.None?, st.pos)
  }

  /** `if` and its condition: the if node, created before the condition
      is parsed, over the condition; an error at the `if` when there is
      none. */
  function IfCondition(toks: seq<Token>, st: PState): (r: Parsed<()>)
    requires Inv(toks, st) && toks[st.pos].kind == Kw(If)
    ensures r.Ok? ==> Local(toks, st, r.st) && r.st.pos > st.pos
    ensures r.Ok? ==> Keeps(st.tree, r.st.tree, |st.tree.nodes|) && |r.st.tree.nodes| > |st.tree.nodes|
    ensures r.Ok? ==> var n := r.st.tree.nodes[|st.tree.nodes|];
      n.ntype == NIf && n.token == st.pos && |n.children| <= 1
  {
    var n := |st.tree.nodes|;
    var s1 := Open(toks, st, NIf, ZeroNode.exp);
    var r1 := Expression(toks, s1, Floor);
    if r1.Exit? then Exit
    else
      var r2 := Adopt(toks, r1.st, n, r1.value, st.pos);
      if r2.Exit? then Exit
      else
        LocalTrans(toks, st, s1, r1.st);
        LocalTrans(toks, st, r1.st, r2.st);
        KeepsTrans(st.tree, s1.tree, r1.st.tree, n, n + 1, n);
        r2
  }

  /** `parse_if_else`: `if e s`, optionally followed by `else s`. */
  function IfStatement(toks: seq<Token>, st: PState): (r: Parsed<Option<NodeId>>)
    requires Inv(toks, st)
    ensures Parses(toks, st, r)
    ensures toks[st.pos].kind != Kw(If) ==> r == Ok(st, None)
    ensures toks[st.pos].kind == Kw(If) && r.Ok? ==>
      && r.value == Some(|st.tree.nodes|)
      && var n := r.st.tree.nodes[|st.tree.nodes|];
      n.ntype == NIf && n.token == st.pos && |n.children| <= 3
    decreases |toks| - st.pos, 0
  {
    if toks[st.pos].kind != Kw(If) then Ok(st, None)
    else
      var n := |st.tree.nodes|;
      var r1 := IfCondition(toks, st);
      if r1.Exit? then Exit
      else
        var r2 := IfBranches(toks, r1.st, n);
        if r2.Exit? then Exit
        else
          LocalTrans(toks, st, r1.st, r2.st);
          KeepsTrans(st.tree, r1.st.tree, r2.st.tree, n, n, n);
          Ok(r2.st, Some(n))
  }

  /** The statement of the if node `n` and its optional else part, each
      becoming a child of `n`. */
  function IfBranches(toks: seq<Token>, st: PState, n: NodeId): (r: Parsed<()>)
    requires Inv(toks, st) && n < |st.tree.nodes|
    ensures r.Ok? ==> Local(toks, st, r.st) && Keeps(st.tree, r.st.tree, n)
    ensures r.Ok? ==> r.st.tree.nodes[n] == st.tree.nodes[n].(children := r.st.tree.nodes[n].children)
    ensures r.Ok? ==> |r.st.tree.nodes[n].children| <= |st.tree.nodes[n].children| + 2
    decreases |toks| - st.pos, 2
  {
    var r1 := Statement(toks, st);
    if r1.Exit? then Exit
    else
      var s1 := Attach(toks, r1.st, n, r1.value);
      var r2 := ElsePart(toks, s1, n);
      if r2.Exit? then Exit
      else
        LocalTrans(toks, st, r1.st, s1);
        LocalTrans(toks, st, s1, r2.st);
        KeepsTrans(st.tree, r1.st.tree, s1.tree, n, n, n);
        KeepsTrans(st.tree, s1.tree, r2.st.tree, n, n, n);
        r2
  }

  /** An optional `else s` of the if node `n`: an else node over the
      statement becomes the last child of `n`. */
  function ElsePart(toks: seq<Token>, st: PState, n: NodeId): (r: Parsed<()>)
    requires Inv(toks, st) && n < |st.tree.nodes|
    ensures r.Ok? ==> Local(toks, st, r.st) && Keeps(st.tree, r.st.tree, n)
    ensures r.Ok? ==> r.st.tree.nodes[n] == st.tree.nodes[n].(children := r.st.tree.nodes[n].children)
    ensures r.Ok? ==> |r.st.tree.nodes[n].children| <= |st.tree.nodes[n].children| + 1
    ensures toks[st.pos].kind != Kw(Else) ==> r == Ok(st, ())
    ensures toks[st.pos].kind == Kw(Else) && r.Ok? ==>
      && |r.st.tree.nodes| > |st.tree.nodes|
      && r.st.tree.nodes[n].children == st.tree.nodes[n].children + [|st.tree.nodes|]
      && r.st.tree.nodes[|st.tree.nodes|].ntype == NElse
    decreases |toks| - st.pos, 1
  {
    if toks[st.pos].kind != Kw(Else) then Ok(st, ())
    else
      var m := |st.tree.nodes|;
      var r1 := ElseNode(toks, st);
      if r1.Exit? then Exit
      else
        var s2 := Attach(toks, r1.st, n, Some(m));
        LocalTrans(toks, st, r1.st, s2);
        KeepsTrans(st.tree, r1.st.tree, s2.tree, m, n, n);
        Ok(s2, ())
  }

  /** `else s`: an else node over the statement. */
  function ElseNode(toks: seq<Token>, st: PState): (r: Parsed<()>)
    requires Inv(toks, st) && toks[st.pos].kind == Kw(Else)
    ensures r.Ok? ==> Local(toks, st, r.st) && Keeps(st.tree, r.st.tree, |st.tree.nodes|)
    ensures r.Ok? ==> |r.st.tree.nodes| > |st.tree.nodes| && r.st.tree.nodes[|st.tree.nodes|].ntype == NElse
    decreases |toks| - st.pos, 0
  {
    var m := |st.tree.nodes|;
    var s1 := Open(toks, st, NElse, ZeroNode.exp);
    var r1 := Statement(toks, s1);
    if r1.Exit? then Exit
    else
      var s2 := Attach(toks, r1.st, m, r1.value);
      LocalTrans(toks, st, s1, r1.st);
      LocalTrans(toks, st, r1.st, s2);
      KeepsTrans(st.tree, s1.tree, r1.st.tree, m, m + 1, m);
      KeepsTrans(st.tree, r1.st.tree, s2.tree, m, m, m);
      Ok(s2, ())
  }

  /** A `{ ... }` statement: its statements are parsed in a new scope under
      the current one, which is left again at the end. */
  function BlockStatement(toks: seq<Token>, st: PState): (r: Parsed<Option<NodeId>>)
    requires Inv(toks, st)
    ensures Parses(toks, st, r)
    ensures toks[st.pos].kind != Punct('{') ==> r == Ok(st, None)
    ensures toks[st.pos].kind == Punct('{') && r.Ok? ==>
      && r.st.pos > st.pos
      && |r.st.tree.scopes| > |st.tree.scopes| && r.st.tree.scopes[|st.tree.scopes|].parent == Some(st.scope)
      && (r.value.Some? ==>
          r.st.tree.nodes[r.value.value].ntype == NStatementSeq && r.st.tree.nodes[r.value.value].scope == |st.tree.scopes|)
    decreases |toks| - st.pos, 0
  {
    if toks[st.pos].kind != Punct('{') then Ok(st, None)
    else
      var s1 := Descend(toks, Next(toks, st));
      var r1 := StatementSeq(toks, s1);
      if r1.Exit? then Exit
      else
        var s2 := Ascend(toks, r1.st);
        var r2 := Expect(toks, s2, Punct('}'));
        if r2.Exit? then Exit else Ok(r2.st, r1.value)
  }

  /** `parse_statement`: return, declaration, assignment, if or block,
      whichever matches; nothing when none does. `parse_statement` tries them in
      that order, but each leaves the state alone unless the current token
      is its own first token (see their contracts), so choosing by that
      token is the same. */
  function Statement(toks: seq<Token>, st: PState): (r: Parsed<Option<NodeId>>)
    requires Inv(toks, st)
    ensures Parses(toks, st, r)
    ensures toks[st.pos].kind == Punct('{') && r.Ok? ==>
      && |r.st.tree.scopes| > |st.tree.scopes| && r.st.tree.scopes[|st.tree.scopes|].parent == Some(st.scope)
      && (r.value.Some? ==>
          r.st.tree.nodes[r.value.value].ntype == NStatementSeq && r.st.tree.nodes[r.value.value].scope == |st.tree.scopes|)
    decreases |toks| - st.pos, 1
  {
    match toks[st.pos].kind
    case Kw(Return) => ReturnStatement(toks, st)
    case BasicType => VarDeclaration(toks, st)
    case Id => if AssignStart(toks, st) then Assignment(toks, st) else Ok(st, None)
    case Kw(If) => IfStatement(toks, st)
    case Punct('{') => BlockStatement(toks, st)
    case _ => Ok(st, None)
  }

  /** `parse_statement_seq`: a sequence node, created after the first
      statement and carrying its token, over all statements up to the
      first position where none is found. */
  function StatementSeq(toks: seq<Token>, st: PState): (r: Parsed<Option<NodeId>>)
    requires Inv(toks, st)
    ensures Parses(toks, st, r)
    ensures r.Ok? && r.value.Some? ==>
      r.st.tree.nodes[r.value.value].ntype == NStatementSeq && r.st.tree.nodes[r.value.value].scope == st.scope
    decreases |toks| - st.pos, 2
  {
    var r1 := Statement(toks, st);
    if r1.Exit? then Exit
    else if r1.value.None? then Ok(r1.st, None)
    else
      var c := r1.value.value;
      var n := |r1.st.tree.nodes|;
      var s1 := Wrap(toks, r1.st, r1.st.tree.nodes[c].token, NStatementSeq, ZeroNode.exp, c);
      var r2 := SeqLoop(toks, s1, n);
      if r2.Exit? then Exit
      else
        LocalTrans(toks, st, r1.st, s1);
        LocalTrans(toks, st, s1, r2.st);
        KeepsTrans(st.tree, r1.st.tree, s1.tree, |st.tree.nodes|, c, |st.tree.nodes|);
        KeepsTrans(st.tree, s1.tree, r2.st.tree, |st.tree.nodes|, n, |st.tree.nodes|);
        Ok(r2.st, Some(n))
  }

  /** The loop of `parse_statement_seq`: each further statement becomes the
      last child of sequence node `n`. */
  function SeqLoop(toks: seq<Token>, st: PState, n: NodeId): (r: Parsed<()>)
    requires Inv(toks, st) && n < |st.tree.nodes|
    ensures r.Ok? ==> Local(toks, st, r.st) && Keeps(st.tree, r.st.tree, n)
    ensures r.Ok? ==> r.st.tree.nodes[n] == st.tree.nodes[n].(children := r.st.tree.nodes[n].children)
    decreases |toks| - st.pos, 2
  {
    var r1 := Statement(toks, st);
    if r1.Exit? then Exit
    else if r1.value.None? then Ok(r1.st, ())
    else
      var s1 := Attach(toks, r1.st, n, r1.value);
      var r2 := SeqLoop(toks, s1, n);
      if r2.Exit? then Exit
      else
        LocalTrans(toks, st, r1.st, s1);
        LocalTrans(toks, st, s1, r2.st);
        KeepsTrans(st.tree, r1.st.tree, s1.tree, n, n, n);
        KeepsTrans(st.tree, s1.tree, r2.st.tree, n, n, n);
        r2
  }

  // ---------------------------------------------------------------------
  // Functions and the program

  /** The records `parse_function` creates before its parameters: the
      function (for the token two places back, the name's when the head
      matched), its scope under the current one, and the `N_FUNCTION` node
      in the current scope; the function's scope becomes current. */
  function FunctionOpen(toks: seq<Token>, st: PState, returnType: DataType, name: string): (r: PState)
    requires Inv(toks, st)
    ensures Inv(toks, r) && r.pos == st.pos && r.lastErrorLine == st.lastErrorLine
    ensures r.scope == |st.tree.scopes| && r.tree.scopes == st.tree.scopes + [Scope(Some(st.scope), [])]
    ensures r.tree.funs == st.tree.funs + [Function(Some(r.scope), [], returnType, name, PeekIndex(toks, st, -2))]
    ensures r.tree.nodes == st.tree.nodes + [ZeroNode.(token := PeekIndex(toks, st, -2), scope := st.scope,
                                                       ntype := NFunction, fun := Some(|st.tree.funs|))]
    ensures r.tree.vars == st.tree.vars && r.tree.root == st.tree.root && r.tree.globalScope == st.tree.globalScope
    ensures Step(toks, st, r.(scope := st.scope)) && Keeps(st.tree, r.tree, |st.tree.nodes|)
  {
    var tok := PeekIndex(toks, st, -2);
    var c := CreateFun(st.tree, tok);
    var s := CreateScope(c.0, Some(st.scope));
    var t1 := SetFunction(s.0, c.1, Function(Some(s.1), [], returnType, name, tok));
    var m := Make(t1, st.scope, tok, NFunction);
    var t2 := Put(m.0, m.1, m.0.nodes[m.1].(fun := Some(c.1)));
    st.(tree := t2, scope := s.1)
  }

  /** `ps` are the variables created from `a` to `b`, in order, and they
      were appended to the current scope. */
  predicate NewVars(a: PState, b: PState, ps: seq<VarId>)
    requires a.scope < |a.tree.scopes| && a.scope < |b.tree.scopes|
  {
    && |b.tree.vars| == |a.tree.vars| + |ps|
    && (forall k :: 0 <= k < |ps| ==> ps[k] == |a.tree.vars| + k && b.tree.vars[ps[k]].scope == a.scope)
    && b.tree.scopes[a.scope].variables == a.tree.scopes[a.scope].variables + ps
  }

  /** One parameter `T x`: both `expect`s, then a variable of the current
      scope for the token before the current one. */
  function Param(toks: seq<Token>, st: PState): (r: Parsed<VarId>)
    requires Inv(toks, st)
    ensures r.Ok? ==> Local(toks, st, r.st) && r.st.tree.nodes == st.tree.nodes
    ensures r.Ok? ==> r.value == |st.tree.vars| && NewVars(st, r.st, [r.value])
    ensures StartsWith(toks, st.pos, [BasicType, Id]) ==>
      && r.Ok? && r.st.pos == st.pos + 2 && r.st.lastErrorLine == st.lastErrorLine
      && r.st.tree.vars[r.value] == Variable(st.pos + 1, toks[st.pos].dataType, toks[st.pos + 1].text, st.scope)
  {
    assert StartsWith(toks, st.pos, [BasicType, Id]) ==>
      toks[st.pos + 0].kind == [BasicType, Id][0] && toks[st.pos + 1].kind == [BasicType, Id][1];
    var r1 := Expect(toks, st, BasicType);
    if r1.Exit? then Exit
    else
      var r2 := Expect(toks, r1.st, Id);
      if r2.Exit? then Exit
      else
        var d := Declare(toks, r2.st, PeekIndex(toks, r2.st, -1), TokenDataType(toks, r1.value), TokenText(toks, r2.value));
        assert d.0.tree.vars[d.1] == Variable(PeekIndex(toks, r2.st, -1), TokenDataType(toks, r1.value), TokenText(toks, r2.value), st.scope);
        Ok(d.0, d.1)
  }

  lemma NewVarsTrans(toks: seq<Token>, a: PState, b: PState, c: PState, p: seq<VarId>, q: seq<VarId>)
    requires Inv(toks, a) && Local(toks, a, b) && Local(toks, b, c)
    requires NewVars(a, b, p) && NewVars(b, c, q)
    ensures NewVars(a, c, p + q)
  {
  }

  /** The `while(accept(','))` loop over further parameters. */
  function MoreParams(toks: seq<Token>, st: PState): (r: Parsed<seq<VarId>>)
    requires Inv(toks, st)
    ensures r.Ok? ==> Local(toks, st, r.st) && r.st.tree.nodes == st.tree.nodes && NewVars(st, r.st, r.value)
    ensures toks[st.pos].kind != Punct(',') ==> r == Ok(st, [])
    decreases |toks| - st.pos
  {
    var a := Accept(toks, st, Punct(','));
    if a.1.None? then Ok(st, [])
    else
      var p := Param(toks, a.0);
      if p.Exit? then Exit
      else
        var rest := MoreParams(toks, p.st);
        if rest.Exit? then Exit
        else
          LocalTrans(toks, st, p.st, rest.st);
          NewVarsTrans(toks, st, p.st, rest.st, [p.value], rest.value);
          Ok(rest.st, [p.value] + rest.value)
  }

  /** The parameter list after `(`: nothing when `)` follows at once,
      otherwise the first parameter, the further ones and the `expect` of
      `)`. */
  function ParamList(toks: seq<Token>, st: PState): (r: Parsed<seq<VarId>>)
    requires Inv(toks, st)
    ensures r.Ok? ==> Local(toks, st, r.st) && r.st.tree.nodes == st.tree.nodes && NewVars(st, r.st, r.value)
    ensures toks[st.pos].kind == Punct(')') ==> r == Ok(Next(toks, st), [])
  {
    var a := Accept(toks, st, Punct(')'));
    if a.1.Some? then Ok(a.0, [])
    else
      var p := Param(toks, st);
      if p.Exit? then Exit
      else
        var rest := MoreParams(toks, p.st);
        if rest.Exit? then Exit
        else
          var r3 := Expect(toks, rest.st, Punct(')'));
          if r3.Exit? then Exit
          else
            LocalTrans(toks, st, p.st, rest.st);
            NewVarsTrans(toks, st, p.st, rest.st, [p.value], rest.value);
            Ok(r3.st, [p.value] + rest.value)
  }

  /** `ps` are the parameters of a function of scope `fs`: consecutive
      variables of that scope from `v0` on. */
  predicate ParamsOf(t: Tree, ps: seq<VarId>, fs: ScopeId, v0: nat)
  {
    forall k :: 0 <= k < |ps| ==> ps[k] == v0 + k && ps[k] < |t.vars| && t.vars[ps[k]].scope == fs
  }

  /** Node `n` of `b` is that of `a` with at most one more child, a new
      statement sequence of scope `scope`. */
  predicate BodyAdded(a: seq<Node>, b: seq<Node>, n: NodeId, scope: ScopeId)
  {
    && n < |a| <= |b|
    && var was := a[n].children;
    && var ch := b[n].children;
    && b[n] == a[n].(children := ch)
    && |was| <= |ch| <= |was| + 1 && ch[..|was|] == was
    && (|ch| > |was| ==> |a| <= ch[|was|] < |b| && b[ch[|was|]].ntype == NStatementSeq && b[ch[|was|]].scope == scope)
  }

  /** The body of `parse_function`: `{`, the statements, `}`, each brace
      `expect`ed, and then the parent of the current scope becomes
      current. The statement sequence becomes the last child of `n`. */
  function FunctionBody(toks: seq<Token>, st: PState, n: NodeId): (r: Parsed<()>)
    requires Inv(toks, st) && n < |st.tree.nodes|
    ensures r.Ok? ==> Local(toks, st, r.st) && Keeps(st.tree, r.st.tree, n)
    ensures r.Ok? ==> BodyAdded(st.tree.nodes, r.st.tree.nodes, n, st.scope)
  {
    var r1 := Expect(toks, st, Punct('{'));
    if r1.Exit? then Exit
    else
      var r2 := StatementSeq(toks, r1.st);
      if r2.Exit? then Exit
      else
        var s3 := Attach(toks, r2.st, n, r2.value);
        var r4 := Expect(toks, s3, Punct('}'));
        if r4.Exit? then Exit
        else
          LocalTrans(toks, r1.st, r2.st, s3);
          LocalTrans(toks, st, r1.st, r4.st);
          KeepsTrans(st.tree, r2.st.tree, s3.tree, |st.tree.nodes|, n, n);
          Ok(r4.st, ())
  }


  /** `ps` recorded as the parameters of function `f`. */
  function WithParams(toks: seq<Token>, st: PState, f: FunId, ps: seq<VarId>): (r: PState)
    requires Inv(toks, st) && f < |st.tree.funs| && forall k :: 0 <= k < |ps| ==> ps[k] < |st.tree.vars|
    ensures Inv(toks, r) && r == st.(tree := r.tree)
    ensures r.tree == st.tree.(funs := st.tree.funs[f := st.tree.funs[f].(params := ps)])
  {
    st.(tree := SetFunction(st.tree, f, st.tree.funs[f].(params := ps)))
  }

  /** Node `n` is the definition of function `f`, whose scope `fs` lies
      under `scope`; its parameters are consecutive variables of `fs` from
      `v0` on, and its body, when there is one, is a statement sequence of
      `fs`. */
  predicate FunctionShape(t: Tree, n: NodeId, f: FunId, fs: ScopeId, scope: ScopeId, v0: nat)
  {
    && n < |t.nodes| && f < |t.funs| && fs < |t.scopes|
    && var node := t.nodes[n];
    && var fun := t.funs[f];
    && node.ntype == NFunction && node.fun == Some(f) && node.scope == scope && node.token == fun.token
    && fun.scope == Some(fs) && t.scopes[fs].parent == Some(scope)
    && ParamsOf(t, fun.params, fs, v0)
    && |node.children| <= 1
    && (forall k :: 0 <= k < |node.children| ==>
          node.children[k] < |t.nodes| && t.nodes[node.children[k]].ntype == NStatementSeq &&
          t.nodes[node.children[k]].scope == fs)
  }

  lemma ParamsKept(a: Tree, b: Tree, ps: seq<VarId>, fs: ScopeId, v0: nat)
    requires ParamsOf(a, ps, fs, v0) && a.vars <= b.vars
    ensures ParamsOf(b, ps, fs, v0)
  {
    forall k | 0 <= k < |ps| ensures b.vars[ps[k]] == a.vars[ps[k]] {
    }
  }

  /** What `FunctionOpen` creates and `FunctionRest` adds make up a
      function definition. */
  lemma FunctionShapeHolds(a: Tree, b: Tree, n: NodeId, f: FunId, fs: ScopeId, scope: ScopeId, v0: nat)
    requires n < |a.nodes| && f < |a.funs| && fs < |a.scopes| && |a.scopes| <= |b.scopes|
    requires a.nodes[n].ntype == NFunction && a.nodes[n].fun == Some(f) && a.nodes[n].scope == scope
    requires a.nodes[n].children == [] && a.nodes[n].token == a.funs[f].token
    requires a.funs[f].scope == Some(fs) && a.scopes[fs].parent == Some(scope) && b.scopes[fs].parent == Some(scope)
    requires BodyAdded(a.nodes, b.nodes, n, fs)
    requires |b.funs| == |a.funs| && b.funs == a.funs[f := a.funs[f].(params := b.funs[f].params)]
    requires ParamsOf(b, b.funs[f].params, fs, v0)
    ensures FunctionShape(b, n, f, fs, scope, v0)
  {
  }

  /** `parse_function` after the function, its scope and its node exist:
      the parameters, recorded as the parameters of function `f`, and the
      body under node `n`. */
  function FunctionRest(toks: seq<Token>, st: PState, n: NodeId, f: FunId, outer: ScopeId): (r: Parsed<()>)
    requires Inv(toks, st)
    requires n < |st.tree.nodes| && f < |st.tree.funs| && st.tree.scopes[st.scope].parent == Some(outer)
    requires st.tree.nodes[n].ntype == NFunction && st.tree.nodes[n].fun == Some(f) && st.tree.nodes[n].children == []
    requires st.tree.nodes[n].scope == outer
    requires st.tree.nodes[n].token == st.tree.funs[f].token && st.tree.funs[f].scope == Some(st.scope)
    ensures r.Ok? ==> Step(toks, st, r.st) && Keeps(st.tree, r.st.tree, n)
    ensures r.Ok? ==> r.st.tree.funs == st.tree.funs[f := st.tree.funs[f].(params := r.st.tree.funs[f].params)]
    ensures r.Ok? ==> FunctionShape(r.st.tree, n, f, st.scope, outer, |st.tree.vars|)
  {
    var r1 := ParamList(toks, st);
    if r1.Exit? then Exit else FunctionTail(toks, st, r1.st, r1.value, n, f, outer)
  }


  /** `FunctionRest` once the parameters `ps` have been read from `st0`. */
  function FunctionTail(toks: seq<Token>, st0: PState, st: PState, ps: seq<VarId>, n: NodeId, f: FunId, outer: ScopeId): (r: Parsed<()>)
    requires Inv(toks, st0) && Local(toks, st0, st) && st.tree.nodes == st0.tree.nodes && NewVars(st0, st, ps)
    requires n < |st0.tree.nodes| && f < |st0.tree.funs| && st0.tree.scopes[st0.scope].parent == Some(outer)
    requires st0.tree.nodes[n].ntype == NFunction && st0.tree.nodes[n].fun == Some(f) && st0.tree.nodes[n].children == []
    requires st0.tree.nodes[n].scope == outer
    requires st0.tree.nodes[n].token == st0.tree.funs[f].token && st0.tree.funs[f].scope == Some(st0.scope)
    ensures r.Ok? ==> Step(toks, st0, r.st) && Keeps(st0.tree, r.st.tree, n)
    ensures r.Ok? ==> r.st.tree.funs == st0.tree.funs[f := st0.tree.funs[f].(params := r.st.tree.funs[f].params)]
    ensures r.Ok? ==> FunctionShape(r.st.tree, n, f, st0.scope, outer, |st0.tree.vars|)
  {
    var s2 := WithParams(toks, st, f, ps);
    var r3 := FunctionBody(toks, s2, n);
    if r3.Exit? then Exit
    else
      TailShape(toks, st0, st, s2, r3.st, ps, n, f, outer);
      r3
  }

  /** What the parameters and the body of `FunctionTail` add up to. */
  lemma TailShape(toks: seq<Token>, st0: PState, st: PState, s2: PState, s3: PState, ps: seq<VarId>,
                  n: NodeId, f: FunId, outer: ScopeId)
    requires Inv(toks, st0) && Local(toks, st0, st) && st.tree.nodes == st0.tree.nodes && NewVars(st0, st, ps)
    requires n < |st0.tree.nodes| && f < |st0.tree.funs| && st0.tree.scopes[st0.scope].parent == Some(outer)
    requires st0.tree.nodes[n].ntype == NFunction && st0.tree.nodes[n].fun == Some(f) && st0.tree.nodes[n].children == []
    requires st0.tree.nodes[n].scope == outer
    requires st0.tree.nodes[n].token == st0.tree.funs[f].token && st0.tree.funs[f].scope == Some(st0.scope)
    requires Inv(toks, s2) && s2 == st.(tree := s2.tree)
    requires s2.tree == st.tree.(funs := st.tree.funs[f := st.tree.funs[f].(params := ps)])
    requires Local(toks, s2, s3) && Keeps(s2.tree, s3.tree, n) && BodyAdded(s2.tree.nodes, s3.tree.nodes, n, s2.scope)
    ensures Step(toks, st0, s3) && Keeps(st0.tree, s3.tree, n)
    ensures s3.tree.funs == st0.tree.funs[f := st0.tree.funs[f].(params := s3.tree.funs[f].params)]
    ensures FunctionShape(s3.tree, n, f, st0.scope, outer, |st0.tree.vars|)
  {
    assert s2.tree.nodes == st0.tree.nodes;
    assert s3.tree.funs == st0.tree.funs[f := st0.tree.funs[f].(params := ps)];
    StepTrans(toks, st0, s2, s3);
    assert ParamsOf(st.tree, ps, st0.scope, |st0.tree.vars|);
    ParamsKept(st.tree, s3.tree, ps, st0.scope, |st0.tree.vars|);
    FunctionShapeHolds(st0.tree, s3.tree, n, f, st0.scope, outer, |st0.tree.vars|);
  }

  /** Whether the current token and the two after it are a type, a name
      and `(`: the test `block` makes before `parse_function`. */
  predicate FunctionStart(toks: seq<Token>, st: PState)
  {
    StartsWith(toks, st.pos, [BasicType, Id, Punct('(')])
  }

  /** `parse_function` once `block` has seen its head: `T f(T a, T b) {
      ... }`. The three `expect`s of the head match, so they only move
      past it. */
  function FunctionDef(toks: seq<Token>, st: PState): (r: Parsed<NodeId>)
    requires Inv(toks, st) && FunctionStart(toks, st)
    ensures r.Ok? ==> Step(toks, st, r.st) && Keeps(st.tree, r.st.tree, |st.tree.nodes|) && r.st.pos > st.pos
    ensures r.Ok? ==> r.value == |st.tree.nodes|
    ensures r.Ok? ==> |r.st.tree.funs| == |st.tree.funs| + 1 && r.st.tree.funs[..|st.tree.funs|] == st.tree.funs
    ensures r.Ok? ==> FunctionShape(r.st.tree, r.value, |st.tree.funs|, |st.tree.scopes|, st.scope, |st.tree.vars|)
    ensures r.Ok? ==>
      && r.st.tree.funs[|st.tree.funs|].returnType == toks[st.pos].dataType
      && r.st.tree.funs[|st.tree.funs|].name == toks[st.pos + 1].text
      && r.st.tree.funs[|st.tree.funs|].token == st.pos + 1
  {
    var k := [BasicType, Id, Punct('(')];
    assert toks[st.pos + 0].kind == k[0] && toks[st.pos + 1].kind == k[1] && toks[st.pos + 2].kind == k[2];
    var s0 := st.(pos := st.pos + 3);
    var s1 := FunctionOpen(toks, s0, toks[st.pos].dataType, toks[st.pos + 1].text);
    var r2 := FunctionRest(toks, s1, |st.tree.nodes|, |st.tree.funs|, st.scope);
    if r2.Exit? then Exit
    else
      var s3 := Ascend(toks, r2.st);
      assert s3 == r2.st.(scope := st.scope);
      StepRescope(toks, s1, r2.st, st.scope);
      StepTrans(toks, st, s1.(scope := st.scope), s3);
      KeepsTrans(st.tree, s1.tree, r2.st.tree, |st.tree.nodes|, |st.tree.nodes|, |st.tree.nodes|);
      assert s3.tree.funs[|st.tree.funs|] == s1.tree.funs[|st.tree.funs|].(params := s3.tree.funs[|st.tree.funs|].params);
      assert s3.tree.funs[..|st.tree.funs|] == s1.tree.funs[..|st.tree.funs|] == st.tree.funs;
      Ok(s3, |st.tree.nodes|)
  }


  /** The node types a declaration at the top level yields: a function, a
      global variable, or an assignment over a global variable. */
  predicate IsTopLevel(n: Node)
  {
    n.ntype == NFunction || n.ntype == NVarDecl || n.ntype == NAssign
  }

  /** A type followed by a name starts at `pos`: a declaration. */
  predicate DeclStart(toks: seq<Token>, pos: nat)
  {
    pos + 1 < |toks| && toks[pos].kind == BasicType && toks[pos + 1].kind == Id
  }

  /** Where the loop of `block` stops: at the end of file, or where no
      declaration starts. */
  predicate BlockEnd(toks: seq<Token>, pos: nat)
  {
    pos < |toks| && (toks[pos].kind == Eof || !DeclStart(toks, pos))
  }

  lemma DeclStartIff(toks: seq<Token>, pos: nat)
    ensures DeclStart(toks, pos) <==> StartsWith(toks, pos, [BasicType, Id])
  {
    if StartsWith(toks, pos, [BasicType, Id]) {
      assert toks[pos + 0].kind == [BasicType, Id][0] && toks[pos + 1].kind == [BasicType, Id][1];
    }
  }

  /** One declaration at the top level of `block`: a function definition
      when a type, a name and `(` follow, `parse_var_decl` otherwise. */
  function TopDeclaration(toks: seq<Token>, st: PState): (r: Parsed<Option<NodeId>>)
    requires Inv(toks, st)
    ensures r.Ok? ==> Step(toks, st, r.st) && Keeps(st.tree, r.st.tree, |st.tree.nodes|)
    ensures r.Ok? ==> OptBelow(r.value, |r.st.tree.nodes|)
    ensures r.Ok? && r.value.Some? ==>
      r.value.value >= |st.tree.nodes| && r.st.pos > st.pos && IsTopLevel(r.st.tree.nodes[r.value.value])
    ensures !DeclStart(toks, st.pos) ==> r == Ok(st, None)
    ensures DeclStart(toks, st.pos) && r.Ok? ==> r.value.Some?
  {
    PeekPatternStarts(toks, st, [BasicType, Id, Punct('(')]);
    DeclStartIff(toks, st.pos);
    if PeekPattern(toks, st, [BasicType, Id, Punct('(')]) then
      var k := [BasicType, Id, Punct('(')];
      assert toks[st.pos + 0].kind == k[0] && toks[st.pos + 1].kind == k[1];
      assert StartsWith(toks, st.pos, [BasicType, Id]);
      var r1 := FunctionDef(toks, st);
      if r1.Exit? then Exit else Ok(r1.st, Some(r1.value))
    else
      VarDeclaration(toks, st)
  }

  /** The program node `root` of `b` is that of `a` with further children,
      each a new top-level declaration whose parent is `root`. */
  predicate TopChildren(a: seq<Node>, b: seq<Node>, root: NodeId)
  {
    && root < |a| <= |b|
    && var was := a[root].children;
    && var ch := b[root].children;
    && b[root] == a[root].(children := ch)
    && |was| <= |ch| && ch[..|was|] == was
    && forall k :: |was| <= k < |ch| ==> |a| <= ch[k] < |b| && IsTopLevel(b[ch[k]]) && b[ch[k]].parent == Some(root)
  }

  /** `TopChildren` composes when the second step keeps every node of the
      first but the root. */
  lemma TopChildrenTrans(a: seq<Node>, b: seq<Node>, c: seq<Node>, root: NodeId)
    requires TopChildren(a, b, root) && TopChildren(b, c, root)
    requires KeepsBut(b, c, root)
    ensures TopChildren(a, c, root)
  {
    var was := a[root].children;
    var mid := b[root].children;
    var ch := c[root].children;
    assert ch[..|mid|] == mid;
    assert ch[..|was|] == mid[..|was|];
    forall k | |was| <= k < |ch|
      ensures |a| <= ch[k] < |c| && IsTopLevel(c[ch[k]]) && c[ch[k]].parent == Some(root)
    {
      if k < |mid| {
        assert ch[k] == mid[k];
        assert mid[k] != root;
      }
    }
  }

  /** Declaration `c`, new since `st0`, added as the last child of the
      program node `root`. */
  function AddTop(toks: seq<Token>, st0: PState, st: PState, root: NodeId, c: NodeId): (r: PState)
    requires Inv(toks, st0) && Step(toks, st0, st) && Keeps(st0.tree, st.tree, |st0.tree.nodes|)
    requires root < |st0.tree.nodes| <= c < |st.tree.nodes| && IsTopLevel(st.tree.nodes[c])
    ensures Step(toks, st0, r) && r.pos == st.pos
    ensures KeepsBut(st0.tree.nodes, r.tree.nodes, root)
    ensures TopChildren(st0.tree.nodes, r.tree.nodes, root)
  {
    var s1 := Attach(toks, st, root, Some(c));
    StepTrans(toks, st0, st, s1);
    assert s1.tree.nodes[root].children == st0.tree.nodes[root].children + [c];
    s1
  }

  /** The nodes of `a` other than `root` are in `b` unchanged. */
  predicate KeepsBut(a: seq<Node>, b: seq<Node>, root: NodeId)
  {
    |a| <= |b| && forall k :: 0 <= k < |a| && k != root ==> b[k] == a[k]
  }

  lemma KeepsButTrans(a: seq<Node>, b: seq<Node>, c: seq<Node>, root: NodeId)
    ensures KeepsBut(a, b, root) && KeepsBut(b, c, root) ==> KeepsBut(a, c, root)
  {
  }

  /** The loop of `block`: each declaration found becomes the last child of
      the program node `root`; the loop ends after a declaration followed
      by the end of file, or where no declaration starts, and the tokens
      from there on are left unread. */
  function BlockLoop(toks: seq<Token>, st: PState, root: NodeId): (r: Parsed<()>)
    requires Inv(toks, st) && root < |st.tree.nodes|
    ensures r.Ok? ==> Step(toks, st, r.st) && KeepsBut(st.tree.nodes, r.st.tree.nodes, root)
    ensures r.Ok? ==> TopChildren(st.tree.nodes, r.st.tree.nodes, root)
    ensures r.Ok? ==> BlockEnd(toks, r.st.pos)
    ensures !DeclStart(toks, st.pos) ==> r == Ok(st, ())
    decreases |toks| - st.pos, 1
  {
    var r1 := TopDeclaration(toks, st);
    if r1.Exit? then Exit
    else if r1.value.None? then Ok(r1.st, ())
    else BlockMore(toks, st, r1.st, root, r1.value.value)
  }

  /** The rest of an iteration of the loop of `block` once declaration
      `c` has been read from `st0`. */
  function BlockMore(toks: seq<Token>, st0: PState, st: PState, root: NodeId, c: NodeId): (r: Parsed<()>)
    requires Inv(toks, st0) && Step(toks, st0, st) && Keeps(st0.tree, st.tree, |st0.tree.nodes|) && st.pos > st0.pos
    requires root < |st0.tree.nodes| <= c < |st.tree.nodes| && IsTopLevel(st.tree.nodes[c])
    ensures r.Ok? ==> Step(toks, st0, r.st) && KeepsBut(st0.tree.nodes, r.st.tree.nodes, root)
    ensures r.Ok? ==> TopChildren(st0.tree.nodes, r.st.tree.nodes, root)
    ensures r.Ok? ==> BlockEnd(toks, r.st.pos)
    decreases |toks| - st0.pos, 0
  {
    var s1 := AddTop(toks, st0, st, root, c);
    if toks[s1.pos].kind == Eof then Ok(s1, ())
    else
      var r2 := BlockLoop(toks, s1, root);
      if r2.Exit? then Exit
      else
        StepTrans(toks, st0, s1, r2.st);
        KeepsButTrans(st0.tree.nodes, s1.tree.nodes, r2.st.tree.nodes, root);
        TopChildrenTrans(st0.tree.nodes, s1.tree.nodes, r2.st.tree.nodes, root);
        r2
  }


  /** The root is a program node for the first token in scope `scope`,
      without a parent, and its children are top-level declarations whose
      parent it is. */
  predicate ProgramShape(t: Tree, scope: ScopeId)
  {
    && t.root.Some? && t.root.value < |t.nodes|
    && var p := t.nodes[t.root.value];
    && p.ntype == NProgram && p.token == 0 && p.scope == scope && p.parent.None?
    && forall k :: 0 <= k < |p.children| ==>
         p.children[k] < |t.nodes| && IsTopLevel(t.nodes[p.children[k]]) && t.nodes[p.children[k]].parent == t.root
  }

  /** `block`: a program node for the first token, in the current scope,
      becomes the root, and the declarations are read into it. */
  function Block(toks: seq<Token>, st: PState): (r: Parsed<()>)
    requires Inv(toks, st)
    ensures r.Ok? ==> Inv(toks, r.st) && r.st.tree.root == Some(|st.tree.nodes|)
    ensures r.Ok? ==> ProgramShape(r.st.tree, st.scope) && BlockEnd(toks, r.st.pos)
    ensures r.Ok? ==> r.st.scope == st.scope && r.st.tree.globalScope == st.tree.globalScope
    ensures r.Ok? ==>
      && |st.tree.scopes| <= |r.st.tree.scopes|
      && forall k :: 0 <= k < |st.tree.scopes| ==> r.st.tree.scopes[k].parent == st.tree.scopes[k].parent
    ensures !DeclStart(toks, st.pos) ==>
      && r.Ok? && r.st.pos == st.pos && r.st.lastErrorLine == st.lastErrorLine
      && r.st.tree.nodes == st.tree.nodes + [ZeroNode.(token := 0, scope := st.scope, ntype := NProgram)]
  {
    var n := |st.tree.nodes|;
    var s1 := Fresh(toks, st, 0, NProgram, ZeroNode.exp, None);
    var s2 := s1.(tree := s1.tree.(root := Some(n)));
    assert Inv(toks, s2);
    var r := BlockLoop(toks, s2, n);
    if r.Exit? then Exit
    else
      assert s2.tree.nodes[n].children == [];
      r
  }

  /** `init_parser`: the first token, no error yet, and a store with only
      the global scope, which is current. */
  function Init(toks: seq<Token>): (r: PState)
    requires WellTokens(toks)
    ensures Inv(toks, r) && r.pos == 0 && r.lastErrorLine == 0
    ensures r.tree == EmptyTree() && r.scope == r.tree.globalScope
  {
    PState(0, 0, EmptyTree().globalScope, EmptyTree())
  }

  /** `parse`: the tree, or nothing when the process was terminated, by a
      second error on one line or, at the end, because an error was
      reported. */
  function Parse(toks: seq<Token>): (r: Option<Tree>)
    requires WellTokens(toks)
    ensures r.Some? ==> Valid(r.value) && ProgramShape(r.value, r.value.globalScope)
    ensures r.Some? ==> r.value.globalScope == 0 && 0 < |r.value.scopes| && r.value.scopes[0].parent.None?
  {
    var b := Block(toks, Init(toks));
    if b.Exit? || b.st.lastErrorLine != 0 then None else Some(b.st.tree)
  }

  /** Tokens that do not start with a declaration are not read at all: the
      tree is the program node alone, and no error is reported. */
  lemma ParseIgnoresNonDeclarations(toks: seq<Token>)
    requires WellTokens(toks) && !DeclStart(toks, 0)
    ensures Parse(toks).Some?
    ensures |Parse(toks).value.nodes| == 1 && Parse(toks).value.nodes[0].children == []
  {
    var b := Block(toks, Init(toks));
    assert b.st.tree.nodes == [ZeroNode.(token := 0, scope := 0, ntype := NProgram)];
  }
}
