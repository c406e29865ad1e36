/** The promotion table of the type checker: the type of a binary
    operation's result from the types of its two operands, and which operand
    gets an implicit cast. */
module TyperTable {
  import opened Tokens
  import opened Ast

  /** `promote_side`: no cast (0), a cast on the left operand (1) or on the
      right operand (2). */
  datatype Side = NoSide | LeftSide | RightSide

  /** What `typer_binary_operation_result` does: a result type with the
      side to promote and whether a size warning was printed; an error on
      the node with the unknown type; or the assertion failure that ends the
      process. */
  datatype Outcome = Typed(result: DataType, side: Side, warning: bool) | TypeError | Crash

  /** The category this function sees: the signed test comes first, so B8,
      which is also unsigned, counts as signed here. */
  datatype Category = SignedCat | UnsignedCat | FloatCat | NoCat

  function CategoryOf(t: DataType): (c: Category)
    ensures c == SignedCat <==> IsSigned(t)
    ensures c == UnsignedCat <==> IsUnsigned(t) && t != B8
    ensures c == FloatCat <==> IsFloat(t)
    ensures c == NoCat <==> t in {DataType.Unknown, Void, Custom}
  {
    if IsSigned(t) then SignedCat
    else if IsUnsigned(t) then UnsignedCat
    else if IsFloat(t) then FloatCat
    else NoCat
  }

  /** A type an operand may have: known and below VOID. */
  predicate Operand(t: DataType)
  {
    t != DataType.Unknown && t.Ord() < Void.Ord()
  }

  /** The arithmetic and bitwise operations, `EX_B_ADD` to `EX_B_OR`. */
  predicate IsArithmetic(op: ExprOp)
  {
    op in {BAdd, BSub, BMul, BDiv, BMod, BShiftL, BShiftR, BAnd, BXor, BOr}
  }

  /** The comparison operations of the case list for differing types;
      `EX_C_GT` is not among them. */
  predicate IsListedComparison(op: ExprOp)
  {
    op in {COr, CAnd, CEq, CNeq, CLt, CLtEq, CGtEq}
  }

  predicate IsInteger(c: Category)
  {
    c == SignedCat || c == UnsignedCat
  }

  /** The case shared by the two case lists for different types of one
      category, or a signed and an unsigned type: the type an arithmetic
      operation yields, the side to promote and whether to warn. The last
      branch, `IR_INVALID_CASE`, is reached by no pair of operand types. */
  function Promote(o1: DataType, o2: DataType): (r: Outcome)
    ensures r != TypeError
    ensures r == Crash <==>
      CategoryOf(o1) != CategoryOf(o2) && !(IsInteger(CategoryOf(o1)) && IsInteger(CategoryOf(o2)))
    ensures r.Typed? ==> r.side != NoSide && r.result == (if r.side == RightSide then o1 else o2)
  {
    var c1 := CategoryOf(o1);
    var c2 := CategoryOf(o2);
    if c1 == c2 then
      if Size(o1) > Size(o2) then Typed(o1, RightSide, false) else Typed(o2, LeftSide, false)
    else if c1 == SignedCat && c2 == UnsignedCat then Typed(o1, RightSide, !(Size(o1) > Size(o2)))
    else if c1 == UnsignedCat && c2 == SignedCat then Typed(o2, LeftSide, !(Size(o2) > Size(o1)))
    else Crash
  }

  /** `typer_binary_operation_result`. */
  function BinaryResult(op: ExprOp, o1: DataType, o2: DataType): (r: Outcome)
    ensures !(Operand(o1) && Operand(o2)) ==> r == TypeError
    ensures Operand(o1) && Operand(o2) && o1 == o2 ==>
      r == Typed(if op.IsComparison() then B8 else o1, NoSide, false)
    ensures r.Typed? && o1 != o2 ==> r.side != NoSide
    ensures r.Typed? ==> r.result == (if op.IsComparison() then B8 else if r.side == RightSide then o1 else o2)
  {
    if !(Operand(o1) && Operand(o2)) then TypeError
    else if o1 == o2 then Typed(if op.IsComparison() then B8 else o1, NoSide, false)
    else if IsInteger(CategoryOf(o1)) && CategoryOf(o2) == FloatCat then TypeError
    else if IsInteger(CategoryOf(o2)) && CategoryOf(o1) == FloatCat then TypeError
    else if IsArithmetic(op) then Promote(o1, o2)
    else if IsListedComparison(op) then
      match Promote(o1, o2)
      case Typed(_, side, warning) => Typed(B8, side, warning)
      case other => other
    else Crash
  }

  /** The error result comes exactly from an operand type that is unknown
      or not below VOID, or from an integer mixed with a floating-point
      type, in either order. */
  lemma ErrorExactly(op: ExprOp, o1: DataType, o2: DataType)
    ensures BinaryResult(op, o1, o2) == TypeError <==>
      || !(Operand(o1) && Operand(o2))
      || (IsInteger(CategoryOf(o1)) && CategoryOf(o2) == FloatCat)
      || (CategoryOf(o1) == FloatCat && IsInteger(CategoryOf(o2)))
  {
  }

  /** The assertion fails exactly for two different valid types that are
      not an integer/float mix, under an operation outside the two case
      lists; `>` is such an operation. */
  lemma CrashExactly(op: ExprOp, o1: DataType, o2: DataType)
    ensures BinaryResult(op, o1, o2) == Crash <==>
      && Operand(o1) && Operand(o2) && o1 != o2
      && !(IsInteger(CategoryOf(o1)) && CategoryOf(o2) == FloatCat)
      && !(CategoryOf(o1) == FloatCat && IsInteger(CategoryOf(o2)))
      && !IsArithmetic(op) && !IsListedComparison(op)
  {
  }

  /** Two integer types of different sizes or signedness under `>`. */
  lemma GreaterOnDifferentTypesCrashes()
    ensures BinaryResult(CGt, S32, S64) == Crash
    ensures BinaryResult(CGt, U8, S8) == Crash
    ensures BinaryResult(CGt, S64, S64) == Typed(B8, NoSide, false)
  {
  }

  /** In one category the larger operand is the result and the other one
      is promoted; on equal sizes the right operand wins. */
  lemma SameCategoryLargerWins(op: ExprOp, o1: DataType, o2: DataType)
    requires Operand(o1) && Operand(o2) && o1 != o2 && IsArithmetic(op)
    requires CategoryOf(o1) == CategoryOf(o2)
    ensures Size(o1) > Size(o2) ==> BinaryResult(op, o1, o2) == Typed(o1, RightSide, false)
    ensures Size(o1) <= Size(o2) ==> BinaryResult(op, o1, o2) == Typed(o2, LeftSide, false)
  {
  }

  /** Signed with unsigned: the signed operand's type, whatever the sizes,
      with the unsigned side promoted and a warning unless the signed type
      is strictly larger. */
  lemma SignedWins(op: ExprOp, s: DataType, u: DataType)
    requires Operand(s) && Operand(u) && IsArithmetic(op)
    requires CategoryOf(s) == SignedCat && CategoryOf(u) == UnsignedCat
    ensures BinaryResult(op, s, u) == Typed(s, RightSide, Size(s) <= Size(u))
    ensures BinaryResult(op, u, s) == Typed(s, LeftSide, Size(s) <= Size(u))
  {
  }

  /** B8 counts as signed here, so with an unsigned type it is the result,
      and with a signed type the larger one wins. */
  lemma B8CountsAsSigned()
    ensures BinaryResult(BAdd, B8, U8) == Typed(B8, RightSide, true)
    ensures BinaryResult(BMul, U64, B8) == Typed(B8, LeftSide, true)
    ensures BinaryResult(BSub, B8, S16) == Typed(S16, LeftSide, false)
    ensures IsUnsigned(B8)
  {
  }

  /** A listed comparison on differing types promotes the same side and
      warns in the same cases as an arithmetic operation, but its result
      is B8. */
  lemma ComparisonFollowsArithmetic(c: ExprOp, a: ExprOp, o1: DataType, o2: DataType)
    requires IsListedComparison(c) && IsArithmetic(a) && o1 != o2
    ensures BinaryResult(c, o1, o2).Typed? <==> BinaryResult(a, o1, o2).Typed?
    ensures BinaryResult(c, o1, o2).Typed? ==>
      && BinaryResult(c, o1, o2).result == B8
      && BinaryResult(c, o1, o2).side == BinaryResult(a, o1, o2).side
      && BinaryResult(c, o1, o2).warning == BinaryResult(a, o1, o2).warning
  {
  }

  /** Swapping the operands swaps the promoted side and keeps the result
      type, except on a tie in size within one category, where the right
      operand always wins. */
  lemma SwapMirrors(op: ExprOp, o1: DataType, o2: DataType)
    requires IsArithmetic(op) && o1 != o2
    requires CategoryOf(o1) != CategoryOf(o2) || Size(o1) != Size(o2)
    ensures BinaryResult(op, o1, o2).Typed? <==> BinaryResult(op, o2, o1).Typed?
    ensures BinaryResult(op, o1, o2).Typed? ==>
      && BinaryResult(op, o2, o1).result == BinaryResult(op, o1, o2).result
      && BinaryResult(op, o2, o1).warning == BinaryResult(op, o1, o2).warning
      && BinaryResult(op, o2, o1).side == (if BinaryResult(op, o1, o2).side == LeftSide then RightSide else LeftSide)
  {
  }

  /** Within one category a tie in size goes to the right operand, so the
      order matters: U64 with MSI gives MSI, MSI with U64 gives U64. */
  lemma TieGoesRight()
    ensures BinaryResult(BAdd, U64, Msi) == Typed(Msi, LeftSide, false)
    ensures BinaryResult(BAdd, Msi, U64) == Typed(U64, LeftSide, false)
  {
  }
}
