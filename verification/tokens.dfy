/** Token kinds and data types of the Mlang front end, with the data-type
    classification and size table and the debug names of token kinds. */
module Tokens {
  import opened Wrappers

  /** `Type`, in declaration order. */
  datatype DataType = Unknown | U8 | U16 | U32 | U64 | Msi | S8 | S16 | S32 | S64 | F32 | F64 | B8 | Void | Custom
  {
    /** The enumerator's value. */
    function Ord(): nat
    {
      match this
      case Unknown => 0
      case U8 => 1
      case U16 => 2
      case U32 => 3
      case U64 => 4
      case Msi => 5
      case S8 => 6
      case S16 => 7
      case S32 => 8
      case S64 => 9
      case F32 => 10
      case F64 => 11
      case B8 => 12
      case Void => 13
      case Custom => 14
    }
  }

  /** The enumerator values are distinct. */
  lemma OrdInjective(a: DataType, b: DataType)
    ensures a.Ord() == b.Ord() <==> a == b
  {
  }

  /** `data_type_is_unsigned`: everything from U8 up to MSI, plus B8. */
  predicate IsUnsigned(t: DataType)
    ensures IsUnsigned(t) <==> t in {U8, U16, U32, U64, Msi, B8}
  {
    (t.Ord() <= Msi.Ord() && t != Unknown) || t == B8
  }

  /** `data_type_is_signed`: S8 up to S64, plus B8. */
  predicate IsSigned(t: DataType)
    ensures IsSigned(t) <==> t in {S8, S16, S32, S64, B8}
  {
    (t.Ord() <= S64.Ord() && t.Ord() >= S8.Ord()) || t == B8
  }

  /** `data_type_is_floating_point` */
  predicate IsFloat(t: DataType)
  {
    t == F32 || t == F64
  }

  /** B8 is the one type that is both signed and unsigned; every other
      numeric type is in exactly one of the three categories, and the
      non-numeric types in none. */
  lemma Categories(t: DataType)
    ensures IsSigned(t) && IsUnsigned(t) <==> t == B8
    ensures t != B8 && t.Ord() >= U8.Ord() && t.Ord() <= F64.Ord() ==>
      (IsSigned(t) && !IsUnsigned(t) && !IsFloat(t)) ||
      (!IsSigned(t) && IsUnsigned(t) && !IsFloat(t)) ||
      (!IsSigned(t) && !IsUnsigned(t) && IsFloat(t))
    ensures t in {Unknown, Void, Custom} ==> !IsSigned(t) && !IsUnsigned(t) && !IsFloat(t)
  {
  }

  /** `data_type_size`: bit width; MSI is 64 bits and the non-numeric types
      have size 0. */
  function Size(t: DataType): (r: nat)
    ensures r == 8 <==> t in {U8, S8, B8}
    ensures r == 16 <==> t in {U16, S16}
    ensures r == 32 <==> t in {U32, S32, F32}
    ensures r == 64 <==> t in {U64, Msi, S64, F64}
    ensures r == 0 <==> t in {Unknown, Void, Custom}
  {
    match t
    case Unknown => 0
    case U8 => 8
    case U16 => 16
    case U32 => 32
    case U64 => 64
    case Msi => 64
    case S8 => 8
    case S16 => 16
    case S32 => 32
    case S64 => 64
    case F32 => 32
    case F64 => 64
    case B8 => 8
    case Void => 0
    case Custom => 0
  }

  datatype Keyword = Fn | Return | If | Else | For | While | Break | Continue | Struct | Cast

  /** The multi-character operators, `TOKEN_D_EQ` up to `TOKEN_COMBINED`. */
  datatype Compound = DEq | And | Or | NotEq | LEq | GEq | DPlus | DMinus
    | PlusEq | MinusEq | MulEq | DivEq | ModEq | ShiftLEq | ShiftREq
    | AndEq | XorEq | OrEq | ShiftL | ShiftR | Combined

  /** `Token_Type`. A single punctuation character is its own kind. */
  datatype TokenKind = UnknownKind | Eof | Id | Num | StrLit | BasicType
    | Kw(kw: Keyword) | Op(op: Compound) | Punct(c: char)

  /** The single characters the lexer turns into tokens of their own. */
  const PunctChars: string := "()[]{}<>%+-*/!=:;,.#&|^$?~"

  predicate ValidKind(k: TokenKind)
  {
    k.Punct? ==> k.c in PunctChars
  }

  function KeywordOrd(k: Keyword): nat
  {
    match k
    case Fn => 0
    case Return => 1
    case If => 2
    case Else => 3
    case For => 4
    case While => 5
    case Break => 6
    case Continue => 7
    case Struct => 8
    case Cast => 9
  }

  function CompoundOrd(c: Compound): nat
  {
    match c
    case DEq => 0
    case And => 1
    case Or => 2
    case NotEq => 3
    case LEq => 4
    case GEq => 5
    case DPlus => 6
    case DMinus => 7
    case PlusEq => 8
    case MinusEq => 9
    case MulEq => 10
    case DivEq => 11
    case ModEq => 12
    case ShiftLEq => 13
    case ShiftREq => 14
    case AndEq => 15
    case XorEq => 16
    case OrEq => 17
    case ShiftL => 18
    case ShiftR => 19
    case Combined => 20
  }

  /** The numeric value of a kind: 0..5 for the basic kinds, keywords from
      1000, compound operators from 1100, punctuation its character code. */
  function Code(k: TokenKind): int
  {
    match k
    case UnknownKind => 0
    case Eof => 1
    case Id => 2
    case Num => 3
    case StrLit => 4
    case BasicType => 5
    case Kw(w) => 1000 + KeywordOrd(w)
    case Op(o) => 1100 + CompoundOrd(o)
    case Punct(c) => c as int
  }

  function KeywordOfOrd(n: nat): Keyword
    requires n < 10
  {
    [Fn, Return, If, Else, For, While, Break, Continue, Struct, Cast][n]
  }

  function CompoundOfOrd(n: nat): Compound
    requires n < 21
  {
    [DEq, And, Or, NotEq, LEq, GEq, DPlus, DMinus, PlusEq, MinusEq, MulEq, DivEq,
     ModEq, ShiftLEq, ShiftREq, AndEq, XorEq, OrEq, ShiftL, ShiftR, Combined][n]
  }

  /** Reads a kind back from its value; `None` for values no kind has. */
  function KindOfCode(n: int): (r: Option<TokenKind>)
    ensures r.Some? ==> ValidKind(r.value)
  {
    if 0 <= n <= 5 then Some([UnknownKind, Eof, Id, Num, StrLit, BasicType][n])
    else if 1000 <= n < 1010 then Some(Kw(KeywordOfOrd(n - 1000)))
    else if 1100 <= n < 1121 then Some(Op(CompoundOfOrd(n - 1100)))
    else if 0 <= n < 128 && (n as char) in PunctChars then Some(Punct(n as char))
    else None
  }

  /** The value ranges do not overlap: every kind is read back from its
      value, so two different kinds never share one. */
  lemma CodeRoundTrip(k: TokenKind)
    requires ValidKind(k)
    ensures KindOfCode(Code(k)) == Some(k)
    ensures k.Punct? ==> 33 <= Code(k) < 128
    ensures k.Kw? ==> 1000 <= Code(k) < 1010
    ensures k.Op? ==> 1100 <= Code(k) <= 1120
  {
    match k
    case Kw(w) => assert KeywordOfOrd(KeywordOrd(w)) == w;
    case Op(o) => assert CompoundOfOrd(CompoundOrd(o)) == o;
    case Punct(c) => PunctRange(c);
    case _ =>
  }

  lemma PunctRange(c: char)
    requires c in PunctChars
    ensures 33 <= c as int < 128
  {
    var i :| 0 <= i < |PunctChars| && PunctChars[i] == c;
  }

  lemma CodeInjective(a: TokenKind, b: TokenKind)
    requires ValidKind(a) && ValidKind(b) && Code(a) == Code(b)
    ensures a == b
  {
    CodeRoundTrip(a);
    CodeRoundTrip(b);
  }

  /** A token: its text, kind, data type (for `TOKEN_BASIC_TYPE`) and the
      1-based line and column where it starts. */
  datatype Token = Token(text: string, kind: TokenKind, dataType: DataType, line: nat, column: nat)

  const NotImplemented: string := "TOKEN TYPE PRINT NOT IMPLEMENTED"

  /** `token_type_to_str`. `TOKEN_GEQ` is printed as "!=", and
      `TOKEN_NOTEQ` and `TOKEN_COMBINED` have no case. */
  function TokenKindToStr(k: TokenKind): (r: string)
    ensures r == "!=" <==> k == Op(GEq)
    ensures k == Op(NotEq) || k == Op(Combined) ==> r == NotImplemented
    ensures k.Punct? && k.c in PunctChars ==> r == ['\'', k.c, '\'']
  {
    match k
    case UnknownKind => "TOKEN_UNKOWN"
    case Eof => "EOF"
    case Id => "Identifier"
    case Num => "Number Constant"
    case StrLit => "String Literal"
    case Kw(Fn) => "fn"
    case Kw(Return) => "return"
    case Kw(If) => "if"
    case Kw(Else) => "else"
    case Kw(For) => "for"
    case Kw(While) => "while"
    case Kw(Break) => "break"
    case Kw(Continue) => "continue"
    case Kw(Struct) => "struct"
    case Kw(Cast) => "cast"
    case BasicType => "basic type"
    case Op(DEq) => "=="
    case Op(And) => "&&"
    case Op(Or) => "||"
    case Op(LEq) => "<="
    case Op(GEq) => "!="
    case Op(DPlus) => "++"
    case Op(DMinus) => "--"
    case Op(PlusEq) => "+="
    case Op(MinusEq) => "-="
    case Op(MulEq) => "*="
    case Op(DivEq) => "/="
    case Op(ModEq) => "%="
    case Op(ShiftLEq) => "<<="
    case Op(ShiftREq) => ">>="
    case Op(AndEq) => "&="
    case Op(XorEq) => "^="
    case Op(OrEq) => "|="
    case Op(ShiftL) => "<<"
    case Op(ShiftR) => ">>"
    case Punct(c) => if c in PunctChars then ['\'', c, '\''] else NotImplemented
    case _ => NotImplemented
  }
}
