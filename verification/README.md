# Mlang front end, modelled in Dafny

This project models the front end of the Mlang compiler, together with the
parts of its `irlibs` support library that the front end relies on. The
front end takes source text to a typed abstract syntax tree.

- **Tokens** (`src/tokens.h`): token kinds, data types, the three type
  categories and type sizes.
- **Tokenizer** (`src/tokenizer.h`): turns a file into tokens. It keeps a
  three-byte lookahead, counts lines and columns, skips whitespace and
  comments, takes the longest operator, and reads identifiers, keywords,
  numbers and strings. The result always ends with an end-of-file token.
- **Ast** (`src/ast.h`): the node store. It links children to parents,
  moves nodes and inserts a node between two others. Removed nodes go on a
  free list that creation reuses. It also keeps the function, variable and
  scope tables, does the scoped variable search, and checks a subtree for
  errors.
- **Parser** (`src/parser.h`): a recursive-descent parser over the token
  list. It builds the tree in the store: declarations, functions with
  parameters, statements, and expressions by operator priority. Errors are
  reported through `parser_error`, and a second error on one line ends the
  process.
- **TyperTable** (`src/typer_table.h`): the promotion table. For a binary
  operation and two operand types it gives the result type, the side that
  needs an implicit cast, or an error.
- **Typer** (`src/typer.h`): a post-order walk over the tree. It folds
  constant expressions, types binary and unary expressions, and inserts
  implicit casts. It checks assignments and reports only the first error
  in a subtree.
- **IrString**, **IrDs**, **IrMaths** (`src/irlibs/ir_string.h`,
  `ir_ds.h`, `ir_maths.h`):
  - length-prefixed strings: copy, concatenate, search, compare, and
    `s64_to_string`;
  - dynamic arrays and bucket arrays;
  - the integer helpers.

The model has no memory, files or output. Each module is a set of pure
functions over immutable values:

- the tree is a sequence of nodes indexed by node id;
- a token list is a sequence;
- a process exit is an outcome value (`Exit`, `Exited`);
- a crash on a broken invariant or a trapping operation is an outcome
  value (`Crashed`);
- a loop of the lexer that never ends is an outcome value (`Hangs`);
- the typer's child-removal loop, which never ends when a child's parent
  link disagrees, is reported as `Crashed` (see "## Left out").

C integer types are written out:

- wrap-around is an explicit `%`;
- the 64-bit value of a constant is an `int` within the s64 range;
- folds that go through `double` are tracked exactly only where a double
  holds the integer exactly.

Floating-point values are never tracked: a constant of type F32 or F64
carries the value `Untracked`.

## Model

| member | source | states |
|---|---|---|
| Tokens.OrdInjective | src/tokens.h:63-81 | The data types are numbered in declaration order without repeats: two types have the same number exactly when they are the same type. |
| Tokens.IsUnsigned | src/tokens.h:206-214 | `data_type_is_unsigned` holds exactly for U8, U16, U32, U64, MSI and B8. |
| Tokens.IsSigned | src/tokens.h:216-224 | `data_type_is_signed` holds exactly for S8, S16, S32, S64 and B8. |
| Tokens.Categories | src/tokens.h:206-234 | B8 is the only type that is both signed and unsigned. Every other type from U8 to F64 is in exactly one of the three categories. UNKNOWN, VOID and CUSTOM are in none. |
| Tokens.Size | src/tokens.h:236-258 | `data_type_size` is 8, 16, 32 or 64 bits, each for exactly the types listed there, and 0 exactly for UNKNOWN, VOID and CUSTOM. |
| Tokens.KindOfCode | src/tokens.h:12-61 | Reading a token kind back from its enumerator value yields only kinds that exist. |
| Tokens.CodeRoundTrip | src/tokens.h:12-61 | Every token kind is read back from its own value. Punctuation uses its ASCII code (33 to 127); reserved words and compound operators each have their own range above 1000. |
| Tokens.CodeInjective | src/tokens.h:12-61 | No two token kinds share an enumerator value. |
| Tokens.TokenKindToStr | src/tokens.h:136-204 | The debug name of a kind. TOKEN_GEQ is exactly the kind printed as "!=". TOKEN_NOTEQ and TOKEN_COMBINED fall through to the "not implemented" text. A punctuation kind prints as its character in single quotes. |
| TyperTable.CategoryOf | src/typer_table.h:29-51 | The category flags the table computes: signed exactly when `data_type_is_signed` holds (so B8 is signed), unsigned for the other unsigned types, float for F32/F64, none for UNKNOWN, VOID and CUSTOM. |
| TyperTable.Promote | src/typer_table.h:76-148 | Two different valid types of one operation never give an error here. They hit the invalid case exactly when their categories differ and are not both integer. Otherwise one side is promoted, and the result is the other side's type. |
| TyperTable.BinaryResult | src/typer_table.h:8-223 | `typer_binary_operation_result`. An operand that is unknown or not below VOID gives the error result. Equal valid types give that type with no promotion, or B8 for a comparison. Different types always promote a side. The result is B8 for a comparison, and otherwise the type of the side that is not promoted. |
| TyperTable.ErrorExactly | src/typer_table.h:8-71 | The error result comes exactly from an invalid operand, or from an integer mixed with a floating-point type in either order. |
| TyperTable.CrashExactly | src/typer_table.h:76-223 | `IR_INVALID_CASE` is reached exactly for two different valid types, not an integer/float mix, under an operation outside both case lists. |
| TyperTable.GreaterOnDifferentTypesCrashes | src/typer_table.h:149-221 | `>` is missing from the comparison list. On S32 with S64, or U8 with S8, it reaches the invalid case. On equal types it still gives B8. |
| TyperTable.SameCategoryLargerWins | src/typer_table.h:87-103 | For two types of one category, the larger operand is the result and the other side is promoted, with no warning. On equal sizes the right operand wins. |
| TyperTable.SignedWins | src/typer_table.h:106-141 | A signed operand with an unsigned one gives the signed type, whatever the sizes and in either order. The unsigned side is promoted, with a warning unless the signed type is strictly larger. |
| TyperTable.B8CountsAsSigned | src/typer_table.h:29-51 | B8 takes the signed branch. With U8 or U64 it is the result, with a warning. With S16 the larger S16 wins. |
| TyperTable.ComparisonFollowsArithmetic | src/typer_table.h:149-218 | A listed comparison on differing types is typed exactly when an arithmetic operation is. It promotes the same side, warns in the same cases, and yields B8. |
| TyperTable.SwapMirrors | src/typer_table.h:76-148 | Swapping the operands of an arithmetic operation keeps the result type and the warning and mirrors the promoted side, unless the two types tie in category and size. |
| TyperTable.TieGoesRight | src/typer_table.h:87-103 | On a tie the order decides: U64 with MSI gives MSI, and MSI with U64 gives U64. |
| IrMaths.Wrap32 | src/irlibs/ir_maths.h:40-44 | The 32-bit two's-complement reading of an integer: congruent to it modulo 2^32, and equal to it when it is already in range. |
| IrMaths.Wrap64 | src/irlibs/ir_maths.h:47-51 | The same for 64 bits. |
| IrMaths.S32Abs | src/irlibs/ir_maths.h:40-44 | `s32_abs` gives the magnitude of every value except the minimum, whose negation overflows back to the minimum. |
| IrMaths.S64Abs | src/irlibs/ir_maths.h:47-51 | `s64_abs`: the same for 64 bits. |
| IrMaths.S32Sign | src/irlibs/ir_maths.h:54-58 | `s32_sign` is 1 or -1 and agrees with the sign of the value, with zero counted as positive. |
| IrMaths.U64Max | src/irlibs/ir_maths.h:61-65 | One of the two arguments, and not below either. |
| IrMaths.U64Min | src/irlibs/ir_maths.h:68-72 | One of the two arguments, and not above either. |
| IrMaths.S64Max | src/irlibs/ir_maths.h:75-79 | One of the two arguments, and not below either. |
| IrMaths.S64Min | src/irlibs/ir_maths.h:82-86 | One of the two arguments, and not above either. |
| IrMaths.HigherIsCoveringPow2 | src/irlibs/ir_maths.h:90-103 | For 1 <= v <= 2^63, the bit-smearing result is a power of two and is at least v. |
| IrMaths.HigherHalvesToLower | src/irlibs/ir_maths.h:90-116 | Halving the higher power of two of x + 1 gives the lower power of two of x, for 0 < x < 2^63. So the higher result is the least power of two covering x + 1. |
| IrMaths.HigherWrapsToZero | src/irlibs/ir_maths.h:90-103 | Both ends wrap around: 0 and every value above 2^63 give 0. |
| IrMaths.LowerIsPow2 | src/irlibs/ir_maths.h:106-116 | For a nonzero value the lower result is a power of two. |
| IrMaths.LowerIsAtMost | src/irlibs/ir_maths.h:106-116 | The lower result never exceeds the value. |
| IrMaths.LowerIsTopBit | src/irlibs/ir_maths.h:106-116 | The lower result is above half the value, so it is the greatest power of two not above it. |
| IrMaths.LowerOfZero | src/irlibs/ir_maths.h:106-116 | The lower result of 0 is 0. |
| IrMaths.Swap | src/irlibs/ir_maths.h:130-147 | `TYPE_swap` over a memory of cells: the two cells exchange their values and every other cell keeps its value. This also holds when both pointers are the same. |
| IrString.Substring | src/irlibs/ir_string.h:318-331 | Empty when `begin` is past the end. Otherwise the slice starting at `begin`, at most `length` bytes long and shorter only when it reaches the end. |
| IrString.CmpString | src/irlibs/ir_string.h:143-178 | Whole words compared first, then the remaining bytes: the comparison is true exactly when the two strings are equal. |
| IrString.CopyString | src/irlibs/ir_string.h:182-206 | Succeeds exactly when `from` fits into `to`. Then `from` overwrites the front of `to` and the rest is kept. On failure `to` is unchanged. |
| IrString.CopyStringFrom | src/irlibs/ir_string.h:209-221 | Succeeds exactly when the window `start .. start+length` lies within `from` and `length` fits into `to`. Then the window lands at the front of `to` and the rest is kept; on failure nothing changes. |
| IrString.CopyAtAsWritten | src/irlibs/ir_string.h:224-242 | The five-argument copy as written. It is refused exactly when its guard fails. It writes past the end of `to` exactly when the guard passes but the write window does not fit. Otherwise the read window replaces the write window and nothing else changes. |
| IrString.CopyAtGuardAdmitsOverrun | src/irlibs/ir_string.h:227 | The guard lets through a two-byte write at offset 1 of a two-byte string. |
| IrString.CopyAtGuardRefusesFit | src/irlibs/ir_string.h:227 | The guard refuses a copy whose read and write windows both fit. |
| IrString.CopyStringAt | src/irlibs/ir_string.h:224-242 | The five-argument copy with the guard checking the write window against `to`. It succeeds exactly when both windows fit; then the read window replaces the write window and every other byte of `to` is kept. |
| IrString.ConcatCopyAgrees | src/irlibs/ir_string.h:291-315 | The one call of the five-argument copy, in `concat_string`, passes read offset 0 and a write window ending at the buffer's end, so the as-written copy places `b` after `a` there. |
| IrString.ConcatString | src/irlibs/ir_string.h:291-315 | With room for both parts, the result is `a` followed by `b`; without room, the empty string. |
| IrString.ConcatSplits | src/irlibs/ir_string.h:318-331 | `substring` splits a concatenation back into its two parts. |
| IrString.SearchFirst | src/irlibs/ir_string.h:362-375 | The suffix starting at the first occurrence of `c`, or empty exactly when `c` does not occur. |
| IrString.SearchLast | src/irlibs/ir_string.h:394-408 | The suffix starting at the last occurrence of `c`, or empty exactly when `c` does not occur. |
| IrString.CharClassesDisjoint | src/irlibs/ir_string.h:461-497 | The byte classes never overlap. No byte is both a blank and an end of line. Whitespace is never a letter, a digit, '_' or NUL. A letter is never a digit. So the lexer's dispatch on them is unambiguous. |
| IrString.IsNumber | src/irlibs/ir_string.h:490-497 | True exactly for '0' to '9'. |
| IrString.DigitChar | src/irlibs/ir_string.h:501-517 | For 0 to 9, the digit character of that value; '\0' for anything larger. |
| IrString.DecimalRoundTrip | src/irlibs/ir_string.h:93-140 | The decimal text `s64_to_string` aims at reads back as the number, and starts with '-' exactly for negatives. |
| IrString.ReversedDigitsMirror | src/irlibs/ir_string.h:111-116 | The digits written least significant first are the decimal digits in mirror order. |
| IrString.ReversedDigitsBound | src/irlibs/ir_string.h:111-116 | A number below 10^k has at most k digits, so the 100-byte buffer is never full for a 64-bit value. |
| IrString.CountAsciiz | src/irlibs/ir_string.h:266-272 | The position of the first '\0'. |
| IrString.SwapReverse | src/irlibs/ir_string.h:121-130 | The in-place reversal mirrors the first `length + 1` bytes and keeps the rest. |
| IrString.WriteReversedDigits | src/irlibs/ir_string.h:111-116 | The digit loop writes the digits least significant first into a zeroed 100-byte buffer, at most 19 of them, and leaves the rest zero. |
| IrString.MirrorIsDecimal | src/irlibs/ir_string.h:117-131 | Mirroring the reversed digits, with the sign written last, gives the decimal text. |
| IrString.S64ToString | src/irlibs/ir_string.h:93-140 | The result is the decimal text of the number, so it reads back as the number. |
| IrDs.Push | src/irlibs/ir_ds.h:165-166 | The element is appended, and the earlier elements are kept. |
| IrDs.Last | src/irlibs/ir_ds.h:179 | An element of the array: the last one. |
| IrDs.Pop | src/irlibs/ir_ds.h:167 | The array shortened by one, and the element removed; together they give the array back. |
| IrDs.PopAfterPush | src/irlibs/ir_ds.h:165-179 | Popping undoes pushing, and after a push the last element is the one pushed. |
| IrDs.DelN | src/irlibs/ir_ds.h:92-104 | Deleting `n` elements at `index` keeps the front and moves the elements after the run down by `n`. |
| IrDs.InsertN | src/irlibs/ir_ds.h:107-138 | Inserting a gap of `n` at `index`: inside the array the elements from `index` on move up by `n`. Past the end the array is zero-filled up to `index`. The front is kept. |
| IrDs.DelAfterInsert | src/irlibs/ir_ds.h:92-138 | Deleting the run just inserted gives the array back. |
| IrDs.BaInit | src/irlibs/ir_ds.h:202-242 | A new bucket array is well formed and empty, with the requested bucket size. |
| IrDs.LocateIsDivMod | src/irlibs/ir_ds.h:290-299 | The bucket and slot of an index are its quotient and remainder by the bucket size. |
| IrDs.Locate | src/irlibs/ir_ds.h:290-299 | An index below the capacity of `count` buckets lies in one of them. |
| IrDs.DistinctSlots | src/irlibs/ir_ds.h:290-299 | Two different indices never share a bucket slot. |
| IrDs.BaGet | src/irlibs/ir_ds.h:290-299 | The cell at an index below the capacity exists, and it is the one at the index's bucket and slot. |
| IrDs.BaGetDivMod | src/irlibs/ir_ds.h:290-299 | `BA_GET` reads the cell at the quotient and remainder of the index by the bucket size. |
| IrDs.BaMaybeGrow | src/irlibs/ir_ds.h:264-287 | A bucket is appended exactly when every slot is taken. Afterwards there is room for one more element, and the existing buckets are kept. |
| IrDs.BaSet | src/irlibs/ir_ds.h:307-308 | Writing a cell changes that cell and no other. |
| IrDs.BaPush | src/irlibs/ir_ds.h:307-308 | `BA_PUSH` keeps the array well formed and adds one element. |
| IrDs.BaPushAppends | src/irlibs/ir_ds.h:264-308 | Pushing appends the element and moves no earlier element: each is still read from the same bucket slot. |
| IrDs.GrowKeeps | src/irlibs/ir_ds.h:264-287 | Growing leaves every existing cell in place. |
| Ast.AddChild | src/ast.h:373-386 | No child leaves the tree unchanged. Otherwise the child is appended to the parent's children and records the parent. Those two fields change and every other node is kept. |
| Ast.FirstIndex | src/ast.h:393-400 | The position of the first occurrence, or nothing exactly when the value does not occur. |
| Ast.WithoutFirst | src/ast.h:393-400 | Exactly the first occurrence is removed, and the list is unchanged when there is none. |
| Ast.MoveNode | src/ast.h:389-407 | Moving a node keeps the tree well formed and leaves the scopes, variables, functions, root, free list and error flag alone. |
| Ast.Detach | src/ast.h:391-401 | Without a recorded parent nothing changes. Otherwise only the parent's child list changes, losing the first occurrence of the node. |
| Ast.MoveNodeEffect | src/ast.h:389-407 | With a new parent the node becomes that parent's last child and records it. The old parent loses exactly its first occurrence of the node. Without a new parent the stale parent link stays. |
| Ast.InsertBetween | src/ast.h:410-436 | Inserting keeps the tree well formed and changes only nodes. |
| Ast.InsertBetweenEffect | src/ast.h:417-423 | Inside the child list the new node takes the slot and records the parent. The displaced child is appended below the new node and records it as its parent. Only those three nodes change, and only in those fields. When the displaced child is the parent itself, its parent link becomes the new node. |
| Ast.InsertAtEndAppends | src/ast.h:424-433 | At the end of the child list, or with no children, inserting is `ast_node_add_child`. |
| Ast.CreateNode | src/ast.h:439-456 | With a free list, its head is reused and the list advances. The reused node keeps everything except its token and scope. Without one, a zero node is appended. No other node changes. |
| Ast.RemoveNode | src/ast.h:513-521 | The node is detached from its parent and becomes the free-list head, chained to the old head. Only it and its parent change, and the node's own children stay. |
| Ast.RemoveThenCreateReuses | src/ast.h:439-521 | The free list is last in, first out: the node removed last is the next one created, and the free list is back where it was. |
| Ast.CreateFun | src/ast.h:459-466 | A new function with the token and no parameters is appended; nothing else changes. |
| Ast.CreateVar | src/ast.h:469-478 | A new variable with the token and the scope is appended, and also appended to that scope's variable list. No other scope changes. |
| Ast.CreateScope | src/ast.h:481-488 | A new empty scope under the given parent is appended; nothing else changes. |
| Ast.FindInScope | src/ast.h:497-504 | A variable of the list with that name, the first one in the list, and nothing exactly when no variable of the list has the name. |
| Ast.FirstDeclaring | src/ast.h:495-507 | The first scope on the chain that declares the name, and nothing exactly when none does. |
| Ast.SearchVarSpec | src/ast.h:492-509 | The search walks up from the scope. It finds the first variable of that name in the innermost scope that declares one, and nothing when no enclosing scope does. |
| Ast.SearchFindsLocalFirst | src/ast.h:492-509 | A name declared in the starting scope is found there, and any outer declaration is ignored. |
| Ast.HasErrorInTreeSpec | src/ast.h:351-370 | The search is true exactly when the node or a node below it has its error flag set. |
| Ast.AnyChildHasErrorSpec | src/ast.h:356-367 | The loop over the children is true exactly when some child's subtree holds a flagged node. |
| Tokenizer.Adv1 | src/tokenizer.h:43-88 | One step of `adv_chars`: nothing happens at the end of the file, and otherwise the cursor moves one byte. |
| Tokenizer.AdvN | src/tokenizer.h:43-88 | `adv_chars(count)` moves the cursor `count` bytes, stopping at the end of the file. |
| Tokenizer.CrLfCountsTwice | src/tokenizer.h:56-70 | '\r' and '\n' each start a new line, so "\r\n" counts as two line ends. |
| Tokenizer.SkipLine | src/tokenizer.h:101-108 | A line comment is skipped up to the first end-of-line byte after the cursor. It stops on that byte, and no byte it passed ends a line. Without one the loop never ends (`None`), and that happens exactly when no such byte follows. |
| Tokenizer.SkipBlock | src/tokenizer.h:112-120 | A block comment ends just past the first star-slash pair at or after the cursor, and the cursor moves at least two bytes. The search starts on the opening slash. Without such a pair the loop never ends (`None`), and that happens exactly when none follows. |
| Tokenizer.Skip | src/tokenizer.h:91-124 | When the skipping ends, the cursor is not on whitespace and not at the start of a comment. |
| Tokenizer.IdentRun | src/tokenizer.h:408-413 | The identifier loop consumes the longest run of letters, digits and '_'. |
| Tokenizer.NumberRun | src/tokenizer.h:510-514 | The number loop consumes the longest run of digits that takes a '.' only while none has been seen. The flag records whether one was seen. |
| Tokenizer.NumberRunOneDot | src/tokenizer.h:510-514 | A number holds at most one '.', and none once the flag was already set. |
| Tokenizer.StringBody | src/tokenizer.h:370-389 | The string loop stops on the closing quote or on the end of the file. |
| Tokenizer.ClassifyByTable | src/tokenizer.h:416-497 | The reserved-word chain agrees with a table: a reserved word gets its kind and data type, and anything else stays an identifier. |
| Tokenizer.KeywordNamesLexBack | src/tokenizer.h:416-445 | A keyword's debug name is the word that lexes back to it. |
| Tokenizer.Scan | src/tokenizer.h:132-531 | One round of the lexer loop advances past the end of no file and moves on at least one byte when bytes are left. A token it makes has a valid kind other than end of file. A non-string token's text is exactly the bytes consumed, located at the round's start; a string token is located inside its quotes. |
| Tokenizer.ScanSymbol | src/tokenizer.h:144-358 | A compound operator or a punctuation byte always makes a token spanning the bytes consumed. |
| Tokenizer.ScanOther | src/tokenizer.h:361-531 | String literals, words, numbers and unknown bytes: the same guarantees as one round of the loop. |
| Tokenizer.ScanOperator | src/tokenizer.h:144-322 | A compound operator token of the given kind spans the bytes consumed. |
| Tokenizer.ScanString | src/tokenizer.h:361-400 | A string literal token, located just after its opening quote. |
| Tokenizer.ScanWord | src/tokenizer.h:402-501 | A word becomes an identifier, a basic type or a keyword token spanning the bytes consumed. |
| Tokenizer.ScanNumber | src/tokenizer.h:505-521 | A number token spans the bytes consumed. |
| Tokenizer.LexShape | src/tokenizer.h:132-540 | The loop only appends: a finished run keeps the earlier tokens and ends with exactly one end-of-file token. |
| Tokenizer.TokenizeEndsWithEof | src/tokenizer.h:127-543 | The token list ends with a single end-of-file token, and no other token has that kind. |
| Tokenizer.SkipWithoutSlash | src/tokenizer.h:91-124 | Without a '/' ahead, skipping always ends. |
| Tokenizer.TokenizeWithoutSlashFinishes | src/tokenizer.h:127-543 | A file without '/' always lexes to a token list. |
| Tokenizer.UnclosedCommentsHang | src/tokenizer.h:101-120 | A line comment without an end of line, or a block comment without a closing star-slash, never finishes. |
| Tokenizer.SlashStarSlashIsClosed | src/tokenizer.h:112-120 | The closing search starts on the opening slash, so "/*/" is a complete comment, and the file lexes to the end-of-file token alone. |
| Tokenizer.OperatorLongestMatch | src/tokenizer.h:144-322 | The operator chain matches the longest spelling in the operator table: three bytes over two, and nothing when neither is listed. |
| Tokenizer.NotEqualLexesAsOr | src/tokenizer.h:162-178 | "!=" is given the kind of "||". |
| Tokenizer.ShiftAssignAtStartOfFile | src/tokenizer.h:17-40 | The third lookahead byte is not loaded at creation, so "<<=" at the start of a file lexes as "<<". |
| Tokenizer.ShiftAssignLaterInFile | src/tokenizer.h:261-268 | After the first advance, "<<=" lexes as one token. |
| Tokenizer.ScanTakesLongestOperator | src/tokenizer.h:144-322 | After the first byte, the token made is the longest operator spelling at the cursor, with its table kind and the cursor's position. |
| Tokenizer.ScanPunctuation | src/tokenizer.h:324-358 | A punctuation byte that starts no operator is a one-byte token whose kind has the byte's own code. |
| Tokenizer.ScanIdentifier | src/tokenizer.h:402-501 | An identifier is the longest run of identifier bytes from the cursor. Its kind and data type come from the reserved-word table, or it is an identifier. |
| Tokenizer.ScanNumberLiteral | src/tokenizer.h:505-521 | A number is the longest run of digits from the cursor with at most one '.'. |
| Tokenizer.IdentStartsNoSymbol | src/tokenizer.h:144-358 | No operator and no punctuation byte starts with a letter, a digit or '_', so those branches never steal a word. |
| Tokenizer.ScanSkipsUnknown | src/tokenizer.h:525-531 | Any other byte is consumed without a token. |
| Tokenizer.Adv1Tracks | src/tokenizer.h:43-88 | Each advance keeps the recorded line and column those of the cursor. |
| Tokenizer.SkipTracks | src/tokenizer.h:91-124 | Skipping keeps the recorded line and column those of the cursor. |
| Tokenizer.ScanTracks | src/tokenizer.h:132-531 | Each round keeps the recorded line and column those of the cursor. |
| Tokenizer.TokensAreLocated | src/tokenizer.h:127-543 | Every token records the line and column of the byte it was read at: line 1 plus the line ends before it, column 1 plus the bytes since the last line end. |
| Parser.Next | src/parser.h:72-81 | The position moves to the following token, except on the end-of-file token, where it stays. Nothing else changes. |
| Parser.PeekIndex | src/parser.h:120-128 | The token `i` places away when it exists, otherwise the last token. An offset before the first token also gives the last one, because it is added as an unsigned size. |
| Parser.Error | src/parser.h:93-112 | A second error on the line of the previous one terminates the process. Otherwise the error's line is remembered and nothing else changes. |
| Parser.Accept | src/parser.h:200-215 | When the current token has the kind, it is consumed and its index is returned. Otherwise nothing changes. |
| Parser.Expect | src/parser.h:217-239 | A matching token is consumed as by `accept`. Otherwise an error is reported at the current token, and the tree and scope stay as they were. |
| Parser.Make | src/ast.h:439-456 | With the free list empty, as it always is while parsing, `ast_create_node` appends a zero node with the token, scope and node type set. |
| Parser.Attach | src/ast.h:373-386 | `ast_node_add_child` on the parser's tree; position and error state stay. |
| Parser.Descend | src/parser.h:65-70 | A new scope under the current one is appended and becomes current. |
| Parser.Ascend | src/parser.h:54-63 | The parent of the current scope becomes current, and nothing else changes. |
| Parser.Declare | src/ast.h:469-478 | A variable with the given token, type and name is appended to the store and to the current scope's list. |
| Parser.BinaryOp | src/parser.h:254-276 | The binary operators have priorities from 10 to 100 and map to binary operations only. |
| Parser.BinaryPriorities | src/parser.h:254-276 | Exactly the eighteen listed tokens are binary operators. Each has the priority of its operation's level, and no two tokens stand for the same operation. |
| Parser.UnaryOp | src/parser.h:348-377 | '-', '++', '--', '!' and '~' make the unary operations. |
| Parser.LeadingDigits | src/parser.h:417 | The longest prefix of decimal digits. |
| Parser.StrToLL | src/parser.h:417-422 | `strtoll` base 10 reads something exactly when the text starts with a digit. The value is that of the leading digits, saturated at the largest 64-bit signed value. |
| Parser.NumberConstant | src/parser.h:396-424 | A number text with a point is an F64 constant; any other is an S64 constant whose value is tracked. |
| Parser.Term | src/parser.h:319-456 | `parse_term` only adds nodes, keeps the existing ones and the variables, and moves forward. A term it returns is a new node that is never a unary plus. |
| Parser.TermParen | src/parser.h:328-337 | The '(' branch of `parse_term` only adds nodes and moves past the '('. Its result is a new node that is never a unary plus. |
| Parser.ParenIsInner | src/parser.h:328-337 | A parenthesised term is the inner expression's node and tree, with the position just past the ')'. Without the ')', an error is reported at the token found and then at the '(', and the inner expression is still returned. |
| Parser.TermPlus | src/parser.h:338-347 | The '+' branch of `parse_term` only adds nodes and moves past the '+'. Its result is a new node that is never a unary plus. |
| Parser.PlusIsOperand | src/parser.h:338-347 | A unary '+' makes no node of its own: when a term follows, the result is exactly that term's node and state. Without one, the error is at the '+' token. |
| Parser.TermUnary | src/parser.h:348-377 | A unary operator makes an expression node of that operation, created before its operand and holding it. |
| Parser.CastHead | src/parser.h:378-395 | `cast(T)` makes a cast node for the `cast` token with no children yet. |
| Parser.TermCast | src/parser.h:378-395 | `cast(T) term` makes a cast node with at most one child, the operand. |
| Parser.TermNumber | src/parser.h:396-424 | A number token makes a constant node holding the constant its text denotes. |
| Parser.TermVar | src/parser.h:425-438 | An identifier makes a variable node bound to what the scope search finds from the current scope. |
| Parser.Expression | src/parser.h:242-317 | `parse_expr` returns a new node and ends on a token that is no operator or one whose priority is not above the floor. This is precedence climbing: an operator binds tighter than every operator below it. |
| Parser.BinaryStep | src/parser.h:280-301 | One round of the loop: a node for the operator whose first child is the left expression. With a right operand, the round ends where that operand's own higher-priority loop stopped. |
| Parser.ExprLoop | src/parser.h:247-313 | The loop keeps taking operators while their priority is above the floor. It returns the left expression untouched when the first token already stops it. |
| Parser.PeekPatternStarts | src/parser.h:159-176 | For a pattern without the end-of-file kind, `peek_pattern` holds exactly when the tokens from the current one on have those kinds. |
| Parser.ReturnStatement | src/parser.h:627-641 | Without `return` nothing is read. Otherwise a return node for the `return` token is made, with at most one child. |
| Parser.VarDeclaration | src/parser.h:460-504 | Without a type and a name nothing is read. Otherwise a declaration node for the name token is bound to a new variable of that type, name and scope. The result is that node, or an assignment node whose first child it is. The variable is created after the initializer, so no node of the initializer refers to it. |
| Parser.VarInit | src/parser.h:474-494 | After the name, `= e ;` makes an assignment node over the declaration and `e`; otherwise `;` is required. |
| Parser.AssignOpMatchesBinary | src/parser.h:513-573 | The assignment operators are '=' and the compound ones. Each compound operator stands for the operation its base token has in expressions. |
| Parser.Assignment | src/parser.h:506-625 | `x = e;` gives an assignment node whose first child is the target. `x op= e;` gives an assignment node over a second variable node for the same variable and an `op` node whose first child is the target. The target is bound by the scope search. |
| Parser.AssignTarget | src/parser.h:575-583 | A variable node for the identifier, bound by the scope search, with the position on the assignment token. |
| Parser.AssignValue | src/parser.h:585-592 | The value after the assignment token is a new node when present. |
| Parser.CompoundAssign | src/parser.h:594-609 | A second variable node for the target and an assignment node over it and the operator node. |
| Parser.IfCondition | src/parser.h:645-663 | The if node for the `if` token, created before the condition and holding it. |
| Parser.IfStatement | src/parser.h:645-681 | Without `if` nothing is read. Otherwise an if node for the `if` token with at most three children: the condition, the statement and an else node. |
| Parser.IfBranches | src/parser.h:655-676 | The statement and the optional else part add at most two children to the if node, which keeps its other fields. |
| Parser.ElsePart | src/parser.h:664-676 | Without `else` nothing is read; otherwise at most one child, the else node, is added. |
| Parser.ElseNode | src/parser.h:664-676 | `else s` makes an else node. |
| Parser.BlockStatement | src/parser.h:694-700 | Without '{' nothing is read. Otherwise a new scope under the current one is made, and the statements inside are a sequence in that scope. |
| Parser.Statement | src/parser.h:683-704 | A statement only adds nodes, keeps the existing ones and moves forward. A block makes a new scope under the current one, holding its statement sequence. |
| Parser.StatementSeq | src/parser.h:706-726 | A sequence node in the current scope, holding the statements. |
| Parser.SeqLoop | src/parser.h:719-722 | Each further statement is added to the sequence node, which keeps its other fields. |
| Parser.FunctionOpen | src/parser.h:734-743 | A function record for the token two places back, with its own scope under the current one, and a function node in the current scope. The new scope becomes current. |
| Parser.Param | src/parser.h:748-754 | A type and a name make a new variable of the current scope with that type and name. |
| Parser.MoreParams | src/parser.h:756-764 | Each `, T x` adds a new variable; without ',' nothing is read. |
| Parser.ParamList | src/parser.h:746-766 | Directly after '(' a ')' gives no parameters. Otherwise the parameters are new variables of the current scope. |
| Parser.FunctionBody | src/parser.h:767-773 | The body adds at most one child to the function node: a statement sequence in the function's scope. |
| Parser.WithParams | src/parser.h:754 | The parameters are recorded on the function, and nothing else changes. |
| Parser.FunctionRest | src/parser.h:746-773 | The parameters and the body of an opened function make up a function definition. |
| Parser.FunctionDef | src/parser.h:728-776 | A function record with the head's return type, name and name token is appended. Its node has that function, the current scope and the name token. Its scope lies under the current one, and its parameters are consecutive new variables of that scope. The body, if any, is a statement sequence of that scope. |
| Parser.TopDeclaration | src/parser.h:788-806 | Without a type and a name nothing is read. Otherwise the result is a new function, declaration or assignment node. |
| Parser.AddTop | src/parser.h:793-802 | A new top-level declaration is added to the program node. |
| Parser.BlockLoop | src/parser.h:785-811 | The loop adds only top-level declarations to the program node. It stops at the end of the file or where no declaration starts. |
| Parser.Block | src/parser.h:778-812 | `block` makes a program node for the first token the root, holding only top-level declarations. It stops at the end of the file or where no declaration starts. Without a declaration at the start, the program node is the only new node and nothing is read. |
| Parser.Init | src/parser.h:141-156 | The first token, no error yet, and a store holding only the global scope, which is current. |
| Parser.Parse | src/parser.h:814-826 | A returned tree is well formed, with a parentless program root holding top-level declarations, in a global scope 0 that has no parent. |
| Parser.ParseIgnoresNonDeclarations | src/parser.h:778-826 | A token list that does not start with a declaration parses without error to the program node alone. |
| Typer.TyperError | src/typer.h:38-60 | The tree is marked as having an error, and so is the node; no other node changes. The node is added to the reported errors, or they stay as they were. |
| Typer.ReportsOnlyFirstError | src/typer.h:38-60 | `typer_error` reports the node exactly when nothing reachable from it had an error already. Otherwise the report list is left alone. |
| Typer.ErrorSilencesEnclosing | src/typer.h:38-60 | Once a node has an error, a later error on a node above it is not reported again. |
| Typer.CastConst | src/typer.h:80-110 | A cast to VOID or to a non-number type is an error on the constant and leaves its value as it was. Any other target becomes the constant's type, and nothing is reported. Other nodes never change. |
| Typer.CastKeepsInRange | src/typer.h:80-110 | An exact integer constant that lies in the target's range keeps its value under the cast; for an unsigned target, a non-negative one does. |
| Typer.CastToU8TakesMagnitude | src/typer.h:85-93 | Through the signed `char` behind `u8`, -5 cast to U8 becomes 5 and 128 has no defined value. -5 stays -5 for S8, and 70000 is out of range for U16. |
| Typer.FloatCastsUntracked | src/typer.h:94-95 | A cast to or from a floating-point type leaves the value untracked, because doubles are not modelled. |
| Typer.RemoveLast | src/typer.h:281-285 | One pass of the removal loop frees the last child. That child heads the free list and is dropped from the children; every other node is kept. |
| Typer.RemoveChildren | src/typer.h:281-285 | When the removal loop finishes, the node has no children left and the store is still well formed. |
| Typer.RemovalFrame | src/typer.h:281-285 | The removal loop changes no node other than the expression node and its children. |
| Typer.FreedInOrder | src/typer.h:281-285 | The children are freed last to first. The free list then runs through them in order, first child first, and continues into the old free list. |
| Typer.Finish | src/typer.h:281-285 | After a fold the expression node has no children, and no error is reported. |
| Typer.FoldCast | src/typer.h:119-127 | A folded cast becomes a constant node without children whose type is the cast's result type. |
| Typer.FoldOperation | src/typer.h:128-286 | A folded operation becomes a constant node without children, and no error is reported. |
| Typer.ApplyFold | src/typer.h:128-286 | Storing a fold's result makes the node a childless constant without reporting anything. |
| Typer.ConstExpr | src/typer.h:112-286 | A floating-point operand of '%', shifts or bitwise operations is an error. The node keeps its kind and gets an F64 constant type. In every other case the node becomes a childless constant. |
| Typer.RetagKeepsLinked | src/typer.h:112-127 | Retyping a node's constant keeps the parent links between that node and its children. |
| Typer.FoldStoresResult | src/typer.h:128-286 | A foldable operation is replaced by its folded constant, and nothing is reported. Its children are freed in order onto the free list, and every other node is kept. |
| Typer.FoldCastStores | src/typer.h:112-127 | A folded cast becomes a constant of the cast's type holding the converted value. A non-number target also marks an error, and the operand is freed. |
| Typer.FoldsExactArithmetic | src/typer.h:144-173 | For integer operands within 2^53, '+', '-' and '*' give the exact result while it stays within 2^53. '/' gives the quotient truncated toward zero when it is exact or the dividend is within 2^52. |
| Typer.DivisionTruncates | src/typer.h:168-173 | 7/2 folds to 3 and -7/2 to -3, as the truncating cast of the double quotient does. A zero divisor leaves the value untracked. |
| Typer.DoublesLoseLargeValues | src/typer.h:144-167 | Beyond 2^53 the double arithmetic does not keep the integer result, so the model does not track it. |
| Typer.FoldsComparisons | src/typer.h:194-235 | The six comparisons of integer operands within 2^53 fold to 1 or 0 by the integer comparison. |
| Typer.FoldsLogic | src/typer.h:180-193 | '\|\|' and '&&' fold to 1 or 0 by whether the operands are non-zero. |
| Typer.FloatFoldsUntracked | src/typer.h:128-143 | With a floating-point operand, the arithmetic and comparison folds give an F64 result (S64 for comparisons) whose value is untracked. |
| Typer.RemTruncates | src/typer.h:174 | The C remainder has the dividend's sign and is smaller in size than the divisor. With the truncated quotient it rebuilds the dividend. |
| Typer.FoldsIntegerOperations | src/typer.h:174-176 | '%' traps exactly on a zero divisor or on the minimum divided by -1, and otherwise gives the C remainder. Shifts by 0 to 63 give the floor quotient by 2^y, or the product when it fits. |
| Typer.FoldsUnary | src/typer.h:236-266 | Negation, '++', '--', '!' and '~' on an integer constant give -x, x+1, x-1, (x == 0) and -x-1. The increments also update the operand. |
| Typer.BitwiseCommutes | src/typer.h:177-179 | '&', '\|' and '^' on the low n bits do not depend on the operand order. |
| Typer.BitwiseSelf | src/typer.h:177-179 | x&x and x\|x are x's low bits, and x^x is 0. |
| Typer.XorAllOnes | src/typer.h:177-179 | x ^ -1 flips each of the low n bits. |
| Typer.OrPlusAnd | src/typer.h:177-179 | (x\|y) + (x&y) equals x + y on the low n bits. |
| Typer.BitwiseFold | src/typer.h:177-179 | Folding '&', '\|' or '^' of two s64 constants gives the two's complement bitwise result. |
| Typer.BitwiseRange | src/typer.h:177-179 | A bitwise result on n bits lies between 0 and 2^n - 1. |
| Typer.LowWord | src/typer.h:177-179 | An s64 value read as 64 bits is its two's complement word. |
| Typer.BitwiseLaws | src/typer.h:177-179 | On s64 values, '&', '\|' and '^' commute and stay within s64. x&x = x\|x = x, x^x = 0, x ^ -1 = ~x, and x\|y + x&y = x + y modulo 2^64. |
| Typer.OrAndWord | src/typer.h:177-179 | (x\|y) + (x&y) - x - y is a multiple of 2^64 for s64 values. |
| Typer.InsertCast | src/typer.h:365-379 | Placing an implicit cast reports nothing and leaves the error flag as it was. |
| Typer.CastPlacement | src/ast.h:410-436 | `ast_insert_between` puts a new cast node in place of the chosen child and links it to that child, under the given scope and token. The parent's operation is kept, and every node other than the parent, the cast and the displaced child is unchanged. |
| Typer.BinaryTyped | src/typer.h:353-383 | Typing a binary operation keeps the state growing. |
| Typer.PromoteSide | src/typer.h:363-380 | Promoting one side adds an implicit cast and reports nothing. |
| Typer.TyperExpr | src/typer.h:289-443 | `typer_expr` only grows the state or ends in a crash. |
| Typer.BinaryDispatch | src/typer.h:294-383 | A binary operation whose operands are not both constants is typed by the promotion table on the two operand types. |
| Typer.PromotesWithImplicitCast | src/typer.h:353-383 | When the table gives a result type, the node takes it. The side the table names gets an implicit cast to the other side's type, and nothing is reported. |
| Typer.BinaryTypedPlacesCast | src/typer.h:353-383 | With no side to promote, only the result type changes. Otherwise that side's child is replaced by a cast node holding it. |
| Typer.PromotedSide | src/typer.h:363-380 | No side leaves the state unchanged. The left side is cast to the right type and the right side to the left type, in place of that child. |
| Typer.TypeErrorLeavesUnknown | src/typer.h:353-362 | A type mismatch marks an error and leaves the result type UNKNOWN. |
| Typer.ExprErrorDispatch | src/typer.h:289-443 | A binary operation without two children, a unary operation or cast without one child, or an unknown operation is an error. |
| Typer.ArityErrors | src/typer.h:313-316 | In those cases only the node's error mark changes. |
| Typer.UnaryTakesOperandType | src/typer.h:384-435 | A unary operation takes its operand's type and a cast keeps its own, and nothing is reported. |
| Typer.AssignCheck | src/typer.h:486-543 | The assignment check only grows the state. |
| Typer.Assign | src/typer.h:462-545 | An assignment whose target has no type crashes, as the null dereference does. Otherwise it only grows the state. |
| Typer.AssignDispatch | src/typer.h:462-545 | An assignment with typed target and source is decided by the two types. |
| Typer.AssignRejectsIntFloatMix | src/typer.h:513-530 | Assigning an integer to a float, or a float to an integer, is an error, and only the node's mark changes. |
| Typer.AssignCastsWithinCategory | src/typer.h:531-542 | Two different types of the same category get an implicit cast to the target type on the right side, and nothing is reported. |
| Typer.CastOnRightSide | src/typer.h:531-542 | That cast sits between the assignment and its old right child, with the assignment's scope and token. |
| Typer.SameCategoryCasts | src/typer.h:531-542 | Within one category the check is exactly the insertion of the cast. |
| Typer.AssignLeavesOtherMixes | src/typer.h:486-543 | Signed with unsigned, and types outside the categories, pass unchanged. |
| Typer.AssignConvertsConstant | src/typer.h:474-482 | A constant on the right is converted to the target's type in place, unless it already has that type. Nothing is reported. |
| Typer.MatchingConstantPasses | src/typer.h:474-482 | A constant of the target's type passes without change. |
| Typer.Visit | src/typer.h:455-552 | Only expression and assignment nodes are visited with an effect; every other kind passes unchanged. |
| Typer.DepthFirst | src/typer.h:445-553 | The walk never exits the process by itself and only grows the state. |
| Typer.Children | src/typer.h:447-453 | Walking the children only grows the state. |
| Typer.WalkEach | src/typer.h:447-453 | Walking a list of subtrees one after another only grows the state. |
| Typer.ChildrenWalkEach | src/typer.h:447-453 | While the children stay in place, the loop over them walks each subtree in turn. |
| Typer.WalksChildrenInOrder | src/typer.h:445-553 | A node is visited after each of its children's subtrees, in order. This holds for any number of children. |
| Typer.WalksChildrenFirst | src/typer.h:445-553 | For two children: the left subtree is walked, then the right, then the node. |
| Typer.LeafPassesUnchanged | src/typer.h:445-553 | A leaf that is not an expression or an assignment passes unchanged. |
| Typer.WalkFolds | src/typer.h:445-553 | An expression with two constant leaves is folded when visited. |
| Typer.ConstantOperandsFold | src/typer.h:294-301 | Visiting an expression whose operands are all constants folds it. |
| Typer.TypeTree | src/typer.h:555-562 | Typing succeeds only on a tree without errors, with nothing reported. A tree that already had an error never succeeds, and one that gains an error exits. |
| Typer.WalkWithoutErrorRuns | src/typer.h:555-562 | A walk from the root that ends without error is the typer's result. |
| Typer.SumFoldValue | src/typer.h:144-153 | For i + j with i and j small, the fold gives the S64 constant i + j. |
| Typer.SumFolds | src/typer.h:112-286 | The sum node becomes that constant, and its two operands go onto the free list. The assignment and variable nodes are kept. |
| Typer.TypesConstantSum | src/typer.h:445-553 | Walking `a = i + j;` folds the sum in place without reporting anything. |

## Left out

- Typer.BinaryValue: `+`, `-`, `*` and the ordering comparisons are computed through `double` (typer.h:144-235). A value is tracked only while the operands and the result stay within 2^53, where the double is exact. Beyond that the value is `Untracked`, because double rounding is not modelled.
- Typer.BinaryValue: `/` is tracked only when the divisor divides the dividend exactly, or when the dividend is within 2^52. In those cases the truncated double quotient is provably the integer quotient truncated toward zero. Other quotients, and a zero divisor (an undefined conversion of an infinity), are `Untracked`.
- Typer.CastConst: a value that `typer_cast_const` converts from a double outside the target's range (an undefined conversion in C) is `Untracked`. Floating-point targets and sources are `Untracked` too.
- Typer.DepthFirst: the recursion of `typer_depth_first` carries a fuel bound and an `OutOfFuel` outcome. The model does not prove that the tree the parser builds is acyclic.
- Typer.TypeTree: `typer` starts the walk with fuel equal to the number of nodes plus one. That is enough for any acyclic tree, but the contract says nothing about the `OutOfFuel` outcome.
- Ast.HasErrorInTree: the recursion of `ast_node_has_error_in_tree` carries a fuel bound, set to the number of nodes by its callers.
- Typer.WalksChildrenInOrder: proved for walks that leave the node's child list unchanged. That holds in `typer_depth_first`, where only a node's own visit removes or replaces its children.
- IrString.S64ToString: requires the number not to be the 64-bit minimum. Negating it in `s64_to_string` overflows, which C leaves undefined.
- Tokenizer.Tokenize: `//` at the end of the file, and an unclosed `/*`, make the skipping loops of `tokenize` run forever. The model gives the result `Hangs` for them instead of a token list.
- Typer.RemoveLast: in `typer_const_expr` the loop that removes the children never ends when the last child's parent link is not the node, because `ast_remove_node` then does not shorten the node's child list. The model gives `None` there, and the fold reports `Crashed` instead of a hang.
- IrDs.Last: requires a non-empty array, because `ARR_LAST` reads element `length - 1` without checking.
- IrDs.Pop: requires a non-empty array, because `ARR_POP` decrements the length without checking.
- Parser.Parse: the contract states the shape of the tree when parsing succeeds. It does not characterise which token lists make `parse` exit.
- Parser.FunctionDef: requires the three-token head that `block` has already matched with `peek_pattern` before calling `parse_function_def`. The head's `expect` calls therefore cannot fail, and their error paths are not modelled.
- Parser.Make: requires an empty free list. Nothing is removed while parsing, so `ast_create_node` always appends.
- `token_combine` (typer.h:26-36, called when folding and typing) only widens a token's text span for error messages, so it is not modelled.
- `typer_warning`, the text of error messages, and all printing to `stderr` are not modelled. An error is a mark on the node, in the report list or in the parser's error line.
- `jmp_next_line`, `prev_token`, `get_text_from_token_to_token` and the `line_text` field of tokens are not modelled. They only serve diagnostics and `token_combine`.
- Memory arenas, `malloc`/`realloc`, allocation failure and array capacities (`arr_growth_helper`) are not modelled. Arrays are sequences that always have room.
- `strtod` and all floating-point arithmetic are not modelled, so float values are `Untracked`.
- `intr_bsr`, `log2` and the floating-point helpers of `ir_maths.h` are not modelled. Only the integer helpers are.
- The NUL-terminated (asciiz) string helpers of `ir_string.h`, and `cmp_string_first_n_chars`, are not modelled. The only exception is the terminator count that `s64_to_string` uses.
- The `union` overlay of a node's expression, constant and variable data is not modelled. Each kind has its own field.
- `IR_ASSERT` conditions that the parser always establishes are preconditions. Those that can fail on a malformed tree become the `Crashed` outcome.

## Findings

| source | as written | input that shows it | evidently intended | confidence | as-written member | corrected member |
|---|---|---|---|---|---|---|
| src/irlibs/ir_string.h:224-242 | the five-argument `copy_string` checks `start_read + length` against both `from.length` and `to.length`, and never checks `start_write + length` | ("ab", "xy", 0, 1, 2) passes the guard and writes past the end of `to`; ("abcdefg", "xyz", 5, 0, 2) is refused although it fits | `start_read + length <= from.length && start_write + length <= to.length` | not executed | IrString.CopyAtAsWritten | IrString.CopyStringAt |
