/** The lexer: turns the bytes of a source file into tokens, ending with a
    single end-of-file token.

    `Tokenizer` keeps a three-byte lookahead window `n`. After any advance
    the window holds the bytes at the cursor and the two after it, with 0
    past the end of the file (the read one past the end is modelled as a 0
    sentinel). Before the first advance the third byte is still the 0 the
    tokenizer was initialised with. */
module Tokenizer {
  import opened Wrappers
  import opened IrString
  import opened Tokens

  /** Cursor, 1-based line and column. */
  datatype Lexer = Lexer(cur: nat, line: nat, column: nat)

  /** `create_tokenizer` */
  const Start: Lexer := Lexer(0, 1, 1)

  function At(file: string, i: nat): (c: char)
    ensures i >= |file| ==> c == '\0'
  {
    if i < |file| then file[i] else '\0'
  }

  function N0(file: string, st: Lexer): char { At(file, st.cur) }

  function N1(file: string, st: Lexer): char { At(file, st.cur + 1) }

  /** The third lookahead byte: never loaded before the first advance. */
  function N2(file: string, st: Lexer): char
  {
    if st.cur == 0 then '\0' else At(file, st.cur + 2)
  }

  /** Number of end-of-line bytes in `s`. */
  function CountEol(s: string): nat
  {
    if s == [] then 0 else CountEol(s[..|s| - 1]) + (if IsEndOfLine(s[|s| - 1]) then 1 else 0)
  }

  /** The column of the byte at `p`: 1 at the start of the file and after
      an end-of-line byte, otherwise one more than the byte before. */
  function ColumnAt(file: string, p: nat): nat
    requires p <= |file|
  {
    if p == 0 then 1 else if IsEndOfLine(file[p - 1]) then 1 else ColumnAt(file, p - 1) + 1
  }

  /** The line and column held in `st` are those of its cursor: one line
      per end-of-line byte before it. */
  predicate Tracks(file: string, st: Lexer)
  {
    && st.cur <= |file|
    && st.line == 1 + CountEol(file[..st.cur])
    && st.column == ColumnAt(file, st.cur)
  }

  /** One step of `adv_chars`: nothing at the end of the file; otherwise
      the column grows, and an end-of-line byte moves to column 1 of the
      next line. */
  function Adv1(file: string, st: Lexer): (r: Lexer)
    ensures st.cur >= |file| ==> r == st
    ensures st.cur < |file| ==> r.cur == st.cur + 1
  {
    if st.cur >= |file| then st
    else if IsEndOfLine(file[st.cur]) then Lexer(st.cur + 1, st.line + 1, 1)
    else Lexer(st.cur + 1, st.line, st.column + 1)
  }

  /** `adv_chars(t, count)` */
  function AdvN(file: string, st: Lexer, count: nat): (r: Lexer)
    ensures r.cur == if st.cur + count <= |file| then st.cur + count else if st.cur <= |file| then |file| else st.cur
    decreases count
  {
    if count == 0 then st else AdvN(file, Adv1(file, st), count - 1)
  }

  /** '\r' and '\n' each end a line, so a "\r\n" pair counts twice. */
  lemma CrLfCountsTwice()
    ensures CountEol("\r\n") == 2
  {
    assert "\r\n"[..1] == "\r";
    assert "\r"[..0] == [];
  }

  /** The inner loop skipping a line comment: up to the next end-of-line
      byte. Without one `skip` loops for ever, here `None`. */
  function SkipLine(file: string, st: Lexer): (r: Option<Lexer>)
    requires st.cur <= |file|
    ensures r.Some? ==> r.value.cur <= |file|
    ensures r.Some? ==> r.value.cur >= st.cur && IsEndOfLine(N0(file, r.value))
    ensures r.Some? ==> forall i :: st.cur <= i < r.value.cur ==> !IsEndOfLine(file[i])
    ensures r.None? ==> forall i :: st.cur <= i < |file| ==> !IsEndOfLine(file[i])
    decreases |file| - st.cur
  {
    if IsEndOfLine(N0(file, st)) then Some(st)
    else if st.cur >= |file| then None
    else SkipLine(file, Adv1(file, st))
  }

  /** A star and a slash, the end of a block comment, at `p`. */
  predicate CloseAt(file: string, p: nat)
  {
    p + 1 < |file| && file[p] == '*' && file[p + 1] == '/'
  }

  /** The inner loop skipping a block comment: advances until the window
      shows a star followed by a slash, then steps over those two bytes. The
      search starts at the opening slash, so a slash, star, slash sequence is
      already a closed comment. Unclosed, `skip` loops for ever, here
      `None`. */
  function SkipBlock(file: string, st: Lexer): (r: Option<Lexer>)
    requires st.cur <= |file|
    ensures r.Some? ==> r.value.cur <= |file|
    ensures r.Some? ==> r.value.cur >= st.cur + 2 && CloseAt(file, r.value.cur - 2)
    ensures r.Some? ==> forall q :: st.cur <= q < r.value.cur - 2 ==> !CloseAt(file, q)
    ensures r.None? ==> forall q :: st.cur <= q ==> !CloseAt(file, q)
    decreases |file| - st.cur
  {
    if N0(file, st) == '*' && N1(file, st) == '/' then Some(AdvN(file, st, 2))
    else if st.cur >= |file| then None
    else SkipBlock(file, Adv1(file, st))
  }

  /** `skip_whitespace_and_comments` */
  function Skip(file: string, st: Lexer): (r: Option<Lexer>)
    requires st.cur <= |file|
    ensures r.Some? ==> r.value.cur <= |file|
    ensures r.Some? ==> r.value.cur >= st.cur
    ensures r.Some? ==> !IsWhitespace(N0(file, r.value))
    ensures r.Some? ==> !(N0(file, r.value) == '/' && N1(file, r.value) in "/*")
    decreases |file| - st.cur
  {
    var c := N0(file, st);
    if IsWhitespace(c) || IsEndOfLine(c) then Skip(file, Adv1(file, st))
    else if c == '/' && N1(file, st) == '/' then
      match SkipLine(file, st)
      case None => None
      case Some(s1) => Skip(file, s1)
    else if c == '/' && N1(file, st) == '*' then
      match SkipBlock(file, st)
      case None => None
      case Some(s1) => Skip(file, s1)
    else Some(st)
  }

  /** The chain of compound-operator tests, in the order `tokenize` makes them: the operator
      and its length, if the window starts with one. "!=" yields the kind of
      "||". */
  function Operator(n0: char, n1: char, n2: char): Option<(Compound, nat)>
  {
    if n0 == '=' && n1 == '=' then Some((DEq, 2))
    else if n0 == '&' && n1 == '&' then Some((And, 2))
    else if n0 == '|' && n1 == '|' then Some((Or, 2))
    else if n0 == '!' && n1 == '=' then Some((Or, 2))
    else if n0 == '<' && n1 == '=' then Some((LEq, 2))
    else if n0 == '>' && n1 == '=' then Some((GEq, 2))
    else if n0 == '+' && n1 == '+' then Some((DPlus, 2))
    else if n0 == '-' && n1 == '-' then Some((DMinus, 2))
    else if n0 == '+' && n1 == '=' then Some((PlusEq, 2))
    else if n0 == '-' && n1 == '=' then Some((MinusEq, 2))
    else if n0 == '*' && n1 == '=' then Some((MulEq, 2))
    else if n0 == '/' && n1 == '=' then Some((DivEq, 2))
    else if n0 == '%' && n1 == '=' then Some((ModEq, 2))
    else if n0 == '<' && n1 == '<' && n2 == '=' then Some((ShiftLEq, 3))
    else if n0 == '>' && n1 == '>' && n2 == '=' then Some((ShiftREq, 3))
    else if n0 == '&' && n1 == '=' then Some((AndEq, 2))
    else if n0 == '^' && n1 == '=' then Some((XorEq, 2))
    else if n0 == '|' && n1 == '=' then Some((OrEq, 2))
    else if n0 == '<' && n1 == '<' then Some((ShiftL, 2))
    else if n0 == '>' && n1 == '>' then Some((ShiftR, 2))
    else None
  }

  predicate IsIdentChar(c: char)
  {
    IsAlpha(c) || IsNumber(c) || c == '_'
  }

  /** The identifier loop: consumes identifier bytes, counting them. */
  function IdentRun(file: string, st: Lexer, len: nat): (r: (nat, Lexer))
    requires st.cur <= |file|
    ensures r.0 >= len && r.1.cur == st.cur + (r.0 - len) <= |file|
    ensures forall i :: st.cur <= i < r.1.cur ==> IsIdentChar(file[i])
    ensures !IsIdentChar(N0(file, r.1))
    decreases |file| - st.cur
  {
    if IsIdentChar(N0(file, st)) then IdentRun(file, Adv1(file, st), len + 1)
    else (len, st)
  }

  /** The number loop: digits, and a '.' as long as none has been seen;
      the flag says whether one has. */
  function NumberRun(file: string, st: Lexer, len: nat, isFloat: bool): (r: (nat, Lexer, bool))
    requires st.cur <= |file|
    ensures r.0 >= len && r.1.cur == st.cur + (r.0 - len) <= |file|
    ensures forall i :: st.cur <= i < r.1.cur ==> IsNumber(file[i]) || file[i] == '.'
    ensures !IsNumber(N0(file, r.1)) && (r.2 || N0(file, r.1) != '.')
    ensures r.2 <==> isFloat || '.' in file[st.cur..r.1.cur]
    decreases |file| - st.cur
  {
    var c := N0(file, st);
    if IsNumber(c) || (!isFloat && c == '.') then
      assert st.cur < |file| && c == file[st.cur];
      var nx := Adv1(file, st);
      assert nx.cur == st.cur + 1;
      var r := NumberRun(file, nx, len + 1, isFloat || c == '.');
      assert file[st.cur..r.1.cur] == [c] + file[nx.cur..r.1.cur];
      r
    else (len, st, isFloat)
  }

  /** Once a '.' has been seen no other is taken, so a number holds at most
      one. */
  lemma {:induction false} NumberRunOneDot(file: string, st: Lexer, len: nat, isFloat: bool)
    requires st.cur <= |file|
    ensures var r := NumberRun(file, st, len, isFloat);
      isFloat ==> forall i :: st.cur <= i < r.1.cur ==> file[i] != '.'
    ensures var r := NumberRun(file, st, len, isFloat);
      forall i, j :: st.cur <= i < j < r.1.cur && file[i] == '.' ==> file[j] != '.'
    decreases |file| - st.cur
  {
    var c := N0(file, st);
    if IsNumber(c) || (!isFloat && c == '.') {
      var nx := Adv1(file, st);
      NumberRunOneDot(file, nx, len + 1, isFloat || c == '.');
      assert nx.cur == st.cur + 1 && c == file[st.cur];
    }
  }

  /** The string-literal loop, as written: `\"` steps over both bytes and
      then copies the two bytes after them (which are copied again by the
      next rounds); `\n` becomes a line feed; anything else is copied. It
      stops at '"' or at a 0 byte. */
  function StringBody(file: string, st: Lexer, acc: string): (r: (string, Lexer))
    requires 0 < st.cur <= |file|
    ensures st.cur <= r.1.cur <= |file|
    ensures N0(file, r.1) == '"' || N0(file, r.1) == '\0'
    decreases |file| - st.cur
  {
    var c := N0(file, st);
    if c == '"' || c == '\0' then (acc, st)
    else if c == '\\' && N1(file, st) == '"' then
      var s2 := AdvN(file, st, 2);
      StringBody(file, s2, acc + [N0(file, s2), N1(file, s2)])
    else if c == '\\' && N1(file, st) == 'n' then
      StringBody(file, AdvN(file, st, 2), acc + ['\n'])
    else
      StringBody(file, Adv1(file, st), acc + [c])
  }

  /** Keyword and basic-type names, tested in the order `tokenize` tests them after an
      identifier has been read. */
  function Classify(text: string): (TokenKind, DataType)
  {
    if text == "fn" then (Kw(Fn), Unknown)
    else if text == "return" then (Kw(Return), Unknown)
    else if text == "if" then (Kw(If), Unknown)
    else if text == "else" then (Kw(Else), Unknown)
    else if text == "for" then (Kw(For), Unknown)
    else if text == "while" then (Kw(While), Unknown)
    else if text == "break" then (Kw(Break), Unknown)
    else if text == "continue" then (Kw(Continue), Unknown)
    else if text == "struct" then (Kw(Struct), Unknown)
    else if text == "cast" then (Kw(Cast), Unknown)
    else if text == "s8" then (BasicType, S8)
    else if text == "s16" then (BasicType, S16)
    else if text == "s32" then (BasicType, S32)
    else if text == "s64" then (BasicType, S64)
    else if text == "u8" then (BasicType, U8)
    else if text == "u16" then (BasicType, U16)
    else if text == "u32" then (BasicType, U32)
    else if text == "u64" then (BasicType, U64)
    else if text == "msi" then (BasicType, Msi)
    else if text == "f32" then (BasicType, F32)
    else if text == "f64" then (BasicType, F64)
    else if text == "b8" then (BasicType, B8)
    else if text == "void" then (BasicType, Void)
    else (Id, Unknown)
  }

  /** The reserved words as one table. */
  const ReservedWords: map<string, (TokenKind, DataType)> := map[
    "fn" := (Kw(Fn), Unknown), "return" := (Kw(Return), Unknown), "if" := (Kw(If), Unknown),
    "else" := (Kw(Else), Unknown), "for" := (Kw(For), Unknown), "while" := (Kw(While), Unknown),
    "break" := (Kw(Break), Unknown), "continue" := (Kw(Continue), Unknown),
    "struct" := (Kw(Struct), Unknown), "cast" := (Kw(Cast), Unknown),
    "s8" := (BasicType, S8), "s16" := (BasicType, S16), "s32" := (BasicType, S32), "s64" := (BasicType, S64),
    "u8" := (BasicType, U8), "u16" := (BasicType, U16), "u32" := (BasicType, U32), "u64" := (BasicType, U64),
    "msi" := (BasicType, Msi), "f32" := (BasicType, F32), "f64" := (BasicType, F64),
    "b8" := (BasicType, B8), "void" := (BasicType, Void)]

  /** Reclassification agrees with the table: reserved words get their
      kind (and data type), everything else stays an identifier. */
  lemma ClassifyByTable(text: string)
    ensures text in ReservedWords ==> Classify(text) == ReservedWords[text]
    ensures text !in ReservedWords ==> Classify(text) == (Id, Unknown)
  {
  }

  /** A keyword's debug name is the word that lexes to it. */
  lemma KeywordNamesLexBack(k: Keyword)
    ensures Classify(TokenKindToStr(Kw(k))) == (Kw(k), Unknown)
  {
  }

  /** What one round of the main loop produces after skipping: at most one
      token, and the state to continue from. */
  datatype Step = Step(token: Option<Token>, next: Lexer)

  /** One round of `tokenize` after `skip_whitespace_and_comments`:
      compound operators, single punctuation, string literals,
      identifiers and reserved words, numbers; any other byte is consumed
      without a token. */
  function Scan(file: string, st: Lexer): (r: Step)
    requires st.cur <= |file|
    ensures st.cur == |file| ==> r == Step(None, st)
    ensures st.cur <= r.next.cur <= |file|
    ensures st.cur < |file| ==> r.next.cur > st.cur
    ensures r.token.Some? ==> r.token.value.kind != Eof && r.token.value.kind != UnknownKind
    ensures r.token.Some? ==> ValidKind(r.token.value.kind)
    ensures r.token.Some? && r.token.value.kind != StrLit ==> TokenSpans(file, st, r)
    ensures r.token.Some? && r.token.value.kind == StrLit ==> QuotedAt(file, st, r)
  {
    var c := N0(file, st);
    if Operator(c, N1(file, st), N2(file, st)).Some? || c in PunctChars then ScanSymbol(file, st)
    else ScanOther(file, st)
  }

  /** The symbol branches of `Scan`: a compound operator, else a single
      punctuation byte. */
  function ScanSymbol(file: string, st: Lexer): (r: Step)
    requires st.cur <= |file|
    requires Operator(N0(file, st), N1(file, st), N2(file, st)).Some? || N0(file, st) in PunctChars
    ensures st.cur < r.next.cur <= |file|
    ensures r.token.Some? && r.token.value.kind != Eof && r.token.value.kind != UnknownKind
    ensures r.token.value.kind != StrLit && ValidKind(r.token.value.kind)
    ensures TokenSpans(file, st, r)
  {
    var c := N0(file, st);
    var op := Operator(c, N1(file, st), N2(file, st));
    if op.Some? then ScanOperator(file, st, op.value.0, op.value.1)
    else
      assert c != '\0';
      Step(Some(Token([c], Punct(c), Unknown, st.line, st.column)), Adv1(file, st))
  }

  /** The remaining branches of `Scan`: string literals, words, numbers,
      and a byte that is skipped. */
  function ScanOther(file: string, st: Lexer): (r: Step)
    requires st.cur <= |file|
    requires Operator(N0(file, st), N1(file, st), N2(file, st)).None? && N0(file, st) !in PunctChars
    ensures st.cur == |file| ==> r == Step(None, st)
    ensures st.cur <= r.next.cur <= |file|
    ensures st.cur < |file| ==> r.next.cur > st.cur
    ensures r.token.Some? ==> r.token.value.kind != Eof && r.token.value.kind != UnknownKind
    ensures r.token.Some? ==> ValidKind(r.token.value.kind)
    ensures r.token.Some? && r.token.value.kind != StrLit ==> TokenSpans(file, st, r)
    ensures r.token.Some? && r.token.value.kind == StrLit ==> QuotedAt(file, st, r)
  {
    var c := N0(file, st);
    if c == '"' then ScanString(file, st)
    else if IsAlpha(c) || c == '_' then ScanWord(file, st)
    else if IsNumber(c) then ScanNumber(file, st)
    else Step(None, Adv1(file, st))
  }

  /** A compound operator of `len` bytes at the cursor. */
  function ScanOperator(file: string, st: Lexer, kind: Compound, len: nat): (r: Step)
    requires st.cur < |file| && 1 <= len
    ensures st.cur < r.next.cur <= |file|
    ensures r.token.Some? && r.token.value.kind == Op(kind)
    ensures TokenSpans(file, st, r)
  {
    var nx := AdvN(file, st, len);
    Step(Some(Token(file[st.cur..nx.cur], Op(kind), Unknown, st.line, st.column)), nx)
  }

  /** A string literal at the cursor; the position recorded is that of the
      first byte after the opening quote. A missing closing quote is not an
      error. */
  function ScanString(file: string, st: Lexer): (r: Step)
    requires st.cur < |file| && file[st.cur] == '"'
    ensures st.cur < r.next.cur <= |file|
    ensures QuotedAt(file, st, r)
    ensures r.token.Some? && r.token.value.kind == StrLit
  {
    var s1 := Adv1(file, st);
    var (body, s2) := StringBody(file, s1, []);
    var s3 := if N0(file, s2) == '"' then Adv1(file, s2) else s2;
    Step(Some(Token(body, StrLit, Unknown, s1.line, s1.column)), s3)
  }

  /** An identifier at the cursor, then reclassified. */
  function ScanWord(file: string, st: Lexer): (r: Step)
    requires st.cur < |file|
    ensures st.cur < r.next.cur <= |file|
    ensures TokenSpans(file, st, r)
    ensures r.token.Some? && r.token.value.kind in {Id, BasicType} + set k: Keyword :: Kw(k)
  {
    var (len, nx) := IdentRun(file, Adv1(file, st), 1);
    var text := file[st.cur..nx.cur];
    var (kind, dataType) := Classify(text);
    Step(Some(Token(text, kind, dataType, st.line, st.column)), nx)
  }

  /** A number at the cursor. */
  function ScanNumber(file: string, st: Lexer): (r: Step)
    requires st.cur < |file| && IsNumber(file[st.cur])
    ensures st.cur < r.next.cur <= |file|
    ensures TokenSpans(file, st, r)
    ensures r.token.Some? && r.token.value.kind == Num
  {
    var (len, nx, _) := NumberRun(file, st, 0, false);
    Step(Some(Token(file[st.cur..nx.cur], Num, Unknown, st.line, st.column)), nx)
  }

  /** The token produced is exactly the bytes consumed, recorded at the
      position the round started from. */
  predicate TokenSpans(file: string, st: Lexer, r: Step)
    requires st.cur <= r.next.cur <= |file|
  {
    && r.token.Some?
    && r.token.value.text == file[st.cur..r.next.cur]
    && r.token.value.line == st.line
    && r.token.value.column == st.column
  }

  /** A string literal starts at a '"' and is recorded at the byte after
      it. */
  predicate QuotedAt(file: string, st: Lexer, r: Step)
  {
    && st.cur < |file| && file[st.cur] == '"'
    && r.token.Some?
    && r.token.value.line == Adv1(file, st).line
    && r.token.value.column == Adv1(file, st).column
  }

  /** The end-of-file token: empty text at the final position. */
  function EofToken(st: Lexer): Token
  {
    Token([], Eof, Unknown, st.line, st.column)
  }

  datatype LexResult = Tokens(tokens: seq<Token>) | Hangs

  /** The main loop of `tokenize`: runs while the first lookahead byte is
      not 0, so a 0 byte at a token start ends the input. When skipping
      reaches the end of the file the round produces nothing (`Scan` at the
      end is the identity), and the loop ends at that position. */
  function Lex(file: string, st: Lexer, acc: seq<Token>): LexResult
    requires st.cur <= |file|
    decreases |file| - st.cur
  {
    if N0(file, st) == '\0' then Tokens(acc + [EofToken(st)])
    else
      match Skip(file, st)
      case None => Hangs
      case Some(s1) =>
        if s1.cur >= |file| then Tokens(acc + [EofToken(s1)])
        else
          var step := Scan(file, s1);
          Lex(file, step.next, acc + (if step.token.Some? then [step.token.value] else []))
  }

  /** `tokenize` */
  function Tokenize(file: string): LexResult
  {
    Lex(file, Start, [])
  }

  // ----- Properties of the lexer -----

  predicate NoEof(ts: seq<Token>)
  {
    forall i :: 0 <= i < |ts| ==> ts[i].kind != Eof
  }

  /** Exactly one end-of-file token, last, with empty text. */
  predicate EndsWithOneEof(ts: seq<Token>)
  {
    && |ts| > 0
    && ts[|ts| - 1].kind == Eof
    && ts[|ts| - 1].text == []
    && NoEof(ts[..|ts| - 1])
  }

  /** The loop only ever appends: whatever it returns keeps the tokens
      already produced and ends with exactly one end-of-file token. */
  lemma {:induction false} LexShape(file: string, st: Lexer, acc: seq<Token>)
    requires st.cur <= |file|
    requires NoEof(acc)
    ensures var r := Lex(file, st, acc);
      r.Tokens? ==> |r.tokens| > |acc| && r.tokens[..|acc|] == acc && EndsWithOneEof(r.tokens)
    decreases |file| - st.cur
  {
    var r := Lex(file, st, acc);
    if N0(file, st) == '\0' {
      assert r.tokens == acc + [EofToken(st)];
      assert r.tokens[..|r.tokens| - 1] == acc;
    } else {
      match Skip(file, st)
      case None =>
      case Some(s1) =>
        if s1.cur >= |file| {
          assert r.tokens == acc + [EofToken(s1)];
          assert r.tokens[..|r.tokens| - 1] == acc;
        } else {
          var step := Scan(file, s1);
          var acc' := acc + (if step.token.Some? then [step.token.value] else []);
          assert NoEof(acc');
          assert r == Lex(file, step.next, acc');
          LexShape(file, step.next, acc');
          if r.Tokens? {
            assert r.tokens[..|acc|] == r.tokens[..|acc'|][..|acc|];
          }
        }
    }
  }

  /** The output of `tokenize` ends with a single end-of-file token of
      empty text, and no other token has that kind. */
  lemma TokenizeEndsWithEof(file: string)
    ensures var r := Tokenize(file); r.Tokens? ==> EndsWithOneEof(r.tokens)
  {
    LexShape(file, Start, []);
  }

  /** Skipping only stops early inside a comment. */
  lemma {:induction false} SkipWithoutSlash(file: string, st: Lexer)
    requires st.cur <= |file|
    requires forall i :: st.cur <= i < |file| ==> file[i] != '/'
    ensures Skip(file, st).Some?
    decreases |file| - st.cur
  {
    var c := N0(file, st);
    if IsWhitespace(c) || IsEndOfLine(c) {
      SkipWithoutSlash(file, Adv1(file, st));
    }
  }

  lemma {:induction false} LexWithoutSlash(file: string, st: Lexer, acc: seq<Token>)
    requires st.cur <= |file|
    requires forall i :: 0 <= i < |file| ==> file[i] != '/'
    ensures Lex(file, st, acc).Tokens?
    decreases |file| - st.cur
  {
    if N0(file, st) != '\0' {
      SkipWithoutSlash(file, st);
      var s1 := Skip(file, st).value;
      if s1.cur < |file| {
        var step := Scan(file, s1);
        LexWithoutSlash(file, step.next, acc + (if step.token.Some? then [step.token.value] else []));
      }
    }
  }

  /** Without a '/' there is no comment, and the lexer always finishes. */
  lemma TokenizeWithoutSlashFinishes(file: string)
    requires '/' !in file
    ensures Tokenize(file).Tokens?
  {
    LexWithoutSlash(file, Start, []);
  }

  /** A line comment that runs to the end of the file, or an unclosed block
      comment, never finishes. */
  lemma UnclosedCommentsHang()
    ensures Tokenize("//") == Hangs
    ensures Tokenize("/*") == Hangs
  {
    var st := Start;
    assert SkipLine("//", Adv1("//", Adv1("//", st))) == None;
    assert SkipBlock("/*", Adv1("/*", Adv1("/*", st))) == None;
  }

  /** The closing search starts on the opening slash, so three bytes make a
      complete block comment. */
  lemma SlashStarSlashIsClosed()
    ensures Tokenize("/*/") == Tokens([EofToken(Lexer(3, 1, 4))])
  {
    var f := "/*/";
    SlashStarSlashSkipped();
    assert N0(f, Start) == '/';
    assert Lex(f, Start, []) == Tokens([EofToken(Lexer(3, 1, 4))]);
  }

  lemma SlashStarSlashSkipped()
    ensures Skip("/*/", Start) == Some(Lexer(3, 1, 4))
  {
    var f := "/*/";
    assert N0(f, Start) == '/' && N1(f, Start) == '*';
    var s1 := Adv1(f, Start);
    assert s1 == Lexer(1, 1, 2);
    assert N0(f, s1) == '*' && N1(f, s1) == '/';
    var s2 := Adv1(f, s1);
    assert s2 == Lexer(2, 1, 3);
    assert Adv1(f, s2) == Lexer(3, 1, 4);
    assert AdvN(f, s1, 2) == Lexer(3, 1, 4);
    assert SkipBlock(f, Start) == Some(Lexer(3, 1, 4));
    assert Skip(f, Lexer(3, 1, 4)) == Some(Lexer(3, 1, 4));
  }

  /** The compound operators by spelling; "!=" has the kind of "||". */
  const OperatorTable: map<string, Compound> := map[
    "==" := DEq, "&&" := And, "||" := Or, "!=" := Or, "<=" := LEq, ">=" := GEq,
    "++" := DPlus, "--" := DMinus, "+=" := PlusEq, "-=" := MinusEq, "*=" := MulEq,
    "/=" := DivEq, "%=" := ModEq, "<<=" := ShiftLEq, ">>=" := ShiftREq,
    "&=" := AndEq, "^=" := XorEq, "|=" := OrEq, "<<" := ShiftL, ">>" := ShiftR]

  /** The test chain is a longest match against the table: a three-byte
      spelling wins over its two-byte prefix, and nothing matches when
      neither is a spelling. */
  lemma OperatorLongestMatch(n0: char, n1: char, n2: char)
    ensures [n0, n1, n2] in OperatorTable ==>
      Operator(n0, n1, n2) == Some((OperatorTable[[n0, n1, n2]], 3))
    ensures [n0, n1, n2] !in OperatorTable && [n0, n1] in OperatorTable ==>
      Operator(n0, n1, n2) == Some((OperatorTable[[n0, n1]], 2))
    ensures [n0, n1, n2] !in OperatorTable && [n0, n1] !in OperatorTable ==>
      Operator(n0, n1, n2) == None
  {
  }

  /** "!=" and "||" are lexed to the same kind. */
  lemma NotEqualLexesAsOr()
    ensures Scan("a!=b||c", Lexer(1, 1, 2)).token == Some(Token("!=", Op(Or), Unknown, 1, 2))
    ensures Scan("a!=b||c", Lexer(4, 1, 5)).token == Some(Token("||", Op(Or), Unknown, 1, 5))
  {
    var f := "a!=b||c";
    assert f[1..3] == "!=";
    assert f[4..6] == "||";
  }

  /** The third lookahead byte is not loaded before the first advance, so
      "<<=" at the very start of a file is read as "<<" then "="; one byte
      later it is one token (`ShiftAssignLaterInFile`). */
  lemma ShiftAssignAtStartOfFile()
    ensures Scan("<<=", Start) == Step(Some(Token("<<", Op(ShiftL), Unknown, 1, 1)), Lexer(2, 1, 3))
  {
    var f := "<<=";
    assert N0(f, Start) == '<' && N1(f, Start) == '<' && N2(f, Start) == '\0';
    assert Operator('<', '<', '\0') == Some((ShiftL, 2));
    assert Adv1(f, Start) == Lexer(1, 1, 2);
    assert Adv1(f, Lexer(1, 1, 2)) == Lexer(2, 1, 3);
    assert AdvN(f, Start, 2) == Lexer(2, 1, 3);
    assert f[0..2] == "<<";
    assert Scan(f, Start) == ScanOperator(f, Start, ShiftL, 2);
  }

  lemma ShiftAssignLaterInFile()
    ensures Scan(" <<=", Lexer(1, 1, 2)) == Step(Some(Token("<<=", Op(ShiftLEq), Unknown, 1, 2)), Lexer(4, 1, 5))
  {
    var g := " <<=";
    var st := Lexer(1, 1, 2);
    ShiftAssignChosen(g, st);
    assert AdvN(g, st, 3) == Lexer(4, 1, 5);
    assert g[1..4] == "<<=";
  }

  lemma ShiftAssignChosen(g: string, st: Lexer)
    requires g == " <<=" && st == Lexer(1, 1, 2)
    ensures Scan(g, st) == ScanOperator(g, st, ShiftLEq, 3)
  {
    assert N0(g, st) == '<' && N1(g, st) == '<' && N2(g, st) == '=';
  }

  /** With the full window loaded (after the first advance), the token is
      the longest spelling in the table that starts at the cursor. */
  lemma ScanTakesLongestOperator(file: string, st: Lexer)
    requires 0 < st.cur < |file|
    requires var w := [At(file, st.cur), At(file, st.cur + 1), At(file, st.cur + 2)];
      w in OperatorTable || w[..2] in OperatorTable
    ensures var w := [At(file, st.cur), At(file, st.cur + 1), At(file, st.cur + 2)];
      var longest := if w in OperatorTable then w else w[..2];
      Scan(file, st).token == Some(Token(longest, Op(OperatorTable[longest]), Unknown, st.line, st.column))
  {
    var w := [At(file, st.cur), At(file, st.cur + 1), At(file, st.cur + 2)];
    OperatorLongestMatch(w[0], w[1], w[2]);
    assert [w[0], w[1]] == w[..2];
    var longest := if w in OperatorTable then w else w[..2];
    var len := |longest|;
    assert N0(file, st) == w[0] && N1(file, st) == w[1] && N2(file, st) == w[2];
    assert Operator(w[0], w[1], w[2]) == Some((OperatorTable[longest], len));
    assert w[1] != '\0' && (len == 3 ==> w[2] != '\0');
    assert st.cur + len <= |file|;
    assert Scan(file, st) == ScanSymbol(file, st) == ScanOperator(file, st, OperatorTable[longest], len);
    assert AdvN(file, st, len).cur == st.cur + len;
    assert file[st.cur..st.cur + len] == longest;
  }

  /** A punctuation byte that starts no compound operator is a token of
      length 1 whose kind has the byte's own code. */
  lemma ScanPunctuation(file: string, st: Lexer)
    requires st.cur < |file| && file[st.cur] in PunctChars
    requires Operator(N0(file, st), N1(file, st), N2(file, st)).None?
    ensures var r := Scan(file, st);
      && r.token.Some?
      && r.token.value.text == [file[st.cur]]
      && Code(r.token.value.kind) == file[st.cur] as int
      && r.next.cur == st.cur + 1
  {
  }

  /** An identifier is the longest run of letters, digits and '_' from the
      cursor; its kind and data type are those of the reserved-word table,
      or `Id`. */
  lemma ScanIdentifier(file: string, st: Lexer)
    requires st.cur < |file| && (IsAlpha(file[st.cur]) || file[st.cur] == '_')
    ensures var r := Scan(file, st);
      && r.token.Some?
      && r.token.value.text == file[st.cur..r.next.cur]
      && |r.token.value.text| >= 1
      && (forall i :: 0 <= i < |r.token.value.text| ==> IsIdentChar(r.token.value.text[i]))
      && !IsIdentChar(N0(file, r.next))
      && (r.token.value.text in ReservedWords ==>
            (r.token.value.kind, r.token.value.dataType) == ReservedWords[r.token.value.text])
      && (r.token.value.text !in ReservedWords ==> r.token.value.kind == Id)
  {
    var c := file[st.cur];
    IdentStartsNoSymbol(c, N1(file, st), N2(file, st));
    var r := Scan(file, st);
    assert r == ScanOther(file, st) == ScanWord(file, st);
    var s1 := Adv1(file, st);
    var run := IdentRun(file, s1, 1);
    assert r.next == run.1;
    var text := r.token.value.text;
    assert text == file[st.cur..run.1.cur];
    IdentTextChars(file, st.cur, run.1.cur);
    ClassifyByTable(text);
  }

  lemma IdentTextChars(file: string, from: nat, to: nat)
    requires from <= to <= |file|
    requires forall i :: from <= i < to ==> IsIdentChar(file[i])
    ensures forall i :: 0 <= i < to - from ==> IsIdentChar(file[from..to][i])
  {
  }

  /** A number is the longest run of digits from the cursor that takes at
      most one '.', which may come last. */
  lemma ScanNumberLiteral(file: string, st: Lexer)
    requires st.cur < |file| && IsNumber(file[st.cur])
    ensures var r := Scan(file, st);
      && r.token.Some?
      && r.token.value.text == file[st.cur..r.next.cur]
      && NumberShape(r.token.value.text, N0(file, r.next))
  {
    var c := file[st.cur];
    IdentStartsNoSymbol(c, N1(file, st), N2(file, st));
    var run := NumberRun(file, st, 0, false);
    assert Scan(file, st) == ScanOther(file, st) == ScanNumber(file, st);
    assert ScanNumber(file, st).next == run.1;
    NumberRunText(file, st);
  }

  /** No operator and no punctuation byte starts with a letter, a digit
      or '_'. */
  lemma IdentStartsNoSymbol(c: char, n1: char, n2: char)
    requires IsIdentChar(c)
    ensures Operator(c, n1, n2).None? && c !in PunctChars
  {
    forall i | 0 <= i < |PunctChars|
      ensures PunctChars[i] != c
    {
      assert PunctChars[i] as int < 'A' as int || '[' <= PunctChars[i] <= '^' || PunctChars[i] as int > 'z' as int;
    }
  }

  /** A digit first, then only digits and '.', at most one '.'; `after`,
      the byte that stopped the run, is no digit and is '.' only when the
      text already has one. */
  predicate NumberShape(text: string, after: char)
  {
    && |text| >= 1
    && IsNumber(text[0])
    && (forall i :: 0 <= i < |text| ==> IsNumber(text[i]) || text[i] == '.')
    && (forall i, j :: 0 <= i < j < |text| && text[i] == '.' ==> text[j] != '.')
    && !IsNumber(after)
    && (after == '.' ==> '.' in text)
  }

  lemma NumberRunText(file: string, st: Lexer)
    requires st.cur < |file| && IsNumber(file[st.cur])
    ensures var run := NumberRun(file, st, 0, false);
      NumberShape(file[st.cur..run.1.cur], N0(file, run.1))
  {
    var run := NumberRun(file, st, 0, false);
    assert run == NumberRun(file, Adv1(file, st), 1, false);
    var text := file[st.cur..run.1.cur];
    NumberTextChars(file, st.cur, run.1.cur);
    NumberRunOneDot(file, st, 0, false);
    NumberTextOneDot(file, st.cur, run.1.cur);
  }

  lemma NumberTextChars(file: string, from: nat, to: nat)
    requires from <= to <= |file|
    requires forall i :: from <= i < to ==> IsNumber(file[i]) || file[i] == '.'
    ensures forall i :: 0 <= i < to - from ==> IsNumber(file[from..to][i]) || file[from..to][i] == '.'
  {
  }

  lemma NumberTextOneDot(file: string, from: nat, to: nat)
    requires from <= to <= |file|
    requires forall i, j :: from <= i < j < to && file[i] == '.' ==> file[j] != '.'
    ensures forall i, j :: 0 <= i < j < to - from && file[from..to][i] == '.' ==> file[from..to][j] != '.'
  {
    var text := file[from..to];
    forall i, j | 0 <= i < j < |text| && text[i] == '.'
      ensures text[j] != '.'
    {
      assert text[i] == file[from + i] && text[j] == file[from + j];
    }
  }

  /** Any other byte is consumed without producing a token. */
  lemma ScanSkipsUnknown(file: string, st: Lexer)
    requires st.cur < |file|
    requires var c := file[st.cur];
      Operator(c, N1(file, st), N2(file, st)).None? && c !in PunctChars && c != '"'
      && !IsIdentChar(c)
    ensures Scan(file, st).token.None?
    ensures Scan(file, st).next.cur == st.cur + 1
  {
  }

  // ----- Line and column tracking -----

  lemma StartTracks(file: string)
    ensures Tracks(file, Start)
  {
    assert file[..0] == [];
  }

  /** Each advance keeps the recorded line and column those of the cursor. */
  lemma Adv1Tracks(file: string, st: Lexer)
    requires Tracks(file, st)
    ensures Tracks(file, Adv1(file, st))
  {
    if st.cur < |file| {
      assert file[..st.cur + 1][..st.cur] == file[..st.cur];
    }
  }

  lemma {:induction false} AdvNTracks(file: string, st: Lexer, count: nat)
    requires Tracks(file, st)
    ensures Tracks(file, AdvN(file, st, count))
    decreases count
  {
    if count > 0 {
      Adv1Tracks(file, st);
      AdvNTracks(file, Adv1(file, st), count - 1);
    }
  }

  lemma {:induction false} SkipLineTracks(file: string, st: Lexer)
    requires Tracks(file, st)
    ensures SkipLine(file, st).Some? ==> Tracks(file, SkipLine(file, st).value)
    decreases |file| - st.cur
  {
    if !IsEndOfLine(N0(file, st)) && st.cur < |file| {
      Adv1Tracks(file, st);
      SkipLineTracks(file, Adv1(file, st));
    }
  }

  lemma {:induction false} SkipBlockTracks(file: string, st: Lexer)
    requires Tracks(file, st)
    ensures SkipBlock(file, st).Some? ==> Tracks(file, SkipBlock(file, st).value)
    decreases |file| - st.cur
  {
    if N0(file, st) == '*' && N1(file, st) == '/' {
      AdvNTracks(file, st, 2);
    } else if st.cur < |file| {
      Adv1Tracks(file, st);
      SkipBlockTracks(file, Adv1(file, st));
    }
  }

  lemma {:induction false} SkipTracks(file: string, st: Lexer)
    requires Tracks(file, st)
    ensures Skip(file, st).Some? ==> Tracks(file, Skip(file, st).value)
    decreases |file| - st.cur
  {
    var c := N0(file, st);
    if IsWhitespace(c) || IsEndOfLine(c) {
      Adv1Tracks(file, st);
      SkipTracks(file, Adv1(file, st));
    } else if c == '/' && N1(file, st) == '/' {
      SkipLineTracks(file, st);
      if SkipLine(file, st).Some? {
        SkipTracks(file, SkipLine(file, st).value);
      }
    } else if c == '/' && N1(file, st) == '*' {
      SkipBlockTracks(file, st);
      if SkipBlock(file, st).Some? {
        SkipTracks(file, SkipBlock(file, st).value);
      }
    }
  }

  lemma {:induction false} IdentRunTracks(file: string, st: Lexer, len: nat)
    requires Tracks(file, st)
    ensures Tracks(file, IdentRun(file, st, len).1)
    decreases |file| - st.cur
  {
    if IsIdentChar(N0(file, st)) {
      Adv1Tracks(file, st);
      IdentRunTracks(file, Adv1(file, st), len + 1);
    }
  }

  lemma {:induction false} NumberRunTracks(file: string, st: Lexer, len: nat, isFloat: bool)
    requires Tracks(file, st)
    ensures Tracks(file, NumberRun(file, st, len, isFloat).1)
    decreases |file| - st.cur
  {
    var c := N0(file, st);
    if IsNumber(c) || (!isFloat && c == '.') {
      Adv1Tracks(file, st);
      NumberRunTracks(file, Adv1(file, st), len + 1, isFloat || c == '.');
    }
  }

  lemma {:induction false} StringBodyTracks(file: string, st: Lexer, acc: string)
    requires Tracks(file, st) && st.cur > 0
    ensures Tracks(file, StringBody(file, st, acc).1)
    decreases |file| - st.cur
  {
    var c := N0(file, st);
    if c == '"' || c == '\0' {
    } else if c == '\\' && N1(file, st) == '"' {
      var s2 := AdvN(file, st, 2);
      AdvNTracks(file, st, 2);
      StringBodyTracks(file, s2, acc + [N0(file, s2), N1(file, s2)]);
    } else if c == '\\' && N1(file, st) == 'n' {
      AdvNTracks(file, st, 2);
      StringBodyTracks(file, AdvN(file, st, 2), acc + ['\n']);
    } else {
      Adv1Tracks(file, st);
      StringBodyTracks(file, Adv1(file, st), acc + [c]);
    }
  }

  lemma ScanTracks(file: string, st: Lexer)
    requires Tracks(file, st)
    ensures Tracks(file, Scan(file, st).next)
  {
    var c := N0(file, st);
    var op := Operator(c, N1(file, st), N2(file, st));
    if op.Some? {
      AdvNTracks(file, st, op.value.1);
    } else if c in PunctChars {
      Adv1Tracks(file, st);
    } else if c == '"' {
      var s1 := Adv1(file, st);
      Adv1Tracks(file, st);
      StringBodyTracks(file, s1, []);
      Adv1Tracks(file, StringBody(file, s1, []).1);
    } else if IsAlpha(c) || c == '_' {
      Adv1Tracks(file, st);
      IdentRunTracks(file, Adv1(file, st), 1);
    } else if IsNumber(c) {
      NumberRunTracks(file, st, 0, false);
    } else {
      Adv1Tracks(file, st);
    }
  }

  /** Where a token was found: at byte `p`, whose line and column it
      carries. Any token other than a string literal spells out the bytes
      from `p`; a string literal is recorded just after its opening quote;
      the end-of-file token sits at the end or at a 0 byte. */
  predicate LocatedAt(file: string, t: Token, p: nat)
  {
    && p <= |file|
    && t.line == 1 + CountEol(file[..p])
    && t.column == ColumnAt(file, p)
    && (t.kind != StrLit ==> p + |t.text| <= |file| && file[p..p + |t.text|] == t.text)
    && (t.kind == StrLit ==> 0 < p && file[p - 1] == '"')
    && (t.kind == Eof ==> At(file, p) == '\0')
  }

  ghost predicate Located(file: string, t: Token)
  {
    exists p: nat | p <= |file| :: LocatedAt(file, t, p)
  }

  lemma ScanLocated(file: string, st: Lexer)
    requires Tracks(file, st)
    ensures var r := Scan(file, st); r.token.Some? ==> Located(file, r.token.value)
  {
    var r := Scan(file, st);
    if r.token.Some? {
      var t := r.token.value;
      if t.kind == StrLit {
        Adv1Tracks(file, st);
        assert LocatedAt(file, t, st.cur + 1);
      } else {
        assert t.text == file[st.cur..r.next.cur];
        assert LocatedAt(file, t, st.cur);
      }
    }
  }

  lemma {:induction false} LexLocated(file: string, st: Lexer, acc: seq<Token>)
    requires Tracks(file, st)
    requires forall i :: 0 <= i < |acc| ==> Located(file, acc[i])
    ensures var r := Lex(file, st, acc);
      r.Tokens? ==> forall i :: 0 <= i < |r.tokens| ==> Located(file, r.tokens[i])
    decreases |file| - st.cur
  {
    var r := Lex(file, st, acc);
    if N0(file, st) == '\0' {
      assert LocatedAt(file, EofToken(st), st.cur);
    } else {
      SkipTracks(file, st);
      match Skip(file, st)
      case None =>
      case Some(s1) =>
        if s1.cur >= |file| {
          assert LocatedAt(file, EofToken(s1), s1.cur);
        } else {
          var step := Scan(file, s1);
          ScanLocated(file, s1);
          ScanTracks(file, s1);
          var acc' := acc + (if step.token.Some? then [step.token.value] else []);
          assert forall i :: 0 <= i < |acc'| ==> Located(file, acc'[i]);
          var rest := Lex(file, step.next, acc');
          assert r == rest;
          LexLocated(file, step.next, acc');
          assert rest.Tokens? ==> forall i :: 0 <= i < |rest.tokens| ==> Located(file, rest.tokens[i]);
        }
    }
  }

  /** Every token carries the line and column of the byte it was read at:
      line 1 plus the end-of-line bytes before it, column 1 plus the bytes
      since the last of them. */
  lemma TokensAreLocated(file: string)
    ensures var r := Tokenize(file);
      r.Tokens? ==> forall i :: 0 <= i < |r.tokens| ==> Located(file, r.tokens[i])
  {
    StartTracks(file);
    LexLocated(file, Start, []);
  }
}
