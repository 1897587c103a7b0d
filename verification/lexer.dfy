/**
  The lexer proper: the scanners a `Cursor` runs after the first character
  of a lexeme has been bumped, the single-character dispatch of
  `next_lexeme`, `first_lexeme`, and the whole-input driver
  `lexical_analyze`.

  Every scanner is a pure function from a cursor to the advanced cursor
  (and whatever the Rust method returns); each states which characters it
  consumed and why it stopped.
 */
module Lexer {

  import opened Wrappers
  import opened CharExt
  import opened LexemeTypes
  import opened Cursors
  import opened Sequences

  /** A classified lexeme and its length in UTF-8 bytes. */
  datatype Lexeme = Lexeme(kind: LexemeType, len: nat)

  /**
    The `'0'..='9'` pattern of `eat_decimal_digits`.  The dispatch instead
    asks `is_digit(10)`; `EaterDigitsAreRadixDigits` shows the two agree.
   */
  predicate IsDecimalDigit(c: char)
  {
    '0' <= c <= '9'
  }

  /** The patterns of `eat_hexadecimal_digits`; `is_digit(16)` agrees (`EaterDigitsAreRadixDigits`). */
  predicate IsHexDigit(c: char)
  {
    ('0' <= c <= '9') || ('a' <= c <= 'f') || ('A' <= c <= 'F')
  }

  /** The eaters' digit patterns accept the same characters as the dispatch's `is_digit`. */
  lemma EaterDigitsAreRadixDigits(c: char)
    ensures IsDecimalDigit(c) <==> CharExt.IsDigit(c, 10)
    ensures IsHexDigit(c) <==> CharExt.IsDigit(c, 16)
  {
    CharExt.DigitClasses(c);
  }

  predicate IsNotNewline(c: char)
  {
    c != '\n'
  }

  // ---------------------------------------------------------------------
  // "Eating"
  // ---------------------------------------------------------------------

  /**
    `eat_while`: bump while the next character satisfies `p` and input
    remains.  Everything consumed satisfies `p`; the character left next
    does not (maximal munch).
   */
  function EatWhile(c: Cursor, p: char -> bool): (r: Cursor)
    ensures Advances(c, r)
    ensures forall i :: 0 <= i < |Eaten(c, r)| ==> p(Eaten(c, r)[i])
    ensures |r.chars| > 0 ==> !p(r.chars[0])
    decreases |c.chars|
  {
    if p(First(c)) && !IsEof(c) then
      var c1 := Bump(c).1;
      var r := EatWhile(c1, p);
      EatenAfterBump(c, r);
      EveryCons(c.chars[0], Eaten(c1, r), p);
      r
    else
      c
  }

  lemma EveryCons(x: char, e: seq<char>, p: char -> bool)
    requires p(x) && forall i :: 0 <= i < |e| ==> p(e[i])
    ensures forall i :: 0 <= i < |[x] + e| ==> p(([x] + e)[i])
  {
    forall i | 0 <= i < |[x] + e|
      ensures p(([x] + e)[i])
    {
      if i > 0 {
        assert ([x] + e)[i] == e[i - 1];
      }
    }
  }

  /** Whether `s` holds a character of the class `isDigit`. */
  predicate ContainsDigit(s: seq<char>, isDigit: char -> bool)
  {
    exists i :: 0 <= i < |s| && isDigit(s[i])
  }

  lemma ContainsDigitCons(x: char, s: seq<char>, isDigit: char -> bool)
    ensures ContainsDigit([x] + s, isDigit) <==> isDigit(x) || ContainsDigit(s, isDigit)
  {
    if ContainsDigit(s, isDigit) {
      var i :| 0 <= i < |s| && isDigit(s[i]);
      assert ([x] + s)[i + 1] == s[i];
    }
    if isDigit(x) {
      assert ([x] + s)[0] == x;
    }
    if ContainsDigit([x] + s, isDigit) && !isDigit(x) {
      var i :| 0 <= i < |[x] + s| && isDigit(([x] + s)[i]);
      assert s[i - 1] == ([x] + s)[i];
    }
  }

  /**
    The loop shared by `eat_decimal_digits` and `eat_hexadecimal_digits`:
    consume `_` and digits; the answer says whether a digit (not merely an
    underscore) was seen, counting the `hasDigits` already known.  Like the
    source, it stops at the end of input only because `first()` is then NUL,
    which is no digit.
   */
  function EatDigitRun(c: Cursor, isDigit: char -> bool, hasDigits: bool): (r: (bool, Cursor))
    requires !isDigit(EOF_CHAR)
    ensures Advances(c, r.1)
    ensures forall i :: 0 <= i < |Eaten(c, r.1)| ==>
              Eaten(c, r.1)[i] == '_' || isDigit(Eaten(c, r.1)[i])
    ensures |r.1.chars| > 0 ==> r.1.chars[0] != '_' && !isDigit(r.1.chars[0])
    ensures r.0 <==> hasDigits || ContainsDigit(Eaten(c, r.1), isDigit)
    decreases |c.chars|
  {
    if First(c) == '_' || isDigit(First(c)) then
      var c1 := Bump(c).1;
      var r := EatDigitRun(c1, isDigit, hasDigits || isDigit(First(c)));
      EatenAfterBump(c, r.1);
      ContainsDigitCons(c.chars[0], Eaten(c1, r.1), isDigit);
      r
    else
      (hasDigits, c)
  }

  /**
    `eat_decimal_digits`: a maximal run of `_` and `0`-`9`; the answer says
    whether it held a digit.
   */
  function EatDecimalDigits(c: Cursor): (r: (bool, Cursor))
    ensures Advances(c, r.1)
    ensures forall i :: 0 <= i < |Eaten(c, r.1)| ==>
              Eaten(c, r.1)[i] == '_' || IsDecimalDigit(Eaten(c, r.1)[i])
    ensures |r.1.chars| > 0 ==> r.1.chars[0] != '_' && !IsDecimalDigit(r.1.chars[0])
    ensures r.0 <==> ContainsDigit(Eaten(c, r.1), IsDecimalDigit)
  {
    EatDigitRun(c, IsDecimalDigit, false)
  }

  /**
    `eat_hexadecimal_digits`: a maximal run of `_` and hexadecimal digits
    of either case; the answer says whether it held a digit.
   */
  function EatHexadecimalDigits(c: Cursor): (r: (bool, Cursor))
    ensures Advances(c, r.1)
    ensures forall i :: 0 <= i < |Eaten(c, r.1)| ==>
              Eaten(c, r.1)[i] == '_' || IsHexDigit(Eaten(c, r.1)[i])
    ensures |r.1.chars| > 0 ==> r.1.chars[0] != '_' && !IsHexDigit(r.1.chars[0])
    ensures r.0 <==> ContainsDigit(Eaten(c, r.1), IsHexDigit)
  {
    EatDigitRun(c, IsHexDigit, false)
  }

  // ---------------------------------------------------------------------
  // Scanners for each kind of lexeme
  // ---------------------------------------------------------------------

  /** A `*)` starts at index `j` of `s`. */
  predicate ClosesAt(s: seq<char>, j: int)
  {
    0 <= j && j + 1 < |s| && s[j] == '*' && s[j + 1] == ')'
  }

  /**
    The first `n` characters of `s` run up to and including its first
    `*)`, or, when `s` holds none, `n` covers all of `s`.
   */
  predicate EndsAtFirstClose(s: seq<char>, n: int)
  {
    || (n >= 2 && ClosesAt(s, n - 2) && forall j :: 0 <= j < n - 2 ==> !ClosesAt(s, j))
    || (n == |s| && forall j :: 0 <= j < |s| ==> !ClosesAt(s, j))
  }

  /**
    The `while let Some(character) = self.bump()` loop of `block_comment`:
    it stops right after the first `*)` it meets, or at the end of input.
   */
  function BlockCommentBody(c: Cursor): (r: Cursor)
    ensures Advances(c, r) && EndsAtFirstClose(c.chars, |Eaten(c, r)|)
    decreases |c.chars|
  {
    match Bump(c)
    case (None, _) => c
    case (Some(ch), c1) =>
      if ch == '*' && First(c1) == ')' then
        var r := Bump(c1).1;
        CloseFound(c);
        r
      else
        var r := BlockCommentBody(c1);
        CommentBodyStep(c, r);
        r
  }

  /** A `*)` at the head ends the body right after it. */
  lemma CloseFound(c: Cursor)
    requires !IsEof(c) && c.chars[0] == '*' && First(Bump(c).1) == ')'
    ensures Advances(c, Bump(Bump(c).1).1)
    ensures EndsAtFirstClose(c.chars, |Eaten(c, Bump(Bump(c).1).1)|)
  {
    var c1 := Bump(c).1;
    AdvancesTransitive(c, c1, Bump(c1).1);
    assert ClosesAt(c.chars, 0);
  }

  /** Without a `*)` at the head, the body goes on one character later. */
  lemma CommentBodyStep(c: Cursor, r: Cursor)
    requires !IsEof(c) && !(c.chars[0] == '*' && First(Bump(c).1) == ')')
    requires Advances(Bump(c).1, r) && EndsAtFirstClose(c.chars[1..], |Eaten(Bump(c).1, r)|)
    ensures Advances(c, r) && EndsAtFirstClose(c.chars, |Eaten(c, r)|)
  {
    EatenAfterBump(c, r);
    var s := c.chars;
    assert !ClosesAt(s, 0);
    assert forall j :: 0 <= j < |s| - 1 ==> (ClosesAt(s, j + 1) <==> ClosesAt(s[1..], j));
    assert forall j :: 1 <= j < |s| ==> (ClosesAt(s, j) <==> ClosesAt(s[1..], j - 1));
  }

  /**
    `block_comment`, entered from the `(` arm of the dispatch with `*` next.
    The opening `*` is consumed before the search for `*)` begins, so the
    comment's closing `*` is never its opening one.
   */
  function ScanBlockComment(c: Cursor): (r: (LexemeType, Cursor))
    requires Prev(c) == '(' && First(c) == '*'
    ensures r.0 == BlockComment && Advances(c, r.1)
    ensures var n := |Eaten(c, r.1)|;
            || (n >= 3 && ClosesAt(c.chars, n - 2) && forall j :: 1 <= j < n - 2 ==> !ClosesAt(c.chars, j))
            || (r.1.chars == [] && forall j :: 1 <= j < |c.chars| ==> !ClosesAt(c.chars, j))
  {
    var c1 := Bump(c).1;
    var r := BlockCommentBody(c1);
    EatenAfterBump(c, r);
    assert forall j :: 1 <= j < |c.chars| ==> (ClosesAt(c.chars, j) <==> ClosesAt(c1.chars, j - 1));
    (BlockComment, r)
  }

  /** Plain string content: no quote and no newline. */
  predicate IsStringContent(s: seq<char>)
  {
    forall i :: 0 <= i < |s| ==> s[i] != '\'' && s[i] != '\n'
  }

  lemma StringContentCons(x: char, e: seq<char>)
    requires x != '\'' && x != '\n'
    ensures IsStringContent([x] + e) <==> IsStringContent(e)
  {
    assert forall i :: 0 <= i < |e| ==> ([x] + e)[i + 1] == e[i];
  }

  /**
    What the string scanner promises of a result `r` for cursor `c`: if it
    answers `true`, it consumed string content and then a closing quote;
    if `false`, it consumed only string content and stopped before a
    newline or at the end of input.
   */
  predicate StringScanned(c: Cursor, r: (bool, Cursor))
  {
    && Advances(c, r.1)
    && (r.0 ==> var e := Eaten(c, r.1);
                |e| >= 1 && e[|e| - 1] == '\'' && IsStringContent(e[..|e| - 1]))
    && (!r.0 ==> IsStringContent(Eaten(c, r.1)) && (r.1.chars == [] || r.1.chars[0] == '\n'))
  }

  /**
    `character_string`, after the opening quote: scan to the next quote
    (consumed, answer `true`), or stop before a newline or at the end of
    input (answer `false`).  A NUL that is not the end of input is ordinary
    content.
   */
  function ScanCharacterString(c: Cursor): (r: (bool, Cursor))
    ensures StringScanned(c, r)
    decreases |c.chars|
  {
    if First(c) == '\'' then
      var r := Bump(c).1;
      ClosingQuoteScanned(c);
      (true, r)
    else if First(c) == '\n' then
      (false, c)
    else if First(c) == EOF_CHAR && IsEof(c) then
      (false, c)
    else
      var r := ScanCharacterString(Bump(c).1);
      StringScanStep(c, r);
      r
  }

  lemma ClosingQuoteScanned(c: Cursor)
    requires First(c) == '\'' && !IsEof(c)
    ensures StringScanned(c, (true, Bump(c).1))
  {
    assert Eaten(c, Bump(c).1) == [c.chars[0]];
  }

  /** One more content character in front keeps what the string scanner promises. */
  lemma StringScanStep(c: Cursor, r: (bool, Cursor))
    requires !IsEof(c) && c.chars[0] != '\'' && c.chars[0] != '\n'
    requires StringScanned(Bump(c).1, r)
    ensures StringScanned(c, r)
  {
    var c1 := Bump(c).1;
    EatenAfterBump(c, r.1);
    var x, e := c.chars[0], Eaten(c1, r.1);
    if r.0 {
      assert ([x] + e)[..|e|] == [x] + e[..|e| - 1];
      StringContentCons(x, e[..|e| - 1]);
    } else {
      StringContentCons(x, e);
    }
  }

  /**
    `line_comment`: bump the second `/`, then everything up to (not
    including) the next newline or the end of input.
   */
  function ScanLineComment(c: Cursor): (r: (LexemeType, Cursor))
    ensures r.0 == LineComment && Advances(c, r.1)
    ensures var e := Eaten(c, r.1);
            && (|e| == 0 <==> IsEof(c))
            && (forall i :: 1 <= i < |e| ==> e[i] != '\n')
            && (r.1.chars == [] || r.1.chars[0] == '\n')
  {
    var c1 := Bump(c).1;
    var r := EatWhile(c1, IsNotNewline);
    AdvancesTransitive(c, c1, r);
    (LineComment, r)
  }

  /** `identifier`: the rest of a maximal run of identifier characters. */
  function ScanIdentifier(c: Cursor): (r: (LexemeType, Cursor))
    ensures r.0 == Identifier && Advances(c, r.1)
    ensures forall i :: 0 <= i < |Eaten(c, r.1)| ==> IsIdContinue(Eaten(c, r.1)[i])
    ensures r.1.chars == [] || !IsIdContinue(r.1.chars[0])
  {
    (Identifier, EatWhile(c, IsIdContinue))
  }

  /** `whitespace`: the rest of a maximal run of whitespace. */
  function ScanWhitespace(c: Cursor): (r: (LexemeType, Cursor))
    ensures r.0 == Whitespace && Advances(c, r.1)
    ensures forall i :: 0 <= i < |Eaten(c, r.1)| ==> IsWhitespace(Eaten(c, r.1)[i])
    ensures r.1.chars == [] || !IsWhitespace(r.1.chars[0])
  {
    (Whitespace, EatWhile(c, CharExt.IsWhitespace))
  }

  /** The base `number` picks from the character before the digits. */
  function BaseOfPrefix(prev: char): Base
  {
    if prev == '$' then Base16
    else if prev == '&' then Base8
    else if prev == '%' then Base2
    else Base10
  }

  /** The digit class `number` eats after that character: hex after `$`, decimal otherwise. */
  predicate IsBodyDigit(prev: char, d: char)
  {
    if prev == '$' then IsHexDigit(d) else IsDecimalDigit(d)
  }

  /**
    `number`: the base is chosen by `prev()` (`$`, `&`, `%`, else decimal),
    the body is a maximal run of `_` and digits of the eater for that base,
    and the literal is never marked empty.
   */
  function ScanNumber(c: Cursor): (r: (LiteralType, Cursor))
    ensures r.0 == Integer(BaseOfPrefix(Prev(c)), false) && Advances(c, r.1)
    ensures forall i :: 0 <= i < |Eaten(c, r.1)| ==>
              Eaten(c, r.1)[i] == '_' || IsBodyDigit(Prev(c), Eaten(c, r.1)[i])
    ensures r.1.chars == [] || (r.1.chars[0] != '_' && !IsBodyDigit(Prev(c), r.1.chars[0]))
  {
    if Prev(c) == '$' then
      (Integer(Base16, false), EatHexadecimalDigits(c).1)
    else if Prev(c) == '&' then
      (Integer(Base8, false), EatDecimalDigits(c).1)
    else if Prev(c) == '%' then
      (Integer(Base2, false), EatDecimalDigits(c).1)
    else
      (Integer(Base10, false), EatDecimalDigits(c).1)
  }

  // ---------------------------------------------------------------------
  // Advancing: one lexeme
  // ---------------------------------------------------------------------

  /** The arms of the `match` in `next_lexeme`, by what they go on to do. */
  datatype Arm =
    | Single(kind: LexemeType)   // the lexeme is the bumped character alone
    | LineCommentArm
    | WhitespaceArm
    | IdentifierArm
    | NumberArm
    | BlockCommentArm
    | StringArm

  /**
    The `match character { .. }` of `next_lexeme`, in the source's arm
    order, given the bumped character `ch` and the lookahead `next`
    (`first()`).  Note that `&` followed by an identifier start takes the
    ordinary identifier arm, and that `{` is no comment opener: it falls
    through to `Unknown`.
   */
  function SelectArm(ch: char, next: char): (arm: Arm)
    ensures arm == BlockCommentArm ==> ch == '(' && next == '*'
    ensures arm == LineCommentArm ==> ch == '/' && next == '/'
    ensures arm == StringArm <==> ch == '\''
    ensures arm.Single? ==> !arm.kind.Literal?
  {
    if ch == '/' then
      if next == '/' then LineCommentArm else Single(Slash)
    else if CharExt.IsWhitespace(ch) then WhitespaceArm
    else if ch == '&' then
      if IsIdStart(next) then IdentifierArm
      else if IsDigit(next, 8) then NumberArm
      else Single(Unknown)
    else if ch == '$' then
      if IsDigit(next, 16) then NumberArm else Single(Unknown)
    else if ch == '%' then
      if IsDigit(next, 2) then NumberArm else Single(Unknown)
    else if IsDigit(ch, 10) then NumberArm
    else if IsIdStart(ch) then IdentifierArm
    else if ch == '+' then Single(Plus)
    else if ch == '-' then Single(Minus)
    else if ch == '*' then Single(Star)
    else if ch == '=' then Single(Equal)
    else if ch == '<' then Single(LeftAngle)
    else if ch == '>' then Single(RightAngle)
    else if ch == '[' then Single(LeftSquare)
    else if ch == ']' then Single(RightSquare)
    else if ch == '.' then Single(Dot)
    else if ch == ',' then Single(Comma)
    else if ch == '(' then
      if next == '*' then BlockCommentArm else Single(LeftRound)
    else if ch == ')' then Single(RightRound)
    else if ch == ':' then Single(Colon)
    else if ch == '^' then Single(Caret)
    else if ch == '@' then Single(At)
    else if ch == '#' then Single(Pound)
    else if ch == ';' then Single(Semicolon)
    else if ch == '\'' then StringArm
    else Single(Unknown)
  }

  /** An arm of fixed kind emits punctuation or `Unknown`. */
  lemma SingleArmKinds(ch: char, next: char)
    ensures SelectArm(ch, next).Single? ==> IsPunctuation(SelectArm(ch, next).kind) || SelectArm(ch, next).kind == Unknown
  {
  }

  /** Whitespace and identifiers get their arms from exactly these characters. */
  lemma WhitespaceAndIdentifierArms(ch: char, next: char)
    ensures SelectArm(ch, next) == WhitespaceArm <==> CharExt.IsWhitespace(ch)
    ensures SelectArm(ch, next) == IdentifierArm <==> IsIdStart(ch) || (ch == '&' && IsIdStart(next))
  {
  }

  /** The kind of lexeme an arm produces. */
  predicate KindOfArm(arm: Arm, kind: LexemeType)
  {
    match arm
    case Single(k) => kind == k
    case LineCommentArm => kind == LineComment
    case BlockCommentArm => kind == BlockComment
    case WhitespaceArm => kind == Whitespace
    case IdentifierArm => kind == Identifier
    case NumberArm => kind.Literal? && kind.literal.Integer?
    case StringArm => kind.Literal? && kind.literal.String?
  }

  /** Which characters lead to which kinds, whatever the scanners then consume. */
  lemma KindsOfSelectedArm(ch: char, next: char, kind: LexemeType)
    requires KindOfArm(SelectArm(ch, next), kind)
    ensures kind == LineComment <==> ch == '/' && next == '/'
    ensures kind == BlockComment <==> ch == '(' && next == '*'
    ensures kind == Whitespace <==> CharExt.IsWhitespace(ch)
    ensures kind == Identifier <==> IsIdStart(ch) || (ch == '&' && IsIdStart(next))
    ensures kind.Literal? && kind.literal.String? <==> ch == '\''
    ensures kind != RawIdentifier
  {
    WhitespaceAndIdentifierArms(ch, next);
    SingleArmKinds(ch, next);
  }

  /** Runs the scanner of an arm on the cursor that has just bumped its character. */
  function RunArm(arm: Arm, c: Cursor): (r: (LexemeType, Cursor))
    requires arm == BlockCommentArm ==> Prev(c) == '(' && First(c) == '*'
    ensures Advances(c, r.1)
    ensures arm.Single? ==> r == (arm.kind, c)
    ensures KindOfArm(arm, r.0)
  {
    match arm
    case Single(kind) => (kind, c)
    case LineCommentArm => ScanLineComment(c)
    case WhitespaceArm => ScanWhitespace(c)
    case IdentifierArm => ScanIdentifier(c)
    case NumberArm => var (lit, r) := ScanNumber(c); (Literal(lit), r)
    case BlockCommentArm => ScanBlockComment(c)
    case StringArm => var (terminated, r) := ScanCharacterString(c); (Literal(String(terminated)), r)
  }

  /** The whole `match` of `next_lexeme`, for a cursor that has just bumped `ch`. */
  function Dispatch(ch: char, c: Cursor): (r: (LexemeType, Cursor))
    requires Prev(c) == ch
    ensures Advances(c, r.1)
    ensures KindOfArm(SelectArm(ch, First(c)), r.0)
  {
    RunArm(SelectArm(ch, First(c)), c)
  }

  /**
    Each kind comes out of the dispatch for exactly the characters its
    `match` arm names, and `RawIdentifier` never comes out.
   */
  lemma DispatchKinds(ch: char, c: Cursor)
    requires Prev(c) == ch
    ensures var kind := Dispatch(ch, c).0;
            && (kind == LineComment <==> ch == '/' && First(c) == '/')
            && (kind == BlockComment <==> ch == '(' && First(c) == '*')
            && (kind == Whitespace <==> CharExt.IsWhitespace(ch))
            && (kind == Identifier <==> IsIdStart(ch) || (ch == '&' && IsIdStart(First(c))))
            && (kind.Literal? && kind.literal.String? <==> ch == '\'')
            && kind != RawIdentifier
  {
    KindsOfSelectedArm(ch, First(c), Dispatch(ch, c).0);
  }

  /**
    `next_lexeme`: bump one character (the `unwrap` needs one to exist),
    dispatch on it, and report `len_consumed()`, the bytes consumed since
    the cursor was made.  At least one character is always consumed.
   */
  function NextLexeme(c: Cursor): (r: (Lexeme, Cursor))
    requires c.Valid() && !IsEof(c)
    ensures Advances(c, r.1) && |r.1.chars| < |c.chars| && r.1.Valid()
    ensures r.0.len == LenConsumed(r.1) == LenConsumed(c) + Utf8Bytes(Eaten(c, r.1))
  {
    var (ch, c1) := Bump(c);
    var (kind, c2) := Dispatch(ch.value, c1);
    EatenAfterBump(c, c2);
    LenConsumedGrowsByEatenBytes(c, c2);
    (Lexeme(kind, LenConsumed(c2)), c2)
  }

  /** `first_lexeme`: lex one lexeme from a fresh cursor over a non-empty input. */
  function FirstLexeme(input: seq<char>): (lexeme: Lexeme)
    requires |input| > 0
    ensures 1 <= lexeme.len <= Utf8Bytes(input)
  {
    var r := NextLexeme(New(input));
    LenConsumedFromNew(input, r.1);
    Utf8BytesStrictlyMonotone(input, 0, |input| - |r.1.chars|);
    r.0
  }

  /** How many characters `first_lexeme` consumes: its length is their byte count. */
  function FirstLexemeWidth(input: seq<char>): (k: nat)
    requires |input| > 0
    ensures 1 <= k <= |input|
    ensures FirstLexeme(input).len == Utf8Bytes(input[..k])
  {
    var r := NextLexeme(New(input));
    LenConsumedFromNew(input, r.1);
    |input| - |r.1.chars|
  }

  // ---------------------------------------------------------------------
  // The whole-input driver
  // ---------------------------------------------------------------------

  /**
    Rust's `&s[n..]` for a byte offset `n`: the characters after the first
    `n` bytes, or `None` where the slice would panic because `n` is past the
    end or inside a character.
   */
  function SliceFromByte(s: seq<char>, n: nat): (r: Option<seq<char>>)
    ensures r.Some? ==> |r.value| <= |s| && r.value == s[|s| - |r.value|..]
                        && Utf8Bytes(s[..|s| - |r.value|]) == n
  {
    if n == 0 then Some(s)
    else if |s| == 0 || Utf8Len(s[0]) > n then None
    else
      var r := SliceFromByte(s[1..], n - Utf8Len(s[0]));
      if r.Some? then
        var k := |s| - |r.value|;
        assert s[..k] == [s[0]] + s[1..][..k - 1];
        Utf8BytesAppend([s[0]], s[1..][..k - 1]);
        r
      else r
  }

  /** Slicing at the byte offset of a character boundary always succeeds. */
  lemma {:induction false} SliceFromByteAtBoundary(s: seq<char>, k: nat)
    requires k <= |s|
    ensures SliceFromByte(s, Utf8Bytes(s[..k])) == Some(s[k..])
  {
    if k > 0 {
      Utf8BytesOfPrefix(s, k);
      SliceFromByteStep(s, Utf8Bytes(s[..k]));
      SliceFromByteAtBoundary(s[1..], k - 1);
      assert s[1..][k - 1..] == s[k..];
    }
  }

  lemma Utf8BytesOfPrefix(s: seq<char>, k: nat)
    requires 0 < k <= |s|
    ensures Utf8Bytes(s[..k]) == Utf8Len(s[0]) + Utf8Bytes(s[1..][..k - 1])
    ensures Utf8Bytes(s[..k]) >= Utf8Len(s[0]) > 0
  {
    assert s[..k][0] == s[0];
    assert s[..k][1..] == s[1..][..k - 1];
  }

  /** Past the first character, slicing continues on the rest of the input. */
  lemma SliceFromByteStep(s: seq<char>, n: nat)
    requires |s| > 0 && n > 0 && n >= Utf8Len(s[0])
    ensures SliceFromByte(s, n) == SliceFromByte(s[1..], n - Utf8Len(s[0]))
  {
  }

  function SumLens(lexemes: seq<Lexeme>): nat
  {
    if |lexemes| == 0 then 0 else lexemes[0].len + SumLens(lexemes[1..])
  }

  lemma SumLensCons(x: Lexeme, t: seq<Lexeme>)
    ensures SumLens([x] + t) == x.len + SumLens(t)
  {
    assert ([x] + t)[1..] == t;
  }

  /** Slicing off the byte length of the first `k` characters leaves the rest. */
  lemma SliceAtWidth(s: seq<char>, k: nat, n: nat)
    requires 0 < k <= |s| && n == Utf8Bytes(s[..k])
    ensures SliceFromByte(s, n) == Some(s[k..])
    ensures Utf8Bytes(s) == n + Utf8Bytes(s[k..])
  {
    SliceFromByteAtBoundary(s, k);
    Utf8BytesSplit(s, k);
  }

  /**
    `lexical_analyze`: lex the first lexeme of the remaining input, slice it
    off by its byte length, and repeat until nothing remains.  The lengths
    add up to the input's byte length, and every slice lands on a character
    boundary, so the iteration never panics.
   */
  function LexicalAnalyze(input: seq<char>): (lexemes: seq<Lexeme>)
    ensures SumLens(lexemes) == Utf8Bytes(input)
    ensures |lexemes| <= |input|
    decreases |input|
  {
    if |input| == 0 then []
    else
      var lexeme := FirstLexeme(input);
      var k := FirstLexemeWidth(input);
      SliceAtWidth(input, k, lexeme.len);
      var rest := SliceFromByte(input, lexeme.len).value;
      var tail := LexicalAnalyze(rest);
      SumLensCons(lexeme, tail);
      [lexeme] + tail
  }

  /**
    Cuts `input` into consecutive pieces of the lexemes' byte lengths, the
    way the driver slices the input; `None` if a cut is not on a character
    boundary or the lengths do not cover the input exactly.
   */
  function CutByLengths(input: seq<char>, lexemes: seq<Lexeme>): (r: Option<seq<seq<char>>>)
    ensures r.Some? ==> |r.value| == |lexemes| && Concat(r.value) == input
    ensures r.Some? ==> forall i :: 0 <= i < |lexemes| ==> Utf8Bytes(r.value[i]) == lexemes[i].len
    decreases |lexemes|
  {
    if |lexemes| == 0 then
      if |input| == 0 then Some([]) else None
    else
      match SliceFromByte(input, lexemes[0].len)
      case None => None
      case Some(rest) =>
        var piece := input[..|input| - |rest|];
        match CutByLengths(rest, lexemes[1..])
        case None => None
        case Some(pieces) =>
          assert input == piece + rest;
          assert ([piece] + pieces)[1..] == pieces;
          Some([piece] + pieces)
  }
}
