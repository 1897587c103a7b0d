/**
  What `first_lexeme` and `lexical_analyze` promise, stated over the input
  text: which kind of lexeme each first character starts, where the lexeme
  ends, and that the driver's lexemes tile the input exactly.

  In the statements, `k` is the number of characters the first lexeme
  covers; its byte length is then `Utf8Bytes(s[..k])` (see
  `Lexer.FirstLexemeWidth`), which determines `k` uniquely.
 */
module LexerProperties {

  import opened CharExt
  import opened LexemeTypes
  import opened Cursors
  import opened Lexer

  /** The cursor `next_lexeme` dispatches with, right after bumping `s[0]`. */
  function AfterFirst(s: seq<char>): (c: Cursor)
    requires |s| > 0
    ensures c.chars == s[1..] && Prev(c) == s[0]
  {
    Bump(New(s)).1
  }

  /** The character after the first one, as `first()` reports it after one bump. */
  function Next(s: seq<char>): char
  {
    if |s| > 1 then s[1] else EOF_CHAR
  }

  /** `first_lexeme` is the arm selected by the first two characters, run after one bump. */
  lemma FirstLexemeUnfolds(s: seq<char>)
    requires |s| > 0
    ensures First(AfterFirst(s)) == Next(s)
    ensures SelectArm(s[0], Next(s)) == BlockCommentArm ==> Prev(AfterFirst(s)) == '(' && First(AfterFirst(s)) == '*'
    ensures var d := RunArm(SelectArm(s[0], Next(s)), AfterFirst(s));
            && FirstLexeme(s).kind == d.0
            && FirstLexemeWidth(s) == 1 + |Eaten(AfterFirst(s), d.1)|
  {
  }

  /** `first_lexeme` once the arm is known: what the arm returns, after one character. */
  lemma FirstLexemeByArm(s: seq<char>, arm: Arm)
    requires |s| > 0 && SelectArm(s[0], Next(s)) == arm
    ensures arm == BlockCommentArm ==> Prev(AfterFirst(s)) == '(' && First(AfterFirst(s)) == '*'
    ensures FirstLexeme(s).kind == RunArm(arm, AfterFirst(s)).0
    ensures FirstLexemeWidth(s) == 1 + |Eaten(AfterFirst(s), RunArm(arm, AfterFirst(s)).1)|
  {
    FirstLexemeUnfolds(s);
  }

  /** An arm that emits a fixed kind consumes only the first character. */
  lemma FirstLexemeOfSingle(s: seq<char>, kind: LexemeType)
    requires |s| > 0 && SelectArm(s[0], Next(s)) == Single(kind)
    ensures FirstLexeme(s).kind == kind && FirstLexemeWidth(s) == 1
    ensures FirstLexeme(s).len == Utf8Len(s[0])
  {
    FirstLexemeByArm(s, Single(kind));
    assert s[..1] == [s[0]];
  }

  /** What an arm consumed after the first character is the next stretch of `s`. */
  lemma RestOfInput(s: seq<char>, r: Cursor)
    requires |s| > 0 && Advances(AfterFirst(s), r)
    ensures var k := 1 + |Eaten(AfterFirst(s), r)|;
            && k <= |s| && Eaten(AfterFirst(s), r) == s[1..k] && r.chars == s[k..]
  {
  }

  /** The whitespace arm, read back over `s`. */
  lemma WhitespaceRest(s: seq<char>)
    requires |s| > 0 && CharExt.IsWhitespace(s[0])
    ensures var k := 1 + |Eaten(AfterFirst(s), ScanWhitespace(AfterFirst(s)).1)|;
            && (forall i :: 0 <= i < k ==> CharExt.IsWhitespace(s[i]))
            && (k == |s| || !CharExt.IsWhitespace(s[k]))
  {
    var c1 := AfterFirst(s);
    var r := ScanWhitespace(c1).1;
    RestOfInput(s, r);
    var k := 1 + |Eaten(c1, r)|;
    forall i | 1 <= i < k
      ensures CharExt.IsWhitespace(s[i])
    {
      assert Eaten(c1, r)[i - 1] == s[i];
    }
  }

  /** The identifier arm, read back over `s`. */
  lemma IdentifierRest(s: seq<char>)
    requires |s| > 0
    ensures var k := 1 + |Eaten(AfterFirst(s), ScanIdentifier(AfterFirst(s)).1)|;
            && (forall i :: 1 <= i < k ==> IsIdContinue(s[i]))
            && (k == |s| || !IsIdContinue(s[k]))
  {
    var c1 := AfterFirst(s);
    var r := ScanIdentifier(c1).1;
    RestOfInput(s, r);
    var k := 1 + |Eaten(c1, r)|;
    forall i | 1 <= i < k
      ensures IsIdContinue(s[i])
    {
      assert Eaten(c1, r)[i - 1] == s[i];
    }
  }

  /** The line-comment arm, read back over `s`. */
  lemma LineCommentRest(s: seq<char>)
    requires |s| >= 2
    ensures var k := 1 + |Eaten(AfterFirst(s), ScanLineComment(AfterFirst(s)).1)|;
            && k >= 2
            && (forall i :: 2 <= i < k ==> s[i] != '\n')
            && (k == |s| || s[k] == '\n')
  {
    var c1 := AfterFirst(s);
    var r := ScanLineComment(c1).1;
    RestOfInput(s, r);
    var k := 1 + |Eaten(c1, r)|;
    forall i | 2 <= i < k
      ensures s[i] != '\n'
    {
      assert Eaten(c1, r)[i - 1] == s[i];
    }
  }

  /** The block-comment arm, read back over `s`. */
  lemma BlockCommentRest(s: seq<char>)
    requires |s| >= 2 && s[0] == '(' && s[1] == '*'
    ensures var k := 1 + |Eaten(AfterFirst(s), ScanBlockComment(AfterFirst(s)).1)|;
            || (k >= 4 && ClosesAt(s, k - 2) && forall j :: 2 <= j < k - 2 ==> !ClosesAt(s, j))
            || (k == |s| && forall j :: 2 <= j < |s| ==> !ClosesAt(s, j))
  {
    var c1 := AfterFirst(s);
    RestOfInput(s, ScanBlockComment(c1).1);
    assert forall j :: 1 <= j < |c1.chars| ==> (ClosesAt(c1.chars, j) <==> ClosesAt(s, j + 1));
    assert forall j :: 2 <= j < |s| ==> (ClosesAt(s, j) <==> ClosesAt(c1.chars, j - 1));
  }

  /** The number arm, read back over `s`. */
  lemma NumberRest(s: seq<char>)
    requires |s| > 0
    ensures var k := 1 + |Eaten(AfterFirst(s), ScanNumber(AfterFirst(s)).1)|;
            && (forall i :: 1 <= i < k ==> s[i] == '_' || IsBodyDigit(s[0], s[i]))
            && (k == |s| || (s[k] != '_' && !IsBodyDigit(s[0], s[k])))
  {
    var c1 := AfterFirst(s);
    var r := ScanNumber(c1).1;
    RestOfInput(s, r);
    var k := 1 + |Eaten(c1, r)|;
    forall i | 1 <= i < k
      ensures s[i] == '_' || IsBodyDigit(s[0], s[i])
    {
      assert Eaten(c1, r)[i - 1] == s[i];
    }
  }

  /** `s[j]` is a quote preceded, back to the opening one, only by string content. */
  predicate ClosesStringAt(s: seq<char>, j: int)
  {
    1 <= j < |s| && s[j] == '\'' && IsStringContent(s[1..j])
  }

  /** Some quote after the opening one is preceded only by string content. */
  predicate HasClosingQuote(s: seq<char>)
  {
    exists j :: 1 <= j < |s| && ClosesStringAt(s, j)
  }

  /**
    A stretch of string content that ends at a newline or at the end of
    input leaves no closing quote.
   */
  lemma NoClosingQuoteBefore(s: seq<char>, k: nat)
    requires 1 <= k <= |s| && IsStringContent(s[1..k]) && (k == |s| || s[k] == '\n')
    ensures !HasClosingQuote(s)
  {
    forall j | 1 <= j < |s|
      ensures !ClosesStringAt(s, j)
    {
      if j < k {
        assert s[1..k][j - 1] == s[j];
      } else if s[j] == '\'' {
        assert s[1..j][k - 1] == s[k];
      }
    }
  }

  lemma QuoteCloses(s: seq<char>, j: nat)
    requires 1 <= j < |s| && s[j] == '\'' && IsStringContent(s[1..j])
    ensures HasClosingQuote(s)
  {
    assert ClosesStringAt(s, j);
  }

  /** The string arm, read back over `s`. */
  lemma StringRest(s: seq<char>)
    requires |s| > 0
    ensures var r := ScanCharacterString(AfterFirst(s));
            var k := 1 + |Eaten(AfterFirst(s), r.1)|;
            && (r.0 <==> HasClosingQuote(s))
            && (r.0 ==> k >= 2 && s[k - 1] == '\'' && IsStringContent(s[1..k - 1]))
            && (!r.0 ==> IsStringContent(s[1..k]) && (k == |s| || s[k] == '\n'))
  {
    var c1 := AfterFirst(s);
    var r := ScanCharacterString(c1);
    RestOfInput(s, r.1);
    var e := Eaten(c1, r.1);
    var k := 1 + |e|;
    assert e == s[1..k];
    if r.0 {
      assert e[..|e| - 1] == s[1..k - 1];
      QuoteCloses(s, k - 1);
    } else {
      NoClosingQuoteBefore(s, k);
    }
  }

  // ---------------------------------------------------------------------
  // Arm selection, one class of first character at a time
  // ---------------------------------------------------------------------

  lemma ArmOfSlash(next: char)
    ensures SelectArm('/', next) == if next == '/' then LineCommentArm else Single(Slash)
  {
  }

  lemma ArmOfParen(next: char)
    ensures SelectArm('(', next) == if next == '*' then BlockCommentArm else Single(LeftRound)
  {
  }

  lemma ArmOfWhitespace(ch: char, next: char)
    requires CharExt.IsWhitespace(ch)
    ensures SelectArm(ch, next) == WhitespaceArm
  {
  }

  lemma ArmOfIdStart(ch: char, next: char)
    requires IsIdStart(ch)
    ensures SelectArm(ch, next) == IdentifierArm
  {
    assert !IsDigit(ch, 10);
  }

  lemma ArmOfAmpersand(next: char)
    ensures SelectArm('&', next) ==
              if IsIdStart(next) then IdentifierArm
              else if IsDigit(next, 8) then NumberArm
              else Single(Unknown)
  {
  }

  lemma ArmOfQuote(next: char)
    ensures SelectArm('\'', next) == StringArm
  {
  }

  lemma ArmOfNumber(ch: char, next: char)
    requires || IsDecimalDigit(ch)
             || (ch == '&' && IsDigit(next, 8))
             || (ch == '$' && IsDigit(next, 16))
             || (ch == '%' && IsDigit(next, 2))
    ensures SelectArm(ch, next) == NumberArm
  {
    if ch == '&' {
      assert !IsIdStart(next);
    } else if IsDecimalDigit(ch) {
      assert IsDigit(ch, 10);
    }
  }

  /** Only integer-literal starts select the number arm. */
  lemma NumberArmOnlyForIntegers(ch: char, next: char)
    requires SelectArm(ch, next) == NumberArm
    ensures || IsDecimalDigit(ch)
            || (ch == '&' && IsDigit(next, 8))
            || (ch == '$' && IsDigit(next, 16))
            || (ch == '%' && IsDigit(next, 2))
  {
  }

  lemma ArmOfPunctuation(ch: char, next: char)
    requires ch in PunctuationKinds
    ensures SelectArm(ch, next) == Single(PunctuationKinds[ch])
  {
  }

  lemma ArmOfBarePrefix(ch: char, next: char)
    requires || (ch == '&' && !IsIdStart(next) && !IsDigit(next, 8))
             || (ch == '$' && !IsDigit(next, 16))
             || (ch == '%' && !IsDigit(next, 2))
    ensures SelectArm(ch, next) == Single(Unknown)
  {
  }

  lemma ArmOfUnrecognised(ch: char, next: char)
    requires !IsRecognisedStart(ch)
    ensures SelectArm(ch, next) == Single(Unknown)
  {
    assert !IsDigit(ch, 10);
  }

  // ---------------------------------------------------------------------
  // Each arm's lexeme, in terms of its scanner
  // ---------------------------------------------------------------------

  lemma LineCommentLexeme(s: seq<char>)
    requires |s| >= 2 && s[0] == '/' && s[1] == '/'
    ensures FirstLexeme(s).kind == LineComment
    ensures FirstLexemeWidth(s) == 1 + |Eaten(AfterFirst(s), ScanLineComment(AfterFirst(s)).1)|
  {
    ArmOfSlash(Next(s));
    FirstLexemeByArm(s, LineCommentArm);
  }

  lemma BlockCommentLexeme(s: seq<char>)
    requires |s| >= 2 && s[0] == '(' && s[1] == '*'
    ensures Prev(AfterFirst(s)) == '(' && First(AfterFirst(s)) == '*'
    ensures FirstLexeme(s).kind == BlockComment
    ensures FirstLexemeWidth(s) == 1 + |Eaten(AfterFirst(s), ScanBlockComment(AfterFirst(s)).1)|
  {
    ArmOfParen(Next(s));
    FirstLexemeByArm(s, BlockCommentArm);
  }

  lemma WhitespaceLexeme(s: seq<char>)
    requires |s| > 0 && CharExt.IsWhitespace(s[0])
    ensures FirstLexeme(s).kind == Whitespace
    ensures FirstLexemeWidth(s) == 1 + |Eaten(AfterFirst(s), ScanWhitespace(AfterFirst(s)).1)|
  {
    ArmOfWhitespace(s[0], Next(s));
    FirstLexemeByArm(s, WhitespaceArm);
  }

  lemma IdentifierLexeme(s: seq<char>)
    requires |s| > 0 && SelectArm(s[0], Next(s)) == IdentifierArm
    ensures FirstLexeme(s).kind == Identifier
    ensures FirstLexemeWidth(s) == 1 + |Eaten(AfterFirst(s), ScanIdentifier(AfterFirst(s)).1)|
  {
    FirstLexemeByArm(s, IdentifierArm);
  }

  lemma StringLexeme(s: seq<char>)
    requires |s| > 0 && s[0] == '\''
    ensures FirstLexeme(s).kind == Literal(String(ScanCharacterString(AfterFirst(s)).0))
    ensures FirstLexemeWidth(s) == 1 + |Eaten(AfterFirst(s), ScanCharacterString(AfterFirst(s)).1)|
  {
    ArmOfQuote(Next(s));
    FirstLexemeByArm(s, StringArm);
  }

  // ---------------------------------------------------------------------
  // Comments and the slash
  // ---------------------------------------------------------------------

  /**
    `//` starts a line comment that ends just before the first newline
    after it, or at the end of input; the newline is not part of it.
   */
  lemma LineCommentStopsBeforeNewline(s: seq<char>)
    requires |s| >= 2 && s[0] == '/' && s[1] == '/'
    ensures var k := FirstLexemeWidth(s);
            && FirstLexeme(s).kind == LineComment
            && k >= 2
            && (forall i :: 2 <= i < k ==> s[i] != '\n')
            && (k == |s| || s[k] == '\n')
  {
    LineCommentLexeme(s);
    LineCommentRest(s);
  }

  /** A `/` not followed by another `/` is a one-byte `Slash`. */
  lemma LoneSlash(s: seq<char>)
    requires |s| > 0 && s[0] == '/' && (|s| == 1 || s[1] != '/')
    ensures FirstLexeme(s) == Lexeme(Slash, 1)
  {
    ArmOfSlash(Next(s));
    FirstLexemeOfSingle(s, Slash);
  }

  /**
    `(*` starts a block comment that ends right after the first `*)` whose
    `*` is not the opening one (so `(*)` does not close), or else runs to
    the end of input.
   */
  lemma BlockCommentStopsAfterFirstClose(s: seq<char>)
    requires |s| >= 2 && s[0] == '(' && s[1] == '*'
    ensures var k := FirstLexemeWidth(s);
            && FirstLexeme(s).kind == BlockComment
            && (|| (k >= 4 && ClosesAt(s, k - 2) && forall j :: 2 <= j < k - 2 ==> !ClosesAt(s, j))
                || (k == |s| && forall j :: 2 <= j < |s| ==> !ClosesAt(s, j)))
  {
    BlockCommentLexeme(s);
    BlockCommentRest(s);
  }

  /** A `(` not followed by `*` is a one-byte `LeftRound`. */
  lemma LoneLeftRound(s: seq<char>)
    requires |s| > 0 && s[0] == '(' && (|s| == 1 || s[1] != '*')
    ensures FirstLexeme(s) == Lexeme(LeftRound, 1)
  {
    ArmOfParen(Next(s));
    FirstLexemeOfSingle(s, LeftRound);
  }

  // ---------------------------------------------------------------------
  // Whitespace and identifiers: maximal munch
  // ---------------------------------------------------------------------

  /** Whitespace lexemes are maximal runs of whitespace. */
  lemma WhitespaceIsMaximalRun(s: seq<char>)
    requires |s| > 0 && CharExt.IsWhitespace(s[0])
    ensures var k := FirstLexemeWidth(s);
            && FirstLexeme(s).kind == Whitespace
            && (forall i :: 0 <= i < k ==> CharExt.IsWhitespace(s[i]))
            && (k == |s| || !CharExt.IsWhitespace(s[k]))
  {
    WhitespaceLexeme(s);
    WhitespaceRest(s);
  }

  /** `s[a..k]` is an identifier start followed by identifier characters. */
  lemma IdentifierRun(s: seq<char>, a: nat, k: nat)
    requires a < k <= |s| && IsIdStart(s[a])
    requires forall i :: a < i < k ==> IsIdContinue(s[i])
    ensures IsLexicallyIdent(s[a..k])
    ensures forall i :: a <= i < k ==> s[i] as int < 0x80
  {
    LexicallyIdentMeaning(s[a..k]);
    assert forall i :: 0 <= i < k - a ==> s[a..k][i] == s[a + i];
  }

  /** An ASCII prefix is as many bytes long as it has characters. */
  lemma AsciiPrefix(s: seq<char>, k: nat)
    requires k <= |s| && forall i :: 0 <= i < k ==> s[i] as int < 0x80
    ensures Utf8Bytes(s[..k]) == k
  {
    assert forall i :: 0 <= i < k ==> s[..k][i] == s[i];
    AsciiBytes(s[..k]);
  }

  /** What the dispatch of an identifier start consumes. */
  lemma IdentifierScan(s: seq<char>)
    requires |s| > 0 && IsIdStart(s[0])
    ensures var k := FirstLexemeWidth(s);
            && FirstLexeme(s).kind == Identifier
            && (forall i :: 1 <= i < k ==> IsIdContinue(s[i]))
            && (k == |s| || !IsIdContinue(s[k]))
  {
    ArmOfIdStart(s[0], Next(s));
    IdentifierLexeme(s);
    IdentifierRest(s);
  }

  /** What the dispatch of `&` + identifier start consumes. */
  lemma AmpersandIdentifierScan(s: seq<char>)
    requires |s| >= 2 && s[0] == '&' && IsIdStart(s[1])
    ensures var k := FirstLexemeWidth(s);
            && FirstLexeme(s).kind == Identifier
            && (forall i :: 1 <= i < k ==> IsIdContinue(s[i]))
            && (k == |s| || !IsIdContinue(s[k]))
  {
    ArmOfAmpersand(Next(s));
    IdentifierLexeme(s);
    IdentifierRest(s);
  }

  /**
    An identifier is an identifier start followed by a maximal run of
    identifier characters; its length is its character count.
   */
  lemma IdentifierIsMaximalRun(s: seq<char>)
    requires |s| > 0 && IsIdStart(s[0])
    ensures var k := FirstLexemeWidth(s);
            && FirstLexeme(s) == Lexeme(Identifier, k)
            && IsLexicallyIdent(s[..k])
            && (k == |s| || !IsIdContinue(s[k]))
  {
    IdentifierScan(s);
    var k := FirstLexemeWidth(s);
    IdentifierRun(s, 0, k);
    assert s[0..k] == s[..k];
    AsciiPrefix(s, k);
  }

  /**
    `&` before an identifier start lexes, `&` included, as a plain
    `Identifier` (never `RawIdentifier`) running over the maximal
    identifier that follows.
   */
  lemma AmpersandIdentifier(s: seq<char>)
    requires |s| >= 2 && s[0] == '&' && IsIdStart(s[1])
    ensures var k := FirstLexemeWidth(s);
            && FirstLexeme(s) == Lexeme(Identifier, k)
            && k >= 2
            && IsLexicallyIdent(s[1..k])
            && (k == |s| || !IsIdContinue(s[k]))
  {
    AmpersandIdentifierScan(s);
    var k := FirstLexemeWidth(s);
    assert IsIdContinue(s[1]);
    IdentifierRun(s, 1, k);
    AsciiPrefix(s, k);
  }

  /** A lexically valid identifier lexes as exactly one `Identifier` covering all of it. */
  lemma LexicallyIdentIsOneIdentifier(s: seq<char>)
    requires IsLexicallyIdent(s)
    ensures FirstLexemeWidth(s) == |s|
    ensures FirstLexeme(s) == Lexeme(Identifier, |s|)
  {
    LexicallyIdentMeaning(s);
    IdentifierIsMaximalRun(s);
  }

  /** ... and the driver yields that single lexeme and nothing else. */
  lemma LexicallyIdentIsWholeStream(s: seq<char>)
    requires IsLexicallyIdent(s)
    ensures LexicalAnalyze(s) == [Lexeme(Identifier, |s|)]
  {
    LexicallyIdentIsOneIdentifier(s);
    LexicalAnalyzeUnfolds(s);
    assert s[|s|..] == [];
  }

  /** The driver emits `first_lexeme` of the input, then lexes what follows it. */
  lemma LexicalAnalyzeUnfolds(s: seq<char>)
    requires |s| > 0
    ensures LexicalAnalyze(s) == [FirstLexeme(s)] + LexicalAnalyze(s[FirstLexemeWidth(s)..])
  {
    SliceFromByteAtBoundary(s, FirstLexemeWidth(s));
  }

  // ---------------------------------------------------------------------
  // Integer literals
  // ---------------------------------------------------------------------

  /** Inputs whose first lexeme the dispatch sends to `number`. */
  predicate StartsInteger(s: seq<char>)
  {
    && |s| > 0
    && (|| IsDecimalDigit(s[0])
        || (s[0] == '&' && IsDigit(Next(s), 8))
        || (s[0] == '$' && IsDigit(Next(s), 16))
        || (s[0] == '%' && IsDigit(Next(s), 2)))
  }

  /**
    An integer literal takes its base from its prefix (`$` hexadecimal, `&`
    octal, `%` binary, none decimal), is never marked empty, and runs over a
    maximal body of `_` and digits; after `&` and `%` the body is read with
    the decimal eater, so `8` and `9` belong to it.  A `.` is never part of
    an integer literal.
   */
  lemma IntegerLiteralExtent(s: seq<char>)
    requires StartsInteger(s)
    ensures var k := FirstLexemeWidth(s);
            && FirstLexeme(s).kind == Literal(Integer(BaseOfPrefix(s[0]), false))
            && (forall i :: 1 <= i < k ==> s[i] == '_' || IsBodyDigit(s[0], s[i]))
            && (k == |s| || (s[k] != '_' && !IsBodyDigit(s[0], s[k])))
            && (!IsDecimalDigit(s[0]) ==> k >= 2)
            && (forall i :: 0 <= i < k ==> s[i] != '.')
  {
    NumberLexeme(s);
    NumberFacts(s);
  }

  /** The number arm's lexeme, in terms of `ScanNumber`. */
  lemma NumberLexeme(s: seq<char>)
    requires StartsInteger(s)
    ensures FirstLexeme(s).kind == Literal(Integer(BaseOfPrefix(s[0]), false))
    ensures FirstLexemeWidth(s) == 1 + |Eaten(AfterFirst(s), ScanNumber(AfterFirst(s)).1)|
  {
    ArmOfNumber(s[0], Next(s));
    FirstLexemeByArm(s, NumberArm);
  }

  /** What `ScanNumber` consumes, read back over `s`, prefix and dots included. */
  lemma NumberFacts(s: seq<char>)
    requires StartsInteger(s)
    ensures var k := 1 + |Eaten(AfterFirst(s), ScanNumber(AfterFirst(s)).1)|;
            && (forall i :: 1 <= i < k ==> s[i] == '_' || IsBodyDigit(s[0], s[i]))
            && (k == |s| || (s[k] != '_' && !IsBodyDigit(s[0], s[k])))
            && (!IsDecimalDigit(s[0]) ==> k >= 2)
            && (forall i :: 0 <= i < k ==> s[i] != '.')
  {
    NumberRest(s);
    DotIsNoBodyDigit(s[0]);
    if !IsDecimalDigit(s[0]) {
      NumberPrefixNeedsDigit(s);
    }
  }

  /** `.` is neither a digit nor a separator, whatever the prefix. */
  lemma DotIsNoBodyDigit(prev: char)
    ensures !IsBodyDigit(prev, '.')
  {
  }

  /** After a prefix, the number arm consumes at least the digit that selected it. */
  lemma NumberPrefixNeedsDigit(s: seq<char>)
    requires StartsInteger(s) && !IsDecimalDigit(s[0])
    ensures 1 + |Eaten(AfterFirst(s), ScanNumber(AfterFirst(s)).1)| >= 2
  {
    NumberRest(s);
    assert IsBodyDigit(s[0], s[1]);
  }

  /** The base follows the prefix character. */
  lemma BaseOfPrefixTable(d: char)
    requires IsDecimalDigit(d)
    ensures BaseOfPrefix('$') == Base16 && BaseOfPrefix('&') == Base8
    ensures BaseOfPrefix('%') == Base2 && BaseOfPrefix(d) == Base10
  {
  }

  /**
    Exactly the inputs of `StartsInteger` lex as integer literals, and none
    of them is ever flagged empty.
   */
  lemma IntegerLiteralsAreNeverEmpty(s: seq<char>)
    requires |s| > 0
    ensures FirstLexeme(s).kind.Literal? && FirstLexeme(s).kind.literal.Integer? <==> StartsInteger(s)
    ensures FirstLexeme(s).kind.Literal? && FirstLexeme(s).kind.literal.Integer? ==>
              !FirstLexeme(s).kind.literal.empty
  {
    var arm := SelectArm(s[0], Next(s));
    if arm == NumberArm {
      NumberArmOnlyForIntegers(s[0], Next(s));
    } else if StartsInteger(s) {
      ArmOfNumber(s[0], Next(s));
    }
    FirstLexemeUnfolds(s);
  }

  // ---------------------------------------------------------------------
  // String literals
  // ---------------------------------------------------------------------

  /**
    A `'` starts a string literal.  It is terminated exactly when another
    `'` follows before any newline; it then ends right after that quote.
    Otherwise it stops before the newline, or at the end of input.
   */
  lemma StringLiteralExtent(s: seq<char>)
    requires |s| > 0 && s[0] == '\''
    ensures var k := FirstLexemeWidth(s);
            var t := FirstLexeme(s).kind;
            && t.Literal? && t.literal.String?
            && (t.literal.terminated <==> HasClosingQuote(s))
            && (t.literal.terminated ==> k >= 2 && s[k - 1] == '\'' && IsStringContent(s[1..k - 1]))
            && (!t.literal.terminated ==> IsStringContent(s[1..k]) && (k == |s| || s[k] == '\n'))
  {
    StringLexeme(s);
    StringRest(s);
  }

  // ---------------------------------------------------------------------
  // Single characters
  // ---------------------------------------------------------------------

  /** The characters that always form a one-byte punctuation lexeme of their own. */
  const PunctuationKinds: map<char, LexemeType> :=
    map['+' := Plus, '-' := Minus, '*' := Star, '=' := Equal, '<' := LeftAngle,
        '>' := RightAngle, '[' := LeftSquare, ']' := RightSquare, '.' := Dot,
        ',' := Comma, ')' := RightRound, ':' := Colon, '^' := Caret, '@' := At,
        '#' := Pound, ';' := Semicolon]

  lemma PunctuationKindsArePunctuation(ch: char)
    requires ch in PunctuationKinds
    ensures IsPunctuation(PunctuationKinds[ch])
    ensures Utf8Len(ch) == 1
  {
  }

  /** Each punctuation character maps to its kind, one byte long. */
  lemma PunctuationIsOneByte(s: seq<char>)
    requires |s| > 0 && s[0] in PunctuationKinds
    ensures FirstLexeme(s) == Lexeme(PunctuationKinds[s[0]], 1)
    ensures IsPunctuation(PunctuationKinds[s[0]])
  {
    PunctuationKindsArePunctuation(s[0]);
    ArmOfPunctuation(s[0], Next(s));
    FirstLexemeOfSingle(s, PunctuationKinds[s[0]]);
  }

  /** `&`, `$` or `%` without a character that continues it is a one-byte `Unknown`. */
  lemma BarePrefixIsUnknown(s: seq<char>)
    requires |s| > 0
    requires || (s[0] == '&' && !IsIdStart(Next(s)) && !IsDigit(Next(s), 8))
             || (s[0] == '$' && !IsDigit(Next(s), 16))
             || (s[0] == '%' && !IsDigit(Next(s), 2))
    ensures FirstLexeme(s) == Lexeme(Unknown, 1)
  {
    ArmOfBarePrefix(s[0], Next(s));
    FirstLexemeOfSingle(s, Unknown);
  }

  /** First characters the dispatch gives a meaning to. */
  predicate IsRecognisedStart(c: char)
  {
    || CharExt.IsWhitespace(c) || IsIdStart(c) || IsDecimalDigit(c)
    || c in PunctuationKinds || c in ['/', '&', '$', '%', '(', '\'']
  }

  /**
    Any other character, `{` among them, is an `Unknown` lexeme consuming
    exactly that character, however many bytes it takes.
   */
  lemma UnrecognisedCharIsUnknown(s: seq<char>)
    requires |s| > 0 && !IsRecognisedStart(s[0])
    ensures FirstLexemeWidth(s) == 1
    ensures FirstLexeme(s) == Lexeme(Unknown, Utf8Len(s[0]))
    ensures !IsRecognisedStart('{')
  {
    ArmOfUnrecognised(s[0], Next(s));
    FirstLexemeOfSingle(s, Unknown);
  }

  // ---------------------------------------------------------------------
  // Reclassification: a lexeme's own text lexes back to it
  // ---------------------------------------------------------------------

  /** An arm of fixed kind is chosen whatever comes next, the end of input included. */
  lemma SingleArmIgnoresLookahead(ch: char, next: char)
    requires SelectArm(ch, next).Single?
    ensures SelectArm(ch, EOF_CHAR) == SelectArm(ch, next)
  {
  }

  /**
    The first lexeme's text, lexed on its own, is one lexeme of the same
    kind that covers all of that text.
   */
  predicate KindStable(s: seq<char>)
    requires |s| > 0
  {
    var k := FirstLexemeWidth(s);
    FirstLexemeWidth(s[..k]) == k && FirstLexeme(s[..k]).kind == FirstLexeme(s).kind
  }

  /**
    A run of `p`-characters from `a` that ends at `k` also ends at `k` in
    `s[..k]`: a shorter end `k2` would stop at a `p`-character.
   */
  lemma RunEndInPrefix(s: seq<char>, a: nat, k: nat, k2: nat, p: char -> bool)
    requires a <= k2 <= k <= |s|
    requires forall i :: a <= i < k ==> p(s[i])
    requires k2 == k || !p(s[..k][k2])
    ensures k2 == k
  {
    assert forall i :: a <= i < k ==> s[..k][i] == s[i];
  }

  /** A one-character lexeme of fixed kind, relexed alone. */
  lemma StableSingle(s: seq<char>)
    requires |s| > 0 && SelectArm(s[0], Next(s)).Single?
    ensures KindStable(s)
  {
    var kind := SelectArm(s[0], Next(s)).kind;
    FirstLexemeOfSingle(s, kind);
    var t := s[..1];
    SingleArmIgnoresLookahead(s[0], Next(s));
    assert t[0] == s[0] && Next(t) == EOF_CHAR;
    FirstLexemeOfSingle(t, kind);
  }

  lemma StableWhitespace(s: seq<char>)
    requires |s| > 0 && CharExt.IsWhitespace(s[0])
    ensures KindStable(s)
  {
    var k := FirstLexemeWidth(s);
    var t := s[..k];
    WhitespaceIsMaximalRun(s);
    assert t[0] == s[0];
    WhitespaceIsMaximalRun(t);
    RunEndInPrefix(s, 0, k, FirstLexemeWidth(t), CharExt.IsWhitespace);
  }

  lemma StableIdentifier(s: seq<char>)
    requires |s| > 0 && IsIdStart(s[0])
    ensures KindStable(s)
  {
    var k := FirstLexemeWidth(s);
    var t := s[..k];
    IdentifierScan(s);
    assert t[0] == s[0];
    IdentifierScan(t);
    RunEndInPrefix(s, 1, k, FirstLexemeWidth(t), IsIdContinue);
  }

  lemma StableAmpersandIdentifier(s: seq<char>)
    requires |s| >= 2 && s[0] == '&' && IsIdStart(s[1])
    ensures KindStable(s)
  {
    var k := FirstLexemeWidth(s);
    AmpersandIdentifierScan(s);
    assert IsIdContinue(s[1]);
    var t := s[..k];
    assert t[0] == '&' && t[1] == s[1];
    AmpersandIdentifierScan(t);
    RunEndInPrefix(s, 1, k, FirstLexemeWidth(t), IsIdContinue);
  }

  lemma StableLineComment(s: seq<char>)
    requires |s| >= 2 && s[0] == '/' && s[1] == '/'
    ensures KindStable(s)
  {
    var k := FirstLexemeWidth(s);
    LineCommentStopsBeforeNewline(s);
    var t := s[..k];
    assert t[0] == '/' && t[1] == '/';
    LineCommentStopsBeforeNewline(t);
    RunEndInPrefix(s, 2, k, FirstLexemeWidth(t), c => c != '\n');
  }

  /**
    Where a block comment opened at `s[0]` ends: right after its first `*)`
    past the opening `*`, or at the end of `s` when there is none.
   */
  predicate BlockCommentEnds(s: seq<char>, k: nat)
  {
    || (4 <= k <= |s| && ClosesAt(s, k - 2) && forall j :: 2 <= j < k - 2 ==> !ClosesAt(s, j))
    || (k == |s| && forall j :: 2 <= j < |s| ==> !ClosesAt(s, j))
  }

  lemma BlockCommentEndsAtWidth(s: seq<char>)
    requires |s| >= 2 && s[0] == '(' && s[1] == '*'
    ensures FirstLexeme(s).kind == BlockComment && BlockCommentEnds(s, FirstLexemeWidth(s))
  {
    BlockCommentStopsAfterFirstClose(s);
  }

  /** A block comment that closes at `k` closes there in `s[..k]` too, and nowhere earlier. */
  lemma BlockCommentEndsInPrefix(s: seq<char>, k: nat, t: seq<char>, k2: nat)
    requires k < |s| && BlockCommentEnds(s, k)
    requires t == s[..k] && k2 <= |t| && BlockCommentEnds(t, k2)
    ensures k2 == k
  {
    assert forall j :: 0 <= j && j + 1 < k ==> (ClosesAt(t, j) <==> ClosesAt(s, j));
  }

  lemma StableBlockComment(s: seq<char>)
    requires |s| >= 2 && s[0] == '(' && s[1] == '*'
    ensures KindStable(s)
  {
    var k := FirstLexemeWidth(s);
    BlockCommentEndsAtWidth(s);
    var t := s[..k];
    if k == |s| {
      assert t == s;
    } else {
      assert t[0] == '(' && t[1] == '*';
      BlockCommentEndsAtWidth(t);
      BlockCommentEndsInPrefix(s, k, t, FirstLexemeWidth(t));
    }
  }

  /** Where an integer literal ends: after a maximal run of `_` and body digits. */
  predicate IntegerEnds(s: seq<char>, k: nat)
    requires 0 < k <= |s|
  {
    && (forall i :: 1 <= i < k ==> s[i] == '_' || IsBodyDigit(s[0], s[i]))
    && (k == |s| || (s[k] != '_' && !IsBodyDigit(s[0], s[k])))
  }

  lemma IntegerEndsAtWidth(s: seq<char>)
    requires StartsInteger(s)
    ensures FirstLexeme(s).kind == Literal(Integer(BaseOfPrefix(s[0]), false))
    ensures IntegerEnds(s, FirstLexemeWidth(s))
    ensures !IsDecimalDigit(s[0]) ==> FirstLexemeWidth(s) >= 2
  {
    IntegerLiteralExtent(s);
  }

  /** An integer literal that ends at `k` ends there in `s[..k]` too. */
  lemma IntegerEndsInPrefix(s: seq<char>, k: nat, t: seq<char>, k2: nat)
    requires 0 < k <= |s| && IntegerEnds(s, k)
    requires t == s[..k] && 0 < k2 <= |t| && IntegerEnds(t, k2)
    ensures k2 == k
  {
    assert forall i :: 0 <= i < k ==> t[i] == s[i];
  }

  lemma StableNumber(s: seq<char>)
    requires StartsInteger(s)
    ensures KindStable(s)
  {
    var k := FirstLexemeWidth(s);
    IntegerEndsAtWidth(s);
    var t := s[..k];
    PrefixStartsInteger(s, k);
    IntegerEndsAtWidth(t);
    IntegerEndsInPrefix(s, k, t, FirstLexemeWidth(t));
  }

  /** A prefix that keeps the digit after an integer's prefix still starts that integer. */
  lemma PrefixStartsInteger(s: seq<char>, k: nat)
    requires StartsInteger(s) && 1 <= k <= |s| && (!IsDecimalDigit(s[0]) ==> k >= 2)
    ensures StartsInteger(s[..k]) && s[..k][0] == s[0]
  {
    if k >= 2 {
      assert s[..k][1] == s[1];
    }
  }

  /**
    Where a string literal opened at `s[0]` ends, and whether it is
    terminated: right after the first closing quote, or before the newline
    or the end of input that comes first.
   */
  predicate StringEnds(s: seq<char>, k: nat, terminated: bool)
    requires 0 < k <= |s|
  {
    && (terminated <==> HasClosingQuote(s))
    && (terminated ==> k >= 2 && s[k - 1] == '\'' && IsStringContent(s[1..k - 1]))
    && (!terminated ==> IsStringContent(s[1..k]) && (k == |s| || s[k] == '\n'))
  }

  lemma StringEndsAtWidth(s: seq<char>) returns (terminated: bool)
    requires |s| > 0 && s[0] == '\''
    ensures FirstLexeme(s).kind == Literal(String(terminated))
    ensures StringEnds(s, FirstLexemeWidth(s), terminated)
  {
    StringLiteralExtent(s);
    terminated := FirstLexeme(s).kind.literal.terminated;
  }

  /** String content has no quote, so a string closes at one place only. */
  lemma ClosingQuoteIsUnique(u: seq<char>, a: nat, b: nat)
    requires 2 <= a <= |u| && u[a - 1] == '\'' && IsStringContent(u[1..a - 1])
    requires 2 <= b <= |u| && u[b - 1] == '\'' && IsStringContent(u[1..b - 1])
    ensures a == b
  {
    assert forall i :: 1 <= i < a - 1 ==> u[1..a - 1][i - 1] == u[i];
    assert forall i :: 1 <= i < b - 1 ==> u[1..b - 1][i - 1] == u[i];
  }

  /** String content that runs to the end of `u` leaves room for no other end. */
  lemma OpenStringEndsAtEnd(u: seq<char>, k2: nat)
    requires 1 <= k2 <= |u| && IsStringContent(u[1..|u|])
    requires k2 == |u| || u[k2] == '\n'
    ensures k2 == |u|
  {
    assert forall i :: 1 <= i < |u| ==> u[1..|u|][i - 1] == u[i];
  }

  /** A string literal that ends at `k` ends there in `s[..k]` too, terminated alike. */
  lemma StringEndsInPrefix(s: seq<char>, k: nat, b: bool, t: seq<char>, k2: nat, b2: bool)
    requires 0 < k <= |s| && StringEnds(s, k, b)
    requires t == s[..k] && 0 < k2 <= |t| && StringEnds(t, k2, b2)
    ensures k2 == k && b2 == b
  {
    if b {
      assert t[1..k - 1] == s[1..k - 1];
      QuoteCloses(t, k - 1);
      ClosingQuoteIsUnique(t, k2, k);
    } else {
      assert t[1..k] == s[1..k];
      NoClosingQuoteBefore(t, k);
      OpenStringEndsAtEnd(t, k2);
    }
  }

  lemma StableString(s: seq<char>)
    requires |s| > 0 && s[0] == '\''
    ensures KindStable(s)
  {
    var k := FirstLexemeWidth(s);
    var b := StringEndsAtWidth(s);
    var t := s[..k];
    assert t[0] == '\'';
    var b2 := StringEndsAtWidth(t);
    StringEndsInPrefix(s, k, b, t, FirstLexemeWidth(t), b2);
  }

  /** Equal widths mean equal byte lengths, so equal kinds mean equal lexemes. */
  lemma SameWidthSameLexeme(s: seq<char>)
    requires |s| > 0 && KindStable(s)
    ensures var k := FirstLexemeWidth(s);
            FirstLexeme(s[..k]) == FirstLexeme(s)
  {
    var k := FirstLexemeWidth(s);
    assert s[..k][..k] == s[..k];
  }

  /** Every arm's lexeme is kind-stable. */
  lemma KindStableByArm(s: seq<char>)
    requires |s| > 0
    ensures KindStable(s)
  {
    match SelectArm(s[0], Next(s))
    case Single(_) => StableSingle(s);
    case LineCommentArm => StableLineComment(s);
    case BlockCommentArm => StableBlockComment(s);
    case WhitespaceArm => StableWhitespace(s);
    case IdentifierArm =>
      if IsIdStart(s[0]) {
        StableIdentifier(s);
      } else {
        StableAmpersandIdentifier(s);
      }
    case NumberArm =>
      NumberArmOnlyForIntegers(s[0], Next(s));
      StableNumber(s);
    case StringArm => StableString(s);
  }

  /**
    Reclassification is stable: lexing the text of the first lexeme on its
    own gives the same lexeme, covering all of that text.  What follows a
    lexeme never changes its kind, only where it ends.
   */
  lemma FirstLexemeIsStable(s: seq<char>)
    requires |s| > 0
    ensures var k := FirstLexemeWidth(s);
            && FirstLexemeWidth(s[..k]) == k
            && FirstLexeme(s[..k]) == FirstLexeme(s)
  {
    KindStableByArm(s);
    SameWidthSameLexeme(s);
  }

  /** The driver lexes a lexeme's own text as that single lexeme. */
  lemma LexemeTextRelexesAlone(s: seq<char>)
    requires |s| > 0
    ensures LexicalAnalyze(s[..FirstLexemeWidth(s)]) == [FirstLexeme(s)]
  {
    var k := FirstLexemeWidth(s);
    var t := s[..k];
    FirstLexemeIsStable(s);
    LexicalAnalyzeUnfolds(t);
    assert t[k..] == [];
    SeqCons1(FirstLexeme(s));
  }

  // ---------------------------------------------------------------------
  // The driver: lexemes tile the input
  // ---------------------------------------------------------------------

  /**
    Slicing the input by the driver's lexeme lengths always lands on
    character boundaries and uses the whole input: the pieces, joined,
    give the input back.
   */
  lemma {:induction false} LexicalAnalyzeTilesInput(input: seq<char>)
    ensures CutByLengths(input, LexicalAnalyze(input)).Some?
    decreases |input|
  {
    if |input| > 0 {
      var k := FirstLexemeWidth(input);
      LexicalAnalyzeUnfolds(input);
      LexicalAnalyzeTilesInput(input[k..]);
      CutStep(input, FirstLexeme(input), LexicalAnalyze(input[k..]), k);
    }
  }

  /** A piece of the first `k` characters, then a cut of the rest, cuts the whole input. */
  lemma CutStep(input: seq<char>, x: Lexeme, rest: seq<Lexeme>, k: nat)
    requires 0 < k <= |input| && x.len == Utf8Bytes(input[..k])
    requires CutByLengths(input[k..], rest).Some?
    ensures CutByLengths(input, [x] + rest).Some?
  {
    SliceFromByteAtBoundary(input, k);
    assert ([x] + rest)[0] == x && ([x] + rest)[1..] == rest;
  }

  predicate AllNonEmpty(lexemes: seq<Lexeme>)
  {
    forall i :: 0 <= i < |lexemes| ==> lexemes[i].len >= 1
  }

  lemma NonEmptyCons(x: Lexeme, t: seq<Lexeme>)
    requires x.len >= 1 && AllNonEmpty(t)
    ensures AllNonEmpty([x] + t)
  {
    assert forall i :: 1 <= i < |t| + 1 ==> ([x] + t)[i] == t[i - 1];
  }

  /** No lexeme the driver emits is empty. */
  lemma {:induction false} LexemesAreNonEmpty(input: seq<char>)
    ensures AllNonEmpty(LexicalAnalyze(input))
    decreases |input|
  {
    if |input| > 0 {
      var k := FirstLexemeWidth(input);
      LexicalAnalyzeUnfolds(input);
      LexemesAreNonEmpty(input[k..]);
      NonEmptyCons(FirstLexeme(input), LexicalAnalyze(input[k..]));
    }
  }

  /** A decimal literal that is followed by `.` stops before it. */
  lemma DecimalStopsAtDot(s: seq<char>)
    requires |s| >= 2 && IsDecimalDigit(s[0]) && s[1] == '.'
    ensures FirstLexemeWidth(s) == 1
    ensures FirstLexeme(s) == Lexeme(Literal(Integer(Base10, false)), 1)
  {
    IntegerLiteralExtent(s);
    DotIsNoBodyDigit(s[0]);
    assert s[..1] == [s[0]];
  }

  /**
    Local proof helpers, not statements about the lexer: they name the
    sequence-display identities the driver examples below need, so that
    those proofs stay small.
   */
  lemma SeqCons1<T>(a: T)
    ensures [a] + [] == [a]
  {
  }

  lemma SeqCons2<T>(a: T, b: T)
    ensures [a] + [b] == [a, b]
  {
  }

  lemma SeqCons3<T>(a: T, b: T, c: T)
    ensures [a] + [b, c] == [a, b, c]
  {
  }

  /** The driver's first step on a digit followed by `.`. */
  lemma {:induction false} DecimalBeforeDot(s: seq<char>)
    requires |s| >= 2 && IsDecimalDigit(s[0]) && s[1] == '.'
    ensures LexicalAnalyze(s) == [Lexeme(Literal(Integer(Base10, false)), 1)] + LexicalAnalyze(s[1..])
  {
    DecimalStopsAtDot(s);
    LexicalAnalyzeUnfolds(s);
  }

  /** One step of the driver, stated without unfolding it. */
  lemma DriverStep(s: seq<char>, x: Lexeme, k: nat, rest: seq<Lexeme>)
    requires |s| > 0 && FirstLexeme(s) == x && FirstLexemeWidth(s) == k
    requires LexicalAnalyze(s[k..]) == rest
    ensures LexicalAnalyze(s) == [x] + rest
  {
    LexicalAnalyzeUnfolds(s);
  }

  lemma DigitAlone(s: seq<char>)
    requires |s| == 1 && IsDecimalDigit(s[0])
    ensures FirstLexemeWidth(s) == 1
    ensures FirstLexeme(s) == Lexeme(Literal(Integer(Base10, false)), 1)
  {
    IntegerLiteralExtent(s);
    assert s[..1] == [s[0]];
  }

  /** A digit on its own is one decimal literal. */
  lemma {:induction false} LoneDigit(s: seq<char>)
    requires |s| == 1 && IsDecimalDigit(s[0])
    ensures LexicalAnalyze(s) == [Lexeme(Literal(Integer(Base10, false)), 1)]
  {
    var x := Lexeme(Literal(Integer(Base10, false)), 1);
    DigitAlone(s);
    assert s[1..] == [];
    DriverStep(s, x, 1, []);
    SeqCons1(x);
  }

  /** A dot before a digit is a `Dot`, and the digit a literal of its own. */
  lemma {:induction false} DotThenDigit(t: seq<char>)
    requires |t| == 2 && t[0] == '.' && IsDecimalDigit(t[1])
    ensures LexicalAnalyze(t) ==
              [Lexeme(Dot, 1), Lexeme(Literal(Integer(Base10, false)), 1)]
  {
    LoneDigit(t[1..]);
    PunctuationIsOneByte(t);
    FirstLexemeOfSingle(t, Dot);
    DriverStep(t, Lexeme(Dot, 1), 1, [Lexeme(Literal(Integer(Base10, false)), 1)]);
    SeqCons2(Lexeme(Dot, 1), Lexeme(Literal(Integer(Base10, false)), 1));
  }

  /**
    A digit, a dot and a digit (`1.5`, say) is no real literal: it lexes as
    an integer, a `Dot` and an integer, each one byte long.
   */
  lemma {:induction false} DigitDotDigit(s: seq<char>)
    requires |s| == 3 && IsDecimalDigit(s[0]) && s[1] == '.' && IsDecimalDigit(s[2])
    ensures LexicalAnalyze(s) ==
              [Lexeme(Literal(Integer(Base10, false)), 1), Lexeme(Dot, 1),
               Lexeme(Literal(Integer(Base10, false)), 1)]
  {
    var integer := Lexeme(Literal(Integer(Base10, false)), 1);
    var t := s[1..];
    assert |t| == 2 && t[0] == '.' && IsDecimalDigit(t[1]);
    DotThenDigit(t);
    DecimalBeforeDot(s);
    SeqCons3(integer, Lexeme(Dot, 1), integer);
  }
}
