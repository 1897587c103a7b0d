/**
  Character classes of the lexer (the `CharExt` and `StrExt` extension
  traits), plus the standard library's `char::is_digit`, which the lexer's
  dispatch uses for radix checks.  All classes are ASCII except whitespace.
 */
module CharExt {

  import opened Wrappers

  /** The eleven code points the lexer treats as whitespace. */
  const WhitespaceChars: set<char> :=
    {'\t', '\n', '\U{000B}', '\U{000C}', '\r', ' ',
     '\U{0085}', '\U{200E}', '\U{200F}', '\U{2028}', '\U{2029}'}

  predicate IsWhitespace(c: char)
  {
    || c == '\U{0009}'
    || c == '\U{000A}'
    || c == '\U{000B}'
    || c == '\U{000C}'
    || c == '\U{000D}'
    || c == '\U{0020}'
    || c == '\U{0085}'
    || c == '\U{200E}'
    || c == '\U{200F}'
    || c == '\U{2028}'
    || c == '\U{2029}'
  }

  predicate IsIdStart(c: char)
  {
    ('a' <= c <= 'z') || ('A' <= c <= 'Z') || c == '_'
  }

  predicate IsIdContinue(c: char)
  {
    ('a' <= c <= 'z') || ('A' <= c <= 'Z') || ('0' <= c <= '9') || c == '_'
  }

  /** The standard library's `char::to_digit`: ASCII digits and letters only. */
  function ToDigit(c: char): (d: Option<nat>)
    ensures d.Some? <==> ('0' <= c <= '9') || ('a' <= c <= 'z') || ('A' <= c <= 'Z')
    ensures d.Some? ==> d.value < 36
    ensures d.Some? && d.value < 10 <==> '0' <= c <= '9'
  {
    if '0' <= c <= '9' then Some(c as nat - '0' as nat)
    else if 'a' <= c <= 'z' then Some(c as nat - 'a' as nat + 10)
    else if 'A' <= c <= 'Z' then Some(c as nat - 'A' as nat + 10)
    else None
  }

  /** The standard library's `char::is_digit(radix)`. */
  predicate IsDigit(c: char, radix: nat)
  {
    ToDigit(c).Some? && ToDigit(c).value < radix
  }

  /** `StrExt::is_lexically_ident`: a first character, then `chars.all(..)`. */
  predicate IsLexicallyIdent(s: seq<char>)
  {
    if |s| == 0 then false else IsIdStart(s[0]) && AllIdContinue(s[1..])
  }

  /** `Iterator::all(char::is_id_continue)`, written as the recursion it performs. */
  predicate AllIdContinue(s: seq<char>)
  {
    |s| == 0 || (IsIdContinue(s[0]) && AllIdContinue(s[1..]))
  }

  // ---------------------------------------------------------------------
  // Properties of the classes
  // ---------------------------------------------------------------------

  /** Whitespace is exactly the eleven listed code points; NUL is not one of them. */
  lemma WhitespaceIsElevenCodePoints()
    ensures forall c: char :: IsWhitespace(c) <==> c in WhitespaceChars
    ensures |WhitespaceChars| == 11
    ensures !IsWhitespace('\0')
  {
  }

  /** Identifier starts are exactly the ASCII letters and `_`; continues add the digits. */
  lemma IdClasses(c: char)
    ensures IsIdStart(c) <==> (IsDigit(c, 36) && !('0' <= c <= '9')) || c == '_'
    ensures IsIdContinue(c) <==> IsIdStart(c) || IsDigit(c, 10)
    ensures IsIdStart(c) ==> IsIdContinue(c)
  {
  }

  /** No character is both whitespace and part of an identifier. */
  lemma WhitespaceAndIdentifiersDisjoint(c: char)
    ensures !(IsWhitespace(c) && IsIdContinue(c))
  {
  }

  /** The radix checks used by the lexer's dispatch, spelled out. */
  lemma DigitClasses(c: char)
    ensures IsDigit(c, 2) <==> c == '0' || c == '1'
    ensures IsDigit(c, 8) <==> '0' <= c <= '7'
    ensures IsDigit(c, 10) <==> '0' <= c <= '9'
    ensures IsDigit(c, 16) <==> ('0' <= c <= '9') || ('a' <= c <= 'f') || ('A' <= c <= 'F')
  {
  }

  lemma {:induction false} AllIdContinueMeansEvery(s: seq<char>)
    ensures AllIdContinue(s) <==> forall i :: 0 <= i < |s| ==> IsIdContinue(s[i])
  {
    if |s| > 0 {
      AllIdContinueMeansEvery(s[1..]);
      assert forall i :: 1 <= i < |s| ==> s[i] == s[1..][i - 1];
    }
  }

  /** `is_lexically_ident` holds exactly of a non-empty id-start/id-continue word. */
  lemma LexicallyIdentMeaning(s: seq<char>)
    ensures IsLexicallyIdent(s) <==>
              |s| > 0 && IsIdStart(s[0]) && forall i :: 1 <= i < |s| ==> IsIdContinue(s[i])
    ensures !IsLexicallyIdent([])
  {
    if |s| > 0 {
      AllIdContinueMeansEvery(s[1..]);
      assert forall i :: 1 <= i < |s| ==> s[i] == s[1..][i - 1];
    }
  }
}
