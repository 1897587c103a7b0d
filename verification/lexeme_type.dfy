/**
  The lexeme classification of the lexer: `Base`, `LexemeType` and
  `LiteralType`, with the total orders Rust's `#[derive(Ord)]` gives them
  (variants compare in declaration order, payloads field by field).
 */
module LexemeTypes {

  datatype Base = Base2 | Base8 | Base10 | Base16

  /** The `Float` variant of the source is commented out and so absent here. */
  datatype LiteralType =
    | Integer(base: Base, empty: bool)
    | String(terminated: bool)

  datatype LexemeType =
    | LineComment
    | BlockComment
    | Whitespace
    | Identifier
    | RawIdentifier
    | Literal(literal: LiteralType)
    | Plus
    | Minus
    | Star
    | Slash
    | Equal
    | LeftAngle
    | RightAngle
    | LeftSquare
    | RightSquare
    | Dot
    | Comma
    | LeftRound
    | RightRound
    | Colon
    | Caret
    | At
    | Pound
    | Semicolon
    | Unknown

  // ---------------------------------------------------------------------
  // Declaration-order positions (the discriminants the derive compares)
  // ---------------------------------------------------------------------

  function BaseIndex(b: Base): nat
  {
    match b
    case Base2 => 0
    case Base8 => 1
    case Base10 => 2
    case Base16 => 3
  }

  function LexemeTypeIndex(t: LexemeType): nat
  {
    match t
    case LineComment => 0
    case BlockComment => 1
    case Whitespace => 2
    case Identifier => 3
    case RawIdentifier => 4
    case Literal(_) => 5
    case Plus => 6
    case Minus => 7
    case Star => 8
    case Slash => 9
    case Equal => 10
    case LeftAngle => 11
    case RightAngle => 12
    case LeftSquare => 13
    case RightSquare => 14
    case Dot => 15
    case Comma => 16
    case LeftRound => 17
    case RightRound => 18
    case Colon => 19
    case Caret => 20
    case At => 21
    case Pound => 22
    case Semicolon => 23
    case Unknown => 24
  }

  /** Whether a variant is one of the single-character punctuation kinds. */
  predicate IsPunctuation(t: LexemeType)
  {
    6 <= LexemeTypeIndex(t) <= 23
  }

  // ---------------------------------------------------------------------
  // The derived strict orders
  // ---------------------------------------------------------------------

  predicate BaseLess(a: Base, b: Base)
  {
    BaseIndex(a) < BaseIndex(b)
  }

  predicate BoolLess(a: bool, b: bool)
  {
    !a && b
  }

  predicate LiteralTypeLess(a: LiteralType, b: LiteralType)
  {
    match (a, b)
    case (Integer(b1, e1), Integer(b2, e2)) =>
      BaseLess(b1, b2) || (b1 == b2 && BoolLess(e1, e2))
    case (Integer(_, _), String(_)) => true
    case (String(_), Integer(_, _)) => false
    case (String(t1), String(t2)) => BoolLess(t1, t2)
  }

  predicate LexemeTypeLess(a: LexemeType, b: LexemeType)
  {
    if LexemeTypeIndex(a) != LexemeTypeIndex(b) then LexemeTypeIndex(a) < LexemeTypeIndex(b)
    else a.Literal? && b.Literal? && LiteralTypeLess(a.literal, b.literal)
  }

  // ---------------------------------------------------------------------
  // Properties
  // ---------------------------------------------------------------------

  /** Four bases, ordered Base2 < Base8 < Base10 < Base16, and nothing else. */
  lemma BaseOrder(b: Base)
    ensures BaseLess(Base2, Base8) && BaseLess(Base8, Base10) && BaseLess(Base10, Base16)
    ensures b == Base2 || b == Base8 || b == Base10 || b == Base16
    ensures !BaseLess(b, Base2) && !BaseLess(Base16, b)
  {
  }

  /**
    Twenty-five variants: a position below 25 that identifies every variant
    except `Literal`, whose payload distinguishes it; 18 of them are
    punctuation and `Unknown` is the last.
   */
  lemma LexemeTypeVariants(a: LexemeType, b: LexemeType)
    ensures LexemeTypeIndex(a) < 25
    ensures LexemeTypeIndex(a) == LexemeTypeIndex(b) && !a.Literal? ==> a == b
    ensures LexemeTypeIndex(a) == LexemeTypeIndex(b) ==> (a.Literal? <==> b.Literal?)
    ensures LexemeTypeIndex(a) == 24 <==> a == Unknown
    ensures IsPunctuation(a) <==>
              a in {Plus, Minus, Star, Slash, Equal, LeftAngle, RightAngle, LeftSquare,
                    RightSquare, Dot, Comma, LeftRound, RightRound, Colon, Caret, At,
                    Pound, Semicolon}
  {
  }

  lemma LiteralTypeOrderIsStrictTotal(a: LiteralType, b: LiteralType, c: LiteralType)
    ensures !LiteralTypeLess(a, a)
    ensures LiteralTypeLess(a, b) && LiteralTypeLess(b, c) ==> LiteralTypeLess(a, c)
    ensures a == b || LiteralTypeLess(a, b) || LiteralTypeLess(b, a)
    ensures !(LiteralTypeLess(a, b) && LiteralTypeLess(b, a))
  {
  }

  /** The derived order on `LexemeType` is irreflexive and asymmetric. */
  lemma LexemeTypeOrderIsAsymmetric(a: LexemeType, b: LexemeType)
    ensures !LexemeTypeLess(a, a)
    ensures !(LexemeTypeLess(a, b) && LexemeTypeLess(b, a))
  {
    if a.Literal? && b.Literal? {
      LiteralTypeOrderIsStrictTotal(a.literal, b.literal, a.literal);
    }
  }

  /** The derived order on `LexemeType` is transitive. */
  lemma LexemeTypeOrderIsTransitive(a: LexemeType, b: LexemeType, c: LexemeType)
    requires LexemeTypeLess(a, b) && LexemeTypeLess(b, c)
    ensures LexemeTypeLess(a, c)
  {
    if LexemeTypeIndex(a) == LexemeTypeIndex(c) {
      LiteralTypeOrderIsStrictTotal(a.literal, b.literal, c.literal);
    }
  }

  /**
    Any two lexeme types are equal or ordered one way: equality is
    structural, so two types are equal exactly when neither is less.
   */
  lemma LexemeTypeOrderIsConnected(a: LexemeType, b: LexemeType)
    ensures a == b || LexemeTypeLess(a, b) || LexemeTypeLess(b, a)
  {
    if LexemeTypeIndex(a) == LexemeTypeIndex(b) {
      LexemeTypeVariants(a, b);
      if a.Literal? {
        LiteralTypeOrderIsStrictTotal(a.literal, b.literal, a.literal);
      }
    }
  }

  /** `Literal` values compare by their payload alone. */
  lemma LiteralsCompareByPayload(x: LiteralType, y: LiteralType)
    ensures LexemeTypeLess(Literal(x), Literal(y)) <==> LiteralTypeLess(x, y)
    ensures Literal(x) == Literal(y) <==> x == y
  {
  }
}
