/**
  The lexer's forward-only `Cursor`: the byte length of the whole input, the
  characters not yet consumed, and the last consumed character.

  The model is the debug-assertions build, in which the cursor records the
  previously bumped character and `prev()` returns it.  The lexer's number
  and block-comment scanners branch on `prev()`, so this is the
  configuration in which they behave as written.

  Lengths are UTF-8 byte counts, as Rust's `str::len` reports them.
 */
module Cursors {

  import opened Wrappers

  /** The character `first`, `second` and `prev` report when there is none. */
  const EOF_CHAR: char := '\0'

  /** Width of a character in UTF-8. */
  function Utf8Len(c: char): (n: nat)
    ensures 1 <= n <= 4
    ensures n == 1 <==> c as int < 0x80
  {
    if c as int < 0x80 then 1
    else if c as int < 0x800 then 2
    else if c as int < 0x1_0000 then 3
    else 4
  }

  /** UTF-8 byte length of a character sequence (`str::len`). */
  function Utf8Bytes(s: seq<char>): (n: nat)
    ensures |s| <= n <= 4 * |s|
  {
    if |s| == 0 then 0 else Utf8Len(s[0]) + Utf8Bytes(s[1..])
  }

  lemma {:induction false} Utf8BytesAppend(a: seq<char>, b: seq<char>)
    ensures Utf8Bytes(a + b) == Utf8Bytes(a) + Utf8Bytes(b)
  {
    if |a| == 0 {
      assert a + b == b;
    } else {
      assert (a + b)[1..] == a[1..] + b;
      Utf8BytesAppend(a[1..], b);
    }
  }

  /** Splitting a sequence at `k` splits its byte length. */
  lemma Utf8BytesSplit(s: seq<char>, k: nat)
    requires k <= |s|
    ensures Utf8Bytes(s) == Utf8Bytes(s[..k]) + Utf8Bytes(s[k..])
  {
    assert s == s[..k] + s[k..];
    Utf8BytesAppend(s[..k], s[k..]);
  }

  /** Byte offsets of distinct character boundaries are distinct (and ordered alike). */
  lemma Utf8BytesStrictlyMonotone(s: seq<char>, i: nat, j: nat)
    requires i < j <= |s|
    ensures Utf8Bytes(s[..i]) < Utf8Bytes(s[..j])
  {
    assert s[..j] == s[..i] + s[i..j];
    Utf8BytesAppend(s[..i], s[i..j]);
  }

  /** A pure-ASCII sequence is as many bytes long as it has characters. */
  lemma {:induction false} AsciiBytes(s: seq<char>)
    requires forall i :: 0 <= i < |s| ==> s[i] as int < 0x80
    ensures Utf8Bytes(s) == |s|
  {
    if |s| > 0 {
      assert forall i :: 0 <= i < |s[1..]| ==> s[1..][i] == s[i + 1];
      AsciiBytes(s[1..]);
    }
  }

  datatype Cursor = Cursor(initialLen: nat, chars: seq<char>, prev: char)
  {
    /** What `Cursor::new` establishes: the remaining text fits in the initial length. */
    predicate Valid()
    {
      Utf8Bytes(chars) <= initialLen
    }
  }

  /** `Cursor::new`: nothing consumed yet, and no previous character. */
  function New(input: seq<char>): (c: Cursor)
    ensures c.Valid() && c.chars == input
    ensures LenConsumed(c) == 0
    ensures Prev(c) == EOF_CHAR
    ensures IsEof(c) <==> |input| == 0
  {
    Cursor(Utf8Bytes(input), input, EOF_CHAR)
  }

  /**
    `Cursor::bump`: at the end of input nothing changes and the answer is
    `None`; otherwise the head character is returned, removed, counted in
    `len_consumed` with its UTF-8 width, and remembered as `prev`.
   */
  function Bump(c: Cursor): (r: (Option<char>, Cursor))
    ensures IsEof(c) ==> r.0 == None && r.1 == c
    ensures !IsEof(c) ==> r.0 == Some(First(c)) && r.1.chars == c.chars[1..]
                          && Prev(r.1) == First(c) && r.1.initialLen == c.initialLen
    ensures c.Valid() ==> r.1.Valid()
    ensures c.Valid() && !IsEof(c) ==> LenConsumed(r.1) == LenConsumed(c) + Utf8Len(First(c))
  {
    if |c.chars| == 0 then (None, c)
    else (Some(c.chars[0]), Cursor(c.initialLen, c.chars[1..], c.chars[0]))
  }

  /** `Cursor::nth_char`: the `n`-th remaining character, or `EOF_CHAR` past the end. */
  function NthChar(c: Cursor, n: nat): (ch: char)
    ensures n < |c.chars| ==> ch == c.chars[n]
    ensures n >= |c.chars| ==> ch == EOF_CHAR
  {
    if n < |c.chars| then c.chars[n] else EOF_CHAR
  }

  function First(c: Cursor): char
  {
    NthChar(c, 0)
  }

  function Second(c: Cursor): char
  {
    NthChar(c, 1)
  }

  /** `Cursor::is_eof`: no characters remain. */
  predicate IsEof(c: Cursor)
  {
    |c.chars| == 0
  }

  /** `Cursor::len_consumed`: initial byte length minus the bytes still remaining. */
  function LenConsumed(c: Cursor): (n: nat)
    requires c.Valid()
    ensures n <= c.initialLen
  {
    c.initialLen - Utf8Bytes(c.chars)
  }

  /** `Cursor::prev` in the debug configuration. */
  function Prev(c: Cursor): char
  {
    c.prev
  }

  // ---------------------------------------------------------------------
  // Progress of a cursor
  // ---------------------------------------------------------------------

  /** `r` is `c` after zero or more bumps: same input, a suffix of its characters. */
  predicate Advances(c: Cursor, r: Cursor)
  {
    && r.initialLen == c.initialLen
    && |r.chars| <= |c.chars|
    && r.chars == c.chars[|c.chars| - |r.chars|..]
  }

  /** The characters consumed going from `c` to `r`. */
  function Eaten(c: Cursor, r: Cursor): seq<char>
    requires Advances(c, r)
  {
    c.chars[..|c.chars| - |r.chars|]
  }

  lemma AdvancesTransitive(a: Cursor, b: Cursor, c: Cursor)
    requires Advances(a, b) && Advances(b, c)
    ensures Advances(a, c)
    ensures Eaten(a, c) == Eaten(a, b) + Eaten(b, c)
  {
    var i := |a.chars| - |b.chars|;
    var j := |b.chars| - |c.chars|;
    assert c.chars == a.chars[i..][j..] == a.chars[i + j..];
    assert a.chars[..i + j] == a.chars[..i] + a.chars[i..][..j];
  }

  /** Bumping one character and then advancing to `r` advances `c` to `r`, eating that character first. */
  lemma EatenAfterBump(c: Cursor, r: Cursor)
    requires !IsEof(c) && Advances(Bump(c).1, r)
    ensures Advances(c, r)
    ensures Eaten(c, r) == [c.chars[0]] + Eaten(Bump(c).1, r)
  {
    var c1 := Bump(c).1;
    AdvancesTransitive(c, c1, r);
    assert Eaten(c, c1) == [c.chars[0]];
  }

  /**
    `len_consumed` only grows as the cursor advances, by exactly the bytes
    consumed in between, and never exceeds the initial length.
   */
  lemma LenConsumedGrowsByEatenBytes(c: Cursor, r: Cursor)
    requires c.Valid() && Advances(c, r)
    ensures r.Valid()
    ensures LenConsumed(r) == LenConsumed(c) + Utf8Bytes(Eaten(c, r))
    ensures LenConsumed(c) <= LenConsumed(r) <= r.initialLen
  {
    Utf8BytesSplit(c.chars, |c.chars| - |r.chars|);
  }

  /**
    For a cursor made by `New(input)` and then advanced, `len_consumed` is the
    byte length of the consumed prefix of the input.
   */
  lemma LenConsumedFromNew(input: seq<char>, r: Cursor)
    requires Advances(New(input), r)
    ensures r.Valid()
    ensures LenConsumed(r) == Utf8Bytes(input[..|input| - |r.chars|])
    ensures input == Eaten(New(input), r) + r.chars
  {
    LenConsumedGrowsByEatenBytes(New(input), r);
  }

  /**
    A bump shifts the lookahead by one: what was the `n+1`-th character is
    now the `n`-th.  At the end of input every lookahead is `EOF_CHAR`.
   */
  lemma BumpShiftsLookahead(c: Cursor, n: nat)
    ensures !IsEof(c) ==> NthChar(Bump(c).1, n) == NthChar(c, n + 1)
    ensures IsEof(c) ==> NthChar(c, n) == EOF_CHAR && NthChar(Bump(c).1, n) == EOF_CHAR
  {
  }

  /** `first` and `second` look ahead without changing anything; `is_eof` means nothing remains. */
  lemma LookaheadIsPure(c: Cursor)
    ensures First(c) == (if |c.chars| > 0 then c.chars[0] else EOF_CHAR)
    ensures Second(c) == (if |c.chars| > 1 then c.chars[1] else EOF_CHAR)
    ensures IsEof(c) <==> c.chars == []
    ensures !IsEof(c) ==> Second(c) == First(Bump(c).1)
  {
  }
}
