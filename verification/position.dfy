/**
  Source positions: `BytePosition` wraps a `u32` byte offset and
  `CharPosition` a `usize` character offset, each with the four
  conversions of the `Position` trait.  `usize` is 64 bits wide; every
  `as` cast to a narrower type keeps the low bits, as Rust's does.
 */
module Positions {

  import opened MachineWords

  /** `value as u32` for a `usize`: the low 32 bits. */
  function TruncateToU32(v: usize): u32
  {
    v % U32_LIMIT
  }

  datatype BytePosition = BytePosition(value: u32)

  datatype CharPosition = CharPosition(value: usize)

  function ByteFromUsize(v: usize): BytePosition
  {
    BytePosition(TruncateToU32(v))
  }

  function ByteToUsize(p: BytePosition): usize
  {
    p.value
  }

  function ByteFromU32(v: u32): BytePosition
  {
    BytePosition(v)
  }

  function ByteToU32(p: BytePosition): u32
  {
    p.value
  }

  function CharFromUsize(v: usize): CharPosition
  {
    CharPosition(v)
  }

  function CharToUsize(p: CharPosition): usize
  {
    p.value
  }

  function CharFromU32(v: u32): CharPosition
  {
    CharPosition(v)
  }

  function CharToU32(p: CharPosition): u32
  {
    TruncateToU32(p.value)
  }

  /** The derived `Ord` of a one-field tuple struct: the order of the field. */
  predicate ByteLess(p: BytePosition, q: BytePosition)
  {
    p.value < q.value
  }

  predicate CharLess(p: CharPosition, q: CharPosition)
  {
    p.value < q.value
  }

  /** `BytePosition` and `u32` convert to each other without loss. */
  lemma ByteU32RoundTrip(v: u32, p: BytePosition)
    ensures ByteToU32(ByteFromU32(v)) == v
    ensures ByteFromU32(ByteToU32(p)) == p
  {
  }

  /**
    A `usize` survives the trip through `BytePosition` exactly when it fits
    in 32 bits; otherwise it comes back reduced modulo 2^32.  A position
    always survives the trip through `usize`.
   */
  lemma ByteUsizeRoundTrip(v: usize, p: BytePosition)
    ensures ByteToUsize(ByteFromUsize(v)) == v % U32_LIMIT
    ensures ByteToUsize(ByteFromUsize(v)) == v <==> v < U32_LIMIT
    ensures ByteFromUsize(ByteToUsize(p)) == p
  {
  }

  /** `CharPosition` and `usize` convert to each other without loss. */
  lemma CharUsizeRoundTrip(v: usize, p: CharPosition)
    ensures CharToUsize(CharFromUsize(v)) == v
    ensures CharFromUsize(CharToUsize(p)) == p
  {
  }

  /**
    A `u32` survives the trip through `CharPosition`; a position survives
    the trip through `u32` exactly when it is below 2^32, and otherwise
    loses its high bits.
   */
  lemma CharU32RoundTrip(v: u32, p: CharPosition)
    ensures CharToU32(CharFromU32(v)) == v
    ensures CharToU32(p) == p.value % U32_LIMIT
    ensures CharFromU32(CharToU32(p)) == p <==> p.value < U32_LIMIT
  {
  }

  /** Both kinds of position turn a `u32` into the same `usize`. */
  lemma FromU32ThenToUsize(v: u32)
    ensures ByteToUsize(ByteFromU32(v)) == v
    ensures CharToUsize(CharFromU32(v)) == v
  {
  }

  /**
    Positions are ordered as their offsets: the conversions to `usize` and
    from `u32` preserve and reflect the order.
   */
  lemma OrderFollowsOffsets(a: u32, b: u32, p: BytePosition, q: BytePosition, r: CharPosition, t: CharPosition)
    ensures ByteLess(ByteFromU32(a), ByteFromU32(b)) <==> a < b
    ensures CharLess(CharFromU32(a), CharFromU32(b)) <==> a < b
    ensures ByteLess(p, q) <==> ByteToUsize(p) < ByteToUsize(q)
    ensures CharLess(r, t) <==> CharToUsize(r) < CharToUsize(t)
  {
  }

  /**
    Truncation does not keep the order: a larger `usize` can become the
    smaller byte position.
   */
  lemma TruncationBreaksOrder()
    ensures ByteLess(ByteFromUsize(U32_LIMIT), ByteFromUsize(1))
    ensures CharLess(CharPosition(1), CharPosition(U32_LIMIT))
    ensures CharToU32(CharPosition(U32_LIMIT)) < CharToU32(CharPosition(1))
  {
  }
}
