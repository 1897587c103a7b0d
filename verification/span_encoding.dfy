/**
  The compact span layout: a 32-bit base index and a 16-bit field whose top
  bit (`TAG_LEN`) is the tag and whose other fifteen bits can hold a length
  up to `MAX_LEN`.  Only the constants and the record exist; nothing
  encodes or decodes spans.
 */
module SpanEncoding {

  const TAG_LEN: bv16 := 0x8000
  const MAX_LEN: bv32 := 0x7FFF

  datatype Span = Span(baseIndex: bv32, lenTag: bv16)

  const DUMMY_SPAN: Span := Span(0, 0)

  /** Whether the tag bit of a length/tag field is set. */
  predicate IsTagged(lenTag: bv16)
  {
    lenTag & TAG_LEN != 0
  }

  /** `TAG_LEN` is the single top bit of a `u16`. */
  lemma TagIsTopBit()
    ensures TAG_LEN == 1 << 15
    ensures forall x: bv16 :: IsTagged(x) <==> x >= 0x8000
  {
  }

  /** The tag and the length bits split the 16-bit field between them. */
  lemma TagAndLengthPartition()
    ensures (MAX_LEN as bv16) & TAG_LEN == 0
    ensures (MAX_LEN as bv16) | TAG_LEN == 0xFFFF
  {
  }

  /**
    A length fits in the field exactly when, stored as a `u16`, it leaves
    the tag bit clear.
   */
  lemma InlineLengthLeavesTagClear(len: bv16)
    ensures !IsTagged(len) <==> len as bv32 <= MAX_LEN
  {
  }

  /** The dummy span sits at index 0 with an untagged length of 0. */
  lemma DummySpanIsUntagged()
    ensures DUMMY_SPAN.baseIndex == 0 && DUMMY_SPAN.lenTag == 0
    ensures !IsTagged(DUMMY_SPAN.lenTag)
  {
  }

  /** Spans are equal exactly when both raw fields are. */
  lemma SpanEqualityIsFieldwise(a: Span, b: Span)
    ensures a == b <==> a.baseIndex == b.baseIndex && a.lenTag == b.lenTag
  {
  }
}
