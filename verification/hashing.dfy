/**
  `PascalcHasher`: a one-word rotate / xor / multiply accumulator used for
  the compiler's hash maps.  The target is fixed as 64-bit and
  little-endian.  Machine words are integers in `[0, 2^64)`, and every
  operation that can leave that range wraps explicitly: `wrapping_mul` is a
  product modulo 2^64, `rotate_left(5)` moves the top five bits to the
  bottom, and xor is defined bit by bit.
 */
module Hashing {

  import opened MachineWords
  import opened Sequences

  // ---------------------------------------------------------------------
  // Word arithmetic
  // ---------------------------------------------------------------------

  function Pow2(n: nat): (p: nat)
    ensures p >= 1
  {
    if n == 0 then 1 else 2 * Pow2(n - 1)
  }

  lemma {:induction false} Pow2Add(a: nat, b: nat)
    ensures Pow2(a + b) == Pow2(a) * Pow2(b)
  {
    if a > 0 {
      Pow2Add(a - 1, b);
      assert Pow2(a + b) == 2 * Pow2(a - 1 + b);
    }
  }

  lemma {:induction false} Pow2OfBytes(k: nat)
    ensures Pow2(8 * k) == Pow256(k)
  {
    if k > 0 {
      Pow2OfBytes(k - 1);
      Pow2Add(8, 8 * (k - 1));
      assert Pow2(8) == 256;
    }
  }

  lemma Pow2OfWordWidth()
    ensures Pow2(64) == WORD
  {
    Pow2OfBytes(8);
    Pow256OfWordBytes();
  }

  /** Bitwise xor of the low `n` bits of `a` and `b`. */
  function XorBits(a: nat, b: nat, n: nat): (r: nat)
    ensures r < Pow2(n)
  {
    if n == 0 then 0
    else (if a % 2 == b % 2 then 0 else 1) + 2 * XorBits(a / 2, b / 2, n - 1)
  }

  /** `^` on 64-bit words. */
  function Xor(a: u64, b: u64): u64
  {
    Pow2OfWordWidth();
    XorBits(a, b, 64)
  }

  /** A low bit and the bits above it, read back by `% 2` and `/ 2`. */
  lemma SplitLowBit(bit: nat, rest: nat)
    requires bit < 2
    ensures (bit + 2 * rest) % 2 == bit && (bit + 2 * rest) / 2 == rest
  {
  }

  lemma {:induction false} XorBitsUndo(a: nat, b: nat, n: nat)
    requires a < Pow2(n)
    ensures XorBits(XorBits(a, b, n), b, n) == a
  {
    if n > 0 {
      var bit := if a % 2 == b % 2 then 0 else 1;
      var rest := XorBits(a / 2, b / 2, n - 1);
      assert XorBits(a, b, n) == bit + 2 * rest;
      SplitLowBit(bit, rest);
      XorBitsUndo(a / 2, b / 2, n - 1);
      assert XorBits(bit + 2 * rest, b, n) == a % 2 + 2 * (a / 2);
    }
  }

  lemma {:induction false} XorBitsCommutes(a: nat, b: nat, n: nat)
    ensures XorBits(a, b, n) == XorBits(b, a, n)
  {
    if n > 0 {
      XorBitsCommutes(a / 2, b / 2, n - 1);
    }
  }

  /** Xor with a fixed word is its own inverse, on either side. */
  lemma XorUndo(a: u64, b: u64)
    ensures Xor(Xor(a, b), b) == a
    ensures Xor(b, Xor(b, a)) == a
  {
    Pow2OfWordWidth();
    XorBitsUndo(a, b, 64);
    XorBitsCommutes(a, b, 64);
    XorBitsCommutes(Xor(b, a), b, 64);
  }

  /** `rotate_left(5)` on a 64-bit word. */
  function RotateLeft5(x: u64): u64
  {
    (x % 0x800_0000_0000_0000) * 32 + x / 0x800_0000_0000_0000
  }

  /** `rotate_right(5)` on a 64-bit word. */
  function RotateRight5(x: u64): u64
  {
    x / 32 + (x % 32) * 0x800_0000_0000_0000
  }

  lemma RotateRightUndoesRotateLeft(x: u64)
    ensures RotateRight5(RotateLeft5(x)) == x
  {
  }

  /** The multiplier on a 64-bit target. */
  const K: u64 := 0x517cc1b727220a95

  /** The inverse of `K` modulo 2^64; it exists because `K` is odd. */
  const KInverse: u64 := 0x2040003d780970bd

  /** `x.wrapping_mul(y)`. */
  function WrappingMul(x: u64, y: u64): u64
  {
    (x * y) % WORD
  }

  lemma ModOfShift(a: int, k: int)
    requires 0 <= a < WORD
    ensures (a + k * WORD) % WORD == a
  {
  }

  /** `K` is odd, and multiplying by `KInverse` undoes a multiplication by `K`. */
  lemma KInverseUndoesK(a: u64)
    ensures K % 2 == 1
    ensures WrappingMul(WrappingMul(a, K), KInverse) == a
  {
    var p := a * K;
    var t := K * KInverse / WORD;
    assert K * KInverse == 1 + t * WORD;
    assert (p % WORD) * KInverse == p * KInverse - ((p / WORD) * KInverse) * WORD;
    assert p * KInverse == a + (a * t) * WORD;
    ModOfShift(a, a * t - (p / WORD) * KInverse);
  }

  // ---------------------------------------------------------------------
  // The hasher
  // ---------------------------------------------------------------------

  datatype PascalcHasher = PascalcHasher(hash: u64)

  /** `Default::default`: a fresh hasher. */
  function Default(): (h: PascalcHasher)
    ensures Finish(h) == 0
  {
    PascalcHasher(0)
  }

  /** `finish`: the state as a `u64`; on a 64-bit target that is the state itself. */
  function Finish(h: PascalcHasher): (x: u64)
  {
    h.hash
  }

  /** Different states always finish differently: nothing is lost in widening. */
  lemma FinishIsInjective(g: PascalcHasher, h: PascalcHasher)
    ensures Finish(g) == Finish(h) <==> g == h
  {
  }

  /**
    `add_to_hash`: rotate left by 5, xor in the word, multiply by `K`.
    Undoing the multiplication gives back the rotated state xor the word.
   */
  function AddToHash(h: PascalcHasher, v: u64): (r: PascalcHasher)
    ensures WrappingMul(r.hash, KInverse) == Xor(RotateLeft5(h.hash), v)
  {
    KInverseUndoesK(Xor(RotateLeft5(h.hash), v));
    PascalcHasher(WrappingMul(Xor(RotateLeft5(h.hash), v), K))
  }

  /** For a fixed state, different words lead to different states. */
  lemma AddToHashIsInjectiveInValue(h: PascalcHasher, v: u64, w: u64)
    ensures AddToHash(h, v) == AddToHash(h, w) <==> v == w
  {
    if AddToHash(h, v) == AddToHash(h, w) {
      XorUndo(v, RotateLeft5(h.hash));
      XorUndo(w, RotateLeft5(h.hash));
    }
  }

  /** For a fixed word, different states lead to different states. */
  lemma AddToHashIsInjectiveInState(g: PascalcHasher, h: PascalcHasher, v: u64)
    ensures AddToHash(g, v) == AddToHash(h, v) <==> g == h
  {
    if AddToHash(g, v) == AddToHash(h, v) {
      XorUndo(RotateLeft5(g.hash), v);
      XorUndo(RotateLeft5(h.hash), v);
      RotateRightUndoesRotateLeft(g.hash);
      RotateRightUndoesRotateLeft(h.hash);
    }
  }

  // ---------------------------------------------------------------------
  // Little-endian words
  // ---------------------------------------------------------------------

  function Pow256(n: nat): (p: nat)
    ensures p >= 1
  {
    if n == 0 then 1 else 256 * Pow256(n - 1)
  }

  lemma Pow256OfWordBytes()
    ensures Pow256(8) == WORD
  {
  }

  /**
    `uN::from_le_bytes` zero-extended to a word: the first byte is the
    least significant, so `n` bytes make a value below 256^n.
   */
  function ReadLe(bytes: seq<u8>): (v: nat)
    ensures v < Pow256(|bytes|)
  {
    if |bytes| == 0 then 0 else bytes[0] + 256 * ReadLe(bytes[1..])
  }

  /** A word read from at most 8 bytes. */
  function ReadWord(bytes: seq<u8>): (v: u64)
    requires |bytes| <= 8
  {
    Pow256Grows(|bytes|, 8);
    Pow256OfWordBytes();
    ReadLe(bytes)
  }

  lemma {:induction false} Pow256Grows(m: nat, n: nat)
    requires m <= n
    ensures Pow256(m) <= Pow256(n)
  {
    if m < n {
      Pow256Grows(m, n - 1);
    }
  }

  /** `uN::to_le_bytes` of the low `n` bytes of a value. */
  function LeBytes(v: nat, n: nat): (bytes: seq<u8>)
    ensures |bytes| == n
  {
    if n == 0 then [] else [v % 256] + LeBytes(v / 256, n - 1)
  }

  /** A value below 256^n, written out as `n` bytes and read back, is unchanged. */
  lemma {:induction false} ReadLeOfLeBytes(v: nat, n: nat)
    requires v < Pow256(n)
    ensures ReadLe(LeBytes(v, n)) == v
  {
    if n > 0 {
      var bytes := LeBytes(v, n);
      assert bytes[1..] == LeBytes(v / 256, n - 1);
      ReadLeOfLeBytes(v / 256, n - 1);
    }
  }



  /** Writing out a value read from bytes gives the bytes back. */
  lemma {:induction false} LeBytesOfReadLe(bytes: seq<u8>)
    ensures LeBytes(ReadLe(bytes), |bytes|) == bytes
  {
    if |bytes| > 0 {
      var v := ReadLe(bytes);
      assert v % 256 == bytes[0] && v / 256 == ReadLe(bytes[1..]);
      LeBytesOfReadLe(bytes[1..]);
    }
  }

  // ---------------------------------------------------------------------
  // `write`: the chunking of a byte slice
  // ---------------------------------------------------------------------

  /** The chunks `write` reads from fewer than 8 bytes: at most one each of 4, 2 and 1. */
  function TailChunks(bytes: seq<u8>): (chunks: seq<seq<u8>>)
    requires |bytes| < 8
    ensures ChunksBounded(chunks)
  {
    if |bytes| >= 4 then [bytes[..4]] + TailChunks(bytes[4..])
    else if |bytes| >= 2 then [bytes[..2]] + TailChunks(bytes[2..])
    else if |bytes| >= 1 then [bytes[..1]]
    else []
  }

  /** The chunks `write` reads: whole 8-byte words first, then the tail. */
  function Chunks(bytes: seq<u8>): (chunks: seq<seq<u8>>)
    ensures ChunksBounded(chunks)
  {
    if |bytes| >= 8 then [bytes[..8]] + Chunks(bytes[8..]) else TailChunks(bytes)
  }

  predicate ChunksBounded(chunks: seq<seq<u8>>)
  {
    forall i :: 0 <= i < |chunks| ==> |chunks[i]| <= 8
  }

  /** Number of set bits in `n`. */
  function PopCount(n: nat): nat
  {
    if n == 0 then 0 else n % 2 + PopCount(n / 2)
  }

  /** Absorbs each chunk, read as a little-endian word, in order. */
  function Absorb(h: PascalcHasher, chunks: seq<seq<u8>>): PascalcHasher
    requires ChunksBounded(chunks)
    decreases |chunks|
  {
    if |chunks| == 0 then h else Absorb(AddToHash(h, ReadWord(chunks[0])), chunks[1..])
  }

  /** The state `write` leaves. */
  function Written(h: PascalcHasher, bytes: seq<u8>): PascalcHasher
  {
    Absorb(h, Chunks(bytes))
  }

  lemma PopCountBelowEight(n: nat)
    requires n < 8
    ensures PopCount(n) == n / 4 + (n / 2) % 2 + n % 2
  {
    assert PopCount(0) == 0;
    assert PopCount(1) == 1;
  }

  lemma {:induction false} TailChunksTile(bytes: seq<u8>)
    requires |bytes| < 8
    ensures Concat(TailChunks(bytes)) == bytes
    ensures |TailChunks(bytes)| == PopCount(|bytes|)
  {
    TailChunksCount(bytes);
    PopCountBelowEight(|bytes|);
    if |bytes| >= 4 {
      TailChunksTile(bytes[4..]);
      assert bytes[..4] + bytes[4..] == bytes;
    } else if |bytes| >= 2 {
      TailChunksTile(bytes[2..]);
      assert bytes[..2] + bytes[2..] == bytes;
    } else if |bytes| == 1 {
      assert bytes[..1] == bytes;
    }
  }

  lemma {:induction false} TailChunksCount(bytes: seq<u8>)
    requires |bytes| < 8
    ensures |TailChunks(bytes)| == |bytes| / 4 + (|bytes| / 2) % 2 + |bytes| % 2
  {
    if |bytes| >= 4 {
      TailChunksCount(bytes[4..]);
    } else if |bytes| >= 2 {
      TailChunksCount(bytes[2..]);
    }
  }

  /**
    `write` reads every byte exactly once, in order: the chunks join back
    to the input.  It reads `n / 8` words of 8 bytes and then one chunk per
    set bit of `n % 8`.
   */
  lemma {:induction false} ChunksTileInput(bytes: seq<u8>)
    ensures Concat(Chunks(bytes)) == bytes
    ensures |Chunks(bytes)| == |bytes| / 8 + PopCount(|bytes| % 8)
    decreases |bytes|
  {
    if |bytes| >= 8 {
      ChunksOfLongInput(bytes);
      ChunksTileInput(bytes[8..]);
      assert bytes[..8] + bytes[8..] == bytes;
      WholeWordsStep(|bytes|);
    } else {
      assert Chunks(bytes) == TailChunks(bytes);
      assert |bytes| % 8 == |bytes| && |bytes| / 8 == 0;
      TailChunksTile(bytes);
    }
  }

  lemma WholeWordsStep(n: nat)
    requires n >= 8
    ensures n / 8 == 1 + (n - 8) / 8 && n % 8 == (n - 8) % 8
  {
  }

  lemma ChunksOfLongInput(bytes: seq<u8>)
    requires |bytes| >= 8
    ensures Chunks(bytes)[0] == bytes[..8] && Chunks(bytes)[1..] == Chunks(bytes[8..])
    ensures |Chunks(bytes)| == 1 + |Chunks(bytes[8..])|
    ensures Concat(Chunks(bytes)) == bytes[..8] + Concat(Chunks(bytes[8..]))
  {
    assert ([bytes[..8]] + Chunks(bytes[8..]))[1..] == Chunks(bytes[8..]);
  }

  /** The tail chunks have 4, 2 and 1 bytes, in that order, each at most once. */
  lemma {:induction false} TailChunkSizes(bytes: seq<u8>)
    requires |bytes| < 8
    ensures forall i :: 0 <= i < |TailChunks(bytes)| ==> |TailChunks(bytes)[i]| in {4, 2, 1}
    ensures forall i, j :: 0 <= i < j < |TailChunks(bytes)| ==>
              |TailChunks(bytes)[i]| > |TailChunks(bytes)[j]|
  {
    if |bytes| >= 4 {
      TailChunkSizes(bytes[4..]);
      assert TailChunks(bytes)[1..] == TailChunks(bytes[4..]);
    } else if |bytes| >= 2 {
      TailChunkSizes(bytes[2..]);
      assert TailChunks(bytes)[1..] == TailChunks(bytes[2..]);
    }
  }

  /**
    `write`, as the source loops: absorb 8-byte words while at least 8
    bytes remain, then a 4-, a 2- and a 1-byte chunk if that many remain.
    The result is the chunked absorb of the bytes, so it depends on the
    state and the bytes alone, and an empty slice leaves the state as it was.
   */
  method Write(h: PascalcHasher, bytes: seq<u8>) returns (r: PascalcHasher)
    ensures r == Written(h, bytes)
    ensures |bytes| == 0 ==> r == h
  {
    var hash := h;
    var rest := bytes;
    while |rest| >= 8
      invariant Absorb(hash, Chunks(rest)) == Written(h, bytes)
      decreases |rest|
    {
      AbsorbWord(hash, rest);
      hash := AddToHash(hash, ReadWord(rest[..8]));
      rest := rest[8..];
    }
    if |rest| >= 4 {
      AbsorbTail(hash, rest, 4);
      hash := AddToHash(hash, ReadWord(rest[..4]));
      rest := rest[4..];
    }
    if |rest| >= 2 {
      AbsorbTail(hash, rest, 2);
      hash := AddToHash(hash, ReadWord(rest[..2]));
      rest := rest[2..];
    }
    if |rest| >= 1 {
      AbsorbTail(hash, rest, 1);
      assert ReadWord(rest[..1]) == rest[0];
      hash := AddToHash(hash, rest[0]);
      rest := rest[1..];
    }
    assert TailChunks(rest) == [];
    r := hash;
  }

  /** One turn of `write`'s loop. */
  lemma AbsorbWord(hash: PascalcHasher, rest: seq<u8>)
    requires |rest| >= 8
    ensures Absorb(hash, Chunks(rest)) == Absorb(AddToHash(hash, ReadWord(rest[..8])), Chunks(rest[8..]))
  {
    ChunksOfLongInput(rest);
  }

  /** One of `write`'s closing `if`s, taking a chunk of `n` bytes. */
  lemma AbsorbTail(hash: PascalcHasher, rest: seq<u8>, n: nat)
    requires |rest| < 8 && (n == 4 || n == 2 || n == 1) && n <= |rest| < 2 * n
    ensures Absorb(hash, TailChunks(rest)) == Absorb(AddToHash(hash, ReadWord(rest[..n])), TailChunks(rest[n..]))
  {
    if n == 1 {
      assert rest[1..] == [];
    }
    assert TailChunks(rest)[0] == rest[..n] && TailChunks(rest)[1..] == TailChunks(rest[n..]);
  }

  // ---------------------------------------------------------------------
  // `write_u*`
  // ---------------------------------------------------------------------

  function WriteU8(h: PascalcHasher, v: u8): PascalcHasher
  {
    AddToHash(h, v)
  }

  function WriteU16(h: PascalcHasher, v: u16): PascalcHasher
  {
    AddToHash(h, v)
  }

  function WriteU32(h: PascalcHasher, v: u32): PascalcHasher
  {
    AddToHash(h, v)
  }

  /** On a 64-bit target `write_u64` absorbs the whole value in one step. */
  function WriteU64(h: PascalcHasher, v: u64): PascalcHasher
  {
    AddToHash(h, v)
  }

  function WriteUsize(h: PascalcHasher, v: u64): PascalcHasher
  {
    AddToHash(h, v)
  }

  /** Bytes written as one chunk of 1, 2, 4 or 8 are one absorb of their little-endian word. */
  lemma WrittenSingleChunk(h: PascalcHasher, bytes: seq<u8>)
    requires |bytes| == 1 || |bytes| == 2 || |bytes| == 4 || |bytes| == 8
    ensures Written(h, bytes) == AddToHash(h, ReadWord(bytes))
  {
    if |bytes| == 8 {
      AbsorbWord(h, bytes);
      assert bytes[..8] == bytes && bytes[8..] == [];
    } else {
      AbsorbTail(h, bytes, |bytes|);
      assert bytes[..|bytes|] == bytes && bytes[|bytes|..] == [];
    }
  }

  /** `write(&[b])` leaves the same state as `write_u8(b)`. */
  lemma WriteOfOneByteIsWriteU8(h: PascalcHasher, b: u8)
    ensures Written(h, [b]) == WriteU8(h, b)
  {
    WrittenSingleChunk(h, [b]);
  }

  /**
    `write_u16`, `write_u32`, `write_u64` and `write_usize` each absorb the
    zero-extended value in one step, which is what `write` does with the
    value's little-endian bytes.
   */
  lemma WriteU16IsWriteOfLeBytes(h: PascalcHasher, v: u16)
    ensures WriteU16(h, v) == Written(h, LeBytes(v, 2))
  {
    WrittenSingleChunk(h, LeBytes(v, 2));
    ReadLeOfLeBytes(v, 2);
  }

  lemma WriteU32IsWriteOfLeBytes(h: PascalcHasher, v: u32)
    ensures WriteU32(h, v) == Written(h, LeBytes(v, 4))
  {
    WrittenSingleChunk(h, LeBytes(v, 4));
    ReadLeOfLeBytes(v, 4);
  }

  lemma WriteU64IsWriteOfLeBytes(h: PascalcHasher, v: u64)
    ensures WriteU64(h, v) == Written(h, LeBytes(v, 8))
    ensures WriteUsize(h, v) == WriteU64(h, v)
  {
    WrittenSingleChunk(h, LeBytes(v, 8));
    ReadLeOfLeBytes(v, 8);
    Pow256OfWordBytes();
  }

  /** Writing whole words, then more bytes, is the same as writing them all at once. */
  lemma {:induction false} WrittenWordsThenRest(h: PascalcHasher, a: seq<u8>, b: seq<u8>)
    requires |a| % 8 == 0
    ensures Written(h, a + b) == Written(Written(h, a), b)
    decreases |a|
  {
    if |a| > 0 {
      assert (a + b)[..8] == a[..8];
      assert (a + b)[8..] == a[8..] + b;
      WrittenWordsThenRest(AddToHash(h, ReadWord(a[..8])), a[8..], b);
    } else {
      assert a + b == b;
    }
  }
}
