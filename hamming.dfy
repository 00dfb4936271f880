/** The Hamming(7,4) nibble codec of class `CMT2300A` (components/cmt2300a/cmt2300a.h).

    A nibble [d3 d2 d1 d0] becomes the systematic 7-bit codeword
    [d3 d2 d1 d0 | p2 p1 p0] with p2 = d3 ^ d1 ^ d0, p1 = d3 ^ d2 ^ d1 and
    p0 = d2 ^ d1 ^ d0 (generator polynomial x^3 + x^2 + 1). A received word is
    decoded by recomputing the parity, forming the syndrome s2 s1 s0 and flipping
    the one bit that a fixed table assigns to a nonzero syndrome.

    The source computes on `uint8_t`; this module does the same on `bv8`, so every
    shift, mask and exclusive or is the source's own operator. */
module Hamming {

  /** What `decode_nibble` hands back: the nibble it returns and the value it
      stores in its `error_corrected` out-parameter. */
  datatype Decoded = Decoded(value: bv8, corrected: bool)

  /** `compute_parity`: the parity bits of the data bits 3..0 of nibble, as
      `(p2 << 2) | (p1 << 1) | p0`. */
  function ComputeParity(nibble: bv8): (parity: bv8)
    ensures parity < 8
  {
    var d3, d2, d1, d0 := (nibble >> 3) & 1, (nibble >> 2) & 1, (nibble >> 1) & 1, nibble & 1;
    var p2 := d3 ^ d1 ^ d0;
    var p1 := d3 ^ d2 ^ d1;
    var p0 := d2 ^ d1 ^ d0;
    (p2 << 2) | (p1 << 1) | p0
  }

  /** The three parity-check equations, read off bits 6..0 of a received word. */
  predicate ParityChecks(c: bv8)
  {
    var d3, d2, d1, d0 := (c >> 6) & 1, (c >> 5) & 1, (c >> 4) & 1, (c >> 3) & 1;
    var p2, p1, p0 := (c >> 2) & 1, (c >> 1) & 1, c & 1;
    && p2 == d3 ^ d1 ^ d0
    && p1 == d3 ^ d2 ^ d1
    && p0 == d2 ^ d1 ^ d0
  }

  /** A valid codeword: a 7-bit word that satisfies the parity checks. */
  predicate IsCodeword(c: bv8)
  {
    c < 128 && ParityChecks(c)
  }

  /** `encode_nibble`: the input is masked to four bits; the codeword carries them
      in bits 6..3 and their parity in bits 2..0. */
  function EncodeNibble(nibble: bv8): (codeword: bv8)
    ensures IsCodeword(codeword)
    ensures codeword >> 3 == nibble & 0x0F
  {
    var n := nibble & 0x0F;
    (n << 3) | ComputeParity(n)
  }

  /** The syndrome (s2 << 2) | (s1 << 1) | s0 of a received word, each bit the
      difference between a recomputed and a received parity bit. */
  function Syndrome(c: bv8): (s: bv8)
    ensures s < 8
    ensures s == 0 <==> ParityChecks(c)
  {
    var d3, d2, d1, d0 := (c >> 6) & 1, (c >> 5) & 1, (c >> 4) & 1, (c >> 3) & 1;
    var p2Received, p1Received, p0Received := (c >> 2) & 1, (c >> 1) & 1, c & 1;
    var s2 := (d3 ^ d1 ^ d0) ^ p2Received;
    var s1 := (d3 ^ d2 ^ d1) ^ p1Received;
    var s0 := (d2 ^ d1 ^ d0) ^ p0Received;
    (s2 << 2) | (s1 << 1) | s0
  }

  /** The `switch` in `decode_nibble`: the bit that a syndrome blames, as the
      mask the received word is exclusive-ored with; the `default` case flips
      nothing. */
  function ErrorMask(s: bv8): (mask: bv8)
  {
    match s
    case 1 => 1 << 0   // p0
    case 2 => 1 << 1   // p1
    case 3 => 1 << 5   // d2
    case 4 => 1 << 2   // p2
    case 5 => 1 << 3   // d0
    case 6 => 1 << 6   // d3
    case 7 => 1 << 4   // d1
    case _ => 0
  }

  /** The data bits 6..3 of a word as a nibble, `(d3 << 3) | (d2 << 2) | (d1 << 1) | d0`. */
  function DataBits(c: bv8): (nibble: bv8)
    ensures nibble < 16
  {
    var d3, d2, d1, d0 := (c >> 6) & 1, (c >> 5) & 1, (c >> 4) & 1, (c >> 3) & 1;
    (d3 << 3) | (d2 << 2) | (d1 << 1) | d0
  }

  /** `decode_nibble`: with a zero syndrome the data bits are returned as they
      are and the flag is cleared; otherwise the flag is set, the bit the table
      blames is flipped, and the corrected word's data bits are returned. */
  function DecodeNibble(codeword: bv8): (r: Decoded)
    ensures r.value < 16
    ensures r.corrected <==> !ParityChecks(codeword)
  {
    var s := Syndrome(codeword);
    if s == 0 then Decoded(DataBits(codeword), false)
    else Decoded(DataBits(codeword ^ ErrorMask(s)), true)
  }

  // ---------------------------------------------------------------------------
  // Properties of the code

  /** Bits above bit 3 of the input do not change the codeword. */
  lemma EncodeIgnoresHighBits(n: bv8)
    ensures EncodeNibble(n) == EncodeNibble(n & 0x0F)
  {
  }

  /** Every valid codeword is the encoding of its data bits: `encode_nibble` maps
      the 16 nibbles one to one onto the 16 codewords. */
  lemma CodewordIsEncoding(c: bv8)
    requires IsCodeword(c)
    ensures c == EncodeNibble(c >> 3)
  {
  }

  /** No error: a codeword decodes to its nibble with the flag clear. */
  lemma DecodeEncoded(n: bv8)
    ensures DecodeNibble(EncodeNibble(n)) == Decoded(n & 0x0F, false)
  {
  }

  /** A single-bit error anywhere in a codeword is located by the syndrome table
      and corrected: the nibble comes back with the flag set. */
  lemma SingleErrorCorrected(n: bv8, i: bv8)
    requires i < 7
    ensures Syndrome(EncodeNibble(n) ^ (1 << i)) != 0
    ensures ErrorMask(Syndrome(EncodeNibble(n) ^ (1 << i))) == 1 << i
    ensures DecodeNibble(EncodeNibble(n) ^ (1 << i)) == Decoded(n & 0x0F, true)
  {
  }

  /** An error pattern that flips at most one of the seven codeword bits. */
  predicate AtMostOneBit(e: bv8)
  {
    e == 0 || e == 1 || e == 2 || e == 4 || e == 8 || e == 16 || e == 32 || e == 64
  }

  /** The table of the `switch` is the code's parity-check matrix read column by
      column: each nonzero syndrome blames exactly one of the bits 0..6, namely
      the one whose own syndrome it is; the `default` case, reached only by a
      zero syndrome, flips nothing. */
  lemma ErrorMaskBlamesOneBit(s: bv8)
    ensures 1 <= s < 8 ==> ErrorMask(s) < 128 && ErrorMask(s) != 0 && AtMostOneBit(ErrorMask(s))
    ensures 1 <= s < 8 ==> Syndrome(ErrorMask(s)) == s
    ensures s == 0 || s >= 8 ==> ErrorMask(s) == 0
  {
  }

  /** The same, for any error pattern of weight at most one: the nibble comes
      back, flagged exactly when a bit was flipped. */
  lemma OneErrorCorrected(n: bv8, e: bv8)
    requires AtMostOneBit(e)
    ensures EncodeNibble(n) ^ e < 128
    ensures DecodeNibble(EncodeNibble(n) ^ e) == Decoded(n & 0x0F, e != 0)
  {
  }

  /** Bit 7 of the received byte is never looked at. */
  lemma DecodeIgnoresBit7(c: bv8)
    ensures DecodeNibble(c) == DecodeNibble(c & 0x7F)
  {
  }

  /** The code is perfect: every 7-bit word is a codeword, or lies one bit away
      from exactly the codeword of the nibble it decodes to. */
  lemma DecodeNearest(c: bv8)
    requires c < 128
    ensures !DecodeNibble(c).corrected ==> c == EncodeNibble(DecodeNibble(c).value)
    ensures DecodeNibble(c).corrected ==>
      1 <= Syndrome(c) <= 7 && c ^ ErrorMask(Syndrome(c)) == EncodeNibble(DecodeNibble(c).value)
  {
  }

  /** Two bit errors are not detected: the word is decoded, with the flag set, to
      a nibble other than the one that was sent. */
  lemma DoubleErrorMisdecoded(n: bv8, i: bv8, j: bv8)
    requires i < 7 && j < 7 && i != j
    ensures DecodeNibble(EncodeNibble(n) ^ (1 << i) ^ (1 << j)).corrected
    ensures DecodeNibble(EncodeNibble(n) ^ (1 << i) ^ (1 << j)).value != n & 0x0F
  {
  }
}
