/** What the decoder makes of what the encoder wrote: the frame comes back
    whole, with the length field taken modulo 256, and single-bit errors in
    any of its codewords change nothing but the correction count. */
module RoundTrip {
  import opened BitStream
  import opened Hamming
  import opened Wire

  /** Blocks that decode without a correction add none to the count. */
  lemma {:induction false} CleanCorrections(blocks: seq<Block>)
    requires forall k :: 0 <= k < |blocks| ==> Flags(DecodeBlock(blocks[k])) == 0
    ensures Corrections(blocks) == 0
    decreases |blocks|
  {
    if blocks != [] {
      var init := blocks[..|blocks| - 1];
      assert forall k :: 0 <= k < |init| ==> init[k] == blocks[k];
      CleanCorrections(init);
    }
  }

  /** Every block of a frame decodes without correction: the length block to
      the size as `uint8_t`, block k + 1 to byte k. */
  lemma FrameBlocksClean(d: seq<bv8>)
    ensures DecodeBlock(WireBlocks(d)[0]) == BlockDecode(ToByte(|d|), false, false)
    ensures forall k :: 0 <= k < |d| ==> DecodeBlock(WireBlocks(d)[k + 1]) == BlockDecode(d[k], false, false)
  {
    DecodeLengthBlock(|d|);
    forall k | 0 <= k < |d|
      ensures DecodeBlock(WireBlocks(d)[k + 1]) == BlockDecode(d[k], false, false)
    {
      assert WireBlocks(d)[k + 1] == EncodeByte(d[k]);
      DecodeEncodeByte(d[k]);
    }
  }

  /** The bytes of the first m data blocks of a frame are the first m bytes. */
  lemma FrameBytes(d: seq<bv8>, m: nat)
    requires m <= |d|
    ensures BlockBytes(WireBlocks(d)[1..m + 1]) == d[..m]
  {
    FrameBlocksClean(d);
    var bytes := BlockBytes(WireBlocks(d)[1..m + 1]);
    forall k | 0 <= k < m
      ensures bytes[k] == d[k]
    {
      assert WireBlocks(d)[1..m + 1][k] == WireBlocks(d)[k + 1];
    }
  }

  /** Both codewords of every block of a frame fit their fields. */
  lemma FrameWellFormed(d: seq<bv8>)
    ensures forall k :: 0 <= k < |WireBlocks(d)| ==> WellFormed(WireBlocks(d)[k])
  {
    forall k | 0 <= k < |WireBlocks(d)|
      ensures WellFormed(WireBlocks(d)[k])
    {
      if k > 0 {
        assert WireBlocks(d)[k] == EncodeByte(d[k - 1]);
      }
    }
  }

  /** Unpacking the encoder's bytes gives back the frame's blocks: the zero
      padding is shorter than a block. */
  lemma ReadFrame(d: seq<bv8>)
    ensures BlocksOf(Flatten(EncodeSpec(d))) == WireBlocks(d)
  {
    var blocks, bs := WireBlocks(d), WireBits(d);
    FlattenPack(bs);
    var pad := Zeros(Padding(|bs|));
    WireBitsAligned(d);
    BlocksOfAppend(bs, pad);
    assert BlocksOf(pad) == [];
    FrameWellFormed(d);
    BlocksOfConcat(blocks);
    assert blocks + [] == blocks;
  }

  /** The size a frame of d announces, as the decoder reads it back. */
  function AnnouncedSize(d: seq<bv8>): (n: nat)
    ensures n < 256 && n <= |d|
    ensures |d| < 256 ==> n == |d|
  {
    |d| % 256
  }

  /** How many bytes the decoder delivers from a frame of d: the announced
      size, at least one, and no more than there are. */
  function Delivered(d: seq<bv8>): (m: nat)
    ensures m <= |d|
    ensures 1 <= |d| <= 255 ==> m == |d|
  {
    Min(|d|, Max(1, AnnouncedSize(d)))
  }

  /** The blocks the decoder reads from a frame before it stops decode cleanly. */
  lemma FrameCorrections(d: seq<bv8>, m: nat)
    requires m <= |d|
    ensures Corrections(WireBlocks(d)[..m + 1]) == 0
  {
    FrameBlocksClean(d);
    var head := WireBlocks(d)[..m + 1];
    forall k | 0 <= k < |head|
      ensures Flags(DecodeBlock(head[k])) == 0
    {
      if k > 0 {
        assert head[k] == WireBlocks(d)[(k - 1) + 1];
      }
    }
    CleanCorrections(head);
  }

  /** The length block carries the announced size. */
  lemma LengthByte(d: seq<bv8>)
    ensures DecodeBlock(WireBlocks(d)[0]).byte as int == AnnouncedSize(d)
  {
    DecodeLengthBlock(|d|);
  }

  /** The decoder once a frame's size is read: its first `Delivered` bytes. */
  lemma DeclaredOfFrame(d: seq<bv8>, n: nat)
    requires n == AnnouncedSize(d)
    ensures Declared(n, WireBlocks(d))
         == DecodeState(Some(n), d[..Delivered(d)], 0, 2 * (Delivered(d) + 1), |d| >= Max(1, n))
  {
    FrameBytes(d, Delivered(d));
    FrameCorrections(d, Delivered(d));
  }

  /** The closed form of the decoder on a frame. */
  lemma ReferenceOfFrame(d: seq<bv8>)
    ensures Reference(WireBlocks(d))
         == DecodeState(Some(AnnouncedSize(d)), d[..Delivered(d)], 0, 2 * (Delivered(d) + 1), |d| >= Max(1, AnnouncedSize(d)))
  {
    LengthByte(d);
    DeclaredOfFrame(d, AnnouncedSize(d));
  }

  /** Decoding an encoded frame of any length: the size read back is the
      length modulo 256, the output is the first max(1, that size) bytes (as
      many as there are), nothing is corrected, one codeword pair is counted
      per block read, and the decoder has stopped exactly when the frame held
      all the bytes the size announced. */
  lemma DecodeOfEncode(d: seq<bv8>)
    ensures DecodeSpec(EncodeSpec(d))
         == DecodeState(Some(AnnouncedSize(d)), d[..Delivered(d)], 0, 2 * (Delivered(d) + 1), |d| >= Max(1, AnnouncedSize(d)))
  {
    ReadFrame(d);
    RunIsReference(WireBlocks(d));
    ReferenceOfFrame(d);
  }

  /** The round trip the framing is made for: a payload of 1 to 255 bytes is
      decoded to itself with no correction, and the decoder stops at its end. */
  lemma RoundTrip(d: seq<bv8>)
    requires 1 <= |d| <= 255
    ensures DecodeSpec(EncodeSpec(d)).decoded == d
    ensures DecodeSpec(EncodeSpec(d)).corrections == 0
    ensures DecodeSpec(EncodeSpec(d)).done
  {
    DecodeOfEncode(d);
    assert d[..Delivered(d)] == d;
  }

  /** A payload whose length is a multiple of 256 announces size 0 and comes
      back as its first byte only. */
  lemma SizeWrapsToZero(d: seq<bv8>)
    requires |d| >= 1 && |d| % 256 == 0
    ensures DecodeSpec(EncodeSpec(d)).decoded == [d[0]]
  {
    DecodeOfEncode(d);
  }

  /** The decoder stops at the end of every non-empty frame: the announced
      size, taken modulo 256, is never more than the bytes that follow. */
  lemma FrameDone(d: seq<bv8>)
    requires |d| >= 1
    ensures DecodeSpec(EncodeSpec(d)).done
  {
    DecodeOfEncode(d);
  }

  /** The bits of a frame followed by more bytes. */
  lemma BitsAfterFrame(d: seq<bv8>, trailing: seq<bv8>, bs: seq<bool>, pad: seq<bool>)
    requires bs == WireBits(d) && pad == Zeros(Padding(|bs|))
    ensures Flatten(EncodeSpec(d) + trailing) == bs + (pad + Flatten(trailing))
  {
    FlattenAppend(EncodeSpec(d), trailing);
    FlattenPack(bs);
    assert (bs + pad) + Flatten(trailing) == bs + (pad + Flatten(trailing));
  }

  /** Bytes after a frame are read as the padding followed by their bits. */
  lemma FrameThenRest(d: seq<bv8>, trailing: seq<bv8>, pad: seq<bool>)
    requires pad == Zeros(Padding(|WireBits(d)|))
    ensures BlocksOf(Flatten(EncodeSpec(d) + trailing)) == WireBlocks(d) + BlocksOf(pad + Flatten(trailing))
  {
    BitsAfterFrame(d, trailing, WireBits(d), pad);
    WireBitsAligned(d);
    BlocksOfAppend(WireBits(d), pad + Flatten(trailing));
    FrameWellFormed(d);
    BlocksOfConcat(WireBlocks(d));
  }

  /** Early stop: once a non-empty frame has been delivered (its length taken
      modulo 256), whatever follows it in the input is not looked at. */
  lemma TrailingBytesIgnored(d: seq<bv8>, trailing: seq<bv8>)
    requires |d| >= 1
    ensures DecodeSpec(EncodeSpec(d) + trailing) == DecodeSpec(EncodeSpec(d))
  {
    FrameDone(d);
    ReadFrame(d);
    var pad := Zeros(Padding(|WireBits(d)|));
    FrameThenRest(d, trailing, pad);
    RunDone(WireBlocks(d), BlocksOf(pad + Flatten(trailing)));
  }

  // ---------------------------------------------------------------------------
  // Errors in the received blocks

  /** Each codeword of `received` differs from the one sent in at most one bit. */
  predicate WithinOneBit(sent: seq<Block>, received: seq<Block>)
  {
    && |sent| == |received|
    && forall k :: 0 <= k < |sent| ==>
         AtMostOneBit(sent[k].high ^ received[k].high) && AtMostOneBit(sent[k].low ^ received[k].low)
  }

  /** A block received with at most one flipped bit per codeword decodes to the
      same byte as the block that was sent. */
  lemma NoisyBlock(b: bv8, sent: Block, received: Block, highError: bv8, lowError: bv8)
    requires sent == EncodeByte(b)
    requires highError == sent.high ^ received.high && lowError == sent.low ^ received.low
    requires AtMostOneBit(highError) && AtMostOneBit(lowError)
    ensures DecodeBlock(received).byte == DecodeBlock(sent).byte == b
  {
    DecodeEncodeByte(b);
    XorBack(sent.high, received.high);
    XorBack(sent.low, received.low);
    BlockErrorsCorrected(b, highError, lowError);
  }

  /** The number of a block's two codewords that arrived changed. */
  function Differs(sent: Block, received: Block): (count: nat)
    ensures count <= 2
    ensures count == 0 <==> sent == received
  {
    (if sent.high != received.high then 1 else 0) + (if sent.low != received.low then 1 else 0)
  }

  /** The number of codewords in which the received blocks differ from the
      blocks that were sent. */
  function Errors(sent: seq<Block>, received: seq<Block>): (count: nat)
    requires |sent| == |received|
    ensures count <= 2 * |sent|
  {
    if sent == [] then 0
    else Errors(sent[..|sent| - 1], received[..|received| - 1]) + Differs(sent[|sent| - 1], received[|received| - 1])
  }

  /** A block received with at most one flipped bit per codeword is flagged as
      corrected exactly in the codewords that changed. */
  lemma NoisyBlockFlags(b: bv8, sent: Block, received: Block, highError: bv8, lowError: bv8)
    requires sent == EncodeByte(b)
    requires highError == sent.high ^ received.high && lowError == sent.low ^ received.low
    requires AtMostOneBit(highError) && AtMostOneBit(lowError)
    ensures DecodeBlock(received) == BlockDecode(b, sent.high != received.high, sent.low != received.low)
    ensures Flags(DecodeBlock(received)) == Differs(sent, received)
  {
    ErrorPattern(EncodeByte(b), received, highError, lowError);
    BlockErrorsCorrected(b, highError, lowError);
    SameBlock(Block(EncodeByte(b).high ^ highError, EncodeByte(b).low ^ lowError), received,
              BlockDecode(b, highError != 0, lowError != 0));
  }

  lemma SameBlock(x: Block, y: Block, v: BlockDecode)
    requires x == y && DecodeBlock(x) == v
    ensures DecodeBlock(y) == v
  {
  }

  /** A received block is the sent one with its error patterns applied, and a
      pattern is nonzero exactly when its codeword changed. */
  lemma ErrorPattern(sent: Block, received: Block, highError: bv8, lowError: bv8)
    requires highError == sent.high ^ received.high && lowError == sent.low ^ received.low
    ensures received == Block(sent.high ^ highError, sent.low ^ lowError)
    ensures (highError != 0) == (sent.high != received.high) && (lowError != 0) == (sent.low != received.low)
  {
    XorBack(sent.high, received.high);
    XorBack(sent.low, received.low);
  }

  lemma XorBack(x: bv8, y: bv8)
    ensures x ^ (x ^ y) == y
  {
  }

  /** Blocks that decode to the same bytes give the same byte string. */
  lemma SameBytes(a: seq<Block>, b: seq<Block>)
    requires |a| == |b|
    requires forall k :: 0 <= k < |a| ==> DecodeBlock(a[k]).byte == DecodeBlock(b[k]).byte
    ensures BlockBytes(a) == BlockBytes(b)
  {
  }

  /** After the same declared size, blocks with equal bytes give the same
      output and stop. */
  lemma SameDeclaredFields(n: nat, a: seq<Block>, b: seq<Block>)
    requires |a| == |b| >= 1
    requires forall k :: 0 <= k < |a| ==> DecodeBlock(a[k]).byte == DecodeBlock(b[k]).byte
    ensures Declared(n, a).decoded == Declared(n, b).decoded
    ensures Declared(n, a).codewords == Declared(n, b).codewords && Declared(n, a).done == Declared(n, b).done
  {
    var m := Min(|a| - 1, Max(1, n));
    SameBytes(a[1..m + 1], b[1..m + 1]);
  }

  /** Blocks with equal bytes give the decoder the same size, output and stop. */
  lemma SameDeclared(a: seq<Block>, b: seq<Block>)
    requires |a| == |b| >= 1
    requires forall k :: 0 <= k < |a| ==> DecodeBlock(a[k]).byte == DecodeBlock(b[k]).byte
    ensures Run(a).size == Run(b).size && Run(a).decoded == Run(b).decoded
    ensures Run(a).codewords == Run(b).codewords && Run(a).done == Run(b).done
  {
    RunIsReference(a);
    RunIsReference(b);
    SameDeclaredFields(DecodeBlock(a[0]).byte as int, a, b);
  }

  /** The length block, received with at most one flipped bit per codeword. */
  lemma NoisyLengthBlock(n: nat, received: Block)
    requires AtMostOneBit(LengthBlock(n).high ^ received.high) && AtMostOneBit(LengthBlock(n).low ^ received.low)
    ensures DecodeBlock(received).byte == DecodeBlock(LengthBlock(n)).byte
  {
    var sent := LengthBlock(n);
    LengthBlockIsEncodeByte(n);
    NoisyBlock(ToByte(n), sent, received, sent.high ^ received.high, sent.low ^ received.low);
  }

  lemma DataBlockAt(d: seq<bv8>, k: nat)
    requires 1 <= k <= |d|
    ensures WireBlocks(d)[k] == EncodeByte(d[k - 1])
  {
  }

  /** Data block k of a frame, received with at most one flipped bit per codeword. */
  lemma NoisyDataBlock(d: seq<bv8>, k: nat, received: Block)
    requires 1 <= k <= |d|
    requires AtMostOneBit(WireBlocks(d)[k].high ^ received.high) && AtMostOneBit(WireBlocks(d)[k].low ^ received.low)
    ensures DecodeBlock(received).byte == DecodeBlock(WireBlocks(d)[k]).byte
  {
    DataBlockAt(d, k);
    NoisyBlock(d[k - 1], WireBlocks(d)[k], received, WireBlocks(d)[k].high ^ received.high, WireBlocks(d)[k].low ^ received.low);
  }

  /** Block k of a frame, received with at most one flipped bit per codeword,
      still decodes to the byte it carries. */
  lemma NoisyFrameBlock(d: seq<bv8>, received: seq<Block>, k: nat)
    requires WithinOneBit(WireBlocks(d), received) && k < |received|
    ensures DecodeBlock(WireBlocks(d)[k]).byte == DecodeBlock(received[k]).byte
  {
    if k == 0 {
      NoisyLengthBlock(|d|, received[0]);
    } else {
      NoisyDataBlock(d, k, received[k]);
    }
  }

  /** The length block's flags, received with at most one flipped bit per codeword. */
  lemma NoisyLengthFlags(n: nat, received: Block)
    requires AtMostOneBit(LengthBlock(n).high ^ received.high) && AtMostOneBit(LengthBlock(n).low ^ received.low)
    ensures Flags(DecodeBlock(received)) == Differs(LengthBlock(n), received)
  {
    var sent := LengthBlock(n);
    LengthBlockIsEncodeByte(n);
    NoisyBlockFlags(ToByte(n), sent, received, sent.high ^ received.high, sent.low ^ received.low);
  }

  /** Data block k's flags, received with at most one flipped bit per codeword. */
  lemma NoisyDataFlags(d: seq<bv8>, k: nat, received: Block)
    requires 1 <= k <= |d|
    requires AtMostOneBit(WireBlocks(d)[k].high ^ received.high) && AtMostOneBit(WireBlocks(d)[k].low ^ received.low)
    ensures Flags(DecodeBlock(received)) == Differs(WireBlocks(d)[k], received)
  {
    var sent := WireBlocks(d)[k];
    DataBlockAt(d, k);
    NoisyBlockFlags(d[k - 1], sent, received, sent.high ^ received.high, sent.low ^ received.low);
  }

  /** Block k of a frame, received with at most one flipped bit per codeword,
      is flagged as corrected once for each codeword that changed. */
  lemma NoisyFrameFlags(d: seq<bv8>, received: seq<Block>, k: nat)
    requires WithinOneBit(WireBlocks(d), received) && k < |received|
    ensures Flags(DecodeBlock(received[k])) == Differs(WireBlocks(d)[k], received[k])
  {
    if k == 0 {
      NoisyLengthFlags(|d|, received[0]);
    } else {
      NoisyDataFlags(d, k, received[k]);
    }
  }

  /** When every block is flagged once for each of its changed codewords, the
      decoder's count of corrections is the number of changed codewords. */
  lemma {:induction false} CorrectionsAreErrors(sent: seq<Block>, received: seq<Block>)
    requires |sent| == |received|
    requires forall k :: 0 <= k < |received| ==> Flags(DecodeBlock(received[k])) == Differs(sent[k], received[k])
    ensures Corrections(received) == Errors(sent, received)
    decreases |received|
  {
    if received != [] {
      var n := |received| - 1;
      assert forall k :: 0 <= k < n ==> received[..n][k] == received[k] && sent[..n][k] == sent[k];
      CorrectionsAreErrors(sent[..n], received[..n]);
    }
  }

  /** A noisy frame declares the same size as the frame itself, so the decoder
      on it is the closed form for that size. */
  lemma NoisyFrameDeclared(d: seq<bv8>, received: seq<Block>)
    requires WithinOneBit(WireBlocks(d), received)
    ensures |received| == |d| + 1
    ensures Run(received) == Declared(AnnouncedSize(d), received)
  {
    RunIsReference(received);
    NoisyFrameBlock(d, received, 0);
    LengthByte(d);
  }

  /** Among the first m + 1 blocks of a noisy frame the corrections are the
      changed codewords. */
  lemma NoisyPrefixCorrections(d: seq<bv8>, received: seq<Block>, m: nat)
    requires WithinOneBit(WireBlocks(d), received) && m <= |d|
    ensures Corrections(received[..m + 1]) == Errors(WireBlocks(d)[..m + 1], received[..m + 1])
  {
    var sent, got := WireBlocks(d)[..m + 1], received[..m + 1];
    forall k | 0 <= k < m + 1
      ensures Flags(DecodeBlock(got[k])) == Differs(sent[k], got[k])
    {
      NoisyFrameFlags(d, received, k);
    }
    CorrectionsAreErrors(sent, got);
  }

  /** The count `decode` returns on a noisy frame: the number of codewords
      that changed among the blocks it reads, the length block and the
      `Delivered` data blocks. */
  lemma NoisyFrameCorrections(d: seq<bv8>, received: seq<Block>)
    requires WithinOneBit(WireBlocks(d), received)
    ensures Delivered(d) + 1 <= |received|
    ensures Run(received).corrections == Errors(WireBlocks(d)[..Delivered(d) + 1], received[..Delivered(d) + 1])
  {
    NoisyFrameDeclared(d, received);
    NoisyPrefixCorrections(d, received, Delivered(d));
  }

  /** A frame of 1 to 255 bytes is read to its last block. */
  lemma WholeFrameRead(d: seq<bv8>, received: seq<Block>)
    requires 1 <= |d| <= 255 && |received| == |d| + 1
    ensures WireBlocks(d)[..Delivered(d) + 1] == WireBlocks(d) && received[..Delivered(d) + 1] == received
  {
  }

  /** Forward error correction over a whole frame: when every codeword of the
      frame's blocks arrives with at most one bit flipped, the decoder reads
      the same size, produces the same bytes and stops in the same place as on
      the frame itself, and it counts one correction for each codeword that
      changed among the blocks it read. */
  lemma NoisyFrameDecoded(d: seq<bv8>, received: seq<Block>)
    requires WithinOneBit(WireBlocks(d), received)
    ensures Run(received).size == Run(WireBlocks(d)).size
    ensures Run(received).decoded == Run(WireBlocks(d)).decoded
    ensures Run(received).done == Run(WireBlocks(d)).done
    ensures Run(received).corrections == Errors(WireBlocks(d)[..Delivered(d) + 1], received[..Delivered(d) + 1])
    ensures 1 <= |d| <= 255 ==> Run(received).corrections == Errors(WireBlocks(d), received)
  {
    NoisyFrameCorrections(d, received);
    if 1 <= |d| <= 255 {
      WholeFrameRead(d, received);
    }
    forall k | 0 <= k < |received|
      ensures DecodeBlock(WireBlocks(d)[k]).byte == DecodeBlock(received[k]).byte
    {
      NoisyFrameBlock(d, received, k);
    }
    SameDeclared(WireBlocks(d), received);
  }

  /** The same on bytes: when the blocks the decoder cuts from the received
      bytes are the frame's blocks with at most one flipped bit per codeword,
      `decode` reads the same size, outputs the same bytes and stops in the same
      place as on the encoder's output, and the count it returns is the number
      of codewords that changed among the blocks it read (for 1 to 255 bytes,
      all of them). */
  lemma NoisyBytesDecoded(d: seq<bv8>, received: seq<bv8>)
    requires WithinOneBit(WireBlocks(d), BlocksOf(Flatten(received)))
    ensures DecodeSpec(received).size == DecodeSpec(EncodeSpec(d)).size
    ensures DecodeSpec(received).decoded == DecodeSpec(EncodeSpec(d)).decoded
    ensures DecodeSpec(received).done == DecodeSpec(EncodeSpec(d)).done
    ensures DecodeSpec(received).corrections
         == Errors(WireBlocks(d)[..Delivered(d) + 1], BlocksOf(Flatten(received))[..Delivered(d) + 1])
    ensures 1 <= |d| <= 255 ==> DecodeSpec(received).corrections == Errors(WireBlocks(d), BlocksOf(Flatten(received)))
  {
    ReadFrame(d);
    NoisyFrameDecoded(d, BlocksOf(Flatten(received)));
  }
}
