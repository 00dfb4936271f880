/** The stream format of `CMT2300A::encode` and `CMT2300A::decode`, stated as
    functions on blocks and bit strings.

    Encoding: every byte becomes a 14-bit block, the codeword of its high nibble
    followed by that of its low nibble. The frame is a length block (the input's
    size, as `uint8_t`) followed by one block per data byte, written most
    significant bit first and packed into bytes with zero padding at the end.

    Decoding: the input bits are cut into 14-bit blocks (a tail of fewer than 14
    bits is ignored), and a small state machine consumes them: the first block
    sets the declared size, every later block appends its byte, and the machine
    stops once at least `size` bytes have been appended. */
module Wire {
  import opened BitStream
  import opened Hamming

  datatype Option<T> = None | Some(value: T)

  function Min(a: int, b: int): int { if a <= b then a else b }
  function Max(a: int, b: int): int { if a >= b then a else b }

  /** The width of a codeword and of a block on the wire. */
  const CODEWORD_BITS: nat := 7
  const BLOCK_BITS: nat := 14

  lemma Pow2Codeword()
    ensures Pow2(CODEWORD_BITS) == 128
  {
    Pow2Values();
  }

  lemma Pow2Block()
    ensures Pow2(BLOCK_BITS) == 0x4000
  {
    Pow2Values();
  }

  /** A 14-bit block as the two `uint8_t` codewords it is made of, the high
      nibble's first. */
  datatype Block = Block(high: bv8, low: bv8)

  /** Both codewords fit in their 7-bit fields. */
  predicate WellFormed(blk: Block)
  {
    blk.high < 128 && blk.low < 128
  }

  /** The 14 bits of a block on the wire: the low 7 bits of each codeword. */
  function BlockBits(blk: Block): (bs: seq<bool>)
    ensures |bs| == 14
  {
    Bits(blk.high as int, CODEWORD_BITS) + Bits(blk.low as int, CODEWORD_BITS)
  }

  // ---------------------------------------------------------------------------
  // Encoding side

  /** The block of one data byte: `encode_nibble(byte >> 4)`, `encode_nibble(byte & 0x0F)`. */
  function EncodeByte(b: bv8): (blk: Block)
    ensures WellFormed(blk)
  {
    Block(EncodeNibble(b >> 4), EncodeNibble(b & 0x0F))
  }

  /** The length block: the nibbles `size >> 4` and `size & 0x0F` are passed to
      `encode_nibble` as `uint8_t`. */
  function LengthBlock(n: nat): (blk: Block)
    ensures WellFormed(blk)
  {
    Block(EncodeNibble(ToByte(n / 16)), EncodeNibble(ToByte(n % 16)))
  }

  function DataBlocks(data: seq<bv8>): (blocks: seq<Block>)
    ensures |blocks| == |data|
    ensures forall i :: 0 <= i < |data| ==> blocks[i] == EncodeByte(data[i])
  {
    seq(|data|, i requires 0 <= i < |data| => EncodeByte(data[i]))
  }

  /** The blocks of a frame: the length block, then one block per byte. */
  function WireBlocks(data: seq<bv8>): (blocks: seq<Block>)
    ensures |blocks| == |data| + 1
  {
    [LengthBlock(|data|)] + DataBlocks(data)
  }

  /** Blocks written one after the other, 14 bits each, most significant first. */
  function ConcatBlocks(blocks: seq<Block>): (bs: seq<bool>)
    ensures |bs| == 14 * |blocks|
  {
    if blocks == [] then [] else BlockBits(blocks[0]) + ConcatBlocks(blocks[1..])
  }

  /** The bit stream of a frame, before packing into bytes. */
  function WireBits(data: seq<bv8>): (bs: seq<bool>)
    ensures |bs| == 14 * (|data| + 1)
  {
    ConcatBlocks(WireBlocks(data))
  }

  /** A frame ends on a block boundary. */
  lemma WireBitsAligned(data: seq<bv8>)
    ensures |WireBits(data)| % 14 == 0
  {
    DivModUnique(|WireBits(data)|, 14, |data| + 1, 0);
  }

  /** What `encode` writes: the frame's bits packed into bytes. */
  function EncodeSpec(data: seq<bv8>): seq<bv8>
  {
    Pack(WireBits(data))
  }

  /** The frame takes 14 bits per byte plus the length block, rounded up to
      whole bytes. */
  lemma EncodeLength(data: seq<bv8>)
    ensures |EncodeSpec(data)| == (14 * (|data| + 1) + 7) / 8
  {
    PackLength(WireBits(data));
  }

  // ---------------------------------------------------------------------------
  // Decoding side

  /** A 14-bit window read as `(block_14 >> 7) & 0x7F` and `block_14 & 0x7F`:
      each 7-bit field becomes a byte with a clear top bit. */
  function ReadBlock(bs: seq<bool>): (blk: Block)
    requires |bs| == 14
  {
    Block(ByteOf([false] + bs[..7]), ByteOf([false] + bs[7..]))
  }

  /** The complete 14-bit blocks of a bit string. */
  function BlocksOf(bs: seq<bool>): (blocks: seq<Block>)
    ensures |blocks| == |bs| / 14
  {
    if |bs| < 14 then [] else [ReadBlock(bs[..14])] + BlocksOf(bs[14..])
  }

  /** One block decoded: the byte `(high_nibble << 4) | low_nibble` and the
      `error_corrected` flags of its two codewords. */
  datatype BlockDecode = BlockDecode(byte: bv8, highCorrected: bool, lowCorrected: bool)

  /** The two decoded nibbles put together as `(high_nibble << 4) | low_nibble`,
      with the two `error_corrected` flags. */
  function Combine(high: Decoded, low: Decoded): BlockDecode
  {
    BlockDecode((high.value << 4) | low.value, high.corrected, low.corrected)
  }

  /** A byte's two nibbles put back together give the byte. */
  lemma CombineNibbles(b: bv8, highCorrected: bool, lowCorrected: bool)
    ensures Combine(Decoded((b >> 4) & 0x0F, highCorrected), Decoded(b & 0x0F, lowCorrected))
         == BlockDecode(b, highCorrected, lowCorrected)
  {
  }

  /** The body of the decoder's loop for one block: both codewords through
      `decode_nibble`, the nibbles combined. */
  function DecodeBlock(blk: Block): BlockDecode
  {
    Combine(DecodeNibble(blk.high), DecodeNibble(blk.low))
  }

  /** How many of a block's two codewords were corrected. */
  function Flags(d: BlockDecode): (count: nat)
    ensures count <= 2
    ensures count == 0 <==> !d.highCorrected && !d.lowCorrected
  {
    (if d.highCorrected then 1 else 0) + (if d.lowCorrected then 1 else 0)
  }

  /** The decoder's state between blocks: the declared size (`None` while it is
      still `SIZE_MAX`), the bytes decoded so far, the number of corrected
      codewords, the number of codewords seen and whether it has stopped. */
  datatype DecodeState = DecodeState(size: Option<nat>, decoded: seq<bv8>, corrections: nat, codewords: nat, done: bool)

  const Start: DecodeState := DecodeState(None, [], 0, 0, false)

  /** One block handled by the body of the decoder's loop; after the `break` the
      remaining blocks are not looked at. */
  function Step(st: DecodeState, blk: Block): DecodeState
  {
    if st.done then st
    else
      var d := DecodeBlock(blk);
      var corrections := st.corrections + Flags(d);
      match st.size
      case None => DecodeState(Some(d.byte as int), st.decoded, corrections, st.codewords + 2, false)
      case Some(n) =>
        var decoded := st.decoded + [d.byte];
        DecodeState(st.size, decoded, corrections, st.codewords + 2, |decoded| >= n)
  }

  /** The state after the given blocks, from the start state. */
  function Run(blocks: seq<Block>): DecodeState
  {
    if blocks == [] then Start else Step(Run(blocks[..|blocks| - 1]), blocks[|blocks| - 1])
  }

  /** What one step of the loop body does: after the `break` nothing changes;
      before it the size is set by the first block and never again, two more
      codewords are counted with at most two corrections, at most one byte is
      appended to the output, and the decoder stops only once the output holds
      `size` bytes. */
  lemma StepProgress(st: DecodeState, blk: Block)
    ensures st.done ==> Step(st, blk) == st
    ensures !st.done ==> Step(st, blk).size.Some? && (st.size.Some? ==> Step(st, blk).size == st.size)
    ensures !st.done ==> Step(st, blk).codewords == st.codewords + 2
    ensures !st.done ==> st.corrections <= Step(st, blk).corrections <= st.corrections + 2
    ensures |st.decoded| <= |Step(st, blk).decoded| <= |st.decoded| + 1
    ensures Step(st, blk).decoded[..|st.decoded|] == st.decoded
    ensures !st.done && Step(st, blk).done ==> Step(st, blk).size.Some? && |Step(st, blk).decoded| >= Step(st, blk).size.value
  {
  }

  /** What `decode` makes of an encoded byte stream. */
  function DecodeSpec(encoded: seq<bv8>): DecodeState
  {
    Run(BlocksOf(Flatten(encoded)))
  }

  // ---------------------------------------------------------------------------
  // A closed form of the decoder

  function BlockBytes(blocks: seq<Block>): (bytes: seq<bv8>)
    ensures |bytes| == |blocks|
    ensures forall i :: 0 <= i < |blocks| ==> bytes[i] == DecodeBlock(blocks[i]).byte
  {
    seq(|blocks|, i requires 0 <= i < |blocks| => DecodeBlock(blocks[i]).byte)
  }

  /** The number of corrected codewords in a run of blocks: at most two per block. */
  function Corrections(blocks: seq<Block>): (count: nat)
    ensures count <= 2 * |blocks|
  {
    if blocks == [] then 0
    else Corrections(blocks[..|blocks| - 1]) + Flags(DecodeBlock(blocks[|blocks| - 1]))
  }

  /** The decoder once the first block has declared the size n: the next
      max(1, n) blocks (as many as there are) are the data, none after them is
      looked at, and the decoder has stopped exactly when all of them were there. */
  function Declared(n: nat, blocks: seq<Block>): DecodeState
    requires |blocks| >= 1
  {
    var m := Min(|blocks| - 1, Max(1, n));
    DecodeState(Some(n), BlockBytes(blocks[1..m + 1]), Corrections(blocks[..m + 1]), 2 * (m + 1), |blocks| - 1 >= Max(1, n))
  }

  /** The decoder described without a state machine. */
  function Reference(blocks: seq<Block>): DecodeState
  {
    if blocks == [] then Start else Declared(DecodeBlock(blocks[0]).byte as int, blocks)
  }

  lemma BlockBytesSnoc(blocks: seq<Block>, b: Block)
    ensures BlockBytes(blocks + [b]) == BlockBytes(blocks) + [DecodeBlock(b).byte]
  {
  }

  /** After the last data block, one more block changes nothing. */
  lemma StepDeclaredDone(n: nat, init: seq<Block>, last: Block)
    requires |init| >= 1 && |init| - 1 >= Max(1, n)
    ensures Step(Declared(n, init), last) == Declared(n, init + [last])
  {
    var blocks := init + [last];
    var m := Max(1, n);
    assert blocks[1..m + 1] == init[1..m + 1];
    assert blocks[..m + 1] == init[..m + 1];
  }

  /** Before the last data block, one more block is one more data byte. */
  lemma StepDeclaredData(n: nat, init: seq<Block>, last: Block)
    requires |init| >= 1 && |init| - 1 < Max(1, n)
    ensures Step(Declared(n, init), last) == Declared(n, init + [last])
  {
    var blocks := init + [last];
    var m := |init| - 1;
    assert init[..m + 1] == init;
    assert blocks[..m + 2] == blocks;
    assert blocks[..|blocks| - 1] == init;
    assert blocks[1..m + 2] == init[1..m + 1] + [last];
    BlockBytesSnoc(init[1..m + 1], last);
  }

  /** The first block only declares the size. */
  lemma RunOne(blocks: seq<Block>)
    requires |blocks| == 1
    ensures Run(blocks) == Reference(blocks)
  {
    assert blocks[..0] == [];
    assert blocks[..1] == blocks;
    assert blocks[1..1] == [];
  }

  /** The state machine and the closed form agree on every block sequence. */
  lemma {:induction false} RunIsReference(blocks: seq<Block>)
    ensures Run(blocks) == Reference(blocks)
  {
    if |blocks| == 1 {
      RunOne(blocks);
    } else if |blocks| > 1 {
      var init, last := blocks[..|blocks| - 1], blocks[|blocks| - 1];
      var n := DecodeBlock(init[0]).byte as int;
      RunIsReference(init);
      if |init| - 1 >= Max(1, n) {
        StepDeclaredDone(n, init, last);
      } else {
        StepDeclaredData(n, init, last);
      }
      assert init + [last] == blocks;
      assert blocks[0] == init[0];
    }
  }

  /** The decoder never reports more corrections than codewords it has seen,
      two per block, length block included. */
  lemma CorrectionsBounded(blocks: seq<Block>)
    ensures Run(blocks).corrections <= Run(blocks).codewords <= 2 * |blocks|
  {
    RunIsReference(blocks);
  }

  /** A declared size of 0 still yields one byte: the check `decoded.size() >= size`
      comes only after the first push. */
  lemma DeclaredSizeZero(blocks: seq<Block>)
    requires |blocks| >= 2 && DecodeBlock(blocks[0]).byte == 0
    ensures Run(blocks).decoded == [DecodeBlock(blocks[1]).byte]
    ensures Run(blocks).done
  {
    RunIsReference(blocks);
  }

  /** Once stopped, the decoder ignores everything that follows. */
  lemma {:induction false} RunDone(a: seq<Block>, b: seq<Block>)
    requires Run(a).done
    ensures Run(a + b) == Run(a)
    decreases |b|
  {
    if b == [] {
      assert a + b == a;
    } else {
      var b' := b[..|b| - 1];
      RunDone(a, b');
      assert (a + b)[..|a + b| - 1] == a + b';
    }
  }

  // ---------------------------------------------------------------------------
  // Reading back what was written

  lemma {:induction false} ConcatBlocksSnoc(blocks: seq<Block>, b: Block)
    ensures ConcatBlocks(blocks + [b]) == ConcatBlocks(blocks) + BlockBits(b)
  {
    if blocks == [] {
      assert ConcatBlocks([b]) == BlockBits(b) + ConcatBlocks([]);
    } else {
      assert (blocks + [b])[1..] == blocks[1..] + [b];
      ConcatBlocksSnoc(blocks[1..], b);
    }
  }

  /** Cutting into blocks splits at every block boundary. */
  lemma {:induction false} BlocksOfAppend(x: seq<bool>, y: seq<bool>)
    requires |x| % 14 == 0
    ensures BlocksOf(x + y) == BlocksOf(x) + BlocksOf(y)
    decreases |x|
  {
    if |x| == 0 {
      assert x + y == y;
    } else {
      assert (x + y)[..14] == x[..14];
      assert (x + y)[14..] == x[14..] + y;
      BlocksOfAppend(x[14..], y);
    }
  }

  lemma SmallByte(c: bv8, v: nat)
    requires c < 128 && v == c as int
    ensures v < 128
  {
  }

  /** A 7-bit codeword read back from its field is the codeword. */
  lemma ReadField(c: bv8)
    requires c < 128
    ensures ByteOf([false] + Bits(c as int, CODEWORD_BITS)) == c
  {
    var v := c as int;
    SmallByte(c, v);
    Pow2Codeword();
    BitsOfLow(v, CODEWORD_BITS, BYTE_BITS);
    LowOfSmall(v, CODEWORD_BITS);
    assert Zeros(1) == [false];
    ByteOfByteBits(c);
  }

  /** A well-formed block is read back as itself. */
  lemma ReadBlockBits(blk: Block)
    requires WellFormed(blk)
    ensures ReadBlock(BlockBits(blk)) == blk
  {
    var bs := BlockBits(blk);
    assert bs[..7] == Bits(blk.high as int, CODEWORD_BITS);
    assert bs[7..] == Bits(blk.low as int, CODEWORD_BITS);
    ReadField(blk.high);
    ReadField(blk.low);
  }

  /** The decoder cuts exactly the blocks the encoder wrote. */
  lemma {:induction false} BlocksOfConcat(blocks: seq<Block>)
    requires forall i :: 0 <= i < |blocks| ==> WellFormed(blocks[i])
    ensures BlocksOf(ConcatBlocks(blocks)) == blocks
  {
    if blocks != [] {
      var bs := ConcatBlocks(blocks);
      assert bs[..14] == BlockBits(blocks[0]);
      assert bs[14..] == ConcatBlocks(blocks[1..]);
      ReadBlockBits(blocks[0]);
      BlocksOfConcat(blocks[1..]);
    }
  }

  /** A data block decodes to its byte with no correction. */
  lemma DecodeEncodeByte(b: bv8)
    ensures DecodeBlock(EncodeByte(b)) == BlockDecode(b, false, false)
  {
    DecodeEncoded(b >> 4);
    DecodeEncoded(b & 0x0F);
    assert (b & 0x0F) & 0x0F == b & 0x0F;
    CombineNibbles(b, false, false);
  }

  /** At most one flipped bit in each of a block's two codewords: the byte comes
      back, with a flag for each codeword that was corrected. */
  lemma BlockErrorsCorrected(b: bv8, highError: bv8, lowError: bv8)
    requires AtMostOneBit(highError) && AtMostOneBit(lowError)
    ensures WellFormed(Block(EncodeByte(b).high ^ highError, EncodeByte(b).low ^ lowError))
    ensures DecodeBlock(Block(EncodeByte(b).high ^ highError, EncodeByte(b).low ^ lowError))
         == BlockDecode(b, highError != 0, lowError != 0)
  {
    OneErrorCorrected(b >> 4, highError);
    OneErrorCorrected(b & 0x0F, lowError);
    assert (b & 0x0F) & 0x0F == b & 0x0F;
    CombineNibbles(b, highError != 0, lowError != 0);
  }

  /** The value of a byte's high nibble. */
  lemma HighNibbleValue(b: bv8, v: nat)
    requires v == b as int
    ensures ((b >> 4) & 0x0F) as int == v / 16
  {
  }

  /** The value of a byte's low nibble. */
  lemma LowNibbleValue(b: bv8, v: nat)
    requires v == b as int
    ensures (b & 0x0F) as int == v % 16
  {
  }

  /** Reducing modulo 256 keeps the low hexadecimal digit. */
  lemma ModMod(x: nat)
    ensures x % 256 % 16 == x % 16
  {
    var q, r := x / 256, x % 256;
    assert x == 16 * (16 * q + r / 16) + r % 16;
    DivModUnique(x, 16, 16 * q + r / 16, r % 16);
  }

  /** The hexadecimal digits of the low byte of n. */
  lemma SizeDigits(n: nat)
    ensures (n % 256) / 16 == (n / 16 % 256) % 16
    ensures (n % 256) % 16 == n % 16 % 256 % 16
  {
    var q, r := n / 256, n % 256;
    assert n == 16 * (16 * q + r / 16) + r % 16;
    DivModUnique(n, 16, 16 * q + r / 16, r % 16);
    DivModUnique(n / 16, 16, q, r / 16);
    ModMod(n);
    ModMod(n / 16);
  }

  /** `size >> 4` as `uint8_t` has the high nibble of the size's low byte. */
  lemma HighNibbleOfSize(n: nat)
    ensures (ToByte(n) >> 4) & 0x0F == ToByte(n / 16) & 0x0F
  {
    var m, high := ToByte(n), ToByte(n / 16);
    HighNibbleValue(m, n % 256);
    LowNibbleValue(high, n / 16 % 256);
    SizeDigits(n);
    ByteInjective((m >> 4) & 0x0F, high & 0x0F);
  }

  /** `size & 0x0F` as `uint8_t` is the low nibble of the size's low byte. */
  lemma LowNibbleOfSize(n: nat)
    ensures ToByte(n) & 0x0F == ToByte(n % 16) & 0x0F
  {
    var m, low := ToByte(n), ToByte(n % 16);
    LowNibbleValue(m, n % 256);
    LowNibbleValue(low, n % 16 % 256);
    SizeDigits(n);
    ByteInjective(m & 0x0F, low & 0x0F);
  }

  /** The length block is the block of the size converted to `uint8_t`. */
  lemma LengthBlockIsEncodeByte(n: nat)
    ensures LengthBlock(n) == EncodeByte(ToByte(n))
  {
    var m := ToByte(n);
    HighNibbleOfSize(n);
    LowNibbleOfSize(n);
    EncodeIgnoresHighBits(m >> 4);
    EncodeIgnoresHighBits(m & 0x0F);
    EncodeIgnoresHighBits(ToByte(n / 16));
    EncodeIgnoresHighBits(ToByte(n % 16));
  }

  /** The length block decodes, with no correction, to the size as `uint8_t`. */
  lemma DecodeLengthBlock(n: nat)
    ensures DecodeBlock(LengthBlock(n)) == BlockDecode(ToByte(n), false, false)
  {
    LengthBlockIsEncodeByte(n);
    DecodeEncodeByte(ToByte(n));
  }
}
