/** `CMT2300A::encode` and `CMT2300A::decode` as methods over the source's own
    registers: the 32-bit bit accumulator, its fill count, and the output vector.
    Each method is proved against the stream format of module `Wire`. */
module Codec {
  import opened BitStream
  import opened Hamming
  import opened Wire

  /** `std::numeric_limits<std::size_t>::max()` on a 64-bit target: the decoder's
      "no size yet" marker. */
  const SIZE_MAX: nat := 0xFFFF_FFFF_FFFF_FFFF

  // ---------------------------------------------------------------------------
  // Register lemmas

  /** Two 7-bit fields side by side, `(high << 7) | low`, in a `uint16_t`:
      the shift by the constant 7 is a multiplication by 128. */
  lemma FieldsRegister(h: nat, l: nat)
    requires h < 128 && l < 128
    ensures h * 128 + l < 0x4000
    ensures Bits(h * 128 + l, BLOCK_BITS) == Bits(h, CODEWORD_BITS) + Bits(l, CODEWORD_BITS)
  {
    Pow2Codeword();
    ShlIsMul(h, CODEWORD_BITS, 128);
    BitsShiftIn(h, CODEWORD_BITS, l, CODEWORD_BITS);
  }

  lemma WellFormedFields(blk: Block)
    requires WellFormed(blk)
    ensures blk.high as int < 128 && blk.low as int < 128
  {
  }

  /** A block as the value `(high << 7) | low` that `encode` shifts into its
      accumulator (the initial length block, and `block_14` for each byte), the
      shift by the constant 7 being a multiplication by 128. The value is below
      2^14, so the `uint16_t` of `block_14` holds it unchanged. */
  function Register(blk: Block): (v: nat)
    requires WellFormed(blk)
    ensures v < 0x4000
  {
    WellFormedFields(blk);
    blk.high as int * 128 + blk.low as int
  }

  /** The store into the `uint16_t` `block_14` keeps the value whole. */
  lemma RegisterFitsUint16(blk: Block)
    requires WellFormed(blk)
    ensures Low(Register(blk), UINT16_BITS) == Register(blk)
  {
    Pow2Half();
    LowOfSmall(Register(blk), UINT16_BITS);
  }

  /** The value's 14 bits are the block's two 7-bit fields. */
  lemma RegisterBits(blk: Block)
    requires WellFormed(blk)
    ensures Bits(Register(blk), BLOCK_BITS) == BlockBits(blk)
  {
    WellFormedFields(blk);
    FieldsRegister(blk.high as int, blk.low as int);
  }

  /** The top byte of an accumulator holding b = c + 8 bits, taken out as
      `(accumulator >> c) & 0xFF`, leaves the low c bits. */
  lemma Drain(acc: nat, b: nat, c: nat)
    requires b == c + 8
    ensures ByteBits(ToByte(Low(Shr(acc, c), BYTE_BITS))) + Bits(acc, c) == Bits(acc, b)
  {
    BitsSplit(acc, BYTE_BITS, c);
    ByteBitsOfToByte(Low(Shr(acc, c), BYTE_BITS));
    BitsLow(Shr(acc, c), BYTE_BITS, BYTE_BITS);
  }

  lemma FlattenSnoc(bytes: seq<bv8>, b: bv8)
    ensures Flatten(bytes + [b]) == Flatten(bytes) + ByteBits(b)
  {
    FlattenAppend(bytes, [b]);
    FlattenOne(b);
  }

  lemma DataBlocksSnoc(data: seq<bv8>, i: nat)
    requires i < |data|
    ensures DataBlocks(data[..i + 1]) == DataBlocks(data[..i]) + [EncodeByte(data[i])]
  {
    assert DataBlocks(data[..i + 1])[..i] == DataBlocks(data[..i]);
  }

  /** The blocks the encoder has shifted in once it has read i bytes of data:
      the length block and the blocks of those bytes. */
  function Shifted(data: seq<bv8>, i: nat): (blocks: seq<Block>)
    requires i <= |data|
    ensures |blocks| == i + 1
  {
    [LengthBlock(|data|)] + DataBlocks(data[..i])
  }

  lemma ShiftedStart(data: seq<bv8>)
    ensures Shifted(data, 0) == [LengthBlock(|data|)]
  {
    assert DataBlocks(data[..0]) == [];
  }

  lemma ShiftedSnoc(data: seq<bv8>, i: nat)
    requires i < |data|
    ensures Shifted(data, i + 1) == Shifted(data, i) + [EncodeByte(data[i])]
  {
    DataBlocksSnoc(data, i);
  }

  /** Once every byte is shifted in, the blocks are the whole frame. */
  lemma ShiftedAll(data: seq<bv8>, i: nat)
    requires i == |data|
    ensures EncodeSpec(data) == Pack(ConcatBlocks(Shifted(data, i)))
  {
    assert data[..i] == data;
  }

  // ---------------------------------------------------------------------------
  // Encoding

  /** The encoder's loop invariant: the bytes written, followed by the bits
      pending in the low end of the accumulator, are the blocks shifted in. */
  predicate Written(encoded: seq<bv8>, accumulator: nat, bits: nat, blocks: seq<Block>)
  {
    Flatten(encoded) + Bits(accumulator, bits) == ConcatBlocks(blocks)
  }

  lemma AppendAssoc(a: seq<bool>, b: seq<bool>, c: seq<bool>)
    ensures a + (b + c) == (a + b) + c
  {
  }

  lemma ConcatOne(blk: Block)
    ensures ConcatBlocks([blk]) == BlockBits(blk)
  {
    assert ConcatBlocks([blk]) == BlockBits(blk) + ConcatBlocks([]);
  }

  /** The accumulator starts out holding the length block. */
  lemma WrittenStart(blk: Block)
    requires WellFormed(blk)
    ensures Written([], Register(blk), BLOCK_BITS, [blk])
  {
    RegisterBits(blk);
    ConcatOne(blk);
  }

  /** `(accumulator << 14) | y` in a `uint32_t`, for a 14-bit y and at most 18
      bits pending, keeps every pending bit and appends those of y. */
  lemma ShiftInValue(accumulator: nat, bits: nat, y: nat, bs: seq<bool>)
    requires bits <= 18 && y < 0x4000 && Bits(y, BLOCK_BITS) == bs
    ensures Bits(Low(Shl(accumulator, BLOCK_BITS) + y, UINT32_BITS), bits + BLOCK_BITS)
         == Bits(accumulator, bits) + bs
  {
    Pow2Block();
    ShiftIn32(accumulator, bits, y, BLOCK_BITS);
  }

  /** More bits pending after one more block shifted in. */
  lemma WrittenAppend(encoded: seq<bv8>, pending: seq<bool>, blocks: seq<Block>, blk: Block)
    requires Flatten(encoded) + pending == ConcatBlocks(blocks)
    ensures Flatten(encoded) + (pending + BlockBits(blk)) == ConcatBlocks(blocks + [blk])
  {
    ConcatBlocksSnoc(blocks, blk);
    AppendAssoc(Flatten(encoded), pending, BlockBits(blk));
  }

  lemma WrittenShiftIn(encoded: seq<bv8>, accumulator: nat, shifted: nat, bits: nat, blocks: seq<Block>, byte: bv8)
    requires Written(encoded, accumulator, bits, blocks) && bits <= 18
    requires shifted == Low(Shl(accumulator, BLOCK_BITS) + Register(EncodeByte(byte)), UINT32_BITS)
    ensures Written(encoded, shifted, bits + BLOCK_BITS, blocks + [EncodeByte(byte)])
  {
    RegisterBits(EncodeByte(byte));
    ShiftInValue(accumulator, bits, Register(EncodeByte(byte)), BlockBits(EncodeByte(byte)));
    WrittenAppend(encoded, Bits(accumulator, bits), blocks, EncodeByte(byte));
  }

  /** Writing out the top byte, `(accumulator >> (bits - 8)) & 0xFF`. */
  lemma WrittenDrain(encoded: seq<bv8>, accumulator: nat, bits: nat, blocks: seq<Block>, c: nat)
    requires Written(encoded, accumulator, bits, blocks) && bits == c + 8
    ensures Written(encoded + [ToByte(Low(Shr(accumulator, c), BYTE_BITS))], accumulator, c, blocks)
  {
    var outputByte := ToByte(Low(Shr(accumulator, c), BYTE_BITS));
    Drain(accumulator, bits, c);
    FlattenSnoc(encoded, outputByte);
  }

  /** Nothing pending: the bytes written are the packed frame. */
  lemma WrittenFlushNothing(encoded: seq<bv8>, accumulator: nat, blocks: seq<Block>)
    requires Written(encoded, accumulator, 0, blocks)
    ensures Pack(ConcatBlocks(blocks)) == encoded
  {
    assert Flatten(encoded) + [] == Flatten(encoded);
    PackFlatten(encoded);
  }

  /** b of 1 to 7 bits pending: the flush `(accumulator << (8 - b)) & 0xFF` writes
      the last, zero-padded byte of the packed frame. */
  lemma WrittenFlush(encoded: seq<bv8>, accumulator: nat, b: nat, k: nat, blocks: seq<Block>)
    requires Written(encoded, accumulator, b, blocks) && 0 < b && 0 < k && b + k == 8
    ensures Pack(ConcatBlocks(blocks)) == encoded + [ToByte(Low(Low(Shl(accumulator, k), UINT32_BITS), BYTE_BITS))]
  {
    PackAfterBytes(encoded, Bits(accumulator, b));
    PackTail(accumulator, b, k);
  }

  /** Bits that follow whole bytes are packed after those bytes. */
  lemma PackAfterBytes(encoded: seq<bv8>, pending: seq<bool>)
    ensures Pack(Flatten(encoded) + pending) == encoded + Pack(pending)
  {
    DivModUnique(|Flatten(encoded)|, 8, |encoded|, 0);
    PackAppend(Flatten(encoded), pending);
    PackFlatten(encoded);
  }

  /** The loop of `encode` that writes out every complete byte at the top of
      the accumulator, `(accumulator >> (bits - 8)) & 0xFF`, until fewer than 8
      bits are pending. */
  method WriteBytes(encoded: seq<bv8>, accumulator: nat, bits: nat, ghost blocks: seq<Block>)
    returns (written: seq<bv8>, remaining: nat)
    requires Written(encoded, accumulator, bits, blocks)
    ensures remaining == bits % 8 && |written| == |encoded| + bits / 8
    ensures Written(written, accumulator, remaining, blocks)
  {
    written, remaining := encoded, bits;
    while remaining >= 8
      invariant remaining % 8 == bits % 8 && |written| + remaining / 8 == |encoded| + bits / 8
      invariant Written(written, accumulator, remaining, blocks)
      decreases remaining
    {
      var c := remaining - 8;
      var outputByte := ToByte(Low(Shr(accumulator, c), BYTE_BITS));
      WrittenDrain(written, accumulator, remaining, blocks, c);
      written := written + [outputByte];
      remaining := c;
    }
  }

  /** `encode`: the length block, then each byte's block, shifted into a 32-bit
      accumulator from which every complete top byte is written out; the last
      partial byte is padded with zeros. An empty input leaves 14 bits in the
      accumulator for the flush, whose shift by 8 - 14 has no defined meaning in
      C++, so the input must not be empty. */
  method Encode(data: seq<bv8>) returns (encoded: seq<bv8>)
    requires |data| >= 1
    ensures encoded == EncodeSpec(data)
  {
    var n := |data|;
    // the codewords of `size >> 4` and `size & 0x0F` side by side
    var accumulator: nat := Register(LengthBlock(n));
    var bitsInAccumulator: nat := 14;
    encoded := [];
    ShiftedStart(data);
    WrittenStart(LengthBlock(n));
    var i := 0;
    while i < n
      invariant 0 <= i <= n
      invariant bitsInAccumulator <= 14 && (i > 0 ==> bitsInAccumulator < 8)
      invariant Written(encoded, accumulator, bitsInAccumulator, Shifted(data, i))
    {
      var byte := data[i];
      // `high_codeword` and `low_codeword` side by side
      var block14 := Register(EncodeByte(byte));
      ghost var previous := accumulator;
      accumulator := Low(Shl(accumulator, BLOCK_BITS) + block14, UINT32_BITS);
      WrittenShiftIn(encoded, previous, accumulator, bitsInAccumulator, Shifted(data, i), byte);
      bitsInAccumulator := bitsInAccumulator + BLOCK_BITS;
      ShiftedSnoc(data, i);
      encoded, bitsInAccumulator := WriteBytes(encoded, accumulator, bitsInAccumulator, Shifted(data, i + 1));
      i := i + 1;
    }
    ShiftedAll(data, i);
    if bitsInAccumulator > 0 {
      var k := 8 - bitsInAccumulator;
      var outputByte := ToByte(Low(Low(Shl(accumulator, k), UINT32_BITS), BYTE_BITS));
      WrittenFlush(encoded, accumulator, bitsInAccumulator, k, Shifted(data, i));
      encoded := encoded + [outputByte];
    } else {
      WrittenFlushNothing(encoded, accumulator, Shifted(data, i));
    }
  }

  // ---------------------------------------------------------------------------
  // Decoding

  /** The decoder's loop invariant: the bits of the bytes read so far are the
      blocks cut out, followed by the `remainder` bits pending in the low end of
      `data`. */
  predicate Received(bytes: seq<bv8>, blocks: seq<Block>, data: nat, remainder: nat)
  {
    Flatten(bytes) == ConcatBlocks(blocks) + Bits(data, remainder)
  }

  /** Every block cut out has both codewords in their 7-bit fields. */
  predicate AllWellFormed(blocks: seq<Block>)
  {
    forall k :: 0 <= k < |blocks| ==> WellFormed(blocks[k])
  }

  lemma AllWellFormedSnoc(blocks: seq<Block>, blk: Block)
    requires AllWellFormed(blocks) && WellFormed(blk)
    ensures AllWellFormed(blocks + [blk])
  {
  }

  lemma TakeSnoc(s: seq<bv8>, i: nat)
    requires i < |s|
    ensures s[..i + 1] == s[..i] + [s[i]]
  {
  }

  /** `data = (data << 8) | byte` in a `uint32_t`, with at most 24 bits pending,
      appends the byte's bits to the pending ones. */
  lemma ReceivedShiftIn(bytes: seq<bv8>, blocks: seq<Block>, data: nat, remainder: nat, byte: bv8, shifted: nat)
    requires Received(bytes, blocks, data, remainder) && remainder <= 24
    requires shifted == Low(Shl(data, BYTE_BITS) + byte as int, UINT32_BITS)
    ensures Received(bytes + [byte], blocks, shifted, remainder + BYTE_BITS)
  {
    Pow2Byte();
    ByteRange(byte);
    ShiftIn32(data, remainder, byte as int, BYTE_BITS);
    FlattenSnoc(bytes, byte);
    AppendAssoc(ConcatBlocks(blocks), Bits(data, remainder), ByteBits(byte));
  }

  /** `data = (data << 8) | byte; remainder += 8` for the i-th byte of the input:
      its eight bits join the pending ones. */
  method ShiftIn(encoded: seq<bv8>, i: nat, ghost blocks: seq<Block>, data: nat, remainder: nat)
    returns (shifted: nat, pending: nat)
    requires i < |encoded| && Received(encoded[..i], blocks, data, remainder) && remainder <= 24
    ensures pending == remainder + 8 && shifted < TWO32
    ensures Received(encoded[..i + 1], blocks, shifted, pending)
  {
    shifted := Low(Shl(data, BYTE_BITS) + encoded[i] as int, UINT32_BITS);
    pending := remainder + BYTE_BITS;
    Pow2Word();
    ReceivedShiftIn(encoded[..i], blocks, data, remainder, encoded[i], shifted);
    TakeSnoc(encoded, i);
  }

  /** A 7-bit field `v & 0x7F` as a `uint8_t` is a codeword-sized byte holding
      the field's bits. */
  lemma FieldBits(v: nat)
    ensures ToByte(Low(v, CODEWORD_BITS)) < 128
    ensures Bits(ToByte(Low(v, CODEWORD_BITS)) as int, CODEWORD_BITS) == Bits(v, CODEWORD_BITS)
  {
    Pow2Codeword();
    SmallMod(Low(v, CODEWORD_BITS));
    BitsLow(v, CODEWORD_BITS, CODEWORD_BITS);
  }

  lemma CutBits(data: nat, c: nat, block14: nat)
    requires block14 == Low(Shr(data, c), BLOCK_BITS)
    ensures WellFormed(Block(ToByte(Low(Shr(block14, CODEWORD_BITS), CODEWORD_BITS)), ToByte(Low(block14, CODEWORD_BITS))))
    ensures BlockBits(Block(ToByte(Low(Shr(block14, CODEWORD_BITS), CODEWORD_BITS)), ToByte(Low(block14, CODEWORD_BITS))))
         == Bits(Shr(data, c), BLOCK_BITS)
  {
    FieldBits(Shr(block14, CODEWORD_BITS));
    FieldBits(block14);
    BitsSplit(block14, CODEWORD_BITS, CODEWORD_BITS);
    BitsLow(Shr(data, c), BLOCK_BITS, BLOCK_BITS);
  }

  /** Cutting the oldest 14 of c + 14 pending bits out as the next block. */
  lemma CutStep(bytes: seq<bv8>, blocks: seq<Block>, data: nat, remainder: nat, c: nat, blk: Block)
    requires Received(bytes, blocks, data, remainder) && remainder == c + 14
    requires BlockBits(blk) == Bits(Shr(data, c), BLOCK_BITS)
    ensures Received(bytes, blocks + [blk], data, c)
  {
    BitsSplit(data, BLOCK_BITS, c);
    ConcatBlocksSnoc(blocks, blk);
    AppendAssoc(ConcatBlocks(blocks), Bits(Shr(data, c), BLOCK_BITS), Bits(data, c));
  }

  /** `block_14 = (data >> (remainder - 14)) & 0x3FFF`, split into
      `high_codeword = (block_14 >> 7) & 0x7F` and `low_codeword = block_14 & 0x7F`:
      the block made of the oldest 14 of the pending bits, which leaves the
      other `remainder - 14` pending. */
  method ExtractBlock(ghost bytes: seq<bv8>, ghost blocks: seq<Block>, data: nat, remainder: nat)
    returns (codewords: Block)
    requires Received(bytes, blocks, data, remainder) && remainder >= 14
    ensures WellFormed(codewords) && BlockBits(codewords) == Bits(Shr(data, remainder - 14), BLOCK_BITS)
    ensures Received(bytes, blocks + [codewords], data, remainder - 14)
  {
    var block14 := Low(Shr(data, remainder - 14), BLOCK_BITS);
    CutBits(data, remainder - 14, block14);
    var highCodeword := ToByte(Low(Shr(block14, CODEWORD_BITS), CODEWORD_BITS));
    var lowCodeword := ToByte(Low(block14, CODEWORD_BITS));
    codewords := Block(highCodeword, lowCodeword);
    CutStep(bytes, blocks, data, remainder, remainder - 14, codewords);
  }

  lemma RunSnoc(blocks: seq<Block>, blk: Block)
    ensures Run(blocks + [blk]) == Step(Run(blocks), blk)
  {
    assert (blocks + [blk])[..|blocks|] == blocks;
  }

  /** The decoder cuts the blocks of a stream that starts with the given
      well-formed blocks. */
  lemma BlocksOfPrefix(blocks: seq<Block>, rest: seq<bool>)
    requires AllWellFormed(blocks)
    ensures BlocksOf(ConcatBlocks(blocks) + rest) == blocks + BlocksOf(rest)
  {
    BlocksOfAppend(ConcatBlocks(blocks), rest);
    BlocksOfConcat(blocks);
  }

  /** The input ran out with fewer than 14 bits pending: they make no block. */
  lemma DecodeFinished(encoded: seq<bv8>, i: nat, blocks: seq<Block>, data: nat, remainder: nat)
    requires i == |encoded| && Received(encoded[..i], blocks, data, remainder)
    requires remainder < 14 && AllWellFormed(blocks)
    ensures DecodeSpec(encoded) == Run(blocks)
  {
    assert encoded[..i] == encoded;
    BlocksOfPrefix(blocks, Bits(data, remainder));
    assert blocks + BlocksOf(Bits(data, remainder)) == blocks;
  }

  /** The bits of the whole input: those of the first j bytes, then the rest. */
  lemma FlattenSplit(encoded: seq<bv8>, j: nat, cut: seq<bool>, pending: seq<bool>)
    requires j <= |encoded| && Flatten(encoded[..j]) == cut + pending
    ensures Flatten(encoded) == cut + (pending + Flatten(encoded[j..]))
  {
    assert encoded[..j] + encoded[j..] == encoded;
    FlattenAppend(encoded[..j], encoded[j..]);
    AppendAssoc(cut, pending, Flatten(encoded[j..]));
  }

  /** The decoder stopped after reading j bytes: what follows is never looked at. */
  lemma DecodeStopped(encoded: seq<bv8>, j: nat, blocks: seq<Block>, data: nat, remainder: nat)
    requires j <= |encoded| && Received(encoded[..j], blocks, data, remainder)
    requires AllWellFormed(blocks) && Run(blocks).done
    ensures DecodeSpec(encoded) == Run(blocks)
  {
    var rest := Bits(data, remainder) + Flatten(encoded[j..]);
    FlattenSplit(encoded, j, ConcatBlocks(blocks), Bits(data, remainder));
    BlocksOfPrefix(blocks, rest);
    RunDone(blocks, BlocksOf(rest));
  }

  /** The `uint32_t` counters: a counter holding total modulo 2^32, incremented
      by x, holds total + x modulo 2^32. */
  lemma CountUp(counter: nat, total: nat, x: nat)
    requires counter == total % TWO32
    ensures (counter + x) % TWO32 == (total + x) % TWO32
  {
    ModAdd(total, x);
  }

  lemma ModAdd(a: nat, x: nat)
    ensures (a % TWO32 + x) % TWO32 == (a + x) % TWO32
  {
    var q := a / TWO32;
    assert a + x == TWO32 * q + (a % TWO32 + x);
    DivModUnique(a + x, TWO32, q + (a % TWO32 + x) / TWO32, (a % TWO32 + x) % TWO32);
  }

  /** The fields of the state after one more block, while not stopped. */
  lemma StepFields(st: DecodeState, blk: Block)
    requires !st.done
    ensures Step(st, blk).corrections == st.corrections + Flags(DecodeBlock(blk))
    ensures Step(st, blk).codewords == st.codewords + 2
    ensures Step(st, blk).size == if st.size.None? then Some(DecodeBlock(blk).byte as int) else st.size
    ensures Step(st, blk).decoded == if st.size.None? then st.decoded else st.decoded + [DecodeBlock(blk).byte]
    ensures Step(st, blk).done == (st.size.Some? && |st.decoded| + 1 >= st.size.value)
  {
  }

  /** The registers of `decode` agree with the decoder state: `decoded` and the
      two `uint32_t` counters, and `size`, which is `SIZE_MAX` until the length
      block has been read. */
  predicate Agrees(st: DecodeState, size: nat, decoded: seq<bv8>, correctedErrors: nat, totalCodewords: nat)
  {
    && decoded == st.decoded
    && correctedErrors == st.corrections % TWO32
    && totalCodewords == st.codewords % TWO32
    && (st.size.None? <==> size == SIZE_MAX)
    && (st.size.Some? ==> size == st.size.value)
  }

  /** The body of the decoder's loop for one block cut out of the register:
      its codewords are decoded, the counters updated, and the byte is taken as
      the size (for the first block) or pushed to the output; `stop` is the
      `break` once the output holds `size` bytes. */
  method TakeBlock(codewords: Block, size: nat, decoded: seq<bv8>, correctedErrors: nat, totalCodewords: nat,
                   ghost st: DecodeState)
    returns (size': nat, decoded': seq<bv8>, correctedErrors': nat, totalCodewords': nat, stop: bool)
    requires !st.done && Agrees(st, size, decoded, correctedErrors, totalCodewords)
    ensures Agrees(Step(st, codewords), size', decoded', correctedErrors', totalCodewords')
    ensures stop == Step(st, codewords).done
  {
    var high := DecodeNibble(codewords.high);
    var low := DecodeNibble(codewords.low);
    var decodedByte := (high.value << 4) | low.value;
    ghost var next := Step(st, codewords);
    assert DecodeBlock(codewords) == BlockDecode(decodedByte, high.corrected, low.corrected);
    StepFields(st, codewords);
    CountUp(totalCodewords, st.codewords, 2);
    totalCodewords' := (totalCodewords + 2) % TWO32;
    correctedErrors' := correctedErrors;
    ghost var corrections := st.corrections;
    if high.corrected {
      CountUp(correctedErrors', corrections, 1);
      correctedErrors' := (correctedErrors' + 1) % TWO32;
      corrections := corrections + 1;
    }
    if low.corrected {
      CountUp(correctedErrors', corrections, 1);
      correctedErrors' := (correctedErrors' + 1) % TWO32;
      corrections := corrections + 1;
    }
    assert corrections == next.corrections;
    size', decoded', stop := size, decoded, false;
    if size == SIZE_MAX {
      ByteRange(decodedByte);
      size' := decodedByte as int;
    } else {
      decoded' := decoded + [decodedByte];
      stop := |decoded'| >= size;
    }
  }

  /** The decoder's state at the head of its loop after the first i bytes:
      they were cut into `blocks` with the bits of `data` left pending, and the
      variables agree with the decoder run on those blocks. */
  ghost predicate Consumed(encoded: seq<bv8>, i: nat, blocks: seq<Block>, st: DecodeState, data: nat, remainder: nat,
                           size: nat, decoded: seq<bv8>, correctedErrors: nat, totalCodewords: nat)
  {
    && i <= |encoded| && remainder < 14 && AllWellFormed(blocks)
    && Received(encoded[..i], blocks, data, remainder)
    && st == Run(blocks) && !st.done
    && Agrees(st, size, decoded, correctedErrors, totalCodewords)
  }

  /** The `if (remainder >= 14)` part of the decoder's loop body for byte i: a
      full block is cut out and handed to `TakeBlock`; `stop` is the `break`,
      taken before `remainder -= 14`. */
  method TakePending(ghost encoded: seq<bv8>, ghost i: nat, ghost blocks: seq<Block>, ghost st: DecodeState,
                     data: nat, remainder: nat, size: nat, decoded: seq<bv8>, correctedErrors: nat, totalCodewords: nat)
    returns (remainder': nat, size': nat, decoded': seq<bv8>, correctedErrors': nat, totalCodewords': nat,
             stop: bool, ghost blocks': seq<Block>, ghost st': DecodeState)
    requires i < |encoded| && remainder < 22 && AllWellFormed(blocks)
    requires Received(encoded[..i + 1], blocks, data, remainder)
    requires st == Run(blocks) && !st.done && Agrees(st, size, decoded, correctedErrors, totalCodewords)
    ensures AllWellFormed(blocks') && st' == Run(blocks') && stop == st'.done
    ensures Agrees(st', size', decoded', correctedErrors', totalCodewords')
    ensures stop ==> DecodeSpec(encoded) == st'
    ensures !stop ==> Consumed(encoded, i + 1, blocks', st', data, remainder', size', decoded', correctedErrors', totalCodewords')
  {
    remainder', size', decoded', correctedErrors', totalCodewords', stop := remainder, size, decoded, correctedErrors, totalCodewords, false;
    blocks', st' := blocks, st;
    if remainder >= 14 {
      var codewords := ExtractBlock(encoded[..i + 1], blocks, data, remainder);
      size', decoded', correctedErrors', totalCodewords', stop :=
        TakeBlock(codewords, size, decoded, correctedErrors, totalCodewords, st);
      RunSnoc(blocks, codewords);
      AllWellFormedSnoc(blocks, codewords);
      blocks', st' := blocks + [codewords], Step(st, codewords);
      if stop {
        DecodeStopped(encoded, i + 1, blocks', data, remainder - 14);
      } else {
        remainder' := remainder - 14;
      }
    }
  }

  /** `decode`: every byte is shifted into a 32-bit register; each time 14 bits
      are pending the oldest 14 are cut out as a block, its two codewords are
      corrected and decoded, and the byte they make is the size (for the first
      block) or the next output byte. The loop stops once as many bytes as the
      size says (at least one) are out. */
  method Decode(encoded: seq<bv8>) returns (decoded: seq<bv8>, correctedErrors: nat)
    ensures decoded == DecodeSpec(encoded).decoded
    ensures correctedErrors == DecodeSpec(encoded).corrections % TWO32
  {
    var size: nat := SIZE_MAX;
    var remainder: nat := 0;
    var data: nat := 0;
    var totalCodewords: nat := 0;
    correctedErrors := 0;
    decoded := [];
    ghost var blocks: seq<Block> := [];
    ghost var st := Start;
    assert encoded[..0] == [];
    var i := 0;
    while i < |encoded|
      invariant Consumed(encoded, i, blocks, st, data, remainder, size, decoded, correctedErrors, totalCodewords)
    {
      data, remainder := ShiftIn(encoded, i, blocks, data, remainder);
      var stop;
      remainder, size, decoded, correctedErrors, totalCodewords, stop, blocks, st :=
        TakePending(encoded, i, blocks, st, data, remainder, size, decoded, correctedErrors, totalCodewords);
      if stop {
        break;
      }
      i := i + 1;
    }
    if i == |encoded| {
      DecodeFinished(encoded, i, blocks, data, remainder);
    }
  }
}
