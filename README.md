# Hamming(7,4) FEC codec of the CMT2300A radio component

This project models the forward-error-correction codec of class `CMT2300A`
(`components/cmt2300a/cmt2300a.h`) and proves properties of it.

- **Nibble codec.** A nibble becomes the systematic 7-bit codeword
  `[d3 d2 d1 d0 | p2 p1 p0]`, with p2 = d3⊕d1⊕d0, p1 = d3⊕d2⊕d1 and
  p0 = d2⊕d1⊕d0. A received word is decoded through its 3-bit syndrome and a
  fixed table of the bit to flip.
- **Stream encoder.** First comes a 14-bit length block holding the codewords
  of `size >> 4` and `size & 0x0F`. Then every byte gives one 14-bit block: the
  codeword of its high nibble, then that of its low nibble. The blocks are
  pushed through a `uint32_t` accumulator and written out most significant
  bit first, one byte at a time. The last partial byte is padded with zeros.
- **Stream decoder.** Each input byte is shifted into a `uint32_t` register.
  Whenever 14 bits are pending, the oldest 14 are cut out as a block and both
  codewords are corrected. The first block's byte is the declared size; the
  later blocks' bytes are the output. Decoding stops once the output holds
  `size` bytes. The decoder returns the number of corrected codewords.

The Dafny modules follow that structure:

- `BitStream` (`bits.dfy`): arithmetic on registers and bit strings. `>>`,
  `<<` and masks are `Shr`, `Shl` and `Low`. `Bits` lists the low bits of a
  register, most significant first. `Pack`/`Flatten` convert between bit
  strings and bytes.
- `Hamming` (`hamming.dfy`): `compute_parity`, `encode_nibble` and
  `decode_nibble` on `bv8`, with the source's own operators.
- `Wire` (`wire.dfy`): the stream format as functions.
  - `EncodeSpec(data)` packs the frame's blocks into bytes.
  - `DecodeSpec(encoded)` cuts the input's bits into blocks and runs a small
    state machine (`Step`, `Run`) over them.
  - `Reference` describes the same decoder without a state machine.
- `Codec` (`codec.dfy`): `encode` and `decode` as methods. They use the
  source's registers (`accumulator`, `bits_in_accumulator`, `data`,
  `remainder`, `size`, the two counters) and loops. Each method is proved
  equal to its `Wire` function.
- `RoundTrip` (`roundtrip.dfy`): what the decoder makes of the encoder's
  output, with and without errors.

`uint32_t` values are `nat` reduced modulo 2^32 where the source truncates
(`Low(…, UINT32_BITS)`). The two `uint32_t` counters are kept modulo 2^32.
`size_t` is taken to be 64 bits wide (`Codec.SIZE_MAX`).

## Model

| member | source | states |
|---|---|---|
| Hamming.ComputeParity | components/cmt2300a/cmt2300a.h:252-268 | the parity p2 p1 p0 fits in 3 bits |
| Hamming.EncodeNibble | components/cmt2300a/cmt2300a.h:37-48 | the codeword is below 128 and satisfies all three parity equations; its bits 6..3 are `nibble & 0x0F` |
| Hamming.EncodeIgnoresHighBits | components/cmt2300a/cmt2300a.h:38-39 | inputs that differ only above bit 3 give the same codeword |
| Hamming.CodewordIsEncoding | components/cmt2300a/cmt2300a.h:8-18 | every 7-bit word satisfying the parity equations is the encoding of its data bits |
| Hamming.Syndrome | components/cmt2300a/cmt2300a.h:105-126 | the syndrome is below 8, and it is 0 exactly when the received word satisfies the parity equations |
| Hamming.ErrorMaskBlamesOneBit | components/cmt2300a/cmt2300a.h:139-164 | each nonzero syndrome makes the switch flip exactly one of bits 0..6, the bit whose own syndrome it is; a zero syndrome flips nothing |
| Hamming.DecodeNibble | components/cmt2300a/cmt2300a.h:104-173 | the result is below 16, and the corrected flag is set exactly when a parity check fails |
| Hamming.DecodeEncoded | components/cmt2300a/cmt2300a.h:128-132 | an uncorrupted codeword decodes to `nibble & 0x0F` with the flag clear |
| Hamming.SingleErrorCorrected | components/cmt2300a/cmt2300a.h:134-172 | flipping any one of bits 0..6 gives a nonzero syndrome, the switch flips that same bit back, and the nibble is returned with the flag set |
| Hamming.OneErrorCorrected | components/cmt2300a/cmt2300a.h:104-173 | for any error pattern of at most one bit, the nibble is returned, flagged exactly when a bit was flipped |
| Hamming.DecodeIgnoresBit7 | components/cmt2300a/cmt2300a.h:106-113 | bit 7 of the received byte never changes the result |
| Hamming.DecodeNearest | components/cmt2300a/cmt2300a.h:128-172 | every 7-bit word is either the codeword of its result or one table-given bit away from it (the code is perfect, so the `default` case is never taken) |
| Hamming.DoubleErrorMisdecoded | components/cmt2300a/cmt2300a.h:134-172 | two flipped bits are flagged as corrected but decode to a different nibble |
| Wire.EncodeLength | components/cmt2300a/cmt2300a.h:61-93 | the encoded frame is `ceil(14 * (n + 1) / 8)` bytes long |
| Wire.LengthBlockIsEncodeByte | components/cmt2300a/cmt2300a.h:62 | the length block is the block of the size taken as a `uint8_t`, that is, modulo 256 |
| Wire.DecodeLengthBlock | components/cmt2300a/cmt2300a.h:62 | the length block decodes, with no correction, to the size modulo 256 |
| Wire.DecodeEncodeByte | components/cmt2300a/cmt2300a.h:68-72 | a data byte's block decodes back to the byte with no correction |
| Wire.BlockErrorsCorrected | components/cmt2300a/cmt2300a.h:210-230 | with at most one flipped bit in each codeword, a block decodes to its byte, with one flag per corrected codeword |
| Wire.BlocksOfConcat | components/cmt2300a/cmt2300a.h:205-211 | cutting written blocks' bits every 14 bits and splitting at bit 7 gives back the same blocks |
| Wire.StepProgress | components/cmt2300a/cmt2300a.h:224-238 | one loop-body step: after the `break` nothing changes; otherwise the first block sets the size for good, two codewords are counted with at most two corrections, at most one byte is appended, and the decoder stops only once the output holds `size` bytes |
| Wire.RunIsReference | components/cmt2300a/cmt2300a.h:230-238 | the state machine equals the closed form: the first block declares the size n, the next max(1, n) blocks (as many as exist) are the output, and done means all of them arrived |
| Wire.CorrectionsBounded | components/cmt2300a/cmt2300a.h:225-227 | corrections ≤ codewords counted ≤ 2 × blocks, the length block included |
| Wire.DeclaredSizeZero | components/cmt2300a/cmt2300a.h:231-238 | a declared size of 0 still outputs one byte, then stops |
| Wire.RunDone | components/cmt2300a/cmt2300a.h:235-237 | after the `break`, further blocks change nothing |
| Codec.Register | components/cmt2300a/cmt2300a.h:72 | the shifted-together value of a block's two codewords is below 2^14, so the `uint16_t` keeps it whole |
| Codec.RegisterFitsUint16 | components/cmt2300a/cmt2300a.h:72 | masking that value to the 16 bits of `uint16_t` leaves it unchanged |
| Codec.RegisterBits | components/cmt2300a/cmt2300a.h:72 | the 14 low bits of that value are the block's two 7-bit fields |
| Codec.WriteBytes | components/cmt2300a/cmt2300a.h:79-84 | the drain loop writes `bits / 8` bytes and leaves `bits % 8` bits; written bytes plus pending bits stay the frame's blocks so far |
| Codec.Encode | components/cmt2300a/cmt2300a.h:61-93 | for non-empty input, the output equals `Wire.EncodeSpec`, the zero-padded, MSB-first packing of the length block and the data blocks |
| Codec.ShiftIn | components/cmt2300a/cmt2300a.h:199-200 | the byte's 8 bits join the pending bits of the register, and `remainder` grows by 8 |
| Codec.ExtractBlock | components/cmt2300a/cmt2300a.h:205-211 | the block cut out is well formed and holds the oldest 14 pending bits; the other `remainder - 14` stay pending |
| Codec.TakeBlock | components/cmt2300a/cmt2300a.h:217-238 | the registers after one block agree with `Wire.Step`: size, output and both counters modulo 2^32; `stop` is the machine's done flag |
| Codec.TakePending | components/cmt2300a/cmt2300a.h:203-240 | the `remainder >= 14` step keeps the decoder loop's invariant; on `break`, the state already equals the decoder's result on the whole input |
| Codec.Decode | components/cmt2300a/cmt2300a.h:186-243 | the output and the returned count equal `Wire.DecodeSpec` of the input (count modulo 2^32), for every input |
| RoundTrip.DecodeOfEncode | components/cmt2300a/cmt2300a.h:186-243 | decoding an encoded frame of any length gives size `n % 256`, the first `min(n, max(1, n % 256))` bytes, 0 corrections, and done exactly when all announced bytes were there |
| RoundTrip.RoundTrip | components/cmt2300a/cmt2300a.h:52-58 | for 1 to 255 bytes, decoding the encoding gives the input back with 0 corrections, and the decoder stops |
| RoundTrip.SizeWrapsToZero | components/cmt2300a/cmt2300a.h:62 | a length that is a multiple of 256 is sent as size 0, and only the first byte comes back |
| RoundTrip.FrameDone | components/cmt2300a/cmt2300a.h:235-237 | the decoder stops at the end of every non-empty frame, since the announced size modulo 256 never exceeds the bytes sent |
| RoundTrip.TrailingBytesIgnored | components/cmt2300a/cmt2300a.h:235-237 | bytes appended after any non-empty frame, its length taken modulo 256, do not change the decoder's result |
| RoundTrip.NoisyFrameDecoded | components/cmt2300a/cmt2300a.h:210-238 | if every codeword of a frame's blocks has at most one flipped bit, the decoder reads the same size, outputs the same bytes and stops at the same place; its count of corrections is the number of changed codewords among the blocks it read, the whole frame for 1 to 255 bytes |
| RoundTrip.NoisyBlockFlags | components/cmt2300a/cmt2300a.h:210-230 | a block with at most one flipped bit per codeword decodes to its byte, flagged exactly in the codewords that changed |
| RoundTrip.CorrectionsAreErrors | components/cmt2300a/cmt2300a.h:225-227 | when each block's flags mark exactly its changed codewords, the running count equals the number of changed codewords |
| RoundTrip.NoisyFrameCorrections | components/cmt2300a/cmt2300a.h:225-227 | on a noisy frame the counted corrections are exactly the changed codewords among the length block and the data blocks read before the `break` |
| RoundTrip.NoisyBytesDecoded | components/cmt2300a/cmt2300a.h:184-243 | if the blocks `decode` cuts from the received bytes are the frame's blocks with at most one flipped bit per codeword, `DecodeSpec` of those bytes, and so `Codec.Decode`, gives the same size, output and stop as on the encoder's output, and its returned count is the number of changed codewords among the blocks read |

## Left out

- The `ESP_LOGV` call in `decode` (lines 220-222) is logging with no effect on the results, so it is not modelled.
- `encode` on empty input is excluded by `Codec.Encode`'s precondition `|data| >= 1`: the loop never runs, and the flush at line 90 then shifts by 8 - 14 = -6, which C++ leaves undefined. `Wire.EncodeSpec([])` is still defined (two bytes), but it describes no run of the code.
- The output vectors, which the source clears and fills through a reference, are the methods' returned sequences. Aliasing between input and output is not modelled. For `encode(v, v)` that is `data` and `encoded`. For `decode(v, v)`, `decoded.clear()` at line 194 empties the input itself, so the source returns 0 with no output, while `Codec.Decode` reads the input as it was passed.
- `size_t` is 64 bits wide. On a 32-bit target `SIZE_MAX` would be 2^32 - 1; the model's reasoning does not depend on the value.
- The `uint16_t` of `block_14` and the `uint8_t` codeword variables never change a value: each is proved to fit (`Codec.Register`, `Codec.RegisterFitsUint16`, `Wire.WellFormed`). C++ integer promotion in `<< 7` is left implicit for the same reason.
- `total_codewords` is counted modulo 2^32 like the source, but `decode` never returns it. It appears only in `Codec.Agrees`.
- RoundTrip.NoisyBytesDecoded: the noise condition is stated on the blocks `decode` cuts from the received bytes, not on bit positions of the bytes themselves (a flip at bit p of the stream is a flip in codeword `(p % 14) / 7` of block `p / 14`); that translation is not proved.
- Beyond 255 bytes, the length wraps modulo 256: the `uint8_t` parameter of `encode_nibble(size >> 4)` keeps the wrapped value and the mask at line 39 then applies to it. The model does this and proves its consequences (`RoundTrip.DecodeOfEncode`, `RoundTrip.SizeWrapsToZero`), but does not reject such input, since the code does not.
- The rest of the repository is outside this model: the `system_status` component, its automation actions and its code-generation script.
