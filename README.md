# uQOA in Dafny

A model of uQOA, a small lossy audio codec in the "Quite OK Audio" family.

It has two parts:

- **The slice codec** (`uqoa.h`). A 4-tap sign-sign LMS predictor is kept in a
  `qoa_lms` record of two `int16_t` arrays. `qoa_encode_slice` tries all 16
  scale factors on a block of 20 samples, starting from a hint. It keeps the
  first one with the smallest squared error and packs the winner into one
  64-bit word: a 4-bit scale factor followed by twenty 3-bit codes.
  `qoa_decode_slice` replays those codes. `qoa_start_frame` resets weights
  that have grown too large.
- **The `uqoa_conv` stream driver** (`uqoa_conv.c`). `encode` reads big-endian
  16-bit samples from standard input and writes one slice word per 20 samples.
  Slices are grouped into frames of 256. In the non-plain format, each frame is
  preceded by the predictor's history word and weights word. `decode` reverses
  this, writing the samples back high byte first.

How the model is laid out:

- **Value-level specifications** of each step: the predictor (`Predictor`), the
  tables and scalar helpers (`Tables`, `Quant`), the scale factor search and the
  slice layout (`SliceSpec`), and the two streams as functions on byte
  sequences (`StreamSpec.EncodeBytes`, `StreamSpec.DecodeBytes`).
- **Imperative models** of the code, each proved against those functions:
  - the `Lms` class updated in place (`Predictor.Lms`);
  - the encode and decode loops over a 20-sample array (`SliceCodec`);
  - the standard streams as objects that are read and written one byte at a
    time (`Conv`);
  - the `encode` and `decode` drivers (`ConvEncode`, `ConvDecode`).

The main results:

- The winning scale factor has the least full-block error and is the first such
  in search order. A candidate cut off early never wins.
- Decoding an encoded slice from the same predictor state yields exactly the
  encoder's reconstruction and state.
- The `decode` driver, run on the `encode` driver's output, writes back the
  bytes of the reconstructed samples (`StreamSpec.StreamRoundTrip`).

C's fixed-width arithmetic is written out where it matters:

- the `int16_t` wrap of the weight update and of the error term;
- the `uint32_t` squared sum in `qoa_start_frame`;
- the `int32_t` product inside `qoa_div`.

`>>` on signed values is taken as floor division (an arithmetic shift), and bitwise OR of disjoint bit fields
is addition of base-8, base-256 or base-65536 digits.

Two details of the predictor, as the code has them:

- `qoa_start_frame` checks the wrapped squared sum once and only zeroes the
  weights. It does not check incrementally and never reseeds all-zero weights.
- The weight update subtracts `delta` when `history[i] < 0`.

## Model

| member | source | states |
|---|---|---|
| Arith.Wrap16 | uqoa.h:30 | The conversion to `int16_t` gives the int16 congruent to the value modulo 2^16, and the value itself when it is in range |
| Arith.Wrap32 | uqoa.h:68 | The `int32_t` product wraps to the int32 congruent modulo 2^32, and is unchanged when it is in range |
| Arith.ToInt16 | uqoa_conv.c:101 | Reinterpreting a 16-bit field as `int16_t` gives the int16 congruent to it modulo 2^16 |
| Arith.ToUInt16 | uqoa_conv.c:60 | The `(uint16_t)` cast gives a value in [0, 2^16) that converts back to the same int16 |
| Tables.TableShapes | uqoa.h:36-64 | The tables are 16, 16, 16x8 and 17 long; every dequantised step fits int16; every quant entry is a code in [0,8) |
| Tables.Dequant | uqoa.h:42-59 | Every dequantised step fits int16 |
| Tables.QuantCode | uqoa.h:60-64 | The index `8 + n` for n in [-8,8] stays in the 17-entry table and yields a code in [0,8) |
| Tables.ReciprocalIsCeiling | uqoa.h:36-41 | Each reciprocal is the ceiling of 65536 divided by its scale factor |
| Tables.DequantRowShape | uqoa.h:42-59 | Each row is ±a, ±b, ±c, ±d with 0<a<b<c<d, derived from the scale factor f as (3f+2)/4, (5f+1)/2, (9f+1)/2 and 7f |
| Tables.QuantParity | uqoa.h:60-64 | A quant code is odd exactly when the clamped quotient is negative |
| Tables.DequantSign | uqoa.h:42-59 | A dequantised step is never 0, and it is positive exactly for even codes |
| Quant.Sign | uqoa.h:69 | `(x > 0) - (x < 0)`: zero exactly for 0, and positive exactly for positive x |
| Quant.Div | uqoa.h:66-71 | `qoa_div`: the wrapped product with the reciprocal plus 2^15, shifted down 16 bits, then corrected by `Sign(v) - Sign(n)`: unchanged when n already has v's sign, ±1 when the rounding gave 0 for non-zero v; an int16, and 0 for v = 0 (its sign is stated by DivSign) |
| Quant.DivSign | uqoa.h:66-71 | When `v * reciprocal + 2^15` fits in int32, `qoa_div` returns 0 only for v = 0 and otherwise has the sign of v |
| Quant.Clamp | uqoa.h:72 | Returns lo when x < lo, hi when x > hi, and x otherwise; the result lies in [lo, hi] |
| Quant.Sat16 | uqoa.h:74-79 | The result is an int16, equals x when x is in range, and is the int16 nearest to x |
| Quant.Quantize | uqoa.h:107-108 | The quantised residual is a code in [0,8) |
| Quant.QuantizeInline | uqoa.h:107-108 | Proof step of SliceSpec.InlineStep: quantising equals the inline `quant_tab[8 + clamp(div(residual), -8, 8)]` |
| Quant.QuantizeKeepsSign | uqoa.h:107-109 | Without overflow in `qoa_div`, the dequantised step is negative exactly when the residual is negative |
| Predictor.Tap | uqoa.h:22 | Each term `(w * h) >> 2` lies in [-0xfff_e000, 0x1000_0000] |
| Predictor.TapSum | uqoa.h:20-22 | The sum of n terms lies within n times the term bounds |
| Predictor.WeightStep | uqoa.h:28-30 | The change `history[i] < 0 ? -delta : delta` with delta = residual >> 4; it lies in [-0x800, 0x800] and is zero exactly when 0 <= residual < 16 |
| Predictor.AfterUpdate | uqoa.h:26-34 | `qoa_lms_update` on values: the history shifts left by one and ends with the sample (the weights as UpdateEffect states) |
| Predictor.SquareSum | uqoa.h:83-85 | The sum of the squared weights before the `uint32_t` wrap; at most n·2^30 for n weights |
| Predictor.Prediction | uqoa.h:18-24 | The prediction lies in [-2^19, 2^19], so it fits the `int32_t` return value |
| Predictor.UpdateEffect | uqoa.h:26-34 | Each weight moves by -delta when the old history entry is negative and by +delta otherwise (delta = residual >> 4), wrapped to int16; the history shifts left and ends with the sample |
| Predictor.AfterStartFrame | uqoa.h:81-88 | The history is untouched; the weights are kept exactly when the squared sum modulo 2^32 is at most 0x2fffffff, and are otherwise all zeroed; afterwards the wrapped sum is within the threshold |
| Predictor.StartFrameIdempotent | uqoa.h:81-88 | Resetting a frame twice is the same as resetting it once |
| Predictor.ExtremeWeightsSurvive | uqoa.h:83-87 | Four weights of -32768 square-sum to 2^32, which wraps to 0, so they are kept |
| Predictor.Lms.constructor | uqoa_conv.c:40 | A new predictor holds the all-zero state |
| Predictor.Lms.FromValue | uqoa.h:99 | A copy of a predictor state in fresh arrays, as `current_lms = *lms` |
| Predictor.Lms.Assign | uqoa.h:130 | `*lms = best_lms` overwrites both arrays with the given state |
| Predictor.Lms.Predict | uqoa.h:18-24 | Returns the prediction of the current state and changes nothing |
| Predictor.Lms.Update | uqoa.h:26-34 | The history becomes the old `history[1..3]` followed by the sample; each weight is the int16 wrap of old weight ± (residual / 16), with the sign chosen by the old history entry |
| Predictor.Lms.StartFrame | uqoa.h:81-88 | The new state is the frame reset of the old one |
| SliceSpec.Reconstruct | uqoa.h:109-117 | The next predictor state is the update with the reconstructed sample and dequantised step; the step is non-zero and positive exactly for even codes |
| SliceSpec.ChooseCode | uqoa.h:105-108 | The code chosen for one sample from its residual against the prediction; without overflow in `qoa_div`, its dequantised step is negative exactly when the sample lies below the prediction |
| SliceSpec.SquaredError | uqoa.h:112-114 | One sample's error term is at most 2^30, and it is zero exactly when the sample is reconstructed exactly |
| SliceSpec.SquaredErrorInline | uqoa.h:112-114 | Proof step of SliceSpec.EncodeStepAgrees: the error term equals the square of the `int16_t` difference the encoder computes |
| SliceSpec.RunTrial | uqoa.h:99-119 | A trial yields one code and one reconstruction per sample, and its error is at most 20·2^30, so the `uint64_t` sum never wraps |
| SliceSpec.TrialStep | uqoa.h:103-118 | Proof step of SliceSpec.EncodeStepAgrees: a trial one sample longer adds that sample's error, code, reconstruction and predictor update |
| SliceSpec.EncodeStepAgrees | uqoa.h:104-117 | The encoder's inline statements for sample i compute exactly the next step of the trial |
| SliceSpec.InlineStep | uqoa.h:105-110 | Proof step of SliceSpec.EncodeStepAgrees: the inline predict, divide, clamp, quantise, dequantise and saturate steps choose the same code and reconstruction as the specification |
| SliceSpec.TrialPrefix | uqoa.h:114-115 | A prefix of a trial has no larger error, and its codes and reconstructions are prefixes of the full trial's |
| SliceSpec.Replay | uqoa.h:138-146 | Replaying codes yields one sample per code |
| SliceSpec.DecodeStepAgrees | uqoa.h:139-145 | The decoder's inline statements for code i compute exactly the next replay step |
| SliceSpec.TrialReplays | uqoa.h:138-146 | Replaying a trial's codes reproduces its reconstructed samples and its final predictor state |
| SliceSpec.ReplayHistory | uqoa.h:31-33 | After a replay the history holds the last four of the old history followed by the decoded samples |
| SliceSpec.Candidate | uqoa.h:98 | The k-th scale factor tried, `(hint + k) % 16`; CandidateRank proves the order visits each one exactly once |
| SliceSpec.Rank | uqoa.h:97-98 | Every scale factor occurs in the search order `(hint + k) % 16` at some position k < 16 |
| SliceSpec.CandidateRank | uqoa.h:97-98 | The search order visits each scale factor exactly once |
| SliceSpec.ErrorsAt | uqoa.h:99-119 | The k-th recorded error is the full-block error of the k-th candidate |
| SliceSpec.FirstMin | uqoa.h:121-126 | Selects the first index holding the least value among the first n |
| SliceSpec.FirstMinNext | uqoa.h:121-126 | Proof step of SliceSpec.SearchKeep, SearchImprove and PrunedNeverWins: one more candidate replaces the best only when its error is strictly smaller |
| SliceSpec.SearchKeep | uqoa.h:114-126 | A candidate that is cut off, or that is no better than the best, leaves the search state as it was |
| SliceSpec.SearchImprove | uqoa.h:121-126 | A candidate with a strictly smaller full error becomes the best |
| SliceSpec.SearchStepKeep | uqoa.h:114-126 | Same as SearchKeep, stated for the candidate's full trial |
| SliceSpec.SearchStepImprove | uqoa.h:121-126 | Same as SearchImprove, stated for the candidate's full trial |
| SliceSpec.SearchDone | uqoa.h:97-128 | After all 16 candidates, the best is the specified winner with its trial, and every cut-off candidate had strictly more error than the winner |
| SliceSpec.PrunedNeverWins | uqoa.h:114-115 | A candidate whose partial error already exceeds the best so far is never the winner |
| SliceSpec.PackSlice | uqoa.h:101-118 | The packed word is the scale factor followed by the codes as base-8 digits, and it fits in 64 bits |
| SliceSpec.PackSliceSnoc | uqoa.h:118 | Proof step of SliceCodec.Advance: `(slice << 3) \| code` on 64 bits appends one code to the packed word |
| SliceSpec.SliceScaleFactor | uqoa.h:137 | The scale factor in the top 4 bits, `slice >> 60`; SliceLayout proves it is the packed one |
| SliceSpec.SliceCode | uqoa.h:140 | Code i, the three bits that `(slice >> 57) & 7` reads after i shifts; ShiftedWord and SliceLayout prove it is the i-th packed code |
| SliceSpec.SliceCodes | uqoa.h:138-144 | The codes of a word in decoding order, always 20 of them |
| SliceSpec.ShiftedWord | uqoa.h:140-144 | After i shifts by 3, bits 57-59 hold code i |
| SliceSpec.SliceLayout | uqoa.h:137-144 | Unpacking a packed word recovers its scale factor and all 20 codes |
| SliceSpec.SliceFieldsPack | uqoa.h:137-144 | Every 64-bit word is the packing of its own scale factor and codes, so the decoder is total |
| SliceSpec.Decode | uqoa.h:135-147 | Decoding yields 20 samples, and the final history is the last four of the old history followed by those samples |
| SliceSpec.Encode | uqoa.h:90-133 | The returned word, predictor state and reconstruction are those of the chosen scale factor's full trial, the word being its codes packed behind the scale factor, which sits in the top 4 bits; the reconstruction has 20 samples |
| SliceSpec.EncodeOptimal | uqoa.h:121-126 | No scale factor has a smaller full-block error than the chosen one |
| SliceSpec.EncodeFirstBest | uqoa.h:97-126 | Among scale factors with the least error, the chosen one comes first in search order from the hint |
| SliceSpec.EncodeDecodeAgree | uqoa.h:135-147 | Decoding the encoded word from the same starting state yields the encoder's reconstruction and final state |
| SliceCodec.EncodeSlice | uqoa.h:90-133 | `qoa_encode_slice` returns the specified word and hint and leaves the specified state in `*lms`; every cut-off candidate lost; `samples` is not modified |
| SliceCodec.TrialSample | uqoa.h:104-114 | One sample of a trial, as the code computes it, extends the trial's error, codes and predictor state |
| SliceCodec.Advance | uqoa.h:117-118 | The update and the shift of the code into the word keep the working state and word equal to the trial prefix's |
| SliceCodec.TryCandidate | uqoa.h:99-119 | Runs one candidate: if it finishes, its error, packed word and predictor are its full trial's; if it breaks, both its running error and its full error exceed the best |
| SliceCodec.DecodeSlice | uqoa.h:135-147 | `qoa_decode_slice` writes the 20 specified samples and leaves the specified predictor state |
| StreamSpec.U64Bytes | uqoa_conv.c:22-28 | The bytes `put_u64` writes, most significant first, always eight of them (U64Shifted ties them to the shift loop) |
| StreamSpec.U64Value | uqoa_conv.c:84-90 | The big-endian value of eight bytes, as `get_u64` accumulates it; U64ValueOfBytes and U64BytesOfValue prove it inverts U64Bytes |
| StreamSpec.U64Shifted | uqoa_conv.c:24-27 | After i shifts by 8, the top byte of the word is byte i of its big-endian form |
| StreamSpec.U64ValueOfBytes | uqoa_conv.c:84-90 | Reading back the eight bytes `put_u64` writes gives the word |
| StreamSpec.U64BytesOfValue | uqoa_conv.c:22-28 | Every 8 bytes are the big-endian form of the word they read as |
| StreamSpec.SampleOf | uqoa_conv.c:51 | `(int16_t)((uint16_t)msb << 8 \| lsb)`: negative exactly when the high byte is at least 0x80 |
| StreamSpec.SampleBytes | uqoa_conv.c:115-116 | The two bytes written for a sample, high byte first, which read as its `(uint16_t)` value |
| StreamSpec.SampleBytesOf | uqoa_conv.c:114-117 | The bytes written for a run of samples, two per sample |
| StreamSpec.SampleBytesOfAt | uqoa_conv.c:114-117 | Sample k of a run is written at bytes 2k and 2k+1, high byte first |
| StreamSpec.SampleRoundTrip | uqoa_conv.c:115-116 | Writing a sample high byte first and reading it back gives the sample |
| StreamSpec.SampleBytesRoundTrip | uqoa_conv.c:51 | Reading a byte pair as a sample and writing it back gives the same pair |
| StreamSpec.SampleBytesOfAppend | uqoa_conv.c:114-117 | Writing two runs of samples writes the bytes of each, in order |
| StreamSpec.PackWord | uqoa_conv.c:59-70 | The state word of four int16 values, each as a 16-bit field, the first value highest; UnpackPack and PackUnpack prove it inverts UnpackWord |
| StreamSpec.WordField | uqoa_conv.c:101 | Field i of a state word, the 16 bits from bit (3-i)·16, reinterpreted as `int16_t` |
| StreamSpec.UnpackWord | uqoa_conv.c:100-104 | The fields of a state word in order, always four of them |
| StreamSpec.UnpackPack | uqoa_conv.c:100-104 | Unpacking a packed state word recovers its four int16 values |
| StreamSpec.PackUnpack | uqoa_conv.c:59-70 | Every 64-bit word is the packing of its four unpacked fields |
| StreamSpec.SamplesOf | uqoa_conv.c:47-51 | The input holds one sample per complete byte pair, and a lone odd byte is dropped |
| StreamSpec.SamplesOfAt | uqoa_conv.c:48-51 | Proof step of StreamSpec.NextSample: sample k is read from bytes 2k and 2k+1 |
| StreamSpec.NextSample | uqoa_conv.c:47-52 | The pair read at sample position 20g + c is the sample stored there |
| StreamSpec.InputExhausted | uqoa_conv.c:47-50 | When a pair read runs past the end, the samples read so far are all there are, and only the complete groups count |
| StreamSpec.Groups | uqoa_conv.c:52-53 | The samples split into complete groups of 20 in order; a trailing partial group is dropped |
| StreamSpec.WordsOfWordBytes | uqoa_conv.c:84-90 | Reading a written run of words gives the same words |
| StreamSpec.FrameLms | uqoa_conv.c:54-57 | The predictor a group is encoded from: reset by `qoa_start_frame` at slice 0 of a frame, unchanged otherwise (AfterStartFrame states the reset) |
| StreamSpec.HeaderWords | uqoa_conv.c:54-72 | Two header words are written exactly at the first slice of a frame in non-plain mode |
| StreamSpec.EncodeGroup | uqoa_conv.c:53-76 | The encoder state after one group: the slice's predictor and hint, the counter stepped modulo 256, and the header words and slice word appended (CadenceStep and EncodeGroups state the counts) |
| StreamSpec.EncodeNext | uqoa_conv.c:53-76 | One group encoded from the frame's predictor and the current hint; SyncedStep proves the decoder follows it |
| StreamSpec.CadenceStep | uqoa_conv.c:76 | The slice counter after n slices is n mod 256, and the output grows by one word per slice plus two per frame in non-plain mode |
| StreamSpec.EncodeGroups | uqoa_conv.c:47-78 | After n groups the slice count is n mod 256, there are 20n reconstructed samples, and there are 8(n + 2·frames) output bytes in non-plain mode, or 8n in plain mode |
| StreamSpec.EncodeBytes | uqoa_conv.c:38-79 | The bytes `encode` writes for an input: 8 per complete group of 20 samples, plus two header words per frame of up to 256 slices in non-plain mode |
| StreamSpec.SliceResultsEncode | uqoa_conv.c:53-77 | Slices produced group by group from the encoder's state add up to the encoder's whole output |
| StreamSpec.DecodeSliceWord | uqoa_conv.c:110-117 | One slice word decoded: 40 more output bytes; the slice counter stays below 256, and two header words are expected next exactly when a non-plain frame closes |
| StreamSpec.DecodeWord | uqoa_conv.c:97-117 | One word: a header word writes nothing, and a slice word writes 40 bytes |
| StreamSpec.DecodeFrom | uqoa_conv.c:96-119 | Decoding a run of words writes at most 40 bytes per word |
| StreamSpec.DecodeFromExtends | uqoa_conv.c:114-117 | Decoding only appends: the bytes written before are kept |
| StreamSpec.DecodeBytes | uqoa_conv.c:92-120 | The bytes `decode` writes for an input, at most five per input byte |
| StreamSpec.DecodeFromAppend | uqoa_conv.c:96-119 | Decoding two runs of words is decoding the first, then continuing with the second |
| StreamSpec.DecodeHeader | uqoa_conv.c:99-104 | The two header words the encoder writes load exactly the encoder's predictor state |
| StreamSpec.SyncedSlice | uqoa_conv.c:109-117 | A slice decoded from the state the encoder used reproduces the encoder's reconstruction and keeps the two in step |
| StreamSpec.SyncedStep | uqoa_conv.c:53-76 | Decoding the words written for one more group keeps decoder and encoder in step |
| StreamSpec.DecodeEncodedStep | uqoa_conv.c:96-117 | The decoder run over the encoder's whole output stays in step after one more group |
| StreamSpec.DecodeEncoded | uqoa_conv.c:92-120 | Decoding everything the encoder wrote leaves the decoder in step with the encoder |
| StreamSpec.StreamRoundTrip | uqoa_conv.c:38-120 | Decoding the encoded stream gives the bytes of the encoder's reconstructed samples, in either format |
| EncodeState.BufferedStore | uqoa_conv.c:52 | Storing the next sample extends the buffered part of the current group |
| EncodeState.BufferedFull | uqoa_conv.c:52-53 | The 20th sample completes the buffer as the next whole group |
| EncodeState.EncodedNextGroup | uqoa_conv.c:73-76 | Emitting one more slice advances the encoder invariant by one group |
| EncodeState.EncodedStart | uqoa_conv.c:40-45 | The zero state, hint 0 and empty output satisfy the encoder invariant before any group |
| EncodeState.EncodedDone | uqoa_conv.c:47-78 | Once every group is emitted, the output is the base followed by the whole encoding |
| DecodeState.WordsEnd | uqoa_conv.c:110-111 | A read at byte 8k that runs past the end leaves exactly k complete words |
| DecodeState.HeaderWord | uqoa_conv.c:99-104 | The history word and then the weights word load the state without writing output |
| DecodeState.FrameOpens | uqoa_conv.c:105-109 | The slice loop opens with the loaded state, or with the frame reset in plain mode |
| DecodeState.FrameCloses | uqoa_conv.c:109 | After 256 slices the next frame starts with two header words, or none in plain mode |
| DecodeState.DecodedNext | uqoa_conv.c:96-119 | Proof step of DecodeState.SliceWord: one more complete word continues the decoder |
| DecodeState.SliceWord | uqoa_conv.c:110-117 | A slice word decoded from the loop's predictor appends its 20 samples to the output and keeps the loop invariant |
| DecodeState.DecodedAll | uqoa_conv.c:96 | After the last complete word, the output is the whole stream's decoding |
| Conv.Input.GetChar | uqoa_conv.c:30-36 | Returns the next byte; past the end, returns 0xFF and raises `eof` |
| Conv.Output.PutChar | uqoa_conv.c:25 | Appends one byte to standard output |
| Conv.PaddedRead | uqoa_conv.c:84-90 | Gives the eight bytes a read at p sees, which are the stream's own bytes when all eight exist |
| Conv.ReadStep | uqoa_conv.c:88 | `(x << 8) \| byte` appends one digit and stays within 64 bits |
| Conv.PutU64 | uqoa_conv.c:22-28 | Writes the eight big-endian bytes of the word |
| Conv.GetU64 | uqoa_conv.c:84-90 | Returns the big-endian value of the next 8 bytes, padded with 0xFF; a short read ends at the end of the stream with `eof` set |
| ConvEncode.StartGroup | uqoa_conv.c:54-72 | At a frame's first slice, resets the predictor and, in non-plain mode, writes the history word then the weights word |
| ConvEncode.EncodeSliceOf | uqoa_conv.c:73 | Encodes the buffered group as specified from the current state and hint |
| ConvEncode.EncodeGroupStep | uqoa_conv.c:53-76 | One group writes its header words and slice word, and advances the state, hint and slice count as the encoder specification does |
| ConvEncode.ReadSample | uqoa_conv.c:47-51 | Reads the next byte pair as a sample, or raises `eof` exactly when fewer than two bytes remain |
| ConvEncode.FlushGroup | uqoa_conv.c:53-76 | A full group advances the encoder invariant by one group |
| ConvEncode.StoreSample | uqoa_conv.c:52 | Stores the sample at the next buffer position |
| ConvEncode.CompleteGroup | uqoa_conv.c:52-76 | The 20th sample completes the group, emits it and empties the buffer |
| ConvEncode.AddSample | uqoa_conv.c:52-77 | Adding a sample keeps the encoder invariant, one sample further on |
| ConvEncode.EncodeStep | uqoa_conv.c:47-77 | One iteration of the read loop keeps the invariant and either consumes input or ends the loop |
| ConvEncode.EncodeLoop | uqoa_conv.c:47-78 | The read loop emits one slice per complete group, and its output is their encoding |
| ConvEncode.Encode | uqoa_conv.c:38-79 | `encode` appends exactly the specified encoding of the whole input to standard output |
| ConvDecode.ReadWord | uqoa_conv.c:110-111 | Reads the next complete word, or sets `eof` once no complete word is left |
| ConvDecode.LoadWord | uqoa_conv.c:100-104 | Fills the four entries with the word's 16-bit fields, most significant first |
| ConvDecode.ReadHeaderWord | uqoa_conv.c:99-104 | Reads one header word into the history or the weights without writing output, or stops at the end of the stream |
| ConvDecode.ReadHeader | uqoa_conv.c:97-104 | Loads the history word and then the weights word into the predictor without writing output |
| ConvDecode.WriteSamples | uqoa_conv.c:114-117 | Writes the 20 samples high byte first |
| ConvDecode.DecodeAndWrite | uqoa_conv.c:112-117 | Decodes one slice into a fresh buffer, advances the predictor, and writes the samples |
| ConvDecode.SliceStep | uqoa_conv.c:109-118 | One iteration of the slice loop keeps the decoder invariant, and counts a slice exactly when a complete word was read |
| ConvDecode.OpenFrame | uqoa_conv.c:97-108 | Opens a frame by loading the state words, or by resetting the predictor in plain mode |
| ConvDecode.SliceLoop | uqoa_conv.c:109-118 | Decodes up to 256 slices and stops early at the end of the stream |
| ConvDecode.DecodeFrame | uqoa_conv.c:96-119 | One frame keeps the decoder invariant and either consumes input or ends the stream |
| ConvDecode.Decode | uqoa_conv.c:92-120 | `decode` appends exactly the specified decoding of the whole input to standard output |

## Left out

- `main` in `uqoa_conv.c` is not modelled (uqoa_conv.c:122-141). It parses `-p` and `-d` and prints usage; the model takes `plain` as a parameter and calls `Encode` or `Decode`.
- Real standard input and output are not modelled. They are byte sequences held by `Conv.Input` and `Conv.Output`. `feof(stdin)` is taken to be the `eof` flag, because both are set by the same failed `fgetc`.
- The commented-out debug `printf` lines (uqoa.h:113 and 127) are not modelled.
- main.c and test.c are not part of this model. They are demonstration drivers that use floating point, a linear congruential generator and `printf`.
- `int32_t v * reciprocal` in `qoa_div` is undefined behaviour in C when it overflows. The model takes it as a two's-complement wrap (`Arith.Wrap32`), and wraps the `+ (1 << 15)` addition again (`Wrap32(product + 0x8000)`). The conversion of the shifted value to `int16_t` needs no wrap: the wrapped value divided by 2^16, plus the sign correction, always lies in int16, which the result type of `Quant.Div` proves.
- Right shifts of negative values and conversions of out-of-range values to `int16_t` (uqoa.h:22-23, 28, 30, 68, 112; uqoa_conv.c:101) are implementation-defined in C. The model takes the arithmetic shift and the modular conversion that GCC and Clang use.
- Quant.DivSign: the sign property is stated only when `v * reciprocal + 2^15` fits in int32, because outside that range the wrapped quotient can have either sign.
- SliceSpec.ChooseCode: the sign property is stated only under the same no-overflow condition as `Quant.DivSign`.
- Quant.QuantizeKeepsSign: stated only under the same no-overflow condition as `Quant.DivSign`.
- The uninitialised `best_slice`, `best_lms` and `best_sf` of `qoa_encode_slice` are given placeholder values in the model. The first candidate always overwrites them, because its error is at most 20·2^30, which is below `(uint64_t)-1`.
- SliceCodec.EncodeSlice: the ghost set `cut` lists only the candidates the early `break` stopped. It does not show when in the loop each one was stopped.
- The decoder's behaviour after a partial read is modelled as in the code: `decode` stops at the first incomplete 8-byte word, and a header that is cut short writes nothing. Trailing bytes after the last complete word are ignored.
- No claim is made about audio quality or error bounds beyond what the code computes.
