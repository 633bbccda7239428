/** The state the `decode` loop of `uqoa_conv` keeps between words, related to
    the value-level decoder of `StreamSpec`. */
module DecodeState {
  import opened Arith
  import opened Predictor
  import opened SliceSpec
  import opened StreamSpec

  /** The decoder after the first `k` complete words of the input `data`. */
  function DecodedUpTo(plain: bool, data: seq<Byte>, k: nat): DecoderState
    requires k <= |Words(data)|
  {
    DecodeFrom(plain, DecoderStart(plain), Words(data)[..k])
  }

  /** Between frames, or within a header: after `k` words the decoder is at the
      start of a frame, expects `h` more header words, and holds `state`. */
  ghost predicate InHeader(plain: bool, data: seq<Byte>, k: nat, h: nat, state: Lms4)
  {
    && k <= |Words(data)|
    && var d := DecodedUpTo(plain, data, k);
    && d.nSlice == 0 && d.headerWords == h && state == d.lms
  }

  /** Inside the slice loop of a frame: `nSlice` slices of the frame are read
      after `k` words, and `state` is the predictor, already reset by
      `qoa_start_frame` in plain mode when no slice of the frame is read yet. */
  ghost predicate InFrame(plain: bool, data: seq<Byte>, k: nat, nSlice: int, state: Lms4)
  {
    && k <= |Words(data)| && 0 <= nSlice <= 256
    && var d := DecodedUpTo(plain, data, k);
    && d.nSlice == (if nSlice == 256 then 0 else nSlice)
    && d.headerWords == (if nSlice == 256 && !plain then 2 else 0)
    && state == (if plain && nSlice == 0 then AfterStartFrame(d.lms) else d.lms)
  }

  /** The words of a stream are its complete 8-byte groups: a read at `8 * k`
      that runs past the end leaves exactly `k` of them. */
  lemma WordsEnd(data: seq<Byte>, k: nat)
    requires 8 * k <= |data| < 8 * k + 8
    ensures |Words(data)| == k
  {
  }

  /** A state word read in a header: the history word, then the weights word. */
  lemma HeaderWord(plain: bool, data: seq<Byte>, k: nat, h: nat, state: Lms4, w: UInt64)
    requires InHeader(plain, data, k, h, state) && (h == 2 || h == 1)
    requires k < |Words(data)| && w == Words(data)[k]
    ensures InHeader(plain, data, k + 1, h - 1,
      if h == 2 then LmsState(UnpackWord(w), state.weights) else LmsState(state.history, UnpackWord(w)))
    ensures DecodedUpTo(plain, data, k + 1).out == DecodedUpTo(plain, data, k).out
  {
    assert Words(data)[..k + 1][..k] == Words(data)[..k];
  }

  /** The slice loop opens with no slice read; plain mode resets the predictor. */
  lemma FrameOpens(plain: bool, data: seq<Byte>, k: nat, state: Lms4)
    requires InHeader(plain, data, k, 0, state)
    ensures InFrame(plain, data, k, 0, if plain then AfterStartFrame(state) else state)
  {
  }

  /** After 256 slices the next frame starts, with two header words in
      non-plain mode. */
  lemma FrameCloses(plain: bool, data: seq<Byte>, k: nat, state: Lms4)
    requires InFrame(plain, data, k, 256, state)
    ensures InHeader(plain, data, k, if plain then 0 else 2, state)
  {
  }

  /** One more complete word continues the decoder after the words before it. */
  lemma DecodedNext(plain: bool, data: seq<Byte>, k: nat)
    requires k < |Words(data)|
    ensures DecodedUpTo(plain, data, k + 1) == DecodeWord(plain, DecodedUpTo(plain, data, k), Words(data)[k])
  {
    assert Words(data)[..k + 1][..k] == Words(data)[..k];
  }

  /** A slice word read in the slice loop is decoded from the loop's predictor,
      and its 20 samples follow the bytes already written (`written`, after
      whatever `base` the output held before `decode`). */
  lemma SliceWord(plain: bool, data: seq<Byte>, base: seq<Byte>, written: seq<Byte>,
                  k: nat, nSlice: int, state: Lms4, w: UInt64)
    requires InFrame(plain, data, k, nSlice, state) && nSlice < 256
    requires k < |Words(data)| && w == Words(data)[k]
    requires written == base + DecodedUpTo(plain, data, k).out
    ensures InFrame(plain, data, k + 1, nSlice + 1, Decode(state, w).lms)
    ensures written + SampleBytesOf(Decode(state, w).samples) == base + DecodedUpTo(plain, data, k + 1).out
  {
    var d := DecodedUpTo(plain, data, k);
    var r := Decode(state, w);
    DecodedNext(plain, data, k);
    var d' := DecodedUpTo(plain, data, k + 1);
    assert d' == DecodeSliceWord(plain, d, w);
    assert d'.lms == r.lms;
    assert d'.out == d.out + SampleBytesOf(r.samples);
  }

  /** Once every complete word is read, the bytes written are those of the
      whole stream. */
  lemma DecodedAll(plain: bool, data: seq<Byte>, k: nat)
    requires k == |Words(data)|
    ensures DecodedUpTo(plain, data, k).out == DecodeBytes(plain, data)
  {
    assert Words(data)[..k] == Words(data);
  }
}
