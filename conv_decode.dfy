/** The `decode` command of `uqoa_conv`, as the C code runs it over the byte
    streams of `Conv`: it writes exactly the bytes `DecodeBytes` of `StreamSpec`
    gives for its input. */
module ConvDecode {
  import opened Arith
  import opened Predictor
  import opened SliceSpec
  import opened SliceCodec
  import opened StreamSpec
  import opened DecodeState
  import opened Conv

  /** `get_u64` at word `k` of the stream: the word itself when it is complete,
      otherwise the stream is at its end and holds exactly `k` words. */
  method ReadWord(inp: Input, ghost k: nat) returns (w: UInt64)
    requires inp.Valid()
    requires !inp.eof ==> inp.pos == 8 * k
    requires inp.eof ==> k == |Words(inp.data)|
    modifies inp
    ensures inp.Valid()
    ensures !inp.eof ==> k < |Words(inp.data)| && w == Words(inp.data)[k] && inp.pos == 8 * (k + 1)
    ensures inp.eof ==> k == |Words(inp.data)|
  {
    w := GetU64(inp);
    if inp.eof && !old(inp.eof) {
      WordsEnd(inp.data, k);
    }
  }

  /** The four `int16_t` fields of a header word stored into a state array. */
  method LoadWord(a: array<Int16>, x: UInt64)
    requires a.Length == 4
    modifies a
    ensures a[..] == UnpackWord(x)
  {
    for i := 0 to 4
      invariant forall j :: 0 <= j < i ==> a[j] == WordField(x, j)
    {
      a[i] := WordField(x, i);
    }
  }

  /** One word of the frame header, loaded into `a`: the history array when
      `h == 2` header words remain, the weights array when `h == 1`. */
  method ReadHeaderWord(inp: Input, lms: Lms, a: array<Int16>, plain: bool, ghost k: nat, ghost h: nat)
    returns (ghost k': nat)
    requires inp.Valid() && lms.Valid() && !plain && k <= |Words(inp.data)|
    requires (h == 2 && a == lms.history) || (h == 1 && a == lms.weights)
    requires !inp.eof ==> inp.pos == 8 * k && InHeader(plain, inp.data, k, h, lms.Value())
    requires inp.eof ==> k == |Words(inp.data)|
    modifies inp, a
    ensures inp.Valid() && lms.Valid() && k <= k' <= |Words(inp.data)|
    ensures DecodedUpTo(plain, inp.data, k').out == DecodedUpTo(plain, inp.data, k).out
    ensures !inp.eof ==> inp.pos == 8 * k' && InHeader(plain, inp.data, k', h - 1, lms.Value())
    ensures inp.eof ==> k' == |Words(inp.data)|
  {
    k' := k;
    var w := ReadWord(inp, k);
    if !inp.eof {
      HeaderWord(plain, inp.data, k, h, lms.Value(), w);
      k' := k + 1;
    }
    LoadWord(a, w);
  }

  /** The frame header of non-plain mode: the history word, then the weights
      word, each loaded into the predictor. */
  method ReadHeader(inp: Input, lms: Lms, plain: bool, ghost k: nat) returns (ghost k': nat)
    requires inp.Valid() && lms.Valid() && !plain && !inp.eof && inp.pos == 8 * k
    requires InHeader(plain, inp.data, k, 2, lms.Value())
    modifies inp, lms.history, lms.weights
    ensures inp.Valid() && lms.Valid() && k <= k' <= |Words(inp.data)|
    ensures DecodedUpTo(plain, inp.data, k').out == DecodedUpTo(plain, inp.data, k).out
    ensures !inp.eof ==> inp.pos == 8 * k' && InHeader(plain, inp.data, k', 0, lms.Value())
    ensures inp.eof ==> k' == |Words(inp.data)|
  {
    k' := ReadHeaderWord(inp, lms, lms.history, plain, k, 2);
    k' := ReadHeaderWord(inp, lms, lms.weights, plain, k', 1);
  }

  /** The two bytes of each of the 20 samples of a slice, high byte first. */
  method WriteSamples(out: Output, samples: array<Int16>)
    requires samples.Length == 20
    modifies out
    ensures out.bytes == old(out.bytes) + SampleBytesOf(samples[..])
  {
    for i := 0 to 20
      invariant out.bytes == old(out.bytes) + SampleBytesOf(samples[..i])
    {
      out.PutChar((samples[i] / 256) % 256);
      out.PutChar(samples[i] % 256);
      assert samples[..i + 1][..i] == samples[..i];
    }
    assert samples[..20] == samples[..];
  }

  /** The `decode` loop between words: the bytes written are those of the first
      `k` words, and the predictor and slice counter are those of the frame. */
  ghost predicate DecodeLoopState(inp: Input, out: Output, plain: bool, base: seq<Byte>, lms: Lms,
                                  nSlice: int, k: nat)
    reads inp, out, lms, lms.history, lms.weights
  {
    && inp.Valid() && lms.Valid() && k <= |Words(inp.data)|
    && out.bytes == base + DecodedUpTo(plain, inp.data, k).out
    && (!inp.eof ==> inp.pos == 8 * k && InFrame(plain, inp.data, k, nSlice, lms.Value()))
    && (inp.eof ==> k == |Words(inp.data)|)
  }

  /** `qoa_decode_slice` into a fresh 20-sample buffer, whose samples are then
      written out. */
  method DecodeAndWrite(lms: Lms, slice: UInt64, out: Output, ghost state: Lms4)
    requires lms.Valid() && lms.Value() == state
    modifies lms.history, lms.weights, out
    ensures lms.Value() == SliceSpec.Decode(state, slice).lms
    ensures out.bytes == old(out.bytes) + SampleBytesOf(SliceSpec.Decode(state, slice).samples)
  {
    var samples := new Int16[20];
    DecodeSlice(lms, slice, samples);
    WriteSamples(out, samples);
  }

  /** One pass of the slice loop: a slice word, decoded into 20 samples that are
      written out; the end of the stream leaves the output as it is. */
  method SliceStep(inp: Input, out: Output, lms: Lms, plain: bool, nSlice: int,
                   ghost base: seq<Byte>, ghost k: nat)
    returns (nSlice': int, ghost k': nat)
    requires !inp.eof && nSlice < 256
    requires DecodeLoopState(inp, out, plain, base, lms, nSlice, k)
    modifies inp, out, lms.history, lms.weights
    ensures DecodeLoopState(inp, out, plain, base, lms, nSlice', k')
    ensures inp.eof ==> nSlice' == nSlice
    ensures !inp.eof ==> nSlice' == nSlice + 1 && k' == k + 1
  {
    var slice := ReadWord(inp, k);
    nSlice', k' := nSlice, k;
    if !inp.eof {
      ghost var state := lms.Value();
      SliceWord(plain, inp.data, base, out.bytes, k, nSlice, state, slice);
      DecodeAndWrite(lms, slice, out, state);
      nSlice', k' := nSlice + 1, k + 1;
    }
  }

  /** The `decode` loop at the head of a frame. */
  ghost predicate DecodeTop(inp: Input, out: Output, plain: bool, base: seq<Byte>, lms: Lms, k: nat)
    reads inp, out, lms, lms.history, lms.weights
  {
    && inp.Valid() && lms.Valid() && k <= |Words(inp.data)|
    && out.bytes == base + DecodedUpTo(plain, inp.data, k).out
    && (!inp.eof ==> inp.pos == 8 * k && InHeader(plain, inp.data, k, if plain then 0 else 2, lms.Value()))
    && (inp.eof ==> k == |Words(inp.data)|)
  }

  /** The head of a frame of `decode`: the header words in non-plain mode, the
      reset of `qoa_start_frame` in plain mode. */
  method OpenFrame(inp: Input, out: Output, lms: Lms, plain: bool, ghost base: seq<Byte>, ghost k: nat)
    returns (ghost k': nat)
    requires !inp.eof && DecodeTop(inp, out, plain, base, lms, k)
    modifies inp, lms.history, lms.weights
    ensures DecodeLoopState(inp, out, plain, base, lms, 0, k') && k <= k'
  {
    k' := k;
    if !plain {
      k' := ReadHeader(inp, lms, plain, k);
      if !inp.eof {
        FrameOpens(plain, inp.data, k', lms.Value());
      }
    } else {
      FrameOpens(plain, inp.data, k', lms.Value());
      lms.StartFrame();
    }
  }

  /** The slice loop of a frame: at most 256 slices, up to the end of the
      stream. */
  method SliceLoop(inp: Input, out: Output, lms: Lms, plain: bool, ghost base: seq<Byte>, ghost k: nat)
    returns (ghost k': nat)
    requires DecodeLoopState(inp, out, plain, base, lms, 0, k)
    modifies inp, out, lms.history, lms.weights
    ensures DecodeTop(inp, out, plain, base, lms, k')
    ensures !inp.eof ==> k + 256 <= k'
  {
    k' := k;
    var nSlice := 0;
    while nSlice < 256 && !inp.eof
      invariant DecodeLoopState(inp, out, plain, base, lms, nSlice, k')
      invariant !inp.eof ==> k + nSlice <= k'
      decreases 256 - nSlice, if inp.eof then 0 else 1
    {
      nSlice, k' := SliceStep(inp, out, lms, plain, nSlice, base, k');
    }
    if !inp.eof {
      FrameCloses(plain, inp.data, k', lms.Value());
    }
  }

  /** One frame of `decode`: its head, then its slices. */
  method DecodeFrame(inp: Input, out: Output, lms: Lms, plain: bool, ghost base: seq<Byte>, ghost k: nat)
    returns (ghost k': nat)
    requires !inp.eof && DecodeTop(inp, out, plain, base, lms, k)
    modifies inp, out, lms.history, lms.weights
    ensures DecodeTop(inp, out, plain, base, lms, k')
    ensures inp.eof || old(inp.pos) < inp.pos
  {
    k' := OpenFrame(inp, out, lms, plain, base, k);
    k' := SliceLoop(inp, out, lms, plain, base, k');
  }

  /** `decode`: frames until the end of the stream. */
  method Decode(inp: Input, out: Output, plain: bool)
    requires inp.Valid() && inp.pos == 0 && !inp.eof
    modifies inp, out
    ensures out.bytes == old(out.bytes) + DecodeBytes(plain, inp.data)
  {
    ghost var base := out.bytes;
    var lms := new Lms();
    ghost var k: nat := 0;
    while !inp.eof
      invariant DecodeTop(inp, out, plain, base, lms, k)
      decreases |inp.data| - inp.pos + (if inp.eof then 0 else 1)
    {
      k := DecodeFrame(inp, out, lms, plain, base, k);
    }
    DecodedAll(plain, inp.data, k);
  }
}
