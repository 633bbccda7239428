/** The `encode` command of `uqoa_conv`, as the C code runs it over the byte
    streams of `Conv`: it writes exactly the bytes `EncodeBytes` of `StreamSpec`
    gives for its input. */
module ConvEncode {
  import opened Arith
  import opened Predictor
  import opened SliceSpec
  import opened SliceCodec
  import opened StreamSpec
  import opened EncodeState
  import opened Conv

  /** The frame start of `encode`: at slice 0 of a frame, reset the predictor
      and, in non-plain mode, write its history word and its weights word. */
  method StartGroup(lms: Lms, sliceCount: int, out: Output, plain: bool, ghost e: EncoderState)
    requires lms.Valid() && lms.Value() == e.lms && sliceCount == e.sliceCount
    modifies lms.weights, out
    ensures lms.Value() == FrameLms(e)
    ensures out.bytes == old(out.bytes) + WordBytes(HeaderWords(plain, e))
  {
    if sliceCount == 0 {
      lms.StartFrame();
      if !plain {
        PutU64(out, PackWord(lms.history[..]));
        PutU64(out, PackWord(lms.weights[..]));
        AppendHeaderWords(old(out.bytes), PackWord(lms.history[..]), PackWord(lms.weights[..]));
      }
    }
  }

  /** `qoa_encode_slice` on the predictor state `s` and the samples `xs`. */
  method EncodeSliceOf(lms: Lms, samples: array<Int16>, sf: Byte, ghost s: Lms4, ghost xs: seq<Int16>)
    returns (slice: UInt64, newSf: Byte, ghost r: Encoded)
    requires lms.Valid() && samples.Length == 20
    requires samples != lms.history && samples != lms.weights
    requires lms.Value() == s && samples[..] == xs
    modifies lms.history, lms.weights
    ensures r == SliceSpec.Encode(s, xs, sf)
    ensures lms.Value() == r.lms && newSf == r.sf && slice == r.slice
  {
    var word, hint, _ := EncodeSlice(lms, samples, sf);
    r := SliceSpec.Encode(s, xs, sf);
    slice, newSf := word, hint;
  }

  /** The `sample_count == 20` branch of `encode` for a full `group`, from the
      encoder state `e`: the frame start, then the slice `r` encoded from the
      frame's predictor and written, and `slice_count` stepped modulo 256.
      `base` is what the output held before `encode` began. */
  method EncodeGroupStep(lms: Lms, samples: array<Int16>, sf: Byte, sliceCount: int, out: Output,
                         plain: bool, ghost e: EncoderState, ghost group: seq<Int16>, ghost base: seq<Byte>)
    returns (newSf: Byte, newSliceCount: int, ghost r: Encoded)
    requires lms.Valid() && samples.Length == 20 && samples[..] == group
    requires samples != lms.history && samples != lms.weights
    requires lms.Value() == e.lms && sf == e.hint && sliceCount == e.sliceCount < 256
    requires out.bytes == base + e.out
    modifies lms.history, lms.weights, out
    ensures r == SliceSpec.Encode(FrameLms(e), group, e.hint)
    ensures var e2 := EncodeGroup(plain, e, r);
      && lms.Value() == e2.lms && newSf == e2.hint && newSliceCount == e2.sliceCount < 256
      && out.bytes == base + e2.out
  {
    StartGroup(lms, sliceCount, out, plain, e);
    ghost var hs := HeaderWords(plain, e);
    var slice, hint;
    slice, hint, r := EncodeSliceOf(lms, samples, sf, FrameLms(e), group);
    PutU64(out, slice);
    AppendGroupWords(base, e.out, hs, slice);
    newSf := hint;
    newSliceCount := sliceCount + 1;
    if newSliceCount == 256 {
      newSliceCount := 0;
    }
  }


  /** Reads one big-endian sample: two bytes, the first the high one. At the
      end of the input `eof` is set and the sample is meaningless. */
  method ReadSample(inp: Input) returns (sample: Int16)
    requires inp.Valid() && !inp.eof
    modifies inp
    ensures inp.Valid()
    ensures inp.eof <==> |inp.data| < old(inp.pos) + 2
    ensures !inp.eof ==>
      inp.pos == old(inp.pos) + 2 && sample == SampleOf(inp.data[old(inp.pos)], inp.data[old(inp.pos) + 1])
  {
    var msb := inp.GetChar();
    var lsb := inp.GetChar();
    sample := SampleOf(msb, lsb);
  }

  /** Encoding the full group `g`, held in `samples`, extends the encoder's
      progress by one group. */
  method FlushGroup(lms: Lms, samples: array<Int16>, sf: Byte, sliceCount: int, out: Output, plain: bool,
                    ghost data: seq<Byte>, ghost base: seq<Byte>, ghost g: nat, ghost rs: seq<Encoded>)
    returns (sf': Byte, sliceCount': int, ghost r: Encoded)
    requires lms.Valid() && samples != lms.history && samples != lms.weights
    requires EncodedUpTo(plain, data, base, lms.Value(), sliceCount, sf, out.bytes, g, rs)
    requires g < |Groups(SamplesOf(data))| && samples[..] == Groups(SamplesOf(data))[g]
    modifies lms.history, lms.weights, out
    ensures EncodedUpTo(plain, data, base, lms.Value(), sliceCount', sf', out.bytes, g + 1, rs + [r])
  {
    ghost var gs := Groups(SamplesOf(data));
    ghost var e := EncodeFold(plain, rs);
    sf', sliceCount', r := EncodeGroupStep(lms, samples, sf, sliceCount, out, plain, e, gs[g], base);
    SlicesBySnoc(plain, gs, rs, g, r, NextSlice);
    EncodedNextGroup(plain, data, base, lms.Value(), sliceCount', sf', out.bytes, g, rs, r);
  }

  /** `samples[sample_count++] = sample` while the group is not yet full. */
  method StoreSample(samples: array<Int16>, sampleCount: int, sample: Int16, ghost xs: seq<Int16>, ghost g: nat)
    requires Buffered(xs, samples[..], 20 * g, sampleCount) && sampleCount + 1 < 20
    requires 20 * g + sampleCount < |xs| && sample == xs[20 * g + sampleCount]
    modifies samples
    ensures Buffered(xs, samples[..], 20 * g, sampleCount + 1)
  {
    ghost var before := samples[..];
    samples[sampleCount] := sample;
    assert samples[..] == before[sampleCount := sample];
    BufferedStore(xs, before, 20 * g, sampleCount, sample);
  }

  /** `samples[sample_count++] = sample` completing the group, which is then
      encoded, and the buffer starts over. */
  method CompleteGroup(lms: Lms, samples: array<Int16>, sampleCount: int, sliceCount: int, sf: Byte,
                       out: Output, plain: bool, sample: Int16,
                       ghost data: seq<Byte>, ghost base: seq<Byte>, ghost g: nat, ghost rs: seq<Encoded>)
    returns (sliceCount': int, sf': Byte, ghost r: Encoded)
    requires Encoding(plain, data, base, lms, samples, sampleCount, sliceCount, sf, out.bytes, g, rs)
    requires sampleCount + 1 == 20
    requires 20 * g + sampleCount < |SamplesOf(data)| && sample == SamplesOf(data)[20 * g + sampleCount]
    modifies samples, lms.history, lms.weights, out
    ensures Encoding(plain, data, base, lms, samples, 0, sliceCount', sf', out.bytes, g + 1, rs + [r])
  {
    ghost var before := samples[..];
    samples[sampleCount] := sample;
    assert samples[..] == before[sampleCount := sample];
    BufferedFull(SamplesOf(data), before, g, sampleCount, sample);
    sf', sliceCount', r := FlushGroup(lms, samples, sf, sliceCount, out, plain, data, base, g, rs);
  }

  /** The body of the `encode` loop after a sample is read: store it, and
      encode the group once it holds 20 samples. */
  method AddSample(lms: Lms, samples: array<Int16>, sampleCount: int, sliceCount: int, sf: Byte,
                   out: Output, plain: bool, sample: Int16,
                   ghost data: seq<Byte>, ghost base: seq<Byte>, ghost g: nat, ghost rs: seq<Encoded>)
    returns (sampleCount': int, sliceCount': int, sf': Byte, ghost g': nat, ghost rs': seq<Encoded>)
    requires Encoding(plain, data, base, lms, samples, sampleCount, sliceCount, sf, out.bytes, g, rs)
    requires 20 * g + sampleCount < |SamplesOf(data)| && sample == SamplesOf(data)[20 * g + sampleCount]
    modifies samples, lms.history, lms.weights, out
    ensures Encoding(plain, data, base, lms, samples, sampleCount', sliceCount', sf', out.bytes, g', rs')
    ensures 20 * g' + sampleCount' == 20 * g + sampleCount + 1
  {
    if sampleCount + 1 < 20 {
      StoreSample(samples, sampleCount, sample, SamplesOf(data), g);
      sampleCount', sliceCount', sf', g', rs' := sampleCount + 1, sliceCount, sf, g, rs;
    } else {
      ghost var r;
      sliceCount', sf', r := CompleteGroup(lms, samples, sampleCount, sliceCount, sf, out, plain, sample, data, base, g, rs);
      sampleCount', g', rs' := 0, g + 1, rs + [r];
    }
  }

  /** The invariant of the `encode` loop: `Encoding`, with the input read up to
      the samples it accounts for, or exhausted once every complete group is done. */
  ghost predicate EncodeLoopState(inp: Input, plain: bool, data: seq<Byte>, base: seq<Byte>, lms: Lms,
                                  samples: array<Int16>, sampleCount: int, sliceCount: int, sf: Byte,
                                  outBytes: seq<Byte>, g: nat, rs: seq<Encoded>)
    reads inp, lms, lms.history, lms.weights, samples
  {
    && inp.Valid() && inp.data == data
    && Encoding(plain, data, base, lms, samples, sampleCount, sliceCount, sf, outBytes, g, rs)
    && (!inp.eof ==> inp.pos == 2 * (20 * g + sampleCount))
    && (inp.eof ==> g == |Groups(SamplesOf(data))|)
  }

  /** One iteration of the `encode` loop: read a sample and, unless the input
      ran out, add it to the group. */
  method EncodeStep(inp: Input, lms: Lms, samples: array<Int16>, sampleCount: int, sliceCount: int, sf: Byte,
                    out: Output, plain: bool,
                    ghost data: seq<Byte>, ghost base: seq<Byte>, ghost g: nat, ghost rs: seq<Encoded>)
    returns (sampleCount': int, sliceCount': int, sf': Byte, ghost g': nat, ghost rs': seq<Encoded>)
    requires !inp.eof
    requires EncodeLoopState(inp, plain, data, base, lms, samples, sampleCount, sliceCount, sf, out.bytes, g, rs)
    modifies inp, samples, lms.history, lms.weights, out
    ensures EncodeLoopState(inp, plain, data, base, lms, samples, sampleCount', sliceCount', sf', out.bytes, g', rs')
    ensures inp.eof || old(inp.pos) < inp.pos
  {
    ghost var p := inp.pos;
    var sample := ReadSample(inp);
    sampleCount', sliceCount', sf', g', rs' := sampleCount, sliceCount, sf, g, rs;
    if inp.eof {
      InputExhausted(data, 20 * g + sampleCount, g, sampleCount);
    } else {
      NextSample(data, g, sampleCount, p, sample);
      sampleCount', sliceCount', sf', g', rs' :=
        AddSample(lms, samples, sampleCount, sliceCount, sf, out, plain, sample, data, base, g, rs);
      assert inp.pos == 2 * (20 * g' + sampleCount');
    }
    LoopStateIntro(inp, plain, data, base, lms, samples, sampleCount', sliceCount', sf', out.bytes, g', rs');
  }

  /** Establishes the loop invariant from its parts. */
  lemma LoopStateIntro(inp: Input, plain: bool, data: seq<Byte>, base: seq<Byte>, lms: Lms,
                       samples: array<Int16>, sampleCount: int, sliceCount: int, sf: Byte,
                       outBytes: seq<Byte>, g: nat, rs: seq<Encoded>)
    requires inp.Valid() && inp.data == data
    requires Encoding(plain, data, base, lms, samples, sampleCount, sliceCount, sf, outBytes, g, rs)
    requires !inp.eof ==> inp.pos == 2 * (20 * g + sampleCount)
    requires inp.eof ==> g == |Groups(SamplesOf(data))|
    ensures EncodeLoopState(inp, plain, data, base, lms, samples, sampleCount, sliceCount, sf, outBytes, g, rs)
  {
  }

  /** The loop of `encode`: reads big-endian sample pairs until the input runs
      out, gathering them in groups of 20, and encodes each complete group.
      Returns the slices produced, one per complete group. */
  method EncodeLoop(inp: Input, out: Output, plain: bool) returns (ghost rs: seq<Encoded>)
    requires inp.Valid() && inp.pos == 0 && !inp.eof
    modifies inp, out
    ensures SliceResults(plain, Groups(SamplesOf(inp.data)), rs)
    ensures out.bytes == old(out.bytes) + EncodeFold(plain, rs).out
  {
    ghost var data, base := inp.data, out.bytes;
    var lms := new Lms();
    var sf: Byte := 0;
    var samples := new Int16[20](_ => 0);
    var sampleCount := 0;
    var sliceCount := 0;
    ghost var g: nat := 0;
    rs := [];
    EncodedStart(plain, data, base);
    while !inp.eof
      invariant EncodeLoopState(inp, plain, data, base, lms, samples, sampleCount, sliceCount, sf, out.bytes, g, rs)
      decreases |inp.data| - inp.pos + (if inp.eof then 0 else 1)
    {
      sampleCount, sliceCount, sf, g, rs :=
        EncodeStep(inp, lms, samples, sampleCount, sliceCount, sf, out, plain, data, base, g, rs);
    }
    EncodedDone(plain, data, base, lms.Value(), sliceCount, sf, out.bytes, g, rs);
  }

  /** `encode`: the output is exactly the bytes the stream format gives for the
      input: one slice word per complete group of 20 samples, preceded at each
      frame start by the header words in non-plain mode. */
  method Encode(inp: Input, out: Output, plain: bool)
    requires inp.Valid() && inp.pos == 0 && !inp.eof
    modifies inp, out
    ensures out.bytes == old(out.bytes) + EncodeBytes(plain, inp.data)
  {
    ghost var rs := EncodeLoop(inp, out, plain);
    GroupsAreGroups(SamplesOf(inp.data));
    SliceResultsEncode(plain, Groups(SamplesOf(inp.data)), rs);
  }
}
