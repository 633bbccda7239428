/** `qoa_encode_slice` and `qoa_decode_slice` as the C code runs them: loops over
    the candidates and the samples, a copied predictor per candidate, an early
    exit, and a 64-bit word shifted three bits at a time. Each is proved to
    compute the value-level `Encode` / `Decode` of `SliceSpec`. */
module SliceCodec {
  import opened Arith
  import opened Tables
  import opened Quant
  import opened Predictor
  import opened SliceSpec

  /** `qoa_encode_slice`: tries the 16 scale factors starting at `hint`, keeps the
      first one with the smallest squared error, commits its predictor state to
      `lms` and returns its packed slice and its index (the new `*sf_hint`).
      `cut` records the candidates abandoned by the early exit. */
  method EncodeSlice(lms: Lms, samples: array<Int16>, hint: Byte)
    returns (slice: UInt64, newHint: Byte, ghost cut: set<SfIndex>)
    requires lms.Valid() && samples.Length == 20
    modifies lms.history, lms.weights
    ensures var e := Encode(old(lms.Value()), samples[..], hint);
      && slice == e.slice && newHint == e.sf && lms.Value() == e.lms
    ensures forall sf :: sf in cut ==>
      sf != newHint && RunTrial(old(lms.Value()), sf, samples[..]).error
                       > RunTrial(old(lms.Value()), newHint, samples[..]).error
  {
    ghost var s, xs := lms.Value(), samples[..];
    var bestError := TWO64 - 1;
    var bestSlice: UInt64 := 0;
    var bestLms: Lms4 := ZeroState;
    var bestSf: SfIndex := 0;
    cut := {};
    ghost var w := 0;
    ghost var bestTrial := Trial(0, [], [], ZeroState);
    for sfi := 0 to 16
      modifies {}
      invariant SearchState(s, xs, hint, sfi, w, bestError, bestSf, cut, bestTrial)
      invariant sfi > 0 ==> bestLms == bestTrial.lms && bestSlice == PackSlice(bestSf, bestTrial.codes)
    {
      var sf: SfIndex := (hint + sfi) % 16;
      var current := new Lms.FromValue(lms.Value());
      var currentError, currentSlice, pruned, t := TryCandidate(current, samples, sf, bestError, s, xs);
      ghost var cut0 := cut;
      if pruned {
        cut := cut + {sf};
      }
      if currentError < bestError {
        SearchStepImprove(s, xs, hint, sfi, w, bestError, bestSf, cut0, bestTrial, t,
                          currentError, pruned, cut);
        bestError := currentError;
        bestSlice := currentSlice;
        bestLms := current.Value();
        bestSf := sf;
        w := sfi;
        bestTrial := t;
      } else {
        SearchStepKeep(s, xs, hint, sfi, w, bestError, bestSf, cut0, bestTrial, t,
                       currentError, pruned, cut);
      }
    }
    SearchDone(s, xs, hint, w, bestError, bestSf, cut, bestTrial);
    lms.Assign(bestLms);
    newHint := bestSf;
    slice := bestSlice;
  }

  /** One sample of a candidate's trial: predict, quantise the scaled residual,
      dequantise, reconstruct with saturation, and measure the error; this is
      step `i` of `RunTrial` from the predictor that `current` holds. */
  method TrialSample(current: Lms, sample: Int16, sf: SfIndex, ghost s: Lms4, ghost xs: seq<Int16>, ghost i: nat)
    returns (quantized: Code, dequantized: Int16, reconstructed: Int16, error: Int16)
    requires current.Valid() && i < |xs| && sample == xs[i]
    requires current.Value() == RunTrial(s, sf, xs[..i]).lms
    ensures var prev, next := RunTrial(s, sf, xs[..i]), RunTrial(s, sf, xs[..i + 1]);
      && next.error == prev.error + (error as int) * (error as int)
      && next.codes == prev.codes + [quantized]
      && next.lms == AfterUpdate(prev.lms, reconstructed, dequantized)
  {
    var predicted := current.Predict();
    var residual := sample - predicted;
    var scaled := Div(residual, sf);
    quantized := QuantCode(Clamp(scaled, -8, 8));
    dequantized := Dequant(sf, quantized);
    reconstructed := Sat16(predicted + dequantized);
    error := Wrap16(sample - reconstructed);
    EncodeStepAgrees(s, sf, xs, i, sample, predicted, residual, scaled, quantized,
                     dequantized, reconstructed, error);
  }

  /** The end of a sample of the trial: the predictor takes the reconstructed
      sample and its dequantised residual, and the code is shifted into the
      slice word. */
  method Advance(current: Lms, currentSlice: int, quantized: Code, dequantized: Int16, reconstructed: Int16,
                 sf: SfIndex, ghost s: Lms4, ghost xs: seq<Int16>, ghost i: nat)
    returns (nextSlice: int)
    requires current.Valid() && i < |xs| == 20
    requires var prev, next := RunTrial(s, sf, xs[..i]), RunTrial(s, sf, xs[..i + 1]);
      && current.Value() == prev.lms && currentSlice == PackSlice(sf, prev.codes)
      && next.codes == prev.codes + [quantized]
      && next.lms == AfterUpdate(prev.lms, reconstructed, dequantized)
    modifies current.history, current.weights
    ensures current.Value() == RunTrial(s, sf, xs[..i + 1]).lms
    ensures nextSlice == PackSlice(sf, RunTrial(s, sf, xs[..i + 1]).codes)
  {
    current.Update(reconstructed, dequantized);
    PackSliceSnoc(sf, RunTrial(s, sf, xs[..i]).codes, quantized);
    nextSlice := (currentSlice * 8) % TWO64 + quantized;
  }

  /** The body of the candidate loop of `qoa_encode_slice` for scale factor `sf`:
      runs the 20 samples through `current`, accumulating the squared error and
      the slice word, and stops early once the error exceeds `bestError`. If it
      does not stop, the results are those of the full trial. */
  method TryCandidate(current: Lms, samples: array<Int16>, sf: SfIndex, bestError: int,
                      ghost s: Lms4, ghost xs: seq<Int16>)
    returns (currentError: int, currentSlice: int, ghost pruned: bool, ghost t: Trial)
    requires current.Valid() && samples.Length == 20
    requires samples != current.history && samples != current.weights
    requires current.Value() == s && samples[..] == xs
    modifies current.history, current.weights
    ensures t == RunTrial(s, sf, xs)
    ensures pruned ==> currentError > bestError && t.error > bestError
    ensures !pruned ==> && currentError == t.error && currentSlice == PackSlice(sf, t.codes)
                        && current.Value() == t.lms
  {
    t := RunTrial(s, sf, xs);
    currentError := 0;
    currentSlice := sf;
    pruned := false;
    for i := 0 to 20
      invariant current.Value() == RunTrial(s, sf, xs[..i]).lms
      invariant currentError == RunTrial(s, sf, xs[..i]).error
      invariant currentSlice == PackSlice(sf, RunTrial(s, sf, xs[..i]).codes)
    {
      var sample := samples[i];
      var quantized, dequantized, reconstructed, error := TrialSample(current, sample, sf, s, xs, i);
      currentError := currentError + (error as int) * (error as int);
      if currentError > bestError {
        TrialPrefix(s, sf, xs, i + 1);
        pruned := true;
        return;
      }
      currentSlice := Advance(current, currentSlice, quantized, dequantized, reconstructed, sf, s, xs, i);
    }
    assert xs[..20] == xs;
  }

  /** `qoa_decode_slice`: reads the scale factor from the top 4 bits, then for each
      of the 20 samples takes the next 3-bit code from the top of a word shifted
      left by 3 each time, reconstructs the sample and updates the predictor. */
  method DecodeSlice(lms: Lms, slice: UInt64, outSamples: array<Int16>)
    requires lms.Valid() && outSamples.Length == 20
    requires outSamples != lms.history && outSamples != lms.weights
    modifies lms.history, lms.weights, outSamples
    ensures var d := Decode(old(lms.Value()), slice);
      outSamples[..] == d.samples && lms.Value() == d.lms
  {
    ghost var s := lms.Value();
    ghost var codes := SliceCodes(slice);
    var sf: SfIndex := slice / 0x1000_0000_0000_0000;
    var word := slice;
    for i := 0 to 20
      invariant word == (slice * Pow(8, i)) % TWO64
      invariant lms.Value() == Replay(s, sf, codes[..i]).lms
      invariant outSamples[..i] == Replay(s, sf, codes[..i]).samples
    {
      var predicted := lms.Predict();
      ShiftedWord(slice, i);
      var quantized := word / 0x200_0000_0000_0000 % 8;
      var dequantized := Dequant(sf, quantized);
      var reconstructed := Sat16(predicted + dequantized);
      DecodeStepAgrees(s, sf, codes, i, predicted, quantized, dequantized, reconstructed);
      ghost var before := outSamples[..];
      outSamples[i] := reconstructed;
      assert outSamples[..] == before[i := reconstructed];
      StorePrefix(before, i, reconstructed);
      word := (word * 8) % TWO64;
      lms.Update(reconstructed, dequantized);
    }
    TakeAll(codes);
  }
}
