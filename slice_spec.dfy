/** The slice codec as values: what `qoa_encode_slice` computes for one
    candidate scale factor, how it picks among the 16 candidates, how the
    winner is packed into 64 bits, and what `qoa_decode_slice` recovers. */
module SliceSpec {
  import opened Arith
  import opened Tables
  import opened Quant
  import opened Predictor

  /** A scale-factor index, the top 4 bits of a slice. */
  type SfIndex = x: int | 0 <= x < 16

  /** A 3-bit quantisation code. */
  type Code = x: int | 0 <= x < 8

  /** The outcome of applying one code to one predictor state. */
  datatype Step = Step(dequantized: Int16, reconstructed: Int16, next: Lms4)

  /** The reconstruction shared by encoder and decoder: dequantise `code` at
      `sf`, add it to the prediction with 16-bit saturation, update the predictor
      with the reconstructed sample and the dequantised residual. */
  function Reconstruct(s: Lms4, sf: SfIndex, code: Code): (st: Step)
    ensures st.next == AfterUpdate(s, st.reconstructed, st.dequantized)
    ensures st.dequantized != 0 && (st.dequantized > 0 <==> code % 2 == 0)
  {
    TableShapes();
    DequantSign(sf, code);
    var dequantized: Int16 := Dequant(sf, code);
    var reconstructed := Sat16(Prediction(s) + dequantized);
    Step(dequantized, reconstructed, AfterUpdate(s, reconstructed, dequantized))
  }

  /** The code the encoder picks for `sample` from state `s` at scale factor `sf`. */
  function ChooseCode(s: Lms4, sf: SfIndex, sample: Int16): (code: Code)
    ensures var residual := sample - Prediction(s);
      -0x8000_0000 <= residual * ReciprocalTab[sf] && residual * ReciprocalTab[sf] + 0x8000 < 0x8000_0000 ==>
        (Dequant(sf, code) < 0 <==> sample < Prediction(s))
  {
    var residual := sample - Prediction(s);
    if -0x8000_0000 <= residual * ReciprocalTab[sf] && residual * ReciprocalTab[sf] + 0x8000 < 0x8000_0000 then
      QuantizeKeepsSign(residual, sf);
      Quantize(residual, sf)
    else
      Quantize(residual, sf)
  }

  /** The contribution of one sample to a candidate's error: the difference is
      stored in an `int16_t` (so it wraps) before it is squared. */
  function SquaredError(sample: Int16, reconstructed: Int16): (e: nat)
    ensures e <= 0x4000_0000
    ensures e == 0 <==> sample == reconstructed
  {
    var d := Wrap16(sample - reconstructed);
    SquareBound(d);
    (d as int) * (d as int)
  }

  /** The error term as the encoder computes it, inline. */
  lemma SquaredErrorInline(sample: Int16, reconstructed: Int16, error: Int16)
    requires error == Wrap16(sample - reconstructed)
    ensures SquaredError(sample, reconstructed) == (error as int) * (error as int)
  {
  }

  /** The square of an `int16_t` fits in 31 bits and is zero only for zero. */
  lemma SquareBound(d: Int16)
    ensures 0 <= (d as int) * (d as int) <= 0x4000_0000
    ensures (d as int) * (d as int) == 0 <==> d == 0
  {
    var a: int := if d < 0 then -(d as int) else d as int;
    NegSquare(d as int);
    MulLeMul(0, a, a);
    MulLeMul(a, 0x8000, a);
    MulLeMul(a, 0x8000, 0x8000);
    MulComm(a, 0x8000);
    if a > 0 {
      MulLeMul(1, a, a);
    }
  }

  lemma NegSquare(d: int)
    ensures (-d) * (-d) == d * d
  {
  }

  /** One candidate run over a whole block of samples, without the early exit:
      the summed squared error, the codes chosen, the reconstructed samples and
      the final predictor state. */
  datatype Trial = Trial(error: nat, codes: seq<Code>, recon: seq<Int16>, lms: Lms4)

  /** Encoding `xs` from state `s` at scale factor `sf`, sample by sample. */
  function RunTrial(s: Lms4, sf: SfIndex, xs: seq<Int16>): (t: Trial)
    ensures |t.codes| == |xs| && |t.recon| == |xs|
    ensures t.error <= |xs| * 0x4000_0000
  {
    if |xs| == 0 then Trial(0, [], [], s)
    else
      var prev := RunTrial(s, sf, xs[..|xs| - 1]);
      var sample := xs[|xs| - 1];
      var code := ChooseCode(prev.lms, sf, sample);
      var st := Reconstruct(prev.lms, sf, code);
      Trial(prev.error + SquaredError(sample, st.reconstructed),
            prev.codes + [code], prev.recon + [st.reconstructed], st.next)
  }

  /** One more sample extends the run by one step. */
  lemma TrialStep(s: Lms4, sf: SfIndex, xs: seq<Int16>, i: nat)
    requires i < |xs|
    ensures var prev := RunTrial(s, sf, xs[..i]);
      var code := ChooseCode(prev.lms, sf, xs[i]);
      var st := Reconstruct(prev.lms, sf, code);
      RunTrial(s, sf, xs[..i + 1])
        == Trial(prev.error + SquaredError(xs[i], st.reconstructed),
                 prev.codes + [code], prev.recon + [st.reconstructed], st.next)
  {
    assert xs[..i + 1][..i] == xs[..i];
  }

  /** The encoder's inline computation for sample `i` (prediction, quotient, code,
      dequantised residual, saturated reconstruction, wrapped error) is the next
      step of the trial. */
  lemma EncodeStepAgrees(s: Lms4, sf: SfIndex, xs: seq<Int16>, i: nat, sample: Int16, predicted: int,
                         residual: int, scaled: int, quantized: int, dequantized: int,
                         reconstructed: int, error: Int16)
    requires i < |xs| && sample == xs[i]
    requires predicted == Prediction(RunTrial(s, sf, xs[..i]).lms)
    requires residual == sample - predicted
    requires -0x8000_0000 <= residual < 0x8000_0000 && scaled == Div(residual, sf)
    requires quantized == QuantCode(Clamp(scaled, -8, 8))
    requires 0 <= quantized < 8 && dequantized == Dequant(sf, quantized)
    requires reconstructed == Sat16(predicted + dequantized)
    requires error == Wrap16(sample - reconstructed)
    ensures var prev, next := RunTrial(s, sf, xs[..i]), RunTrial(s, sf, xs[..i + 1]);
      && -0x8000 <= dequantized < 0x8000 && -0x8000 <= reconstructed < 0x8000
      && next.error == prev.error + (error as int) * (error as int)
      && next.codes == prev.codes + [quantized]
      && next.lms == AfterUpdate(prev.lms, reconstructed, dequantized)
  {
    TrialStep(s, sf, xs, i);
    var prev := RunTrial(s, sf, xs[..i]);
    InlineStep(prev.lms, sf, sample, predicted, residual, scaled, quantized, dequantized, reconstructed);
    SquaredErrorInline(sample, reconstructed, error);
  }

  /** The inline computation for one sample from predictor state `p` picks the
      code `ChooseCode` picks and reconstructs as `Reconstruct` does. */
  lemma InlineStep(p: Lms4, sf: SfIndex, sample: Int16, predicted: int, residual: int, scaled: int,
                   quantized: int, dequantized: int, reconstructed: int)
    requires predicted == Prediction(p) && residual == sample - predicted
    requires -0x8000_0000 <= residual < 0x8000_0000 && scaled == Div(residual, sf)
    requires quantized == QuantCode(Clamp(scaled, -8, 8))
    requires 0 <= quantized < 8 && dequantized == Dequant(sf, quantized)
    requires reconstructed == Sat16(predicted + dequantized)
    ensures quantized == ChooseCode(p, sf, sample)
    ensures -0x8000 <= dequantized < 0x8000 && -0x8000 <= reconstructed < 0x8000
    ensures Reconstruct(p, sf, quantized) == Step(dequantized, reconstructed, AfterUpdate(p, reconstructed, dequantized))
  {
    QuantizeInline(residual, sf, scaled);
  }

  /** Running a prefix of the samples gives the prefix of the run, and never a
      larger error: this is why a candidate cut off early cannot win. */
  lemma {:induction false} TrialPrefix(s: Lms4, sf: SfIndex, xs: seq<Int16>, k: nat)
    requires k <= |xs|
    ensures var p, t := RunTrial(s, sf, xs[..k]), RunTrial(s, sf, xs);
      && p.error <= t.error
      && p.codes == t.codes[..k]
      && p.recon == t.recon[..k]
  {
    if k < |xs| {
      assert xs[..|xs| - 1][..k] == xs[..k];
      TrialPrefix(s, sf, xs[..|xs| - 1], k);
    } else {
      assert xs[..k] == xs;
    }
  }

  /** The decoder's view: samples and final state from a sequence of codes. */
  datatype Decoded = Decoded(samples: seq<Int16>, lms: Lms4)

  /** Decoding `codes` at scale factor `sf` from state `s`. */
  function Replay(s: Lms4, sf: SfIndex, codes: seq<Code>): (d: Decoded)
    ensures |d.samples| == |codes|
  {
    if |codes| == 0 then Decoded([], s)
    else
      var prev := Replay(s, sf, codes[..|codes| - 1]);
      var st := Reconstruct(prev.lms, sf, codes[|codes| - 1]);
      Decoded(prev.samples + [st.reconstructed], st.next)
  }

  /** One iteration of the decoder loop, written out as the C code does it, is the
      next step of the replay. */
  lemma DecodeStepAgrees(s: Lms4, sf: SfIndex, codes: seq<Code>, i: nat, predicted: int,
                         quantized: int, dequantized: int, reconstructed: int)
    requires i < |codes| && quantized == codes[i]
    requires predicted == Prediction(Replay(s, sf, codes[..i]).lms)
    requires dequantized == Dequant(sf, quantized)
    requires reconstructed == Sat16(predicted + dequantized)
    ensures var prev, next := Replay(s, sf, codes[..i]), Replay(s, sf, codes[..i + 1]);
      && -0x8000 <= dequantized < 0x8000 && -0x8000 <= reconstructed < 0x8000
      && next.samples == prev.samples + [reconstructed]
      && next.lms == AfterUpdate(prev.lms, reconstructed, dequantized)
  {
    assert codes[..i + 1][..i] == codes[..i];
  }

  /** Replaying the codes of a trial reproduces exactly its reconstructed samples
      and its final predictor state. */
  lemma {:induction false} TrialReplays(s: Lms4, sf: SfIndex, xs: seq<Int16>)
    ensures var t := RunTrial(s, sf, xs);
      Replay(s, sf, t.codes) == Decoded(t.recon, t.lms)
  {
    if |xs| > 0 {
      var t, prev := RunTrial(s, sf, xs), RunTrial(s, sf, xs[..|xs| - 1]);
      TrialReplays(s, sf, xs[..|xs| - 1]);
      assert t.codes[..|t.codes| - 1] == prev.codes;
      var st := Reconstruct(prev.lms, sf, t.codes[|t.codes| - 1]);
      assert Replay(s, sf, t.codes) == Decoded(prev.recon + [st.reconstructed], st.next);
    }
  }

  /** After decoding, the predictor history holds the last four samples of the
      old history followed by the decoded samples. */
  lemma {:induction false} ReplayHistory(s: Lms4, sf: SfIndex, codes: seq<Code>)
    ensures var d := Replay(s, sf, codes);
      d.lms.history == (s.history + d.samples)[|codes|..]
  {
    if |codes| > 0 {
      var d, prev := Replay(s, sf, codes), Replay(s, sf, codes[..|codes| - 1]);
      ReplayHistory(s, sf, codes[..|codes| - 1]);
      assert s.history + d.samples == (s.history + prev.samples) + [d.samples[|codes| - 1]];
    }
  }

  /** The scale factor tried `k`-th: `(*sf_hint + sfi) % 16`. */
  function Candidate(hint: Byte, k: nat): SfIndex
  {
    (hint + k) % 16
  }

  /** The position of `sf` in the search order starting at `hint`. */
  function Rank(hint: Byte, sf: SfIndex): (k: nat)
    ensures k < 16 && Candidate(hint, k) == sf
  {
    (sf - hint) % 16
  }

  /** The search visits every scale factor exactly once. */
  lemma CandidateRank(hint: Byte, k: nat)
    requires k < 16
    ensures Rank(hint, Candidate(hint, k)) == k
  {
  }

  /** The full-block error of the `k`-th candidate. */
  function FullError(s: Lms4, xs: seq<Int16>, hint: Byte, k: nat): nat
  {
    RunTrial(s, Candidate(hint, k), xs).error
  }

  /** The full-block errors of the first `n` candidates, in search order. */
  function ErrorsUpTo(s: Lms4, xs: seq<Int16>, hint: Byte, n: nat): (errs: seq<nat>)
    ensures |errs| == n
  {
    if n == 0 then [] else ErrorsUpTo(s, xs, hint, n - 1) + [FullError(s, xs, hint, n - 1)]
  }

  /** The full-block errors of all 16 candidates. */
  function Errors(s: Lms4, xs: seq<Int16>, hint: Byte): (errs: seq<nat>)
    ensures |errs| == 16
  {
    ErrorsUpTo(s, xs, hint, 16)
  }

  /** Entry `k` of the error table is the full error of candidate `k`. */
  lemma {:induction false} ErrorsAt(s: Lms4, xs: seq<Int16>, hint: Byte, k: nat, n: nat)
    requires k < n
    ensures ErrorsUpTo(s, xs, hint, n)[k] == RunTrial(s, Candidate(hint, k), xs).error
  {
    var prev := ErrorsUpTo(s, xs, hint, n - 1);
    assert ErrorsUpTo(s, xs, hint, n) == prev + [FullError(s, xs, hint, n - 1)];
    if k < n - 1 {
      ErrorsAt(s, xs, hint, k, n - 1);
      assert (prev + [FullError(s, xs, hint, n - 1)])[k] == prev[k];
    }
  }

  /** The outcome of the search over the first `n` entries of `errs`: the first
      position holding the smallest value, since a later candidate replaces the
      best so far only when it is strictly better. */
  function FirstMin(errs: seq<nat>, n: nat): (k: nat)
    requires 1 <= n <= |errs|
    ensures k < n
    ensures forall j :: 0 <= j < n ==> errs[k] <= errs[j]
    ensures forall j :: 0 <= j < k ==> errs[k] < errs[j]
  {
    if n == 1 then 0
    else
      var w := FirstMin(errs, n - 1);
      if errs[n - 1] < errs[w] then n - 1 else w
  }

  /** Extending the search by one candidate keeps the best so far unless the new
      candidate is strictly better. */
  lemma FirstMinNext(errs: seq<nat>, n: nat)
    requires 0 <= n < |errs|
    ensures n == 0 ==> FirstMin(errs, 1) == 0
    ensures n > 0 ==>
      FirstMin(errs, n + 1) == if errs[n] < errs[FirstMin(errs, n)] then n else FirstMin(errs, n)
  {
  }

  /** The search position of the winner among the first `n` candidates. */
  function Winner(s: Lms4, xs: seq<Int16>, hint: Byte, n: nat): nat
    requires 1 <= n <= 16
  {
    FirstMin(Errors(s, xs, hint), n)
  }

  /** The bookkeeping of the candidate loop after `n` candidates: before the first,
      the best error is `UINT64_MAX` and nothing was cut; after it, the best so far
      is the first minimum `w` of the errors seen, and every candidate cut off by
      the early exit is a different scale factor with a strictly larger error. */
  ghost predicate Searched(errs: seq<nat>, hint: Byte, n: nat, w: nat, bestError: int,
                           bestSf: int, cut: set<SfIndex>)
    requires |errs| == 16 && n <= 16
  {
    && (n == 0 ==> bestError == TWO64 - 1 && cut == {})
    && (n > 0 ==> w == FirstMin(errs, n) && bestError == errs[w] && bestSf == Candidate(hint, w))
    && (forall c :: c in cut ==> c != bestSf && Rank(hint, c) < n && errs[Rank(hint, c)] > bestError)
  }

  /** Candidate `n` neither replaces the best nor is replaced: the search state
      carries over, with `n` added to the cut set if it was abandoned. The first
      candidate always replaces the initial `UINT64_MAX`. */
  lemma SearchKeep(errs: seq<nat>, hint: Byte, n: nat, w: nat, bestError: int, bestSf: int,
                   cut: set<SfIndex>, currentError: int, pruned: bool, cut': set<SfIndex>)
    requires |errs| == 16 && n < 16 && Searched(errs, hint, n, w, bestError, bestSf, cut)
    requires errs[n] < TWO64 - 1
    requires pruned ==> currentError > bestError && errs[n] > bestError
    requires !pruned ==> currentError == errs[n]
    requires cut' == if pruned then cut + {Candidate(hint, n)} else cut
    requires currentError >= bestError
    ensures n > 0 && Searched(errs, hint, n + 1, w, bestError, bestSf, cut')
  {
    FirstMinNext(errs, n);
    CandidateRank(hint, n);
    CandidateRank(hint, w);
  }

  /** Candidate `n` completes with a strictly smaller error and becomes the best. */
  lemma SearchImprove(errs: seq<nat>, hint: Byte, n: nat, w: nat, bestError: int, bestSf: int,
                      cut: set<SfIndex>, currentError: int, pruned: bool, cut': set<SfIndex>)
    requires |errs| == 16 && n < 16 && Searched(errs, hint, n, w, bestError, bestSf, cut)
    requires pruned ==> currentError > bestError && errs[n] > bestError
    requires !pruned ==> currentError == errs[n]
    requires cut' == if pruned then cut + {Candidate(hint, n)} else cut
    requires currentError < bestError
    ensures !pruned && Searched(errs, hint, n + 1, n, currentError, Candidate(hint, n), cut')
  {
    FirstMinNext(errs, n);
    CandidateRank(hint, n);
    forall c | c in cut'
      ensures c != Candidate(hint, n)
    {
      assert Rank(hint, c) < n;
    }
  }

  /** `Searched` over the errors of the 16 trials, together with the trial of the
      best candidate so far. */
  ghost predicate SearchState(s: Lms4, xs: seq<Int16>, hint: Byte, n: nat, w: nat, bestError: int,
                              bestSf: int, cut: set<SfIndex>, bestTrial: Trial)
    requires |xs| == 20 && n <= 16
  {
    && Searched(Errors(s, xs, hint), hint, n, w, bestError, bestSf, cut)
    && (n > 0 ==> bestTrial == RunTrial(s, Candidate(hint, w), xs))
  }

  /** Candidate `n`, whose trial is `t`, does not beat the best so far. */
  lemma SearchStepKeep(s: Lms4, xs: seq<Int16>, hint: Byte, n: nat, w: nat, bestError: int,
                       bestSf: int, cut: set<SfIndex>, bestTrial: Trial, t: Trial,
                       currentError: int, pruned: bool, cut': set<SfIndex>)
    requires |xs| == 20 && n < 16 && SearchState(s, xs, hint, n, w, bestError, bestSf, cut, bestTrial)
    requires t == RunTrial(s, Candidate(hint, n), xs)
    requires pruned ==> currentError > bestError && t.error > bestError
    requires !pruned ==> currentError == t.error
    requires cut' == if pruned then cut + {Candidate(hint, n)} else cut
    requires currentError >= bestError
    ensures n > 0 && SearchState(s, xs, hint, n + 1, w, bestError, bestSf, cut', bestTrial)
  {
    ErrorsAt(s, xs, hint, n, 16);
    SearchKeep(Errors(s, xs, hint), hint, n, w, bestError, bestSf, cut, currentError, pruned, cut');
  }

  /** Candidate `n`, whose trial is `t`, beats the best so far and replaces it. */
  lemma SearchStepImprove(s: Lms4, xs: seq<Int16>, hint: Byte, n: nat, w: nat, bestError: int,
                          bestSf: int, cut: set<SfIndex>, bestTrial: Trial, t: Trial,
                          currentError: int, pruned: bool, cut': set<SfIndex>)
    requires |xs| == 20 && n < 16 && SearchState(s, xs, hint, n, w, bestError, bestSf, cut, bestTrial)
    requires t == RunTrial(s, Candidate(hint, n), xs)
    requires pruned ==> currentError > bestError && t.error > bestError
    requires !pruned ==> currentError == t.error
    requires cut' == if pruned then cut + {Candidate(hint, n)} else cut
    requires currentError < bestError
    ensures !pruned && SearchState(s, xs, hint, n + 1, n, currentError, Candidate(hint, n), cut', t)
  {
    ErrorsAt(s, xs, hint, n, 16);
    SearchImprove(Errors(s, xs, hint), hint, n, w, bestError, bestSf, cut, currentError, pruned, cut');
  }

  /** After all 16 candidates the best one is `Encode`'s choice, and every cut
      candidate has a strictly larger full error than it. */
  lemma SearchDone(s: Lms4, xs: seq<Int16>, hint: Byte, w: nat, bestError: int,
                   bestSf: int, cut: set<SfIndex>, bestTrial: Trial)
    requires |xs| == 20 && SearchState(s, xs, hint, 16, w, bestError, bestSf, cut, bestTrial)
    ensures bestSf == Encode(s, xs, hint).sf && bestTrial == RunTrial(s, bestSf, xs)
    ensures forall c :: c in cut ==>
      c != bestSf && RunTrial(s, c, xs).error > RunTrial(s, bestSf, xs).error
  {
    ErrorsAt(s, xs, hint, w, 16);
    forall c | c in cut
      ensures RunTrial(s, c, xs).error > RunTrial(s, bestSf, xs).error
    {
      ErrorsAt(s, xs, hint, Rank(hint, c), 16);
    }
  }

  /** A candidate whose error over some prefix already exceeds the best full
      error of the candidates before it is never the winner, however many
      candidates follow. */
  lemma {:induction false} PrunedNeverWins(s: Lms4, xs: seq<Int16>, hint: Byte, k: nat, p: nat, n: nat)
    requires 1 <= k < n <= 16 && p <= |xs|
    requires RunTrial(s, Candidate(hint, k), xs[..p]).error > FullError(s, xs, hint, Winner(s, xs, hint, k))
    ensures Winner(s, xs, hint, n) != k
  {
    var errs := Errors(s, xs, hint);
    if n > k + 1 {
      PrunedNeverWins(s, xs, hint, k, p, n - 1);
      FirstMinNext(errs, n - 1);
    } else {
      TrialPrefix(s, Candidate(hint, k), xs, p);
      ErrorsAt(s, xs, hint, k, 16);
      ErrorsAt(s, xs, hint, Winner(s, xs, hint, k), 16);
      FirstMinNext(errs, k);
    }
  }

  /** The 64-bit slice built by the encoder's `current_slice = (current_slice << 3) | code`
      starting from `sf`. */
  function PackSlice(sf: SfIndex, codes: seq<Code>): (w: UInt64)
    requires |codes| <= 20
    ensures w == sf * Pow(8, |codes|) + Digits(8, codes)
    ensures w < 16 * Pow(8, |codes|)
  {
    if |codes| == 0 then sf
    else
      var n := |codes|;
      var prev := PackSlice(sf, codes[..n - 1]);
      DigitsBound(8, codes[..n - 1]);
      PackStep(sf, Pow(8, n - 1), Digits(8, codes[..n - 1]), codes[n - 1]);
      PowMonotone(8, n, 20);
      PowFacts();
      (prev * 8) % TWO64 + codes[n - 1]
  }

  /** Appending one code shifts the packed word by 3 bits and adds the code. */
  lemma PackSliceSnoc(sf: SfIndex, codes: seq<Code>, c: Code)
    requires |codes| < 20
    ensures PackSlice(sf, codes + [c]) == (PackSlice(sf, codes) * 8) % TWO64 + c
  {
    assert (codes + [c])[..|codes|] == codes;
  }

  /** Shifting a packed prefix by 3 bits and adding a code, with no overflow. */
  lemma PackStep(sf: int, p: int, d: int, c: int)
    requires 0 <= sf < 16 && 0 <= d && 0 <= c < 8 && 0 < p
    requires sf * p + d < 16 * p
    ensures (sf * p + d) * 8 + c == sf * (p * 8) + (d * 8 + c)
    ensures (sf * p + d) * 8 + c < 16 * (p * 8)
  {
  }

  /** The scale factor of a slice: `slice >> 60`. */
  function SliceScaleFactor(slice: UInt64): SfIndex
  {
    slice / 0x1000_0000_0000_0000
  }

  /** The `i`-th code of a slice: bits `57 - 3i` to `59 - 3i`. */
  function SliceCode(slice: UInt64, i: nat): Code
    requires i < 20
  {
    slice / Pow(8, 19 - i) % 8
  }

  /** The 20 codes of a slice, first sample first. */
  function SliceCodes(slice: UInt64): (cs: seq<Code>)
    ensures |cs| == 20
  {
    seq(20, i requires 0 <= i < 20 => SliceCode(slice, i))
  }

  /** The decoder's running word: after `i` left shifts by 3 of the 64-bit slice,
      bits 57..59 hold code `i`, and one more shift gives the word for `i + 1`. */
  lemma ShiftedWord(slice: UInt64, i: nat)
    requires i < 20
    ensures (slice * Pow(8, i)) % TWO64 / 0x200_0000_0000_0000 % 8 == SliceCode(slice, i)
    ensures ((slice * Pow(8, i)) % TWO64 * 8) % TWO64 == (slice * Pow(8, i + 1)) % TWO64
  {
    PowFacts();
    ShiftedDigit(slice, 8, i, 20, 16);
    ShiftAgain(slice, 8, i, TWO64);
  }

  /** Unpacking a packed slice returns its scale factor and its codes. */
  lemma SliceLayout(sf: SfIndex, codes: seq<Code>)
    requires |codes| == 20
    ensures SliceScaleFactor(PackSlice(sf, codes)) == sf
    ensures SliceCodes(PackSlice(sf, codes)) == codes
  {
    PowFacts();
    DigitsBound(8, codes);
    DigitsTop(8, sf, codes);
    forall i | 0 <= i < 20
      ensures SliceCode(PackSlice(sf, codes), i) == codes[i]
    {
      DigitAt(8, sf, codes, i);
    }
  }

  /** Every 64-bit word is the packing of its own scale factor and codes, so the
      slice layout is a bijection. */
  lemma SliceFieldsPack(slice: UInt64)
    ensures PackSlice(SliceScaleFactor(slice), SliceCodes(slice)) == slice
  {
    PowFacts();
    var cs := SliceCodes(slice);
    assert cs == DigitSeq(8, slice, 20);
    DigitsOfValue(8, slice, 20);
  }

  /** `qoa_decode_slice` as a value: the samples and state decoded from `slice`. */
  function Decode(s: Lms4, slice: UInt64): (d: Decoded)
    ensures |d.samples| == 20
    ensures d.lms.history == (s.history + d.samples)[20..]
  {
    ReplayHistory(s, SliceScaleFactor(slice), SliceCodes(slice));
    Replay(s, SliceScaleFactor(slice), SliceCodes(slice))
  }

  /** The result of `qoa_encode_slice`: the slice, the chosen scale factor (the new
      `*sf_hint`), the committed predictor state and the winner's reconstruction. */
  datatype Encoded = Encoded(slice: UInt64, sf: SfIndex, lms: Lms4, recon: seq<Int16>)

  /** `qoa_encode_slice` as a value. */
  function Encode(s: Lms4, xs: seq<Int16>, hint: Byte): (e: Encoded)
    requires |xs| == 20
    ensures SliceScaleFactor(e.slice) == e.sf
    ensures |e.recon| == 20
    ensures var t := RunTrial(s, e.sf, xs); e.slice == PackSlice(e.sf, t.codes) && e.recon == t.recon && e.lms == t.lms
  {
    var sf := Candidate(hint, Winner(s, xs, hint, 16));
    var t := RunTrial(s, sf, xs);
    SliceLayout(sf, t.codes);
    Encoded(PackSlice(sf, t.codes), sf, t.lms, t.recon)
  }

  /** The committed scale factor has the smallest full-block error of all 16. */
  lemma EncodeOptimal(s: Lms4, xs: seq<Int16>, hint: Byte, sf: SfIndex)
    requires |xs| == 20
    ensures RunTrial(s, Encode(s, xs, hint).sf, xs).error <= RunTrial(s, sf, xs).error
  {
    var errs, k := Errors(s, xs, hint), Rank(hint, sf);
    var w := FirstMin(errs, 16);
    ErrorsAt(s, xs, hint, w, 16);
    ErrorsAt(s, xs, hint, k, 16);
  }

  /** Among scale factors with the smallest error, the committed one comes first
      in the order `hint, hint + 1, ...` (mod 16). */
  lemma EncodeFirstBest(s: Lms4, xs: seq<Int16>, hint: Byte, sf: SfIndex)
    requires |xs| == 20
    requires RunTrial(s, sf, xs).error == RunTrial(s, Encode(s, xs, hint).sf, xs).error
    ensures Rank(hint, Encode(s, xs, hint).sf) <= Rank(hint, sf)
  {
    var errs, k := Errors(s, xs, hint), Rank(hint, sf);
    var w := FirstMin(errs, 16);
    CandidateRank(hint, w);
    ErrorsAt(s, xs, hint, w, 16);
    ErrorsAt(s, xs, hint, k, 16);
  }

  /** Encoder/decoder agreement: decoding the returned slice from the state held
      before encoding yields the winner's reconstructed samples and exactly the
      predictor state the encoder committed. */
  lemma EncodeDecodeAgree(s: Lms4, xs: seq<Int16>, hint: Byte)
    requires |xs| == 20
    ensures var e := Encode(s, xs, hint);
      Decode(s, e.slice) == Decoded(e.recon, e.lms)
  {
    var sf := Candidate(hint, Winner(s, xs, hint, 16));
    var t := RunTrial(s, sf, xs);
    SliceLayout(sf, t.codes);
    TrialReplays(s, sf, xs);
  }
}
