/** The 4-tap sign-sign LMS predictor `qoa_lms` and the frame reset
    `qoa_start_frame`: a value-level specification (`LmsState`) and the class
    `Lms` whose methods update the two arrays in place as the C code does. */
module Predictor {
  import opened Arith

  /** The contents of a `qoa_lms`: the last reconstructed samples (most recent
      last) and the filter weights. */
  datatype LmsState = LmsState(history: seq<Int16>, weights: seq<Int16>)

  /** A predictor state with the four taps of `QOA_LMS_LEN`. */
  type Lms4 = s: LmsState | |s.history| == 4 && |s.weights| == 4
    witness LmsState([0, 0, 0, 0], [0, 0, 0, 0])

  /** `qoa_lms lms = { 0 }`. */
  const ZeroState: Lms4 := LmsState([0, 0, 0, 0], [0, 0, 0, 0])

  /** Weights are zeroed at a frame start when their squared sum (mod 2^32) exceeds this. */
  const ResetThreshold: int := 0x2fff_ffff

  /** The product of two `int16_t` values fits in an `int32_t`. */
  lemma ProductBound(a: int, b: int)
    requires -0x8000 <= a < 0x8000 && -0x8000 <= b < 0x8000
    ensures -0x3fff_8000 <= a * b <= 0x4000_0000
  {
    if a >= 0 && b >= 0 {
      MulLeMul(a, 0x8000, b);
      MulLeMul(b, 0x8000, 0x8000);
    } else if a < 0 && b < 0 {
      MulLeMul(-a, 0x8000, -b);
      MulLeMul(-b, 0x8000, 0x8000);
    } else if a < 0 {
      MulLeMul(-a, 0x8000, b);
      MulLeMul(b, 0x7fff, 0x8000);
    } else {
      MulLeMul(a, 0x7fff, -b);
      MulLeMul(-b, 0x8000, 0x7fff);
    }
  }

  /** Tap `i` of the prediction: `(weights[i] * history[i]) >> 2`. */
  function Tap(s: Lms4, i: nat): (t: int)
    requires i < 4
    ensures -0xfff_e000 <= t <= 0x1000_0000
  {
    ProductBound(s.weights[i], s.history[i]);
    (s.weights[i] as int) * (s.history[i] as int) / 4
  }

  /** The sum of the first `n` taps. */
  function TapSum(s: Lms4, n: nat): (r: int)
    requires n <= 4
    ensures r + n * 0xfff_e000 >= 0 && r <= n * 0x1000_0000
  {
    if n == 0 then 0 else TapSum(s, n - 1) + Tap(s, n - 1)
  }

  /** `qoa_lms_predict`: the tap sum shifted right by 11 (a floor division).
      The result always fits in the `int32_t` it is returned as. */
  function Prediction(s: Lms4): (p: int)
    ensures -0x8_0000 <= p <= 0x8_0000
  {
    TapSum(s, 4) / 0x800
  }

  /** The correction applied to weight `i` by `qoa_lms_update`: `delta = residual >> 4`,
      subtracted when `history[i]` is negative and added otherwise. */
  function WeightStep(s: Lms4, i: nat, residual: Int16): (d: int)
    requires i < 4
    ensures -0x800 <= d <= 0x800
    ensures d == 0 <==> 0 <= residual < 16
  {
    var delta := residual / 16;
    if s.history[i] < 0 then -delta else delta
  }

  /** `qoa_lms_update`: each weight moves by its step (wrapping to `int16_t`), then
      the history drops its oldest sample and appends the new one. */
  function AfterUpdate(s: Lms4, sample: Int16, residual: Int16): (r: Lms4)
    ensures r.history[..3] == s.history[1..] && r.history[3] == sample
  {
    LmsState(
      s.history[1..] + [sample],
      seq(4, i requires 0 <= i < 4 => Wrap16(s.weights[i] + WeightStep(s, i, residual))))
  }

  /** Each weight changes by exactly its step modulo 2^16, and exactly by its step
      when the result stays within `int16_t`; the history is a shift window. */
  lemma UpdateEffect(s: Lms4, sample: Int16, residual: Int16, i: nat)
    requires i < 4
    ensures var r := AfterUpdate(s, sample, residual);
      && (r.weights[i] - s.weights[i] - WeightStep(s, i, residual)) % 0x1_0000 == 0
      && (-0x8000 <= s.weights[i] + WeightStep(s, i, residual) < 0x8000 ==>
            r.weights[i] == s.weights[i] + WeightStep(s, i, residual))
      && r.history[3] == sample
      && (i < 3 ==> r.history[i] == s.history[i + 1])
  {
  }

  /** The squared sum of the weights, before the 32-bit wrap. */
  function SquareSum(w: seq<Int16>): (r: nat)
    ensures r <= |w| * 0x4000_0000
  {
    if |w| == 0 then 0
    else
      var last := w[|w| - 1];
      ProductBound(last, last);
      SquareSum(w[..|w| - 1]) + (last as int) * (last as int)
  }

  /** A run of equal weights `c` square-sums to `|w| * c * c`. */
  lemma {:induction false} SquareSumConstant(w: seq<Int16>, c: int)
    requires forall i :: 0 <= i < |w| ==> w[i] == c
    ensures SquareSum(w) == |w| * c * c
  {
    if |w| > 0 {
      SquareSumConstant(w[..|w| - 1], c);
    }
  }

  /** `qoa_start_frame`: zero all four weights when the `uint32_t` squared sum
      exceeds the threshold; the history is never touched. After it, the wrapped
      squared sum is within the threshold. */
  function AfterStartFrame(s: Lms4): (r: Lms4)
    ensures r.history == s.history
    ensures r.weights == s.weights || r.weights == [0, 0, 0, 0]
    ensures SquareSum(r.weights) % 0x1_0000_0000 <= ResetThreshold
    ensures r.weights == s.weights <==> SquareSum(s.weights) % 0x1_0000_0000 <= ResetThreshold
  {
    SquareSumConstant([0, 0, 0, 0], 0);
    if SquareSum(s.weights) % 0x1_0000_0000 > ResetThreshold
    then LmsState(s.history, [0, 0, 0, 0])
    else s
  }

  /** Running the frame reset twice is the same as running it once. */
  lemma StartFrameIdempotent(s: Lms4)
    ensures AfterStartFrame(AfterStartFrame(s)) == AfterStartFrame(s)
  {
  }

  /** The check is not incremental: four weights of -32768 square-sum to exactly 2^32,
      which wraps to 0, so they are kept. */
  lemma ExtremeWeightsSurvive(h: seq<Int16>)
    requires |h| == 4
    ensures AfterStartFrame(LmsState(h, [-0x8000, -0x8000, -0x8000, -0x8000])).weights
         == [-0x8000, -0x8000, -0x8000, -0x8000]
  {
    SquareSumConstant([-0x8000, -0x8000, -0x8000, -0x8000], -0x8000);
  }

  /** `qoa_lms`, updated in place. */
  class Lms {
    const history: array<Int16>
    const weights: array<Int16>

    ghost predicate Valid()
    {
      history.Length == 4 && weights.Length == 4 && history != weights
    }

    /** The state held by the two arrays. */
    function Value(): Lms4
      requires Valid()
      reads history, weights
    {
      LmsState(history[..], weights[..])
    }

    /** A zero-initialised state (`qoa_lms lms = { 0 }`). */
    constructor ()
      ensures Valid() && fresh(history) && fresh(weights)
      ensures Value() == ZeroState
    {
      history := new Int16[4](_ => 0);
      weights := new Int16[4](_ => 0);
    }

    /** A copy of a state held in fresh arrays (`qoa_lms copy = *src`). */
    constructor FromValue(v: Lms4)
      ensures Valid() && fresh(history) && fresh(weights)
      ensures Value() == v
    {
      history := new Int16[4](i requires 0 <= i < 4 => v.history[i]);
      weights := new Int16[4](i requires 0 <= i < 4 => v.weights[i]);
    }

    /** Structure assignment `*this = v`. */
    method Assign(v: Lms4)
      requires Valid()
      modifies history, weights
      ensures Value() == v
    {
      forall i | 0 <= i < 4 {
        history[i] := v.history[i];
      }
      forall i | 0 <= i < 4 {
        weights[i] := v.weights[i];
      }
    }

    /** `qoa_lms_predict`. */
    method Predict() returns (p: int)
      requires Valid()
      ensures p == Prediction(Value())
      ensures -0x8_0000 <= p <= 0x8_0000
    {
      var prediction := 0;
      for i := 0 to 4
        invariant prediction == TapSum(Value(), i)
      {
        prediction := prediction + (weights[i] as int) * (history[i] as int) / 4;
      }
      p := prediction / 0x800;
    }

    /** `qoa_lms_update`. */
    method Update(sample: Int16, residual: Int16)
      requires Valid()
      modifies history, weights
      ensures history[..] == old(history[1..]) + [sample]
      ensures forall i :: 0 <= i < 4 ==>
        weights[i] == Wrap16(old(weights[i]) + (if old(history[i]) < 0 then -(residual / 16) else residual / 16))
      ensures Value() == AfterUpdate(old(Value()), sample, residual)
    {
      var delta := residual / 16;
      for i := 0 to 4
        invariant history[..] == old(history[..])
        invariant forall j :: 0 <= j < i ==>
          weights[j] == Wrap16(old(weights[j]) + (if history[j] < 0 then -delta else delta))
        invariant forall j :: i <= j < 4 ==> weights[j] == old(weights[j])
      {
        weights[i] := Wrap16(weights[i] + (if history[i] < 0 then -delta else delta));
      }
      ghost var w := weights[..];
      for i := 0 to 3
        invariant weights[..] == w
        invariant forall j :: 0 <= j < i ==> history[j] == old(history[j + 1])
        invariant forall j :: i <= j < 4 ==> history[j] == old(history[j])
      {
        history[i] := history[i + 1];
      }
      history[3] := sample;
    }

    /** `qoa_start_frame`. */
    method StartFrame()
      requires Valid()
      modifies weights
      ensures Value() == AfterStartFrame(old(Value()))
    {
      var sqSum := 0;
      for i := 0 to 4
        invariant weights[..] == old(weights[..])
        invariant sqSum == SquareSum(weights[..i]) % 0x1_0000_0000
      {
        assert weights[..i + 1][..i] == weights[..i];
        var square := (weights[i] as int) * (weights[i] as int);
        ProductBound(weights[i], weights[i]);
        ModAddMultiple(SquareSum(weights[..i]) / 0x1_0000_0000, 0x1_0000_0000, sqSum + square);
        sqSum := (sqSum + square) % 0x1_0000_0000;
      }
      assert weights[..4] == weights[..];
      if sqSum > ResetThreshold {
        for i := 0 to 4
          invariant forall j :: 0 <= j < i ==> weights[j] == 0
        {
          weights[i] := 0;
        }
        assert weights[..] == [0, 0, 0, 0];
      }
    }
  }
}
