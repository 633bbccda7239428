/** The state the `encode` loop of `uqoa_conv` keeps between samples, related
    to the value-level encoder of `StreamSpec`. */
module EncodeState {
  import opened Arith
  import opened Predictor
  import opened SliceSpec
  import opened StreamSpec

  /** The samples of the group being gathered: the first `count` entries of
      `buffer` are the samples of `xs` from `start` on. */
  ghost predicate Buffered(xs: seq<Int16>, buffer: seq<Int16>, start: int, count: int)
  {
    && |buffer| == 20 && 0 <= count < 20 && 0 <= start && start + count <= |xs|
    && forall i :: 0 <= i < count ==> buffer[i] == xs[start + i]
  }

  /** The encoder after the first `g` groups of the input `data`, for the output
      `base` it started from: `rs` are their slices, and the predictor state,
      hint, slice counter and output are those the slices lead to. */
  ghost predicate EncodedUpTo(plain: bool, data: seq<Byte>, base: seq<Byte>, state: Lms4,
                              sliceCount: int, sf: Byte, outBytes: seq<Byte>, g: nat, rs: seq<Encoded>)
  {
    var gs := Groups(SamplesOf(data));
    && g <= |gs| && AllGroups(gs) && SliceResults(plain, gs[..g], rs)
    && var e := EncodeFold(plain, rs);
    && state == e.lms && sf == e.hint && sliceCount == e.sliceCount < 256
    && outBytes == base + e.out
  }

  /** The state of `encode` between samples: `20 * g + sampleCount` samples
      read, the last `sampleCount` of them waiting in `samples`. */
  ghost predicate Encoding(plain: bool, data: seq<Byte>, base: seq<Byte>, lms: Lms, samples: array<Int16>,
                           sampleCount: int, sliceCount: int, sf: Byte, outBytes: seq<Byte>,
                           g: nat, rs: seq<Encoded>)
    reads lms, lms.history, lms.weights, samples
  {
    && lms.Valid() && samples != lms.history && samples != lms.weights
    && Buffered(SamplesOf(data), samples[..], 20 * g, sampleCount)
    && EncodedUpTo(plain, data, base, lms.Value(), sliceCount, sf, outBytes, g, rs)
  }

  /** Storing the next sample of a group that is not yet full. */
  lemma BufferedStore(xs: seq<Int16>, buffer: seq<Int16>, start: int, count: int, sample: Int16)
    requires Buffered(xs, buffer, start, count)
    requires start + count < |xs| && sample == xs[start + count] && count + 1 < 20
    ensures Buffered(xs, buffer[count := sample], start, count + 1)
  {
  }

  /** Storing the twentieth sample completes the group. */
  lemma BufferedFull(xs: seq<Int16>, buffer: seq<Int16>, g: nat, count: int, sample: Int16)
    requires Buffered(xs, buffer, 20 * g, count) && count + 1 == 20
    requires 20 * g + count < |xs| && sample == xs[20 * g + count]
    ensures g < |Groups(xs)| && buffer[count := sample] == Groups(xs)[g]
    ensures Buffered(xs, buffer[count := sample], 20 * (g + 1), 0)
  {
    GroupIs(buffer[19 := sample], xs, g);
  }

  /** Once group `g` is encoded as `r`, the encoder has done `g + 1` groups. */
  lemma EncodedNextGroup(plain: bool, data: seq<Byte>, base: seq<Byte>, state: Lms4,
                         sliceCount: int, sf: Byte, outBytes: seq<Byte>, g: nat, rs: seq<Encoded>, r: Encoded)
    requires var gs := Groups(SamplesOf(data));
      g < |gs| && AllGroups(gs) && SliceResults(plain, gs[..g + 1], rs + [r])
    requires var e := EncodeGroup(plain, EncodeFold(plain, rs), r);
      state == e.lms && sf == e.hint && sliceCount == e.sliceCount < 256 && outBytes == base + e.out
    ensures EncodedUpTo(plain, data, base, state, sliceCount, sf, outBytes, g + 1, rs + [r])
  {
    EncodeFoldSnoc(plain, rs, r);
  }

  /** Before the first sample: no group done, the initial encoder. */
  lemma EncodedStart(plain: bool, data: seq<Byte>, base: seq<Byte>)
    ensures EncodedUpTo(plain, data, base, ZeroState, 0, 0, base, 0, [])
  {
    GroupsAreGroups(SamplesOf(data));
  }

  /** Once every complete group is done, `rs` are the slices of all of them. */
  lemma EncodedDone(plain: bool, data: seq<Byte>, base: seq<Byte>, state: Lms4,
                    sliceCount: int, sf: Byte, outBytes: seq<Byte>, g: nat, rs: seq<Encoded>)
    requires EncodedUpTo(plain, data, base, state, sliceCount, sf, outBytes, g, rs)
    requires g == |Groups(SamplesOf(data))|
    ensures SliceResults(plain, Groups(SamplesOf(data)), rs)
    ensures outBytes == base + EncodeFold(plain, rs).out
  {
    var gs := Groups(SamplesOf(data));
    assert gs[..g] == gs;
  }
}
