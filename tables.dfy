/** The constant tables of the slice format: scale factors, their fixed-point
    reciprocals, the dequantisation rows and the quantisation map. */
module Tables {

  /** Nominal residual magnitude of each of the 16 scale-factor indices. */
  const ScaleFactorTab: seq<int> :=
    [1, 7, 21, 45, 84, 138, 211, 304, 421, 562, 731, 928, 1157, 1419, 1715, 2048]

  /** `65536 / ScaleFactorTab[i]`, rounded up, used in place of a division. */
  const ReciprocalTab: seq<int> :=
    [65536, 9363, 3121, 1457, 781, 475, 311, 216, 156, 117, 90, 71, 57, 47, 39, 32]

  /** Reconstructed residual for each scale factor (row) and 3-bit code (column). */
  const DequantTab: seq<seq<int>> := [
    [   1,    -1,    3,    -3,    5,    -5,     7,     -7],
    [   5,    -5,   18,   -18,   32,   -32,    49,    -49],
    [  16,   -16,   53,   -53,   95,   -95,   147,   -147],
    [  34,   -34,  113,  -113,  203,  -203,   315,   -315],
    [  63,   -63,  210,  -210,  378,  -378,   588,   -588],
    [ 104,  -104,  345,  -345,  621,  -621,   966,   -966],
    [ 158,  -158,  528,  -528,  950,  -950,  1477,  -1477],
    [ 228,  -228,  760,  -760, 1368, -1368,  2128,  -2128],
    [ 316,  -316, 1053, -1053, 1895, -1895,  2947,  -2947],
    [ 422,  -422, 1405, -1405, 2529, -2529,  3934,  -3934],
    [ 548,  -548, 1828, -1828, 3290, -3290,  5117,  -5117],
    [ 696,  -696, 2320, -2320, 4176, -4176,  6496,  -6496],
    [ 868,  -868, 2893, -2893, 5207, -5207,  8099,  -8099],
    [1064, -1064, 3548, -3548, 6386, -6386,  9933,  -9933],
    [1286, -1286, 4288, -4288, 7718, -7718, 12005, -12005],
    [1536, -1536, 5120, -5120, 9216, -9216, 14336, -14336]
  ]

  /** Code for each clamped quotient -8..8, stored at index quotient + 8. */
  const QuantTab: seq<int> := [7, 7, 7, 5, 5, 3, 3, 1, 0, 0, 2, 2, 4, 4, 6, 6, 6]

  /** Every table has the size the code indexes it with, and every entry fits its C type. */
  lemma TableShapes()
    ensures |ScaleFactorTab| == 16 && |ReciprocalTab| == 16 && |DequantTab| == 16 && |QuantTab| == 17
    ensures forall s :: 0 <= s < 16 ==> |DequantTab[s]| == 8
    ensures forall s, c :: 0 <= s < 16 && 0 <= c < 8 ==> -0x8000 <= DequantTab[s][c] < 0x8000
    ensures forall k :: 0 <= k < 17 ==> 0 <= QuantTab[k] < 8
  {
  }

  /** `qoa_dequant_tab[sf][code]`. */
  function Dequant(sf: int, code: int): (d: int)
    requires 0 <= sf < 16 && 0 <= code < 8
    ensures -0x8000 <= d < 0x8000
  {
    TableShapes();
    DequantTab[sf][code]
  }

  /** `qoa_quant_tab[8 + n]`: the 3-bit code of a clamped quotient. */
  function QuantCode(n: int): (code: int)
    requires -8 <= n <= 8
    ensures 0 <= code < 8
  {
    TableShapes();
    QuantTab[8 + n]
  }

  /** Each reciprocal is the ceiling of 65536 divided by its scale factor. */
  lemma ReciprocalIsCeiling(s: int)
    requires 0 <= s < 16
    ensures ReciprocalTab[s] * ScaleFactorTab[s] >= 0x1_0000
    ensures (ReciprocalTab[s] - 1) * ScaleFactorTab[s] < 0x1_0000
  {
  }

  /** Each dequantisation row is `{a, -a, b, -b, c, -c, d, -d}` with `0 < a < b < c < d`,
      and `a, b, c, d` are the scale factor times 3/4, 5/2, 9/2 and 7, rounded half up. */
  lemma DequantRowShape(s: int)
    requires 0 <= s < 16
    ensures var row, f := DequantTab[s], ScaleFactorTab[s];
      && 0 < row[0] < row[2] < row[4] < row[6]
      && row[1] == -row[0] && row[3] == -row[2] && row[5] == -row[4] && row[7] == -row[6]
      && row[0] == (3 * f + 2) / 4 && row[2] == (5 * f + 1) / 2
      && row[4] == (9 * f + 1) / 2 && row[6] == 7 * f
  {
  }

  /** Negative quotients map to odd codes, the others to even codes. */
  lemma QuantParity(n: int)
    requires -8 <= n <= 8
    ensures QuantTab[n + 8] % 2 == 1 <==> n < 0
  {
  }

  /** Even codes dequantise to positive values, odd codes to negative ones. */
  lemma DequantSign(s: int, c: int)
    requires 0 <= s < 16 && 0 <= c < 8
    ensures DequantTab[s][c] > 0 <==> c % 2 == 0
    ensures DequantTab[s][c] != 0
  {
    DequantRowShape(s);
    if c % 2 == 0 {
      assert c == 0 || c == 2 || c == 4 || c == 6;
    } else {
      assert c == 1 || c == 3 || c == 5 || c == 7;
    }
  }
}
