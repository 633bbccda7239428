/** Quantisation helpers: division by reciprocal multiplication, clamping,
    16-bit saturation, and the residual-to-code map built from them. */
module Quant {
  import opened Arith
  import opened Tables

  /** The C idiom `(x > 0) - (x < 0)`. */
  function Sign(x: int): (r: int)
    ensures r == 0 <==> x == 0
    ensures r > 0 <==> x > 0
  {
    if x > 0 then 1 else if x < 0 then -1 else 0
  }

  /** `qoa_div`: `v / ScaleFactorTab[sf]` computed as `(v * reciprocal + 2^15) >> 16`,
      then pushed one step away from zero whenever that rounding lost the sign of `v`.
      Both the product and the rounding bias are 32-bit signed operations; an overflow
      of either is modelled as a two's-complement wrap. */
  function Div(v: int, sf: int): (n: Int16)
    requires 0 <= sf < 16
    requires -0x8000_0000 <= v < 0x8000_0000
    ensures v == 0 ==> n == 0
  {
    var product := Wrap32(v * ReciprocalTab[sf]);
    var rounded := Wrap32(product + 0x8000) / 0x1_0000;
    rounded + Sign(v) - Sign(rounded)
  }

  /** Where neither 32-bit operation overflows, `Div` is zero exactly for `v == 0`
      and otherwise has the sign of `v`. */
  lemma DivSign(v: int, sf: int)
    requires 0 <= sf < 16
    requires -0x8000_0000 <= v * ReciprocalTab[sf] && v * ReciprocalTab[sf] + 0x8000 < 0x8000_0000
    ensures -0x8000_0000 <= v < 0x8000_0000
    ensures Div(v, sf) == 0 <==> v == 0
    ensures Div(v, sf) > 0 <==> v > 0
  {
    var r := ReciprocalTab[sf];
    assert r > 0;
    if v >= 0x8000_0000 {
      MulLeMul(1, v, r);
    } else if v < -0x8000_0000 {
      MulLeMul(1, -v, r);
    }
    var rounded := (v * r + 0x8000) / 0x1_0000;
    assert Wrap32(Wrap32(v * r) + 0x8000) / 0x1_0000 == rounded;
    if v > 0 {
      MulLeMul(1, v, r);
      assert rounded >= 0;
    } else if v < 0 {
      MulLeMul(1, -v, r);
      assert rounded <= 0;
    }
  }

  /** `qoa_clamp(x, lo, hi)`. */
  function Clamp(x: int, lo: int, hi: int): (r: int)
    ensures lo <= hi ==> lo <= r <= hi
    ensures lo <= x <= hi ==> r == x
    ensures x < lo ==> r == lo
    ensures lo <= x && hi < x ==> r == hi
  {
    if x < lo then lo else if x > hi then hi else x
  }

  /** The distance `|x - y|` between two integers. */
  function Distance(x: int, y: int): nat
  {
    if x >= y then x - y else y - x
  }

  /** `qoa_sat_s16`: the `int16_t` value nearest to `x`. */
  function Sat16(x: int): (r: Int16)
    ensures -0x8000 <= x < 0x8000 ==> r == x
    ensures forall y: Int16 :: Distance(x, r) <= Distance(x, y)
  {
    if x > 0x7fff then 0x7fff else if x < -0x8000 then -0x8000 else x
  }

  /** The 3-bit code the encoder chooses for a residual at scale factor `sf`:
      `qoa_quant_tab[8 + qoa_clamp(qoa_div(residual, sf), -8, 8)]`. */
  function Quantize(residual: int, sf: int): (code: int)
    requires 0 <= sf < 16
    requires -0x8000_0000 <= residual < 0x8000_0000
    ensures 0 <= code < 8
  {
    QuantCode(Clamp(Div(residual, sf), -8, 8))
  }

  /** `Quantize` unfolded into the three steps the encoder writes inline. */
  lemma QuantizeInline(residual: int, sf: int, scaled: int)
    requires 0 <= sf < 16
    requires -0x8000_0000 <= residual < 0x8000_0000
    requires scaled == Div(residual, sf)
    ensures Quantize(residual, sf) == QuantCode(Clamp(scaled, -8, 8))
  {
  }

  /** The dequantised value applied for a residual is negative exactly when the
      residual is, as long as `Div` does not overflow. */
  lemma QuantizeKeepsSign(residual: int, sf: int)
    requires 0 <= sf < 16
    requires -0x8000_0000 <= residual * ReciprocalTab[sf] && residual * ReciprocalTab[sf] + 0x8000 < 0x8000_0000
    ensures -0x8000_0000 <= residual < 0x8000_0000
    ensures Dequant(sf, Quantize(residual, sf)) < 0 <==> residual < 0
  {
    DivSign(residual, sf);
    var n := Clamp(Div(residual, sf), -8, 8);
    QuantParity(n);
    DequantSign(sf, Quantize(residual, sf));
  }
}
