/** Fixed-width integer conventions of the C code, and the positional-notation
    facts used by every packed word of the format (slices, state words, bytes). */
module Arith {

  /** C `int16_t`. */
  type Int16 = x: int | -0x8000 <= x < 0x8000
  /** C `uint8_t`, one byte of a stream. */
  type Byte = x: int | 0 <= x < 0x100
  /** C `uint64_t`. */
  type UInt64 = x: int | 0 <= x < 0x1_0000_0000_0000_0000

  const TWO64: int := 0x1_0000_0000_0000_0000

  /** Conversion of an arbitrary integer to `int16_t` (two's complement). */
  function Wrap16(x: int): (r: Int16)
    ensures (x - r) % 0x1_0000 == 0
    ensures -0x8000 <= x < 0x8000 ==> r == x
  {
    (x + 0x8000) % 0x1_0000 - 0x8000
  }

  /** Conversion of an arbitrary integer to `int32_t` (two's complement). */
  function Wrap32(x: int): (r: int)
    ensures -0x8000_0000 <= r < 0x8000_0000
    ensures (x - r) % 0x1_0000_0000 == 0
    ensures -0x8000_0000 <= x < 0x8000_0000 ==> r == x
  {
    (x + 0x8000_0000) % 0x1_0000_0000 - 0x8000_0000
  }

  /** Reinterpretation of a 16-bit pattern as `int16_t`. */
  function ToInt16(u: int): (r: Int16)
    requires 0 <= u < 0x1_0000
    ensures r % 0x1_0000 == u
  {
    if u < 0x8000 then u else u - 0x1_0000
  }

  /** The 16-bit pattern of an `int16_t` (a cast to `uint16_t`). */
  function ToUInt16(x: Int16): (u: int)
    ensures 0 <= u < 0x1_0000 && ToInt16(u) == x
  {
    if x < 0 then x + 0x1_0000 else x
  }

  /** Storing `x` at index `i` extends the first `i` elements by `x`. */
  lemma StorePrefix<T>(a: seq<T>, i: nat, x: T)
    requires i < |a|
    ensures a[i := x][..i + 1] == a[..i] + [x]
  {
  }

  /** Taking all the elements of a sequence gives it back. */
  lemma TakeAll<T>(s: seq<T>)
    ensures s[..|s|] == s
  {
  }

  /** The two conversions are inverse bijections. */
  lemma ToUInt16OfInt16(u: int)
    requires 0 <= u < 0x1_0000
    ensures ToUInt16(ToInt16(u)) == u
  {
  }

  function Pow(b: nat, n: nat): (r: nat)
    ensures b > 0 ==> r > 0
  {
    if n == 0 then 1 else b * Pow(b, n - 1)
  }

  lemma {:induction false} PowAdd(b: nat, m: nat, n: nat)
    ensures Pow(b, m + n) == Pow(b, m) * Pow(b, n)
  {
    if n > 0 {
      PowAdd(b, m, n - 1);
      var p, q := Pow(b, m), Pow(b, n - 1);
      assert Pow(b, m + n) == b * (p * q);
      MulAssoc(b, p, q);
      MulComm(b, p);
      MulAssoc(p, b, q);
    }
  }

  /** The powers of 8, 256 and 65536 that the format's word layouts use. */
  lemma PowFacts()
    ensures Pow(8, 19) == 0x200_0000_0000_0000
    ensures Pow(8, 20) == 0x1000_0000_0000_0000
    ensures Pow(256, 7) == 0x100_0000_0000_0000
    ensures Pow(256, 8) == TWO64
    ensures Pow(0x1_0000, 4) == TWO64
  {
    PowAdd(8, 5, 5);
    PowAdd(8, 10, 9);
    PowAdd(8, 19, 1);
    PowAdd(256, 4, 3);
    PowAdd(256, 7, 1);
  }

  /** Euclidean division is determined by quotient and remainder. */
  lemma DivModUnique(x: int, d: int, q: int, r: int)
    requires d > 0 && 0 <= r < d && x == q * d + r
    ensures x / d == q && x % d == r
  {
    var q', r' := x / d, x % d;
    assert x == q' * d + r';
    assert (q - q') * d == r' - r by {
      assert q * d - q' * d == (q - q') * d;
    }
    if q > q' {
      MulLeMul(1, q - q', d);
    } else if q < q' {
      MulLeMul(1, q' - q, d);
    }
  }

  lemma ModAddMultiple(k: int, m: int, y: int)
    requires m > 0
    ensures (k * m + y) % m == y % m
  {
    DivModUnique(k * m + y, m, k + y / m, y % m);
  }

  lemma ModMulMod(a: int, b: int, m: int)
    requires m > 0
    ensures ((a % m) * b) % m == (a * b) % m
  {
    assert a * b == (a / m * b) * m + (a % m) * b;
    ModAddMultiple(a / m * b, m, (a % m) * b);
  }

  lemma MulLeMul(a: int, b: int, c: int)
    requires 0 <= a <= b && 0 <= c
    ensures a * c <= b * c
  {
  }

  /** A digit string read most-significant digit first: `Digits(b, [d0, d1]) == d0 * b + d1`. */
  function Digits(b: nat, ds: seq<int>): int
  {
    if |ds| == 0 then 0 else Digits(b, ds[..|ds| - 1]) * b + ds[|ds| - 1]
  }

  ghost predicate DigitsBelow(ds: seq<int>, b: nat)
  {
    forall i :: 0 <= i < |ds| ==> 0 <= ds[i] < b
  }

  lemma {:induction false} DigitsBound(b: nat, ds: seq<int>)
    requires b > 0 && DigitsBelow(ds, b)
    ensures 0 <= Digits(b, ds) < Pow(b, |ds|)
  {
    if |ds| > 0 {
      var init := ds[..|ds| - 1];
      DigitsBound(b, init);
      var v, p := Digits(b, init), Pow(b, |init|);
      assert Digits(b, ds) == v * b + ds[|ds| - 1];
      assert Pow(b, |ds|) == b * p;
      MulLeMul(v + 1, p, b);
      MulLeMul(0, v, b);
      Distrib(v, 1, b);
      MulComm(p, b);
    }
  }

  lemma {:induction false} DigitsAppend(b: nat, xs: seq<int>, ys: seq<int>)
    ensures Digits(b, xs + ys) == Digits(b, xs) * Pow(b, |ys|) + Digits(b, ys)
  {
    if |ys| == 0 {
      assert xs + ys == xs;
    } else {
      var init := ys[..|ys| - 1];
      assert (xs + ys)[..|xs + ys| - 1] == xs + init;
      DigitsAppend(b, xs, init);
      calc {
        Digits(b, xs + ys);
        Digits(b, xs + init) * b + ys[|ys| - 1];
        (Digits(b, xs) * Pow(b, |init|) + Digits(b, init)) * b + ys[|ys| - 1];
        Digits(b, xs) * (Pow(b, |init|) * b) + (Digits(b, init) * b + ys[|ys| - 1]);
        Digits(b, xs) * Pow(b, |ys|) + Digits(b, ys);
      }
    }
  }

  /** The value `h * b^n + Digits(b, ds)` (a leading part `h` above `n` digits)
      carries digit `ds[i]` at position `n - 1 - i`, and `h` above all of them. */
  lemma DigitAt(b: nat, h: nat, ds: seq<int>, i: nat)
    requires b > 1 && DigitsBelow(ds, b) && i < |ds|
    ensures (h * Pow(b, |ds|) + Digits(b, ds)) / Pow(b, |ds| - 1 - i) % b == ds[i]
  {
    var pj, rest := Pow(b, |ds| - 1 - i), Digits(b, ds[i + 1..]);
    var above := h * Pow(b, i) + Digits(b, ds[..i]);
    DigitSplit(b, h, ds, i);
    DivModUnique(h * Pow(b, |ds|) + Digits(b, ds), pj, above * b + ds[i], rest);
    DivModUnique(above * b + ds[i], b, above, ds[i]);
  }

  /** `h * b^n + Digits(b, ds)` split around digit `i`. */
  lemma DigitSplit(b: nat, h: nat, ds: seq<int>, i: nat)
    requires b > 1 && DigitsBelow(ds, b) && i < |ds|
    ensures 0 <= Digits(b, ds[i + 1..]) < Pow(b, |ds| - 1 - i)
    ensures h * Pow(b, |ds|) + Digits(b, ds)
         == ((h * Pow(b, i) + Digits(b, ds[..i])) * b + ds[i]) * Pow(b, |ds| - 1 - i)
            + Digits(b, ds[i + 1..])
  {
    var n, j := |ds|, |ds| - 1 - i;
    var front, back := ds[..i], ds[i + 1..];
    assert ds == (front + [ds[i]]) + back;
    assert (front + [ds[i]])[..i] == front;
    DigitsAppend(b, front + [ds[i]], back);
    DigitsBound(b, back);
    PowAdd(b, i + 1, j);
    var pi, pj := Pow(b, i), Pow(b, j);
    var lead := Digits(b, front + [ds[i]]);
    assert lead == Digits(b, front) * b + ds[i];
    assert Pow(b, i + 1) == pi * b;
    MulAssoc(h, pi * b, pj);
    Distrib(h * (pi * b), lead, pj);
    MulAssoc(h, pi, b);
    Distrib(h * pi, Digits(b, front), b);
  }

  lemma Distrib(x: int, y: int, z: int)
    ensures (x + y) * z == x * z + y * z
  {
  }

  lemma MulAssoc(x: int, y: int, z: int)
    ensures (x * y) * z == x * (y * z)
  {
  }

  lemma DigitsTop(b: nat, h: int, ds: seq<int>)
    requires b > 0 && DigitsBelow(ds, b)
    ensures (h * Pow(b, |ds|) + Digits(b, ds)) / Pow(b, |ds|) == h
    ensures (h * Pow(b, |ds|) + Digits(b, ds)) % Pow(b, |ds|) == Digits(b, ds)
  {
    DigitsBound(b, ds);
    DivModUnique(h * Pow(b, |ds|) + Digits(b, ds), Pow(b, |ds|), h, Digits(b, ds));
  }

  /** A word shifted left by `s` digits inside a `t * b^n` register still shows, in
      its top digit position `n - 1`, the digit that sat at position `n - 1 - s`.
      This is how a C loop that shifts a `uint64_t` left and reads its top bits
      walks the fields of a word from the most significant one down. */
  lemma ShiftedDigit(x: nat, b: nat, s: nat, n: nat, t: nat)
    requires b > 1 && t >= 1 && s < n
    ensures (x * Pow(b, s)) % (t * Pow(b, n)) / Pow(b, n - 1) % b == x / Pow(b, n - 1 - s) % b
  {
    var d, ps, top := Pow(b, n - 1 - s), Pow(b, s), Pow(b, n - 1);
    PowAdd(b, n - 1 - s, s);
    PowAdd(b, n - 1, 1);
    assert Pow(b, n) == top * b;
    var q1, r := x / d, x % d;
    DivModParts(x, d);
    var c, q := q1 % b, q1 / b;
    DivModParts(q1, b);
    var q0, qt := q % t, q / t;
    DivModParts(q, t);
    var m := t * (top * b);
    var low := (q0 * b + c) * top + r * ps;
    ShiftAlgebra(x, ps, d, top, b, t, q1, r, q, c, qt, q0);
    LowBound(r, d, ps, top, q0, b, c, t);
    DivModUnique(x * ps, m, qt, low);
    DivModUnique(low, top, q0 * b + c, r * ps);
    DivModUnique(q0 * b + c, b, q0, c);
  }

  lemma DivModParts(x: int, d: int)
    requires d > 0
    ensures x == (x / d) * d + x % d && 0 <= x % d < d
  {
  }

  lemma ShiftAlgebra(x: int, ps: int, d: int, top: int, b: int, t: int,
                     q1: int, r: int, q: int, c: int, qt: int, q0: int)
    requires x == q1 * d + r && q1 == q * b + c && q == qt * t + q0 && d * ps == top
    ensures x * ps == qt * (t * (top * b)) + ((q0 * b + c) * top + r * ps)
  {
    calc {
      x * ps;
      { Distrib(q1 * d, r, ps); }
      (q1 * d) * ps + r * ps;
      { MulAssoc(q1, d, ps); }
      q1 * top + r * ps;
      { Distrib(q * b, c, top); }
      (q * b) * top + c * top + r * ps;
      { Distrib(qt * t, q0, b); }
      ((qt * t) * b + q0 * b) * top + c * top + r * ps;
      { Distrib((qt * t) * b, q0 * b, top); }
      ((qt * t) * b) * top + (q0 * b) * top + c * top + r * ps;
      { MulAssoc(qt * t, b, top); MulAssoc(qt, t, b * top); MulComm(b, top); }
      qt * (t * (top * b)) + (q0 * b) * top + c * top + r * ps;
      { Distrib(q0 * b, c, top); }
      qt * (t * (top * b)) + ((q0 * b + c) * top + r * ps);
    }
  }

  lemma LowBound(r: int, d: int, ps: int, top: int, q0: int, b: int, c: int, t: int)
    requires 0 <= r < d && 0 < ps && d * ps == top
    requires 0 <= q0 < t && 0 <= c < b && 0 <= top
    ensures 0 <= r * ps < top
    ensures 0 <= (q0 * b + c) * top + r * ps < t * (top * b)
  {
    MulLeMul(0, r, ps);
    MulLeMul(r + 1, d, ps);
    Distrib(r, 1, ps);
    MulLeMul(0, q0, b);
    MulLeMul(q0 + 1, t, b);
    Distrib(q0, 1, b);
    var k := q0 * b + c;
    assert 0 <= k && k + 1 <= t * b;
    MulLeMul(0, k, top);
    MulLeMul(k + 1, t * b, top);
    Distrib(k, 1, top);
    MulAssoc(t, b, top);
    MulComm(b, top);
  }

  lemma MulComm(x: int, y: int)
    ensures x * y == y * x
  {
  }

  /** One more left shift of a wrapped register continues the sequence. */
  lemma ShiftAgain(x: nat, b: nat, s: nat, m: int)
    requires m > 0
    ensures ((x * Pow(b, s)) % m * b) % m == (x * Pow(b, s + 1)) % m
  {
    ModMulMod(x * Pow(b, s), b, m);
    assert x * Pow(b, s) * b == x * Pow(b, s + 1);
  }

  lemma {:induction false} PowMonotone(b: nat, m: nat, n: nat)
    requires b > 0 && m <= n
    ensures Pow(b, m) <= Pow(b, n)
  {
    if m < n {
      PowMonotone(b, m, n - 1);
      MulLeMul(1, b, Pow(b, n - 1));
    }
  }

  lemma DivDiv(x: nat, p: nat, q: nat)
    requires p > 0 && q > 0
    ensures x / (p * q) == x / p / q
  {
    var a, r1 := x / p, x % p;
    var c, r2 := a / q, a % q;
    DivModParts(x, p);
    DivModParts(a, q);
    assert x == c * (p * q) + (r2 * p + r1) by {
      Distrib(c * q, r2, p);
      MulAssoc(c, q, p);
      MulComm(q, p);
    }
    assert r2 * p + r1 < p * q by {
      MulLeMul(r2 + 1, q, p);
      MulComm(q, p);
    }
    MulLeMul(0, r2, p);
    DivModUnique(x, p * q, c, r2 * p + r1);
  }

  /** The `n` base-`b` digits of `x`, most significant first. */
  function DigitSeq(b: nat, x: nat, n: nat): (ds: seq<int>)
    requires b > 0
    ensures |ds| == n && DigitsBelow(ds, b)
  {
    seq(n, i requires 0 <= i < n => x / Pow(b, n - 1 - i) % b)
  }

  /** Reading back the `n` low digits of `x` gives `x` modulo `b^n`. */
  lemma {:induction false} DigitsOfValue(b: nat, x: nat, n: nat)
    requires b > 1
    ensures Digits(b, DigitSeq(b, x, n)) == x % Pow(b, n)
    decreases n
  {
    if n > 0 {
      DigitSeqInit(b, x, n);
      var y: nat, ds := x / b, DigitSeq(b, x, n);
      var big := Pow(b, n - 1);
      var init := ds[..n - 1];
      assert init == DigitSeq(b, y, n - 1);
      var low := Digits(b, init);
      calc {
        Digits(b, ds);
        low * b + ds[n - 1];
        { DigitsOfValue(b, y, n - 1); assert low == y % big; }
        (y % big) * b + x % b;
        { ModSplit(x, b, big); }
        x % (big * b);
        { assert Pow(b, n) == big * b; }
        x % Pow(b, n);
      }
    }
  }

  lemma DigitSeqInit(b: nat, x: nat, n: nat)
    requires b > 1 && n > 0
    ensures x / b >= 0
    ensures DigitSeq(b, x, n)[..n - 1] == DigitSeq(b, x / b, n - 1)
    ensures DigitSeq(b, x, n)[n - 1] == x % b
  {
    var ds, rest := DigitSeq(b, x, n), DigitSeq(b, x / b, n - 1);
    forall i | 0 <= i < n - 1
      ensures ds[i] == rest[i]
    {
      DivDiv(x, b, Pow(b, n - 2 - i));
      assert Pow(b, n - 1 - i) == b * Pow(b, n - 2 - i);
    }
    assert Pow(b, 0) == 1;
  }

  lemma ModSplit(x: nat, b: nat, big: nat)
    requires b > 0 && big > 0
    ensures x % (big * b) == ((x / b) % big) * b + x % b
  {
    var q, r := x / b / big, (x / b) % big;
    DivModParts(x, b);
    DivModParts(x / b, big);
    assert x == q * (big * b) + (r * b + x % b) by {
      Distrib(q * big, r, b);
      MulAssoc(q, big, b);
    }
    assert r * b + x % b < big * b by {
      MulLeMul(r + 1, big, b);
    }
    MulLeMul(0, r, b);
    DivModUnique(x, big * b, q, r * b + x % b);
  }
}
