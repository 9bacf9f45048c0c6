/** Integer arithmetic of the fixed-point build. The build's macros MULT16_16_Q13 and
    DIV32_16 come from headers outside this model; they are given here the usual
    definitions of the Speex fixed-point header (a Q13 product is the full product shifted
    right by 13, and DIV32_16 is C division), and those definitions are an assumption of
    the model. A right shift of a signed value is taken to be arithmetic, that is, floor
    division by a power of two. Widths (16-bit and 32-bit wrap-around) are not modelled. */
module FixedArith {
  /** 2^n. */
  function Pow2(n: nat): (r: nat)
    ensures r >= 1
  {
    if n == 0 then 1 else 2 * Pow2(n - 1)
  }

  /** Dafny's division by a positive divisor rounds towards minus infinity. */
  lemma FloorDiv(v: int, d: int)
    requires d > 0
    ensures d * (v / d) <= v < d * (v / d) + d
  {
  }

  lemma MulLeft(d: int, x: int, y: int)
    requires d >= 0 && x <= y
    ensures d * x <= d * y
  {
    assert d * y - d * x == d * (y - x);
  }

  lemma MulAssoc(a: int, b: int, c: int)
    ensures (a * b) * c == a * (b * c)
  {
  }

  lemma MulDistrib(d: int, a: int, b: int)
    ensures d * (a + b) == d * a + d * b
  {
  }

  /** The floor characterisation pins the quotient down. */
  lemma FloorUnique(v: int, d: int, q: int)
    requires d > 0 && d * q <= v < d * q + d
    ensures v / d == q
  {
    FloorDiv(v, d);
    var q' := v / d;
    if q' < q {
      MulLeft(d, q' + 1, q);
    } else if q < q' {
      MulLeft(d, q + 1, q');
    }
  }

  lemma {:induction false} Pow2Add(a: nat, b: nat)
    ensures Pow2(a + b) == Pow2(a) * Pow2(b)
    decreases a
  {
    if a > 0 {
      Pow2Add(a - 1, b);
      var x, y := Pow2(a - 1), Pow2(b);
      assert Pow2(a + b) == 2 * Pow2(a - 1 + b);
      assert Pow2(a) == 2 * x;
      assert 2 * (x * y) == (2 * x) * y;
    }
  }

  lemma Pow2Values()
    ensures Pow2(13) == 8192
    ensures Pow2(30) == 0x4000_0000
  {
    assert Pow2(4) == 16;
    assert Pow2(8) == 256;
    assert Pow2(13) == 8192;
    assert Pow2(16) == 0x1_0000;
    assert Pow2(24) == 0x100_0000;
    assert Pow2(30) == 0x4000_0000;
  }

  /** v >> s on a signed value: the quotient by 2^s rounded towards minus infinity. */
  function Shr(v: int, s: nat): (q: int)
    ensures Pow2(s) * q <= v < Pow2(s) * q + Pow2(s)
  {
    FloorDiv(v, Pow2(s));
    v / Pow2(s)
  }

  /** Shifting keeps the sign. */
  lemma ShrSign(v: int, s: nat)
    ensures v >= 0 <==> Shr(v, s) >= 0
  {
    var d, q := Pow2(s), Shr(v, s);
    if q < 0 { MulLeft(d, q, -1); }
    if q >= 0 { MulLeft(d, 0, q); }
  }

  lemma ShrMonotone(u: int, v: int, s: nat)
    requires u <= v
    ensures Shr(u, s) <= Shr(v, s)
  {
    var d := Pow2(s);
    if Shr(v, s) < Shr(u, s) {
      MulLeft(d, Shr(v, s) + 1, Shr(u, s));
    }
  }

  /** MULT16_16_Q13(a, b): the product of two Q13 values, rescaled to Q13. */
  function MultQ13(a: int, b: int): (r: int)
    ensures 8192 * r <= a * b < 8192 * r + 8192
  {
    Pow2Values();
    Shr(a * b, 13)
  }

  lemma MultQ13Commutes(a: int, b: int)
    ensures MultQ13(a, b) == MultQ13(b, a)
  {
    assert a * b == b * a;
  }

  function Abs(n: int): nat
  {
    if n < 0 then -n else n
  }

  /** DIV32_16(a, b): C division, whose quotient is truncated towards zero, so the
      remainder is smaller than the divisor and has the sign of the dividend. */
  function TruncDiv(a: int, b: int): (q: int)
    requires b != 0
    ensures var rem := a - q * b; Abs(rem) < Abs(b) && (rem == 0 || (rem < 0 <==> a < 0))
  {
    FloorDiv(Abs(a), Abs(b));
    var q := Abs(a) / Abs(b);
    if (a < 0) == (b < 0) then q else -q
  }
}
