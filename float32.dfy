/** The IEEE 754 binary32 reading of a 32-bit word, as far as the `.flo` reader needs it:
    the magic number is read as a float32 and compared with `TAG_FLOAT`. */
module Float32 {
  import opened Words

  datatype F32 = Finite(value: real) | Infinity(negative: bool) | NaN

  /** 2^e for any integer exponent. */
  function Pow2(e: int): (p: real)
    ensures p > 0.0
    decreases if e < 0 then -e else e
  {
    if e == 0 then 1.0 else if e > 0 then 2.0 * Pow2(e - 1) else Pow2(e + 1) / 2.0
  }

  lemma Pow2Step(e: int)
    ensures Pow2(e + 1) == 2.0 * Pow2(e)
  {
  }

  lemma {:induction false} Pow2Monotone(a: int, b: int)
    requires a <= b
    ensures Pow2(a) <= Pow2(b)
    decreases b - a
  {
    if a < b {
      Pow2Monotone(a, b - 1);
      Pow2Step(b - 1);
    }
  }

  /** m * 2^e, computed by doubling or halving one step at a time. */
  function Scale(m: nat, e: int): (x: real)
    ensures x >= 0.0
    decreases if e < 0 then -e else e
  {
    if e == 0 then m as real else if e > 0 then 2.0 * Scale(m, e - 1) else Scale(m, e + 1) / 2.0
  }

  lemma {:induction false} ScaleIsProduct(m: nat, e: int)
    ensures Scale(m, e) == m as real * Pow2(e)
    decreases if e < 0 then -e else e
  {
    if e > 0 {
      ScaleIsProduct(m, e - 1);
    } else if e < 0 {
      ScaleIsProduct(m, e + 1);
    }
  }

  function SignBit(w: Word): nat { w / 0x8000_0000 }
  function ExponentField(w: Word): nat { (w / 0x80_0000) % 0x100 }
  function FractionField(w: Word): nat { w % 0x80_0000 }

  /** The number a float32 bit pattern stands for. */
  function Value(w: Word): (f: F32)
    ensures ExponentField(w) == 0xFF <==> !f.Finite?
    ensures f.Finite? && SignBit(w) == 0 ==> f.value >= 0.0
    ensures f.Finite? && SignBit(w) == 1 ==> f.value <= 0.0
  {
    var e := ExponentField(w);
    var m := FractionField(w);
    if e == 0xFF then
      (if m == 0 then Infinity(SignBit(w) == 1) else NaN)
    else
      // subnormals (e == 0) have no implicit leading bit and share the scale of e == 1
      var significand := if e == 0 then m else 0x80_0000 + m;
      var magnitude := Scale(significand, (if e == 0 then 1 else e) - 150);
      Finite(if SignBit(w) == 1 then -magnitude else magnitude)
  }

  /** Python's `x != c` for a float32 `x` and a finite constant `c`: true for NaN. */
  predicate NotEqual(w: Word, c: real)
  {
    Value(w) != Finite(c)
  }

  /** `TAG_FLOAT` of readFlowFile.py. */
  const TagFloat: real := 202021.25
  /** The bytes "PIEH" read as a little-endian word. */
  const TagWord: Word := 0x4845_4950

  lemma Pow2Small()
    ensures Pow2(-5) == 1.0 / 32.0 && Pow2(-6) == 1.0 / 64.0 && Pow2(-7) == 1.0 / 128.0
  {
    assert Pow2(-1) == 0.5;
    assert Pow2(-2) == 0.25;
    assert Pow2(-3) == 0.125;
    assert Pow2(-4) == 1.0 / 16.0;
  }

  lemma TagWordValue()
    ensures Value(TagWord) == Finite(TagFloat)
  {
    assert ExponentField(TagWord) == 144 && FractionField(TagWord) == 0x45_4950;
    assert Scale(0xC5_4950, -6) == TagFloat;
    assert SignBit(TagWord) == 0;
  }

  lemma WordFields(w: Word)
    ensures w == SignBit(w) * 0x8000_0000 + ExponentField(w) * 0x80_0000 + FractionField(w)
    ensures SignBit(w) <= 1
  {
  }

  lemma ProductBounds(x: real, y: real, a: real, b: real)
    requires 0.0 <= a <= x && 0.0 <= b <= y
    ensures a * b <= x * y
  {
    assert a * b <= x * b;
  }

  /** A normal float32 with significand `mm` in [2^23, 2^24) equals TAG_FLOAT only
      with biased exponent 144. */
  lemma {:induction false} TagExponent(e: int, mm: real)
    requires 1 <= e < 0xFF
    requires 8388608.0 <= mm < 16777216.0
    requires mm * Pow2(e - 150) == TagFloat
    ensures e == 144
  {
    Pow2Small();
    var p := Pow2(e - 150);
    if e < 144 {
      Pow2Monotone(e - 150, -7);
      ProductBounds(16777216.0, 1.0 / 128.0, mm, p);
    } else if e > 144 {
      Pow2Monotone(-5, e - 150);
      ProductBounds(mm, p, 8388608.0, 1.0 / 32.0);
    }
  }

  lemma {:induction false} SubnormalIsSmall(m: nat, x: int)
    requires m < 0x80_0000 && x <= -7
    ensures Scale(m, x) < TagFloat
  {
    ScaleIsProduct(m, x);
    Pow2Small();
    Pow2Monotone(x, -7);
    ProductBounds(8388608.0, 1.0 / 128.0, m as real, Pow2(x));
  }

  /** The float32 comparison with `TAG_FLOAT` succeeds for exactly one bit pattern,
      the one the writer emits as "PIEH". */
  lemma TagFloatExact(w: Word)
    ensures !NotEqual(w, TagFloat) <==> w == TagWord
  {
    TagWordValue();
    if Value(w) == Finite(TagFloat) {
      var e: int, m := ExponentField(w), FractionField(w);
      assert SignBit(w) == 0;
      if e == 0 {
        SubnormalIsSmall(m, 1 - 150);
      }
      ScaleIsProduct(0x80_0000 + m, e - 150);
      TagExponent(e, (0x80_0000 + m) as real);
      Pow2Small();
      assert m == 0x45_4950;
      WordFields(w);
    }
  }
}
