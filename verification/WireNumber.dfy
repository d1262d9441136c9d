/** The 32-bit number format of quotes and bars (`wire_number`), and IEEE 754 binary32
    for comparison. Every intermediate value of the source is a dyadic rational that a
    double holds exactly, so reals lose nothing. */
module WireNumber {
  import opened Wire

  /** 2 to the power `e`. */
  function TwoTo(e: int): (p: real)
    ensures p > 0.0
    decreases if e < 0 then -e else e
  {
    if e == 0 then 1.0 else if e > 0 then 2.0 * TwoTo(e - 1) else TwoTo(e + 1) / 2.0
  }

  const FRACTION := 0x80_0000  // 2^23

  /** The source's formula: an arithmetic shift for the exponent, then three bytes whose
      weights depend on how the first of them compares with 128. */
  function Decode(bits: nat): real
    requires bits < TWO_32
  {
    if bits == 0 then 0.0
    else Formula(Signed32(bits) / 0x100_0000, bits / 0x1_0000 % 256, bits / 256 % 256, bits % 256)
  }

  function Formula(exponent: int, high: byte, middle: byte, low: byte): real {
    var base := TwoTo(exponent * 2 - 127);
    var top := if high > 128 then base * (64 + high % 128) as real / 64.0
               else base * high as real / 128.0;
    var scale := if high >= 128 then 2.0 else 1.0;
    base + top + base * middle as real / 32768.0 * scale + base * low as real / 8388608.0 * scale
  }

  /** 2^e * (1 + fraction / 2^23). */
  function Scaled(e: int, fraction: nat): real {
    TwoTo(e) * (1.0 + fraction as real / 8388608.0)
  }

  lemma TwoToStep(e: int)
    ensures TwoTo(e + 1) == 2.0 * TwoTo(e)
  {
  }

  /** Four bytes of a word, most significant first: the signed reading cut at bit 24 and
      at bit 23. */
  lemma SignedBytes(bits: nat, top: byte, high: byte, middle: byte, low: byte)
    requires bits == top * 0x100_0000 + high * 0x1_0000 + middle * 256 + low
    ensures var s, signedTop := Signed32(bits), if top >= 128 then top - 256 else top;
            && s / 0x100_0000 == signedTop
            && s / FRACTION == signedTop * 2 + high / 128
            && s % FRACTION == high % 128 * 0x1_0000 + middle * 256 + low
  {
    var s, signedTop := Signed32(bits), if top >= 128 then top - 256 else top;
    assert s == signedTop * 0x100_0000 + (high * 0x1_0000 + middle * 256 + low);
    var fraction := high % 128 * 0x1_0000 + middle * 256 + low;
    assert s == (signedTop * 2 + high / 128) * FRACTION + fraction;
  }

  lemma SignedParts(bits: nat)
    requires bits < TWO_32
    ensures var s := Signed32(bits);
            var high, middle, low := bits / 0x1_0000 % 256, bits / 256 % 256, bits % 256;
            && s / FRACTION == s / 0x100_0000 * 2 + high / 128
            && s % FRACTION == high % 128 * 0x1_0000 + middle * 256 + low
  {
    var b1 := bits / 256;
    var b2 := b1 / 256;
    assert b2 == bits / 0x1_0000;
    SignedBytes(bits, b2 / 256, b2 % 256, b1 % 256, bits % 256);
  }

  lemma UpperHalf(base: real, high: real, middle: real, low: real)
    ensures base + base * (64.0 + high) / 64.0 + base * middle / 32768.0 * 2.0
              + base * low / 8388608.0 * 2.0
            == 2.0 * base * (1.0 + (high * 65536.0 + middle * 256.0 + low) / 8388608.0)
  {
    var h, m, l := base * high, base * middle, base * low;
    assert base * (64.0 + high) == 64.0 * base + h;
    assert base * (high * 65536.0 + middle * 256.0 + low) == h * 65536.0 + m * 256.0 + l;
  }

  lemma LowerHalf(base: real, high: real, middle: real, low: real)
    ensures base + base * high / 128.0 + base * middle / 32768.0 + base * low / 8388608.0
            == base * (1.0 + (high * 65536.0 + middle * 256.0 + low) / 8388608.0)
  {
    var h, m, l := base * high, base * middle, base * low;
    assert base * (high * 65536.0 + middle * 256.0 + low) == h * 65536.0 + m * 256.0 + l;
  }

  lemma FractionAsReal(high: nat, middle: nat, low: nat)
    ensures (high * 0x1_0000 + middle * 256 + low) as real
            == high as real * 65536.0 + middle as real * 256.0 + low as real
    ensures (64 + high) as real == 64.0 + high as real
  {
  }

  lemma FormulaClosed(exponent: int, high: byte, middle: byte, low: byte)
    ensures Formula(exponent, high, middle, low)
            == Scaled(exponent * 2 + high / 128 - 127, high % 128 * 0x1_0000 + middle * 256 + low)
  {
    var base := TwoTo(exponent * 2 - 127);
    FractionAsReal(high % 128, middle, low);
    if high >= 128 {
      assert high % 128 == high - 128 && high / 128 == 1;
      TwoToStep(exponent * 2 - 127);
      UpperHalf(base, (high - 128) as real, middle as real, low as real);
    } else {
      assert high % 128 == high && high / 128 == 0;
      LowerHalf(base, high as real, middle as real, low as real);
    }
  }

  /** With s the signed reading of a nonzero word, the value is
      2^(s div 2^23 - 127) * (1 + (s mod 2^23) / 2^23). */
  lemma ClosedForm(bits: nat)
    requires 0 < bits < TWO_32
    ensures var s := Signed32(bits); Decode(bits) == Scaled(s / FRACTION - 127, s % FRACTION)
  {
    SignedParts(bits);
    FormulaClosed(Signed32(bits) / 0x100_0000, bits / 0x1_0000 % 256, bits / 256 % 256, bits % 256);
  }

  // ---------------------------------------------------------------- order

  lemma {:induction false} TwoToMonotone(low: int, high: int)
    requires low <= high
    ensures TwoTo(low) <= TwoTo(high)
    decreases high - low
  {
    if low < high {
      TwoToStep(high - 1);
      TwoToMonotone(low, high - 1);
    }
  }

  lemma ScaledBounds(e: int, fraction: nat)
    requires fraction < FRACTION
    ensures TwoTo(e) <= Scaled(e, fraction) < TwoTo(e + 1)
  {
    TwoToStep(e);
    var f := fraction as real / 8388608.0;
    assert 0.0 <= f < 1.0;
    assert TwoTo(e) * f >= 0.0;
    assert TwoTo(e) * (1.0 - f) > 0.0;
  }

  lemma ScaledIncreasing(e: int, low: nat, high: nat)
    requires low < high
    ensures Scaled(e, low) < Scaled(e, high)
  {
    var gap := (high - low) as real / 8388608.0;
    assert gap > 0.0;
    assert TwoTo(e) * gap > 0.0;
  }

  /** Every nonzero word decodes to a positive number, and the value is strictly
      increasing in the signed reading of the word. */
  lemma DecodeIncreasing(a: nat, b: nat)
    requires 0 < a < TWO_32 && 0 < b < TWO_32
    ensures Decode(a) > 0.0
    ensures Signed32(a) < Signed32(b) ==> Decode(a) < Decode(b)
  {
    var s, t := Signed32(a), Signed32(b);
    ClosedForm(a);
    ClosedForm(b);
    ScaledBounds(s / FRACTION - 127, s % FRACTION);
    ScaledBounds(t / FRACTION - 127, t % FRACTION);
    if s < t {
      if s / FRACTION == t / FRACTION {
        ScaledIncreasing(s / FRACTION - 127, s % FRACTION, t % FRACTION);
      } else {
        TwoToMonotone(s / FRACTION - 126, t / FRACTION - 127);
      }
    }
  }

  // ---------------------------------------------------------------- IEEE 754 binary32

  datatype Number = Finite(value: real) | NotFinite

  /** IEEE 754-2019, section 3.4: the datum a binary32 word stands for. Infinities and
      NaNs, biased exponent 255, are `NotFinite`. */
  function Binary32(bits: nat): Number
    requires bits < TWO_32
  {
    var biased, fraction := bits / FRACTION % 256, bits % FRACTION;
    var magnitude := if biased == 0 then Subnormal(biased - 126, fraction)
                     else Scaled(biased - 127, fraction);
    if biased == 255 then NotFinite
    else Finite(if bits >= TWO_31 then -magnitude else magnitude)
  }

  function Subnormal(e: int, fraction: nat): (v: real)
    ensures v >= 0.0
  {
    TwoTo(e) * (fraction as real / 8388608.0)
  }

  /** The format agrees with binary32 on zero and on the positive normal words, and on no
      other word. */
  lemma AgreesWithBinary32(bits: nat)
    requires bits < TWO_32
    ensures Binary32(bits) == Finite(Decode(bits))
            <==> bits == 0 || FRACTION <= bits < 0x7F80_0000
  {
    if bits > 0 {
      ClosedForm(bits);
      DecodeIncreasing(bits, bits);
      if bits >= TWO_31 {
        NegativeWord(bits);
      } else if bits >= FRACTION {
        PositiveNormal(bits);
      } else {
        assert bits / FRACTION == 0 && bits % FRACTION == bits;
        SubnormalApart(-127, bits);
      }
    }
  }

  lemma PositiveNormal(bits: nat)
    requires FRACTION <= bits < TWO_31
    ensures Binary32(bits)
            == if bits < 0x7F80_0000 then Finite(Scaled(bits / FRACTION - 127, bits % FRACTION))
               else NotFinite
  {
    assert 1 <= bits / FRACTION < 256;
  }

  lemma NegativeWord(bits: nat)
    requires TWO_31 <= bits < TWO_32
    ensures Binary32(bits).Finite? ==> Binary32(bits).value <= 0.0
  {
    ScaledBounds(bits / FRACTION % 256 - 127, bits % FRACTION);
  }

  lemma SubnormalApart(e: int, fraction: nat)
    requires fraction < FRACTION
    ensures Subnormal(e + 1, fraction) != Scaled(e, fraction)
  {
    var f := fraction as real / 8388608.0;
    TwoToStep(e);
    assert TwoTo(e) * (1.0 - f) > 0.0;
    assert TwoTo(e + 1) * f == 2.0 * (TwoTo(e) * f);
  }
}
