/** Small arithmetic that several modules share. */
module Arithmetic {
  function Min(a: nat, b: nat): nat {
    if a < b then a else b
  }

  function Abs(n: int): nat {
    if n < 0 then -n else n
  }

  /** A left shift. */
  function Shl(value: nat, shift: nat): nat {
    if shift == 0 then value else 2 * Shl(value, shift - 1)
  }

  function Pow2(n: nat): nat {
    Shl(1, n)
  }

  lemma {:induction false} ShlSum(low: nat, high: nat, shift: nat)
    ensures Shl(low + high, shift) == Shl(low, shift) + Shl(high, shift)
  {
    if shift > 0 {
      ShlSum(low, high, shift - 1);
    }
  }

  lemma {:induction false} ShlMonotone(low: nat, high: nat, shift: nat)
    requires low < high
    ensures Shl(low, shift) < Shl(high, shift)
  {
    if shift > 0 {
      ShlMonotone(low, high, shift - 1);
    }
  }

  lemma {:induction false} ShlShl(value: nat, inner: nat, shift: nat)
    ensures Shl(Shl(value, inner), shift) == Shl(value, inner + shift)
  {
    if shift > 0 {
      ShlShl(value, inner, shift - 1);
    }
  }

  lemma ShlSeven(value: nat, shift: nat)
    ensures Shl(value, shift + 7) == Shl(128 * value, shift)
  {
    assert Shl(value, 1) == 2 * value;
    assert Shl(value, 2) == 4 * value;
    assert Shl(value, 4) == 4 * Shl(value, 2);
    assert Shl(value, 6) == 4 * Shl(value, 4);
    ShlShl(value, 7, shift);
  }

  /** Seven more bits on top of a value that fits below them: the source's bitwise "or"
      sets only clear bits, so it adds. */
  lemma GroupBelow(value: nat, group: nat, shift: nat)
    requires value < Pow2(shift) && group < 128
    ensures value + Shl(group, shift) < Pow2(shift + 7)
  {
    ShlSeven(1, shift);
    ShlSum(1, group, shift);
    if group + 1 < 128 {
      ShlMonotone(group + 1, 128, shift);
    }
  }

  lemma {:induction false} Pow2Grows(low: nat, high: nat)
    requires low <= high
    ensures Pow2(low) <= Pow2(high)
  {
    if low < high {
      Pow2Grows(low, high - 1);
    }
  }

  lemma ShlSix(value: nat)
    ensures Shl(value, 6) == 64 * value
  {
    assert Shl(value, 1) == 2 * value;
    assert Shl(value, 2) == 4 * value;
    assert Shl(value, 4) == 4 * Shl(value, 2);
    assert Shl(value, 6) == 4 * Shl(value, 4);
  }
}
