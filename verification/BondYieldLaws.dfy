/** How good the yield is, and that yields fall as prices rise. */
module BondYieldLaws {
  import opened Arithmetic
  import opened Options
  import opened BondFlows
  import BondFlowLaws
  import opened BondYield

  // ---------------------------------------------------------------- one search

  /** Half of `width`, `steps` times. */
  function Halved(width: real, steps: nat): real
    decreases steps
  {
    if steps == 0 then width else Halved(width / 2.0, steps - 1)
  }

  /** The values at the ends enclose the price. */
  ghost predicate Brackets(value: Valuation, price: real, low: real, high: real) {
    && low <= high && value(low).Some? && value(high).Some?
    && value(high).value <= price <= value(low).value
  }

  /** Halving keeps the price between the values at the ends, keeps the interval inside the
      one it started from, and halves it exactly. No assumption on the valuation. */
  lemma {:induction false} BisectBrackets(value: Valuation, price: real, low: real, high: real, steps: nat)
    requires Brackets(value, price, low, high)
    ensures match Bisect(value, price, low, high, steps)
            case None => true
            case Some(interval) =>
              && Brackets(value, price, interval.0, interval.1)
              && low <= interval.0 && interval.1 <= high
              && interval.1 - interval.0 == Halved(high - low, steps)
    decreases steps
  {
    if steps > 0 {
      var middle := (low + high) / 2.0;
      assert middle - low == (high - low) / 2.0 && high - middle == (high - low) / 2.0;
      var v := value(middle);
      if v.Some? {
        if v.value > price {
          BisectBrackets(value, price, middle, high, steps - 1);
        } else {
          BisectBrackets(value, price, low, middle, steps - 1);
        }
      }
    }
  }

  /** A middle that is worth exactly the price becomes the upper end: the lower end that is
      left is worth more than the price, unless it never moved. */
  lemma {:induction false} BisectTies(value: Valuation, price: real, low: real, high: real, steps: nat)
    ensures match Bisect(value, price, low, high, steps)
            case None => true
            case Some(interval) =>
              && (interval.0 == low || (value(interval.0).Some? && value(interval.0).value > price))
              && (interval.1 == high || (value(interval.1).Some? && value(interval.1).value <= price))
    decreases steps
  {
    if steps > 0 {
      var middle := (low + high) / 2.0;
      var v := value(middle);
      if v.Some? {
        if v.value > price {
          BisectTies(value, price, middle, high, steps - 1);
        } else {
          BisectTies(value, price, low, middle, steps - 1);
        }
      }
    }
  }

  /** A higher rate is worth strictly less, wherever both values exist. */
  ghost predicate Decreasing(value: Valuation) {
    forall a, b :: Falls(value, a, b)
  }

  ghost predicate Falls(value: Valuation, a: real, b: real) {
    a < b && value(a).Some? && value(b).Some? ==> value(a).value > value(b).value
  }

  /** For a strictly decreasing valuation an exact solution never leaves the interval. */
  lemma {:induction false} RootStays(value: Valuation, price: real, low: real, high: real, steps: nat, root: real)
    requires Decreasing(value) && low <= root <= high && value(root) == Some(price)
    ensures match Bisect(value, price, low, high, steps)
            case None => true
            case Some(interval) => interval.0 <= root <= interval.1
    decreases steps
  {
    if steps > 0 {
      var middle := (low + high) / 2.0;
      var v := value(middle);
      assert Falls(value, middle, root) && Falls(value, root, middle);
      if v.Some? {
        if v.value > price {
          RootStays(value, price, middle, high, steps - 1, root);
        } else {
          RootStays(value, price, low, middle, steps - 1, root);
        }
      }
    }
  }

  lemma {:induction false} HalvedPow2(width: real, steps: nat)
    ensures Halved(width, steps) * Pow2(steps) as real == width
    decreases steps
  {
    if steps > 0 {
      HalvedPow2(width / 2.0, steps - 1);
      var h, p := Halved(width, steps), Pow2(steps - 1) as real;
      assert h * p == width / 2.0;
      assert h * (2.0 * p) == 2.0 * (h * p);
    }
  }

  function Distance(y: real, root: real): real {
    if y < root then root - y else y - root
  }

  /** After `steps` halvings the middle is within width / 2^(steps + 1) of an exact
      solution, if the valuation is strictly decreasing. */
  lemma SearchAccurate(value: Valuation, price: real, low: real, high: real, steps: nat, root: real)
    requires Decreasing(value) && Brackets(value, price, low, high)
    requires low <= root <= high && value(root) == Some(price)
    requires Bisect(value, price, low, high, steps).Some?
    ensures Distance(Middle(Bisect(value, price, low, high, steps).value), root) * Pow2(steps + 1) as real
            <= high - low
  {
    BisectBrackets(value, price, low, high, steps);
    RootStays(value, price, low, high, steps, root);
    HalvedPow2(high - low, steps);
    hide Bisect, Halved, Decreasing, Pow2, Brackets;
    var interval := Bisect(value, price, low, high, steps).value;
    Centred(interval.0, interval.1, root);
    ScaleUp(Distance(Middle(interval), root), interval.1 - interval.0, steps);
  }

  /** If the valuation is strictly decreasing and some rate in the interval meets the price
      exactly, the yield found is within 10.999999 / 2^161 of it. */
  lemma YieldAccurate(value: Valuation, price: real, root: real)
    requires Decreasing(value) && -0.999999 <= root <= 10.0 && value(root) == Some(price)
    requires Yield(value, price).Some?
    ensures Distance(Yield(value, price).value, root) * Pow2(161) as real <= 10.999999
  {
    hide Bisect, Decreasing, Pow2;
    SearchAccurate(value, price, LOW, HIGH, STEPS, root);
  }

  /** The middle of an interval is within half its width of any point in it. */
  lemma Centred(low: real, high: real, root: real)
    requires low <= root <= high
    ensures 2.0 * Distance(Middle((low, high)), root) <= high - low
  {
  }

  lemma ScaleUp(error: real, width: real, steps: nat)
    requires 2.0 * error <= width
    ensures error * Pow2(steps + 1) as real <= width * Pow2(steps) as real
  {
    PowPositive(steps);
    var p := Pow2(steps) as real;
    assert Pow2(steps + 1) as real == 2.0 * p;
    assert (width - 2.0 * error) * p >= 0.0;
    assert error * (2.0 * p) == 2.0 * error * p;
  }

  lemma {:induction false} PowPositive(n: nat)
    ensures Pow2(n) > 0
  {
    if n > 0 {
      PowPositive(n - 1);
    }
  }

  lemma {:induction false} BisectAnswers(value: Valuation, price: real, low: real, high: real, steps: nat)
    requires low <= high && forall r :: low <= r <= high ==> value(r).Some?
    ensures Bisect(value, price, low, high, steps).Some?
    decreases steps
  {
    if steps > 0 {
      var middle := (low + high) / 2.0;
      BisectAnswers(value, price, middle, high, steps - 1);
      BisectAnswers(value, price, low, middle, steps - 1);
    }
  }

  /** Where every rate has a value, a yield is found exactly for the positive prices between
      the values at the two ends. */
  lemma YieldExists(value: Valuation, price: real)
    requires forall r :: -0.999999 <= r <= 10.0 ==> value(r).Some?
    ensures Yield(value, price).Some? <==> price > 0.0 && Brackets(value, price, -0.999999, 10.0)
  {
    hide Bisect;
    BisectAnswers(value, price, LOW, HIGH, STEPS);
  }

  // ---------------------------------------------------------------- two searches

  lemma {:induction false} BisectInside(value: Valuation, price: real, low: real, high: real, steps: nat)
    requires low <= high
    ensures match Bisect(value, price, low, high, steps)
            case None => true
            case Some(interval) => low <= interval.0 <= interval.1 <= high
    decreases steps
  {
    if steps > 0 {
      var middle := (low + high) / 2.0;
      var v := value(middle);
      if v.Some? {
        if v.value > price {
          BisectInside(value, price, middle, high, steps - 1);
        } else {
          BisectInside(value, price, low, middle, steps - 1);
        }
      }
    }
  }

  /** Two searches over the same flows take the same halves until they part; the dearer
      one then stays below the cheaper one. */
  lemma {:induction false} BisectAntitone(value: Valuation, cheap: real, dear: real, low: real, high: real, steps: nat)
    requires low <= high && cheap <= dear
    requires Bisect(value, cheap, low, high, steps).Some? && Bisect(value, dear, low, high, steps).Some?
    ensures Middle(Bisect(value, dear, low, high, steps).value) <= Middle(Bisect(value, cheap, low, high, steps).value)
    decreases steps
  {
    if steps > 0 {
      var middle := (low + high) / 2.0;
      var v := value(middle).value;
      if v > dear {
        BisectAntitone(value, cheap, dear, middle, high, steps - 1);
      } else if v > cheap {
        BisectInside(value, dear, low, middle, steps - 1);
        BisectInside(value, cheap, middle, high, steps - 1);
      } else {
        BisectAntitone(value, cheap, dear, low, middle, steps - 1);
      }
    }
  }

  /** Of two prices for the same flows, both of them answered, the higher one never gets the
      higher yield, whatever the valuation. */
  lemma YieldAntitone(value: Valuation, cheap: real, dear: real)
    requires cheap <= dear && Yield(value, cheap).Some? && Yield(value, dear).Some?
    ensures Yield(value, dear).value <= Yield(value, cheap).value
  {
    hide Bisect;
    BisectAntitone(value, cheap, dear, LOW, HIGH, STEPS);
  }

  // ---------------------------------------------------------------- the valuation

  /** What is used of a power function: on positive bases it is positive and, for a positive
      exponent, strictly increasing in the base. */
  ghost predicate IsPower(power: Power) {
    forall a, b, years :: PowerRises(power, a, b, years)
  }

  ghost predicate PowerRises(power: Power, a: real, b: real, years: real) {
    0.0 < a < b && years > 0.0 && power(a, years).Some? && power(b, years).Some? ==>
      0.0 < power(a, years).value < power(b, years).value
  }

  /** Payments at positive times, none negative. */
  ghost predicate Payments(flows: seq<Flow>) {
    forall k :: 0 <= k < |flows| ==> flows[k].years > 0.0 && flows[k].amount >= 0.0
  }

  lemma SignOfFactor(x: real, factor: real)
    requires factor > 0.0
    ensures x * factor >= 0.0 ==> x >= 0.0
    ensures x * factor > 0.0 ==> x > 0.0
  {
  }

  lemma TermFalls(amount: real, small: real, large: real)
    requires 0.0 < small < large && amount >= 0.0
    ensures amount / large <= amount / small
    ensures amount > 0.0 ==> amount / large < amount / small
  {
    var x, y := amount / small, amount / large;
    assert x * small == amount && y * large == amount;
    SignOfFactor(x, small);
    assert (x - y) * large == x * (large - small);
    assert x >= 0.0 ==> x * (large - small) >= 0.0;
    assert x > 0.0 ==> x * (large - small) > 0.0;
    SignOfFactor(x - y, large);
  }

  /** From flow `k` on, a higher rate is worth no more, and less if a payment is positive. */
  lemma {:induction false} ValueFalls(flows: seq<Flow>, power: Power, a: real, b: real, k: nat, x: real, y: real)
    requires IsPower(power) && Payments(flows) && -1.0 < a < b && k <= |flows| && y <= x
    requires ValueFrom(flows, a, power, k, x).Some? && ValueFrom(flows, b, power, k, y).Some?
    ensures ValueFrom(flows, b, power, k, y).value <= ValueFrom(flows, a, power, k, x).value
    ensures (y < x || exists i :: k <= i < |flows| && flows[i].amount > 0.0) ==>
              ValueFrom(flows, b, power, k, y).value < ValueFrom(flows, a, power, k, x).value
    decreases |flows| - k
  {
    if k < |flows| {
      assert PowerRises(power, 1.0 + a, 1.0 + b, flows[k].years);
      var small, large := power(1.0 + a, flows[k].years).value, power(1.0 + b, flows[k].years).value;
      TermFalls(flows[k].amount, small, large);
      ValueFalls(flows, power, a, b, k + 1, x + flows[k].amount / small, y + flows[k].amount / large);
    }
  }

  /** Non-negative payments at positive times, not all of them zero, are worth strictly
      less at a higher rate. */
  lemma ValueDecreasing(flows: seq<Flow>, power: Power)
    requires IsPower(power) && Payments(flows)
    requires exists i :: 0 <= i < |flows| && flows[i].amount > 0.0
    ensures Decreasing(ValueAt(flows, power))
  {
    var value := ValueAt(flows, power);
    forall a, b
      ensures Falls(value, a, b)
    {
      if a < b && value(a).Some? && value(b).Some? {
        ValueFalls(flows, power, a, b, 0, 0.0, 0.0);
      }
    }
  }

  /** A single payment is worth its amount over the factor for its time, or nothing if the
      factor is missing or not positive. */
  lemma SingleValue(flow: Flow, rate: real, power: Power)
    requires rate > -1.0
    ensures var factor := power(1.0 + rate, flow.years);
            Value([flow], rate, power)
            == if factor.None? || factor.value <= 0.0 then None else Some(flow.amount / factor.value)
  {
    var factor := power(1.0 + rate, flow.years);
    assert factor.Some? && factor.value > 0.0 ==>
             ValueFrom([flow], rate, power, 1, 0.0 + flow.amount / factor.value) == Some(flow.amount / factor.value);
  }

  function Plus(left: Option<real>, right: Option<real>): Option<real> {
    if left.None? || right.None? then None else Some(left.value + right.value)
  }

  lemma {:induction false} ValueShift(flows: seq<Flow>, rate: real, power: Power, k: nat, value: real)
    requires k <= |flows|
    ensures ValueFrom(flows, rate, power, k, value) == Plus(Some(value), ValueFrom(flows[k..], rate, power, 0, 0.0))
    decreases |flows| - k
  {
    if k < |flows| {
      var factor := power(1.0 + rate, flows[k].years);
      assert flows[k..][0] == flows[k];
      if factor.Some? && factor.value > 0.0 {
        var term := flows[k].amount / factor.value;
        ValueShift(flows, rate, power, k + 1, value + term);
        ValueShift(flows[k..], rate, power, 1, term);
        assert flows[k..][1..] == flows[k + 1..];
        assert 0.0 + term == term;
      }
    }
  }

  lemma {:induction false} ValueAppend(left: seq<Flow>, right: seq<Flow>, rate: real, power: Power, k: nat, value: real)
    requires k <= |left|
    ensures ValueFrom(left + right, rate, power, k, value)
            == Plus(ValueFrom(left, rate, power, k, value), ValueFrom(right, rate, power, 0, 0.0))
    decreases |left| - k
  {
    if k == |left| {
      ValueShift(left + right, rate, power, k, value);
      assert (left + right)[k..] == right;
    } else {
      var factor := power(1.0 + rate, left[k].years);
      assert (left + right)[k] == left[k];
      if factor.Some? && factor.value > 0.0 {
        ValueAppend(left, right, rate, power, k + 1, value + left[k].amount / factor.value);
      }
    }
  }

  /** The payments of two lists together are worth the sum, or nothing if either list is. With
      the value of a single payment this determines every value. */
  lemma AdditiveValue(left: seq<Flow>, right: seq<Flow>, rate: real, power: Power)
    requires left != [] && right != []
    ensures Value(left + right, rate, power) == Plus(Value(left, rate, power), Value(right, rate, power))
  {
    hide ValueFrom;
    if rate > -1.0 {
      ValueAppend(left, right, rate, power, 0, 0.0);
    }
  }

  /** No payments, and a rate of minus one or less, have no value. */
  lemma NoValue(flows: seq<Flow>, rate: real, power: Power)
    requires flows == [] || rate <= -1.0
    ensures Value(flows, rate, power) == None
  {
  }

  /** At rate zero, where every power is one, the value is the plain sum of the payments. */
  lemma {:induction false} ValueAtZero(flows: seq<Flow>, power: Power, k: nat)
    requires flows != [] && k <= |flows|
    requires forall i :: 0 <= i < |flows| ==> power(1.0, flows[i].years) == Some(1.0)
    ensures ValueFrom(flows, 0.0, power, k, BondFlowLaws.Amounts(flows[..k]))
            == Some(BondFlowLaws.Amounts(flows))
    decreases |flows| - k
  {
    if k == |flows| {
      assert flows[..k] == flows;
    } else {
      assert flows[..k + 1] == flows[..k] + [flows[k]];
      BondFlowLaws.AmountsSnoc(flows[..k], flows[k]);
      assert flows[k].amount / 1.0 == flows[k].amount;
      ValueAtZero(flows, power, k + 1);
    }
  }

  lemma UndiscountedValue(flows: seq<Flow>, power: Power)
    requires flows != []
    requires forall i :: 0 <= i < |flows| ==> power(1.0, flows[i].years) == Some(1.0)
    ensures Value(flows, 0.0, power) == Some(BondFlowLaws.Amounts(flows))
  {
    ValueAtZero(flows, power, 0);
    assert flows[..0] == [];
  }

  // ---------------------------------------------------------------- a whole bond

  /** An ascending schedule with a positive face and no negative rate. */
  ghost predicate Sound(face: real, entries: seq<Entry>) {
    face > 0.0 && BondFlowLaws.Ascending(entries) && forall k :: 0 <= k < |entries| ==> entries[k].rate >= 0.0
  }

  lemma ProductNotNegative(x: real, y: real)
    requires x >= 0.0 && y >= 0.0
    ensures x * y >= 0.0
  {
  }

  lemma RemainingPayments(face: real, entries: seq<Entry>, current: int)
    requires Sound(face, entries) && RemainingFlows(face, entries, current) != []
    ensures var flows := RemainingFlows(face, entries, current);
            Payments(flows) && flows[|flows| - 1].amount > 0.0
  {
    hide RemainingFlows, BondFlowLaws.Ascending;
    var flows, m := RemainingFlows(face, entries, current), BondFlowLaws.FirstRemaining(entries, current, 0);
    forall i | 0 <= i < |flows|
      ensures flows[i].years > 0.0 && flows[i].amount >= (if i + 1 == |flows| then face else 0.0)
    {
      BondFlowLaws.AscendingFlows(face, entries, current, i, i);
      ProductNotNegative(face, entries[m + i].rate);
    }
  }

  /** For such a bond with payments still to come, any rate in the interval at which they
      are worth the price is met by the yield within 10.999999 / 2^161. */
  lemma BondYieldAccurate(face: real, entries: seq<Entry>, current: int, power: Power, price: real, root: real)
    requires IsPower(power) && Sound(face, entries) && RemainingFlows(face, entries, current) != []
    requires -0.999999 <= root <= 10.0 && Value(RemainingFlows(face, entries, current), root, power) == Some(price)
    requires Yield(ValueAt(RemainingFlows(face, entries, current), power), price).Some?
    ensures Distance(Yield(ValueAt(RemainingFlows(face, entries, current), power), price).value, root)
            * Pow2(161) as real <= 10.999999
  {
    hide RemainingFlows, Value, Yield, Pow2, Payments, Sound;
    var flows := RemainingFlows(face, entries, current);
    RemainingPayments(face, entries, current);
    ValueDecreasing(flows, power);
    YieldAccurate(ValueAt(flows, power), price, root);
  }
}
