/** Discounting and the yield search (`tdx_bond_discounted_value`, `tdx_bond_solve_ytm`),
    over reals. The power function is a parameter; it is absent where the C library's
    result is not finite. */
module BondYield {
  import opened Options
  import opened BondFlows

  type Power = (real, real) -> Option<real>

  /** The value of flows `k` and later, added to `value`. */
  function ValueFrom(flows: seq<Flow>, rate: real, power: Power, k: nat, value: real): Option<real>
    requires k <= |flows|
    decreases |flows| - k
  {
    if k == |flows| then Some(value) else
    match power(1.0 + rate, flows[k].years)
    case None => None
    case Some(factor) =>
      if factor <= 0.0 then None
      else ValueFrom(flows, rate, power, k + 1, value + flows[k].amount / factor)
  }

  function Value(flows: seq<Flow>, rate: real, power: Power): Option<real> {
    if flows == [] || rate <= -1.0 then None else ValueFrom(flows, rate, power, 0, 0.0)
  }

  method DiscountedValue(flows: array?<Flow>, count: nat, rate: real, power: Power) returns (r: Option<real>)
    requires flows != null ==> count <= flows.Length
    ensures r == if flows == null then None else Value(flows[..count], rate, power)
  {
    if flows == null || count == 0 || rate <= -1.0 {
      return None;
    }
    var value := 0.0;
    for index := 0 to count
      invariant ValueFrom(flows[..count], rate, power, index, value) == Value(flows[..count], rate, power)
    {
      var factor := power(1.0 + rate, flows[index].years);
      if factor.None? || factor.value <= 0.0 {
        return None;
      }
      value := value + flows[index].amount / factor.value;
    }
    r := Some(value);
  }

  const LOW := -0.999999
  const HIGH := 10.0
  const STEPS := 160

  /** A valuation of the flows, as a function of the rate. */
  type Valuation = real -> Option<real>

  /** The interval after `steps` halvings; absent when a value is. */
  function Bisect(value: Valuation, price: real, low: real, high: real, steps: nat): Option<(real, real)>
    decreases steps
  {
    if steps == 0 then Some((low, high)) else
    var middle := (low + high) / 2.0;
    match value(middle)
    case None => None
    case Some(v) =>
      if v > price then Bisect(value, price, middle, high, steps - 1)
      else Bisect(value, price, low, middle, steps - 1)
  }

  lemma BisectStep(value: Valuation, price: real, low: real, high: real, left: nat)
    ensures var middle := (low + high) / 2.0;
            var v := value(middle);
            Bisect(value, price, low, high, left + 1)
            == if v.None? then None
               else if v.value > price then Bisect(value, price, middle, high, left)
               else Bisect(value, price, low, middle, left)
  {
  }

  lemma BisectDone(value: Valuation, price: real, low: real, high: real)
    ensures Bisect(value, price, low, high, 0) == Some((low, high))
  {
  }

  function Middle(interval: (real, real)): real {
    (interval.0 + interval.1) / 2.0
  }

  /** The price has to be positive and bracketed by the values at the ends. */
  function Yield(value: Valuation, price: real): Option<real> {
    if price <= 0.0 || value(LOW).None? || value(HIGH).None? then None
    else if value(LOW).value < price || value(HIGH).value > price then None
    else
      match Bisect(value, price, LOW, HIGH, STEPS)
      case None => None
      case Some(interval) => Some(Middle(interval))
  }

  function ValueAt(flows: seq<Flow>, power: Power): Valuation {
    rate => Value(flows, rate, power)
  }

  method SolveYtm(flows: array?<Flow>, count: nat, price: real, power: Power) returns (r: Option<real>)
    requires flows != null ==> count <= flows.Length
    ensures r == if flows == null then None else Yield(ValueAt(flows[..count], power), price)
  {
    hide Value, Bisect;
    if flows == null || count == 0 || price <= 0.0 {
      if flows != null && count == 0 {
        NoFlows(power, LOW);
        assert flows[..count] == [];
      }
      return None;
    }
    ghost var value := ValueAt(flows[..count], power);
    var low, high := LOW, HIGH;
    var lowValue := DiscountedValue(flows, count, low, power);
    var highValue := DiscountedValue(flows, count, high, power);
    if lowValue.None? || highValue.None? {
      return None;
    }
    if lowValue.value < price || highValue.value > price {
      return None;
    }
    ghost var search := Bisect(value, price, low, high, STEPS);
    for left := STEPS downto 0
      invariant Bisect(value, price, low, high, left) == search
    {
      BisectStep(value, price, low, high, left);
      var middle := (low + high) / 2.0;
      var v := DiscountedValue(flows, count, middle, power);
      if v.None? {
        return None;
      }
      if v.value > price {
        low := middle;
      } else {
        high := middle;
      }
    }
    BisectDone(value, price, low, high);
    r := Some((low + high) / 2.0);
  }

  lemma NoFlows(power: Power, rate: real)
    ensures Value([], rate, power) == None
  {
  }
}
