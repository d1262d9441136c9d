/** The cash flows of a bond after a date, and the interest accrued by it
    (`tdx_bond_remaining_flows`, `tdx_bond_accrued_interest`). */
module BondFlows {
  import opened Arithmetic
  import opened Options
  import opened Csv

  /** One future payment. */
  datatype Flow = Flow(years: real, amount: real)

  /** What lies outside this code: reading a number, and the day number of a calendar date
      (`tdx_bond_civil_days`), both absent for a text that is not one. */
  datatype Reading = Reading(number: string -> Option<real>, days: string -> Option<int>)

  /** A date of the schedule, if it is one, with the rate of the same index. */
  datatype Entry = Entry(date: Option<int>, rate: real)

  /** Texts of sixteen characters and more are not dates. */
  function ReadDate(text: string, piece: Piece, days: string -> Option<int>): Option<int> {
    if piece.length >= 16 then None else days(TextOf(text, piece))
  }

  function Schedule(dates: string, rates: string, reading: Reading): seq<Entry> {
    var pieces := First(Pieces(dates), FLOWS_MAX);
    var values := Numbers(rates, FLOWS_MAX, reading.number);
    seq(Min(|pieces|, |values|), i requires 0 <= i < Min(|pieces|, |values|) =>
      Entry(ReadDate(dates, pieces[i], reading.days), values[i]))
  }

  predicate Remains(entry: Entry, current: int) {
    entry.date.Some? && entry.date.value > current
  }

  function Coupon(face: real, entry: Entry): real {
    face * entry.rate
  }

  function FlowOf(face: real, entry: Entry, current: int, last: bool): Flow
    requires Remains(entry, current)
  {
    Flow((entry.date.value - current) as real / 365.0, Coupon(face, entry) + if last then face else 0.0)
  }

  /** The flows of the first `k` entries; only the last of all repays the face. */
  function FlowsUpTo(face: real, entries: seq<Entry>, current: int, k: nat): seq<Flow>
    requires k <= |entries|
  {
    if k == 0 then [] else
    var before := FlowsUpTo(face, entries, current, k - 1);
    if Remains(entries[k - 1], current)
    then before + [FlowOf(face, entries[k - 1], current, k == |entries|)] else before
  }

  function RemainingFlows(face: real, entries: seq<Entry>, current: int): seq<Flow> {
    FlowsUpTo(face, entries, current, |entries|)
  }

  lemma {:induction false} FlowsGrow(face: real, entries: seq<Entry>, current: int, j: nat, k: nat)
    requires j <= k <= |entries|
    ensures FlowsUpTo(face, entries, current, j) <= FlowsUpTo(face, entries, current, k)
    decreases k
  {
    if j < k {
      FlowsGrow(face, entries, current, j, k - 1);
    }
  }

  /** Fills `out` with the remaining flows, as far as it has room. */
  method WriteFlows(face: real, entries: seq<Entry>, current: int, out: array<Flow>, capacity: nat)
    returns (written: nat)
    requires 0 < capacity <= out.Length
    modifies out
    ensures written <= capacity
    ensures out[..written] == First(RemainingFlows(face, entries, current), capacity)
  {
    written := 0;
    for index := 0 to |entries|
      invariant written <= capacity
      invariant out[..written] == FlowsUpTo(face, entries, current, index)
    {
      var entry := entries[index];
      if entry.date.None? || entry.date.value <= current {
        continue;
      }
      if written >= capacity {
        FlowsGrow(face, entries, current, index, |entries|);
        return;
      }
      var amount := face * entry.rate;
      if index + 1 == |entries| {
        amount := amount + face;
      }
      ghost var before := out[..written];
      out[written] := Flow((entry.date.value - current) as real / 365.0, amount);
      assert out[written] == FlowOf(face, entry, current, index + 1 == |entries|);
      assert out[..written + 1] == before + [out[written]];
      written := written + 1;
    }
  }

  /** Pairs the pieces of the date list with the numbers of the rate list. */
  method ReadSchedule(dates: array?<char>, datesLength: nat, rates: array?<char>, ratesLength: nat,
                      reading: Reading) returns (entries: seq<Entry>)
    requires dates != null ==> datesLength <= dates.Length
    requires rates != null ==> ratesLength <= rates.Length
    ensures entries == if dates == null || rates == null then []
                       else Schedule(dates[..datesLength], rates[..ratesLength], reading)
  {
    hide Pieces, Numbers, NumbersOf;
    var pieces := new Piece[FLOWS_MAX];
    var values := new real[FLOWS_MAX];
    var dateCount := CsvPieces(dates, datesLength, pieces, FLOWS_MAX);
    var rateCount := CsvNumbers(rates, ratesLength, values, FLOWS_MAX, reading.number);
    if dates == null || rates == null {
      return [];
    }
    ghost var schedule := Schedule(dates[..datesLength], rates[..ratesLength], reading);
    var count := Min(dateCount, rateCount);
    entries := [];
    for index := 0 to count
      invariant entries == schedule[..index]
    {
      entries := entries + [Entry(ReadDate(dates[..datesLength], pieces[index], reading.days), values[index])];
    }
  }

  /** The whole command: nothing without a place to write or a real as-of date. */
  method BondRemainingFlows(face: real, dates: array?<char>, datesLength: nat, rates: array?<char>,
                            ratesLength: nat, asOf: string, reading: Reading, out: array?<Flow>,
                            capacity: nat) returns (written: nat)
    requires dates != null ==> datesLength <= dates.Length
    requires rates != null ==> ratesLength <= rates.Length
    requires out != null ==> capacity <= out.Length
    modifies if out == null then {} else {out}
    ensures (out == null || capacity == 0 || reading.days(asOf).None? || dates == null || rates == null) ==>
              written == 0
    ensures out != null && capacity > 0 && reading.days(asOf).Some? && dates != null && rates != null ==>
              var entries := Schedule(old(dates[..datesLength]), old(rates[..ratesLength]), reading);
              written <= capacity
              && out[..written] == First(RemainingFlows(face, entries, reading.days(asOf).value), capacity)
  {
    hide Schedule, RemainingFlows;
    if out == null || capacity == 0 {
      return 0;
    }
    var current := reading.days(asOf);
    if current.None? {
      return 0;
    }
    var entries := ReadSchedule(dates, datesLength, rates, ratesLength, reading);
    if entries == [] {
      NothingRemains(face, current.value);
      return 0;
    }
    written := WriteFlows(face, entries, current.value, out, capacity);
  }

  lemma NothingRemains(face: real, current: int)
    ensures RemainingFlows(face, [], current) == []
  {
  }

  /** Interest since the last coupon, at the first remaining rate; nothing when a date is
      not one, no rate is given, or the day lies outside the coupon period. */
  method AccruedInterest(face: real, lastCoupon: string, nextCoupon: string, asOf: string,
                         rates: array?<char>, ratesLength: nat, reading: Reading) returns (r: Option<real>)
    requires rates != null ==> ratesLength <= rates.Length
    ensures var previous, next, current :=
              reading.days(lastCoupon), reading.days(nextCoupon), reading.days(asOf);
            var values := if rates == null then [] else Numbers(rates[..ratesLength], FLOWS_MAX, reading.number);
            && (r.Some? <==> previous.Some? && next.Some? && current.Some? && values != []
                             && previous.value <= current.value <= next.value)
            && (r.Some? ==> 365.0 * r.value == face * values[0] * (current.value - previous.value) as real)
  {
    hide Numbers;
    var previous, next, current :=
      reading.days(lastCoupon), reading.days(nextCoupon), reading.days(asOf);
    if previous.None? || next.None? || current.None? {
      return None;
    }
    var values := new real[FLOWS_MAX];
    var count := CsvNumbers(rates, ratesLength, values, FLOWS_MAX, reading.number);
    if count == 0 {
      return None;
    }
    assert values[..count][0] == values[0];
    if current.value < previous.value || current.value > next.value {
      return None;
    }
    r := Some(face * values[0] * (current.value - previous.value) as real / 365.0);
  }
}
