/** What the remaining flows add up to. */
module BondFlowLaws {
  import opened Arithmetic
  import opened Csv
  import opened Options
  import opened BondFlows
  import CsvLaws

  function Amounts(flows: seq<Flow>): real {
    if flows == [] then 0.0 else Amounts(flows[..|flows| - 1]) + flows[|flows| - 1].amount
  }

  /** The rates of those of the first `k` entries that remain, added up. */
  function RemainingRates(entries: seq<Entry>, current: int, k: nat): real
    requires k <= |entries|
  {
    if k == 0 then 0.0 else
    RemainingRates(entries, current, k - 1) + if Remains(entries[k - 1], current) then entries[k - 1].rate else 0.0
  }

  function RemainingCoupons(face: real, entries: seq<Entry>, current: int, k: nat): real
    requires k <= |entries|
  {
    if k == 0 then 0.0 else
    RemainingCoupons(face, entries, current, k - 1)
    + if Remains(entries[k - 1], current) then Coupon(face, entries[k - 1]) else 0.0
  }

  predicate RepaysFace(entries: seq<Entry>, current: int) {
    entries != [] && Remains(entries[|entries| - 1], current)
  }

  lemma AmountsSnoc(flows: seq<Flow>, flow: Flow)
    ensures Amounts(flows + [flow]) == Amounts(flows) + flow.amount
  {
    assert (flows + [flow])[..|flows|] == flows;
  }

  lemma {:induction false} AmountsUpTo(face: real, entries: seq<Entry>, current: int, k: nat)
    requires k <= |entries|
    ensures Amounts(FlowsUpTo(face, entries, current, k))
            == RemainingCoupons(face, entries, current, k)
               + if k == |entries| && RepaysFace(entries, current) then face else 0.0
  {
    hide Coupon;
    if k > 0 {
      AmountsUpTo(face, entries, current, k - 1);
      if Remains(entries[k - 1], current) {
        AmountsSnoc(FlowsUpTo(face, entries, current, k - 1),
                    FlowOf(face, entries[k - 1], current, k == |entries|));
      }
    }
  }

  lemma Distribute(face: real, a: real, b: real)
    ensures face * (a + b) == face * a + face * b
  {
  }

  lemma {:induction false} CouponsFactor(face: real, entries: seq<Entry>, current: int, k: nat)
    requires k <= |entries|
    ensures RemainingCoupons(face, entries, current, k) == face * RemainingRates(entries, current, k)
  {
    if k > 0 {
      CouponsFactor(face, entries, current, k - 1);
      Distribute(face, RemainingRates(entries, current, k - 1), entries[k - 1].rate);
    }
  }

  /** The remaining payments add up to the face times the remaining rates, and once the face
      if and only if the last entry of the schedule is itself still to come. */
  lemma FlowsConserve(face: real, entries: seq<Entry>, current: int)
    ensures Amounts(RemainingFlows(face, entries, current))
            == face * RemainingRates(entries, current, |entries|)
               + if RepaysFace(entries, current) then face else 0.0
  {
    AmountsUpTo(face, entries, current, |entries|);
    CouponsFactor(face, entries, current, |entries|);
  }

  // ---------------------------------------------------------------- entry by entry

  /** An entry pays its rate of the face, the last one the face as well, after the days until
      then as parts of a year of 365. */
  function Payment(face: real, entry: Entry, current: int, last: bool): Flow
    requires entry.date.Some?
  {
    Flow((entry.date.value - current) as real / 365.0, if last then face * entry.rate + face else face * entry.rate)
  }

  /** The flows of a schedule from its front: those of the entries with a later date. */
  function FlowsOf(face: real, entries: seq<Entry>, current: int): seq<Flow> {
    if entries == [] then [] else
    var first, rest := entries[0], FlowsOf(face, entries[1..], current);
    if first.date.Some? && first.date.value > current
    then [Payment(face, first, current, |entries| == 1)] + rest
    else rest
  }

  lemma {:induction false} FlowsUpToOf(face: real, entries: seq<Entry>, current: int, k: nat)
    requires k <= |entries|
    ensures FlowsUpTo(face, entries, current, k) + FlowsOf(face, entries[k..], current)
            == RemainingFlows(face, entries, current)
    decreases |entries| - k
  {
    hide FlowsUpTo, RemainingFlows;
    if k == |entries| {
      AllFlows(face, entries, current);
      assert RemainingFlows(face, entries, current) + [] == RemainingFlows(face, entries, current);
    } else {
      FlowsUpToOf(face, entries, current, k + 1);
      assert entries[k..][1..] == entries[k + 1..] && entries[k..][0] == entries[k];
      FlowsUpToStep(face, entries, current, k);
      hide Payment;
      var rest := FlowsOf(face, entries[k + 1..], current);
      if entries[k].date.Some? && entries[k].date.value > current {
        var flow := Payment(face, entries[k], current, k + 1 == |entries|);
        assert FlowsOf(face, entries[k..], current) == [flow] + rest;
        assert FlowsUpTo(face, entries, current, k) + [flow] + rest
               == FlowsUpTo(face, entries, current, k) + ([flow] + rest);
      }
    }
  }

  lemma AllFlows(face: real, entries: seq<Entry>, current: int)
    ensures RemainingFlows(face, entries, current) == FlowsUpTo(face, entries, current, |entries|)
  {
  }

  lemma FlowsUpToStep(face: real, entries: seq<Entry>, current: int, k: nat)
    requires k < |entries|
    ensures var entry, before := entries[k], FlowsUpTo(face, entries, current, k);
            FlowsUpTo(face, entries, current, k + 1)
            == if entry.date.Some? && entry.date.value > current
               then before + [Payment(face, entry, current, k + 1 == |entries|)]
               else before
  {
    var entry := entries[k];
    if Remains(entry, current) {
      PaymentIs(face, entry, current, k + 1 == |entries|);
    }
    hide FlowOf, Payment;
    assert FlowsUpTo(face, entries, current, k + 1)
           == if Remains(entry, current)
              then FlowsUpTo(face, entries, current, k) + [FlowOf(face, entry, current, k + 1 == |entries|)]
              else FlowsUpTo(face, entries, current, k);
  }

  lemma PaymentIs(face: real, entry: Entry, current: int, last: bool)
    requires Remains(entry, current)
    ensures FlowOf(face, entry, current, last) == Payment(face, entry, current, last)
  {
  }

  /** The remaining flows are those of the schedule, entry by entry. */
  lemma FlowsExact(face: real, entries: seq<Entry>, current: int)
    ensures RemainingFlows(face, entries, current) == FlowsOf(face, entries, current)
  {
    hide RemainingFlows, FlowsOf;
    NoneUpTo(face, entries, current);
    FlowsUpToOf(face, entries, current, 0);
    assert entries[0..] == entries;
    assert [] + FlowsOf(face, entries, current) == FlowsOf(face, entries, current);
  }

  lemma NoneUpTo(face: real, entries: seq<Entry>, current: int)
    ensures FlowsUpTo(face, entries, current, 0) == []
  {
  }

  /** Every entry has the date of its own piece, if that is a date of at most 15 characters. */
  lemma DateOfEntry(dates: string, rates: string, reading: Reading, i: nat)
    ensures var entries, pieces := Schedule(dates, rates, reading), Pieces(dates);
            && |entries| <= |pieces|
            && (i < |entries| ==>
                  var piece := pieces[i];
                  && piece.offset + piece.length <= |dates|
                  && entries[i].date
                     == if piece.length <= 15 then reading.days(dates[piece.offset..piece.offset + piece.length])
                        else None)
  {
    hide Pieces, NumbersOf, PiecesFrom;
    var pieces := Pieces(dates);
    PiecesWithin(dates);
    if i < |Schedule(dates, rates, reading)| {
      assert First(pieces, FLOWS_MAX)[i] == pieces[i];
    }
  }

  lemma PiecesWithin(text: string)
    ensures AllWithin(text, Pieces(text))
  {
    InBounds(text, 0);
  }

  /** A piece reads as the number the C library finds in it, if it has at most 63 characters. */
  lemma NumberOfPiece(text: string, piece: Piece, number: string -> Option<real>)
    requires piece.offset + piece.length <= |text|
    ensures ReadNumber(text, piece, number)
            == if piece.length <= 63 then number(text[piece.offset..piece.offset + piece.length]) else None
  {
  }

  // ---------------------------------------------------------------- an array without room for all

  /** The flows that fit are those of the first so many entries: of all of them if there is
      room for every flow, and of fewer otherwise. */
  lemma {:induction false} FitsUpTo(face: real, entries: seq<Entry>, current: int, n: nat, capacity: nat)
    returns (k: nat)
    requires n <= |entries|
    ensures k <= n && First(FlowsUpTo(face, entries, current, n), capacity) == FlowsUpTo(face, entries, current, k)
    ensures k == n <==> capacity >= |FlowsUpTo(face, entries, current, n)|
    decreases n
  {
    hide FlowOf;
    if capacity >= |FlowsUpTo(face, entries, current, n)| {
      k := n;
      assert First(FlowsUpTo(face, entries, current, n), capacity) == FlowsUpTo(face, entries, current, n);
    } else {
      k := FitsUpTo(face, entries, current, n - 1, capacity);
      FlowsGrow(face, entries, current, n - 1, n);
      FirstOfPrefix(FlowsUpTo(face, entries, current, n - 1), FlowsUpTo(face, entries, current, n), capacity);
    }
  }

  lemma FirstOfPrefix<T>(shorter: seq<T>, longer: seq<T>, capacity: nat)
    requires shorter <= longer && capacity <= |shorter|
    ensures First(shorter, capacity) == First(longer, capacity)
  {
  }

  /** Each flow of the first `k` entries is that of a remaining entry among them, and repays
      the face only if that is the last entry of all. */
  lemma {:induction false} FlowSource(face: real, entries: seq<Entry>, current: int, k: nat, i: nat) returns (j: nat)
    requires k <= |entries| && i < |FlowsUpTo(face, entries, current, k)|
    ensures j < k && Remains(entries[j], current)
    ensures FlowsUpTo(face, entries, current, k)[i] == FlowOf(face, entries[j], current, j + 1 == |entries|)
    decreases k
  {
    hide FlowOf;
    if i < |FlowsUpTo(face, entries, current, k - 1)| {
      j := FlowSource(face, entries, current, k - 1, i);
      FlowsGrow(face, entries, current, k - 1, k);
    } else {
      j := k - 1;
    }
  }

  /** What is written into an array with room for `capacity` flows comes from the first `k`
      entries, all of them exactly if every remaining flow has room. It adds up to the face
      times the rates of these entries that remain, and once the face if and only if all
      flows have room and the last entry is still to come. */
  lemma WrittenConserve(face: real, entries: seq<Entry>, current: int, capacity: nat) returns (k: nat)
    ensures var flows := RemainingFlows(face, entries, current);
            && k <= |entries| && (k == |entries| <==> capacity >= |flows|)
            && First(flows, capacity) == FlowsUpTo(face, entries, current, k)
            && Amounts(First(flows, capacity))
               == face * RemainingRates(entries, current, k)
                  + if capacity >= |flows| && RepaysFace(entries, current) then face else 0.0
  {
    hide FlowsUpTo, RemainingRates;
    k := FitsUpTo(face, entries, current, |entries|, capacity);
    AmountsUpTo(face, entries, current, k);
    CouponsFactor(face, entries, current, k);
  }

  /** When not every remaining flow has room, none of those written repays the face. */
  lemma NoFaceWritten(face: real, entries: seq<Entry>, current: int, capacity: nat, i: nat) returns (j: nat)
    requires i < capacity < |RemainingFlows(face, entries, current)|
    ensures j + 1 < |entries| && Remains(entries[j], current)
    ensures First(RemainingFlows(face, entries, current), capacity)[i] == FlowOf(face, entries[j], current, false)
  {
    hide FlowsUpTo, FlowOf;
    var k := FitsUpTo(face, entries, current, |entries|, capacity);
    j := FlowSource(face, entries, current, k, i);
  }

  /** Two payments of a schedule in order, and room for one: the face of 100 is not repaid, and
      5 is all that is written, although the last entry is still to come. */
  lemma FaceCutOff()
    ensures var entries := [Entry(Some(20), 0.05), Entry(Some(30), 0.05)];
            && Ascending(entries) && RepaysFace(entries, 10)
            && Amounts(First(RemainingFlows(100.0, entries, 10), 1)) == 5.0
  {
    var entries := [Entry(Some(20), 0.05), Entry(Some(30), 0.05)];
    var one := FlowsUpTo(100.0, entries, 10, 1);
    assert one == [] + [FlowOf(100.0, entries[0], 10, false)];
    assert RemainingFlows(100.0, entries, 10) == one + [FlowOf(100.0, entries[1], 10, true)];
    assert First(RemainingFlows(100.0, entries, 10), 1) == one;
    AmountsSnoc([], FlowOf(100.0, entries[0], 10, false));
  }

  /** A schedule ends with the 64th date at the latest, and that date decides whether the face
      is repaid, whatever dates follow it. */
  lemma LastOfSchedule(dates: string, rates: string, reading: Reading, current: int)
    ensures var entries, pieces := Schedule(dates, rates, reading), Pieces(dates);
            && |entries| == Min(Min(|pieces|, |Numbers(rates, 64, reading.number)|), 64)
            && (entries != [] ==>
                  (RepaysFace(entries, current)
                   <==> Remains(Entry(ReadDate(dates, pieces[|entries| - 1], reading.days), 0.0), current)))
  {
    assert FLOWS_MAX == 64;
    hide Pieces, NumbersOf, ReadDate;
    NumbersLength(rates, First(Pieces(rates), FLOWS_MAX), reading.number);
  }

  lemma TwoRates(entries: seq<Entry>, current: int)
    requires |entries| == 2 && Remains(entries[0], current) && !Remains(entries[1], current)
    ensures RemainingRates(entries, current, 2) == entries[0].rate
    ensures RemainingFlows(1.0, entries, current) != []
  {
    assert RemainingRates(entries, current, 1) == RemainingRates(entries, current, 0) + entries[0].rate;
    assert FlowsUpTo(1.0, entries, current, 1) != [];
  }

  /** Two dates in the wrong order, or a last date that cannot be read: a payment remains, the
      face of 100 is not repaid, and 5 is all the flows add up to. */
  lemma FaceLost(last: Option<int>)
    requires last == Some(5) || last == None
    ensures var entries := [Entry(Some(20), 0.05), Entry(last, 0.05)];
            RemainingFlows(100.0, entries, 10) != [] && Amounts(RemainingFlows(100.0, entries, 10)) == 5.0
  {
    var entries := [Entry(Some(20), 0.05), Entry(last, 0.05)];
    TwoRates(entries, 10);
    FlowsConserve(100.0, entries, 10);
    assert FlowsUpTo(100.0, entries, 10, 1) != [];
  }

  /** Real dates, none before the one in front of it. */
  ghost predicate Ascending(entries: seq<Entry>) {
    && (forall k :: 0 <= k < |entries| ==> entries[k].date.Some?)
    && forall j, k :: 0 <= j < k < |entries| ==> entries[j].date.value <= entries[k].date.value
  }

  /** The first entry after `current`, in an ascending schedule. */
  function FirstRemaining(entries: seq<Entry>, current: int, k: nat): (m: nat)
    requires k <= |entries|
    ensures k <= m <= |entries|
    ensures forall i :: k <= i < m ==> !Remains(entries[i], current)
    ensures m < |entries| ==> Remains(entries[m], current)
    decreases |entries| - k
  {
    if k == |entries| || Remains(entries[k], current) then k else FirstRemaining(entries, current, k + 1)
  }

  /** In an ascending schedule the flows are, one for one, the entries after the date. */
  lemma {:induction false} FlowsFromFirst(face: real, entries: seq<Entry>, current: int, k: nat)
    requires Ascending(entries) && k <= |entries|
    ensures var m := FirstRemaining(entries, current, 0);
            var flows := FlowsUpTo(face, entries, current, k);
            && |flows| == (if k <= m then 0 else k - m)
            && (forall i :: m <= i < k ==>
                  Remains(entries[i], current)
                  && flows[i - m] == FlowOf(face, entries[i], current, i + 1 == |entries|))
    decreases k
  {
    if k > 0 {
      var m := FirstRemaining(entries, current, 0);
      FlowsFromFirst(face, entries, current, k - 1);
      if m < k {
        assert entries[m].date.value <= entries[k - 1].date.value;
      }
    }
  }

  lemma FlowParts(face: real, entry: Entry, current: int, last: bool)
    requires Remains(entry, current)
    ensures var flow := FlowOf(face, entry, current, last);
            flow.years > 0.0 && flow.amount == face * entry.rate + if last then face else 0.0
  {
  }

  lemma FlowTimes(face: real, earlier: Entry, later: Entry, current: int, first: bool, last: bool)
    requires Remains(earlier, current) && Remains(later, current) && earlier.date.value <= later.date.value
    ensures FlowOf(face, earlier, current, first).years <= FlowOf(face, later, current, last).years
  {
  }

  lemma FlowAt(face: real, entries: seq<Entry>, current: int, i: nat)
    requires Ascending(entries) && i < |RemainingFlows(face, entries, current)|
    ensures var m := FirstRemaining(entries, current, 0);
            var flows := RemainingFlows(face, entries, current);
            && |flows| == |entries| - m && Remains(entries[m + i], current)
            && flows[i] == FlowOf(face, entries[m + i], current, i + 1 == |flows|)
  {
    hide FlowOf, FlowsUpTo;
    var m := FirstRemaining(entries, current, 0);
    FlowsFromFirst(face, entries, current, |entries|);
    assert RemainingFlows(face, entries, current)[(m + i) - m]
           == FlowOf(face, entries[m + i], current, m + i + 1 == |entries|);
  }

  /** As many flows as entries after the date; none if there are none. */
  lemma FlowCount(face: real, entries: seq<Entry>, current: int)
    requires Ascending(entries)
    ensures |RemainingFlows(face, entries, current)| == |entries| - FirstRemaining(entries, current, 0)
  {
    FlowsFromFirst(face, entries, current, |entries|);
  }

  /** For an ascending schedule the flows are exactly the entries after the date, at
      positive times in order; only the last repays the face. */
  lemma AscendingFlows(face: real, entries: seq<Entry>, current: int, i: nat, j: nat)
    requires Ascending(entries) && i <= j < |RemainingFlows(face, entries, current)|
    ensures var m := FirstRemaining(entries, current, 0);
            var flows := RemainingFlows(face, entries, current);
            && |flows| == |entries| - m && Remains(entries[m + i], current)
            && flows[i].amount == face * entries[m + i].rate + (if i + 1 == |flows| then face else 0.0)
            && 0.0 < flows[i].years <= flows[j].years
  {
    hide FlowOf, RemainingFlows;
    var m, last := FirstRemaining(entries, current, 0), |RemainingFlows(face, entries, current)|;
    FlowAt(face, entries, current, i);
    FlowAt(face, entries, current, j);
    FlowParts(face, entries[m + i], current, i + 1 == last);
    if i == j {
      assert entries[m + i] == entries[m + j];
    } else {
      FlowTimes(face, entries[m + i], entries[m + j], current, i + 1 == last, j + 1 == last);
    }
  }

  /** If any of an ascending schedule remains, the payments add up to the face once and the
      face times the remaining rates. */
  lemma AscendingTotal(face: real, entries: seq<Entry>, current: int)
    requires Ascending(entries) && RemainingFlows(face, entries, current) != []
    ensures Amounts(RemainingFlows(face, entries, current))
            == face * (1.0 + RemainingRates(entries, current, |entries|))
  {
    hide FlowsUpTo, RemainingRates;
    FlowAt(face, entries, current, |RemainingFlows(face, entries, current)| - 1);
    assert RepaysFace(entries, current);
    FlowsConserve(face, entries, current);
    Distribute(face, 1.0, RemainingRates(entries, current, |entries|));
  }

  // ---------------------------------------------------------------- which rate goes with which date

  predicate Readable(text: string, piece: Piece, number: string -> Option<real>) {
    ReadNumber(text, piece, number).Some?
  }

  /** How many of the first `k` pieces read as numbers. */
  function ReadableCount(text: string, pieces: seq<Piece>, number: string -> Option<real>, k: nat): (n: nat)
    requires k <= |pieces|
    ensures n <= k
  {
    if k == 0 then 0
    else ReadableCount(text, pieces, number, k - 1) + if Readable(text, pieces[k - 1], number) then 1 else 0
  }

  /** The number that piece `i` gives stands in the list at the place that counts the
      readable pieces before it. */
  lemma {:induction false} NumberPlace(text: string, pieces: seq<Piece>, number: string -> Option<real>, i: nat)
    requires i < |pieces| && Readable(text, pieces[i], number)
    ensures var values, place := NumbersOf(text, pieces, number), ReadableCount(text, pieces, number, i);
            place < |values| && Some(values[place]) == ReadNumber(text, pieces[i], number)
    decreases |pieces|
  {
    hide ReadNumber;
    var last := |pieces| - 1;
    var fewer := pieces[..last];
    NumbersLength(text, fewer, number);
    CountPrefix(text, pieces, number, last, last);
    if i < last {
      NumberPlace(text, fewer, number, i);
      CountPrefix(text, pieces, number, last, i);
    }
  }

  lemma {:induction false} NumbersLength(text: string, pieces: seq<Piece>, number: string -> Option<real>)
    ensures |NumbersOf(text, pieces, number)| == ReadableCount(text, pieces, number, |pieces|)
    decreases |pieces|
  {
    if pieces != [] {
      var last := |pieces| - 1;
      NumbersLength(text, pieces[..last], number);
      CountPrefix(text, pieces, number, last, last);
    }
  }

  lemma {:induction false} CountPrefix(text: string, pieces: seq<Piece>, number: string -> Option<real>,
                                            last: nat, i: nat)
    requires i <= last <= |pieces|
    ensures ReadableCount(text, pieces[..last], number, i) == ReadableCount(text, pieces, number, i)
    decreases i
  {
    if i > 0 {
      CountPrefix(text, pieces, number, last, i - 1);
    }
  }

  lemma {:induction false} CountFull(text: string, pieces: seq<Piece>, number: string -> Option<real>, k: nat)
    requires k <= |pieces|
    ensures ReadableCount(text, pieces, number, k) == k
            <==> forall j :: 0 <= j < k ==> Readable(text, pieces[j], number)
    decreases k
  {
    hide Readable;
    if k > 0 {
      CountFull(text, pieces, number, k - 1);
    }
  }

  /** Dates are paired with the rates that can be read. A readable rate goes to the date that
      counts the readable ones before it: to its own date if and only if every rate before
      it can be read, and to an earlier one otherwise. The schedule ends with the shorter of
      the dates and the readable rates. */
  lemma RateOfDate(dates: string, rates: string, reading: Reading, i: nat)
    ensures var pieces, entries := First(Pieces(rates), FLOWS_MAX), Schedule(dates, rates, reading);
            && |entries| == Min(|First(Pieces(dates), FLOWS_MAX)|,
                                ReadableCount(rates, pieces, reading.number, |pieces|))
            && (i < |pieces| && Readable(rates, pieces[i], reading.number) ==>
                  var place := ReadableCount(rates, pieces, reading.number, i);
                  && (place < |entries| ==> Some(entries[place].rate) == ReadNumber(rates, pieces[i], reading.number))
                  && (place == i <==> forall j :: 0 <= j < i ==> Readable(rates, pieces[j], reading.number)))
  {
    var pieces := First(Pieces(rates), FLOWS_MAX);
    hide Pieces, First, ReadNumber, NumbersOf, ReadDate;
    NumbersLength(rates, pieces, reading.number);
    if i < |pieces| && Readable(rates, pieces[i], reading.number) {
      NumberPlace(rates, pieces, reading.number, i);
      CountFull(rates, pieces, reading.number, i);
    }
  }

  /** Dates "a,b" with rates "x,5" of which only 5 is a number: the date a gets the rate of b,
      b is dropped, and the face is repaid at a. */
  lemma RateShifted(reading: Reading, face: real)
    requires reading.number("x") == None && reading.number("5") == Some(5.0)
    requires reading.days("a") == Some(20)
    ensures Schedule("a,b", "x,5", reading) == [Entry(Some(20), 5.0)]
    ensures RemainingFlows(face, Schedule("a,b", "x,5", reading), 10) == [Flow(10.0 / 365.0, face * 5.0 + face)]
  {
    hide Schedule;
    ShiftedSchedule(reading);
    var entries := [Entry(Some(20), 5.0)];
    assert FlowsUpTo(face, entries, 10, 1) == [] + [FlowOf(face, entries[0], 10, true)];
  }

  lemma ShiftedSchedule(reading: Reading)
    requires reading.number("x") == None && reading.number("5") == Some(5.0)
    requires reading.days("a") == Some(20)
    ensures Schedule("a,b", "x,5", reading) == [Entry(Some(20), 5.0)]
  {
    TwoPieces("a,b");
    ShiftedNumbers(reading.number);
    var pieces := [Piece(0, 1), Piece(2, 1)];
    hide Pieces, Numbers;
    assert First(pieces, FLOWS_MAX) == pieces;
    assert TextOf("a,b", pieces[0]) == "a";
    assert Schedule("a,b", "x,5", reading) == [Entry(ReadDate("a,b", pieces[0], reading.days), 5.0)];
  }

  lemma ShiftedNumbers(number: string -> Option<real>)
    requires number("x") == None && number("5") == Some(5.0)
    ensures Numbers("x,5", FLOWS_MAX, number) == [5.0]
  {
    TwoPieces("x,5");
    var pieces := [Piece(0, 1), Piece(2, 1)];
    hide Pieces;
    assert First(pieces, FLOWS_MAX) == pieces;
    assert TextOf("x,5", pieces[0]) == "x" && TextOf("x,5", pieces[1]) == "5";
    assert pieces[..0] == [] && pieces[..2] == pieces;
    NothingRead("x,5", number);
    NumbersStep("x,5", pieces, 0, number);
    NumbersStep("x,5", pieces, 1, number);
    hide NumbersOf;
  }

  lemma TwoPieces(text: string)
    requires |text| == 3 && text[1] == ','
    requires text[0] != ',' && text[2] != ',' && !Blank(text[0]) && !Blank(text[2])
    ensures Pieces(text) == [Piece(0, 1), Piece(2, 1)]
  {
    hide PiecesFrom, FieldEnd, Trimmed;
    assert text[0..1] == [text[0]] && text[2..3] == [text[2]];
    CsvLaws.CleanField(text, 0, 1);
    CsvLaws.CleanField(text, 2, 3);
    FieldStep(text, 0, 1);
    FieldStep(text, 2, 3);
  }
}
