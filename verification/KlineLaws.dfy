/** Laws of bar replies: dates pack in order, printed bars parse back, closes are running
    sums, and no accepted reply is a proper prefix of another. */
module KlineLaws {
  import opened Wire
  import opened VarintCodec
  import opened Klines
  import WireNumber

  // ---------------------------------------------------------------- packed dates

  /** The lengths of the months in a year of 365 days. */
  const LENGTHS: seq<nat> := [31, 28, 31, 30, 31, 30, 31, 31, 30, 31, 30, 31]

  /** The Gregorian calendar, by a table: a date is a year of four digits, a month and a day
      of that month, February having one more in every fourth year, save in every hundredth,
      but again in every four hundredth. */
  predicate Gregorian(date: nat) {
    var year, month, day := date / 10000, date / 100 % 100, date % 100;
    && 1000 <= year <= 9999 && 1 <= month <= 12
    && 1 <= day <= LENGTHS[month - 1]
                   + if month == 2 && (year % 400 == 0 || (year % 4 == 0 && year % 100 != 0)) then 1 else 0
  }

  lemma CalendarDates(date: nat)
    ensures IsDate(date) <==> Gregorian(date)
  {
    assert 1000_0000 <= date <= 9999_9999 <==> 1000 <= date / 10000 <= 9999;
    var month := date / 100 % 100;
    hide Leap;
    LeapYears(date / 10000);
  }

  lemma LeapYears(year: nat)
    ensures Leap(year) <==> year % 400 == 0 || (year % 4 == 0 && year % 100 != 0)
  {
    if year % 400 == 0 {
      var q := year / 400;
      assert year == 4 * (100 * q);
    }
  }

  ghost predicate PackableDate(date: nat) {
    Gregorian(date) && 2004_0101 <= date <= 2035_1231
  }

  /** The periods of one, five, fifteen, thirty and sixty minutes. */
  predicate Intraday(period: nat) {
    period in {7, 0, 1, 2, 3}
  }

  function PackDate(date: nat): nat
    requires 2004_0000 <= date
  {
    (date / 10000 - 2004) * 2048 + date % 10000
  }

  /** Every Gregorian date from 2004-01-01 to 2035-12-31 fits the word and is recovered
      from it. */
  lemma PackedDate(date: nat)
    requires PackableDate(date)
    ensures PackDate(date) < 0x1_0000 && UnpackDate(PackDate(date)) == date
  {
    CalendarDates(date);
    MonthDayBelow(date);
    hide IsDate, Gregorian;
    var year, monthDay := date / 10000, date % 10000;
    assert PackDate(date) / 2048 == year - 2004 && PackDate(date) % 2048 == monthDay;
  }

  /** The packing keeps the order of dates. */
  lemma PackedOrder(date: nat, other: nat)
    requires PackableDate(date) && PackableDate(other)
    ensures PackDate(date) < PackDate(other) <==> date < other
  {
    CalendarDates(date);
    CalendarDates(other);
    MonthDayBelow(date);
    MonthDayBelow(other);
    hide IsDate, Gregorian;
    var year, monthDay := date / 10000, date % 10000;
    var otherYear, otherMonthDay := other / 10000, other % 10000;
    assert date == year * 10000 + monthDay && other == otherYear * 10000 + otherMonthDay;
  }

  lemma MonthDayBelow(date: nat)
    requires IsDate(date)
    ensures 101 <= date % 10000 <= 1231
  {
    var upper, day := date / 100, date % 100;
    var year, month := upper / 100, upper % 100;
    assert date == year * 10000 + (month * 100 + day);
    assert date / 10000 == year;
  }

  /** Nothing else unpacks to a date: an accepted word is the packing of what it yields. */
  lemma UnpackedDates(encoded: nat)
    requires encoded < 0x1_0000 && IsDate(UnpackDate(encoded))
    ensures PackableDate(UnpackDate(encoded)) && PackDate(UnpackDate(encoded)) == encoded
  {
    var date := UnpackDate(encoded);
    CalendarDates(date);
    MonthDayBelow(date);
    hide IsDate, Gregorian;
    assert date / 10000 == encoded / 2048 + 2004 && date % 10000 == encoded % 2048;
  }

  function PutTime(time: Time, period: nat): bytes
    requires TimeFits(time, period)
  {
    if Intraday(period) then
      PackedDate(time.date);
      Put16(PackDate(time.date)) + Put16(time.minute)
    else Put32(time.date)
  }

  predicate TimeFits(time: Time, period: nat) {
    Gregorian(time.date) &&
    if Intraday(period) then 2004_0101 <= time.date <= 2035_1231 && time.minute <= 1439
    else time.minute == 900
  }

  lemma TimeRoundTrip(time: Time, period: nat, rest: bytes)
    requires TimeFits(time, period)
    ensures ParseTime(PutTime(time, period) + rest, period) == Ok(Parsed(time, rest))
  {
    CalendarDates(time.date);
    assert time.date < TWO_32 && (Packed(period) <==> Intraday(period));
    hide IsDate, Gregorian, Packed, Intraday;
    var s := PutTime(time, period) + rest;
    if Intraday(period) {
      PackedDate(time.date);
      var encoded := PackDate(time.date);
      hide PackDate, UnpackDate;
      var minute := Put16(time.minute) + rest;
      assert s == Put16(encoded) + minute && s[2..] == minute;
      Put16RoundTrip(encoded, minute);
      Put16RoundTrip(time.minute, rest);
      TakeAppend(PutTime(time, period), rest);
    } else {
      Put32RoundTrip(time.date, rest);
    }
  }

  // ---------------------------------------------------------------- bars

  /** A stock bar as it is sent: differences, not prices. */
  datatype Sent = Sent(time: Time, deltas: Deltas, turnover: Turnover)

  predicate CountsFit(counts: Counts, index: bool) {
    if index then counts.Counts? && counts.up < 0x1_0000 && counts.down < 0x1_0000
    else counts.NoCounts?
  }

  predicate TurnoverFits(t: Turnover, index: bool) {
    t.volume < TWO_32 && t.amount < TWO_32 && CountsFit(t.counts, index)
  }

  /** A volume word below the one for 2^63, as signed words compare. */
  predicate VolumeFits(word: nat) {
    word < TWO_32 && Signed32(word) < 0x5F00_0000
  }

  lemma TwoTo63()
    ensures WireNumber.TwoTo(63) == VOLUME_LIMIT
  {
    hide WireNumber.TwoTo;
    Seven(56);
    Seven(49);
    Seven(42);
    Seven(35);
    Seven(28);
    Seven(21);
    Seven(14);
    Seven(7);
    Seven(0);
    TwoToZero();
  }

  lemma TwoToZero()
    ensures WireNumber.TwoTo(0) == 1.0
  {
  }

  lemma Seven(e: nat)
    ensures WireNumber.TwoTo(e + 7) == 128.0 * WireNumber.TwoTo(e)
  {
    WireNumber.TwoToStep(e);
    WireNumber.TwoToStep(e + 1);
    WireNumber.TwoToStep(e + 2);
    WireNumber.TwoToStep(e + 3);
    WireNumber.TwoToStep(e + 4);
    WireNumber.TwoToStep(e + 5);
    WireNumber.TwoToStep(e + 6);
  }

  lemma VolumeLimitWord()
    ensures WireNumber.Decode(0x5F00_0000) == VOLUME_LIMIT
  {
    WireNumber.ClosedForm(0x5F00_0000);
    TwoTo63();
    hide WireNumber.Decode, WireNumber.TwoTo;
    assert Signed32(0x5F00_0000) / WireNumber.FRACTION == 190 && Signed32(0x5F00_0000) % WireNumber.FRACTION == 0;
  }

  /** The bound on the volume is one on its word. */
  lemma VolumeBound(word: nat)
    requires word < TWO_32
    ensures 0.0 <= WireNumber.Decode(word) < VOLUME_LIMIT <==> VolumeFits(word)
  {
    VolumeLimitWord();
    if word > 0 {
      WireNumber.DecodeIncreasing(word, 0x5F00_0000);
      WireNumber.DecodeIncreasing(0x5F00_0000, word);
      hide WireNumber.Decode;
      if Signed32(word) == Signed32(0x5F00_0000) {
        assert word == 0x5F00_0000;
      }
    }
  }

  function DeltaList(d: Deltas): seq<int> {
    [d.open, d.close, d.high, d.low]
  }

  ghost predicate SentFits(bar: Sent, args: Args) {
    && TimeFits(bar.time, args.period) && AllFit(DeltaList(bar.deltas))
    && TurnoverFits(bar.turnover, args.index)
  }

  function PutCounts(counts: Counts): bytes
    requires counts.Counts? ==> counts.up < 0x1_0000 && counts.down < 0x1_0000
  {
    if counts.NoCounts? then [] else Put16(counts.up) + Put16(counts.down)
  }

  function PutTurnover(t: Turnover, index: bool): bytes
    requires t.volume < TWO_32 && t.amount < TWO_32 && CountsFit(t.counts, index)
  {
    Put32(t.volume) + (Put32(t.amount) + PutCounts(t.counts))
  }

  function PutSent(bar: Sent, args: Args): bytes
    requires SentFits(bar, args)
  {
    PutTime(bar.time, args.period) + (PutSigned(DeltaList(bar.deltas)) + PutTurnover(bar.turnover, args.index))
  }

  lemma TurnoverRoundTrip(t: Turnover, index: bool, rest: bytes)
    requires TurnoverFits(t, index)
    ensures ParseTurnover(PutTurnover(t, index) + rest, index)
            == if VolumeFits(t.volume) then Ok(Parsed(t, rest)) else Err(BadVolume)
  {
    hide VolumeFits, WireNumber.Decode, Put16, Put32, Word16, Word32;
    VolumeBound(t.volume);
    var counts := PutCounts(t.counts) + rest;
    assert PutTurnover(t, index) + rest == Put32(t.volume) + (Put32(t.amount) + counts);
    Put32RoundTrip(t.volume, Put32(t.amount) + counts);
    Put32RoundTrip(t.amount, counts);
    if index {
      assert counts == Put16(t.counts.up) + (Put16(t.counts.down) + rest);
      Put16RoundTrip(t.counts.up, Put16(t.counts.down) + rest);
      Put16RoundTrip(t.counts.down, rest);
    } else {
      assert counts == rest;
    }
  }

  lemma BarRoundTrip(bar: Sent, args: Args, previous: int, rest: bytes)
    requires !args.expansion && SentFits(bar, args)
    ensures ParseBar(PutSent(bar, args) + rest, args, previous)
            == if VolumeFits(bar.turnover.volume)
               then Ok(Parsed(StockBar(bar.time, previous, bar.deltas, bar.turnover), rest))
               else Err(BadVolume)
  {
    hide VolumeFits;
    var turnover := PutTurnover(bar.turnover, args.index) + rest;
    var prices := PutSigned(DeltaList(bar.deltas)) + turnover;
    assert PutSent(bar, args) + rest == PutTime(bar.time, args.period) + prices;
    TimeRoundTrip(bar.time, args.period, prices);
    VarintsRoundTrip(DeltaList(bar.deltas), turnover);
    TurnoverRoundTrip(bar.turnover, args.index, rest);
  }

  ghost predicate AllFitBars(bars: seq<Sent>, args: Args) {
    forall k :: 0 <= k < |bars| ==> SentFits(bars[k], args)
  }

  /** The bars from `from` on, printed one after another. */
  function PutBars(bars: seq<Sent>, from: nat, args: Args): bytes
    requires AllFitBars(bars, args) && from <= |bars|
    decreases |bars| - from
  {
    if from == |bars| then [] else PutSent(bars[from], args) + PutBars(bars, from + 1, args)
  }

  /** Every volume from bar `from` on is below 2^63. */
  predicate VolumesFit(bars: seq<Sent>, from: nat)
    requires from <= |bars|
    decreases |bars| - from
  {
    from == |bars| || (VolumeFits(bars[from].turnover.volume) && VolumesFit(bars, from + 1))
  }

  /** The close after the first `k` bars: the running sum of the open and close
      differences. */
  function RunningClose(bars: seq<Sent>, k: nat): int
    requires k <= |bars|
  {
    if k == 0 then 0 else RunningClose(bars, k - 1) + bars[k - 1].deltas.open + bars[k - 1].deltas.close
  }

  /** The rows for bars `from` onwards, each measured from the running close before it. */
  function RowsFrom(bars: seq<Sent>, from: nat): seq<Bar>
    requires from <= |bars|
    requires forall k :: 0 <= k < |bars| ==> bars[k].turnover.volume < TWO_32 && bars[k].turnover.amount < TWO_32
    decreases |bars| - from
  {
    if from == |bars| then [] else
    [StockBar(bars[from].time, RunningClose(bars, from), bars[from].deltas, bars[from].turnover)]
    + RowsFrom(bars, from + 1)
  }

  lemma ParseBarsCons(s: bytes, left: nat, args: Args, previous: int, rows: seq<Bar>, bar: Bar, rest: bytes)
    ensures ParseBar(s, args, previous) == Ok(Parsed(bar, rest)) ==>
              ParseBars(s, left + 1, args, previous, rows) == ParseBars(rest, left, args, Closing(bar), rows + [bar])
  {
  }

  lemma ClosingOf(bars: seq<Sent>, k: nat)
    requires k < |bars| && bars[k].turnover.volume < TWO_32 && bars[k].turnover.amount < TWO_32
    ensures Closing(StockBar(bars[k].time, RunningClose(bars, k), bars[k].deltas, bars[k].turnover))
            == RunningClose(bars, k + 1)
  {
    hide WireNumber.Decode;
  }

  lemma {:induction false} BarsRoundTrip(bars: seq<Sent>, from: nat, args: Args, rows: seq<Bar>)
    requires !args.expansion && AllFitBars(bars, args) && from <= |bars|
    ensures ParseBars(PutBars(bars, from, args), |bars| - from, args, RunningClose(bars, from), rows)
            == if VolumesFit(bars, from) then Ok(Parsed(rows + RowsFrom(bars, from), [])) else Err(BadVolume)
    decreases |bars| - from
  {
    hide ParseBar, StockBar, PutSent, RunningClose, VolumeFits;
    if from == |bars| {
      assert rows + RowsFrom(bars, from) == rows;
    } else {
      var more, previous := PutBars(bars, from + 1, args), RunningClose(bars, from);
      var bar := StockBar(bars[from].time, previous, bars[from].deltas, bars[from].turnover);
      BarRoundTrip(bars[from], args, previous, more);
      ClosingOf(bars, from);
      ParseBarsStep(PutSent(bars[from], args) + more, |bars| - (from + 1), args, previous, rows);
      BarsRoundTrip(bars, from + 1, args, rows + [bar]);
      assert rows + [bar] + RowsFrom(bars, from + 1) == rows + ([bar] + RowsFrom(bars, from + 1));
    }
  }

  /** Printing bars and parsing the reply gives, bar for bar, the sent times and words, and
      prices measured from the running sum of the open and close differences; the reply is
      refused exactly when a volume is 2^63 or more. */
  lemma KlinesRoundTrip(bars: seq<Sent>, args: Args)
    requires !args.expansion && AllFitBars(bars, args) && |bars| <= args.count && |bars| < 0x1_0000
    ensures ReplyBars(Put16(|bars|) + PutBars(bars, 0, args), args)
            == if VolumesFit(bars, 0) then Ok(RowsFrom(bars, 0)) else Err(BadVolume)
  {
    hide ParseBars, RowsFrom, PutBars, VolumesFit, Put16, Word16;
    var data := Put16(|bars|) + PutBars(bars, 0, args);
    assert data[0..] == data;
    Put16RoundTrip(|bars|, PutBars(bars, 0, args));
    BarsRoundTrip(bars, 0, args, []);
    assert [] + RowsFrom(bars, 0) == RowsFrom(bars, 0);
  }

  /** The volume is the nearest integer to the number sent, half counting up; the amount is the
      number sent. */
  ghost predicate TurnoverReported(row: Bar, t: Turnover) {
    && t.volume < TWO_32 && t.amount < TWO_32
    && row.Stock? && row.amount == WireNumber.Decode(t.amount) && row.counts == t.counts
    && WireNumber.Decode(t.volume) - 0.5 < row.volume as real <= WireNumber.Decode(t.volume) + 0.5
  }

  lemma Reported(time: Time, previous: int, deltas: Deltas, t: Turnover)
    requires t.volume < TWO_32 && t.amount < TWO_32
    ensures TurnoverReported(StockBar(time, previous, deltas, t), t)
  {
    hide WireNumber.Decode;
  }

  lemma {:induction false} RowAt(bars: seq<Sent>, from: nat, k: nat)
    requires from <= k < |bars|
    requires forall j :: 0 <= j < |bars| ==> bars[j].turnover.volume < TWO_32 && bars[j].turnover.amount < TWO_32
    ensures var rows := RowsFrom(bars, from);
            && |rows| == |bars| - from
            && rows[k - from].Stock? && rows[k - from].close == RunningClose(bars, k + 1)
            && rows[k - from].open == RunningClose(bars, k) + bars[k].deltas.open
            && rows[k - from].high == rows[k - from].open + bars[k].deltas.high
            && rows[k - from].low == rows[k - from].open + bars[k].deltas.low
            && rows[k - from].time == bars[k].time
            && TurnoverReported(rows[k - from], bars[k].turnover)
    decreases k - from
  {
    hide WireNumber.Decode, TurnoverReported;
    Reported(bars[from].time, RunningClose(bars, from), bars[from].deltas, bars[from].turnover);
    RowsLength(bars, from);
    if from < k {
      RowAt(bars, from + 1, k);
    }
  }

  lemma {:induction false} RowsLength(bars: seq<Sent>, from: nat)
    requires from <= |bars|
    requires forall j :: 0 <= j < |bars| ==> bars[j].turnover.volume < TWO_32 && bars[j].turnover.amount < TWO_32
    ensures |RowsFrom(bars, from)| == |bars| - from
    decreases |bars| - from
  {
    if from < |bars| {
      RowsLength(bars, from + 1);
    }
  }

  /** A bar as a server holds it, with prices. */
  datatype Priced = Priced(time: Time, open: int, high: int, low: int, close: int, turnover: Turnover)

  /** The differences to send for the k-th of `bars`. */
  function Chained(bars: seq<Priced>, k: nat): Sent
    requires k < |bars|
  {
    var bar, previous := bars[k], if k == 0 then 0 else bars[k - 1].close;
    Sent(bar.time, Deltas(bar.open - previous, bar.close - bar.open, bar.high - bar.open, bar.low - bar.open),
         bar.turnover)
  }

  ghost predicate ChainOf(sent: seq<Sent>, bars: seq<Priced>) {
    |sent| == |bars| && forall k :: 0 <= k < |bars| ==> sent[k] == Chained(bars, k)
  }

  lemma {:induction false} ChainCloses(sent: seq<Sent>, bars: seq<Priced>, k: nat)
    requires ChainOf(sent, bars) && k <= |bars|
    ensures RunningClose(sent, k) == if k == 0 then 0 else bars[k - 1].close
  {
    if k > 0 {
      ChainCloses(sent, bars, k - 1);
      assert sent[k - 1] == Chained(bars, k - 1);
    }
  }

  /** Sending prices as the chain of differences and parsing the reply returns, for every
      bar, the same time, the same four prices, and the volume and amount sent. */
  lemma PricesRoundTrip(bars: seq<Priced>, sent: seq<Sent>, args: Args, k: nat)
    requires ChainOf(sent, bars) && k < |bars|
    requires !args.expansion && AllFitBars(sent, args) && |bars| <= args.count && |bars| < 0x1_0000
    requires VolumesFit(sent, 0)
    ensures var rows := ReplyBars(Put16(|sent|) + PutBars(sent, 0, args), args);
            && rows.Ok? && |rows.value| == |bars|
            && var row := rows.value[k];
               && row.Stock? && row.time == bars[k].time && row.open == bars[k].open
               && row.high == bars[k].high && row.low == bars[k].low && row.close == bars[k].close
               && TurnoverReported(row, bars[k].turnover)
  {
    hide ReplyBars, PutBars, RowsFrom, TurnoverReported, WireNumber.Decode, VolumeFits;
    KlinesRoundTrip(sent, args);
    RowAt(sent, 0, k);
    ChainCloses(sent, bars, k);
    ChainCloses(sent, bars, k + 1);
    assert sent[k] == Chained(bars, k);
  }

  // ---------------------------------------------------------------- contract bars

  /** A contract bar as it is sent: its seven words in the order of the wire. */
  datatype SentContract = SentContract(time: Time, words: seq<nat>)

  ghost predicate ContractFits(bar: SentContract, period: nat) {
    TimeFits(bar.time, period) && |bar.words| == 7 && AllWords(bar.words)
  }

  ghost predicate AllWords(words: seq<nat>) {
    forall i :: 0 <= i < |words| ==> words[i] < TWO_32
  }

  function PutWords(words: seq<nat>): (s: bytes)
    requires forall i :: 0 <= i < |words| ==> words[i] < TWO_32
    ensures |s| == 4 * |words|
  {
    if words == [] then [] else Put32(words[0]) + PutWords(words[1..])
  }

  function PutContract(bar: SentContract, period: nat): bytes
    requires ContractFits(bar, period)
  {
    PutTime(bar.time, period) + PutWords(bar.words)
  }

  lemma {:induction false} WordsRoundTrip(words: seq<nat>, rest: bytes)
    requires AllWords(words)
    ensures Words(PutWords(words) + rest, |words|) == Ok(Parsed(words, rest))
    decreases |words|
  {
    hide Put32, Word32;
    if words == [] {
      assert PutWords(words) + rest == rest;
    } else {
      var more := PutWords(words[1..]) + rest;
      assert PutWords(words) + rest == Put32(words[0]) + more;
      Put32RoundTrip(words[0], more);
      WordsRoundTrip(words[1..], rest);
      assert [words[0]] + words[1..] == words;
    }
  }

  lemma ContractRoundTrip(bar: SentContract, args: Args, previous: int, rest: bytes)
    requires args.expansion && ContractFits(bar, args.period)
    ensures ParseBar(PutContract(bar, args.period) + rest, args, previous)
            == Ok(Parsed(ContractBar(bar.time, bar.words), rest))
  {
    var words := PutWords(bar.words) + rest;
    assert PutContract(bar, args.period) + rest == PutTime(bar.time, args.period) + words;
    TimeRoundTrip(bar.time, args.period, words);
    WordsRoundTrip(bar.words, rest);
  }

  ghost predicate AllContracts(bars: seq<SentContract>, period: nat) {
    forall k :: 0 <= k < |bars| ==> ContractFits(bars[k], period)
  }

  function PutContracts(bars: seq<SentContract>, period: nat): bytes
    requires AllContracts(bars, period)
  {
    if bars == [] then [] else PutContract(bars[0], period) + PutContracts(bars[1..], period)
  }

  function ContractRows(bars: seq<SentContract>): seq<Bar>
    requires forall k :: 0 <= k < |bars| ==> |bars[k].words| == 7
  {
    if bars == [] then [] else [ContractBar(bars[0].time, bars[0].words)] + ContractRows(bars[1..])
  }

  lemma {:induction false} ContractRowsRoundTrip(bars: seq<SentContract>, args: Args, rows: seq<Bar>)
    requires args.expansion && AllContracts(bars, args.period)
    ensures ParseBars(PutContracts(bars, args.period), |bars|, args, 0, rows)
            == Ok(Parsed(rows + ContractRows(bars), []))
    decreases |bars|
  {
    hide ParseBar, PutContract;
    if bars == [] {
      assert rows + ContractRows(bars) == rows;
    } else {
      var more := PutContracts(bars[1..], args.period);
      var bar := ContractBar(bars[0].time, bars[0].words);
      ContractRoundTrip(bars[0], args, 0, more);
      ParseBarsCons(PutContract(bars[0], args.period) + more, |bars| - 1, args, 0, rows, bar, more);
      ContractRowsRoundTrip(bars[1..], args, rows + [bar]);
      assert rows + [bar] + ContractRows(bars[1..]) == rows + ([bar] + ContractRows(bars[1..]));
    }
  }

  /** Printing contract bars behind any header of 18 bytes and parsing the reply gives every
      time and word back, in the fields the words are for. */
  lemma ContractsRoundTrip(bars: seq<SentContract>, args: Args, header: bytes)
    requires args.expansion && AllContracts(bars, args.period) && |header| == 18
    requires |bars| <= args.count && |bars| < 0x1_0000
    ensures ReplyBars(header + (Put16(|bars|) + PutContracts(bars, args.period)), args) == Ok(ContractRows(bars))
  {
    hide PutContracts, ParseBars, ContractRows, Put16, Word16;
    var body := Put16(|bars|) + PutContracts(bars, args.period);
    assert (header + body)[18..] == body;
    Put16RoundTrip(|bars|, PutContracts(bars, args.period));
    ContractRowsRoundTrip(bars, args, []);
    assert [] + ContractRows(bars) == ContractRows(bars);
  }

  lemma {:induction false} ContractRowAt(bars: seq<SentContract>, k: nat)
    requires k < |bars| && forall j :: 0 <= j < |bars| ==> |bars[j].words| == 7
    ensures var rows, words := ContractRows(bars), bars[k].words;
            && |rows| == |bars| && rows[k].Contract? && rows[k].time == bars[k].time
            && rows[k].openWord == words[0] && rows[k].highWord == words[1] && rows[k].lowWord == words[2]
            && rows[k].closeWord == words[3] && rows[k].interest == words[4]
            && rows[k].contractVolume == words[5] && rows[k].auxiliary == words[6]
    decreases |bars|
  {
    if k > 0 {
      ContractRowAt(bars[1..], k - 1);
    } else if |bars| > 1 {
      ContractRowAt(bars[1..], 0);
    }
  }

  // ---------------------------------------------------------------- prefixes

  lemma TimeStable(s: bytes, more: bytes, period: nat)
    ensures Extends(ParseTime(s, period), more, ParseTime(s + more, period))
  {
    FixedWidthStable(s, more, 4);
  }

  lemma {:induction false} WordsStable(s: bytes, more: bytes, count: nat)
    ensures Extends(Words(s, count), more, Words(s + more, count))
    decreases count
  {
    if count > 0 {
      FixedWidthStable(s, more, 4);
      if U32(s).Ok? {
        WordsStable(U32(s).value.rest, more, count - 1);
      }
    }
  }

  lemma CountsStable(s: bytes, more: bytes, index: bool)
    ensures Extends(ParseCounts(s, index), more, ParseCounts(s + more, index))
  {
    FixedWidthStable(s, more, 2);
    if U16(s).Ok? {
      FixedWidthStable(U16(s).value.rest, more, 2);
    }
  }

  lemma TurnoverStable(s: bytes, more: bytes, index: bool)
    ensures Extends(ParseTurnover(s, index), more, ParseTurnover(s + more, index))
  {
    if ParseTurnover(s, index).Ok? {
      var volume := U32(s).value.rest;
      var amount := U32(volume).value.rest;
      FixedWidthStable(s, more, 4);
      FixedWidthStable(volume, more, 4);
      CountsStable(amount, more, index);
    }
  }

  lemma BarStable(s: bytes, more: bytes, args: Args, previous: int)
    ensures Extends(ParseBar(s, args, previous), more, ParseBar(s + more, args, previous))
  {
    if ParseBar(s, args, previous).Ok? {
      var time := ParseTime(s, args.period).value.rest;
      TimeStable(s, more, args.period);
      if args.expansion {
        WordsStable(time, more, 7);
      } else {
        VarintsStable(time, more, 4);
        TurnoverStable(Varints(time, 4).value.rest, more, args.index);
      }
    }
  }

  lemma {:induction false} BarsStable(s: bytes, more: bytes, count: nat, args: Args, previous: int, rows: seq<Bar>)
    ensures Extends(ParseBars(s, count, args, previous, rows), more, ParseBars(s + more, count, args, previous, rows))
    decreases count
  {
    hide ParseBar;
    if count > 0 {
      ParseBarsStep(s, count - 1, args, previous, rows);
      ParseBarsStep(s + more, count - 1, args, previous, rows);
      BarStable(s, more, args, previous);
      var bar := ParseBar(s, args, previous);
      if bar.Ok? {
        BarsStable(bar.value.rest, more, count - 1, args, Closing(bar.value.value), rows + [bar.value.value]);
      }
    }
  }

  /** No reply accepted under the same arguments is a proper prefix of another, stock or
      contract. */
  lemma KlinesPrefixFree(data: bytes, more: bytes, args: Args)
    ensures ReplyBars(data, args).Ok? && ReplyBars(data + more, args).Ok? ==> more == []
  {
    hide ParseBars;
    var header := if args.expansion then 18 else 0;
    var body := Body(data, header);
    if ReplyBars(data, args).Ok? {
      assert Body(data + more, header) == body + more;
      FixedWidthStable(body, more, 2);
      var count := U16(body).value;
      BarsStable(count.rest, more, count.value, args, 0, []);
    }
  }

  // ---------------------------------------------------------------- any accepted reply

  /** What holds of every row, whoever sent it. */
  ghost predicate Sound(row: Bar, args: Args) {
    && Gregorian(row.time.date) && row.time.minute <= 1439
    && (if Intraday(args.period) then 2004_0101 <= row.time.date <= 2035_1231 else row.time.minute == 900)
    && (args.expansion <==> row.Contract?)
    && (row.Stock? ==> 0 <= row.volume <= 0x8000_0000_0000_0000 && (args.index <==> row.counts.Counts?))
  }

  lemma TimeSound(s: bytes, period: nat)
    ensures var r := ParseTime(s, period);
            r.Ok? ==>
              && Gregorian(r.value.value.date) && r.value.value.minute <= 1439
              && (if Intraday(period) then 2004_0101 <= r.value.value.date <= 2035_1231
                  else r.value.value.minute == 900)
  {
    if ParseTime(s, period).Ok? {
      var date := ParseTime(s, period).value.value.date;
      CalendarDates(date);
      hide IsDate, Gregorian;
      if Intraday(period) {
        UnpackedDates(Word16(s[0], s[1]));
      }
    }
  }

  lemma VolumeSound(t: Turnover, time: Time, previous: int, deltas: Deltas)
    requires t.volume < TWO_32 && t.amount < TWO_32 && 0.0 <= WireNumber.Decode(t.volume) < VOLUME_LIMIT
    ensures 0 <= StockBar(time, previous, deltas, t).volume <= 0x8000_0000_0000_0000
  {
    hide WireNumber.Decode;
  }

  lemma BarSound(s: bytes, args: Args, previous: int)
    ensures var r := ParseBar(s, args, previous); r.Ok? ==> Sound(r.value.value, args)
  {
    hide Gregorian, WireNumber.Decode, Varints;
    TimeSound(s, args.period);
    var r := ParseBar(s, args, previous);
    if r.Ok? && !args.expansion {
      var time := ParseTime(s, args.period).value;
      var raw := Varints(time.rest, 4).value;
      var t := ParseTurnover(raw.rest, args.index).value.value;
      VolumeSound(t, time.value, previous, Deltas(raw.value[0], raw.value[1], raw.value[2], raw.value[3]));
    }
  }

  lemma {:induction false} BarsSound(s: bytes, count: nat, args: Args, previous: int, rows: seq<Bar>)
    requires forall k :: 0 <= k < |rows| ==> Sound(rows[k], args)
    ensures var r := ParseBars(s, count, args, previous, rows);
            r.Ok? ==> |r.value.value| == |rows| + count
                      && forall k :: 0 <= k < |r.value.value| ==> Sound(r.value.value[k], args)
    decreases count
  {
    hide ParseBar, Sound;
    if count > 0 {
      ParseBarsStep(s, count - 1, args, previous, rows);
      BarSound(s, args, previous);
      var bar := ParseBar(s, args, previous);
      if bar.Ok? {
        BarsSound(bar.value.rest, count - 1, args, Closing(bar.value.value), rows + [bar.value.value]);
      }
    }
  }

  /** Any accepted reply: as many rows as its count word says, no more than asked for, each
      with a date of the calendar and a minute of the day, and a volume that is not negative. */
  lemma AcceptedBars(data: bytes, args: Args)
    ensures ReplyBars(data, args).Ok? ==>
              var rows, header := ReplyBars(data, args).value, if args.expansion then 18 else 0;
              && |data| >= header + 2 && |rows| == Word16(data[header], data[header + 1]) <= args.count
              && forall k :: 0 <= k < |rows| ==> Sound(rows[k], args)
  {
    hide ParseBars, Sound, Word16;
    if ReplyBars(data, args).Ok? {
      var count := U16(Body(data, if args.expansion then 18 else 0)).value;
      BarsSound(count.rest, count.value, args, 0, []);
    }
  }
}
