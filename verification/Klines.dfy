/** Bar replies (`parse_klines`): a packed date word, and prices as a chain of differences
    carried from bar to bar. */
module Klines {
  import opened Wire
  import opened Cursor
  import opened VarintCodec
  import WireNumber

  // ---------------------------------------------------------------- dates

  predicate Leap(year: int) {
    year % 4 == 0 && (year % 100 != 0 || year % 400 == 0)
  }

  function DaysIn(year: int, month: int): int {
    if month in {4, 6, 9, 11} then 30
    else if month == 2 then (if Leap(year) then 29 else 28)
    else 31
  }

  /** A Gregorian date written YYYYMMDD with eight digits. */
  predicate IsDate(date: int) {
    var year, month, day := date / 10000, date / 100 % 100, date % 100;
    1000_0000 <= date <= 9999_9999 && 1 <= month <= 12 && 1 <= day <= DaysIn(year, month)
  }

  datatype Time = Time(date: nat, minute: nat)

  /** Periods below a day, and period 7, pack the date in one word beside the minute. */
  predicate Packed(period: nat) {
    period < 4 || period == 7
  }

  function UnpackDate(encoded: nat): nat {
    (encoded / 2048 + 2004) * 10000 + encoded % 2048
  }

  function CheckTime(date: nat, minute: nat): Result<Time> {
    if !IsDate(date) then Err(BadDate)
    else if minute > 1439 then Err(BadMinute)
    else Ok(Time(date, minute))
  }

  function ParseTime(s: bytes, period: nat): Result<Parsed<Time>> {
    if Packed(period) then
      var words :- Take(s, 4);
      var encoded, minute := Word16(s[0], s[1]), Word16(s[2], s[3]);
      var time :- CheckTime(UnpackDate(encoded), minute);
      Ok(Parsed(time, words.rest))
    else
      var date :- U32(s);
      var time :- CheckTime(date.value, 900);
      Ok(Parsed(time, date.rest))
  }

  // ---------------------------------------------------------------- bars

  datatype Counts = NoCounts | Counts(up: nat, down: nat)

  /** Prices of a stock bar are raw thousandths; those of a contract are binary32 words. */
  datatype Bar =
    | Stock(time: Time, open: int, high: int, low: int, close: int,
            volume: int, amount: real, counts: Counts)
    | Contract(time: Time, openWord: nat, highWord: nat, lowWord: nat, closeWord: nat,
               contractVolume: nat, interest: nat, auxiliary: nat)

  datatype Args = Args(expansion: bool, count: nat, period: nat, index: bool)

  const VOLUME_LIMIT := 9223372036854775808.0  // 2^63

  datatype Deltas = Deltas(open: int, close: int, high: int, low: int)

  /** The words of a stock bar behind its prices. */
  datatype Turnover = Turnover(volume: nat, amount: nat, counts: Counts)

  function ParseCounts(s: bytes, index: bool): Result<Parsed<Counts>> {
    if !index then Ok(Parsed(NoCounts, s)) else
    var up :- U16(s);
    var down :- U16(up.rest);
    Ok(Parsed(Counts(up.value, down.value), down.rest))
  }

  function ParseTurnover(s: bytes, index: bool): (r: Result<Parsed<Turnover>>)
    ensures r.Ok? ==> r.value.value.volume < TWO_32 && r.value.value.amount < TWO_32
  {
    var volume :- U32(s);
    var amount :- U32(volume.rest);
    :- Need(0.0 <= WireNumber.Decode(volume.value) < VOLUME_LIMIT, BadVolume);
    var counts :- ParseCounts(amount.rest, index);
    Ok(Parsed(Turnover(volume.value, amount.value, counts.value), counts.rest))
  }

  /** The bar that follows one that closed at `previous`. */
  function StockBar(time: Time, previous: int, deltas: Deltas, t: Turnover): Bar
    requires t.volume < TWO_32 && t.amount < TWO_32
  {
    var open := previous + deltas.open;
    Stock(time, open, open + deltas.high, open + deltas.low, open + deltas.close,
          (WireNumber.Decode(t.volume) + 0.5).Floor, WireNumber.Decode(t.amount), t.counts)
  }

  /** Seven words: open, high, low, close, open interest, volume, auxiliary price. */
  function ContractBar(time: Time, words: seq<nat>): Bar
    requires |words| == 7
  {
    Contract(time, words[0], words[1], words[2], words[3], words[5], words[4], words[6])
  }

  function Words(s: bytes, count: nat): (r: Result<Parsed<seq<nat>>>)
    ensures r.Ok? ==> |r.value.value| == count
    decreases count
  {
    if count == 0 then Ok(Parsed([], s)) else
    var first :- U32(s);
    var rest :- Words(first.rest, count - 1);
    Ok(Parsed([first.value] + rest.value, rest.rest))
  }

  function ParseBar(s: bytes, args: Args, previous: int): Result<Parsed<Bar>> {
    var time :- ParseTime(s, args.period);
    if args.expansion then
      :- Need(|time.rest| >= 28, Truncated);
      var words :- Words(time.rest, 7);
      Ok(Parsed(ContractBar(time.value, words.value), words.rest))
    else
      var raw :- Varints(time.rest, 4);
      var turnover :- ParseTurnover(raw.rest, args.index);
      var deltas := Deltas(raw.value[0], raw.value[1], raw.value[2], raw.value[3]);
      Ok(Parsed(StockBar(time.value, previous, deltas, turnover.value), turnover.rest))
  }

  /** The close that the next bar is measured from. */
  function Closing(bar: Bar): int {
    if bar.Stock? then bar.close else 0
  }

  function ParseBars(s: bytes, count: nat, args: Args, previous: int, rows: seq<Bar>): Result<Parsed<seq<Bar>>>
    decreases count
  {
    if count == 0 then Ok(Parsed(rows, s)) else
    var bar :- ParseBar(s, args, previous);
    ParseBars(bar.rest, count - 1, args, Closing(bar.value), rows + [bar.value])
  }

  lemma ParseBarsStep(s: bytes, left: nat, args: Args, previous: int, rows: seq<Bar>)
    ensures var bar := ParseBar(s, args, previous);
            ParseBars(s, left + 1, args, previous, rows)
            == if bar.Err? then Err(bar.error)
               else ParseBars(bar.value.rest, left, args, Closing(bar.value.value), rows + [bar.value.value])
  {
  }

  function ReplyBars(data: bytes, args: Args): Result<seq<Bar>> {
    var count :- U16(Body(data, if args.expansion then 18 else 0));
    :- Need(count.value <= args.count, TooManyRecords);
    var bars :- ParseBars(count.rest, count.value, args, 0, []);
    :- Need(bars.rest == [], Residue);
    Ok(bars.value)
  }

  // ---------------------------------------------------------------- the parser as it runs

  method ReadTime(reader: Reader, period: nat) returns (r: Result<Time>)
    requires reader.offset <= |reader.data|
    modifies reader`offset
    ensures Reads(r, ParseTime(old(reader.Unread()), period), reader.Unread())
    ensures r.Ok? ==> reader.offset <= |reader.data|
  {
    if Packed(period) {
      var words :- reader.Take(4);
      var encoded, minute := Word16(words[0], words[1]), Word16(words[2], words[3]);
      var time :- CheckTime(UnpackDate(encoded), minute);
      r := Ok(time);
    } else {
      var date :- reader.U32();
      var time :- CheckTime(date, 900);
      r := Ok(time);
    }
  }

  method ReadTurnover(reader: Reader, index: bool) returns (r: Result<Turnover>)
    requires reader.offset <= |reader.data|
    modifies reader`offset
    ensures Reads(r, ParseTurnover(old(reader.Unread()), index), reader.Unread())
    ensures r.Ok? ==> reader.offset <= |reader.data| && r.value.volume < TWO_32 && r.value.amount < TWO_32
  {
    var volume :- reader.U32();
    var amount :- reader.U32();
    :- Need(0.0 <= WireNumber.Decode(volume) < VOLUME_LIMIT, BadVolume);
    if !index {
      return Ok(Turnover(volume, amount, NoCounts));
    }
    var up :- reader.U16();
    var down :- reader.U16();
    r := Ok(Turnover(volume, amount, Counts(up, down)));
  }

  method ReadWords(reader: Reader, count: nat) returns (r: Result<seq<nat>>)
    requires reader.offset + 4 * count <= |reader.data|
    modifies reader`offset
    ensures Reads(r, Words(old(reader.Unread()), count), reader.Unread())
    ensures r.Ok? ==> reader.offset <= |reader.data| && |r.value| == count
    decreases count
  {
    if count == 0 {
      return Ok([]);
    }
    var first :- reader.U32();
    var rest :- ReadWords(reader, count - 1);
    r := Ok([first] + rest);
  }

  method ReadBar(reader: Reader, args: Args, previous: int) returns (r: Result<Bar>)
    requires reader.offset <= |reader.data|
    modifies reader`offset
    ensures Reads(r, ParseBar(old(reader.Unread()), args, previous), reader.Unread())
    ensures r.Ok? ==> reader.offset <= |reader.data|
  {
    var time :- ReadTime(reader, args.period);
    if args.expansion {
      :- Need(|reader.data| - reader.offset >= 28, Truncated);
      var words :- ReadWords(reader, 7);
      r := Ok(ContractBar(time, words));
    } else {
      var raw :- ReadVarints(reader, 4);
      var turnover :- ReadTurnover(reader, args.index);
      r := Ok(StockBar(time, previous, Deltas(raw[0], raw[1], raw[2], raw[3]), turnover));
    }
  }

  method ReadBars(reader: Reader, count: nat, args: Args) returns (r: Result<seq<Bar>>)
    requires reader.offset <= |reader.data|
    modifies reader`offset
    ensures Reads(r, ParseBars(old(reader.Unread()), count, args, 0, []), reader.Unread())
    ensures r.Ok? ==> reader.offset <= |reader.data|
  {
    hide ParseBar, Closing;
    var rows: seq<Bar>, previous := [], 0;
    ghost var spec := ParseBars(reader.Unread(), count, args, previous, rows);
    for left := count downto 0
      invariant reader.offset <= |reader.data|
      invariant ParseBars(reader.Unread(), left, args, previous, rows) == spec
    {
      ParseBarsStep(reader.Unread(), left, args, previous, rows);
      var bar :- ReadBar(reader, args, previous);
      previous := Closing(bar);
      rows := rows + [bar];
    }
    r := Ok(rows);
  }

  method ParseKlines(data: bytes, args: Args) returns (r: Result<seq<Bar>>)
    ensures r == ReplyBars(data, args)
  {
    var reader := new Reader(data, if args.expansion then 18 else 0);
    var count :- reader.U16();
    :- Need(count <= args.count, TooManyRecords);
    var rows :- ReadBars(reader, count, args);
    :- reader.End();
    r := Ok(rows);
  }
}
