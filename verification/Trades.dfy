/** Trade replies (`parse_trades`): each stock price is the one before it plus a
    difference. */
module Trades {
  import opened Wire
  import opened Cursor
  import opened VarintCodec
  import WireNumber

  /** Prices are raw; the program divides them by a power of ten that depends on the code. */
  datatype Trade =
    | Stock(index: nat, minute: nat, price: int, volume: int, orders: int, status: int, tail: int)
    | Contract(index: nat, minute: nat, priceRaw: nat, contracts: nat, interestChange: int, nature: nat)

  datatype Args = Args(expansion: bool, dated: bool, count: nat, start: nat)

  /** The base price word of a dated stock reply, absent otherwise. */
  datatype Base = NoBase | Base(word: nat)

  datatype History = History(base: Base, rows: seq<Trade>)

  function ParseBase(s: bytes, args: Args): Result<Parsed<Base>> {
    if !args.dated || args.expansion then Ok(Parsed(NoBase, s)) else
    var word :- U32(s);
    :- Need(WireNumber.Binary32(word.value) != WireNumber.NotFinite, BadBase);
    Ok(Parsed(Base(word.value), word.rest))
  }

  function ParseMinute(s: bytes): Result<Parsed<nat>> {
    var minute :- U16(s);
    :- Need(minute.value <= 1439, BadMinute);
    Ok(minute)
  }

  /** A stock trade that follows one at `previous`: price difference, volume, orders,
      status, tail. */
  function StockTrade(index: nat, minute: nat, previous: int, raw: seq<int>): Result<Trade>
    requires |raw| == 5
  {
    var price := previous + raw[0];
    if price >= 0 && raw[1] >= 0 && raw[2] >= 0
    then Ok(Stock(index, minute, price, raw[1], raw[2], raw[3], raw[4]))
    else Err(NegativeTrade)
  }

  function ParseContract(s: bytes, index: nat, minute: nat): Result<Parsed<Trade>> {
    var raw :- Take(s, 14);
    var v := raw.value;
    var change := Signed32(Word32(v[8..12]));
    Ok(Parsed(Contract(index, minute, Word32(v[..4]), Word32(v[4..8]), change, Word16(v[12], v[13])), raw.rest))
  }

  function ParseTrade(s: bytes, args: Args, index: nat, previous: int): Result<Parsed<Trade>> {
    var minute :- ParseMinute(s);
    if args.expansion then ParseContract(minute.rest, index, minute.value) else
    var raw :- Varints(minute.rest, 5);
    var trade :- StockTrade(index, minute.value, previous, raw.value);
    Ok(Parsed(trade, raw.rest))
  }

  /** The price that the next trade is measured from. */
  function PriceAfter(trade: Trade): int {
    if trade.Stock? then trade.price else 0
  }

  function ParseRows(s: bytes, left: nat, args: Args, previous: int, rows: seq<Trade>): Result<Parsed<seq<Trade>>>
    decreases left
  {
    if left == 0 then Ok(Parsed(rows, s)) else
    var trade :- ParseTrade(s, args, args.start + |rows|, previous);
    ParseRows(trade.rest, left - 1, args, PriceAfter(trade.value), rows + [trade.value])
  }

  lemma ParseRowsStep(s: bytes, left: nat, args: Args, previous: int, rows: seq<Trade>)
    ensures var trade := ParseTrade(s, args, args.start + |rows|, previous);
            ParseRows(s, left + 1, args, previous, rows)
            == if trade.Err? then Err(trade.error)
               else ParseRows(trade.value.rest, left, args, PriceAfter(trade.value.value), rows + [trade.value.value])
  {
    hide ParseTrade, PriceAfter;
  }

  function ReplyTrades(data: bytes, args: Args): Result<History> {
    var count :- U16(Body(data, if args.expansion then 14 else 0));
    :- Need(count.value <= args.count, TooManyRecords);
    var base :- ParseBase(count.rest, args);
    var rows :- ParseRows(base.rest, count.value, args, 0, []);
    :- Need(rows.rest == [], Residue);
    Ok(History(base.value, rows.value))
  }

  // ---------------------------------------------------------------- the parser as it runs

  method ReadBase(reader: Reader, args: Args) returns (r: Result<Base>)
    requires reader.offset <= |reader.data|
    modifies reader`offset
    ensures Reads(r, ParseBase(old(reader.Unread()), args), reader.Unread())
    ensures r.Ok? ==> reader.offset <= |reader.data|
  {
    if !args.dated || args.expansion {
      return Ok(NoBase);
    }
    var word :- reader.U32();
    :- Need(WireNumber.Binary32(word) != WireNumber.NotFinite, BadBase);
    r := Ok(Base(word));
  }

  method ReadTrade(reader: Reader, args: Args, index: nat, previous: int) returns (r: Result<Trade>)
    requires reader.offset <= |reader.data|
    modifies reader`offset
    ensures Reads(r, ParseTrade(old(reader.Unread()), args, index, previous), reader.Unread())
    ensures r.Ok? ==> reader.offset <= |reader.data|
  {
    hide Varints, StockTrade, Word32, Word16, Signed32;
    var minute :- reader.U16();
    :- Need(minute <= 1439, BadMinute);
    if args.expansion {
      var v :- reader.Take(14);
      var change := Signed32(Word32(v[8..12]));
      r := Ok(Contract(index, minute, Word32(v[..4]), Word32(v[4..8]), change, Word16(v[12], v[13])));
    } else {
      var raw :- ReadVarints(reader, 5);
      r := StockTrade(index, minute, previous, raw);
    }
  }

  method ReadRows(reader: Reader, count: nat, args: Args) returns (r: Result<seq<Trade>>)
    requires reader.offset <= |reader.data|
    modifies reader`offset
    ensures Reads(r, ParseRows(old(reader.Unread()), count, args, 0, []), reader.Unread())
    ensures r.Ok? ==> reader.offset <= |reader.data|
  {
    hide ParseTrade, PriceAfter;
    var rows: seq<Trade>, price := [], 0;
    ghost var spec := ParseRows(reader.Unread(), count, args, price, rows);
    for left := count downto 0
      invariant reader.offset <= |reader.data|
      invariant ParseRows(reader.Unread(), left, args, price, rows) == spec
    {
      ParseRowsStep(reader.Unread(), left, args, price, rows);
      var trade :- ReadTrade(reader, args, args.start + |rows|, price);
      price := PriceAfter(trade);
      rows := rows + [trade];
    }
    r := Ok(rows);
  }

  method ParseTrades(data: bytes, args: Args) returns (r: Result<History>)
    ensures r == ReplyTrades(data, args)
  {
    hide ParseRows, ParseBase;
    var reader := new Reader(data, if args.expansion then 14 else 0);
    var count :- reader.U16();
    :- Need(count <= args.count, TooManyRecords);
    var base :- ReadBase(reader, args);
    var rows :- ReadRows(reader, count, args);
    :- reader.End();
    r := Ok(History(base, rows));
  }
}
