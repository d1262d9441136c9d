/** Laws of trade replies: the price chain, and prefix freeness. */
module TradeLaws {
  import opened Wire
  import opened VarintCodec
  import opened Trades
  import WireNumber

  /** A stock trade as it is sent. */
  datatype Sent = Sent(minute: nat, delta: int, volume: int, orders: int, status: int, tail: int)

  function Values(t: Sent): seq<int> {
    [t.delta, t.volume, t.orders, t.status, t.tail]
  }

  ghost predicate SentFits(t: Sent) {
    t.minute <= 1439 && AllFit(Values(t))
  }

  function PutTrade(t: Sent): bytes
    requires t.minute <= 1439
  {
    Put16(t.minute) + PutSigned(Values(t))
  }

  ghost predicate AllSent(trades: seq<Sent>) {
    forall k :: 0 <= k < |trades| ==> SentFits(trades[k])
  }

  /** The trades from `from` on, printed one after another. */
  function PutTrades(trades: seq<Sent>, from: nat): bytes
    requires AllSent(trades) && from <= |trades|
    decreases |trades| - from
  {
    if from == |trades| then [] else PutTrade(trades[from]) + PutTrades(trades, from + 1)
  }

  /** The price after the first `k` trades. */
  function PriceOf(trades: seq<Sent>, k: nat): int
    requires k <= |trades|
  {
    if k == 0 then 0 else PriceOf(trades, k - 1) + trades[k - 1].delta
  }

  /** No price, volume or order count is negative from trade `from` on. */
  predicate NoneNegative(trades: seq<Sent>, from: nat)
    requires from <= |trades|
    decreases |trades| - from
  {
    from == |trades| ||
    (PriceOf(trades, from + 1) >= 0 && trades[from].volume >= 0 && trades[from].orders >= 0
     && NoneNegative(trades, from + 1))
  }

  function RowsFrom(trades: seq<Sent>, from: nat, start: nat): seq<Trade>
    requires from <= |trades|
    decreases |trades| - from
  {
    if from == |trades| then [] else
    var t := trades[from];
    [Stock(start + from, t.minute, PriceOf(trades, from + 1), t.volume, t.orders, t.status, t.tail)]
    + RowsFrom(trades, from + 1, start)
  }

  lemma TradeRoundTrip(t: Sent, args: Args, index: nat, previous: int, rest: bytes)
    requires !args.expansion && SentFits(t)
    ensures ParseTrade(PutTrade(t) + rest, args, index, previous)
            == if previous + t.delta >= 0 && t.volume >= 0 && t.orders >= 0
               then Ok(Parsed(Stock(index, t.minute, previous + t.delta, t.volume, t.orders, t.status, t.tail), rest))
               else Err(NegativeTrade)
  {
    hide Varints, PutSigned;
    var values := PutSigned(Values(t)) + rest;
    assert PutTrade(t) + rest == Put16(t.minute) + values;
    Put16RoundTrip(t.minute, values);
    VarintsRoundTrip(Values(t), rest);
  }

  lemma {:induction false} RowsRoundTrip(trades: seq<Sent>, from: nat, args: Args, rows: seq<Trade>)
    requires !args.expansion && AllSent(trades) && from == |rows| <= |trades|
    ensures ParseRows(PutTrades(trades, from), |trades| - from, args, PriceOf(trades, from), rows)
            == if NoneNegative(trades, from) then Ok(Parsed(rows + RowsFrom(trades, from, args.start), []))
               else Err(NegativeTrade)
    decreases |trades| - from
  {
    hide ParseTrade, PutTrade;
    if from == |trades| {
      assert rows + RowsFrom(trades, from, args.start) == rows;
    } else {
      var t, more := trades[from], PutTrades(trades, from + 1);
      var row := Stock(args.start + from, t.minute, PriceOf(trades, from + 1), t.volume, t.orders, t.status, t.tail);
      TradeRoundTrip(t, args, args.start + from, PriceOf(trades, from), more);
      ParseRowsStep(PutTrade(t) + more, |trades| - (from + 1), args, PriceOf(trades, from), rows);
      RowsRoundTrip(trades, from + 1, args, rows + [row]);
      assert rows + [row] + RowsFrom(trades, from + 1, args.start)
             == rows + ([row] + RowsFrom(trades, from + 1, args.start));
    }
  }

  /** What each row says: the fields as sent, and for a price the running sum of the
      differences. */
  lemma {:induction false} RowAt(trades: seq<Sent>, from: nat, start: nat, k: nat)
    requires from <= k < |trades|
    ensures var rows, t := RowsFrom(trades, from, start), trades[k];
            && |rows| == |trades| - from
            && rows[k - from]
               == Stock(start + k, t.minute, PriceOf(trades, k + 1), t.volume, t.orders, t.status, t.tail)
    decreases |trades| - from
  {
    hide PriceOf;
    if from < k {
      RowAt(trades, from + 1, start, k);
    } else if k + 1 < |trades| {
      RowAt(trades, from + 1, start, k + 1);
    }
  }

  /** Printing undated trades and parsing the reply gives every field back, each price being
      the running sum of the differences; the reply is refused exactly when a price, a
      volume or an order count would be negative. */
  lemma TradesRoundTrip(trades: seq<Sent>, args: Args)
    requires !args.expansion && !args.dated && AllSent(trades)
    requires |trades| <= args.count && |trades| < 0x1_0000
    ensures ReplyTrades(Put16(|trades|) + PutTrades(trades, 0), args)
            == if NoneNegative(trades, 0) then Ok(History(NoBase, RowsFrom(trades, 0, args.start)))
               else Err(NegativeTrade)
  {
    hide ParseRows, RowsFrom, PutTrades, NoneNegative, Put16, Put32, Word16, Word32;
    var data := Put16(|trades|) + PutTrades(trades, 0);
    assert data[0..] == data;
    Put16RoundTrip(|trades|, PutTrades(trades, 0));
    RowsRoundTrip(trades, 0, args, []);
    assert [] + RowsFrom(trades, 0, args.start) == RowsFrom(trades, 0, args.start);
  }

  /** The same for a dated request, whose reply carries a base price word in front. */
  lemma DatedTradesRoundTrip(trades: seq<Sent>, base: nat, args: Args)
    requires !args.expansion && args.dated && AllSent(trades) && base < TWO_32
    requires |trades| <= args.count && |trades| < 0x1_0000
    ensures ReplyTrades(Put16(|trades|) + (Put32(base) + PutTrades(trades, 0)), args)
            == if WireNumber.Binary32(base) == WireNumber.NotFinite then Err(BadBase)
               else if NoneNegative(trades, 0) then Ok(History(Base(base), RowsFrom(trades, 0, args.start)))
               else Err(NegativeTrade)
  {
    hide ParseRows, RowsFrom, PutTrades, NoneNegative, WireNumber.Binary32, Put16, Put32, Word16, Word32;
    var rest := Put32(base) + PutTrades(trades, 0);
    var data := Put16(|trades|) + rest;
    assert data[0..] == data;
    Put16RoundTrip(|trades|, rest);
    Put32RoundTrip(base, PutTrades(trades, 0));
    RowsRoundTrip(trades, 0, args, []);
    assert [] + RowsFrom(trades, 0, args.start) == RowsFrom(trades, 0, args.start);
  }

  // ---------------------------------------------------------------- contract trades

  datatype SentContract = SentContract(minute: nat, price: nat, contracts: nat, change: int, nature: nat)

  predicate ContractFits(t: SentContract) {
    && t.minute <= 1439 && t.price < TWO_32 && t.contracts < TWO_32 && t.nature < 0x1_0000
    && -TWO_31 <= t.change < TWO_31
  }

  function PutContract(t: SentContract): bytes
    requires ContractFits(t)
  {
    Put16(t.minute) + PutFields(t)
  }

  function PutFields(t: SentContract): (s: bytes)
    requires ContractFits(t)
    ensures |s| == 14
  {
    Put32(t.price) + Put32(t.contracts) + Put32(Unsigned32(t.change)) + Put16(t.nature)
  }

  function RowOf(t: SentContract, index: nat): Trade {
    Contract(index, t.minute, t.price, t.contracts, t.change, t.nature)
  }

  lemma ContractRoundTrip(t: SentContract, args: Args, index: nat, previous: int, rest: bytes)
    requires args.expansion && ContractFits(t)
    ensures ParseTrade(PutContract(t) + rest, args, index, previous) == Ok(Parsed(RowOf(t, index), rest))
  {
    var change := Unsigned32(t.change);
    var fields := PutFields(t);
    assert PutContract(t) + rest == Put16(t.minute) + (fields + rest);
    Put16RoundTrip(t.minute, fields + rest);
    TakeAppend(fields, rest);
    Word32Put32(t.price);
    Word32Put32(t.contracts);
    Word32Put32(change);
    Put16RoundTrip(t.nature, []);
    SignedUnsigned(t.change);
    hide Put16, Put32, Word16, Word32, Signed32;
    assert fields[..4] == Put32(t.price) && fields[4..8] == Put32(t.contracts) && fields[8..12] == Put32(change);
    assert fields[12] == Put16(t.nature)[0] && fields[13] == Put16(t.nature)[1];
    assert Put16(t.nature) + [] == Put16(t.nature);
  }

  ghost predicate AllContracts(trades: seq<SentContract>) {
    forall k :: 0 <= k < |trades| ==> ContractFits(trades[k])
  }

  function PutContracts(trades: seq<SentContract>): bytes
    requires AllContracts(trades)
  {
    if trades == [] then [] else PutContract(trades[0]) + PutContracts(trades[1..])
  }

  function ContractRows(trades: seq<SentContract>, index: nat): seq<Trade> {
    if trades == [] then [] else [RowOf(trades[0], index)] + ContractRows(trades[1..], index + 1)
  }

  lemma {:induction false} ContractRowAt(trades: seq<SentContract>, index: nat, k: nat)
    requires k < |trades|
    ensures |ContractRows(trades, index)| == |trades| && ContractRows(trades, index)[k] == RowOf(trades[k], index + k)
    decreases |trades|
  {
    if k > 0 {
      ContractRowAt(trades[1..], index + 1, k - 1);
    } else if |trades| > 1 {
      ContractRowAt(trades[1..], index + 1, 0);
    }
  }

  lemma {:induction false} ContractRowsRoundTrip(trades: seq<SentContract>, args: Args, rows: seq<Trade>)
    requires args.expansion && AllContracts(trades)
    ensures ParseRows(PutContracts(trades), |trades|, args, 0, rows)
            == Ok(Parsed(rows + ContractRows(trades, args.start + |rows|), []))
    decreases |trades|
  {
    hide ParseTrade, PutContract;
    if trades == [] {
      assert rows + ContractRows(trades, args.start + |rows|) == rows;
    } else {
      var more, index := PutContracts(trades[1..]), args.start + |rows|;
      var row := RowOf(trades[0], index);
      ContractRoundTrip(trades[0], args, index, 0, more);
      ParseRowsStep(PutContract(trades[0]) + more, |trades| - 1, args, 0, rows);
      ContractRowsRoundTrip(trades[1..], args, rows + [row]);
      assert rows + [row] + ContractRows(trades[1..], index + 1)
             == rows + ([row] + ContractRows(trades[1..], index + 1));
    }
  }

  /** Printing contract trades behind any header of 14 bytes and parsing the reply gives every
      field back. */
  lemma ContractTradesRoundTrip(trades: seq<SentContract>, args: Args, header: bytes)
    requires args.expansion && AllContracts(trades) && |header| == 14
    requires |trades| <= args.count && |trades| < 0x1_0000
    ensures ReplyTrades(header + (Put16(|trades|) + PutContracts(trades)), args)
            == Ok(History(NoBase, ContractRows(trades, args.start)))
  {
    hide ParseRows, ContractRows, PutContracts, Put16, Word16, WireNumber.Binary32;
    var body := Put16(|trades|) + PutContracts(trades);
    assert (header + body)[14..] == body;
    assert Body(header + body, 14) == body;
    Put16RoundTrip(|trades|, PutContracts(trades));
    ContractRowsRoundTrip(trades, args, []);
    assert [] + ContractRows(trades, args.start) == ContractRows(trades, args.start);
  }

  // ---------------------------------------------------------------- prefixes

  lemma TradeStable(s: bytes, more: bytes, args: Args, index: nat, previous: int)
    ensures Extends(ParseTrade(s, args, index, previous), more, ParseTrade(s + more, args, index, previous))
  {
    FixedWidthStable(s, more, 2);
    if ParseMinute(s).Ok? {
      var rest := ParseMinute(s).value.rest;
      FixedWidthStable(rest, more, 14);
      VarintsStable(rest, more, 5);
    }
  }

  lemma {:induction false} RowsStable(s: bytes, more: bytes, left: nat, args: Args, previous: int, rows: seq<Trade>)
    ensures Extends(ParseRows(s, left, args, previous, rows), more, ParseRows(s + more, left, args, previous, rows))
    decreases left
  {
    hide ParseTrade, PriceAfter;
    if left > 0 {
      ParseRowsStep(s, left - 1, args, previous, rows);
      ParseRowsStep(s + more, left - 1, args, previous, rows);
      TradeStable(s, more, args, args.start + |rows|, previous);
      var trade := ParseTrade(s, args, args.start + |rows|, previous);
      if trade.Ok? {
        RowsStable(trade.value.rest, more, left - 1, args, PriceAfter(trade.value.value), rows + [trade.value.value]);
      }
    }
  }

  lemma BaseStable(s: bytes, more: bytes, args: Args)
    ensures Extends(ParseBase(s, args), more, ParseBase(s + more, args))
  {
    hide WireNumber.Binary32;
    FixedWidthStable(s, more, 4);
  }

  /** No reply accepted under the same arguments is a proper prefix of another. */
  lemma TradesPrefixFree(data: bytes, more: bytes, args: Args)
    ensures ReplyTrades(data, args).Ok? && ReplyTrades(data + more, args).Ok? ==> more == []
  {
    hide ParseRows, ParseBase;
    var body := Body(data, if args.expansion then 14 else 0);
    if ReplyTrades(data, args).Ok? {
      assert Body(data + more, if args.expansion then 14 else 0) == body + more;
      FixedWidthStable(body, more, 2);
      var count := U16(body).value;
      BaseStable(count.rest, more, args);
      RowsStable(ParseBase(count.rest, args).value.rest, more, count.value, args, 0, []);
    }
  }

  // ---------------------------------------------------------------- any accepted reply

  /** What holds of row k, whoever sent it. */
  ghost predicate Sound(row: Trade, args: Args, k: nat) {
    && row.index == args.start + k && row.minute < 24 * 60
    && (args.expansion <==> row.Contract?)
    && (row.Stock? ==> row.price >= 0 && row.volume >= 0 && row.orders >= 0)
  }

  lemma TradeSound(s: bytes, args: Args, k: nat, previous: int)
    ensures var r := ParseTrade(s, args, args.start + k, previous); r.Ok? ==> Sound(r.value.value, args, k)
  {
    hide Varints;
  }

  lemma {:induction false} TradesSound(s: bytes, left: nat, args: Args, previous: int, rows: seq<Trade>)
    requires forall k :: 0 <= k < |rows| ==> Sound(rows[k], args, k)
    ensures var r := ParseRows(s, left, args, previous, rows);
            r.Ok? ==> |r.value.value| == |rows| + left
                      && forall k :: 0 <= k < |r.value.value| ==> Sound(r.value.value[k], args, k)
    decreases left
  {
    hide ParseTrade, Sound, PriceAfter;
    if left > 0 {
      ParseRowsStep(s, left - 1, args, previous, rows);
      TradeSound(s, args, |rows|, previous);
      var trade := ParseTrade(s, args, args.start + |rows|, previous);
      if trade.Ok? {
        TradesSound(trade.value.rest, left - 1, args, PriceAfter(trade.value.value), rows + [trade.value.value]);
      }
    }
  }

  /** Any accepted reply: as many rows as its count word says, no more than asked for, numbered
      from the start asked for, each at a minute of the day, with nothing negative; and a base
      price exactly for a dated stock reply, a finite number. */
  lemma AcceptedTrades(data: bytes, args: Args)
    ensures ReplyTrades(data, args).Ok? ==>
              var history, header := ReplyTrades(data, args).value, if args.expansion then 14 else 0;
              && |data| >= header + 2 && |history.rows| == Word16(data[header], data[header + 1]) <= args.count
              && (forall k :: 0 <= k < |history.rows| ==> Sound(history.rows[k], args, k))
              && (history.base.Base? <==> args.dated && !args.expansion)
              && (history.base.Base? ==>
                    history.base.word < TWO_32 && WireNumber.Binary32(history.base.word).Finite?)
  {
    hide ParseRows, Sound, Word16, WireNumber.Binary32;
    if ReplyTrades(data, args).Ok? {
      var count := U16(Body(data, if args.expansion then 14 else 0)).value;
      var base := ParseBase(count.rest, args).value;
      TradesSound(base.rest, count.value, args, 0, []);
    }
  }
}
