/** A printer for quote replies, and why the parser inverts it. */
module QuoteRoundTrip {
  import opened Wire
  import opened VarintCodec
  import opened Quotes
  import QuoteSafety
  import QuoteSplit
  import WireNumber

  /** The fields of one record as a server holds them. */
  datatype Quote = Quote(head: Head, prices: seq<int>, clock: Clock, volumes: seq<int>,
                         amount: nat, sides: seq<int>, book: seq<Rung>, tail: bytes)

  function PutHead(head: Head): bytes
    requires head.active < 0x1_0000
  {
    [head.market] + (head.code + Put16(head.active))
  }

  /** The current price, then the other four less the current one. */
  function Deltas(prices: seq<int>): seq<int>
    requires |prices| == 5
  {
    var current := prices[0];
    [current, prices[1] - current, prices[2] - current, prices[3] - current, prices[4] - current]
  }

  function PutClock(clock: Clock): bytes
    requires clock.Depth? ==> clock.updateTime < TWO_32
  {
    match clock
    case Depth(time, status) => Put32(time) + Signed(status)
    case Snapshot(time, auxiliary) => PutSigned([time, auxiliary])
  }

  function RungDeltas(rung: Rung, current: int): seq<int> {
    [rung.bid.price - current, rung.ask.price - current, rung.bid.volume, rung.ask.volume]
  }

  function PutBook(book: seq<Rung>, current: int): bytes {
    if book == [] then []
    else PutSigned(RungDeltas(book[0], current)) + PutBook(book[1..], current)
  }

  function PutTrading(q: Quote): bytes
    requires |q.prices| == 5 && (q.clock.Depth? ==> q.clock.updateTime < TWO_32) && q.amount < TWO_32
  {
    PutSigned(Deltas(q.prices)) + (PutClock(q.clock) + (PutSigned(q.volumes) + Put32(q.amount)))
  }

  function PutQuote(q: Quote): bytes
    requires q.head.active < 0x1_0000 && |q.prices| == 5 && q.amount < TWO_32
    requires q.clock.Depth? ==> q.clock.updateTime < TWO_32
  {
    PutHead(q.head) + (PutTrading(q) + (PutSigned(q.sides) + (PutBook(q.book, q.prices[0]) + q.tail)))
  }

  ghost predicate ClockFits(clock: Clock, depth: bool) {
    match clock
    case Depth(time, status) => depth && time < TWO_32 && AllFit([status])
    case Snapshot(time, auxiliary) => !depth && AllFit([time, auxiliary])
  }

  /** A record that can be printed: every difference fits a varint. */
  ghost predicate Printable(q: Quote, depth: bool) {
    && q.head.market <= 2 && |q.head.code| == 6 && q.head.active < 0x1_0000
    && (forall i :: 0 <= i < 6 ==> IsDigit(q.head.code[i]))
    && |q.prices| == 5 && AllFit(Deltas(q.prices))
    && ClockFits(q.clock, depth)
    && |q.volumes| == 2 && AllFit(q.volumes)
    && q.amount < TWO_32
    && |q.sides| == 4 && AllFit(q.sides)
    && |q.book| == (if depth then 5 else 0)
    && (forall i :: 0 <= i < |q.book| ==> AllFit(RungDeltas(q.book[i], q.prices[0])))
  }

  /** What the program reports for a record. */
  function RowOf(q: Quote, depth: bool): Row
    requires |q.volumes| == 2 && |q.sides| == 4 && q.amount < TWO_32 && |q.head.code| == 6
  {
    Row(q.head, QuoteSafety.Scale(q.head.code), q.prices, q.clock, q.volumes[0], q.volumes[1],
        WireNumber.Decode(q.amount), q.sides[0], q.sides[1], q.sides[2],
        q.sides[3] * (if depth then 10 else 100), q.book, q.tail)
  }

  // ---------------------------------------------------------------- field by field

  lemma HeadRoundTrip(head: Head, rest: bytes)
    requires |head.code| == 6 && head.active < 0x1_0000
    ensures ParseHead(PutHead(head) + rest) == Ok(Parsed(head, rest))
  {
    var s := PutHead(head) + rest;
    assert s[1..] == head.code + (Put16(head.active) + rest);
    TakeAppend(head.code, Put16(head.active) + rest);
    Put16RoundTrip(head.active, rest);
  }

  lemma PricesDeltas(prices: seq<int>)
    requires |prices| == 5
    ensures Prices(Deltas(prices)) == prices
  {
  }

  lemma ClockRoundTrip(clock: Clock, depth: bool, rest: bytes)
    requires ClockFits(clock, depth)
    ensures ParseClock(PutClock(clock) + rest, depth) == Ok(Parsed(clock, rest))
  {
    match clock
    case Depth(time, status) =>
      assert PutClock(clock) + rest == Put32(time) + (Signed(status) + rest);
      Put32RoundTrip(time, Signed(status) + rest);
      assert [status][0] == status;
      SignedRoundTrip(status, rest);
    case Snapshot(time, auxiliary) =>
      VarintsRoundTrip([time, auxiliary], rest);
  }

  lemma TradingRoundTrip(q: Quote, depth: bool, rest: bytes)
    requires Printable(q, depth)
    ensures ParseTrading(PutTrading(q) + rest, depth)
            == Ok(Parsed(Trading(q.prices, q.clock, q.volumes, q.amount), rest))
  {
    var afterVolumes := Put32(q.amount) + rest;
    var afterClock := PutSigned(q.volumes) + afterVolumes;
    var afterPrices := PutClock(q.clock) + afterClock;
    assert PutTrading(q) + rest == PutSigned(Deltas(q.prices)) + afterPrices;
    VarintsRoundTrip(Deltas(q.prices), afterPrices);
    PricesDeltas(q.prices);
    ClockRoundTrip(q.clock, depth, afterClock);
    VarintsRoundTrip(q.volumes, afterVolumes);
    Put32RoundTrip(q.amount, rest);
  }

  lemma {:induction false} BookRoundTrip(book: seq<Rung>, current: int, rest: bytes)
    requires forall i :: 0 <= i < |book| ==> AllFit(RungDeltas(book[i], current))
    ensures ParseBook(PutBook(book, current) + rest, current, |book|) == Ok(Parsed(book, rest))
    decreases |book|
  {
    hide Varints, PutSigned, RungOf, AllFit;
    if book == [] {
      assert PutBook(book, current) + rest == rest;
    } else {
      var more := PutBook(book[1..], current) + rest;
      RungRoundTrip(book[0], current, more);
      BookRoundTrip(book[1..], current, rest);
      assert PutBook(book, current) + rest == PutSigned(RungDeltas(book[0], current)) + more;
      assert [book[0]] + book[1..] == book;
    }
  }

  lemma RungRoundTrip(rung: Rung, current: int, rest: bytes)
    requires AllFit(RungDeltas(rung, current))
    ensures Varints(PutSigned(RungDeltas(rung, current)) + rest, 4)
            == Ok(Parsed(RungDeltas(rung, current), rest))
    ensures RungOf(current, RungDeltas(rung, current)) == rung
  {
    VarintsRoundTrip(RungDeltas(rung, current), rest);
  }

  /** Putting the parts of a record body together. */
  lemma BodyFromParts(head: Head, s: bytes, depth: bool, t: Trading, afterTrading: bytes,
                      sides: seq<int>, afterSides: bytes, book: seq<Rung>, tail: bytes)
    requires ParseTrading(s, depth) == Ok(Parsed(t, afterTrading))
    requires Varints(afterTrading, 4) == Ok(Parsed(sides, afterSides))
    requires ParseBook(afterSides, t.prices[0], if depth then 5 else 0) == Ok(Parsed(book, tail))
    ensures ParseBody(head, s, depth) == Ok(MakeRow(head, depth, t, sides, book, tail))
  {
  }

  lemma BodyRoundTrip(q: Quote, depth: bool)
    requires Printable(q, depth)
    ensures ParseBody(q.head, PutTrading(q) + (PutSigned(q.sides) + (PutBook(q.book, q.prices[0]) + q.tail)), depth)
            == Ok(RowOf(q, depth))
  {
    var afterSides := PutBook(q.book, q.prices[0]) + q.tail;
    var afterTrading := PutSigned(q.sides) + afterSides;
    var t := Trading(q.prices, q.clock, q.volumes, q.amount);
    TradingRoundTrip(q, depth, afterTrading);
    VarintsRoundTrip(q.sides, afterSides);
    BookRoundTrip(q.book, q.prices[0], q.tail);
    BodyFromParts(q.head, PutTrading(q) + afterTrading, depth, t, afterTrading, q.sides, afterSides, q.book, q.tail);
    MakeRowIsRowOf(q, depth);
  }

  lemma MakeRowIsRowOf(q: Quote, depth: bool)
    requires |q.volumes| == 2 && |q.sides| == 4 && q.amount < TWO_32
    requires |q.head.code| == 6 && forall i :: 0 <= i < 6 ==> IsDigit(q.head.code[i])
    ensures MakeRow(q.head, depth, Trading(q.prices, q.clock, q.volumes, q.amount), q.sides, q.book, q.tail)
            == RowOf(q, depth)
  {
    QuoteSafety.DivisorScale(q.head.code);
  }

  lemma RecordRoundTrip(q: Quote, requested: seq<Security>, depth: bool, seen: set<Security>)
    requires Printable(q, depth) && SecurityOf(q.head) in requested && SecurityOf(q.head) !in seen
    ensures ParseRecord(PutQuote(q), requested, depth, seen) == Ok(RowOf(q, depth))
  {
    HeadRoundTrip(q.head, PutTrading(q) + (PutSigned(q.sides) + (PutBook(q.book, q.prices[0]) + q.tail)));
    BodyRoundTrip(q, depth);
  }

  lemma QuoteIsSigned(q: Quote, depth: bool)
    requires Printable(q, depth)
    ensures Signature(PutQuote(q))
  {
    var s := PutQuote(q);
    assert s[0] == q.head.market;
    assert forall i :: 0 <= i < 6 ==> s[i + 1] == q.head.code[i];
    assert s[1] == q.head.code[0] && s[2] == q.head.code[1] && s[3] == q.head.code[2];
    assert s[4] == q.head.code[3] && s[5] == q.head.code[4] && s[6] == q.head.code[5];
  }

  // ---------------------------------------------------------------- whole replies

  ghost predicate AllPrintable(quotes: seq<Quote>, depth: bool) {
    forall k :: 0 <= k < |quotes| ==> Printable(quotes[k], depth)
  }

  ghost predicate Distinct(quotes: seq<Quote>) {
    forall j, k :: 0 <= j < k < |quotes| ==> SecurityOf(quotes[j].head) != SecurityOf(quotes[k].head)
  }

  ghost predicate AllRequested(quotes: seq<Quote>, requested: seq<Security>) {
    forall k :: 0 <= k < |quotes| ==> SecurityOf(quotes[k].head) in requested
  }

  function PutQuotes(quotes: seq<Quote>, depth: bool): seq<bytes>
    requires AllPrintable(quotes, depth)
  {
    if quotes == [] then [] else [PutQuote(quotes[0])] + PutQuotes(quotes[1..], depth)
  }

  function RowsOf(quotes: seq<Quote>, depth: bool): seq<Row>
    requires AllPrintable(quotes, depth)
  {
    if quotes == [] then [] else [RowOf(quotes[0], depth)] + RowsOf(quotes[1..], depth)
  }

  lemma {:induction false} PutQuotesSigned(quotes: seq<Quote>, depth: bool)
    requires AllPrintable(quotes, depth)
    ensures |PutQuotes(quotes, depth)| == |quotes| && QuoteSplit.AllSigned(PutQuotes(quotes, depth))
  {
    if quotes != [] {
      QuoteIsSigned(quotes[0], depth);
      PutQuotesSigned(quotes[1..], depth);
    }
  }

  ghost predicate NoneSeen(quotes: seq<Quote>, seen: set<Security>) {
    forall k :: 0 <= k < |quotes| ==> SecurityOf(quotes[k].head) !in seen
  }

  lemma SplitFirst(quotes: seq<Quote>, requested: seq<Security>, depth: bool, seen: set<Security>)
    requires AllPrintable(quotes, depth) && Distinct(quotes) && AllRequested(quotes, requested)
    requires NoneSeen(quotes, seen) && quotes != []
    ensures Printable(quotes[0], depth) && SecurityOf(quotes[0].head) in requested
            && SecurityOf(quotes[0].head) !in seen
    ensures var tail := quotes[1..];
            && AllPrintable(tail, depth) && Distinct(tail) && AllRequested(tail, requested)
            && NoneSeen(tail, seen + {SecurityOf(quotes[0].head)})
  {
  }

  lemma {:induction false} RowsRoundTrip(quotes: seq<Quote>, requested: seq<Security>, depth: bool,
                                         seen: set<Security>, rows: seq<Row>)
    requires AllPrintable(quotes, depth) && Distinct(quotes) && AllRequested(quotes, requested)
    requires NoneSeen(quotes, seen)
    ensures ParseRows(PutQuotes(quotes, depth), requested, depth, seen, rows) == Ok(rows + RowsOf(quotes, depth))
    decreases |quotes|
  {
    if quotes == [] {
      assert rows + RowsOf(quotes, depth) == rows;
    } else {
      SplitFirst(quotes, requested, depth, seen);
      var first, tail := quotes[0], quotes[1..];
      var row := RowOf(first, depth);
      RecordRoundTrip(first, requested, depth, seen);
      RowsRoundTrip(tail, requested, depth, seen + {SecurityOf(first.head)}, rows + [row]);
      ParseRowsCons(PutQuote(first), PutQuotes(tail, depth), requested, depth, seen, rows, row);
      assert rows + [row] + RowsOf(tail, depth) == rows + ([row] + RowsOf(tail, depth));
    }
  }

  lemma ParseRowsCons(record: bytes, records: seq<bytes>, requested: seq<Security>, depth: bool,
                      seen: set<Security>, rows: seq<Row>, row: Row)
    ensures ParseRecord(record, requested, depth, seen) == Ok(row) ==>
              ParseRows([record] + records, requested, depth, seen, rows)
              == ParseRows(records, requested, depth, seen + {SecurityOf(row.head)}, rows + [row])
  {
    assert ([record] + records)[1..] == records;
  }

  /** A reply as a server prints it: snapshots carry two bytes before the count, depth
      replies are masked. */
  function PutReply(quotes: seq<Quote>, depth: bool, first: byte, second: byte): bytes
    requires AllPrintable(quotes, depth) && |quotes| < 0x1_0000
  {
    var body := Put16(|quotes|) + Concat(PutQuotes(quotes, depth));
    if depth then Masked(body) else [first, second] + body
  }

  lemma MaskTwice(data: bytes)
    ensures Masked(Masked(data)) == data
  {
    forall i | 0 <= i < |data|
      ensures MaskByte(MaskByte(data[i])) == data[i]
    {
      MaskByteTwice(data[i]);
    }
  }

  lemma MaskByteTwice(b: byte)
    ensures MaskByte(MaskByte(b)) == b
  {
    FlipsTwice(b / 16);
    FlipsTwice(b % 16);
    hide FlipOuter, FlipLow;
    assert MaskByte(b) / 16 == FlipOuter(b / 16) && MaskByte(b) % 16 == FlipLow(b % 16);
  }

  lemma FlipsTwice(n: nat)
    requires n < 16
    ensures FlipOuter(FlipOuter(n)) == n && FlipLow(FlipLow(n)) == n
  {
  }

  /** Bitwise exclusive or. */
  function Xor(a: nat, b: nat): nat
    decreases a + b
  {
    if a == 0 && b == 0 then 0 else (a % 2 + b % 2) % 2 + 2 * Xor(a / 2, b / 2)
  }

  lemma XorBit(n: nat, mask: nat, bit: nat)
    requires bit <= 1
    ensures Xor(n, 2 * mask + bit) == (if bit == 0 then n % 2 else 1 - n % 2) + 2 * Xor(n / 2, mask)
  {
  }

  lemma FlippedBits(a: nat, b: nat, c: nat, d: nat)
    requires a <= 1 && b <= 1 && c <= 1 && d <= 1
    ensures FlipOuter(a + 2 * b + 4 * c + 8 * d) == 1 - a + 2 * b + 4 * c + 8 * (1 - d)
    ensures FlipLow(a + 2 * b + 4 * c + 8 * d) == 1 - a + 2 * (1 - b) + 4 * c + 8 * d
  {
    var n := a + 2 * b + 4 * c + 8 * d;
    assert n % 4 == a + 2 * b;
  }

  /** The four low bits of a number and the rest of it. */
  lemma LowNibble(n: nat) returns (a: nat, b: nat, c: nat, d: nat)
    ensures a <= 1 && b <= 1 && c <= 1 && d <= 1
    ensures a == n % 2 && b == n / 2 % 2 && c == n / 2 / 2 % 2 && d == n / 2 / 2 / 2 % 2
    ensures n % 16 == a + 2 * b + 4 * c + 8 * d && n / 2 / 2 / 2 / 2 == n / 16
  {
    var half := n / 2;
    var quarter := half / 2;
    var eighth := quarter / 2;
    a, b, c, d := n % 2, half % 2, quarter % 2, eighth % 2;
  }

  lemma LowXor(n: nat)
    ensures Xor(n, 0x93) == FlipLow(n % 16) + 16 * Xor(n / 16, 9)
  {
    hide FlipLow, FlipOuter, Xor;
    var a, b, c, d := LowNibble(n);
    FlippedBits(a, b, c, d);
    XorBit(n, 0x49, 1);
    XorBit(n / 2, 0x24, 1);
    XorBit(n / 2 / 2, 0x12, 0);
    XorBit(n / 2 / 2 / 2, 9, 0);
  }

  lemma HighXor(n: nat)
    requires n < 16
    ensures Xor(n, 9) == FlipOuter(n)
  {
    hide FlipLow, FlipOuter, Xor;
    var a, b, c, d := LowNibble(n);
    FlippedBits(a, b, c, d);
    XorBit(n, 4, 1);
    XorBit(n / 2, 2, 0);
    XorBit(n / 2 / 2, 1, 0);
    XorBit(n / 2 / 2 / 2, 0, 1);
    XorNothing();
  }

  /** The mask is the exclusive or with 0x93. */
  lemma MaskIsXor(b: byte)
    ensures MaskByte(b) == Xor(b, 0x93)
  {
    hide FlipLow, FlipOuter, Xor;
    LowXor(b);
    HighXor(b / 16);
  }

  lemma XorNothing()
    ensures Xor(0, 0) == 0
  {
  }

  /** Distinct securities drawn from a list are no more than the list is long. */
  lemma {:induction false} DistinctCount(quotes: seq<Quote>, requested: seq<Security>)
    requires Distinct(quotes) && AllRequested(quotes, requested)
    ensures |quotes| <= |requested|
    decreases |quotes|
  {
    if quotes != [] {
      var last := |quotes| - 1;
      var security := SecurityOf(quotes[last].head);
      var i :| 0 <= i < |requested| && requested[i] == security;
      var others := requested[..i] + requested[i + 1..];
      forall k | 0 <= k < last
        ensures SecurityOf(quotes[..last][k].head) in others
      {
        var j :| 0 <= j < |requested| && requested[j] == SecurityOf(quotes[k].head);
        assert others[if j < i then j else j - 1] == requested[j];
      }
      DistinctCount(quotes[..last], others);
    }
  }

  /** Printing distinct requested records, whatever follows their known fields, and parsing
      the reply gives back the same rows in the same order, or a refusal; and it refuses
      exactly when some record shows a second signature. */
  lemma ReplyRoundTrip(quotes: seq<Quote>, requested: seq<Security>, depth: bool, first: byte, second: byte)
    requires AllPrintable(quotes, depth) && Distinct(quotes) && AllRequested(quotes, requested)
    requires |quotes| < 0x1_0000
    ensures ReplyRows(PutReply(quotes, depth, first, second), requested, depth)
            == if QuoteSplit.AllSole(PutQuotes(quotes, depth)) then Ok(RowsOf(quotes, depth))
               else Err(UnknownBoundary)
  {
    hide ReplyRows, ParseRows, SplitRecords, PutReply, Masked, Concat, RowsOf, PutQuotes;
    var records := PutQuotes(quotes, depth);
    HeaderRoundTrip(quotes, requested, depth, first, second);
    PutQuotesSigned(quotes, depth);
    QuoteSplit.SplitExact(records);
    RowsRoundTrip(quotes, requested, depth, {}, []);
    assert [] + RowsOf(quotes, depth) == RowsOf(quotes, depth);
    ReplyFromParts(PutReply(quotes, depth, first, second), requested, depth, |quotes|, Concat(records));
  }

  /** Once the header is read, the records decide. */
  lemma ReplyFromParts(data: bytes, requested: seq<Security>, depth: bool, count: nat, body: bytes)
    requires var plain := if depth then Masked(data) else data;
             var header := if depth then 0 else 2;
             header <= |plain| && U16(plain[header..]) == Ok(Parsed(count, body))
    requires count <= |requested|
    ensures ReplyRows(data, requested, depth)
            == var records := SplitRecords(body, count);
               if records.Err? then Err(records.error)
               else ParseRows(records.value, requested, depth, {}, [])
  {
  }

  lemma HeaderRoundTrip(quotes: seq<Quote>, requested: seq<Security>, depth: bool, first: byte, second: byte)
    requires AllPrintable(quotes, depth) && Distinct(quotes) && AllRequested(quotes, requested)
    requires |quotes| < 0x1_0000
    ensures var reply := PutReply(quotes, depth, first, second);
            var plain := if depth then Masked(reply) else reply;
            var header := if depth then 0 else 2;
            && header <= |plain|
            && U16(plain[header..]) == Ok(Parsed(|quotes|, Concat(PutQuotes(quotes, depth))))
            && |quotes| <= |requested|
  {
    var body := Put16(|quotes|) + Concat(PutQuotes(quotes, depth));
    MaskTwice(body);
    assert ([first, second] + body)[2..] == body;
    assert body[0..] == body;
    Put16RoundTrip(|quotes|, Concat(PutQuotes(quotes, depth)));
    DistinctCount(quotes, requested);
  }
}
