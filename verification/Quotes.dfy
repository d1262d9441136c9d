/** Quote replies (`parse_quotes`): records without length prefixes, found by scanning for
    their signatures, then decoded field by field. Depth replies are masked bytewise. */
module Quotes {
  import opened Wire
  import opened Cursor
  import opened VarintCodec
  import WireNumber

  // ---------------------------------------------------------------- the mask

  /** Exclusive or of a four-bit number with 9: its outer bits flip. */
  function FlipOuter(n: nat): (r: nat)
    requires n < 16
    ensures r < 16
  {
    var m := if n < 8 then n + 8 else n - 8;
    if m % 2 == 0 then m + 1 else m - 1
  }

  /** Exclusive or of a four-bit number with 3: its two low bits flip. */
  function FlipLow(n: nat): (r: nat)
    requires n < 16
    ensures r < 16
  {
    n + 3 - 2 * (n % 4)
  }

  /** Exclusive or with 0x93. */
  function MaskByte(b: byte): byte {
    FlipOuter(b / 16) * 16 + FlipLow(b % 16)
  }

  function Masked(data: bytes): (r: bytes)
    ensures |r| == |data|
  {
    seq(|data|, i requires 0 <= i < |data| => MaskByte(data[i]))
  }

  // ---------------------------------------------------------------- record boundaries

  predicate IsDigit(b: byte) {
    0x30 <= b <= 0x39
  }

  /** A market byte and six ASCII digits. */
  predicate Signature(s: bytes) {
    && |s| >= 7 && s[0] <= 2
    && IsDigit(s[1]) && IsDigit(s[2]) && IsDigit(s[3])
    && IsDigit(s[4]) && IsDigit(s[5]) && IsDigit(s[6])
  }

  /** Where an ascending search without overlaps finds signatures; `base` is the position
      of `s` in the searched text. */
  function Matches(s: bytes, base: nat): seq<nat>
    decreases |s|
  {
    if s == [] then []
    else if Signature(s) then [base] + Matches(s[7..], base + 7)
    else Matches(s[1..], base + 1)
  }

  ghost predicate Ascending(starts: seq<nat>, low: nat, high: nat) {
    && (forall i :: 0 <= i < |starts| ==> low <= starts[i] < high)
    && forall i, j :: 0 <= i < j < |starts| ==> starts[i] < starts[j]
  }

  lemma {:induction false} MatchesAscend(s: bytes, base: nat)
    ensures Ascending(Matches(s, base), base, base + |s|)
    decreases |s|
  {
    if s != [] {
      if Signature(s) {
        MatchesAscend(s[7..], base + 7);
      } else {
        MatchesAscend(s[1..], base + 1);
      }
    }
  }

  /** The text from each start up to the next one, or to the end. */
  function Cut(body: bytes, starts: seq<nat>): seq<bytes>
    requires Ascending(starts, 0, |body|)
  {
    if starts == [] then []
    else if |starts| == 1 then [body[starts[0]..]]
    else [body[starts[0]..starts[1]]] + Cut(body, starts[1..])
  }

  // ---------------------------------------------------------------- one record

  datatype Clock = Snapshot(time: int, auxiliary: int) | Depth(updateTime: nat, status: int)

  datatype Level = Level(price: int, volume: int)

  /** One line of the book: the bid and the ask at the same depth. */
  datatype Rung = Rung(bid: Level, ask: Level)

  datatype Head = Head(market: byte, code: bytes, active: nat)

  /** Prices are raw; the program divides them by 100 times the divisor. */
  datatype Row = Row(head: Head, divisor: nat, prices: seq<int>, clock: Clock,
                     volume: int, lastVolume: int, amount: real,
                     inside: int, outside: int, imbalance: int, openAmount: int,
                     book: seq<Rung>, tail: bytes)

  /** The number that the first two digits of a code spell. */
  function Prefix(code: bytes): int {
    if |code| < 2 then 0 else 10 * (code[0] as int - 0x30) + (code[1] as int - 0x30)
  }

  function Divisor(code: bytes): nat {
    if Prefix(code) in {10, 11, 12} then 100
    else if Prefix(code) in {15, 16, 50, 51, 52, 53, 56, 58} then 10
    else 1
  }

  function ParseHead(s: bytes): Result<Parsed<Head>> {
    var market :- Byte(s);
    var code :- Take(market.rest, 6);
    var active :- U16(code.rest);
    Ok(Parsed(Head(market.value, code.value, active.value), active.rest))
  }

  /** The current price, and four prices given as differences from it. */
  function Prices(raw: seq<int>): seq<int>
    requires |raw| == 5
  {
    [raw[0], raw[0] + raw[1], raw[0] + raw[2], raw[0] + raw[3], raw[0] + raw[4]]
  }

  function ParseClock(s: bytes, depth: bool): Result<Parsed<Clock>> {
    if depth then
      var time :- U32(s);
      var status :- Varint(time.rest);
      Ok(Parsed(Depth(time.value, status.value), status.rest))
    else
      var raw :- Varints(s, 2);
      Ok(Parsed(Snapshot(raw.value[0], raw.value[1]), raw.rest))
  }

  /** Bid and ask differences from the current price, then their volumes. */
  function RungOf(current: int, raw: seq<int>): Rung
    requires |raw| == 4
  {
    Rung(Level(current + raw[0], raw[2]), Level(current + raw[1], raw[3]))
  }

  function ParseBook(s: bytes, current: int, count: nat): Result<Parsed<seq<Rung>>>
    decreases count
  {
    if count == 0 then Ok(Parsed([], s)) else
    var raw :- Varints(s, 4);
    var rest :- ParseBook(raw.rest, current, count - 1);
    Ok(Parsed([RungOf(current, raw.value)] + rest.value, rest.rest))
  }

  /** The first half of a record body. */
  datatype Trading = Trading(prices: seq<int>, clock: Clock, volumes: seq<int>, amount: nat)

  function ParseTrading(s: bytes, depth: bool): (r: Result<Parsed<Trading>>)
    ensures r.Ok? ==> |r.value.value.prices| == 5 && |r.value.value.volumes| == 2
                      && r.value.value.amount < TWO_32
  {
    var prices :- Varints(s, 5);
    var clock :- ParseClock(prices.rest, depth);
    var volumes :- Varints(clock.rest, 2);
    var amount :- U32(volumes.rest);
    Ok(Parsed(Trading(Prices(prices.value), clock.value, volumes.value, amount.value), amount.rest))
  }

  function MakeRow(head: Head, depth: bool, t: Trading, sides: seq<int>, book: seq<Rung>, tail: bytes): Row
    requires |t.volumes| == 2 && |sides| == 4 && t.amount < TWO_32
  {
    Row(head, Divisor(head.code), t.prices, t.clock, t.volumes[0], t.volumes[1],
        WireNumber.Decode(t.amount), sides[0], sides[1], sides[2],
        if depth then 10 * sides[3] else 100 * sides[3], book, tail)
  }

  function ParseBody(head: Head, s: bytes, depth: bool): Result<Row> {
    var trading :- ParseTrading(s, depth);
    var t := trading.value;
    var sides :- Varints(trading.rest, 4);
    var book :- ParseBook(sides.rest, t.prices[0], if depth then 5 else 0);
    Ok(MakeRow(head, depth, t, sides.value, book.value, book.rest))
  }

  // ---------------------------------------------------------------- the whole reply

  type Security = (byte, bytes)

  function SecurityOf(head: Head): Security {
    (head.market, head.code)
  }

  function ParseRecord(record: bytes, requested: seq<Security>, depth: bool, seen: set<Security>): Result<Row> {
    var head :- ParseHead(record);
    var security := SecurityOf(head.value);
    :- Need(security in requested && security !in seen, WrongSecurity);
    ParseBody(head.value, head.rest, depth)
  }

  function ParseRows(records: seq<bytes>, requested: seq<Security>, depth: bool,
                     seen: set<Security>, rows: seq<Row>): Result<seq<Row>>
    decreases |records|
  {
    if records == [] then Ok(rows) else
    var row :- ParseRecord(records[0], requested, depth, seen);
    ParseRows(records[1..], requested, depth, seen + {SecurityOf(row.head)}, rows + [row])
  }

  /** The records of a reply body that declares `count` of them. */
  function SplitRecords(body: bytes, count: nat): Result<seq<bytes>> {
    if count == 0 then
      :- Need(body == [], StrayBytes);
      Ok([])
    else
      var starts := Matches(body, 0);
      :- Need(|starts| == count && starts[0] == 0, UnknownBoundary);
      MatchesAscend(body, 0);
      Ok(Cut(body, starts))
  }

  function ReplyRows(data: bytes, requested: seq<Security>, depth: bool): Result<seq<Row>> {
    var plain := if depth then Masked(data) else data;
    var header := if depth then 0 else 2;
    var count :- U16(Body(plain, header));
    :- Need(count.value <= |requested|, TooManyRecords);
    var records :- SplitRecords(count.rest, count.value);
    ParseRows(records, requested, depth, {}, [])
  }

  // ---------------------------------------------------------------- the parser as it runs

  method ReadClock(reader: Reader, depth: bool) returns (r: Result<Clock>)
    requires reader.offset <= |reader.data|
    modifies reader`offset
    ensures Reads(r, ParseClock(old(reader.Unread()), depth), reader.Unread())
    ensures r.Ok? ==> reader.offset <= |reader.data|
  {
    if depth {
      var time :- reader.U32();
      var status :- reader.Varint();
      r := Ok(Depth(time, status));
    } else {
      var raw :- ReadVarints(reader, 2);
      r := Ok(Snapshot(raw[0], raw[1]));
    }
  }

  /** After `book`, the rest of `count` rungs is that of `unread`. */
  ghost predicate ReadsBook(start: bytes, current: int, count: nat, book: seq<Rung>, unread: bytes) {
    |book| <= count &&
    (var rest := ParseBook(unread, current, count - |book|);
     ParseBook(start, current, count)
     == if rest.Err? then rest else Ok(Parsed(book + rest.value.value, rest.value.rest)))
  }

  lemma ReadsBookStart(start: bytes, current: int, count: nat)
    ensures ReadsBook(start, current, count, [], start)
  {
    var book := ParseBook(start, current, count);
    assert book.Ok? ==> [] + book.value.value == book.value.value;
  }

  lemma ReadsBookNext(start: bytes, current: int, count: nat, book: seq<Rung>, unread: bytes)
    requires ReadsBook(start, current, count, book, unread) && |book| < count
    ensures var raw := Varints(unread, 4);
            if raw.Err? then ParseBook(start, current, count) == Err(raw.error)
            else ReadsBook(start, current, count, book + [RungOf(current, raw.value.value)], raw.value.rest)
  {
    var raw := Varints(unread, 4);
    if raw.Ok? {
      var rung := RungOf(current, raw.value.value);
      var rest := ParseBook(raw.value.rest, current, count - |book| - 1);
      assert rest.Ok? ==> book + [rung] + rest.value.value == book + ([rung] + rest.value.value);
    }
  }

  method ReadBook(reader: Reader, current: int, count: nat) returns (r: Result<seq<Rung>>)
    requires reader.offset <= |reader.data|
    modifies reader`offset
    ensures Reads(r, ParseBook(old(reader.Unread()), current, count), reader.Unread())
    ensures r.Ok? ==> reader.offset <= |reader.data|
  {
    var book: seq<Rung> := [];
    ghost var start := reader.Unread();
    ReadsBookStart(start, current, count);
    while |book| < count
      invariant reader.offset <= |reader.data|
      invariant ReadsBook(start, current, count, book, reader.Unread())
    {
      ReadsBookNext(start, current, count, book, reader.Unread());
      var raw :- ReadVarints(reader, 4);
      book := book + [RungOf(current, raw)];
    }
    assert book + [] == book;
    r := Ok(book);
  }

  method ReadHead(reader: Reader) returns (r: Result<Head>)
    requires reader.offset <= |reader.data|
    modifies reader`offset
    ensures Reads(r, ParseHead(old(reader.Unread())), reader.Unread())
    ensures r.Ok? ==> reader.offset <= |reader.data|
  {
    assert reader.Unread() == [] || reader.Unread()[1..] == reader.data[reader.offset + 1..];
    var market :- reader.Byte();
    var code :- reader.Take(6);
    var active :- reader.U16();
    r := Ok(Head(market, code, active));
  }

  method ReadTrading(reader: Reader, depth: bool) returns (r: Result<Trading>)
    requires reader.offset <= |reader.data|
    modifies reader`offset
    ensures Reads(r, ParseTrading(old(reader.Unread()), depth), reader.Unread())
    ensures r.Ok? ==> reader.offset <= |reader.data|
  {
    var raw :- ReadVarints(reader, 5);
    var clock :- ReadClock(reader, depth);
    var volumes :- ReadVarints(reader, 2);
    var amount :- reader.U32();
    r := Ok(Trading(Prices(raw), clock, volumes, amount));
  }

  method ReadBody(reader: Reader, head: Head, depth: bool) returns (r: Result<Row>)
    requires reader.offset <= |reader.data|
    modifies reader`offset
    ensures r == ParseBody(head, old(reader.Unread()), depth)
  {
    hide Varints, ParseBook, ParseTrading, MakeRow, WireNumber.Decode;
    var t :- ReadTrading(reader, depth);
    var sides :- ReadVarints(reader, 4);
    var book :- ReadBook(reader, t.prices[0], if depth then 5 else 0);
    TakeAll(reader.Unread());
    var tail := reader.Take(|reader.data| - reader.offset);
    r := Ok(MakeRow(head, depth, t, sides, book, tail.value));
  }

  method ReadRecord(record: bytes, requested: seq<Security>, depth: bool, seen: set<Security>)
    returns (r: Result<Row>)
    ensures r == ParseRecord(record, requested, depth, seen)
  {
    var reader := new Reader(record, 0);
    assert reader.Unread() == record;
    var head :- ReadHead(reader);
    var security := SecurityOf(head);
    :- Need(security in requested && security !in seen, WrongSecurity);
    r := ReadBody(reader, head, depth);
  }

  method ParseRecords(records: seq<bytes>, requested: seq<Security>, depth: bool) returns (r: Result<seq<Row>>)
    ensures r == ParseRows(records, requested, depth, {}, [])
  {
    var rows: seq<Row>, seen: set<Security>, next := [], {}, 0;
    ghost var spec := ParseRows(records, requested, depth, seen, rows);
    while next < |records|
      invariant 0 <= next <= |records|
      invariant ParseRows(records[next..], requested, depth, seen, rows) == spec
    {
      assert records[next..][1..] == records[next + 1..];
      var row :- ReadRecord(records[next], requested, depth, seen);
      seen := seen + {SecurityOf(row.head)};
      rows := rows + [row];
      next := next + 1;
    }
    r := Ok(rows);
  }

  method ParseQuotes(data: bytes, requested: seq<Security>, depth: bool) returns (r: Result<seq<Row>>)
    ensures r == ReplyRows(data, requested, depth)
  {
    var plain := if depth then Masked(data) else data;
    var reader := new Reader(plain, if depth then 0 else 2);
    var count :- reader.U16();
    :- Need(count <= |requested|, TooManyRecords);
    var records :- SplitRecords(plain[reader.offset..], count);
    r := ParseRecords(records, requested, depth);
  }
}
