/** What every accepted quote reply satisfies, whoever sent it. */
module QuoteSafety {
  import opened Wire
  import opened VarintCodec
  import opened Quotes
  import QuoteSplit

  // ---------------------------------------------------------------- codes

  /** A signature is a market 0, 1 or 2 and six decimal digits of a number. */
  lemma SignatureMeaning(s: bytes)
    ensures Signature(s) <==> |s| >= 7 && s[0] in {0, 1, 2} && exists n: nat :: s[1..7] == Decimal(n, 6)
  {
    if |s| >= 7 {
      DecimalMeaning(s[1..7]);
      hide Decimal;
      var code := s[1..7];
      assert code[0] == s[1] && code[1] == s[2] && code[2] == s[3];
      assert code[3] == s[4] && code[4] == s[5] && code[5] == s[6];
    }
  }

  /** The scale of a code by its first two characters: bonds 10, 11, 12; funds 15, 16, 50, 51,
      52, 53, 56, 58. */
  function Scale(code: bytes): nat
    requires |code| == 6
  {
    if code[..2] in {[0x31, 0x30], [0x31, 0x31], [0x31, 0x32]} then 100
    else if code[..2] in {[0x31, 0x35], [0x31, 0x36], [0x35, 0x30], [0x35, 0x31],
                          [0x35, 0x32], [0x35, 0x33], [0x35, 0x36], [0x35, 0x38]} then 10
    else 1
  }

  lemma DivisorScale(code: bytes)
    requires |code| == 6 && IsDigit(code[0]) && IsDigit(code[1])
    ensures Divisor(code) == Scale(code)
  {
    assert code[..2] == [code[0], code[1]];
  }

  // ---------------------------------------------------------------- one record

  ghost predicate IsSuffix(t: bytes, s: bytes) {
    |t| <= |s| && t == s[|s| - |t|..]
  }

  lemma SuffixTransitive(t: bytes, s: bytes, r: bytes)
    requires IsSuffix(t, s) && IsSuffix(s, r)
    ensures IsSuffix(t, r)
  {
  }

  lemma ClockSuffix(s: bytes, depth: bool)
    ensures var r := ParseClock(s, depth); r.Ok? ==> IsSuffix(r.value.rest, s)
  {
    if depth {
      if U32(s).Ok? {
        VarintBounded(U32(s).value.rest);
      }
    } else {
      VarintsSuffix(s, 2);
    }
  }

  lemma TradingSuffix(s: bytes, depth: bool)
    ensures var r := ParseTrading(s, depth); r.Ok? ==> IsSuffix(r.value.rest, s)
  {
    if ParseTrading(s, depth).Ok? {
      var afterPrices := Varints(s, 5).value.rest;
      VarintsSuffix(s, 5);
      var afterClock := ParseClock(afterPrices, depth).value.rest;
      ClockSuffix(afterPrices, depth);
      SuffixTransitive(afterClock, afterPrices, s);
      var afterVolumes := Varints(afterClock, 2).value.rest;
      VarintsSuffix(afterClock, 2);
      SuffixTransitive(afterVolumes, afterClock, s);
      assert IsSuffix(U32(afterVolumes).value.rest, afterVolumes);
      SuffixTransitive(U32(afterVolumes).value.rest, afterVolumes, s);
    }
  }

  lemma {:induction false} BookSuffix(s: bytes, current: int, count: nat)
    ensures var r := ParseBook(s, current, count);
            r.Ok? ==> |r.value.value| == count && IsSuffix(r.value.rest, s)
    decreases count
  {
    if count > 0 && ParseBook(s, current, count).Ok? {
      var raw := Varints(s, 4);
      VarintsSuffix(s, 4);
      BookSuffix(raw.value.rest, current, count - 1);
      SuffixTransitive(ParseBook(s, current, count).value.rest, raw.value.rest, s);
    }
  }

  lemma BodyTail(head: Head, s: bytes, depth: bool)
    ensures var r := ParseBody(head, s, depth);
            r.Ok? ==> && r.value.head == head && IsSuffix(r.value.tail, s) && r.value.divisor == Divisor(head.code)
                      && |r.value.book| == if depth then 5 else 0
  {
    if ParseBody(head, s, depth).Ok? {
      var trading := ParseTrading(s, depth).value;
      TradingSuffix(s, depth);
      var sides := Varints(trading.rest, 4).value;
      VarintsSuffix(trading.rest, 4);
      SuffixTransitive(sides.rest, trading.rest, s);
      BookSuffix(sides.rest, trading.value.prices[0], if depth then 5 else 0);
      SuffixTransitive(ParseBody(head, s, depth).value.tail, sides.rest, s);
    }
  }

  /** `record` starts with the security and activity of `row` and ends with its tail, the two
      do not overlap, and the prices have the scale of the code. */
  ghost predicate Frames(record: bytes, row: Row) {
    && |record| >= 9 + |row.tail|
    && record[0] == row.head.market && record[1..7] == row.head.code
    && row.head.active == Word16(record[7], record[8])
    && IsSuffix(row.tail, record)
    && (Signature(record) ==> row.divisor == Scale(record[1..7]))
  }

  lemma RecordFrames(record: bytes, requested: seq<Security>, depth: bool, seen: set<Security>)
    ensures var r := ParseRecord(record, requested, depth, seen);
            r.Ok? ==> && Frames(record, r.value)
                      && SecurityOf(r.value.head) in requested && SecurityOf(r.value.head) !in seen
                      && |r.value.book| == if depth then 5 else 0
  {
    if ParseRecord(record, requested, depth, seen).Ok? {
      var head := ParseHead(record).value;
      HeadFrames(record);
      BodyTail(head.value, head.rest, depth);
      if Signature(record) {
        DivisorScale(record[1..7]);
      }
    }
  }

  lemma HeadFrames(record: bytes)
    ensures var head := ParseHead(record);
            head.Ok? ==> && |record| >= 9 && head.value.rest == record[9..]
                         && record[0] == head.value.value.market && record[1..7] == head.value.value.code
                         && head.value.value.active == Word16(record[7], record[8])
  {
    if ParseHead(record).Ok? {
      var s := record[1..];
      assert s[..6] == record[1..7] && s[6..] == record[7..];
      assert record[7..][2..] == record[9..];
    }
  }

  /** Row by row: each belongs to its record and to a security asked for and not yet seen. */
  ghost predicate Faithful(records: seq<bytes>, rows: seq<Row>, requested: seq<Security>,
                           depth: bool, seen: set<Security>)
    decreases |records|
  {
    |records| == |rows| &&
    (records == [] ||
     (var security := SecurityOf(rows[0].head);
      && Frames(records[0], rows[0]) && |rows[0].book| == (if depth then 5 else 0)
      && security in requested && security !in seen
      && Faithful(records[1..], rows[1..], requested, depth, seen + {security})))
  }

  lemma {:induction false} ParsedFaithfully(records: seq<bytes>, requested: seq<Security>, depth: bool,
                                            seen: set<Security>, before: seq<Row>) returns (rows: seq<Row>)
    requires ParseRows(records, requested, depth, seen, before).Ok?
    ensures ParseRows(records, requested, depth, seen, before) == Ok(before + rows)
    ensures Faithful(records, rows, requested, depth, seen)
    decreases |records|
  {
    if records == [] {
      rows := [];
      assert before + rows == before;
    } else {
      var row := ParseRecord(records[0], requested, depth, seen).value;
      RecordFrames(records[0], requested, depth, seen);
      var rest := ParsedFaithfully(records[1..], requested, depth, seen + {SecurityOf(row.head)}, before + [row]);
      rows := [row] + rest;
      assert rows[1..] == rest;
      assert before + [row] + rest == before + rows;
    }
  }

  lemma {:induction false} FaithfulAt(records: seq<bytes>, rows: seq<Row>, requested: seq<Security>,
                                      depth: bool, seen: set<Security>, k: nat)
    requires Faithful(records, rows, requested, depth, seen) && k < |rows|
    ensures Frames(records[k], rows[k]) && |rows[k].book| == (if depth then 5 else 0)
    ensures SecurityOf(rows[k].head) in requested && SecurityOf(rows[k].head) !in seen
    ensures forall j :: k < j < |rows| ==> SecurityOf(rows[j].head) != SecurityOf(rows[k].head)
    decreases |records|
  {
    var security := SecurityOf(rows[0].head);
    if k > 0 {
      FaithfulAt(records[1..], rows[1..], requested, depth, seen + {security}, k - 1);
      forall j | k < j < |rows|
        ensures SecurityOf(rows[j].head) != SecurityOf(rows[k].head)
      {
        assert rows[j] == rows[1..][j - 1];
      }
    } else {
      forall j | 0 < j < |rows|
        ensures SecurityOf(rows[j].head) != security
      {
        FaithfulAt(records[1..], rows[1..], requested, depth, seen + {security}, j - 1);
      }
    }
  }

  lemma FaithfulAll(records: seq<bytes>, rows: seq<Row>, requested: seq<Security>, depth: bool)
    requires Faithful(records, rows, requested, depth, {}) && |rows| == |records|
    ensures forall k :: 0 <= k < |rows| ==> Frames(records[k], rows[k]) && SecurityOf(rows[k].head) in requested
    ensures forall j, k :: 0 <= j < k < |rows| ==> SecurityOf(rows[j].head) != SecurityOf(rows[k].head)
  {
    hide Faithful, Frames, SecurityOf;
    forall k | 0 <= k < |rows|
      ensures Frames(records[k], rows[k]) && SecurityOf(rows[k].head) in requested
      ensures forall j :: k < j < |rows| ==> SecurityOf(rows[j].head) != SecurityOf(rows[k].head)
    {
      FaithfulAt(records, rows, requested, depth, {}, k);
    }
  }

  /** Any accepted reply: as many rows as it declares, each for a security asked for, no
      security twice, and a cut of the body into records that rebuild it, of which row k
      accounts for the start and the tail of the k-th. */
  lemma AcceptedReply(data: bytes, requested: seq<Security>, depth: bool) returns (records: seq<bytes>)
    ensures ReplyRows(data, requested, depth).Ok? ==>
              var rows := ReplyRows(data, requested, depth).value;
              var plain, header := if depth then Masked(data) else data, if depth then 0 else 2;
              && |plain| >= header + 2 && |rows| == |records| == Word16(plain[header], plain[header + 1])
              && Concat(records) == plain[header + 2..]
              && (forall k :: 0 <= k < |rows| ==>
                    Frames(records[k], rows[k]) && Signature(records[k]) && SecurityOf(rows[k].head) in requested)
              && (forall j, k :: 0 <= j < k < |rows| ==> SecurityOf(rows[j].head) != SecurityOf(rows[k].head))
  {
    hide Frames, Masked, Word16, SplitRecords, Faithful, Concat, Signature, SecurityOf;
    records := [];
    if ReplyRows(data, requested, depth).Ok? {
      var plain, header := if depth then Masked(data) else data, if depth then 0 else 2;
      var count := U16(plain[header..]).value;
      assert plain[header..][2..] == plain[header + 2..];
      records := SplitRecords(count.rest, count.value).value;
      QuoteSplit.SplitRebuilds(count.rest, count.value);
      QuoteSplit.CutIsSigned(count.rest, count.value);
      var rows := ParsedFaithfully(records, requested, depth, {}, []);
      assert [] + rows == rows;
      FaithfulAll(records, rows, requested, depth);
    }
  }
}
