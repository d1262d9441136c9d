/** Replies whose records do not all start with a signature: how one is cut in the wrong
    place and accepted. */
module QuoteCuts {
  import opened Arithmetic
  import opened Wire
  import opened VarintCodec
  import opened Quotes
  import opened QuoteRoundTrip
  import QuoteSplit

  /** A reply with arbitrary records, declaring how many there are. */
  function Frame(records: seq<bytes>, depth: bool, first: byte, second: byte): bytes
    requires |records| < 0x1_0000
  {
    var body := Put16(|records|) + Concat(records);
    if depth then Masked(body) else [first, second] + body
  }

  lemma ConcatTwo(a: bytes, b: bytes)
    ensures Concat([a, b]) == a + b
  {
    assert [a, b][1..] == [b] && [b][1..] == [];
    assert Concat([b]) == b + Concat([]);
  }

  lemma PutTwo(q1: Quote, q2: Quote, depth: bool)
    requires Printable(q1, depth) && Printable(q2, depth)
    ensures AllPrintable([q1, q2], depth)
    ensures PutQuotes([q1, q2], depth) == [PutQuote(q1), PutQuote(q2)]
    ensures RowsOf([q1, q2], depth) == [RowOf(q1, depth), RowOf(q2, depth)]
  {
    assert [q1, q2][1..] == [q2] && [q2][1..] == [];
    assert PutQuotes([q2], depth) == [PutQuote(q2)];
    assert RowsOf([q2], depth) == [RowOf(q2, depth)];
  }

  /** What a record's tail is does not matter to its printing, which ends with it. */
  lemma LongerTail(q: Quote, depth: bool, stray: bytes)
    requires Printable(q, depth)
    ensures var longer := q.(tail := q.tail + stray);
            Printable(longer, depth) && PutQuote(longer) == PutQuote(q) + stray
  {
    var longer := q.(tail := q.tail + stray);
    assert PutTrading(longer) == PutTrading(q);
    hide PutHead, PutTrading, PutSigned, PutBook;
    var book := PutBook(q.book, q.prices[0]);
    assert book + (q.tail + stray) == (book + q.tail) + stray;
  }

  lemma WrongCutFrame(q1: Quote, q2: Quote, depth: bool, stray: bytes, first: byte, second: byte)
    requires Printable(q1, depth) && Printable(q2, depth)
    ensures var longer := q2.(tail := q2.tail + stray);
            && Printable(longer, depth) && AllPrintable([q1, longer], depth)
            && PutReply([q1, longer], depth, first, second)
               == Frame([PutQuote(q1) + PutQuote(q2), stray], depth, first, second)
  {
    var longer := q2.(tail := q2.tail + stray);
    LongerTail(q2, depth, stray);
    PutTwo(q1, longer, depth);
    var a, b := PutQuote(q1), PutQuote(q2);
    hide PutQuote, Printable, PutQuotes, Concat, Masked;
    ConcatTwo(a, b + stray);
    ConcatTwo(a + b, stray);
    assert a + (b + stray) == (a + b) + stray;
  }

  /** Two records back to back where the peer has one, followed by bytes without a signature
      where it has another: the reply is cut in the wrong place, and accepted. */
  lemma WrongCut(q1: Quote, q2: Quote, requested: seq<Security>, depth: bool, stray: bytes, first: byte, second: byte)
    requires Printable(q1, depth) && Printable(q2, depth) && SecurityOf(q1.head) != SecurityOf(q2.head)
    requires SecurityOf(q1.head) in requested && SecurityOf(q2.head) in requested
    requires QuoteSplit.Sole(PutQuote(q1)) && QuoteSplit.Sole(PutQuote(q2) + stray)
    ensures ReplyRows(Frame([PutQuote(q1) + PutQuote(q2), stray], depth, first, second), requested, depth)
            == Ok([RowOf(q1, depth), RowOf(q2.(tail := q2.tail + stray), depth)])
  {
    var longer := q2.(tail := q2.tail + stray);
    WrongCutFrame(q1, q2, depth, stray, first, second);
    LongerTail(q2, depth, stray);
    PutTwo(q1, longer, depth);
    hide Printable, PutQuote, RowOf, QuoteSplit.Sole, PutReply, ReplyRows, Frame, PutQuotes, RowsOf;
    ReplyRoundTrip([q1, longer], requested, depth, first, second);
  }

  // ---------------------------------------------------------------- a concrete one

  /** A snapshot record in which every number is zero. */
  function Zero(code: bytes): Quote {
    Quote(Head(1, code, 0), [0, 0, 0, 0, 0], Snapshot(0, 0), [0, 0], 0, [0, 0, 0, 0], [], [])
  }

  predicate IsCode(code: bytes) {
    |code| == 6 && forall i :: 0 <= i < 6 ==> IsDigit(code[i])
  }

  ghost predicate NoDigit(s: bytes) {
    forall i :: 0 <= i < |s| ==> !IsDigit(s[i])
  }

  lemma NoDigitAppend(left: bytes, right: bytes)
    requires NoDigit(left) && NoDigit(right)
    ensures NoDigit(left + right)
  {
  }

  lemma NoDigitWords()
    ensures NoDigit(Put16(0)) && NoDigit(Put32(0)) && NoDigit([])
  {
  }

  lemma ZeroFits(values: seq<int>)
    requires forall i :: 0 <= i < |values| ==> values[i] == 0
    ensures AllFit(values)
  {
    Pow2Grows(0, 55);
  }

  lemma {:induction false} ZeroDigits(values: seq<int>)
    requires forall i :: 0 <= i < |values| ==> values[i] == 0
    ensures NoDigit(PutSigned(values))
    decreases |values|
  {
    if values != [] {
      ZeroDigits(values[1..]);
      assert Signed(0) == [0];
    }
  }

  lemma ZeroPrintable(code: bytes)
    requires IsCode(code)
    ensures Printable(Zero(code), false)
  {
    ZeroFits([0, 0, 0, 0, 0]);
    ZeroFits([0, 0]);
    ZeroFits([0, 0, 0, 0]);
    hide AllFit;
    assert Deltas([0, 0, 0, 0, 0]) == [0, 0, 0, 0, 0];
  }

  /** The record behind its code. */
  function ZeroBehind(): bytes {
    Put16(0) + (ZeroTrading() + PutSigned([0, 0, 0, 0]))
  }

  function ZeroTrading(): bytes {
    PutSigned([0, 0, 0, 0, 0]) + (PutSigned([0, 0]) + (PutSigned([0, 0]) + Put32(0)))
  }

  lemma Regroup(market: bytes, code: bytes, active: bytes, rest: bytes)
    ensures market + (code + active) + rest == market + code + (active + rest)
  {
  }

  lemma ZeroShape(code: bytes)
    ensures PutQuote(Zero(code)) == [1] + code + ZeroBehind()
  {
    hide PutSigned, Put16, Put32;
    var q := Zero(code);
    assert Deltas(q.prices) == [0, 0, 0, 0, 0];
    assert PutTrading(q) == ZeroTrading();
    hide PutTrading, ZeroTrading;
    var sides := PutSigned([0, 0, 0, 0]);
    assert PutBook(q.book, 0) + q.tail == [] && sides + [] == sides;
    Regroup([1], code, Put16(0), ZeroTrading() + sides);
  }

  lemma ZeroBehindPlain()
    ensures NoDigit(ZeroBehind())
  {
    ZeroDigits([0, 0, 0, 0, 0]);
    ZeroDigits([0, 0]);
    ZeroDigits([0, 0, 0, 0]);
    NoDigitWords();
    hide PutSigned, NoDigit, Put16, Put32;
    var pair := PutSigned([0, 0]);
    NoDigitAppend(pair, Put32(0));
    NoDigitAppend(pair, pair + Put32(0));
    NoDigitAppend(PutSigned([0, 0, 0, 0, 0]), pair + (pair + Put32(0)));
    NoDigitAppend(ZeroTrading(), PutSigned([0, 0, 0, 0]));
    NoDigitAppend(Put16(0), ZeroTrading() + PutSigned([0, 0, 0, 0]));
  }

  lemma SoleBehind(code: bytes, behind: bytes)
    requires IsCode(code) && NoDigit(behind)
    ensures QuoteSplit.Sole([1] + code + behind)
  {
    var s := [1] + code + behind;
    forall i | 0 < i <= |s|
      ensures !Signature(s[i..])
    {
      if i <= 6 && i < |s| {
        assert s[i..][0] == code[i - 1];
      } else if i + 1 < |s| {
        assert s[i..][1] == behind[i - 6];
      }
    }
  }

  lemma ZeroSole(code: bytes, stray: bytes)
    requires IsCode(code) && NoDigit(stray)
    ensures Printable(Zero(code), false) && QuoteSplit.Sole(PutQuote(Zero(code)) + stray)
  {
    ZeroPrintable(code);
    ZeroShape(code);
    ZeroBehindPlain();
    hide PutQuote, ZeroBehind, IsCode;
    NoDigitAppend(ZeroBehind(), stray);
    SoleBehind(code, ZeroBehind() + stray);
    assert [1] + code + ZeroBehind() + stray == [1] + code + (ZeroBehind() + stray);
  }

  lemma ZeroWrongCut(a: bytes, b: bytes, stray: bytes)
    requires IsCode(a) && IsCode(b) && a != b && NoDigit(stray)
    ensures ReplyRows(Frame([PutQuote(Zero(a)) + PutQuote(Zero(b)), stray], false, 0, 0), [(1, a), (1, b)], false)
            == Ok([RowOf(Zero(a), false), RowOf(Zero(b).(tail := stray), false)])
  {
    ZeroSole(a, []);
    ZeroSole(b, stray);
    hide Printable, PutQuote, RowOf, QuoteSplit.Sole, ReplyRows, Frame, IsCode, NoDigit;
    assert PutQuote(Zero(a)) + [] == PutQuote(Zero(a));
    var requested: seq<Security> := [(1, a), (1, b)];
    assert requested[0] == SecurityOf(Zero(a).head) && requested[1] == SecurityOf(Zero(b).head);
    WrongCut(Zero(a), Zero(b), requested, false, stray, 0, 0);
    assert [] + stray == stray;
  }

  /** The records of 600000 and 600001 sent as one, then a single byte 9, declared as two:
      the parser answers with both securities, the byte 9 being taken for a tail. */
  lemma WrongCutAccepted()
    ensures var a, b: bytes := [0x36, 0x30, 0x30, 0x30, 0x30, 0x30], [0x36, 0x30, 0x30, 0x30, 0x30, 0x31];
            ReplyRows(Frame([PutQuote(Zero(a)) + PutQuote(Zero(b)), [9]], false, 0, 0), [(1, a), (1, b)], false)
            == Ok([RowOf(Zero(a), false), RowOf(Zero(b).(tail := [9]), false)])
  {
    hide PutQuote, RowOf, ReplyRows, Frame, Zero;
    var a, b: bytes := [0x36, 0x30, 0x30, 0x30, 0x30, 0x30], [0x36, 0x30, 0x30, 0x30, 0x30, 0x31];
    assert a[5] != b[5];
    ZeroWrongCut(a, b, [9]);
  }
}
