/** The call-auction point series of tdx_auction.c: request, reply, growing series, and the
    one-pass summary of its two segments. */
module Auction {
  import opened Arithmetic
  import opened Wire
  import opened WireNumber
  import opened Buffer

  // ---------------------------------------------------------------- points and series

  /** One record of a reply. Volumes are in lots of a hundred; a positive `signed` volume is
      left over on the buy side. */
  datatype Point = Point(index: nat, minute: nat, second: nat, time: nat, price: real, matched: nat,
                         amount: real, signed: int, unmatched: nat, direction: int, reserved: nat)

  const RECORD := 16
  const LIMIT_MAX := 5000

  /** The points of a series and the room it has. */
  datatype Held = Held(points: seq<Point>, capacity: nat)

  /** Whether the allocator gives a block of so many points. */
  type Allocator = nat -> bool

  function Wanted(capacity: nat): nat {
    if capacity > 0 then 2 * capacity else 128
  }

  predicate CanPush(h: Held, grants: Allocator) {
    |h.points| == h.capacity ==> grants(Wanted(h.capacity))
  }

  function Pushed(h: Held, point: Point, grants: Allocator): Held {
    if !CanPush(h, grants) then h
    else Held(h.points + [point], if |h.points| == h.capacity then Wanted(h.capacity) else h.capacity)
  }

  // ---------------------------------------------------------------- the reply

  /** A time of day and a finite price that is not negative. */
  predicate Acceptable(raw: bytes)
    requires |raw| == RECORD
  {
    var price := Binary32(Word32(raw[2..6]));
    Word16(raw[0], raw[1]) < 24 * 60 && raw[15] < 60 && price.Finite? && price.value >= 0.0
  }

  function Sign(v: int): int {
    if v > 0 then 1 else if v < 0 then -1 else 0
  }

  /** Lots of a hundred shares at a price. */
  function Amount(price: real, matched: nat): real {
    price * matched as real * 100.0
  }

  function PointOf(index: nat, raw: bytes): Point
    requires |raw| == RECORD && Acceptable(raw)
  {
    var minute, second := Word16(raw[0], raw[1]), raw[15] as int;
    var price, matched := Binary32(Word32(raw[2..6])).value, Word32(raw[6..10]);
    var signed := Signed32(Word32(raw[10..14]));
    Point(index, minute, second, minute * 60 + second, price, matched, Amount(price, matched),
          signed, Abs(signed), Sign(signed), raw[14] as int)
  }

  function RecordAt(body: bytes, index: nat): (raw: bytes)
    requires 2 + RECORD * (index + 1) <= |body|
    ensures |raw| == RECORD
  {
    body[2 + RECORD * index..2 + RECORD * index + RECORD]
  }

  /** Appends records `index` and later, up to the first bad one or the first refusal of
      memory; what was appended before it stays. */
  function Load(h: Held, body: bytes, index: nat, count: nat, grants: Allocator): (Held, bool)
    requires index <= count && 2 + RECORD * count <= |body|
    decreases count - index
  {
    if index == count then (h, true)
    else
      var raw := RecordAt(body, index);
      if !Acceptable(raw) || !CanPush(h, grants) then (h, false)
      else Load(Pushed(h, PointOf(index, raw), grants), body, index + 1, count, grants)
  }

  /** The length must be exactly that of the records announced. */
  predicate Framed(body: bytes) {
    |body| >= 2 && |body| == 2 + RECORD * Word16(body[0], body[1])
  }

  function Received(h: Held, body: bytes, grants: Allocator): (Held, bool) {
    if !Framed(body) then (h, false) else Load(h, body, 0, Word16(body[0], body[1]), grants)
  }

  class Series {
    var points: array?<Point>
    var count: nat
    var capacity: nat
    var selector: nat
    var start: nat
    var limit: nat

    ghost predicate Valid()
      reads this
    {
      && (points == null ==> capacity == 0) && (points != null ==> points.Length == capacity)
      && count <= capacity
    }

    ghost function State(): Held
      reads this, points
      requires Valid()
    {
      Held(if points == null then [] else points[..count], capacity)
    }

    constructor ()
      ensures Valid() && State() == Held([], 0)
    {
      points, count, capacity := null, 0, 0;
      selector, start, limit := 0, 0, 0;
    }

    method Push(point: Point, grants: Allocator) returns (ok: bool)
      requires Valid()
      modifies this`points, this`count, this`capacity, points
      ensures Valid() && ok == CanPush(old(State()), grants)
      ensures State() == Pushed(old(State()), point, grants)
      ensures points == old(points) || fresh(points)
    {
      ghost var before := State();
      if count == capacity {
        var wanted := if capacity > 0 then capacity * 2 else 128;
        if !grants(wanted) {
          return false;
        }
        var grown := new Point[wanted];
        if points != null {
          forall i | 0 <= i < count {
            grown[i] := points[i];
          }
        }
        assert grown[..count] == before.points;
        points, capacity := grown, wanted;
      }
      points[count] := point;
      count := count + 1;
      assert points[..count] == before.points + [point];
      ok := true;
    }

    method Parse(body: bytes, selector: nat, start: nat, limit: nat, grants: Allocator) returns (ok: bool)
      requires Valid()
      modifies this, points
      ensures Valid() && (State(), ok) == Received(old(State()), body, grants)
      ensures Framed(body) ==> this.selector == selector && this.start == start && this.limit == limit
      ensures !Framed(body) ==>
                this.selector == old(this.selector) && this.start == old(this.start) && this.limit == old(this.limit)
    {
      if |body| < 2 {
        return false;
      }
      var announced := Word16(body[0], body[1]);
      if |body| != 2 + RECORD * announced {
        return false;
      }
      this.selector, this.start, this.limit := selector, start, limit;
      ghost var outcome := Received(State(), body, grants);
      for index := 0 to announced
        invariant Valid() && Load(State(), body, index, announced, grants) == outcome
        invariant points == old(points) || fresh(points)
        invariant this.selector == selector && this.start == start && this.limit == limit
      {
        hide Acceptable, PointOf, Pushed;
        var raw := RecordAt(body, index);
        var point := ReadRecord(raw, index);
        if point.Err? {
          return false;
        }
        var pushed := Push(point.value, grants);
        if !pushed {
          return false;
        }
      }
      ok := true;
    }
  }

  method ReadRecord(raw: bytes, index: nat) returns (r: Result<Point>)
    requires |raw| == RECORD
    ensures r == if Acceptable(raw) then Ok(PointOf(index, raw)) else Err(BadRecord)
  {
    hide Amount, Word16, Word32, Binary32, Signed32;
    var minute, second := Word16(raw[0], raw[1]), raw[15] as int;
    if minute >= 24 * 60 || second >= 60 {
      return Err(BadRecord);
    }
    var price := Binary32(Word32(raw[2..6]));
    if price.NotFinite? || price.value < 0.0 {
      return Err(BadRecord);
    }
    var matched := Word32(raw[6..10]);
    var signed := Signed32(Word32(raw[10..14]));
    var unmatched := if signed < 0 then -signed else signed;
    var direction := if signed > 0 then 1 else if signed < 0 then -1 else 0;
    r := Ok(Point(index, minute, second, minute * 60 + second, price.value, matched,
                  Amount(price.value, matched), signed, unmatched, direction, raw[14] as int));
  }

  // ---------------------------------------------------------------- the request

  const REQUEST := 28

  /** A market 0, 1 or 2, six ASCII digits, and 1 to 5000 records. */
  predicate Requestable(market: int, code: bytes, limit: nat) {
    0 <= market <= 2 && |code| == 6 && (forall i :: 0 <= i < 6 ==> 48 <= code[i] <= 57) && 1 <= limit <= LIMIT_MAX
  }

  function Request(market: byte, code: bytes, selector: nat, start: nat, limit: nat): bytes
    requires selector < TWO_32 && start < TWO_32 && limit < TWO_32
  {
    [market] + [0] + code + Tail(selector, start, limit)
  }

  function Tail(selector: nat, start: nat, limit: nat): (s: bytes)
    requires selector < TWO_32 && start < TWO_32 && limit < TWO_32
    ensures |s| == 20
  {
    Put32(0) + Put32(selector) + (Put32(0) + Put32(start)) + Put32(limit)
  }

  /** Whether a request finds room without, or may get, more memory. */
  predicate Room(s: Contained, memory: bool) {
    s.limit >= REQUEST && (memory || s.capacity >= REQUEST)
  }

  /** What an append, or several, did: all of it if it succeeded, and a first part otherwise;
      it succeeds if there is room, and without more memory the block stays. */
  ghost predicate Wrote(before: Contained, data: bytes, memory: bool, after: Contained, ok: bool) {
    && (ok ==> after.contents == before.contents + data)
    && (!ok ==> after.contents <= before.contents + data)
    && after.limit == before.limit
    && (Room(before, memory) && |before.contents| + |data| <= REQUEST ==> ok && Room(after, memory))
    && (!memory ==> after.capacity == before.capacity)
  }

  lemma AppendWrote(s: Contained, data: bytes, memory: bool)
    requires data != []
    ensures var op := Op.Append(data, memory); Wrote(s, data, memory, Apply(s, op), Succeeds(s, op))
  {
    hide Doubled;
  }

  lemma WroteTwice(before: Contained, left: bytes, middle: Contained, right: bytes, memory: bool,
                   after: Contained, ok: bool)
    requires Wrote(before, left, memory, middle, true) && Wrote(middle, right, memory, after, ok)
    ensures Wrote(before, left + right, memory, after, ok)
  {
    assert before.contents + left + right == before.contents + (left + right);
  }

  lemma WroteHalf(before: Contained, left: bytes, middle: Contained, right: bytes, memory: bool)
    requires Wrote(before, left, memory, middle, false)
    ensures Wrote(before, left + right, memory, middle, false)
  {
    assert before.contents + (left + right) == before.contents + left + right;
  }

  /** Market, a zero, and the code. */
  method WriteHead(out: Buf, market: byte, code: bytes, memory: bool) returns (ok: bool)
    requires out.Valid() && |code| == 6
    modifies out, out.data
    ensures out.Valid() && (out.data == old(out.data) || fresh(out.data))
    ensures Wrote(old(out.State()), [market] + [0] + code, memory, out.State(), ok)
  {
    hide Wrote, Apply, Succeeds;
    var text := new byte[6](i requires 0 <= i < 6 => code[i]);
    assert text[..6] == code;
    ghost var s0 := out.State();
    AppendWrote(s0, [market], memory);
    ok := out.Push(market, memory);
    ghost var s1 := out.State();
    if !ok {
      WroteHalf(s0, [market], s1, [0], memory);
      WroteHalf(s0, [market] + [0], s1, code, memory);
      return;
    }
    AppendWrote(s1, [0], memory);
    ok := out.Push(0, memory);
    ghost var s2 := out.State();
    WroteTwice(s0, [market], s1, [0], memory, s2, ok);
    if !ok {
      WroteHalf(s0, [market] + [0], s2, code, memory);
      return;
    }
    AppendWrote(s2, code, memory);
    ok := out.Append(text, 6, memory);
    WroteTwice(s0, [market] + [0], s2, code, memory, out.State(), ok);
  }

  method WriteWord(out: Buf, value: nat, memory: bool) returns (ok: bool)
    requires out.Valid() && value < TWO_32
    modifies out, out.data
    ensures out.Valid() && (out.data == old(out.data) || fresh(out.data))
    ensures Wrote(old(out.State()), Put32(value), memory, out.State(), ok)
  {
    hide Wrote, Apply, Succeeds;
    AppendWrote(out.State(), Put32(value), memory);
    ok := out.AppendU32le(value, memory);
  }

  method WriteWords(out: Buf, first: nat, second: nat, memory: bool) returns (ok: bool)
    requires out.Valid() && first < TWO_32 && second < TWO_32
    modifies out, out.data
    ensures out.Valid() && (out.data == old(out.data) || fresh(out.data))
    ensures Wrote(old(out.State()), Put32(first) + Put32(second), memory, out.State(), ok)
  {
    hide Wrote, Put32;
    ghost var s0 := out.State();
    ok := WriteWord(out, first, memory);
    ghost var s1 := out.State();
    if !ok {
      WroteHalf(s0, Put32(first), s1, Put32(second), memory);
      return;
    }
    ok := WriteWord(out, second, memory);
    WroteTwice(s0, Put32(first), s1, Put32(second), memory, out.State(), ok);
  }

  method WriteTail(out: Buf, selector: nat, start: nat, limit: nat, memory: bool) returns (ok: bool)
    requires out.Valid() && selector < TWO_32 && start < TWO_32 && limit < TWO_32
    modifies out, out.data
    ensures out.Valid()
    ensures Wrote(old(out.State()), Tail(selector, start, limit), memory, out.State(), ok)
  {
    hide Wrote, Put32;
    ghost var a, b, c := Put32(0) + Put32(selector), Put32(0) + Put32(start), Put32(limit);
    assert Tail(selector, start, limit) == a + b + c;
    ghost var s0 := out.State();
    ok := WriteWords(out, 0, selector, memory);
    ghost var s1 := out.State();
    if !ok {
      WroteHalf(s0, a, s1, b, memory);
      WroteHalf(s0, a + b, s1, c, memory);
      return;
    }
    ok := WriteWords(out, 0, start, memory);
    ghost var s2 := out.State();
    WroteTwice(s0, a, s1, b, memory, s2, ok);
    if !ok {
      WroteHalf(s0, a + b, s2, c, memory);
      return;
    }
    ok := WriteWord(out, limit, memory);
    WroteTwice(s0, a + b, s2, c, memory, out.State(), ok);
  }

  /** Builds the request in `out`, which it empties first. Arguments that are refused leave
      the buffer alone; without memory a first part of the request stays in it. */
  method BuildRequest(market: int, code: bytes, selector: nat, start: nat, limit: nat, out: Buf, memory: bool)
    returns (ok: bool)
    requires out.Valid() && selector < TWO_32 && start < TWO_32 && limit < TWO_32
    modifies out, out.data
    ensures out.Valid()
    ensures ok <==> Requestable(market, code, limit) && Room(old(out.State()), memory)
    ensures ok ==> out.Contents() == Request(market, code, selector, start, limit)
    ensures !Requestable(market, code, limit) ==> out.State() == old(out.State())
    ensures Requestable(market, code, limit) && !ok ==>
              out.Contents() < Request(market, code, selector, start, limit) && out.cap == old(out.cap)
  {
    hide Tail;
    if market < 0 || market > 2 {
      return false;
    }
    if |code| != 6 {
      return false;
    }
    for index := 0 to 6
      invariant forall i :: 0 <= i < index ==> 48 <= code[i] <= 57
    {
      if code[index] < 48 || code[index] > 57 {
        return false;
      }
    }
    if limit < 1 || limit > LIMIT_MAX {
      return false;
    }
    out.ClearAll();
    ghost var s0 := out.State();
    ok := WriteHead(out, market, code, memory);
    ghost var s1 := out.State();
    ghost var head, tail := [market as byte] + [0] + code, Tail(selector, start, limit);
    if !ok {
      WroteHalf(s0, head, s1, tail, memory);
      return;
    }
    ok := WriteTail(out, selector, start, limit, memory);
    WroteTwice(s0, head, s1, tail, memory, out.State(), ok);
  }
}
