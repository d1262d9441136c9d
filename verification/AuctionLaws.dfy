/** What an auction reply delivers and what its summary means. */
module AuctionLaws {
  import opened Arithmetic
  import opened Wire
  import opened WireNumber
  import Buffer
  import opened Auction
  import opened AuctionSummary

  // ---------------------------------------------------------------- requests

  /** A request can be made for a market 0, 1 or 2, a code that is six decimal digits of a
      number, and one to five thousand records. */
  lemma RequestableMeaning(market: int, code: bytes, limit: nat)
    ensures Requestable(market, code, limit)
            <==> market in {0, 1, 2} && |code| == 6 && (exists n: nat :: code == Decimal(n, 6)) && 1 <= limit <= 5000
  {
    if |code| == 6 {
      DecimalMeaning(code);
      hide Decimal;
    }
  }

  /** A request finds room exactly when 28 bytes can be appended to the emptied buffer. */
  lemma RequestRoom(s: Buffer.Contained, request: bytes, memory: bool)
    requires |request| == 28
    ensures Room(s, memory) <==> Buffer.Succeeds(Buffer.Cleared(s), Buffer.Op.Append(request, memory))
  {
  }

  /** Every argument can be read back from the 28 bytes of a request. */
  lemma RequestMeaning(market: byte, code: bytes, selector: nat, start: nat, limit: nat)
    requires |code| == 6 && selector < TWO_32 && start < TWO_32 && limit < TWO_32
    ensures var request := Request(market, code, selector, start, limit);
            && |request| == 28 && request[0] == market && request[1] == 0 && request[2..8] == code
            && Word32(request[8..12]) == 0 && Word32(request[12..16]) == selector
            && Word32(request[16..20]) == 0 && Word32(request[20..24]) == start
            && Word32(request[24..28]) == limit
  {
    Word32Put32(0);
    Word32Put32(selector);
    Word32Put32(start);
    Word32Put32(limit);
    hide Put32, Word32;
    var request := Request(market, code, selector, start, limit);
    var tail := Tail(selector, start, limit);
    assert request == [market, 0] + code + tail;
    assert request[8..12] == Put32(0) && request[12..16] == Put32(selector);
    assert request[16..20] == Put32(0) && request[20..24] == Put32(start) && request[24..28] == Put32(limit);
  }

  // ---------------------------------------------------------------- replies

  /** Record `k` of a reply is acceptable and reads as `point`. */
  ghost predicate IsRecord(body: bytes, k: nat, point: Point) {
    2 + RECORD * (k + 1) <= |body| && Acceptable(RecordAt(body, k)) && point == PointOf(k, RecordAt(body, k))
  }

  /** The points are records `from` and later of a reply, in order. */
  ghost predicate AreRecords(body: bytes, from: nat, points: seq<Point>) {
    forall i :: 0 <= i < |points| ==> IsRecord(body, from + i, points[i])
  }

  /** Whatever the allocator does, a series gains the first so many records of a reply, all
      of them acceptable: all there are if it succeeds; and if it fails, the next one was
      bad or found no memory. */
  lemma {:induction false} LoadAppends(h: Held, body: bytes, from: nat, count: nat, grants: Allocator)
    returns (points: seq<Point>)
    requires from <= count && 2 + RECORD * count <= |body|
    ensures var (held, ok) := Load(h, body, from, count, grants);
            && held.points == h.points + points && AreRecords(body, from, points)
            && from + |points| <= count && (ok <==> from + |points| == count)
            && (!ok ==> !Acceptable(RecordAt(body, from + |points|))
                        || (|held.points| == held.capacity && !grants(Wanted(held.capacity))))
    decreases count - from
  {
    hide Acceptable, PointOf, RecordAt, Wanted;
    if from == count || !Acceptable(RecordAt(body, from)) || !CanPush(h, grants) {
      points := [];
    } else {
      var point := PointOf(from, RecordAt(body, from));
      var rest := LoadAppends(Pushed(h, point, grants), body, from + 1, count, grants);
      points := [point] + rest;
      assert h.points + [point] + rest == h.points + points;
      RecordsCons(body, from, point, rest);
    }
  }

  lemma RecordsCons(body: bytes, from: nat, point: Point, rest: seq<Point>)
    requires IsRecord(body, from, point) && AreRecords(body, from + 1, rest)
    ensures AreRecords(body, from, [point] + rest)
  {
    hide IsRecord;
    forall i | 0 <= i < |[point] + rest|
      ensures IsRecord(body, from + i, ([point] + rest)[i])
    {
      if i > 0 {
        assert IsRecord(body, from + 1 + (i - 1), rest[i - 1]);
      }
    }
  }

  /** Every record of a framed reply is acceptable. */
  ghost predicate AllAcceptable(body: bytes)
    requires Framed(body)
  {
    forall k :: 0 <= k < Word16(body[0], body[1]) ==> Acceptable(RecordAt(body, k))
  }

  /** When memory is never refused, exactly the well-framed replies with acceptable records
      are accepted, and the series gains one point for each record, in order. */
  lemma ReplyAccepted(h: Held, body: bytes, grants: Allocator)
    requires forall size :: grants(size)
    ensures Received(h, body, grants).1 <==> Framed(body) && AllAcceptable(body)
    ensures Received(h, body, grants).1 ==>
              var points := Received(h, body, grants).0.points;
              && |points| == |h.points| + Word16(body[0], body[1]) && points[..|h.points|] == h.points
              && AreRecords(body, 0, points[|h.points|..])
  {
    if Framed(body) {
      hide Acceptable, Word16, PointOf, RecordAt, Load;
      var count := Word16(body[0], body[1]);
      var points := LoadAppends(h, body, 0, count, grants);
      assert (h.points + points)[|h.points|..] == points;
      if |points| == count {
        forall k | 0 <= k < count
          ensures Acceptable(RecordAt(body, k))
        {
          assert IsRecord(body, 0 + k, points[k]);
        }
      }
    }
  }

  // ---------------------------------------------------------------- room

  /** The least room of 128 points doubled so and so often that holds `count` of them; none
      for none. */
  ghost predicate RoomFor(capacity: nat, count: nat) {
    if count == 0 then capacity == 0
    else exists k: nat :: capacity == Shl(128, k) && count <= capacity && (k > 0 ==> Shl(128, k - 1) < count)
  }

  lemma PushRoom(h: Held, point: Point, grants: Allocator)
    requires CanPush(h, grants) && RoomFor(h.capacity, |h.points|)
    ensures RoomFor(Pushed(h, point, grants).capacity, |h.points| + 1)
  {
    if |h.points| == 0 {
      assert Shl(128, 0) == 128;
    } else {
      var k: nat :| h.capacity == Shl(128, k) && |h.points| <= h.capacity && (k > 0 ==> Shl(128, k - 1) < |h.points|);
      if |h.points| == h.capacity {
        assert Shl(128, k + 1) == 2 * h.capacity;
        assert Shl(128, (k + 1) - 1) < |h.points| + 1;
      }
    }
  }

  /** A series always has the least such room for its points; it asks for more only when that
      is full, and then for twice as much. */
  lemma {:induction false} LoadRoom(h: Held, body: bytes, from: nat, count: nat, grants: Allocator)
    requires from <= count && 2 + RECORD * count <= |body| && RoomFor(h.capacity, |h.points|)
    ensures var held := Load(h, body, from, count, grants).0; RoomFor(held.capacity, |held.points|)
    decreases count - from
  {
    hide Acceptable, PointOf, RecordAt, RoomFor, Pushed;
    if from < count && Acceptable(RecordAt(body, from)) && CanPush(h, grants) {
      var point := PointOf(from, RecordAt(body, from));
      PushRoom(h, point, grants);
      PushedLength(h, point, grants);
      LoadRoom(Pushed(h, point, grants), body, from + 1, count, grants);
    }
  }

  lemma PushedLength(h: Held, point: Point, grants: Allocator)
    requires CanPush(h, grants)
    ensures |Pushed(h, point, grants).points| == |h.points| + 1
  {
  }

  lemma ReceivedRoom(body: bytes, grants: Allocator)
    ensures var held := Received(Held([], 0), body, grants).0; RoomFor(held.capacity, |held.points|)
  {
    hide Load;
    if Framed(body) {
      LoadRoom(Held([], 0), body, 0, Word16(body[0], body[1]), grants);
    }
  }

  /** What a record says, before any of it is derived. */
  datatype Fields = Fields(minute: nat, price: nat, matched: nat, signed: int, reserved: byte, second: byte)

  predicate Encodable(f: Fields) {
    f.minute < 0x1_0000 && f.price < TWO_32 && f.matched < TWO_32 && -TWO_31 <= f.signed < TWO_31
  }

  function PutRecord(f: Fields): (raw: bytes)
    requires Encodable(f)
    ensures |raw| == RECORD
  {
    Put16(f.minute) + Put32(f.price) + Put32(f.matched)
    + Put32(Unsigned32(f.signed)) + [f.reserved, f.second]
  }

  /** A record is accepted exactly for a time of day and a finite price not below zero, and
      the point has the fields written, the two volumes agreeing in size and side. */
  lemma RecordRoundTrip(f: Fields, index: nat)
    requires Encodable(f)
    ensures Acceptable(PutRecord(f))
            <==> f.minute < 1440 && f.second < 60 && Binary32(f.price).Finite? && Binary32(f.price).value >= 0.0
    ensures Acceptable(PutRecord(f)) ==>
              var p := PointOf(index, PutRecord(f));
              && p.index == index && p.minute == f.minute && p.second == f.second as int
              && p.price == Binary32(f.price).value && p.matched == f.matched && p.signed == f.signed
              && p.reserved == f.reserved as int && p.signed == p.direction * p.unmatched
              && (p.direction == 1 <==> f.signed > 0) && (p.direction == -1 <==> f.signed < 0)
              && (p.direction == 0 <==> f.signed == 0)
              && p.amount == Binary32(f.price).value * f.matched as real * 100.0
              && p.time == 60 * p.minute + p.second && p.time < 86400
  {
    hide Amount, Sign, Abs, PutRecord, Word32, Word16, Binary32, Unsigned32, Signed32;
    RecordWords(f);
    SignedUnsigned(f.signed);
    if Binary32(f.price).Finite? {
      AmountMeaning(Binary32(f.price).value, f.matched);
    }
    SideMeaning(f.signed);
  }

  lemma RecordWords(f: Fields)
    requires Encodable(f)
    ensures var raw := PutRecord(f);
            && Word16(raw[0], raw[1]) == f.minute && Word32(raw[2..6]) == f.price
            && Word32(raw[6..10]) == f.matched && Word32(raw[10..14]) == Unsigned32(f.signed)
            && raw[14] == f.reserved && raw[15] == f.second
  {
    hide Word32, Put32, Put16, Word16;
    var raw := PutRecord(f);
    var unsigned := Unsigned32(f.signed);
    Put16RoundTrip(f.minute, []);
    Word32Put32(f.price);
    Word32Put32(f.matched);
    Word32Put32(unsigned);
    assert Put16(f.minute) + [] == Put16(f.minute);
    assert raw[0] == Put16(f.minute)[0] && raw[1] == Put16(f.minute)[1];
    assert raw[2..6] == Put32(f.price) && raw[6..10] == Put32(f.matched) && raw[10..14] == Put32(unsigned);
  }

  lemma AmountMeaning(price: real, matched: nat)
    ensures Amount(price, matched) == price * matched as real * 100.0
  {
  }

  lemma SideMeaning(signed: int)
    ensures signed == Sign(signed) * Abs(signed) && Abs(signed) >= 0
    ensures Sign(signed) == if signed > 0 then 1 else if signed < 0 then -1 else 0
  {
  }

  function PutRecords(fields: seq<Fields>): (s: bytes)
    requires forall k :: 0 <= k < |fields| ==> Encodable(fields[k])
    ensures |s| == RECORD * |fields|
  {
    if fields == [] then [] else PutRecords(fields[..|fields| - 1]) + PutRecord(fields[|fields| - 1])
  }

  function PutReply(fields: seq<Fields>): bytes
    requires |fields| < 0x1_0000 && forall k :: 0 <= k < |fields| ==> Encodable(fields[k])
  {
    Put16(|fields|) + PutRecords(fields)
  }

  lemma {:induction false} RecordInPlace(fields: seq<Fields>, k: nat, head: bytes)
    requires |head| == 2 && k < |fields|
    requires forall i :: 0 <= i < |fields| ==> Encodable(fields[i])
    ensures RecordAt(head + PutRecords(fields), k) == PutRecord(fields[k])
    decreases |fields|
  {
    hide PutRecord;
    var last := |fields| - 1;
    var before, record := PutRecords(fields[..last]), PutRecord(fields[last]);
    if k == last {
      assert (head + (before + record))[2 + RECORD * k..2 + RECORD * k + RECORD] == record;
    } else {
      RecordInPlace(fields[..last], k, head);
      assert (head + (before + record))[2 + RECORD * k..2 + RECORD * k + RECORD]
             == (head + before)[2 + RECORD * k..2 + RECORD * k + RECORD];
    }
  }

  /** Written and received again, a series has one point for each record, in order, with the
      fields written. */
  lemma ReplyRoundTrip(fields: seq<Fields>, grants: Allocator)
    requires |fields| < 0x1_0000 && forall k :: 0 <= k < |fields| ==> Encodable(fields[k])
    requires forall k :: 0 <= k < |fields| ==> Acceptable(PutRecord(fields[k]))
    requires forall size :: grants(size)
    ensures var (held, ok) := Received(Held([], 0), PutReply(fields), grants);
            && ok && |held.points| == |fields|
            && forall k :: 0 <= k < |fields| ==> held.points[k] == PointOf(k, PutRecord(fields[k]))
  {
    hide Acceptable, PointOf, PutRecord, PutRecords, Received, RecordAt, Word16, Put16;
    var body := PutReply(fields);
    CountInPlace(|fields|, PutRecords(fields));
    forall k | 0 <= k < |fields|
      ensures RecordAt(body, k) == PutRecord(fields[k])
    {
      RecordInPlace(fields, k, Put16(|fields|));
    }
    ReplyAccepted(Held([], 0), body, grants);
    var points := Received(Held([], 0), body, grants).0.points;
    assert points[0..] == points;
    forall k | 0 <= k < |fields|
      ensures points[k] == PointOf(k, PutRecord(fields[k]))
    {
      assert IsRecord(body, 0 + k, points[k]);
    }
  }

  lemma CountInPlace(count: nat, rest: bytes)
    requires count < 0x1_0000
    ensures var s := Put16(count) + rest; Word16(s[0], s[1]) == count
  {
    Put16RoundTrip(count, rest);
  }

  // ---------------------------------------------------------------- summaries

  lemma OnlyLast(points: seq<Point>, p: Point, opening: bool)
    ensures Only(points + [p], opening)
            == if (p.minute < NOON) == opening then Only(points, opening) + [p] else Only(points, opening)
  {
    assert (points + [p])[..|points|] == points;
  }

  lemma MultisetLast(points: seq<Point>, p: Point)
    ensures multiset(points + [p]) == multiset(points) + multiset{p}
  {
  }

  /** The two segments share out the points: none is lost, none counted twice. */
  lemma {:induction false} SegmentsPartition(points: seq<Point>)
    ensures multiset(Only(points, true)) + multiset(Only(points, false)) == multiset(points)
    ensures |Only(points, true)| + |Only(points, false)| == |points|
  {
    if points != [] {
      var before, p := points[..|points| - 1], points[|points| - 1];
      assert points == before + [p];
      SegmentsPartition(before);
      OnlyLast(before, p, true);
      OnlyLast(before, p, false);
      hide Only;
      MultisetLast(before, p);
      MultisetLast(Only(before, p.minute < NOON), p);
    }
  }

  /** Every point of a segment is on the segment's side of noon. */
  lemma {:induction false} SideOfNoon(points: seq<Point>, opening: bool)
    ensures forall i :: 0 <= i < |Only(points, opening)| ==> (Only(points, opening)[i].minute < 12 * 60) == opening
  {
    if points != [] {
      SideOfNoon(points[..|points| - 1], opening);
    }
  }

  /** Places of points in a series, in order. */
  ghost predicate Places(at: seq<nat>, count: nat) {
    && (forall k :: 0 <= k < |at| ==> at[k] < count)
    && forall j, k :: 0 <= j < k < |at| ==> at[j] < at[k]
  }

  lemma PlacesSnoc(at: seq<nat>, count: nat)
    requires Places(at, count)
    ensures Places(at, count + 1) && Places(at + [count], count + 1)
  {
  }

  /** A segment keeps the order of its points. */
  lemma {:induction false} OrderKept(points: seq<Point>, opening: bool) returns (at: seq<nat>)
    ensures Places(at, |points|) && |at| == |Only(points, opening)|
    ensures forall k :: 0 <= k < |at| ==> Only(points, opening)[k] == points[at[k]]
  {
    at := [];
    if points != [] {
      var last := |points| - 1;
      at := OrderKept(points[..last], opening);
      PlacesSnoc(at, last);
      hide Places;
      if (points[last].minute < NOON) == opening {
        at := at + [last];
      }
    }
  }

  // ---------------------------------------------------------------- counts

  lemma CountLast(fewer: set<int>, more: set<int>, last: int, counted: bool)
    requires last !in fewer && more == fewer + if counted then {last} else {}
    ensures |more| == |fewer| + if counted then 1 else 0
  {
  }

  ghost predicate DiffersAt(values: seq<int>, i: int) {
    0 < i < |values| && values[i] != values[i - 1]
  }

  ghost predicate FallsAt(points: seq<Point>, i: int) {
    0 < i < |points| && points[i].matched < points[i - 1].matched
  }

  ghost predicate ReservedAt(points: seq<Point>, i: int) {
    0 <= i < |points| && points[i].reserved != 0
  }

  /** The changes are the places where an entry differs from the one before it. */
  lemma {:induction false} ChangesCount(values: seq<int>)
    ensures Changes(values) == |set i: int | 0 < i < |values| && DiffersAt(values, i)|
  {
    var more := set i: int | 0 < i < |values| && DiffersAt(values, i);
    if |values| < 2 {
      assert more == {};
    } else {
      var last := |values| - 1;
      var before := values[..last];
      ChangesCount(before);
      var fewer := set i: int | 0 < i < |before| && DiffersAt(before, i);
      assert more == fewer + if DiffersAt(values, last) then {last} else {};
      CountLast(fewer, more, last, DiffersAt(values, last));
    }
  }

  /** The descents are the places where less is matched than at the point before. */
  lemma {:induction false} DescentsCount(points: seq<Point>)
    ensures Descents(points) == |set i: int | 0 < i < |points| && FallsAt(points, i)|
  {
    var more := set i: int | 0 < i < |points| && FallsAt(points, i);
    if |points| < 2 {
      assert more == {};
    } else {
      var last := |points| - 1;
      var before := points[..last];
      DescentsCount(before);
      var fewer := set i: int | 0 < i < |before| && FallsAt(before, i);
      assert more == fewer + if FallsAt(points, last) then {last} else {};
      CountLast(fewer, more, last, FallsAt(points, last));
    }
  }

  /** The reserved points are those whose reserved byte is not zero. */
  lemma {:induction false} ReservedCount(points: seq<Point>)
    ensures Reserved(points) == |set i: int | 0 <= i < |points| && ReservedAt(points, i)|
  {
    var more := set i: int | 0 <= i < |points| && ReservedAt(points, i);
    if points == [] {
      assert more == {};
    } else {
      var last := |points| - 1;
      var before := points[..last];
      ReservedCount(before);
      var fewer := set i: int | 0 <= i < |before| && ReservedAt(before, i);
      assert more == fewer + if ReservedAt(points, last) then {last} else {};
      CountLast(fewer, more, last, ReservedAt(points, last));
    }
  }

  /** Every point with a direction is at one of the places. */
  ghost predicate AllDirections(at: seq<nat>, points: seq<Point>) {
    forall i :: 0 <= i < |points| && points[i].direction != 0 ==> i in at
  }

  lemma AllDirectionsSnoc(at: seq<nat>, points: seq<Point>, p: Point)
    requires AllDirections(at, points)
    ensures AllDirections(at + [|points|], points + [p])
    ensures p.direction == 0 ==> AllDirections(at, points + [p])
  {
    forall i | 0 <= i < |points + [p]| && (points + [p])[i].direction != 0
      ensures i in at + [|points|] && (i < |points| ==> i in at)
    {
      if i < |points| {
        assert points[i] == (points + [p])[i];
      } else {
        assert (at + [i])[|at|] == i;
      }
    }
  }

  /** The directions are those of the points that have one, in order. */
  lemma {:induction false} DirectionsKept(points: seq<Point>) returns (at: seq<nat>)
    ensures Places(at, |points|) && |at| == |Directions(points)|
    ensures forall k :: 0 <= k < |at| ==> Directions(points)[k] == points[at[k]].direction != 0
    ensures AllDirections(at, points)
  {
    at := [];
    if points != [] {
      var last := |points| - 1;
      var before := points[..last];
      at := DirectionsKept(before);
      PlacesSnoc(at, last);
      AllDirectionsSnoc(at, before, points[last]);
      assert points == before + [points[last]];
      hide Places, AllDirections;
      if points[last].direction != 0 {
        at := at + [last];
      }
    }
  }

  lemma SegmentCount(s: Segment, points: seq<Point>)
    requires Summarises(s, points)
    ensures s.count == |points| && (s.hasPoints <==> points != [])
  {
  }

  /** The summary is determined by the points, and its two segments account for all of them. */
  lemma SummaryDetermined(a: Summary, b: Summary, points: seq<Point>)
    requires Describes(a, points) && Describes(b, points)
    ensures a == b && a.opening.count + a.closing.count == a.count
  {
    hide Summarises;
    SummaryUnique(a.opening, b.opening, Only(points, true));
    SummaryUnique(a.closing, b.closing, Only(points, false));
    SegmentCount(a.opening, Only(points, true));
    SegmentCount(a.closing, Only(points, false));
    SegmentsPartition(points);
    if |points| >= 2 {
      var i :| WidestAt(points, |points|, i) && a.gap == Gap(points, i)
               && a.gapAfter == points[i - 1].time && a.gapBefore == points[i].time;
      var j :| WidestAt(points, |points|, j) && b.gap == Gap(points, j)
               && b.gapAfter == points[j - 1].time && b.gapBefore == points[j].time;
      assert i == j;
    }
  }

  /** The step to point `i` takes no longer than `gap`. */
  ghost predicate NoLonger(points: seq<Point>, i: int, gap: int) {
    0 < i < |points| ==> points[i].time - points[i - 1].time <= gap
  }

  /** The gap reported is the time between two neighbours, and no two are further apart. */
  lemma WidestGap(s: Summary, points: seq<Point>)
    requires Describes(s, points) && |points| >= 2
    ensures s.hasGap && s.gap == s.gapBefore - s.gapAfter
    ensures exists i :: 0 < i < |points| && points[i].time == s.gapBefore && points[i - 1].time == s.gapAfter
    ensures forall i :: 0 < i < |points| ==> NoLonger(points, i, s.gap)
  {
    hide Summarises;
    var widest :| WidestAt(points, |points|, widest) && s.gap == Gap(points, widest)
                  && s.gapAfter == points[widest - 1].time && s.gapBefore == points[widest].time;
    forall i | 0 < i < |points|
      ensures NoLonger(points, i, s.gap)
    {
      assert Gap(points, i) <= Gap(points, widest);
    }
  }

  /** No change of side is counted exactly when all leftover volume was on one side. */
  lemma {:induction false} NoChanges(values: seq<int>)
    ensures Changes(values) == 0 <==> forall i, j :: 0 <= i < j < |values| ==> values[i] == values[j]
  {
    if |values| >= 2 {
      var last := |values| - 1;
      var fewer := values[..last];
      NoChanges(fewer);
      if Changes(values) == 0 {
        forall i, j | 0 <= i < j < |values|
          ensures values[i] == values[j]
        {
          assert fewer[i] == values[i] && fewer[last - 1] == values[last - 1];
          assert j < last ==> fewer[j] == values[j];
        }
      } else if values[last - 1] == values[last] {
        var i, j :| 0 <= i < j < last && fewer[i] != fewer[j];
        assert values[i] != values[j];
      }
    }
  }

  /** No descent is counted exactly when the matched volume never falls. */
  lemma {:induction false} NoDescents(points: seq<Point>)
    ensures Descents(points) == 0
            <==> forall i, j :: 0 <= i < j < |points| ==> points[i].matched <= points[j].matched
  {
    if |points| >= 2 {
      var last := |points| - 1;
      var fewer := points[..last];
      NoDescents(fewer);
      if Descents(points) == 0 {
        forall i, j | 0 <= i < j < |points|
          ensures points[i].matched <= points[j].matched
        {
          assert fewer[i] == points[i] && fewer[last - 1] == points[last - 1];
          assert j < last ==> fewer[j] == points[j];
        }
      } else if points[last].matched >= points[last - 1].matched {
        var i, j :| 0 <= i < j < last && fewer[i].matched > fewer[j].matched;
        assert points[i].matched > points[j].matched;
      }
    }
  }
}
