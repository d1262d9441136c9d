/** The one-pass summary of an auction series (`summarize_segment`, `tdx_auction_summarize`),
    proved against a description of each segment on its own. */
module AuctionSummary {
  import opened Options
  import opened Auction

  // ---------------------------------------------------------------- a segment on its own

  const NOON := 12 * 60

  /** The points before noon, or those from noon on, in their order. */
  function Only(points: seq<Point>, opening: bool): seq<Point> {
    if points == [] then [] else
    var last := points[|points| - 1];
    Only(points[..|points| - 1], opening) + if (last.minute < NOON) == opening then [last] else []
  }

  /** The sides on which volume was left over, balanced points left out. */
  function Directions(points: seq<Point>): seq<int> {
    if points == [] then [] else
    var last := points[|points| - 1];
    Directions(points[..|points| - 1]) + if last.direction != 0 then [last.direction] else []
  }

  /** How often adjacent entries differ. */
  function Changes(values: seq<int>): nat {
    if |values| < 2 then 0
    else Changes(values[..|values| - 1]) + if values[|values| - 2] != values[|values| - 1] then 1 else 0
  }

  /** How often the matched volume falls from one point to the next. */
  function Descents(points: seq<Point>): nat {
    if |points| < 2 then 0
    else
      var last := |points| - 1;
      Descents(points[..last]) + if points[last].matched < points[last - 1].matched then 1 else 0
  }

  datatype Segment = Segment(
    hasPoints: bool, count: nat, start: nat, end: nat,
    firstPrice: real, lastPrice: real, minPrice: real, maxPrice: real,
    lastMatched: nat, lastAmount: real, lastSigned: int, lastUnmatched: nat, lastDirection: int,
    maxUnmatched: nat, maxUnmatchedTime: nat, flips: nat, descents: nat)

  const EMPTY_SEGMENT := Segment(false, 0, 0, 0, 0.0, 0.0, 0.0, 0.0, 0, 0.0, 0, 0, 0, 0, 0, 0, 0)

  /** The first and the last point are reported as they are. */
  ghost predicate EndsReported(s: Segment, ps: seq<Point>)
    requires ps != []
  {
    var first, last := ps[0], ps[|ps| - 1];
    && s.start == first.time && s.firstPrice == first.price
    && s.end == last.time && s.lastPrice == last.price
    && s.lastMatched == last.matched && s.lastAmount == last.amount
    && s.lastSigned == last.signed && s.lastUnmatched == last.unmatched && s.lastDirection == last.direction
  }

  ghost predicate LowestPrice(price: real, ps: seq<Point>) {
    && (exists i :: 0 <= i < |ps| && ps[i].price == price)
    && (forall i :: 0 <= i < |ps| ==> price <= ps[i].price)
  }

  ghost predicate HighestPrice(price: real, ps: seq<Point>) {
    && (exists i :: 0 <= i < |ps| && ps[i].price == price)
    && (forall i :: 0 <= i < |ps| ==> ps[i].price <= price)
  }

  /** Point `i` is the first with the largest unmatched volume. */
  ghost predicate PeaksAt(ps: seq<Point>, i: int) {
    && 0 <= i < |ps|
    && (forall j :: 0 <= j < |ps| ==> ps[j].unmatched <= ps[i].unmatched)
    && (forall j :: 0 <= j < i ==> ps[j].unmatched < ps[i].unmatched)
  }

  ghost predicate PeakReported(volume: nat, time: nat, ps: seq<Point>) {
    exists i :: PeaksAt(ps, i) && volume == ps[i].unmatched && time == ps[i].time
  }

  /** What a segment's summary says about the segment's own points. */
  ghost predicate Summarises(s: Segment, ps: seq<Point>) {
    if ps == [] then s == EMPTY_SEGMENT
    else
      && s.hasPoints && s.count == |ps|
      && EndsReported(s, ps) && LowestPrice(s.minPrice, ps) && HighestPrice(s.maxPrice, ps)
      && PeakReported(s.maxUnmatched, s.maxUnmatchedTime, ps)
      && s.flips == Changes(Directions(ps)) && s.descents == Descents(ps)
  }

  /** The description leaves nothing open. */
  lemma SummaryUnique(a: Segment, b: Segment, ps: seq<Point>)
    requires Summarises(a, ps) && Summarises(b, ps)
    ensures a == b
  {
    if ps != [] {
      hide Changes, Directions, Descents;
      var i :| PeaksAt(ps, i) && a.maxUnmatched == ps[i].unmatched && a.maxUnmatchedTime == ps[i].time;
      var j :| PeaksAt(ps, j) && b.maxUnmatched == ps[j].unmatched && b.maxUnmatchedTime == ps[j].time;
      assert i == j;
    }
  }

  // ---------------------------------------------------------------- one pass

  /** The direction the pass compares the next one with; zero before the first. */
  function LastDirection(directions: seq<int>): int {
    if directions == [] then 0 else directions[|directions| - 1]
  }

  lemma DirectionsStep(ps: seq<Point>, p: Point)
    ensures var before := Directions(ps);
            Directions(ps + [p]) == before + if p.direction != 0 then [p.direction] else []
  {
    assert (ps + [p])[..|ps|] == ps;
  }

  lemma ChangesStep(values: seq<int>, v: int)
    ensures Changes(values + [v]) == Changes(values) + if values != [] && LastDirection(values) != v then 1 else 0
  {
    assert (values + [v])[..|values|] == values;
  }

  lemma DescentsStep(ps: seq<Point>, p: Point)
    ensures Descents(ps + [p]) == Descents(ps) + if ps != [] && p.matched < ps[|ps| - 1].matched then 1 else 0
  {
    assert (ps + [p])[..|ps|] == ps;
  }

  lemma OnlyStep(points: seq<Point>, k: nat, opening: bool)
    requires k < |points|
    ensures Only(points[..k + 1], opening)
            == Only(points[..k], opening) + if (points[k].minute < NOON) == opening then [points[k]] else []
  {
    assert points[..k + 1][..k] == points[..k];
  }

  lemma {:induction false} NoZeroDirection(ps: seq<Point>)
    ensures forall i :: 0 <= i < |Directions(ps)| ==> Directions(ps)[i] != 0
  {
    if ps != [] {
      NoZeroDirection(ps[..|ps| - 1]);
    }
  }

  /** The summary after one more point of the segment, from the summary before it, the
      point before it and the last direction seen. */
  function Next(s: Segment, previous: Point, direction: int, p: Point): Segment {
    var peak := p.unmatched > s.maxUnmatched;
    s.(minPrice := if p.price < s.minPrice then p.price else s.minPrice,
       maxPrice := if p.price > s.maxPrice then p.price else s.maxPrice,
       maxUnmatched := if peak then p.unmatched else s.maxUnmatched,
       maxUnmatchedTime := if peak then p.time else s.maxUnmatchedTime,
       descents := s.descents + if p.matched < previous.matched then 1 else 0,
       flips := s.flips + if p.direction != 0 && direction != 0 && direction != p.direction then 1 else 0,
       count := s.count + 1, end := p.time, lastPrice := p.price, lastMatched := p.matched,
       lastAmount := p.amount, lastSigned := p.signed, lastUnmatched := p.unmatched, lastDirection := p.direction)
  }

  lemma LowestStep(price: real, ps: seq<Point>, p: Point)
    requires LowestPrice(price, ps)
    ensures LowestPrice(if p.price < price then p.price else price, ps + [p])
  {
    var i :| 0 <= i < |ps| && ps[i].price == price;
    var more := ps + [p];
    assert more[i] == ps[i] && more[|ps|] == p;
  }

  lemma HighestStep(price: real, ps: seq<Point>, p: Point)
    requires HighestPrice(price, ps)
    ensures HighestPrice(if p.price > price then p.price else price, ps + [p])
  {
    var i :| 0 <= i < |ps| && ps[i].price == price;
    var more := ps + [p];
    assert more[i] == ps[i] && more[|ps|] == p;
  }

  lemma PeakStep(volume: nat, time: nat, ps: seq<Point>, p: Point)
    requires PeakReported(volume, time, ps)
    ensures var peak := p.unmatched > volume;
            PeakReported(if peak then p.unmatched else volume, if peak then p.time else time, ps + [p])
  {
    var i :| PeaksAt(ps, i) && volume == ps[i].unmatched && time == ps[i].time;
    assert PeaksAt(ps + [p], if p.unmatched > volume then |ps| else i);
  }

  lemma EndsStep(s: Segment, ps: seq<Point>, direction: int, p: Point)
    requires ps != [] && EndsReported(s, ps)
    ensures EndsReported(Next(s, ps[|ps| - 1], direction, p), ps + [p])
  {
    assert (ps + [p])[0] == ps[0] && (ps + [p])[|ps|] == p;
  }

  lemma FirstSummarises(p: Point)
    ensures Summarises(First(p), [p])
  {
    var ps := [p];
    assert ps[..0] == [] && Directions(ps) == Directions([]) + if p.direction != 0 then [p.direction] else [];
    assert ps[0] == p;
    assert PeaksAt(ps, 0);
  }

  function First(p: Point): Segment {
    EMPTY_SEGMENT.(hasPoints := true, start := p.time, firstPrice := p.price, minPrice := p.price,
                   maxPrice := p.price, maxUnmatched := p.unmatched, maxUnmatchedTime := p.time,
                   count := 1, end := p.time, lastPrice := p.price, lastMatched := p.matched,
                   lastAmount := p.amount, lastSigned := p.signed, lastUnmatched := p.unmatched,
                   lastDirection := p.direction)
  }

  lemma FlipsStep(ps: seq<Point>, p: Point)
    ensures var direction := LastDirection(Directions(ps));
            && Changes(Directions(ps + [p]))
               == Changes(Directions(ps))
                  + (if p.direction != 0 && direction != 0 && direction != p.direction then 1 else 0)
            && LastDirection(Directions(ps + [p])) == if p.direction != 0 then p.direction else direction
  {
    NoZeroDirection(ps);
    DirectionsStep(ps, p);
    hide Directions, Changes;
    if p.direction != 0 {
      ChangesStep(Directions(ps), p.direction);
    } else {
      assert Directions(ps) + [] == Directions(ps);
    }
  }

  lemma NextSummarises(s: Segment, ps: seq<Point>, p: Point)
    requires ps != [] && Summarises(s, ps)
    ensures Summarises(Next(s, ps[|ps| - 1], LastDirection(Directions(ps)), p), ps + [p])
  {
    hide Directions, Changes, Descents, EndsReported, LowestPrice, HighestPrice, PeakReported, LastDirection;
    EndsStep(s, ps, LastDirection(Directions(ps)), p);
    LowestStep(s.minPrice, ps, p);
    HighestStep(s.maxPrice, ps, p);
    PeakStep(s.maxUnmatched, s.maxUnmatchedTime, ps, p);
    FlipsStep(ps, p);
    DescentsStep(ps, p);
  }

  lemma NothingSeen(opening: bool)
    ensures Only([], opening) == [] && LastDirection(Directions([])) == 0
    ensures Summarises(EMPTY_SEGMENT, [])
  {
  }

  /** Adds a point of the segment; `previous` and `last` are the point before it and the
      last direction seen, zero if none. */
  method AddPoint(segment: Segment, previous: Option<Point>, last: int, point: Point)
    returns (s: Segment, direction: int)
    requires previous.None? ==> segment == EMPTY_SEGMENT && last == 0
    ensures s == if previous.None? then First(point) else Next(segment, previous.value, last, point)
    ensures direction == if point.direction != 0 then point.direction else last
  {
    s, direction := segment, last;
    if previous.None? {
      s := s.(hasPoints := true, start := point.time, firstPrice := point.price, minPrice := point.price,
              maxPrice := point.price, maxUnmatched := point.unmatched, maxUnmatchedTime := point.time);
    } else {
      if point.price < s.minPrice {
        s := s.(minPrice := point.price);
      }
      if point.price > s.maxPrice {
        s := s.(maxPrice := point.price);
      }
      if point.unmatched > s.maxUnmatched {
        s := s.(maxUnmatched := point.unmatched, maxUnmatchedTime := point.time);
      }
      if point.matched < previous.value.matched {
        s := s.(descents := s.descents + 1);
      }
    }
    if point.direction != 0 {
      if direction != 0 && direction != point.direction {
        s := s.(flips := s.flips + 1);
      }
      direction := point.direction;
    }
    s := s.(count := s.count + 1, end := point.time, lastPrice := point.price, lastMatched := point.matched,
            lastAmount := point.amount, lastSigned := point.signed, lastUnmatched := point.unmatched,
            lastDirection := point.direction);
  }

  /** One pass over all points, skipping those of the other segment. */
  method SummarizeSegment(series: Series, opening: bool) returns (s: Segment)
    requires series.Valid()
    ensures Summarises(s, Only(series.State().points, opening))
  {
    hide Summarises, Only, Directions, Changes, LastDirection, First, Next;
    NothingSeen(opening);
    s := EMPTY_SEGMENT;
    var previous: Option<Point> := None;
    var direction := 0;
    ghost var points := series.State().points;
    assert points[..0] == [];
    for index := 0 to series.count
      invariant Summarises(s, Only(points[..index], opening))
      invariant direction == LastDirection(Directions(Only(points[..index], opening)))
      invariant var own := Only(points[..index], opening);
                && previous == (if own == [] then None else Some(own[|own| - 1]))
                && (own == [] ==> s == EMPTY_SEGMENT)
    {
      var point := series.points[index];
      ghost var own := Only(points[..index], opening);
      OnlyStep(points, index, opening);
      if (point.minute < NOON) != opening {
        assert own + [] == own;
        continue;
      }
      FlipsStep(own, point);
      if own == [] {
        FirstSummarises(point);
        assert own + [point] == [point];
      } else {
        NextSummarises(s, own, point);
      }
      s, direction := AddPoint(s, previous, direction, point);
      previous := Some(point);
    }
    assert points[..series.count] == points;
  }

  // ---------------------------------------------------------------- the whole series

  datatype Summary = Summary(count: nat, opening: Segment, closing: Segment, hasGap: bool, gap: int,
                             gapAfter: nat, gapBefore: nat, reserved: nat)

  const EMPTY_SUMMARY := Summary(0, EMPTY_SEGMENT, EMPTY_SEGMENT, false, 0, 0, 0, 0)

  /** How many points have a reserved byte that is not zero. */
  function Reserved(points: seq<Point>): nat {
    if points == [] then 0 else
    var last := |points| - 1;
    Reserved(points[..last]) + if points[last].reserved != 0 then 1 else 0
  }

  function Gap(points: seq<Point>, i: int): int
    requires 0 < i < |points|
  {
    points[i].time - points[i - 1].time
  }

  /** Among the first `count` points, the step to point `i` is the first of the longest. */
  ghost predicate WidestAt(points: seq<Point>, count: nat, i: int) {
    && 0 < i < count <= |points|
    && (forall j :: 0 < j < count ==> Gap(points, j) <= Gap(points, i))
    && (forall j :: 0 < j < i ==> Gap(points, j) < Gap(points, i))
  }

  ghost predicate Widest(gap: int, after: nat, before: nat, points: seq<Point>, count: nat) {
    exists i :: WidestAt(points, count, i) && gap == Gap(points, i)
                && after == points[i - 1].time && before == points[i].time
  }

  ghost predicate GapReported(s: Summary, points: seq<Point>, count: nat) {
    if count < 2 then !s.hasGap && s.gap == 0 && s.gapAfter == 0 && s.gapBefore == 0
    else s.hasGap && Widest(s.gap, s.gapAfter, s.gapBefore, points, count)
  }

  /** What a summary says about the series. */
  ghost predicate Describes(s: Summary, points: seq<Point>) {
    && s.count == |points|
    && Summarises(s.opening, Only(points, true)) && Summarises(s.closing, Only(points, false))
    && s.reserved == Reserved(points) && GapReported(s, points, |points|)
  }

  lemma ReservedStep(points: seq<Point>, k: nat)
    requires k < |points|
    ensures Reserved(points[..k + 1]) == Reserved(points[..k]) + if points[k].reserved != 0 then 1 else 0
  {
    assert points[..k + 1][..k] == points[..k];
  }

  lemma WidestStep(gap: int, after: nat, before: nat, points: seq<Point>, k: nat)
    requires 1 < k < |points| && Widest(gap, after, before, points, k)
    ensures var wider := Gap(points, k) > gap;
            Widest(if wider then Gap(points, k) else gap, if wider then points[k - 1].time else after,
                   if wider then points[k].time else before, points, k + 1)
  {
    hide Gap;
    var i :| WidestAt(points, k, i) && gap == Gap(points, i) && after == points[i - 1].time && before == points[i].time;
    assert WidestAt(points, k + 1, if Gap(points, k) > gap then k else i);
  }

  lemma FirstGap(points: seq<Point>)
    requires |points| > 1
    ensures Widest(Gap(points, 1), points[0].time, points[1].time, points, 2)
  {
    assert WidestAt(points, 2, 1);
  }

  lemma GapStep(s: Summary, points: seq<Point>, k: nat, t: Summary)
    requires 0 < k < |points| && GapReported(s, points, k)
    requires var gap := Gap(points, k);
             if !s.hasGap || gap > s.gap
             then t.hasGap && t.gap == gap && t.gapAfter == points[k - 1].time && t.gapBefore == points[k].time
             else t.hasGap && t.gap == s.gap && t.gapAfter == s.gapAfter && t.gapBefore == s.gapBefore
    ensures GapReported(t, points, k + 1)
  {
    hide Widest, Gap;
    if k == 1 {
      FirstGap(points);
    } else {
      WidestStep(s.gap, s.gapAfter, s.gapBefore, points, k);
    }
  }

  lemma NoneReserved()
    ensures Reserved([]) == 0
  {
  }

  /** A missing series has an empty summary. */
  method Summarize(series: Series?) returns (s: Summary)
    requires series != null ==> series.Valid()
    ensures series == null ==> s == EMPTY_SUMMARY
    ensures series != null ==> Describes(s, series.State().points)
  {
    hide Summarises, Reserved, Widest;
    s := EMPTY_SUMMARY;
    if series == null {
      return;
    }
    ghost var points := series.State().points;
    var opening := SummarizeSegment(series, true);
    var closing := SummarizeSegment(series, false);
    s := s.(count := series.count, opening := opening, closing := closing);
    assert points[..0] == [];
    NoneReserved();
    for index := 0 to series.count
      invariant s.count == series.count && s.opening == opening && s.closing == closing
      invariant s.reserved == Reserved(points[..index]) && GapReported(s, points, index)
    {
      ghost var before := s;
      ReservedStep(points, index);
      if series.points[index].reserved != 0 {
        s := s.(reserved := s.reserved + 1);
      }
      if index > 0 {
        var gap := series.points[index].time - series.points[index - 1].time;
        if !s.hasGap || gap > s.gap {
          s := s.(hasGap := true, gap := gap, gapAfter := series.points[index - 1].time,
                  gapBefore := series.points[index].time);
        }
        GapStep(before, points, index, s);
      }
    }
    assert points[..series.count] == points;
  }
}
