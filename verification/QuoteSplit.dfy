/** Splitting a quote reply is never silently wrong. */
module QuoteSplit {
  import opened Wire
  import opened Quotes

  /** No signature after the one the record starts with. */
  ghost predicate Sole(record: bytes) {
    forall i :: 0 < i <= |record| ==> !Signature(record[i..])
  }

  lemma {:induction false} MatchesAppend(r: bytes, rest: bytes, base: nat)
    requires rest == [] || Signature(rest)
    ensures Matches(r + rest, base) == Matches(r, base) + Matches(rest, base + |r|)
    decreases |r|
  {
    var s := r + rest;
    if r == [] {
      assert s == rest;
    } else {
      NoStraddle(r, rest);
      if Signature(r) {
        assert s[7..] == r[7..] + rest;
        MatchesAppend(r[7..], rest, base + 7);
        assert [base] + (Matches(r[7..], base + 7) + Matches(rest, base + |r|))
               == [base] + Matches(r[7..], base + 7) + Matches(rest, base + |r|);
      } else {
        assert s[1..] == r[1..] + rest;
        MatchesAppend(r[1..], rest, base + 1);
      }
    }
  }

  /** A match cannot straddle a boundary: the byte behind it is a market, not a digit. */
  lemma NoStraddle(r: bytes, rest: bytes)
    requires r != [] && (rest == [] || Signature(rest))
    ensures Signature(r + rest) <==> Signature(r)
  {
    var s := r + rest;
    if rest != [] {
      assert s[|r|] == rest[0];
    }
  }

  lemma {:induction false} NoMatches(s: bytes, base: nat)
    ensures Matches(s, base) == [] <==> forall i :: 0 <= i <= |s| ==> !Signature(s[i..])
    decreases |s|
  {
    if s != [] {
      assert s[0..] == s;
      if !Signature(s) {
        NoMatches(s[1..], base + 1);
        forall i | 0 < i <= |s|
          ensures s[i..] == s[1..][i - 1..]
        {
        }
      }
    }
  }

  lemma SoleMatch(r: bytes, base: nat)
    requires Signature(r)
    ensures Matches(r, base) != [] && Matches(r, base)[0] == base
    ensures |Matches(r, base)| == 1 <==> Sole(r)
  {
    var tail := r[7..];
    NoMatches(tail, base + 7);
    forall i | 7 <= i <= |r|
      ensures r[i..] == tail[i - 7..]
    {
    }
    if Sole(r) {
      forall i | 0 <= i <= |tail|
        ensures !Signature(tail[i..])
      {
        assert tail[i..] == r[i + 7..];
      }
    } else {
      var i :| 0 < i <= |r| && Signature(r[i..]);
      assert i >= 7;
      assert tail[i - 7..] == r[i..];
    }
  }

  // ---------------------------------------------------------------- many records

  ghost predicate AllSigned(records: seq<bytes>) {
    forall k :: 0 <= k < |records| ==> Signature(records[k])
  }

  ghost predicate AllSole(records: seq<bytes>) {
    forall k :: 0 <= k < |records| ==> Sole(records[k])
  }

  /** Where each record starts when they are put one after another from `base` on. */
  function Boundaries(records: seq<bytes>, base: nat): seq<nat> {
    if records == [] then [] else [base] + Boundaries(records[1..], base + |records[0]|)
  }

  lemma SignedTail(records: seq<bytes>)
    requires AllSigned(records) && records != []
    ensures AllSigned(records[1..])
    ensures var rest := Concat(records[1..]); rest == [] || Signature(rest)
    ensures AllSole(records) <==> Sole(records[0]) && AllSole(records[1..])
  {
    var tail := records[1..];
    if tail != [] {
      assert Signature(tail[0]);
    }
    assert forall k :: 0 < k < |records| ==> records[k] == tail[k - 1];
  }

  /** The matches in a sequence of signed records: at least one each, and exactly the
      record starts if and only if there is only one each. */
  ghost predicate MatchesAre(found: seq<nat>, records: seq<bytes>, base: nat) {
    && |found| >= |records|
    && (|found| == |records| <==> AllSole(records))
    && (AllSole(records) ==> found == Boundaries(records, base))
    && (records != [] ==> found != [] && found[0] == base)
  }

  lemma MatchesCons(first: bytes, tail: seq<bytes>, found: seq<nat>, base: nat)
    requires Signature(first) && MatchesAre(found, tail, base + |first|)
    requires AllSole([first] + tail) <==> Sole(first) && AllSole(tail)
    ensures MatchesAre(Matches(first, base) + found, [first] + tail, base)
  {
    SoleMatch(first, base);
    assert ([first] + tail)[1..] == tail;
    assert Sole(first) ==> Matches(first, base) == [base];
  }

  lemma {:induction false} MatchesConcat(records: seq<bytes>, base: nat)
    requires AllSigned(records)
    ensures MatchesAre(Matches(Concat(records), base), records, base)
  {
    if records != [] {
      var first, tail := records[0], records[1..];
      SignedTail(records);
      MatchesAppend(first, Concat(tail), base);
      MatchesConcat(tail, base + |first|);
      assert [first] + tail == records;
      MatchesCons(first, tail, Matches(Concat(tail), base + |first|), base);
    }
  }

  lemma {:induction false} BoundariesAscend(records: seq<bytes>, base: nat)
    requires AllSigned(records)
    ensures Ascending(Boundaries(records, base), base, base + |Concat(records)|)
  {
    if records != [] {
      assert Signature(records[0]);
      assert AllSigned(records[1..]);
      BoundariesAscend(records[1..], base + |records[0]|);
    }
  }

  lemma {:induction false} CutBoundaries(before: bytes, records: seq<bytes>)
    requires AllSigned(records)
    requires Ascending(Boundaries(records, |before|), 0, |before + Concat(records)|)
    ensures Cut(before + Concat(records), Boundaries(records, |before|)) == records
    decreases |records|
  {
    if records != [] {
      var first, tail := records[0], records[1..];
      var body := before + Concat(records);
      assert body == before + first + Concat(tail);
      var starts := Boundaries(records, |before|);
      assert starts[1..] == Boundaries(tail, |before + first|);
      assert AllSigned(tail);
      CutBoundaries(before + first, tail);
      if tail == [] {
        assert body[|before|..] == first;
        assert records == [first];
      } else {
        assert starts[1] == |before| + |first|;
        assert body[|before|..|before| + |first|] == first;
        assert records == [first] + tail;
      }
    }
  }

  /** For a reply body that really is a sequence of signed records, as many as declared,
      the parser recovers exactly those records, or refuses; and it refuses exactly when
      some record holds a second signature. */
  lemma SplitExact(records: seq<bytes>)
    requires AllSigned(records)
    ensures SplitRecords(Concat(records), |records|)
            == if AllSole(records) then Ok(records) else Err(UnknownBoundary)
  {
    if records != [] {
      MatchesConcat(records, 0);
      BoundariesAscend(records, 0);
      if AllSole(records) {
        assert [] + Concat(records) == Concat(records);
        CutBoundaries([], records);
      }
    }
  }

  /** Conversely, whatever the body, the records of an accepted cut rebuild it. */
  lemma SplitRebuilds(body: bytes, count: nat)
    ensures var records := SplitRecords(body, count);
            records.Ok? ==> |records.value| == count && Concat(records.value) == body
  {
    var records := SplitRecords(body, count);
    if records.Ok? && count > 0 {
      var starts := Matches(body, 0);
      MatchesAscend(body, 0);
      CutConcat(body, starts);
      assert body[0..] == body;
    }
  }

  lemma {:induction false} CutConcat(body: bytes, starts: seq<nat>)
    requires Ascending(starts, 0, |body|) && starts != []
    ensures |Cut(body, starts)| == |starts| && Concat(Cut(body, starts)) == body[starts[0]..]
    decreases |starts|
  {
    if |starts| == 1 {
      assert Concat([body[starts[0]..]]) == body[starts[0]..] + Concat([]);
    } else {
      CutConcat(body, starts[1..]);
      assert body[starts[0]..] == body[starts[0]..starts[1]] + body[starts[1]..];
    }
  }

  // ---------------------------------------------------------------- which cuts are right

  /** Each start is a signature of `s`, counted from `base`, and the starts are at least
      seven bytes apart. */
  ghost predicate SignedStarts(s: bytes, starts: seq<nat>, base: nat) {
    && (forall i :: 0 <= i < |starts| ==> base <= starts[i] <= base + |s| && Signature(s[starts[i] - base..]))
    && (forall i :: 0 < i < |starts| ==> starts[i - 1] + 7 <= starts[i])
  }

  lemma SignedStartsShift(s: bytes, starts: seq<nat>, base: nat, skip: nat)
    requires skip <= |s| && SignedStarts(s[skip..], starts, base + skip)
    ensures SignedStarts(s, starts, base)
    ensures forall i :: 0 <= i < |starts| ==> base + skip <= starts[i]
  {
    forall i | 0 <= i < |starts|
      ensures base + skip <= starts[i] <= base + |s| && Signature(s[starts[i] - base..])
    {
      assert s[skip..][starts[i] - (base + skip)..] == s[starts[i] - base..];
    }
  }

  lemma SignedStartsCons(s: bytes, starts: seq<nat>, base: nat)
    requires Signature(s) && SignedStarts(s, starts, base)
    requires forall i :: 0 <= i < |starts| ==> base + 7 <= starts[i]
    ensures SignedStarts(s, [base] + starts, base)
  {
    hide Signature;
    var all := [base] + starts;
    assert s[0..] == s;
    forall i | 0 <= i < |all|
      ensures base <= all[i] <= base + |s| && Signature(s[all[i] - base..])
    {
      assert i > 0 ==> all[i] == starts[i - 1];
    }
    forall i | 0 < i < |all|
      ensures all[i - 1] + 7 <= all[i]
    {
      assert all[i] == starts[i - 1];
      assert i > 1 ==> all[i - 1] == starts[i - 2];
    }
  }

  lemma {:induction false} MatchesSigned(s: bytes, base: nat)
    ensures SignedStarts(s, Matches(s, base), base)
    decreases |s|
  {
    hide SignedStarts;
    if s == [] {
      NoStarts(base);
    } else if Signature(s) {
      MatchesSigned(s[7..], base + 7);
      SignedStartsShift(s, Matches(s[7..], base + 7), base, 7);
      SignedStartsCons(s, Matches(s[7..], base + 7), base);
    } else {
      MatchesSigned(s[1..], base + 1);
      SignedStartsShift(s, Matches(s[1..], base + 1), base, 1);
    }
  }

  lemma NoStarts(base: nat)
    ensures SignedStarts([], [], base)
  {
  }

  /** A signature is decided by its seven bytes. */
  lemma SignatureWithin(s: bytes, from: nat, to: nat)
    requires from + 7 <= to <= |s| && Signature(s[from..])
    ensures Signature(s[from..to])
  {
    assert forall i :: 0 <= i < 7 ==> s[from..to][i] == s[from..][i];
  }

  lemma {:induction false} CutSigned(body: bytes, starts: seq<nat>)
    requires Ascending(starts, 0, |body|) && SignedStarts(body, starts, 0)
    ensures AllSigned(Cut(body, starts))
    decreases |starts|
  {
    hide Signature;
    if |starts| == 1 {
      assert body[starts[0] - 0..] == body[starts[0]..];
    } else if |starts| > 1 {
      assert starts[0] + 7 <= starts[1];
      assert body[starts[0] - 0..] == body[starts[0]..];
      SignatureWithin(body, starts[0], starts[1]);
      forall i | 0 < i < |starts[1..]|
        ensures starts[1..][i - 1] + 7 <= starts[1..][i]
      {
        assert starts[1..][i] == starts[i + 1] && starts[1..][i - 1] == starts[i];
      }
      CutSigned(body, starts[1..]);
      var rest := Cut(body, starts[1..]);
      forall k | 0 <= k < |rest| + 1
        ensures Signature(([body[starts[0]..starts[1]]] + rest)[k])
      {
        assert k > 0 ==> ([body[starts[0]..starts[1]]] + rest)[k] == rest[k - 1];
      }
    }
  }

  /** Every record of an accepted cut starts with a signature. */
  lemma CutIsSigned(body: bytes, count: nat)
    ensures var records := SplitRecords(body, count); records.Ok? ==> AllSigned(records.value)
  {
    hide AllSigned;
    if count > 0 {
      MatchesSigned(body, 0);
      MatchesAscend(body, 0);
      if SplitRecords(body, count).Ok? {
        CutSigned(body, Matches(body, 0));
      }
    } else {
      NoneSigned();
    }
  }

  lemma NoneSigned()
    ensures AllSigned([])
  {
  }

  /** For any list of records, signed or not: the parser recovers exactly those records if
      and only if each starts with a signature and holds no other. A cut that is accepted is
      wrong exactly when some record does not start with one. */
  lemma SplitRight(records: seq<bytes>)
    ensures SplitRecords(Concat(records), |records|) == Ok(records) <==> AllSigned(records) && AllSole(records)
    ensures SplitRecords(Concat(records), |records|).Ok? ==>
              (SplitRecords(Concat(records), |records|) != Ok(records) <==> !AllSigned(records))
  {
    hide SplitRecords, Concat, AllSigned, AllSole;
    CutIsSigned(Concat(records), |records|);
    if AllSigned(records) {
      SplitExact(records);
    }
  }
}
