/** What holds of a PBRPC transfer whatever the peer sends. */
module PbrpcSafety {
  import opened Options
  import opened Wire
  import opened Pbrpc

  /** The bytes of the fragments, in the order they were taken. */
  function Assembled(fragments: seq<Fragment>): bytes {
    if fragments == [] then []
    else Assembled(fragments[..|fragments| - 1]) + fragments[|fragments| - 1].chunk
  }

  /** The session id that a request carries once `fragments` have been taken. */
  function SessionAfter(fragments: seq<Fragment>): int {
    if fragments == [] then 0 else fragments[0].id
  }

  /** `f` starts exactly where `fragments` end, belongs to their session, which is by then
      a real one, announces their total, and passes no limit. */
  ghost predicate Follows(q: Query, fragments: seq<Fragment>, f: Fragment) {
    var size := |Assembled(fragments)| + |f.chunk|;
    && f.start == |Assembled(fragments)| && f.size == |f.chunk|
    && f.id >= 0 && f.total >= 0
    && (fragments != [] ==> f.total == fragments[0].total && f.id == fragments[0].id > 0)
    && size <= q.maxBytes && (f.total > 0 ==> size <= f.total <= q.maxBytes)
  }

  /** Fragments that tile a prefix of one result, without gap or overlap. */
  ghost predicate Tiled(q: Query, fragments: seq<Fragment>) {
    fragments == [] ||
    (var init := fragments[..|fragments| - 1];
     Tiled(q, init) && Follows(q, init, fragments[|fragments| - 1]))
  }

  lemma {:induction false} TiledAt(q: Query, fragments: seq<Fragment>, k: nat)
    requires Tiled(q, fragments) && k < |fragments|
    ensures Tiled(q, fragments[..k]) && Follows(q, fragments[..k], fragments[k])
    ensures fragments[k].total == fragments[0].total && fragments[k].id == fragments[0].id
  {
    var init := fragments[..|fragments| - 1];
    if k < |init| {
      TiledAt(q, init, k);
      assert init[..k] == fragments[..k];
    }
  }

  lemma Snoc(fragments: seq<Fragment>, f: Fragment)
    ensures (fragments + [f])[..|fragments|] == fragments
    ensures Assembled(fragments + [f]) == Assembled(fragments) + f.chunk
  {
    assert (fragments + [f])[..|fragments|] == fragments;
  }

  /** The state after taking `fragments`, and what makes the number of rounds finite: at
      most three empty fragments precede each non-empty one. */
  ghost predicate After(q: Query, fragments: seq<Fragment>, state: State) {
    && Tiled(q, fragments)
    && state.data == Assembled(fragments) && state.rpcId == SessionAfter(fragments)
    && |fragments| <= 4 * |state.data| + state.empty && state.empty <= 3
    && if fragments == [] then state == START else
       && state.total == Some(fragments[0].total) && state.rpcId > 0
       && (if fragments[0].total > 0 then |state.data| < fragments[0].total else state.data == [])
  }

  /** The most rounds a transfer of `total` bytes can take. */
  function RoundLimit(total: int): int {
    4 * if total > 1 then total else 1
  }

  lemma Checked(q: Query, fragments: seq<Fragment>, state: State, f: Fragment)
    requires After(q, fragments, state) && Check(q, state, f) == Pass
    ensures Tiled(q, fragments + [f]) && |fragments| + 1 <= RoundLimit(f.total)
  {
    Snoc(fragments, f);
  }

  lemma Continued(q: Query, fragments: seq<Fragment>, state: State, f: Fragment, next: State)
    requires After(q, fragments, state) && Step(q, state, f) == Next(next)
    ensures After(q, fragments + [f], next)
  {
    Checked(q, fragments, state, f);
    Snoc(fragments, f);
  }

  /** `all` are complete: their bytes are a whole result of the announced total, which is
      a single fragment when no total is announced. */
  ghost predicate Complete(all: seq<Fragment>) {
    && all != []
    && if all[0].total > 0 then |Assembled(all)| == all[0].total
       else all[|all| - 1].chunk != [] && Assembled(all[..|all| - 1]) == []
  }

  function TotalOf(fragments: seq<Fragment>): int {
    if fragments == [] then 0 else fragments[0].total
  }

  /** `run`, started after `before`, tiles one result and ends in time. */
  ghost predicate TilesRun(q: Query, before: seq<Fragment>, run: Run) {
    var all := before + run.fragments;
    && Tiled(q, all)
    && |run.asks| <= |run.fragments| + 1
    && |before| + |run.asks| <= RoundLimit(TotalOf(all))
    && (run.outcome.Ok? ==>
          Complete(all) && run.outcome.value == Assembled(all) && |run.asks| == |run.fragments|)
  }

  lemma TilesNothing(q: Query, before: seq<Fragment>, state: State, run: Run)
    requires After(q, before, state)
    requires |run.asks| <= 1 && run.fragments == [] && run.outcome.Err?
    ensures TilesRun(q, before, run)
  {
    assert before + run.fragments == before;
  }

  lemma TilesLast(q: Query, before: seq<Fragment>, state: State, f: Fragment, run: Run)
    requires After(q, before, state) && Step(q, state, f).Done?
    requires |run.asks| == 1 && run.fragments == [f] && run.outcome == Ok(Step(q, state, f).data)
    ensures TilesRun(q, before, run)
  {
    Checked(q, before, state, f);
    Snoc(before, f);
  }

  lemma TilesNext(q: Query, before: seq<Fragment>, f: Fragment, ask: Ask, rest: Run)
    requires TilesRun(q, before + [f], rest)
    ensures TilesRun(q, before, Before(ask, f, rest))
  {
    assert before + ([f] + rest.fragments) == before + [f] + rest.fragments;
  }

  lemma {:induction false} RunTiles(q: Query, source: Source, state: State, round: nat, before: seq<Fragment>)
    requires state.rpcId >= 0 && After(q, before, state)
    ensures TilesRun(q, before, Execute(q, source, state, round))
    decreases q.maxRounds - round
  {
    var run, ask := Execute(q, source, state, round), Ask(state.rpcId, |state.data|);
    if round >= q.maxRounds || source(round, ask).Err? || Step(q, state, source(round, ask).value).Refused? {
      TilesNothing(q, before, state, run);
    } else {
      var f := source(round, ask).value;
      match Step(q, state, f)
      case Done(_) =>
        TilesLast(q, before, state, f, run);
      case Next(next) =>
        Continued(q, before, state, f, next);
        RunTiles(q, source, next, round + 1, before + [f]);
        TilesNext(q, before, f, ask, Execute(q, source, next, round + 1));
    }
  }

  /** After `before`, each ask is for the bytes that follow what has been assembled by
      then, under the session of the first fragment. */
  ghost predicate AsksFollow(before: seq<Fragment>, asks: seq<Ask>, fragments: seq<Fragment>)
    decreases |asks|
  {
    asks == [] ||
    (&& SessionAfter(before) >= 0 && (before != [] ==> SessionAfter(before) > 0)
     && asks[0] == Ask(SessionAfter(before), |Assembled(before)|)
     && (|asks| > 1 ==> fragments != [] && AsksFollow(before + [fragments[0]], asks[1..], fragments[1..])))
  }

  lemma {:induction false} RunAsks(q: Query, source: Source, state: State, round: nat, before: seq<Fragment>)
    requires state.rpcId >= 0 && After(q, before, state)
    ensures var run := Execute(q, source, state, round);
            AsksFollow(before, run.asks, run.fragments)
    decreases q.maxRounds - round
  {
    hide Step, Tiled, Assembled;
    var run, ask := Execute(q, source, state, round), Ask(state.rpcId, |state.data|);
    if round < q.maxRounds && source(round, ask).Ok? {
      var f := source(round, ask).value;
      if Step(q, state, f).Next? {
        var next := Step(q, state, f).state;
        Continued(q, before, state, f, next);
        RunAsks(q, source, next, round + 1, before + [f]);
        assert run.asks[1..] == Execute(q, source, next, round + 1).asks;
        assert run.fragments[1..] == Execute(q, source, next, round + 1).fragments;
      }
    }
  }

  lemma {:induction false} AskAt(before: seq<Fragment>, asks: seq<Ask>, fragments: seq<Fragment>, k: nat)
    requires AsksFollow(before, asks, fragments) && k < |asks| <= |fragments| + 1
    ensures var taken := before + fragments[..k];
            && SessionAfter(taken) >= 0 && (taken != [] ==> SessionAfter(taken) > 0)
            && asks[k] == Ask(SessionAfter(taken), |Assembled(taken)|)
    decreases k
  {
    hide Assembled, SessionAfter;
    if k == 0 {
      assert before + fragments[..0] == before;
    } else {
      AskAt(before + [fragments[0]], asks[1..], fragments[1..], k - 1);
      assert fragments[..k] == [fragments[0]] + fragments[1..][..k - 1];
      assert before + [fragments[0]] + fragments[1..][..k - 1] == before + fragments[..k];
      assert asks[1..][k - 1] == asks[k];
    }
  }

  /** Whatever the peer sends, in however many rounds it is given: every fragment taken
      starts where the ones before it end, under one total and one session, within the
      limits; there are at most four rounds for each byte of the announced total, and at
      most four if none is announced; and a result, if there is one, is those fragments
      put together, of the announced total, or a single one if none was announced. */
  lemma TransferSafety(q: Query, source: Source)
    ensures var run := Execute(q, source, START, 0);
            && (forall k :: 0 <= k < |run.fragments| ==> Follows(q, run.fragments[..k], run.fragments[k]))
            && |run.asks| <= RoundLimit(TotalOf(run.fragments))
            && (run.outcome.Ok? ==>
                  Complete(run.fragments) && run.outcome.value == Assembled(run.fragments))
  {
    var run := Execute(q, source, START, 0);
    RunTiles(q, source, START, 0, []);
    assert [] + run.fragments == run.fragments;
    forall k | 0 <= k < |run.fragments|
      ensures Follows(q, run.fragments[..k], run.fragments[k])
    {
      TiledAt(q, run.fragments, k);
    }
  }

  /** Round k asks for exactly the bytes after the first k fragments; every round but the
      first does so under the session of the first reply, a positive one. */
  lemma TransferAsks(q: Query, source: Source, k: nat)
    requires k < |Execute(q, source, START, 0).asks|
    ensures var run := Execute(q, source, START, 0);
            && k <= |run.fragments|
            && (k > 0 ==> run.fragments[0].id > 0)
            && run.asks[k] == Ask(if k == 0 then 0 else run.fragments[0].id,
                                  |Assembled(run.fragments[..k])|)
  {
    var run := Execute(q, source, START, 0);
    RunTiles(q, source, START, 0, []);
    RunAsks(q, source, START, 0, []);
    AskAt([], run.asks, run.fragments, k);
    assert [] + run.fragments[..k] == run.fragments[..k];
  }

  /** No transfer ever returns an empty result, whatever the peer: an empty content cannot be
      delivered. */
  lemma ResultNotEmpty(q: Query, source: Source)
    ensures var outcome := Execute(q, source, START, 0).outcome; outcome.Ok? ==> outcome.value != []
  {
    TransferSafety(q, source);
    var fragments := Execute(q, source, START, 0).fragments;
    hide Execute, Follows;
    if fragments != [] {
      var last := |fragments| - 1;
      assert Assembled(fragments) == Assembled(fragments[..last]) + fragments[last].chunk;
    }
  }
}
