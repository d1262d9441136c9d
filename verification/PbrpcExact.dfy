/** Exactly which replies a PBRPC transfer accepts, and what it makes of them. */
module PbrpcExact {
  import opened Options
  import opened Wire
  import opened Pbrpc
  import opened PbrpcSafety

  /** How many fragments at the end are empty. */
  function TrailingEmpty(fragments: seq<Fragment>): nat {
    if fragments == [] || fragments[|fragments| - 1].chunk != [] then 0
    else 1 + TrailingEmpty(fragments[..|fragments| - 1])
  }

  /** The client asks for more: the result is not complete, at most three fragments in a row
      were empty, and there is a session to go on with. */
  ghost predicate Unfinished(fragments: seq<Fragment>) {
    fragments == [] || (!Complete(fragments) && TrailingEmpty(fragments) <= 3 && fragments[0].id > 0)
  }

  function AskFor(fragments: seq<Fragment>): Ask {
    Ask(if SessionAfter(fragments) > 0 then SessionAfter(fragments) else 0, |Assembled(fragments)|)
  }

  /** The source offers these fragments, one a round: each asked for while the ones before it
      are unfinished, and following them. */
  ghost predicate Taken(q: Query, source: Source, fragments: seq<Fragment>) {
    fragments == [] ||
    (var init, last := fragments[..|fragments| - 1], fragments[|fragments| - 1];
     && Taken(q, source, init) && Unfinished(init) && Follows(q, init, last)
     && |init| < q.maxRounds && source(|init|, AskFor(init)) == Ok(last))
  }

  function StateAfter(fragments: seq<Fragment>): State {
    if fragments == [] then START
    else State(Assembled(fragments), fragments[0].id, Some(fragments[0].total), TrailingEmpty(fragments))
  }

  lemma {:induction false} TakenStarts(q: Query, source: Source, fragments: seq<Fragment>)
    requires Taken(q, source, fragments) && fragments != []
    ensures var f := fragments[0];
            f.id >= 0 && f.total >= 0 && |Assembled(fragments)| <= q.maxBytes
            && (f.total == 0 && Unfinished(fragments) ==> Assembled(fragments) == [])
            && (f.total > 0 ==> |Assembled(fragments)| <= f.total)
  {
    var init := fragments[..|fragments| - 1];
    if init != [] {
      TakenStarts(q, source, init);
    }
  }

  /** What one more fragment does: it is refused unless it follows, ends the transfer if it
      completes the result, and otherwise leads on or is refused. */
  lemma StepExact(q: Query, source: Source, fragments: seq<Fragment>, f: Fragment)
    requires Taken(q, source, fragments) && Unfinished(fragments)
    ensures var more, verdict := fragments + [f], Step(q, StateAfter(fragments), f);
            if !Follows(q, fragments, f) then verdict.Refused?
            else if Complete(more) then verdict == Done(Assembled(more))
            else if Unfinished(more) then verdict == Next(StateAfter(more))
            else verdict.Refused?
  {
    Snoc(fragments, f);
    if fragments != [] {
      TakenStarts(q, source, fragments);
    }
    var more := fragments + [f];
    assert more[..|more| - 1] == fragments && more[|more| - 1] == f;
    assert TrailingEmpty(more) == if f.chunk != [] then 0 else 1 + TrailingEmpty(fragments);
  }

  /** The client gets from the start to any unfinished list of fragments that is offered. */
  lemma {:induction false} Reached(q: Query, source: Source, fragments: seq<Fragment>)
    requires Taken(q, source, fragments) && Unfinished(fragments)
    ensures StateAfter(fragments).rpcId >= 0
    ensures Execute(q, source, START, 0).outcome
            == Execute(q, source, StateAfter(fragments), |fragments|).outcome
  {
    hide Follows, Complete, Step, Execute;
    if fragments != [] {
      var init, last := fragments[..|fragments| - 1], fragments[|fragments| - 1];
      assert init + [last] == fragments;
      Reached(q, source, init);
      AskIs(init);
      ExecuteStep(q, source, StateAfter(init), |init|);
      StepExact(q, source, init, last);
    }
  }

  lemma AskIs(fragments: seq<Fragment>)
    requires StateAfter(fragments).rpcId >= 0
    ensures AskFor(fragments) == Ask(StateAfter(fragments).rpcId, |StateAfter(fragments).data|)
  {
  }

  /** Fragments that are offered and complete a result are accepted. The session id matters
      only to go on: a complete first reply may carry none. */
  lemma CompleteAccepted(q: Query, source: Source, fragments: seq<Fragment>)
    requires Taken(q, source, fragments) && Complete(fragments)
    ensures Execute(q, source, START, 0).outcome == Ok(Assembled(fragments))
  {
    var init, last := fragments[..|fragments| - 1], fragments[|fragments| - 1];
    hide Follows, Complete, Step, Execute;
    assert init + [last] == fragments;
    Reached(q, source, init);
    AskIs(init);
    ExecuteStep(q, source, StateAfter(init), |init|);
    StepExact(q, source, init, last);
  }

  lemma TakenSnoc(q: Query, source: Source, before: seq<Fragment>, f: Fragment)
    requires Taken(q, source, before) && Unfinished(before) && Follows(q, before, f)
    requires |before| < q.maxRounds && source(|before|, AskFor(before)) == Ok(f)
    ensures Taken(q, source, before + [f])
  {
    hide Follows, Unfinished, AskFor;
    var more := before + [f];
    assert more[..|more| - 1] == before && more[|more| - 1] == f;
  }

  lemma {:induction false} RunTaken(q: Query, source: Source, before: seq<Fragment>) returns (all: seq<Fragment>)
    requires Taken(q, source, before) && Unfinished(before) && StateAfter(before).rpcId >= 0
    ensures var outcome := Execute(q, source, StateAfter(before), |before|).outcome;
            outcome.Ok? ==> Taken(q, source, all) && Complete(all) && outcome.value == Assembled(all)
    decreases q.maxRounds - |before|
  {
    hide Follows, Complete, Step, Execute, Taken, Unfinished, StateAfter, AskFor, Assembled;
    all := before;
    if |before| < q.maxRounds {
      ExecuteStep(q, source, StateAfter(before), |before|);
      AskIs(before);
      var reply := source(|before|, AskFor(before));
      if reply.Ok? {
        var more := before + [reply.value];
        StepExact(q, source, before, reply.value);
        if Follows(q, before, reply.value) {
          TakenSnoc(q, source, before, reply.value);
        }
        if Step(q, StateAfter(before), reply.value).Next? {
          all := RunTaken(q, source, more);
        } else {
          all := more;
        }
      }
    } else {
      OutOfRounds(q, source, StateAfter(before), |before|);
    }
  }

  /** A transfer returns a result if and only if fragments that are offered complete it. */
  lemma TransferExact(q: Query, source: Source, result: bytes)
    ensures Execute(q, source, START, 0).outcome == Ok(result)
            <==> exists fragments ::
                   Taken(q, source, fragments) && Complete(fragments) && Assembled(fragments) == result
  {
    hide Follows, Complete, Execute, Taken;
    assert Taken(q, source, []) by {
      NothingTaken(q, source);
    }
    var all := RunTaken(q, source, []);
    if fragments :| Taken(q, source, fragments) && Complete(fragments) && Assembled(fragments) == result {
      CompleteAccepted(q, source, fragments);
    }
  }

  lemma NothingTaken(q: Query, source: Source)
    ensures Taken(q, source, [])
  {
  }

  /** One reply that holds everything is enough, with a session id or without. */
  lemma SingleReply(q: Query, source: Source, id: nat, content: bytes)
    requires 0 < |content| <= q.maxBytes && q.maxRounds > 0
    requires source(0, Ask(0, 0)) == Ok(Fragment(id, 0, |content|, |content|, content))
    ensures Execute(q, source, START, 0).outcome == Ok(content)
  {
    var f := Fragment(id, 0, |content|, |content|, content);
    var only := [f];
    assert only[..0] == [] && Assembled(only) == Assembled([]) + content && [] + content == content;
    assert Follows(q, [], f) && Taken(q, source, []) && Taken(q, source, only);
    CompleteAccepted(q, source, only);
  }
}
