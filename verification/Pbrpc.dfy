/** The PBRPC transfer: a client that reassembles a result from fragments sent by a peer
    it does not trust. */
module Pbrpc {
  import opened Options
  import opened Wire
  import opened Protobuf

  /** What to ask for and within which limits. `decodes` says which bytes the program's
      text decoder accepts. */
  datatype Query = Query(target: bytes, body: bytes, maxBytes: nat, maxRounds: nat,
                         decodes: bytes -> bool)

  /** A fragment as its reply announces it. */
  datatype Fragment = Fragment(id: int, start: int, total: int, size: int, chunk: bytes)

  /** The locals of the client loop. */
  datatype State = State(data: bytes, rpcId: int, total: Option<int>, empty: nat)

  const START := State([], 0, None, 0)

  datatype Verdict = Done(data: bytes) | Next(state: State) | Refused(error: Failure)

  function OptionalNumber(number: nat, value: nat): bytes {
    if value != 0 then PutField(number, Number(value)) else []
  }

  function Request(q: Query, rpcId: nat, start: nat): bytes {
    PutField(1, Blob(PutField(1, Blob([0x31])))) + (OptionalNumber(2, rpcId)
    + (OptionalNumber(3, start) + (PutField(4, Blob(q.target)) + PutField(5, Blob(q.body)))))
  }

  /** The head of a reply: a zero code passes. Its text is decoded even then, because the
      message that quotes it is built before the test. */
  function CheckHead(q: Query, raw: bytes): Outcome {
    var fields := ParseFields(raw);
    if fields.Err? then Fail(fields.error) else
    var code, text := IntField(fields.value, 1, 0), BytesField(fields.value, 2, []);
    if code.Err? then Fail(code.error)
    else if text.Err? then Fail(text.error)
    else if !q.decodes(text.value) then Fail(BadText)
    else Need(code.value == 0, RpcError(code.value))
  }

  function FragmentOf(fields: Fields): Result<Fragment> {
    var id :- IntField(fields, 2, 0);
    var start :- IntField(fields, 3, 0);
    var total :- IntField(fields, 4, 0);
    var size :- IntField(fields, 5, 0);
    var chunk :- BytesField(fields, 6, []);
    Ok(Fragment(id, start, total, size, chunk))
  }

  /** One reply up to the arithmetic checks. */
  function ReadFragment(q: Query, raw: bytes): Result<Fragment> {
    var fields :- ParseFields(raw);
    var head :- BytesField(fields, 1, []);
    :- CheckHead(q, head);
    FragmentOf(fields)
  }

  /** The checks on a fragment, in the source's order. */
  function Check(q: Query, state: State, f: Fragment): Outcome {
    if !(f.id >= 0 && f.start >= 0 && f.total >= 0 && f.size >= 0) then Fail(NegativeLength)
    else if !(f.size == |f.chunk| && f.start == |state.data|) then Fail(BadFragment)
    else if !(state.rpcId == 0 || state.rpcId == f.id) then Fail(SessionChanged)
    else if !(state.total == None || state.total == Some(f.total)) then Fail(TotalChanged)
    else if !(f.total <= q.maxBytes && |state.data| + f.size <= q.maxBytes) then Fail(TooLarge)
    else if !(f.total == 0 || |state.data| + f.size <= f.total) then Fail(BeyondTotal)
    else Pass
  }

  function Absorb(state: State, f: Fragment): Verdict {
    var data := state.data + f.chunk;
    var empty := if f.chunk != [] then 0 else state.empty + 1;
    if (f.total > 0 && |data| == f.total) || (f.total == 0 && f.chunk != []) then Done(data)
    else if empty > 3 then Refused(EmptyFragments)
    else if f.id <= 0 then Refused(NoSession)
    else Next(State(data, f.id, Some(f.total), empty))
  }

  function Step(q: Query, state: State, f: Fragment): Verdict {
    match Check(q, state, f)
    case Fail(e) => Refused(e)
    case Pass => Absorb(state, f)
  }

  /** The two variable parts of a request. */
  datatype Ask = Ask(rpcId: nat, start: nat)

  /** A whole run: what was asked, the fragments taken, and how it ended. */
  datatype Run = Run(asks: seq<Ask>, fragments: seq<Fragment>, outcome: Result<bytes>)

  /** A peer answers each round as it likes, having seen the request. */
  type Peer = (nat, bytes) -> Result<bytes>

  /** The same peer, asked in terms of `Ask` and with its replies read. */
  type Source = (nat, Ask) -> Result<Fragment>

  function Decoded(q: Query, peer: Peer): Source {
    (round: nat, ask: Ask) =>
      var raw := peer(round, Request(q, ask.rpcId, ask.start));
      if raw.Err? then Err(raw.error) else ReadFragment(q, raw.value)
  }

  function Execute(q: Query, source: Source, state: State, round: nat): Run
    requires state.rpcId >= 0
    decreases q.maxRounds - round
  {
    if round >= q.maxRounds then Run([], [], Err(RoundsExhausted)) else
    var ask := Ask(state.rpcId, |state.data|);
    match source(round, ask)
    case Err(e) => Run([ask], [], Err(e))
    case Ok(f) =>
      match Step(q, state, f)
      case Refused(e) => Run([ask], [], Err(e))
      case Done(data) => Run([ask], [f], Ok(data))
      case Next(next) => Before(ask, f, Execute(q, source, next, round + 1))
  }

  function Before(ask: Ask, f: Fragment, rest: Run): Run {
    Run([ask] + rest.asks, [f] + rest.fragments, rest.outcome)
  }

  /** Reading one reply as the loop body does, message by message. */
  method ReadReply(q: Query, raw: bytes) returns (r: Result<Fragment>)
    ensures r == ReadFragment(q, raw)
  {
    var fields :- PbFields(raw);
    var headBytes :- BytesField(fields, 1, []);
    var head :- PbFields(headBytes);
    var code :- IntField(head, 1, 0);
    var text :- BytesField(head, 2, []);
    :- Need(q.decodes(text), BadText);
    :- Need(code == 0, RpcError(code));
    var id :- IntField(fields, 2, 0);
    var start :- IntField(fields, 3, 0);
    var total :- IntField(fields, 4, 0);
    var size :- IntField(fields, 5, 0);
    var chunk :- BytesField(fields, 6, []);
    r := Ok(Fragment(id, start, total, size, chunk));
  }

  function RequestsOf(q: Query, asks: seq<Ask>): seq<bytes> {
    if asks == [] then [] else [Request(q, asks[0].rpcId, asks[0].start)] + RequestsOf(q, asks[1..])
  }

  /** One round of `Execute`. */
  lemma ExecuteStep(q: Query, source: Source, state: State, round: nat)
    requires state.rpcId >= 0 && round < q.maxRounds
    ensures var run, ask := Execute(q, source, state, round), Ask(state.rpcId, |state.data|);
            var f := source(round, ask);
            if f.Err? then run.outcome == Err(f.error) && run.asks == [ask]
            else
              match Step(q, state, f.value)
              case Refused(e) => run.outcome == Err(e) && run.asks == [ask]
              case Done(data) => run.outcome == Ok(data) && run.asks == [ask]
              case Next(next) =>
                && next.rpcId >= 0
                && run.outcome == Execute(q, source, next, round + 1).outcome
                && run.asks == [ask] + Execute(q, source, next, round + 1).asks
  {
  }

  lemma RequestsFirst(q: Query, ask: Ask, rest: seq<Ask>)
    ensures RequestsOf(q, [ask] + rest) == [Request(q, ask.rpcId, ask.start)] + RequestsOf(q, rest)
  {
    assert ([ask] + rest)[1..] == rest;
  }

  lemma RequestsOnly(q: Query, ask: Ask)
    ensures RequestsOf(q, [ask]) == [Request(q, ask.rpcId, ask.start)] && RequestsOf(q, []) == []
  {
    RequestsFirst(q, ask, []);
    assert [ask] + [] == [ask];
  }

  /** The client loop: the requests it posts and its verdict are those of `Execute`, for
      every peer. */
  method QueryPbrpc(q: Query, peer: Peer) returns (r: Result<bytes>, posted: seq<bytes>)
    ensures var run := Execute(q, Decoded(q, peer), START, 0);
            r == run.outcome && posted == RequestsOf(q, run.asks)
  {
    hide Execute, Request, ReadFragment, RequestsOf;
    var data: bytes, rpcId: int, expectedTotal: Option<int>, emptyCount: nat := [], 0, None, 0;
    var round := 0;
    posted := [];
    ghost var source := Decoded(q, peer);
    ghost var run := Execute(q, source, START, 0);
    while round < q.maxRounds
      invariant rpcId >= 0
      invariant var rest := Execute(q, source, State(data, rpcId, expectedTotal, emptyCount), round);
                run.outcome == rest.outcome && RequestsOf(q, run.asks) == posted + RequestsOf(q, rest.asks)
    {
      ghost var state := State(data, rpcId, expectedTotal, emptyCount);
      ghost var ask := Ask(rpcId, |data|);
      ExecuteStep(q, source, state, round);
      RequestsOnly(q, ask);
      var request := Request(q, rpcId, |data|);
      posted := posted + [request];
      var raw :- peer(round, request);
      var f :- ReadReply(q, raw);
      var check := Check(q, State(data, rpcId, expectedTotal, emptyCount), f);
      if check.Fail? {
        return Err(check.error), posted;
      }
      expectedTotal, rpcId := Some(f.total), f.id;
      data := data + f.chunk;
      if (f.total > 0 && |data| == f.total) || (f.total == 0 && f.chunk != []) {
        return Ok(data), posted;
      }
      emptyCount := if f.chunk != [] then 0 else emptyCount + 1;
      :- Need(emptyCount <= 3, EmptyFragments);
      :- Need(rpcId > 0, NoSession);
      round := round + 1;
      RequestsFirst(q, ask, Execute(q, source, State(data, rpcId, expectedTotal, emptyCount), round).asks);
    }
    OutOfRounds(q, source, State(data, rpcId, expectedTotal, emptyCount), round);
    r := Err(RoundsExhausted);
  }

  lemma OutOfRounds(q: Query, source: Source, state: State, round: nat)
    requires state.rpcId >= 0 && round >= q.maxRounds
    ensures var run := Execute(q, source, state, round);
            run.outcome == Err(RoundsExhausted) && RequestsOf(q, run.asks) == []
  {
  }
}
