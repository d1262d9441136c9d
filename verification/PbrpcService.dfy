/** PBRPC with an honest peer: the request says what the client means, and every way of
    cutting a result into fragments that the client can follow delivers it. */
module PbrpcService {
  import opened Arithmetic
  import opened Options
  import opened Wire
  import opened Protobuf
  import opened Pbrpc
  import ProtobufLaws

  // ---------------------------------------------------------------- requests

  lemma OptionalField(number: nat, value: nat, rest: bytes, fields: Fields)
    requires 0 < number < TWO_31 && value < TWO_64
    ensures FieldsFrom(OptionalNumber(number, value) + rest, fields)
            == FieldsFrom(rest, if value != 0 then fields[number := Number(value)] else fields)
  {
    if value != 0 {
      ProtobufLaws.FieldRoundTrip(number, Number(value), rest, fields);
    } else {
      assert OptionalNumber(number, value) + rest == rest;
    }
  }

  /** The fields of a request, one by one. */
  function RequestFields(q: Query, rpcId: nat, start: nat): Fields {
    var head := map[1 := Blob(PutField(1, Blob([0x31])))];
    var withId := if rpcId != 0 then head[2 := Number(rpcId)] else head;
    var withStart := if start != 0 then withId[3 := Number(start)] else withId;
    withStart[4 := Blob(q.target)][5 := Blob(q.body)]
  }

  lemma RequestParses(q: Query, rpcId: nat, start: nat)
    requires rpcId < TWO_31 && start < TWO_31 && |q.target| < TWO_64 && |q.body| < TWO_64
    ensures ParseFields(Request(q, rpcId, start)) == Ok(RequestFields(q, rpcId, start))
  {
    var client := Blob(PutField(1, Blob([0x31])));
    var body := PutField(5, Blob(q.body));
    var target := PutField(4, Blob(q.target)) + body;
    var head := map[1 := client];
    ProtobufLaws.FieldRoundTrip(1, client, OptionalNumber(2, rpcId) + (OptionalNumber(3, start) + target), map[]);
    OptionalField(2, rpcId, OptionalNumber(3, start) + target, head);
    var withId := if rpcId != 0 then head[2 := Number(rpcId)] else head;
    OptionalField(3, start, target, withId);
    var withStart := if start != 0 then withId[3 := Number(start)] else withId;
    ProtobufLaws.FieldRoundTrip(4, Blob(q.target), body, withStart);
    ProtobufLaws.FieldRoundTrip(5, Blob(q.body), [], withStart[4 := Blob(q.target)]);
    assert body + [] == body;
  }

  lemma RequestFieldsMeaning(q: Query, rpcId: nat, start: nat)
    requires rpcId < TWO_31 && start < TWO_31
    ensures var fields := RequestFields(q, rpcId, start);
            && IntField(fields, 2, 0) == Ok(rpcId) && IntField(fields, 3, 0) == Ok(start)
            && BytesField(fields, 4, []) == Ok(q.target) && BytesField(fields, 5, []) == Ok(q.body)
            && BytesField(fields, 1, []) == Ok(PutField(1, Blob([0x31])))
            && fields.Keys == {1, 4, 5} + (if rpcId != 0 then {2} else {}) + (if start != 0 then {3} else {})
  {
  }

  /** Read back by the client's own reader, a request names the session and the first byte
      wanted, each left out exactly when it is zero, and carries the module, its body and
      the client's mark, a message whose first field is the text 1. */
  lemma RequestMeaning(q: Query, rpcId: nat, start: nat)
    requires rpcId < TWO_31 && start < TWO_31 && |q.target| < TWO_64 && |q.body| < TWO_64
    ensures var fields := ParseFields(Request(q, rpcId, start));
            && fields.Ok?
            && IntField(fields.value, 2, 0) == Ok(rpcId) && IntField(fields.value, 3, 0) == Ok(start)
            && BytesField(fields.value, 4, []) == Ok(q.target)
            && BytesField(fields.value, 5, []) == Ok(q.body)
            && fields.value.Keys == {1, 4, 5} + (if rpcId != 0 then {2} else {}) + (if start != 0 then {3} else {})
            && (var mark := BytesField(fields.value, 1, []);
                mark.Ok? && ParseFields(mark.value) == Ok(map[1 := Blob([0x31])]))
  {
    RequestParses(q, rpcId, start);
    RequestFieldsMeaning(q, rpcId, start);
    hide RequestFields, Request;
    ProtobufLaws.OneField(1, Blob([0x31]));
  }

  // ---------------------------------------------------------------- replies

  /** A field, unless it is left out. */
  function PutUnless(omitted: bool, number: nat, value: Field): bytes
    requires value.Number? || value.Blob?
  {
    if omitted then [] else PutField(number, value)
  }

  function With(fields: Fields, omitted: bool, number: nat, value: Field): Fields {
    if omitted then fields else fields[number := value]
  }

  lemma UnlessParses(omitted: bool, number: nat, value: Field, rest: bytes, fields: Fields)
    requires Printable(number, value)
    ensures FieldsFrom(PutUnless(omitted, number, value) + rest, fields)
            == FieldsFrom(rest, With(fields, omitted, number, value))
  {
    if omitted {
      assert [] + rest == rest;
    } else {
      ProtobufLaws.FieldRoundTrip(number, value, rest, fields);
    }
  }

  /** The head of a reply: its code, and the text unless it is empty. A terse service leaves
      out a zero code as well. */
  function Head(code: int, text: bytes, terse: bool): bytes
    requires -TWO_31 <= code < TWO_31
  {
    PutUnless(terse && code == 0, 1, Number(ProtobufLaws.SignExtended(code)))
    + PutUnless(text == [], 2, Blob(text))
  }

  /** A reply as a service prints it; a terse one leaves out what is zero or empty. */
  function Reply(head: bytes, id: nat, start: nat, total: nat, chunk: bytes, terse: bool): bytes {
    PutUnless(terse && head == [], 1, Blob(head)) + (PutUnless(terse && id == 0, 2, Number(id))
    + (PutUnless(terse && start == 0, 3, Number(start)) + (PutUnless(terse && total == 0, 4, Number(total))
    + (PutUnless(terse && chunk == [], 5, Number(|chunk|)) + PutUnless(terse && chunk == [], 6, Blob(chunk))))))
  }

  function ReplyFields(head: bytes, id: nat, start: nat, total: nat, chunk: bytes, terse: bool): Fields {
    var m1: Fields := With(map[], terse && head == [], 1, Blob(head));
    var m3 := With(With(m1, terse && id == 0, 2, Number(id)), terse && start == 0, 3, Number(start));
    var m4 := With(m3, terse && total == 0, 4, Number(total));
    With(With(m4, terse && chunk == [], 5, Number(|chunk|)), terse && chunk == [], 6, Blob(chunk))
  }

  lemma HeadShort(code: int, text: bytes, terse: bool)
    requires -TWO_31 <= code < TWO_31 && |text| < TWO_31
    ensures |Head(code, text, terse)| < TWO_64
  {
    ShortVarint(1 * 8);
    ShortVarint(2 * 8 + 2);
    ShortVarint(ProtobufLaws.SignExtended(code));
    ShortVarint(|text|);
  }

  lemma ReplyParses(head: bytes, id: nat, start: nat, total: nat, chunk: bytes, terse: bool)
    requires |head| < TWO_64 && id < TWO_31 && start < TWO_31 && total < TWO_31 && |chunk| < TWO_31
    ensures ParseFields(Reply(head, id, start, total, chunk, terse))
            == Ok(ReplyFields(head, id, start, total, chunk, terse))
  {
    hide PutField, PutUnless, With, FieldBody, Consume;
    var none := terse && chunk == [];
    var m1 := With(map[], terse && head == [], 1, Blob(head));
    var m2 := With(m1, terse && id == 0, 2, Number(id));
    var m3 := With(m2, terse && start == 0, 3, Number(start));
    var m4 := With(m3, terse && total == 0, 4, Number(total));
    var m5 := With(m4, none, 5, Number(|chunk|));
    var r5 := PutUnless(none, 6, Blob(chunk));
    var r4 := PutUnless(none, 5, Number(|chunk|)) + r5;
    var r3 := PutUnless(terse && total == 0, 4, Number(total)) + r4;
    var r2 := PutUnless(terse && start == 0, 3, Number(start)) + r3;
    UnlessParses(terse && head == [], 1, Blob(head), PutUnless(terse && id == 0, 2, Number(id)) + r2, map[]);
    UnlessParses(terse && id == 0, 2, Number(id), r2, m1);
    UnlessParses(terse && start == 0, 3, Number(start), r3, m2);
    UnlessParses(terse && total == 0, 4, Number(total), r4, m3);
    UnlessParses(none, 5, Number(|chunk|), r5, m4);
    UnlessParses(none, 6, Blob(chunk), [], m5);
    assert r5 + [] == r5;
  }

  lemma ShortVarint(v: nat)
    requires v < TWO_64
    ensures |PutVarint(v)| <= 10
  {
    ProtobufLaws.ConsumeRoundTrip(v, []);
    ProtobufLaws.ConsumeAccepted(PutVarint(v) + []);
  }

  lemma HeadParses(code: int, text: bytes, terse: bool)
    requires -TWO_31 <= code < TWO_31 && |text| < TWO_31
    ensures var fields := ParseFields(Head(code, text, terse));
            && fields.Ok?
            && IntField(fields.value, 1, 0) == Ok(code) && BytesField(fields.value, 2, []) == Ok(text)
  {
    var number := Number(ProtobufLaws.SignExtended(code));
    var rest := PutUnless(text == [], 2, Blob(text));
    var first := With(map[], terse && code == 0, 1, number);
    UnlessParses(terse && code == 0, 1, number, rest, map[]);
    UnlessParses(text == [], 2, Blob(text), [], first);
    ExtensionLow(code);
    hide PutField, PutUnless, Consume, FieldBody;
    assert rest + [] == rest;
    assert ParseFields(Head(code, text, terse)) == Ok(With(first, text == [], 2, Blob(text)));
  }

  lemma ExtensionLow(code: int)
    requires -TWO_31 <= code < TWO_31
    ensures Signed32(ProtobufLaws.SignExtended(code) % TWO_32) == code
  {
    assert ProtobufLaws.SignExtended(code) % TWO_32 == if code < 0 then code + TWO_32 else code;
  }

  /** The text is decoded first, whatever the code; then any code but zero is reported. */
  lemma HeadMeaning(q: Query, code: int, text: bytes, terse: bool)
    requires -TWO_31 <= code < TWO_31 && |text| < TWO_31
    ensures CheckHead(q, Head(code, text, terse))
            == if !q.decodes(text) then Fail(BadText) else Need(code == 0, RpcError(code))
  {
    hide Head, ParseFields;
    HeadParses(code, text, terse);
  }

  lemma FragmentMeaning(head: bytes, id: nat, start: nat, total: nat, chunk: bytes, terse: bool)
    requires id < TWO_31 && start < TWO_31 && total < TWO_31 && |chunk| < TWO_31
    ensures var fields := ReplyFields(head, id, start, total, chunk, terse);
            && BytesField(fields, 1, []) == Ok(head)
            && FragmentOf(fields) == Ok(Fragment(id, start, total, |chunk|, chunk))
  {
  }

  /** The client reads a printed reply as the fragment it announces if and only if its code
      is zero and its text can be decoded, whether zeros and empty fields are printed or left
      out. A text that cannot be decoded is an error of its own, even beside a zero code;
      otherwise the code is reported. */
  lemma ReplyMeaning(q: Query, code: int, text: bytes, id: nat, start: nat, total: nat, chunk: bytes, terse: bool)
    requires -TWO_31 <= code < TWO_31 && |text| < TWO_31
    requires id < TWO_31 && start < TWO_31 && total < TWO_31 && |chunk| < TWO_31
    ensures ReadFragment(q, Reply(Head(code, text, terse), id, start, total, chunk, terse))
            == if !q.decodes(text) then Err(BadText)
               else if code != 0 then Err(RpcError(code))
               else Ok(Fragment(id, start, total, |chunk|, chunk))
  {
    hide ParseFields, Head, FragmentOf, CheckHead, Reply, ReplyFields;
    HeadShort(code, text, terse);
    ReplyParses(Head(code, text, terse), id, start, total, chunk, terse);
    HeadMeaning(q, code, text, terse);
    FragmentMeaning(Head(code, text, terse), id, start, total, chunk, terse);
  }

  // ---------------------------------------------------------------- a whole transfer

  /** What an honest peer has to say at `start`: the next `limit` bytes, or what is left. */
  function Slice(content: bytes, id: nat, total: nat, start: nat, limit: nat): Fragment
    requires start <= |content|
  {
    var size := Min(limit, |content| - start);
    Fragment(id, start, total, size, content[start..start + size])
  }

  /** What a peer says besides the content: its session, the total it announces, the text of
      its heads, and whether it leaves out what is zero. */
  datatype Service = Service(id: nat, total: nat, text: bytes, terse: bool)

  /** A service that the client can talk to: a session, decodable text, and sizes that fit
      their fields. */
  ghost predicate Usable(q: Query, service: Service, content: bytes) {
    && 0 < service.id < TWO_31 && service.total < TWO_31 && |content| < TWO_31
    && q.decodes(service.text) && |service.text| < TWO_31
    && |q.target| < TWO_64 && |q.body| < TWO_64
  }

  /** A peer that reads the wanted offset from the request and cuts `content` into
      fragments of at most `sizes(round)` bytes. */
  function Server(content: bytes, service: Service, sizes: nat -> nat): Peer {
    (round: nat, request: bytes) =>
      var fields := ParseFields(request);
      if fields.Err? then Err(fields.error) else
      var start := IntField(fields.value, 3, 0);
      if start.Err? then Err(start.error) else
      if !(0 <= start.value <= |content|) then Err(TransportError) else
      Ok(Reply(Head(0, service.text, service.terse), service.id, start.value, service.total,
               Slice(content, service.id, service.total, start.value, sizes(round)).chunk, service.terse))
  }

  lemma ServerAnswers(q: Query, content: bytes, service: Service, sizes: nat -> nat, round: nat, ask: Ask)
    requires Usable(q, service, content) && ask.rpcId < TWO_31 && ask.start <= |content|
    ensures Decoded(q, Server(content, service, sizes))(round, ask)
            == Ok(Slice(content, service.id, service.total, ask.start, sizes(round)))
  {
    hide Head, Reply, Request, ParseFields, IntField, BytesField, ReadFragment;
    RequestMeaning(q, ask.rpcId, ask.start);
    var slice := Slice(content, service.id, service.total, ask.start, sizes(round));
    ReplyMeaning(q, 0, service.text, service.id, ask.start, service.total, slice.chunk, service.terse);
  }

  /** Every ask that the client can make is answered with a slice. */
  ghost predicate Serves(source: Source, content: bytes, service: Service, sizes: nat -> nat) {
    forall r: nat, ask: Ask :: ask.rpcId < TWO_31 && ask.start <= |content| ==>
      source(r, ask) == Ok(Slice(content, service.id, service.total, ask.start, sizes(r)))
  }

  lemma ServerServes(q: Query, content: bytes, service: Service, sizes: nat -> nat)
    requires Usable(q, service, content)
    ensures Serves(Decoded(q, Server(content, service, sizes)), content, service, sizes)
  {
    hide Slice, Usable;
    var source := Decoded(q, Server(content, service, sizes));
    forall r: nat, ask: Ask | ask.rpcId < TWO_31 && ask.start <= |content|
      ensures source(r, ask) == Ok(Slice(content, service.id, service.total, ask.start, sizes(r)))
    {
      ServerAnswers(q, content, service, sizes, r, ask);
    }
  }

  /** How a transfer must end when `at` bytes have arrived by `round`, the last `empty`
      fragments having been empty. */
  function Delivery(q: Query, content: bytes, sizes: nat -> nat, round: nat, at: nat, empty: nat): Result<bytes>
    requires at < |content|
    decreases q.maxRounds - round
  {
    if round >= q.maxRounds then Err(RoundsExhausted)
    else if at + sizes(round) >= |content| then Ok(content)
    else if sizes(round) > 0 then Delivery(q, content, sizes, round + 1, at + sizes(round), 0)
    else if empty >= 3 then Err(EmptyFragments)
    else Delivery(q, content, sizes, round + 1, at, empty + 1)
  }

  /** The client's state when `at` bytes of `content` have arrived. */
  ghost predicate Holds(q: Query, content: bytes, id: nat, state: State, at: nat, empty: nat) {
    && at < |content| <= q.maxBytes && empty <= 3 && 0 < id
    && state.data == content[..at] && state.empty == empty
    && (state.rpcId == 0 || state.rpcId == id)
    && (state.total == None || state.total == Some(|content|))
  }

  lemma SliceStep(q: Query, content: bytes, id: nat, state: State, at: nat, empty: nat, limit: nat)
    requires Holds(q, content, id, state, at, empty)
    ensures var verdict := Step(q, state, Slice(content, id, |content|, at, limit));
            if at + limit >= |content| then verdict == Done(content)
            else if limit == 0 && empty == 3 then verdict == Refused(EmptyFragments)
            else verdict.Next?
                 && Holds(q, content, id, verdict.state, at + limit, if limit > 0 then 0 else empty + 1)
  {
    var size := Min(limit, |content| - at);
    assert content[..at] + content[at..at + size] == content[..at + size];
    assert content[..|content|] == content;
  }

  lemma {:induction false} RunDelivers(q: Query, source: Source, content: bytes, service: Service,
                                       sizes: nat -> nat, state: State, round: nat, at: nat, empty: nat)
    requires Holds(q, content, service.id, state, at, empty) && service.id < TWO_31 && service.total == |content|
    requires Serves(source, content, service, sizes)
    ensures Execute(q, source, state, round).outcome == Delivery(q, content, sizes, round, at, empty)
    decreases q.maxRounds - round
  {
    hide Step, Slice;
    if round < q.maxRounds {
      var limit := sizes(round);
      var slice := Slice(content, service.id, service.total, at, limit);
      assert source(round, Ask(state.rpcId, |state.data|)) == Ok(slice);
      SliceStep(q, content, service.id, state, at, empty, limit);
      var verdict := Step(q, state, slice);
      if verdict.Next? {
        RunDelivers(q, source, content, service, sizes, verdict.state, round + 1, at + limit,
                    if limit > 0 then 0 else empty + 1);
      }
    }
  }

  /** However an honest peer cuts a non-empty result within the client's limit, the run
      ends exactly as `Delivery` says: with the whole content, unless four empty
      fragments come in a row or the rounds run out first. */
  lemma TransferDelivers(q: Query, content: bytes, service: Service, sizes: nat -> nat)
    requires Usable(q, service, content) && service.total == |content|
    requires 0 < |content| <= q.maxBytes
    ensures Execute(q, Decoded(q, Server(content, service, sizes)), START, 0).outcome
            == Delivery(q, content, sizes, 0, 0, 0)
  {
    ServerServes(q, content, service, sizes);
    hide Serves;
    RunDelivers(q, Decoded(q, Server(content, service, sizes)), content, service, sizes, START, 0, 0, 0);
  }

  /** Among any four fragments in a row one is not empty. */
  ghost predicate NeverFourEmpty(sizes: nat -> nat) {
    forall k: nat :: NotAllEmpty(sizes, k)
  }

  predicate NotAllEmpty(sizes: nat -> nat, k: nat) {
    sizes(k) > 0 || sizes(k + 1) > 0 || sizes(k + 2) > 0 || sizes(k + 3) > 0
  }

  lemma {:induction false} DeliveryCompletes(q: Query, content: bytes, sizes: nat -> nat,
                                             round: nat, at: nat, empty: nat)
    requires at < |content| && NeverFourEmpty(sizes)
    requires empty <= 3 && empty <= round && forall j :: round - empty <= j < round ==> sizes(j) == 0
    requires round + 4 * (|content| - at) <= q.maxRounds + empty
    ensures Delivery(q, content, sizes, round, at, empty) == Ok(content)
    decreases q.maxRounds - round
  {
    var size := sizes(round);
    if empty == 3 {
      assert NotAllEmpty(sizes, round - 3);
    }
    if at + size < |content| {
      DeliveryCompletes(q, content, sizes, round + 1, at + size, if size > 0 then 0 else empty + 1);
    }
  }

  /** With at most three empty fragments in a row and four rounds for each byte, the client
      returns exactly the content. */
  lemma TransferCompletes(q: Query, content: bytes, service: Service, sizes: nat -> nat)
    requires Usable(q, service, content) && service.total == |content|
    requires 0 < |content| <= q.maxBytes
    requires NeverFourEmpty(sizes) && q.maxRounds >= 4 * |content|
    ensures Execute(q, Decoded(q, Server(content, service, sizes)), START, 0).outcome == Ok(content)
  {
    TransferDelivers(q, content, service, sizes);
    DeliveryCompletes(q, content, sizes, 0, 0, 0);
  }

  // ---------------------------------------------------------------- no total announced

  /** How a transfer without a total ends after `empty` empty fragments: its first fragment
      that is not empty is taken for the whole result. */
  function FirstPart(q: Query, content: bytes, sizes: nat -> nat, round: nat, empty: nat): Result<bytes>
    decreases q.maxRounds - round
  {
    var size := Min(sizes(round), |content|);
    if round >= q.maxRounds then Err(RoundsExhausted)
    else if size > 0 then Ok(content[..size])
    else if empty >= 3 then Err(EmptyFragments)
    else FirstPart(q, content, sizes, round + 1, empty + 1)
  }

  /** The client's state while nothing has arrived. */
  ghost predicate Waits(id: nat, state: State, empty: nat) {
    && state.data == [] && state.empty == empty <= 3 && 0 < id
    && (state.rpcId == 0 || state.rpcId == id) && (state.total == None || state.total == Some(0))
  }

  lemma PartStep(q: Query, content: bytes, id: nat, state: State, empty: nat, limit: nat)
    requires Waits(id, state, empty) && |content| <= q.maxBytes
    ensures var verdict := Step(q, state, Slice(content, id, 0, 0, limit));
            var size := Min(limit, |content|);
            if size > 0 then verdict == Done(content[..size])
            else if empty == 3 then verdict == Refused(EmptyFragments)
            else verdict.Next? && Waits(id, verdict.state, empty + 1)
  {
    var size := Min(limit, |content|);
    assert content[0..0 + size] == content[..size] && [] + content[..size] == content[..size];
  }

  lemma {:induction false} RunFirstPart(q: Query, source: Source, content: bytes, service: Service,
                                        sizes: nat -> nat, state: State, round: nat, empty: nat)
    requires Waits(service.id, state, empty) && service.id < TWO_31 && service.total == 0
    requires Serves(source, content, service, sizes) && |content| <= q.maxBytes
    ensures Execute(q, source, state, round).outcome == FirstPart(q, content, sizes, round, empty)
    decreases q.maxRounds - round
  {
    hide Step, Slice;
    if round < q.maxRounds {
      var slice := Slice(content, service.id, service.total, 0, sizes(round));
      assert source(round, Ask(state.rpcId, |state.data|)) == Ok(slice);
      PartStep(q, content, service.id, state, empty, sizes(round));
      var verdict := Step(q, state, slice);
      if verdict.Next? {
        RunFirstPart(q, source, content, service, sizes, verdict.state, round + 1, empty + 1);
      }
    }
  }

  lemma {:induction false} FirstPartAt(q: Query, content: bytes, sizes: nat -> nat, round: nat, empty: nat, k: nat)
    requires content != [] && round <= k < q.maxRounds && empty + (k - round) <= 3
    requires (forall j :: round <= j < k ==> sizes(j) == 0) && sizes(k) > 0
    ensures FirstPart(q, content, sizes, round, empty) == Ok(content[..Min(sizes(k), |content|)])
    decreases k - round
  {
    if round < k {
      FirstPartAt(q, content, sizes, round + 1, empty + 1, k);
    }
  }

  /** Without a total, however the peer cuts the content, the run ends as `FirstPart` says. */
  lemma UnannouncedDelivers(q: Query, content: bytes, service: Service, sizes: nat -> nat)
    requires Usable(q, service, content) && service.total == 0 && |content| <= q.maxBytes
    ensures Execute(q, Decoded(q, Server(content, service, sizes)), START, 0).outcome
            == FirstPart(q, content, sizes, 0, 0)
  {
    ServerServes(q, content, service, sizes);
    hide Serves;
    RunFirstPart(q, Decoded(q, Server(content, service, sizes)), content, service, sizes, START, 0, 0);
  }

  /** So after at most three empty fragments the client returns the whole content if and only
      if the next fragment holds all of it; otherwise it returns a part as if complete. */
  lemma UnannouncedWhole(q: Query, content: bytes, service: Service, sizes: nat -> nat, k: nat)
    requires Usable(q, service, content) && service.total == 0 && 0 < |content| <= q.maxBytes
    requires k <= 3 && k < q.maxRounds && (forall j :: 0 <= j < k ==> sizes(j) == 0) && sizes(k) > 0
    ensures var outcome := Execute(q, Decoded(q, Server(content, service, sizes)), START, 0).outcome;
            && outcome == Ok(content[..Min(sizes(k), |content|)])
            && (outcome == Ok(content) <==> sizes(k) >= |content|)
  {
    UnannouncedDelivers(q, content, service, sizes);
    FirstPartAt(q, content, sizes, 0, 0, k);
    assert content[..|content|] == content;
  }
}
