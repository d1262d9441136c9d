/** A connection and its peer stay in step however the stream is cut. */
module StreamLaws {
  import opened Options
  import opened Wire
  import opened Stream

  /** A request frame is refused exactly when its command or body does not fit; its size
      word counts what follows the first ten bytes, and every byte of it is accounted for. */
  lemma FrameMeaning(id: nat, command: int, body: bytes, expansion: bool)
    requires id < TWO_32
    ensures var frame := RequestFrame(id, command, body, expansion);
            && (frame.Ok? <==> 0 <= command <= 65535 && |body| <= 65533)
            && (frame.Ok? ==>
                  var s := frame.value;
                  && |s| == 12 + |body| && s[0] == (if expansion then 1 else 12) && s[5] == 1
                  && Word32(s[1..5]) == id
                  && Word16(s[6], s[7]) == Word16(s[8], s[9]) == |s| - 10
                  && Word16(s[10], s[11]) == command && s[12..] == body)
  {
    hide Put16, Put32, Word16, Word32;
    if 0 <= command <= 65535 && |body| <= 65533 {
      var s := RequestFrame(id, command, body, expansion).value;
      assert s[1..5] == Put32(id);
      Word32Put32(id);
      Word16Put16(|body| + 2);
      Word16Put16(command);
      assert [s[6], s[7]] == Put16(|body| + 2) && [s[8], s[9]] == Put16(|body| + 2);
      assert [s[10], s[11]] == Put16(command);
      assert s[12..] == body;
    }
  }

  /** The first frame of an ordinary connection, byte for byte, and the start of that of an
      expansion connection, which its 80 setup bytes follow. */
  lemma FirstFrame()
    ensures var hello := Hello(false);
            RequestFrame(0x0164_0801, hello.command, hello.body, false)
            == Ok([12, 0x01, 0x08, 0x64, 0x01, 1, 3, 0, 3, 0, 0x0D, 0x00, 1])
    ensures var hello := Hello(true);
            RequestFrame(0, hello.command, hello.body, true)
            == Ok([1, 0, 0, 0, 0, 1, 82, 0, 82, 0, 0x54, 0x24] + SETUP)
  {
    SetupLength();
    hide SETUP, SETUP_BLOCK;
    assert Put32(0x0164_0801) == [0x01, 0x08, 0x64, 0x01] && Put32(0) == [0, 0, 0, 0];
    assert Put16(3) == [3, 0] && Put16(0x000D) == [0x0D, 0x00];
    assert Put16(82) == [82, 0] && Put16(0x2454) == [0x54, 0x24];
    hide Put16, Put32;
    assert RequestFrame(0x0164_0801, 0x000D, [1], false).value
           == [12, 0x01, 0x08, 0x64, 0x01, 1, 3, 0, 3, 0, 0x0D, 0x00, 1];
    assert RequestFrame(0, 0x2454, SETUP, true).value == [1, 0, 0, 0, 0, 1, 82, 0, 82, 0, 0x54, 0x24] + SETUP;
  }

  lemma SetupLength()
    ensures |SETUP| == 80
  {
  }

  lemma Word16Put16(v: nat)
    requires v < 0x1_0000
    ensures Word16(Put16(v)[0], Put16(v)[1]) == v
  {
  }

  /** A reply as the peer sends it: `first` and `second` are bytes the client ignores. */
  datatype Reply = Reply(command: nat, body: bytes, wire: bytes, first: byte, second: byte)

  ghost predicate Fits(reply: Reply) {
    reply.command < 0x1_0000 && |reply.body| < 0x1_0000 && |reply.wire| < 0x1_0000
  }

  function PutHeader(reply: Reply, id: nat): (s: bytes)
    requires Fits(reply) && id < TWO_32
    ensures |s| == 16
  {
    [0xB1, 0xCB, 0x74, 0x00] + ([reply.first] + (Put32(id) + ([reply.second] + (Put16(reply.command)
    + (Put16(|reply.wire|) + Put16(|reply.body|))))))
  }

  function PutReply(reply: Reply, id: nat): bytes
    requires Fits(reply) && id < TWO_32
  {
    PutHeader(reply, id) + reply.wire
  }

  lemma HeaderRoundTrip(reply: Reply, id: nat)
    requires Fits(reply) && id < TWO_32
    ensures ParseHeader(PutHeader(reply, id)) == Ok(Header(id, reply.command, |reply.wire|, |reply.body|))
  {
    var s := PutHeader(reply, id);
    assert s[..4] == PREFIX && s[5..9] == Put32(id);
    Word32Put32(id);
    Word16Put16(reply.command);
    Word16Put16(|reply.wire|);
    Word16Put16(|reply.body|);
    assert [s[10], s[11]] == Put16(reply.command);
    assert [s[12], s[13]] == Put16(|reply.wire|) && [s[14], s[15]] == Put16(|reply.body|);
  }

  /** The bytes on the wire are the body itself, or decompress to it. */
  ghost predicate Carries(reply: Reply, inflate: Inflate) {
    reply.wire == reply.body || inflate(reply.wire) == Some(reply.body)
  }

  /** The client takes a reply for its body if and only if compression is visible in the
      sizes: a compressed payload that happens to be as long as the body is taken as it
      is. Either way it consumes exactly the frame. */
  lemma AnswerReply(reply: Reply, id: nat, inflate: Inflate, rest: bytes)
    requires Fits(reply) && id < TWO_32 && Carries(reply, inflate)
    ensures Answer(PutReply(reply, id) + rest, id, reply.command, inflate)
            == Ok(Parsed(if |reply.wire| == |reply.body| then reply.wire else reply.body, rest))
    ensures |PutReply(reply, id)| == 16 + |reply.wire|
  {
    HeaderRoundTrip(reply, id);
    var s := PutReply(reply, id) + rest;
    hide ParseHeader, PutHeader;
    assert s[..16] == PutHeader(reply, id) && s[16..] == reply.wire + rest;
    assert (reply.wire + rest)[..|reply.wire|] == reply.wire;
    assert (reply.wire + rest)[|reply.wire|..] == rest;
  }

  /** Eleven bytes 0x61, and a zlib stream of them that is itself eleven bytes long. */
  const ELEVEN: bytes := [0x61, 0x61, 0x61, 0x61, 0x61, 0x61, 0x61, 0x61, 0x61, 0x61, 0x61]
  const DEFLATED: bytes := [0x78, 0x9C, 0x4B, 0x4C, 0x84, 0x03, 0x00, 0x19, 0x0D, 0x04, 0x2C]

  /** Sent compressed, this body is answered with the compressed bytes. */
  lemma CompressionMissed(command: nat, id: nat, inflate: Inflate, rest: bytes)
    requires command < 0x1_0000 && id < TWO_32 && inflate(DEFLATED) == Some(ELEVEN)
    ensures var reply := Reply(command, ELEVEN, DEFLATED, 0, 0);
            && Answer(PutReply(reply, id) + rest, id, command, inflate) == Ok(Parsed(DEFLATED, rest))
            && DEFLATED != ELEVEN
  {
    AnswerReply(Reply(command, ELEVEN, DEFLATED, 0, 0), id, inflate, rest);
    assert DEFLATED[0] != ELEVEN[0];
  }

  /** A reply under another id or to another command is refused for its header, whatever
      follows. */
  lemma AnswerMismatch(reply: Reply, replyId: nat, id: nat, command: int, inflate: Inflate, rest: bytes)
    requires Fits(reply) && replyId < TWO_32 && (replyId != id || reply.command != command)
    ensures Answer(PutHeader(reply, replyId) + rest, id, command, inflate) == Err(BadEcho)
  {
    HeaderRoundTrip(reply, replyId);
    var s := PutHeader(reply, replyId) + rest;
    hide ParseHeader, PutHeader;
    assert s[..16] == PutHeader(reply, replyId);
  }

  // ---------------------------------------------------------------- sessions

  /** The replies to a run of calls, under consecutive ids from `id` on. */
  function PutReplies(replies: seq<Reply>, id: nat): bytes
    requires id < TWO_32 && forall k :: 0 <= k < |replies| ==> Fits(replies[k])
  {
    if replies == [] then [] else PutReply(replies[0], id) + PutReplies(replies[1..], NextId(id))
  }

  function BodiesOf(replies: seq<Reply>): seq<bytes> {
    if replies == [] then [] else [replies[0].body] + BodiesOf(replies[1..])
  }

  /** What the client can understand: compressed only if the sizes differ. */
  ghost predicate Visible(reply: Reply, inflate: Inflate) {
    Fits(reply) && Carries(reply, inflate) && (|reply.wire| == |reply.body| ==> reply.wire == reply.body)
  }

  ghost predicate Answers(requests: seq<Request>, replies: seq<Reply>, inflate: Inflate) {
    |requests| == |replies| &&
    forall k :: 0 <= k < |requests| ==>
      Visible(replies[k], inflate) && replies[k].command == requests[k].command && |requests[k].body| <= 65533
  }

  /** For any run of calls and any stream that concatenates the matching replies, the
      client returns the bodies in order and leaves exactly what follows them, whatever
      id it starts from. (`ReadExact` promises the same for every cutting.) */
  lemma {:induction false} SessionAnswers(requests: seq<Request>, replies: seq<Reply>, id: nat,
                                          expansion: bool, inflate: Inflate, rest: bytes, bodies: seq<bytes>)
    requires id < TWO_32 && Answers(requests, replies, inflate)
    ensures Session(PutReplies(replies, id) + rest, id, requests, expansion, inflate, bodies)
            == Ok(Parsed(bodies + BodiesOf(replies), rest))
    decreases |requests|
  {
    hide Answer, PutReply, RequestFrame;
    if requests == [] {
      assert PutReplies(replies, id) + rest == rest;
      assert bodies + BodiesOf(replies) == bodies;
    } else {
      var reply, more := replies[0], PutReplies(replies[1..], NextId(id)) + rest;
      assert PutReplies(replies, id) + rest == PutReply(reply, id) + more;
      AnswerReply(reply, id, inflate, more);
      FrameMeaning(id, requests[0].command, requests[0].body, expansion);
      SessionAnswers(requests[1..], replies[1..], NextId(id), expansion, inflate, rest, bodies + [reply.body]);
      assert bodies + [reply.body] + BodiesOf(replies[1..]) == bodies + BodiesOf(replies);
    }
  }

  // ---------------------------------------------------------------- any stream

  lemma HeaderBytes(s: bytes) returns (first: byte, second: byte)
    requires |s| == 16 && ParseHeader(s).Ok?
    ensures var h := ParseHeader(s).value;
            && h.id < TWO_32 && h.command < 0x1_0000 && h.wireSize < 0x1_0000 && h.plainSize < 0x1_0000
            && s == [0xB1, 0xCB, 0x74, 0x00] + ([first] + (Put32(h.id) + ([second] + (Put16(h.command)
                    + (Put16(h.wireSize) + Put16(h.plainSize))))))
  {
    hide Put16, Put32, Word16, Word32;
    first, second := s[4], s[9];
    WordBytes(s[5..9]);
    HalfBytes(s[10], s[11]);
    HalfBytes(s[12], s[13]);
    HalfBytes(s[14], s[15]);
    assert s == s[..4] + ([s[4]] + (s[5..9] + ([s[9]] + ([s[10], s[11]] + ([s[12], s[13]] + [s[14], s[15]])))));
  }

  lemma Rejoin(s: bytes, first: nat, second: nat)
    requires first + second <= |s|
    ensures s == s[..first] + s[first..][..second] + s[first..][second..]
  {
  }

  lemma AnswerParts(incoming: bytes, id: nat, command: int, inflate: Inflate)
    ensures var answer := Answer(incoming, id, command, inflate);
            answer.Ok? ==>
              && |incoming| >= 16 && ParseHeader(incoming[..16]).Ok?
              && var h, rest := ParseHeader(incoming[..16]).value, incoming[16..];
                 && h.id == id && h.command == command && h.wireSize <= |rest|
                 && Unpack(rest[..h.wireSize], h.plainSize, inflate) == Ok(answer.value.value)
                 && answer.value.rest == rest[h.wireSize..]
  {
    hide ParseHeader, Unpack;
  }

  /** Whatever the bytes, an answer that is accepted is that to a well-formed reply under the
      id of the call, whose payload is the body or decompresses to it, and what is left is
      what follows that reply. */
  lemma AnswerInverse(incoming: bytes, id: nat, command: int, inflate: Inflate) returns (reply: Reply)
    requires id < TWO_32
    ensures var answer := Answer(incoming, id, command, inflate);
            answer.Ok? ==>
              && Visible(reply, inflate) && reply.command == command && reply.body == answer.value.value
              && incoming == PutReply(reply, id) + answer.value.rest
  {
    hide Answer, ParseHeader, Put16, Put32;
    AnswerParts(incoming, id, command, inflate);
    var answer := Answer(incoming, id, command, inflate);
    reply := Reply(0, [], [], 0, 0);
    if answer.Ok? {
      var h, rest := ParseHeader(incoming[..16]).value, incoming[16..];
      var first, second := HeaderBytes(incoming[..16]);
      var wire := rest[..h.wireSize];
      reply := Reply(h.command, answer.value.value, wire, first, second);
      assert |reply.body| == h.plainSize;
      assert PutHeader(reply, id) == incoming[..16];
      hide PutHeader;
      Rejoin(incoming, 16, h.wireSize);
    }
  }

  ghost predicate AllVisible(replies: seq<Reply>, inflate: Inflate) {
    forall k :: 0 <= k < |replies| ==> Visible(replies[k], inflate)
  }

  /** Whatever the stream: if a run of calls succeeds, then the stream began with exactly one
      well-formed reply to each, in order and under consecutive ids; the bodies returned are
      theirs, and what is left is what follows them. */
  lemma {:induction false} SessionInverse(incoming: bytes, requests: seq<Request>, id: nat, expansion: bool,
                                          inflate: Inflate, bodies: seq<bytes>) returns (replies: seq<Reply>)
    requires id < TWO_32
    ensures var session := Session(incoming, id, requests, expansion, inflate, bodies);
            session.Ok? ==>
              && AllVisible(replies, inflate) && Answers(requests, replies, inflate)
              && incoming == PutReplies(replies, id) + session.value.rest
              && session.value.value == bodies + BodiesOf(replies)
    decreases |requests|
  {
    hide Answer, PutReply, RequestFrame, Visible, Session, PutReplies, BodiesOf, Answers, AllVisible, Frames, LastId;
    replies := [];
    NoReplies(incoming, id, inflate, bodies);
    if requests == [] {
      RunEnd(incoming, id, expansion, inflate, bodies);
    } else {
      RunStep(incoming, id, requests, expansion, inflate, bodies);
      var first, rest := requests[0], requests[1..];
      var answer := Answer(incoming, id, first.command, inflate);
      if Session(incoming, id, requests, expansion, inflate, bodies).Ok? {
        var body := answer.value.value;
        FrameMeaning(id, first.command, first.body, expansion);
        var reply := AnswerInverse(incoming, id, first.command, inflate);
        var others := SessionInverse(answer.value.rest, rest, NextId(id), expansion, inflate, bodies + [body]);
        replies := [reply] + others;
        ConsReplies(requests, reply, others, inflate);
        ConsBytes(reply, others, id, inflate,
                  Session(incoming, id, requests, expansion, inflate, bodies).value.rest, bodies);
      }
    }
  }

  lemma NoReplies(incoming: bytes, id: nat, inflate: Inflate, bodies: seq<bytes>)
    requires id < TWO_32
    ensures AllVisible([], inflate) && Answers([], [], inflate)
    ensures PutReplies([], id) + incoming == incoming && bodies + BodiesOf([]) == bodies
  {
  }

  lemma ConsBytes(reply: Reply, others: seq<Reply>, id: nat, inflate: Inflate, rest: bytes, bodies: seq<bytes>)
    requires id < TWO_32 && AllVisible([reply] + others, inflate) && Fits(reply) && AllVisible(others, inflate)
    ensures PutReplies([reply] + others, id) + rest == PutReply(reply, id) + (PutReplies(others, NextId(id)) + rest)
    ensures bodies + [reply.body] + BodiesOf(others) == bodies + BodiesOf([reply] + others)
  {
    hide PutReply, Carries;
    assert ([reply] + others)[1..] == others;
  }

  lemma ConsReplies(requests: seq<Request>, reply: Reply, others: seq<Reply>, inflate: Inflate)
    requires requests != [] && Visible(reply, inflate) && AllVisible(others, inflate)
    requires reply.command == requests[0].command && |requests[0].body| <= 65533
    requires Answers(requests[1..], others, inflate)
    ensures AllVisible([reply] + others, inflate) && Answers(requests, [reply] + others, inflate)
    ensures Fits(reply)
  {
    hide Carries;
    var replies := [reply] + others;
    forall k | 0 <= k < |replies|
      ensures Visible(replies[k], inflate) && replies[k].command == requests[k].command && |requests[k].body| <= 65533
    {
      assert k > 0 ==> replies[k] == others[k - 1] && requests[k] == requests[1..][k - 1];
    }
  }

  /** The frames of a run of requests, under consecutive ids. */
  function FramesOf(requests: seq<Request>, id: nat, expansion: bool): seq<Result<bytes>>
    requires id < TWO_32
  {
    if requests == [] then []
    else [RequestFrame(id, requests[0].command, requests[0].body, expansion)]
         + FramesOf(requests[1..], NextId(id), expansion)
  }

  function Oks(frames: seq<bytes>): seq<Result<bytes>> {
    if frames == [] then [] else [Ok(frames[0])] + Oks(frames[1..])
  }

  /** A run that succeeds has sent one frame for each request, in order and under consecutive
      ids, and has used up as many ids as requests, modulo 2^32. */
  lemma {:induction false} SessionFrames(incoming: bytes, requests: seq<Request>, id: nat, expansion: bool,
                                         inflate: Inflate, bodies: seq<bytes>)
    requires id < TWO_32
    ensures Session(incoming, id, requests, expansion, inflate, bodies).Ok? ==>
              && Oks(Frames(incoming, id, requests, expansion, inflate)) == FramesOf(requests, id, expansion)
              && LastId(incoming, id, requests, expansion, inflate) == (id + |requests|) % TWO_32
    decreases |requests|
  {
    hide Session, Frames, LastId, RequestFrame, Answer;
    if requests == [] {
      RunEnd(incoming, id, expansion, inflate, bodies);
      assert Oks([]) == [];
    } else {
      RunStep(incoming, id, requests, expansion, inflate, bodies);
      var answer := Answer(incoming, id, requests[0].command, inflate);
      if Session(incoming, id, requests, expansion, inflate, bodies).Ok? {
        var next, body := answer.value.rest, answer.value.value;
        SessionFrames(next, requests[1..], NextId(id), expansion, inflate, bodies + [body]);
        var frames := Frames(next, NextId(id), requests[1..], expansion, inflate);
        var frame := RequestFrame(id, requests[0].command, requests[0].body, expansion).value;
        assert ([frame] + frames)[1..] == frames;
      }
    }
  }
}
