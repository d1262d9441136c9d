/** A quote connection: request frames out, reply frames in, over a byte stream that the
    network may cut anywhere. */
module Stream {
  import opened Options
  import opened Wire

  /** The program of `zlib`: the plain bytes of input that is exactly one complete stream. */
  type Inflate = bytes -> Option<bytes>

  const PREFIX: bytes := [0xB1, 0xCB, 0x74, 0x00]

  function NextId(id: nat): nat {
    (id + 1) % TWO_32
  }

  /** A request frame: kind, id, 1, the length of command and body twice, command, body. */
  function RequestFrame(id: nat, command: int, body: bytes, expansion: bool): Result<bytes>
    requires id < TWO_32
  {
    if !(0 <= command <= 65535) then Err(BadCommand)
    else if |body| > 65533 then Err(RequestTooLong)
    else Ok([if expansion then 1 else 12] + (Put32(id) + ([1] + (Put16(|body| + 2) + (Put16(|body| + 2)
            + (Put16(command) + body))))))
  }

  /** The sixteen bytes in front of a reply. */
  datatype Header = Header(id: nat, command: nat, wireSize: nat, plainSize: nat)

  function ParseHeader(s: bytes): Result<Header>
    requires |s| == 16
  {
    if s[..4] != PREFIX then Err(BadPrefix)
    else Ok(Header(Word32(s[5..9]), Word16(s[10], s[11]), Word16(s[12], s[13]), Word16(s[14], s[15])))
  }

  /** A payload whose two sizes differ is compressed. The decompressor is given room for
      one byte more than announced, so an overlong stream is cut short and refused. */
  function Unpack(data: bytes, plainSize: nat, inflate: Inflate): Result<bytes> {
    if |data| == plainSize then Ok(data) else
    match inflate(data)
    case None => Err(BadCompression)
    case Some(plain) =>
      if |plain| > plainSize then Err(BadCompression)
      else if |plain| < plainSize then Err(BadLength)
      else Ok(plain)
  }

  /** What a call under `id` makes of the bytes that arrive. */
  function Answer(incoming: bytes, id: nat, command: int, inflate: Inflate): Result<Parsed<bytes>> {
    if |incoming| < 16 then Err(Closed) else
    var header :- ParseHeader(incoming[..16]);
    var rest := incoming[16..];
    if !(header.id == id && header.command == command) then Err(BadEcho)
    else if |rest| < header.wireSize then Err(Closed)
    else
      var data :- Unpack(rest[..header.wireSize], header.plainSize, inflate);
      Ok(Parsed(data, rest[header.wireSize..]))
  }

  class Connection {
    const expansion: bool
    const inflate: Inflate
    var messageId: nat
    /** The socket: what the peer has still to deliver, and what was sent to it. */
    var incoming: bytes
    var sent: seq<bytes>

    constructor (expansion: bool, inflate: Inflate, incoming: bytes)
      ensures this.expansion == expansion && this.inflate == inflate
      ensures this.incoming == incoming && sent == []
      ensures messageId == if expansion then 0 else 0x0164_0801
    {
      this.expansion, this.inflate, this.incoming := expansion, inflate, incoming;
      messageId := if expansion then 0 else 0x0164_0801;
      sent := [];
    }

    /** One `recv`: some of what is there, at most `count` bytes, and nothing only at the
        end of the stream. */
    method Recv(count: nat) returns (part: bytes)
      requires count > 0
      modifies this`incoming
      ensures part + incoming == old(incoming) && |part| <= count
      ensures part == [] <==> old(incoming) == []
    {
      if incoming == [] {
        return [];
      }
      var size: nat :| 1 <= size <= count && size <= |incoming|;
      part := incoming[..size];
      incoming := incoming[size..];
    }

    method ReadExact(count: nat) returns (r: Result<bytes>)
      modifies this`incoming
      ensures count <= |old(incoming)| ==>
                r == Ok(old(incoming)[..count]) && incoming == old(incoming)[count..]
      ensures count > |old(incoming)| ==> r == Err(Closed)
    {
      var result: bytes := [];
      while |result| < count
        invariant |result| <= count && result + incoming == old(incoming)
        decreases count - |result|
      {
        var part := Recv(count - |result|);
        :- Need(part != [], Closed);
        result := result + part;
      }
      r := Ok(result);
    }

    method Call(command: int, body: bytes) returns (r: Result<bytes>)
      requires messageId < TWO_32
      modifies this
      ensures messageId == NextId(old(messageId))
      ensures var frame := RequestFrame(old(messageId), command, body, expansion);
              if frame.Err? then r == Err(frame.error) && sent == old(sent) && incoming == old(incoming)
              else
                var answer := Answer(old(incoming), old(messageId), command, inflate);
                && sent == old(sent) + [frame.value]
                && (if answer.Ok? then r == Ok(answer.value.value) && incoming == answer.value.rest
                    else r == Err(answer.error))
    {
      var id := messageId;
      messageId := NextId(id);
      var frame :- RequestFrame(id, command, body, expansion);
      sent := sent + [frame];
      var raw :- ReadExact(16);
      var header :- ParseHeader(raw);
      :- Need(header.id == id && header.command == command, BadEcho);
      var data :- ReadExact(header.wireSize);
      r := Unpack(data, header.plainSize, inflate);
    }

    /** The first exchange of a connection. */
    method Handshake() returns (r: Result<()>)
      requires messageId < TWO_32
      modifies this
      ensures messageId == NextId(old(messageId))
      ensures var hello := Hello(expansion);
              var frame, answer := RequestFrame(old(messageId), hello.command, hello.body, expansion),
                                   Answer(old(incoming), old(messageId), hello.command, inflate);
              && frame.Ok? && sent == old(sent) + [frame.value]
              && r == (if answer.Err? then Err(answer.error)
                       else if !expansion && |answer.value.value| < 189 then Err(BadLength) else Ok(()))
              && (r.Ok? ==> incoming == answer.value.rest)
    {
      if expansion {
        var _ :- Call(0x2454, SETUP);
      } else {
        var response :- Call(0x000D, [1]);
        :- Need(|response| >= 189, BadLength);
      }
      r := Ok(());
    }
  }

  const SETUP_BLOCK: bytes := [0x1F, 0x32, 0xC6, 0xE5, 0xD5, 0x3D, 0xFB, 0x41]
  const SETUP: bytes :=
    SETUP_BLOCK + SETUP_BLOCK + SETUP_BLOCK + SETUP_BLOCK + SETUP_BLOCK + SETUP_BLOCK + SETUP_BLOCK
    + SETUP_BLOCK + [0xCC, 0xE1, 0x6D, 0xFF, 0xD5, 0xBA, 0x3F, 0xB8, 0xCB, 0xC5, 0x7A, 0x05, 0x4F, 0x77, 0x48, 0xEA]

  /** The first request of a connection. */
  function Hello(expansion: bool): Request {
    if expansion then Request(0x2454, SETUP) else Request(0x000D, [1])
  }

  // ---------------------------------------------------------------- sessions

  datatype Request = Request(command: int, body: bytes)

  /** A run of calls against the bytes that arrive: the bodies, and what is left. */
  function Session(incoming: bytes, id: nat, requests: seq<Request>, expansion: bool, inflate: Inflate,
                   bodies: seq<bytes>): Result<Parsed<seq<bytes>>>
    requires id < TWO_32
    decreases |requests|
  {
    if requests == [] then Ok(Parsed(bodies, incoming)) else
    var _ :- RequestFrame(id, requests[0].command, requests[0].body, expansion);
    var answer :- Answer(incoming, id, requests[0].command, inflate);
    Session(answer.rest, NextId(id), requests[1..], expansion, inflate, bodies + [answer.value])
  }

  /** The frames that such a run sends: it stops at a request that cannot be framed, and after
      one that is not answered. */
  function Frames(incoming: bytes, id: nat, requests: seq<Request>, expansion: bool, inflate: Inflate): seq<bytes>
    requires id < TWO_32
    decreases |requests|
  {
    if requests == [] then [] else
    var frame := RequestFrame(id, requests[0].command, requests[0].body, expansion);
    var answer := Answer(incoming, id, requests[0].command, inflate);
    if frame.Err? then []
    else [frame.value] + if answer.Err? then []
                         else Frames(answer.value.rest, NextId(id), requests[1..], expansion, inflate)
  }

  /** The id after the run. A call uses up its id even when it fails. */
  function LastId(incoming: bytes, id: nat, requests: seq<Request>, expansion: bool, inflate: Inflate): (last: nat)
    requires id < TWO_32
    ensures last < TWO_32
    decreases |requests|
  {
    if requests == [] then id else
    var frame := RequestFrame(id, requests[0].command, requests[0].body, expansion);
    var answer := Answer(incoming, id, requests[0].command, inflate);
    if frame.Err? || answer.Err? then NextId(id)
    else LastId(answer.value.rest, NextId(id), requests[1..], expansion, inflate)
  }

  /** One call of a run: what it contributes to bodies, frames and id. */
  lemma RunStep(incoming: bytes, id: nat, requests: seq<Request>, expansion: bool, inflate: Inflate, bodies: seq<bytes>)
    requires id < TWO_32 && requests != []
    ensures var first, rest := requests[0], requests[1..];
            var frame := RequestFrame(id, first.command, first.body, expansion);
            var answer := Answer(incoming, id, first.command, inflate);
            var session := Session(incoming, id, requests, expansion, inflate, bodies);
            var frames := Frames(incoming, id, requests, expansion, inflate);
            var last := LastId(incoming, id, requests, expansion, inflate);
            if frame.Err? then session == Err(frame.error) && frames == [] && last == NextId(id)
            else if answer.Err? then session == Err(answer.error) && frames == [frame.value] && last == NextId(id)
            else
              && session == Session(answer.value.rest, NextId(id), rest, expansion, inflate,
                                    bodies + [answer.value.value])
              && frames == [frame.value] + Frames(answer.value.rest, NextId(id), rest, expansion, inflate)
              && last == LastId(answer.value.rest, NextId(id), rest, expansion, inflate)
  {
    hide RequestFrame, Answer;
  }

  lemma RunEnd(incoming: bytes, id: nat, expansion: bool, inflate: Inflate, bodies: seq<bytes>)
    requires id < TWO_32
    ensures Session(incoming, id, [], expansion, inflate, bodies) == Ok(Parsed(bodies, incoming))
    ensures Frames(incoming, id, [], expansion, inflate) == [] && LastId(incoming, id, [], expansion, inflate) == id
  {
  }

  method CallAll(connection: Connection, requests: seq<Request>) returns (r: Result<seq<bytes>>)
    requires connection.messageId < TWO_32
    modifies connection
    ensures var session := Session(old(connection.incoming), old(connection.messageId), requests,
                                   connection.expansion, connection.inflate, []);
            if session.Ok? then r == Ok(session.value.value) && connection.incoming == session.value.rest
            else r == Err(session.error)
    ensures connection.sent == old(connection.sent) + Frames(old(connection.incoming), old(connection.messageId),
                                                             requests, connection.expansion, connection.inflate)
    ensures connection.messageId == LastId(old(connection.incoming), old(connection.messageId), requests,
                                           connection.expansion, connection.inflate)
  {
    hide RequestFrame, Answer, Session, Frames, LastId;
    var bodies: seq<bytes> := [];
    ghost var session := Session(connection.incoming, connection.messageId, requests,
                                 connection.expansion, connection.inflate, []);
    ghost var all := connection.sent + Frames(connection.incoming, connection.messageId, requests,
                                              connection.expansion, connection.inflate);
    ghost var last := LastId(connection.incoming, connection.messageId, requests,
                             connection.expansion, connection.inflate);
    for next := 0 to |requests|
      invariant connection.messageId < TWO_32
      invariant Session(connection.incoming, connection.messageId, requests[next..],
                        connection.expansion, connection.inflate, bodies) == session
      invariant connection.sent + Frames(connection.incoming, connection.messageId, requests[next..],
                                         connection.expansion, connection.inflate) == all
      invariant LastId(connection.incoming, connection.messageId, requests[next..],
                       connection.expansion, connection.inflate) == last
    {
      assert requests[next..][1..] == requests[next + 1..];
      RunStep(connection.incoming, connection.messageId, requests[next..], connection.expansion,
              connection.inflate, bodies);
      var body :- connection.Call(requests[next].command, requests[next].body);
      bodies := bodies + [body];
    }
    RunEnd(connection.incoming, connection.messageId, connection.expansion, connection.inflate, bodies);
    r := Ok(bodies);
  }
}
