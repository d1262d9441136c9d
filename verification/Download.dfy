/** Block-wise file download (`tcp_file`). */
module Download {
  import opened Options
  import opened Wire
  import opened Cursor

  const BLOCK := 30000

  /** `digest` is the program's checksum, as 32 lower-case hexadecimal digits. */
  datatype Limits = Limits(maxBytes: nat, digest: bytes -> bytes)

  /** One block request: where it starts and how much it wants. */
  datatype Ask = Ask(offset: nat, count: nat)

  /** The remote end answers the n-th block request as it likes. */
  type Peer = (nat, Ask) -> Result<bytes>

  /** What the file information announces. */
  datatype Info = Info(total: Option<nat>, digest: Option<bytes>)

  function Lower(b: byte): byte {
    if 0x41 <= b <= 0x5A then b + 32 else b
  }

  function LowerAll(s: bytes): bytes {
    seq(|s|, i requires 0 <= i < |s| => Lower(s[i]))
  }

  predicate IsHex(s: bytes) {
    forall i :: 0 <= i < |s| ==> 0x30 <= s[i] <= 0x39 || 0x61 <= s[i] <= 0x66
  }

  /** The reply to the information command: total, a flag, and 32 digits if it is set. */
  function ParseInfo(s: bytes, maxBytes: nat): Result<Info> {
    if |s| < 5 then Err(Truncated) else
    var total := Word32(s[..4]);
    if total > maxBytes then Err(TooLarge)
    else if s[4] == 0 then Ok(Info(Some(total), None))
    else
      var digest :- Take(s[5..], 32);
      if !IsHex(LowerAll(digest.value)) then Err(BadDigest)
      else Ok(Info(Some(total), Some(LowerAll(digest.value))))
  }

  /** The reply to a block request: a size, that many bytes, and nothing more. */
  function ParseBlock(s: bytes, count: nat): Result<bytes> {
    var size :- U32(s);
    :- Need(size.value <= count, BlockTooLarge);
    var block :- Take(size.rest, size.value);
    :- Need(block.rest == [], Residue);
    Ok(block.value)
  }

  function NextAsk(total: Option<nat>, at: nat): Ask {
    Ask(at, if total.Some? && 0 <= total.value - at < BLOCK then total.value - at else BLOCK)
  }

  /** A component of the path, between slashes or ends, is two dots. */
  predicate HasParent(path: string) {
    exists i :: 0 <= i <= |path| - 2 && path[i] == '.' && path[i + 1] == '.'
                && (i == 0 || path[i - 1] == '/') && (i + 2 == |path| || path[i + 2] == '/')
  }

  /** A relative path that cannot climb and has no NUL. */
  predicate Remote(path: string) {
    && (path == [] || (path[0] != '/' && path[0] != '\\'))
    && !HasParent(path) && '\0' !in path
  }

  function Encoded(path: string): Result<bytes> {
    if !Remote(path) then Err(BadPath)
    else if exists i :: 0 <= i < |path| && path[i] as int >= 128 then Err(BadPath)
    else Ok(seq(|path|, i requires 0 <= i < |path| => path[i] as int))
  }

  const PATH_FIELD := 300

  /** The body of a block request: offset, count, and the path filled up with zeros. */
  function BlockBody(path: string, ask: Ask): Result<bytes> {
    var encoded :- Encoded(path);
    :- Need(|encoded| < PATH_FIELD, PathTooLong);
    :- Need(ask.offset < TWO_32 && ask.count < TWO_32, FieldRange);
    Ok(Put32(ask.offset) + (Put32(ask.count) + (encoded + seq(PATH_FIELD - |encoded|, _ => 0))))
  }

  const NAME_FIELD := 40

  /** The body of an information request: the path filled up with zeros. */
  function InfoBody(path: string): Result<bytes> {
    var encoded :- Encoded(path);
    :- Need(|encoded| < NAME_FIELD, PathTooLong);
    Ok(encoded + seq(NAME_FIELD - |encoded|, _ => 0))
  }

  /** A whole transfer: the block requests made, and the bytes collected. */
  datatype Transfer = Transfer(asks: seq<Ask>, data: Result<bytes>)

  function Fetch(peer: Peer, total: Option<nat>, maxBytes: nat, round: nat, data: bytes): Transfer
    requires |data| <= maxBytes
    decreases maxBytes - |data|
  {
    if total.Some? && |data| >= total.value then Transfer([], Ok(data)) else
    var ask := NextAsk(total, |data|);
    var raw := peer(round, ask);
    if raw.Err? then Transfer([ask], Err(raw.error)) else
    var block := ParseBlock(raw.value, ask.count);
    if block.Err? then Transfer([ask], Err(block.error))
    else if |data| + |block.value| > maxBytes then Transfer([ask], Err(TooLarge))
    else if block.value == [] || (total == None && |block.value| < ask.count) then
      Transfer([ask], Ok(data + block.value))
    else
      var rest := Fetch(peer, total, maxBytes, round + 1, data + block.value);
      Transfer([ask] + rest.asks, rest.data)
  }

  /** The checks after the last block. */
  function Finish(info: Info, data: bytes, digest: bytes -> bytes): Result<bytes> {
    if info.total.Some? && |data| != info.total.value then Err(FileTooShort)
    else if info.digest.Some? && digest(data) != info.digest.value then Err(BadDigest)
    else Ok(data)
  }

  function Downloaded(info: Info, peer: Peer, limits: Limits): Result<bytes> {
    var data :- Fetch(peer, info.total, limits.maxBytes, 0, []).data;
    Finish(info, data, limits.digest)
  }

  // ---------------------------------------------------------------- over a connection

  const FILE_INFO := 0x02C5
  const FILE_BLOCK := 0x06B9

  datatype Command = Command(command: int, body: bytes)

  /** The connection answers the n-th call as it likes. */
  type Caller = (nat, Command) -> Result<bytes>

  /** The remote end as the block loop sees it, after `before` other calls. */
  function Blocks(path: string, call: Caller, before: nat): Peer {
    (round: nat, ask: Ask) =>
      var body := BlockBody(path, ask);
      if body.Err? then Err(body.error) else call(before + round, Command(FILE_BLOCK, body.value))
  }

  /** What is known of the file before its first block. */
  function Announced(path: string, withInfo: bool, call: Caller, maxBytes: nat): Result<Info> {
    if !withInfo then Ok(Info(None, None)) else
    var body :- InfoBody(path);
    var raw :- call(0, Command(FILE_INFO, body));
    ParseInfo(raw, maxBytes)
  }

  function Calls(withInfo: bool): nat {
    if withInfo then 1 else 0
  }

  function FileOf(path: string, withInfo: bool, call: Caller, limits: Limits): Result<bytes> {
    var info :- Announced(path, withInfo, call, limits.maxBytes);
    Downloaded(info, Blocks(path, call, Calls(withInfo)), limits)
  }

  /** The commands for some asks; one that cannot be packed is not sent. */
  function CommandsOf(path: string, asks: seq<Ask>): seq<Command> {
    if asks == [] then [] else
    var body := BlockBody(path, asks[0]);
    (if body.Err? then [] else [Command(FILE_BLOCK, body.value)]) + CommandsOf(path, asks[1..])
  }

  function InfoSent(path: string, withInfo: bool): seq<Command> {
    var body := InfoBody(path);
    if withInfo && body.Ok? then [Command(FILE_INFO, body.value)] else []
  }

  /** Everything that is sent for a file. */
  function Sent(path: string, withInfo: bool, call: Caller, limits: Limits): seq<Command> {
    var info := Announced(path, withInfo, call, limits.maxBytes);
    InfoSent(path, withInfo)
    + if info.Err? then []
      else CommandsOf(path, Fetch(Blocks(path, call, Calls(withInfo)), info.value.total, limits.maxBytes, 0, []).asks)
  }

  // ---------------------------------------------------------------- the download as it runs

  method ReadInfo(raw: bytes, maxBytes: nat) returns (r: Result<Info>)
    ensures r == ParseInfo(raw, maxBytes)
  {
    hide Word32, IsHex, LowerAll;
    var reader := new Reader(raw, 0);
    assert reader.Unread() == raw;
    var head :- reader.Take(5);
    assert head[..4] == raw[..4];
    var total, flag := Word32(head[..4]), head[4];
    :- Need(total <= maxBytes, TooLarge);
    if flag == 0 {
      return Ok(Info(Some(total), None));
    }
    var digits :- reader.Take(32);
    var digest := LowerAll(digits);
    :- Need(IsHex(digest), BadDigest);
    r := Ok(Info(Some(total), Some(digest)));
  }

  method ReadBlock(raw: bytes, count: nat) returns (r: Result<bytes>)
    ensures r == ParseBlock(raw, count)
  {
    var reader := new Reader(raw, 0);
    var size :- reader.U32();
    :- Need(size <= count, BlockTooLarge);
    var block :- reader.Take(size);
    :- reader.End();
    r := Ok(block);
  }

  /** One block of `Fetch`. */
  lemma FetchStep(peer: Peer, total: Option<nat>, maxBytes: nat, round: nat, data: bytes)
    requires |data| <= maxBytes && (total == None || |data| < total.value)
    ensures var t, ask := Fetch(peer, total, maxBytes, round, data), NextAsk(total, |data|);
            var raw := peer(round, ask);
            if raw.Err? then t == Transfer([ask], Err(raw.error))
            else
              var block := ParseBlock(raw.value, ask.count);
              if block.Err? then t == Transfer([ask], Err(block.error))
              else if |data| + |block.value| > maxBytes then t == Transfer([ask], Err(TooLarge))
              else if block.value == [] || (total == None && |block.value| < ask.count)
              then t == Transfer([ask], Ok(data + block.value))
              else
                var rest := Fetch(peer, total, maxBytes, round + 1, data + block.value);
                t == Transfer([ask] + rest.asks, rest.data)
  {
  }

  lemma CommandsFirst(path: string, ask: Ask, rest: seq<Ask>)
    ensures var body := BlockBody(path, ask);
            CommandsOf(path, [ask] + rest)
            == (if body.Err? then [] else [Command(FILE_BLOCK, body.value)]) + CommandsOf(path, rest)
  {
    hide BlockBody;
    assert ([ask] + rest)[1..] == rest;
  }

  method ReadAnnounced(path: string, withInfo: bool, call: Caller, maxBytes: nat)
    returns (r: Result<Info>, sent: seq<Command>)
    ensures r == Announced(path, withInfo, call, maxBytes) && sent == InfoSent(path, withInfo)
  {
    hide InfoBody, ParseInfo;
    sent := [];
    if !withInfo {
      r := Ok(Info(None, None));
      return;
    }
    var body :- InfoBody(path);
    sent := [Command(FILE_INFO, body)];
    var raw :- call(0, Command(FILE_INFO, body));
    r := ReadInfo(raw, maxBytes);
  }

  /** The block loop: the commands sent, in order, and the bytes collected. */
  method FetchBlocks(path: string, call: Caller, before: nat, total: Option<nat>, maxBytes: nat)
    returns (r: Result<bytes>, sent: seq<Command>)
    ensures var t := Fetch(Blocks(path, call, before), total, maxBytes, 0, []);
            r == t.data && sent == CommandsOf(path, t.asks)
  {
    hide Fetch, ParseBlock, BlockBody, CommandsOf;
    var data: bytes, round := [], 0;
    sent := [];
    ghost var peer := Blocks(path, call, before);
    ghost var spec := Fetch(peer, total, maxBytes, 0, []);
    while total == None || |data| < total.value
      invariant |data| <= maxBytes
      invariant var rest := Fetch(peer, total, maxBytes, round, data);
                rest.data == spec.data && sent + CommandsOf(path, rest.asks) == CommandsOf(path, spec.asks)
      decreases maxBytes - |data|
    {
      FetchStep(peer, total, maxBytes, round, data);
      var count := if total.Some? && total.value - |data| < BLOCK then total.value - |data| else BLOCK;
      ghost var ask := Ask(|data|, count);
      CommandsFirst(path, ask, []);
      NoCommands(path);
      assert [ask] + [] == [ask];
      var body :- BlockBody(path, Ask(|data|, count));
      sent := sent + [Command(FILE_BLOCK, body)];
      var raw :- call(before + round, Command(FILE_BLOCK, body));
      var block :- ReadBlock(raw, count);
      :- Need(|data| + |block| <= maxBytes, TooLarge);
      data := data + block;
      if block == [] || (total == None && |block| < count) {
        return Ok(data), sent;
      }
      round := round + 1;
      CommandsFirst(path, ask, Fetch(peer, total, maxBytes, round, data).asks);
    }
    FetchDone(peer, total, maxBytes, round, data);
    NoCommands(path);
    r := Ok(data);
  }

  lemma NoCommands(path: string)
    ensures CommandsOf(path, []) == []
  {
  }

  /** The whole download over a connection: what is sent, in order, and what comes back, for
      every behaviour of the other end. */
  method TcpFile(path: string, withInfo: bool, call: Caller, limits: Limits)
    returns (r: Result<bytes>, sent: seq<Command>)
    ensures r == FileOf(path, withInfo, call, limits) && sent == Sent(path, withInfo, call, limits)
  {
    hide Fetch, CommandsOf, Announced, InfoSent, Blocks;
    var announced, first := ReadAnnounced(path, withInfo, call, limits.maxBytes);
    sent := first;
    var info :- announced;
    var data, others := FetchBlocks(path, call, Calls(withInfo), info.total, limits.maxBytes);
    sent := sent + others;
    var file :- data;
    r := Finish(info, file, limits.digest);
  }

  lemma FetchDone(peer: Peer, total: Option<nat>, maxBytes: nat, round: nat, data: bytes)
    requires total.Some? && total.value <= |data| <= maxBytes
    ensures Fetch(peer, total, maxBytes, round, data) == Transfer([], Ok(data))
  {
  }
}
