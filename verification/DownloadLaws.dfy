/** What a block-wise download delivers, and what it never does. */
module DownloadLaws {
  import opened Arithmetic
  import opened Options
  import opened Wire
  import opened Download

  // ---------------------------------------------------------------- any peer

  /** The asks of a transfer that starts at `from`: each starts where the bytes received
      before it end, is within the limits, and is within the announced total. */
  ghost predicate InBounds(asks: seq<Ask>, total: Option<nat>, maxBytes: nat, from: nat) {
    && (forall k :: 0 <= k < |asks| ==>
          && from <= asks[k].offset <= maxBytes && asks[k].count <= BLOCK
          && (total.Some? ==> 0 < asks[k].count && asks[k].offset + asks[k].count <= total.value))
    && (forall j, k :: 0 <= j < k < |asks| ==> asks[j].offset < asks[k].offset)
  }

  lemma InBoundsCons(ask: Ask, rest: seq<Ask>, total: Option<nat>, maxBytes: nat, from: nat, next: nat)
    requires InBounds(rest, total, maxBytes, next) && from == ask.offset < next
    requires InBounds([ask], total, maxBytes, from)
    ensures InBounds([ask] + rest, total, maxBytes, from)
  {
  }

  /** Any transfer: a result respects the limit, and no request reaches outside it or
      outside the announced total; with a total, there are at most as many requests as
      bytes to fetch, and without one at most one more than whole blocks fit the limit. */
  lemma {:induction false} FetchBounded(peer: Peer, total: Option<nat>, maxBytes: nat, round: nat, data: bytes)
    requires |data| <= maxBytes && (total.Some? ==> |data| <= total.value)
    ensures var t := Fetch(peer, total, maxBytes, round, data);
            && InBounds(t.asks, total, maxBytes, |data|)
            && (total.Some? ==> |t.asks| <= total.value - |data|)
            && (total == None ==> |t.asks| <= (maxBytes - |data|) / BLOCK + 1)
            && (t.data.Ok? ==> |data| <= |t.data.value| <= maxBytes && data <= t.data.value)
    decreases maxBytes - |data|
  {
    hide ParseBlock;
    if total == None || |data| < total.value {
      var ask := NextAsk(total, |data|);
      assert InBounds([ask], total, maxBytes, |data|);
      var raw := peer(round, ask);
      if raw.Ok? && ParseBlock(raw.value, ask.count).Ok? {
        var block := ParseBlock(raw.value, ask.count).value;
        BlockSize(raw.value, ask.count);
        if |data| + |block| <= maxBytes && block != [] && !(total == None && |block| < ask.count) {
          FetchBounded(peer, total, maxBytes, round + 1, data + block);
          var rest := Fetch(peer, total, maxBytes, round + 1, data + block);
          InBoundsCons(ask, rest.asks, total, maxBytes, |data|, |data + block|);
        }
      }
    }
  }

  lemma BlockSize(raw: bytes, count: nat)
    ensures var block := ParseBlock(raw, count); block.Ok? ==> |block.value| <= count
  {
  }

  /** An accepted file has the announced length and checksum, if announced, and is never
      larger than the limit; with a limit below 2^31 every offset fits its field. */
  lemma DownloadSafety(info: Info, peer: Peer, limits: Limits)
    requires limits.maxBytes < TWO_31
    ensures var r := Downloaded(info, peer, limits);
            var asks := Fetch(peer, info.total, limits.maxBytes, 0, []).asks;
            && (r.Ok? ==>
                  && |r.value| <= limits.maxBytes
                  && (info.total.Some? ==> |r.value| == info.total.value)
                  && (info.digest.Some? ==> limits.digest(r.value) == info.digest.value))
            && InBounds(asks, info.total, limits.maxBytes, 0)
            && (forall k :: 0 <= k < |asks| ==> asks[k].offset < TWO_32)
            && |asks| <= (if info.total.Some? then info.total.value else limits.maxBytes / BLOCK + 1)
  {
    FetchBounded(peer, info.total, limits.maxBytes, 0, []);
  }

  /** The text between the slashes of a path. */
  function Components(path: string): (parts: seq<string>)
    ensures parts != []
  {
    if path == [] then [""] else
    var rest := Components(path[1..]);
    if path[0] == '/' then [""] + rest else [[path[0]] + rest[0]] + rest[1..]
  }

  /** Two dots stand at the start of a path as a component of their own. */
  predicate StartsWithParent(path: string) {
    |path| >= 2 && path[0] == '.' && path[1] == '.' && (|path| == 2 || path[2] == '/')
  }

  lemma SplitTwo(a: char, b: char, rest: string)
    ensures [a, b] + rest == ".." <==> a == '.' && b == '.' && rest == []
  {
    var s := [a, b] + rest;
    assert s[0] == a && s[1] == b && |s| == 2 + |rest|;
    if rest == [] {
      assert s == [a, b];
    }
  }

  lemma FirstComponent(path: string)
    ensures Components(path)[0] == ".." <==> StartsWithParent(path)
  {
    if |path| >= 1 && path[0] != '/' {
      var one := path[1..];
      assert Components(path)[0] == [path[0]] + Components(one)[0];
      if |path| >= 2 && path[1] != '/' {
        var two := path[2..];
        assert one[1..] == two;
        assert Components(one)[0] == [path[1]] + Components(two)[0];
        assert Components(two)[0] == [] <==> two == [] || two[0] == '/';
        assert Components(path)[0] == [path[0], path[1]] + Components(two)[0];
        assert Components(path)[0] == ".." <==> [path[0], path[1]] == ".." && Components(two)[0] == [] by {
          SplitTwo(path[0], path[1], Components(two)[0]);
        }
      } else {
        assert |Components(path)[0]| == 1;
      }
    }
  }

  /** `path` has such a component at its start or behind a slash, if `behind` says that a
      slash precedes it or that it starts the whole. */
  ghost predicate ParentFrom(path: string, behind: bool) {
    exists i :: 0 <= i <= |path| - 2 && ParentAt(path, behind, i)
  }

  ghost predicate ParentAt(path: string, behind: bool, i: int)
    requires 0 <= i <= |path| - 2
  {
    && path[i] == '.' && path[i + 1] == '.' && (i + 2 == |path| || path[i + 2] == '/')
    && (if i == 0 then behind else path[i - 1] == '/')
  }

  lemma ParentStep(path: string, behind: bool)
    requires path != []
    ensures ParentFrom(path, behind) <==> (behind && StartsWithParent(path)) || ParentFrom(path[1..], path[0] == '/')
  {
    var rest, slash := path[1..], path[0] == '/';
    if i :| 0 <= i <= |path| - 2 && ParentAt(path, behind, i) {
      if i > 0 {
        assert ParentAt(rest, slash, i - 1);
      }
    }
    if behind && StartsWithParent(path) {
      assert ParentAt(path, behind, 0);
    }
    if i :| 0 <= i <= |rest| - 2 && ParentAt(rest, slash, i) {
      assert ParentAt(path, behind, i + 1);
    }
  }

  lemma {:induction false} ParentComponents(path: string, behind: bool)
    ensures ParentFrom(path, behind)
            <==> (behind && Components(path)[0] == "..") || ".." in Components(path)[1..]
    decreases |path|
  {
    hide ParentAt;
    FirstComponent(path);
    if path != [] {
      ParentStep(path, behind);
      var rest := path[1..];
      ParentComponents(rest, path[0] == '/');
      hide ParentFrom;
      var parts := Components(rest);
      if path[0] == '/' {
        assert Components(path)[1..] == parts;
        assert parts == [parts[0]] + parts[1..];
      } else {
        assert Components(path)[1..] == parts[1..];
      }
    }
  }

  /** A path is refused exactly if it starts with a slash of either kind, has a component of
      two dots, or a NUL. */
  lemma RemoteMeaning(path: string)
    ensures Remote(path) <==> '\0' !in path && ".." !in Components(path) && !("/" <= path) && !("\\" <= path)
  {
    ParentComponents(path, true);
    HasParentFrom(path);
    hide HasParent, Components;
    var parts := Components(path);
    assert parts == [parts[0]] + parts[1..];
    assert path != [] ==> ("/" <= path <==> path[0] == '/') && ("\\" <= path <==> path[0] == '\\');
  }

  lemma HasParentFrom(path: string)
    ensures HasParent(path) <==> ParentFrom(path, true)
  {
    if ParentFrom(path, true) {
      var i :| 0 <= i <= |path| - 2 && ParentAt(path, true, i);
      assert path[i] == '.' && path[i + 1] == '.' && (i == 0 || path[i - 1] == '/');
      assert HasParent(path);
    }
    if HasParent(path) {
      var i :| 0 <= i <= |path| - 2 && path[i] == '.' && path[i + 1] == '.'
               && (i == 0 || path[i - 1] == '/') && (i + 2 == |path| || path[i + 2] == '/');
      assert ParentAt(path, true, i);
    }
  }

  /** A remote ASCII path that a field of so many bytes holds with a zero behind it. */
  predicate Packable(path: string, field: nat) {
    && '\0' !in path && ".." !in Components(path) && !("/" <= path) && !("\\" <= path)
    && |path| < field && forall i :: 0 <= i < |path| ==> path[i] as int < 128
  }

  /** An information request is built exactly for a path of at most 39 characters, in 40
      bytes, the path ending at the first zero. */
  lemma InfoBodyMeaning(path: string)
    ensures var body := InfoBody(path);
            && (body.Ok? <==> Packable(path, 40))
            && (body.Ok? ==>
                  && |body.value| == 40
                  && (forall i :: 0 <= i < |path| ==> body.value[i] as int == path[i] as int != 0)
                  && (forall i :: |path| <= i < 40 ==> body.value[i] == 0))
  {
    RemoteMeaning(path);
    hide Remote, Components;
    if InfoBody(path).Ok? {
      forall i | 0 <= i < |path|
        ensures InfoBody(path).value[i] as int == path[i] as int != 0
      {
        assert path[i] != '\0';
      }
    }
  }

  /** A block request is built exactly for such a path of at most 299 characters and an offset
      and a count of 32 bits. It is 308 bytes long and gives back the offset, the count and the path, which ends at the
      first zero. */
  lemma BlockBodyMeaning(path: string, ask: Ask)
    ensures var body := BlockBody(path, ask);
            && (body.Ok? <==> Packable(path, 300) && ask.offset < TWO_32 && ask.count < TWO_32)
            && (body.Ok? ==>
                  var s, stop := body.value, 8 + |path|;
                  && |s| == 308 && Word32(s[..4]) == ask.offset && Word32(s[4..8]) == ask.count
                  && (forall i :: 0 <= i < |path| ==> s[8 + i] as int == path[i] as int != 0)
                  && (forall i :: stop <= i < 308 ==> s[i] == 0))
  {
    RemoteMeaning(path);
    hide Put32, Word32, Remote, Components;
    var body := BlockBody(path, ask);
    if body.Ok? {
      var s, encoded := body.value, Encoded(path).value;
      Word32Put32(ask.offset);
      Word32Put32(ask.count);
      assert s[..4] == Put32(ask.offset) && s[4..8] == Put32(ask.count);
      forall i | 0 <= i < |path|
        ensures s[8 + i] as int == path[i] as int != 0
      {
        assert s[8 + i] == encoded[i];
        assert path[i] != '\0';
      }
    }
  }

  // ---------------------------------------------------------------- an honest peer

  function PutBlock(block: bytes): bytes
    requires |block| < TWO_32
  {
    Put32(|block|) + block
  }

  /** A block reply of at least four bytes is accepted exactly if the size it gives is within
      what was asked for, and exactly so many bytes follow. */
  lemma BlockExact(size: nat, payload: bytes, count: nat)
    requires size < TWO_32
    ensures ParseBlock(Put32(size) + payload, count)
            == if size > count then Err(BlockTooLarge)
               else if |payload| < size then Err(Truncated)
               else if |payload| > size then Err(Residue)
               else Ok(payload)
  {
    hide Put32, Word32;
    Put32RoundTrip(size, payload);
    TakeAll(payload);
  }

  lemma BlockRoundTrip(block: bytes, count: nat)
    requires |block| < TWO_32
    ensures ParseBlock(PutBlock(block), count) == if |block| <= count then Ok(block) else Err(BlockTooLarge)
  {
    BlockExact(|block|, block, count);
  }

  /** A peer that has `file` and serves `sizes(n)` bytes of it in its n-th answer, as far
      as it goes. */
  function Server(file: bytes, sizes: (nat, Ask) -> nat): Peer
    requires |file| < TWO_32
  {
    (round: nat, ask: Ask) =>
      if ask.offset <= |file|
      then Ok(PutBlock(file[ask.offset..ask.offset + Min(sizes(round, ask), |file| - ask.offset)]))
      else Err(TransportError)
  }

  /** Between one byte and as many as asked for. */
  ghost predicate Obliging(sizes: (nat, Ask) -> nat) {
    forall round: nat, ask: Ask :: ask.count > 0 ==> 1 <= sizes(round, ask) <= ask.count
  }

  /** Always as many as asked for. */
  ghost predicate Full(sizes: (nat, Ask) -> nat) {
    forall round: nat, ask: Ask :: sizes(round, ask) == ask.count
  }

  lemma Extended(file: bytes, at: nat, size: nat)
    requires at + size <= |file|
    ensures file[..at] + file[at..at + size] == file[..at + size]
  {
  }

  function CeilDiv(a: nat, b: nat): nat
    requires b > 0
  {
    (a + b - 1) / b
  }

  /** With the total known, every obliging peer delivers exactly the file, in at most as
      many requests as it has bytes, and in exactly one for each started block when the
      blocks are full. */
  lemma {:induction false} KnownTotal(file: bytes, sizes: (nat, Ask) -> nat, maxBytes: nat, round: nat, at: nat)
    requires at <= |file| <= maxBytes < TWO_31 && Obliging(sizes)
    ensures var t := Fetch(Server(file, sizes), Some(|file|), maxBytes, round, file[..at]);
            && t.data == Ok(file) && |t.asks| <= |file| - at
            && (Full(sizes) ==> |t.asks| == CeilDiv(|file| - at, 30000))
    decreases |file| - at
  {
    hide ParseBlock, PutBlock;
    var data := file[..at];
    if at == |file| {
      assert data == file;
    } else {
      var ask := NextAsk(Some(|file|), at);
      var size := sizes(round, ask);
      var block := file[at..at + size];
      BlockRoundTrip(block, ask.count);
      Extended(file, at, size);
      FetchStep(Server(file, sizes), Some(|file|), maxBytes, round, data);
      hide Fetch;
      KnownTotal(file, sizes, maxBytes, round + 1, at + size);
      if Full(sizes) {
        CeilStep(|file| - at);
      }
    }
  }

  lemma CeilStep(left: nat)
    requires left > 0
    ensures CeilDiv(left, BLOCK) == 1 + CeilDiv(left - Min(left, BLOCK), BLOCK)
  {
  }

  /** Without a total, a peer that always fills the block it can delivers exactly the file,
      the last request being the first that comes back short. */
  lemma {:induction false} UnknownTotal(file: bytes, sizes: (nat, Ask) -> nat, maxBytes: nat, round: nat, at: nat)
    requires at <= |file| <= maxBytes < TWO_31 && Full(sizes)
    ensures var t := Fetch(Server(file, sizes), None, maxBytes, round, file[..at]);
            t.data == Ok(file) && |t.asks| == (|file| - at) / 30000 + 1
    decreases |file| - at
  {
    hide ParseBlock, PutBlock;
    var ask := NextAsk(None, at);
    var size := Min(BLOCK, |file| - at);
    var block := file[at..at + size];
    assert sizes(round, ask) == BLOCK;
    BlockRoundTrip(block, ask.count);
    Extended(file, at, size);
    if size == BLOCK {
      UnknownTotal(file, sizes, maxBytes, round + 1, at + size);
    } else {
      assert file[..at + size] == file;
    }
  }

  /** From `at` on, no answer before the end of the file is short of a whole block. */
  ghost predicate NoneShort(file: bytes, sizes: (nat, Ask) -> nat, round: nat, at: nat) {
    forall k: nat :: Whole(file, sizes, round, at, k)
  }

  /** The k-th answer from `at` on fills its block, or holds all that is left. */
  ghost predicate Whole(file: bytes, sizes: (nat, Ask) -> nat, round: nat, at: nat, k: nat) {
    at + k * BLOCK < |file| ==> sizes(round + k, Ask(at + k * BLOCK, BLOCK)) >= Min(BLOCK, |file| - (at + k * BLOCK))
  }

  lemma NoneShortStep(file: bytes, sizes: (nat, Ask) -> nat, round: nat, at: nat)
    requires sizes(round, Ask(at, BLOCK)) >= BLOCK
    ensures NoneShort(file, sizes, round, at) <==> NoneShort(file, sizes, round + 1, at + BLOCK)
  {
    var next, behind := round + 1, at + BLOCK;
    assert Whole(file, sizes, round, at, 0);
    if NoneShort(file, sizes, round, at) {
      forall k: nat
        ensures Whole(file, sizes, next, behind, k)
      {
        assert Whole(file, sizes, round, at, k + 1);
        assert at + (k + 1) * BLOCK == at + BLOCK + k * BLOCK;
      }
    }
    if NoneShort(file, sizes, round + 1, at + BLOCK) {
      forall k: nat
        ensures Whole(file, sizes, round, at, k)
      {
        if k > 0 {
          assert Whole(file, sizes, round + 1, at + BLOCK, k - 1);
          assert at + k * BLOCK == at + BLOCK + (k - 1) * BLOCK;
        }
      }
    }
  }

  /** Without a total every obliging peer is believed: a first part of the file comes back,
      and it is the whole file if and only if no answer before the end is short. */
  lemma {:induction false} UnknownTotalExact(file: bytes, sizes: (nat, Ask) -> nat, maxBytes: nat, round: nat, at: nat)
    requires at <= |file| <= maxBytes < TWO_31 && Obliging(sizes)
    ensures var t := Fetch(Server(file, sizes), None, maxBytes, round, file[..at]);
            && t.data.Ok? && at <= |t.data.value| && t.data.value <= file
            && (t.data.value == file <==> NoneShort(file, sizes, round, at))
    decreases |file| - at
  {
    hide ParseBlock, PutBlock, NoneShort;
    var ask := NextAsk(None, at);
    var size := Min(sizes(round, ask), |file| - at);
    var block := file[at..at + size];
    BlockRoundTrip(block, ask.count);
    Extended(file, at, size);
    FetchStep(Server(file, sizes), None, maxBytes, round, file[..at]);
    hide Fetch;
    if size == BLOCK {
      UnknownTotalExact(file, sizes, maxBytes, round + 1, at + size);
      NoneShortStep(file, sizes, round, at);
    } else {
      ShortBlock(file, sizes, round, at);
      assert file[..|file|] == file;
    }
  }

  /** A block that is not filled ends the transfer, in time only at the end of the file. */
  lemma ShortBlock(file: bytes, sizes: (nat, Ask) -> nat, round: nat, at: nat)
    requires at <= |file| && Min(sizes(round, Ask(at, BLOCK)), |file| - at) < BLOCK
    ensures NoneShort(file, sizes, round, at) <==> at + Min(sizes(round, Ask(at, BLOCK)), |file| - at) == |file|
  {
    assert at + 0 * BLOCK == at;
    if at + Min(sizes(round, Ask(at, BLOCK)), |file| - at) == |file| {
      forall k: nat
        ensures Whole(file, sizes, round, at, k)
      {
        assert k > 0 ==> at + k * BLOCK >= |file|;
      }
    } else {
      assert !Whole(file, sizes, round, at, 0);
    }
  }

  /** The whole command: the file comes back if and only if its checksum matches the one
      announced. */
  lemma DownloadDelivers(file: bytes, sizes: (nat, Ask) -> nat, digest: Option<bytes>, limits: Limits)
    requires |file| <= limits.maxBytes < TWO_31 && Obliging(sizes)
    ensures Downloaded(Info(Some(|file|), digest), Server(file, sizes), limits)
            == if digest.Some? && limits.digest(file) != digest.value then Err(BadDigest) else Ok(file)
  {
    hide ParseBlock, PutBlock, Fetch;
    KnownTotal(file, sizes, limits.maxBytes, 0, 0);
    assert file[..0] == [];
  }

  /** The hexadecimal digits by value, in both cases. */
  const LOWER: string := "0123456789abcdef"
  const UPPER: string := "0123456789ABCDEF"

  ghost predicate HasValue(b: byte, v: nat) {
    v < 16 && (b as int == LOWER[v] as int || b as int == UPPER[v] as int)
  }

  ghost predicate HexDigit(b: byte) {
    exists v: nat :: HasValue(b, v)
  }

  lemma DigitMeaning(b: byte)
    ensures 0x30 <= Lower(b) <= 0x39 || 0x61 <= Lower(b) <= 0x66 <==> HexDigit(b)
  {
    var low := Lower(b);
    if 0x30 <= low <= 0x39 {
      assert HasValue(b, low as nat - 0x30);
    } else if 0x61 <= low <= 0x66 {
      assert HasValue(b, low as nat - 0x61 + 10);
    }
  }

  lemma DigitValue(b: byte, v: nat)
    requires HasValue(b, v)
    ensures Lower(b) as int == LOWER[v] as int
  {
  }

  /** A checksum is accepted exactly if each of its characters is a hexadecimal digit of either
      case, and kept as the lower-case digits of the same values. */
  lemma HexMeaning(s: bytes, i: nat, v: nat)
    ensures IsHex(LowerAll(s)) <==> forall k :: 0 <= k < |s| ==> HexDigit(s[k])
    ensures i < |s| && HasValue(s[i], v) ==> LowerAll(s)[i] as int == LOWER[v] as int
  {
    hide Lower, HexDigit;
    forall k | 0 <= k < |s|
      ensures 0x30 <= LowerAll(s)[k] <= 0x39 || 0x61 <= LowerAll(s)[k] <= 0x66 <==> HexDigit(s[k])
    {
      DigitMeaning(s[k]);
    }
    if i < |s| && HasValue(s[i], v) {
      DigitValue(s[i], v);
    }
  }

  /** The information reply: a total over the limit is refused, a zero flag announces no
      checksum, and otherwise 32 hexadecimal digits of either case must follow. */
  lemma InfoRoundTrip(total: nat, flag: byte, digits: bytes, more: bytes, maxBytes: nat)
    requires total < TWO_32 && |digits| == 32
    ensures ParseInfo(Put32(total) + ([flag] + (digits + more)), maxBytes)
            == if total > maxBytes then Err(TooLarge)
               else if flag == 0 then Ok(Info(Some(total), None))
               else if IsHex(LowerAll(digits)) then Ok(Info(Some(total), Some(LowerAll(digits))))
               else Err(BadDigest)
  {
    var s := Put32(total) + ([flag] + (digits + more));
    assert s[..4] == Put32(total) && s[4] == flag && s[5..] == digits + more;
    Word32Put32(total);
    TakeAppend(digits, more);
  }

  // ---------------------------------------------------------------- over a connection

  /** Two peers that answer alike as far as a transfer can ask. */
  ghost predicate Alike(left: Peer, right: Peer, maxBytes: nat) {
    forall round: nat, ask: Ask :: ask.offset <= maxBytes && ask.count <= BLOCK ==>
      left(round, ask) == right(round, ask)
  }

  lemma {:induction false} FetchAlike(left: Peer, right: Peer, total: Option<nat>, maxBytes: nat, round: nat,
                                      data: bytes)
    requires |data| <= maxBytes && Alike(left, right, maxBytes)
    ensures Fetch(left, total, maxBytes, round, data) == Fetch(right, total, maxBytes, round, data)
    decreases maxBytes - |data|
  {
    hide Fetch, ParseBlock;
    if total.Some? && total.value <= |data| {
      FetchDone(left, total, maxBytes, round, data);
      FetchDone(right, total, maxBytes, round, data);
    } else {
      FetchStep(left, total, maxBytes, round, data);
      FetchStep(right, total, maxBytes, round, data);
      var ask := NextAsk(total, |data|);
      var raw := left(round, ask);
      assert raw == right(round, ask);
      if raw.Ok? && ParseBlock(raw.value, ask.count).Ok? {
        var block := ParseBlock(raw.value, ask.count).value;
        if |data| + |block| <= maxBytes && block != [] {
          FetchAlike(left, right, total, maxBytes, round + 1, data + block);
        }
      }
    }
  }

  /** What a host says of a file: its length, and 32 digits of its checksum if it has them. */
  function PutInfo(total: nat, digits: Option<bytes>): bytes
    requires total < TWO_32
  {
    Put32(total) + if digits.None? then [0] else [1] + digits.value
  }

  function Later(sizes: (nat, Ask) -> nat, before: nat): (nat, Ask) -> nat {
    (round: nat, ask: Ask) => sizes(before + round, ask)
  }

  /** A host that has `file`, announces it in the first call, and reads offset and count from
      the body of a block request. */
  function Host(file: bytes, digits: Option<bytes>, sizes: (nat, Ask) -> nat): Caller
    requires |file| < TWO_32
  {
    (round: nat, command: Command) =>
      if command.command == FILE_INFO && round == 0 then Ok(PutInfo(|file|, digits))
      else if command.command != FILE_BLOCK || |command.body| < 8 then Err(TransportError)
      else Server(file, sizes)(round, Ask(Word32(command.body[..4]), Word32(command.body[4..8])))
  }

  /** Through the bytes of its requests the block loop sees the host as a server. */
  lemma HostServes(path: string, file: bytes, digits: Option<bytes>, sizes: (nat, Ask) -> nat, before: nat,
                   maxBytes: nat)
    requires |file| < TWO_32 && Packable(path, 300) && maxBytes < TWO_32
    ensures Alike(Blocks(path, Host(file, digits, sizes), before), Server(file, Later(sizes, before)), maxBytes)
  {
    hide BlockBody, Packable, PutBlock, Word32;
    var left, right := Blocks(path, Host(file, digits, sizes), before), Server(file, Later(sizes, before));
    forall round: nat, ask: Ask | ask.offset <= maxBytes && ask.count <= BLOCK
      ensures left(round, ask) == right(round, ask)
    {
      BlockBodyMeaning(path, ask);
      var body := BlockBody(path, ask).value;
      assert Ask(Word32(body[..4]), Word32(body[4..8])) == ask;
      assert left(round, ask) == Host(file, digits, sizes)(before + round, Command(FILE_BLOCK, body));
      assert left(round, ask) == Server(file, sizes)(before + round, ask);
      assert Later(sizes, before)(round, ask) == sizes(before + round, ask);
    }
  }

  /** The 32 digits of a checksum, if they are given. */
  predicate Digits(digits: Option<bytes>) {
    digits.Some? ==> |digits.value| == 32 && IsHex(LowerAll(digits.value))
  }

  function Lowered(digits: Option<bytes>): Option<bytes> {
    if digits.None? then None else Some(LowerAll(digits.value))
  }

  lemma InfoMeaning(total: nat, digits: Option<bytes>, maxBytes: nat)
    requires total <= maxBytes < TWO_32 && Digits(digits)
    ensures ParseInfo(PutInfo(total, digits), maxBytes) == Ok(Info(Some(total), Lowered(digits)))
  {
    hide Put32, Word32, IsHex, LowerAll;
    var s := PutInfo(total, digits);
    assert s[..4] == Put32(total);
    Word32Put32(total);
    if digits.Some? {
      assert s[5..] == digits.value;
      TakeAll(digits.value);
    }
  }

  /** Over a connection, with the path and every offset in the bytes of the requests: a host
      that obliges delivers exactly the file, refused if and only if its checksum differs
      from the one announced. */
  lemma FileDelivers(path: string, file: bytes, digits: Option<bytes>, sizes: (nat, Ask) -> nat, limits: Limits)
    requires Packable(path, 40) && Digits(digits) && Obliging(sizes) && |file| <= limits.maxBytes < TWO_31
    ensures FileOf(path, true, Host(file, digits, sizes), limits)
            == if digits.Some? && limits.digest(file) != LowerAll(digits.value) then Err(BadDigest) else Ok(file)
  {
    InfoBodyMeaning(path);
    InfoMeaning(|file|, digits, limits.maxBytes);
    assert Packable(path, 300);
    HostServes(path, file, digits, sizes, 1, limits.maxBytes);
    LaterObliging(sizes, 1);
    DownloadDelivers(file, Later(sizes, 1), Lowered(digits), limits);
    hide Fetch, Packable, Alike, InfoBody, ParseInfo, BlockBody;
    FetchAlike(Blocks(path, Host(file, digits, sizes), 1), Server(file, Later(sizes, 1)), Some(|file|),
               limits.maxBytes, 0, []);
  }

  lemma LaterObliging(sizes: (nat, Ask) -> nat, before: nat)
    requires Obliging(sizes)
    ensures Obliging(Later(sizes, before))
  {
  }

  lemma {:induction false} CommandAt(path: string, asks: seq<Ask>, k: nat)
    requires Packable(path, 300) && forall i :: 0 <= i < |asks| ==> asks[i].offset < TWO_32 && asks[i].count < TWO_32
    requires k < |asks|
    ensures var sent := CommandsOf(path, asks);
            && |sent| == |asks| && BlockBody(path, asks[k]).Ok?
            && sent[k] == Command(0x06B9, BlockBody(path, asks[k]).value)
    decreases |asks|
  {
    hide BlockBody, Packable;
    BlockBodyMeaning(path, asks[0]);
    if k > 0 {
      CommandAt(path, asks[1..], k - 1);
    } else if |asks| > 1 {
      CommandAt(path, asks[1..], 0);
    }
  }

  lemma CommandsLength(path: string, asks: seq<Ask>)
    requires Packable(path, 300) && forall i :: 0 <= i < |asks| ==> asks[i].offset < TWO_32 && asks[i].count < TWO_32
    ensures |CommandsOf(path, asks)| == |asks|
  {
    if asks == [] {
      NoCommands(path);
    } else {
      CommandAt(path, asks, 0);
    }
  }

  lemma CommandMeaning(path: string, asks: seq<Ask>, k: nat)
    requires Packable(path, 300) && forall i :: 0 <= i < |asks| ==> asks[i].offset < TWO_32 && asks[i].count < TWO_32
    requires k < |asks|
    ensures |CommandsOf(path, asks)| == |asks| && AsksFor(CommandsOf(path, asks)[k], asks[k])
  {
    hide BlockBody, Packable, Word32;
    CommandAt(path, asks, k);
    BlockBodyMeaning(path, asks[k]);
  }

  /** A block request of 308 bytes with offset and count in its first eight. */
  predicate AsksFor(c: Command, ask: Ask) {
    && c.command == 0x06B9 && |c.body| == 308
    && Word32(c.body[..4]) == ask.offset && Word32(c.body[4..8]) == ask.count
  }

  /** The asks of a whole download. */
  function AsksOf(path: string, withInfo: bool, call: Caller, limits: Limits): seq<Ask>
    requires Announced(path, withInfo, call, limits.maxBytes).Ok?
  {
    Fetch(Blocks(path, call, if withInfo then 1 else 0),
          Announced(path, withInfo, call, limits.maxBytes).value.total, limits.maxBytes, 0, []).asks
  }

  lemma SentParts(path: string, withInfo: bool, call: Caller, limits: Limits)
    requires Packable(path, 40) && Announced(path, withInfo, call, limits.maxBytes).Ok?
    ensures Sent(path, withInfo, call, limits)
            == InfoSent(path, withInfo) + CommandsOf(path, AsksOf(path, withInfo, call, limits))
    ensures if withInfo then |InfoSent(path, withInfo)| == 1 && InfoSent(path, withInfo)[0].command == 0x02C5
                             && InfoBody(path) == Ok(InfoSent(path, withInfo)[0].body)
            else InfoSent(path, withInfo) == []
  {
    InfoBodyMeaning(path);
    hide Fetch, Packable, InfoBody, BlockBody, Announced, CommandsOf, Blocks;
  }

  lemma AsksInRange(path: string, withInfo: bool, call: Caller, limits: Limits)
    requires limits.maxBytes < TWO_31 && Announced(path, withInfo, call, limits.maxBytes).Ok?
    ensures var asks := AsksOf(path, withInfo, call, limits);
            forall i :: 0 <= i < |asks| ==> asks[i].offset < TWO_32 && asks[i].count < TWO_32
  {
    hide Announced, Blocks, Fetch;
    FetchBounded(Blocks(path, call, if withInfo then 1 else 0),
                 Announced(path, withInfo, call, limits.maxBytes).value.total, limits.maxBytes, 0, []);
  }

  /** What is sent for a file whose path fits: one information request if it is wanted, and
      then one block request for each ask, in order. */
  lemma SentMeaning(path: string, withInfo: bool, call: Caller, limits: Limits)
    requires Packable(path, 40) && limits.maxBytes < TWO_31 && Announced(path, withInfo, call, limits.maxBytes).Ok?
    ensures var sent, asks := Sent(path, withInfo, call, limits), AsksOf(path, withInfo, call, limits);
            var first := if withInfo then 1 else 0;
            && |sent| == first + |asks|
            && (withInfo ==> sent[0].command == 0x02C5 && InfoBody(path) == Ok(sent[0].body))
            && (forall k :: 0 <= k < |asks| ==> AsksFor(sent[first + k], asks[k]))
  {
    hide Sent, AsksOf, Packable, Announced, InfoBody, InfoSent, CommandsOf, AsksFor;
    Shorter(path);
    SentParts(path, withInfo, call, limits);
    AsksInRange(path, withInfo, call, limits);
    var asks, info: seq<Command> := AsksOf(path, withInfo, call, limits), InfoSent(path, withInfo);
    var commands: seq<Command> := CommandsOf(path, asks);
    CommandsLength(path, asks);
    forall k | 0 <= k < |asks|
      ensures AsksFor((info + commands)[|info| + k], asks[k])
    {
      CommandMeaning(path, asks, k);
    }
  }

  lemma Shorter(path: string)
    requires Packable(path, 40)
    ensures Packable(path, 300)
  {
  }

  /** Without an announced total, a host that fills every block it can delivers the file. */
  lemma FileDeliversUnknown(path: string, file: bytes, digits: Option<bytes>, sizes: (nat, Ask) -> nat, limits: Limits)
    requires Packable(path, 300) && Full(sizes) && |file| <= limits.maxBytes < TWO_31
    ensures FileOf(path, false, Host(file, digits, sizes), limits) == Ok(file)
  {
    HostServes(path, file, digits, sizes, 0, limits.maxBytes);
    UnknownTotal(file, Later(sizes, 0), limits.maxBytes, 0, 0);
    assert file[..0] == [];
    hide Fetch, Packable, Alike, BlockBody;
    FetchAlike(Blocks(path, Host(file, digits, sizes), 0), Server(file, Later(sizes, 0)), None, limits.maxBytes, 0, []);
  }
}
