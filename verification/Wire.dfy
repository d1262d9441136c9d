/** Bytes, results, and the fields that the reply parsers of tdx_api.py are made of.

    A parser is specified by a function from the unread bytes to a value and the bytes
    left over. It is *stable* when bytes appended after an accepted input change neither
    the value nor what was consumed. */
module Wire {
  import opened Arithmetic

  type byte = b: int | 0 <= b < 256
  type bytes = seq<byte>

  const TWO_31 := 0x8000_0000
  const TWO_32 := 0x1_0000_0000
  const TWO_64 := 0x1_0000_0000_0000_0000

  /** Why a request was refused. One constructor for each distinct refusal. */
  datatype Failure =
    | Truncated | Residue
    | VarintTooLong
    | TooManyRecords | StrayBytes | UnknownBoundary | WrongSecurity
    | BadDate | BadMinute | BadVolume | BadBase | NegativeTrade
    | Varint64 | Unterminated | ZeroField | BadWire | WireMismatch
    | RpcError(code: int) | BadText | NegativeLength | BadFragment | SessionChanged | TotalChanged
    | TooLarge | BeyondTotal | EmptyFragments | NoSession | RoundsExhausted
    | BadCommand | RequestTooLong | Closed | BadPrefix | BadEcho | BadCompression | BadLength
    | BadPath | PathTooLong | FieldRange | BlockTooLarge | FileTooShort | BadRecord | BadDigest | TransportError

  datatype Result<+T> = Ok(value: T) | Err(error: Failure) {
    predicate IsFailure() { Err? }

    function PropagateFailure<U>(): Result<U>
      requires Err?
    {
      Err(error)
    }

    function Extract(): T
      requires Ok?
    {
      value
    }
  }

  datatype Parsed<+T> = Parsed(value: T, rest: bytes)

  /** The outcome of a check that yields no value. */
  datatype Outcome = Pass | Fail(error: Failure) {
    predicate IsFailure() { Fail? }

    function PropagateFailure<U>(): Result<U>
      requires Fail?
    {
      Err(error)
    }
  }

  function Need(condition: bool, error: Failure): Outcome {
    if condition then Pass else Fail(error)
  }

  function Concat(parts: seq<bytes>): bytes {
    if parts == [] then [] else parts[0] + Concat(parts[1..])
  }

  // ---------------------------------------------------------------- fixed-width fields

  /** What lies behind a header, if anything does. */
  function Body(data: bytes, header: nat): bytes {
    if header <= |data| then data[header..] else []
  }

  function Take(s: bytes, count: nat): (r: Result<Parsed<bytes>>) {
    if count <= |s| then Ok(Parsed(s[..count], s[count..])) else Err(Truncated)
  }

  function Byte(s: bytes): Result<Parsed<byte>> {
    if |s| == 0 then Err(Truncated) else Ok(Parsed(s[0], s[1..]))
  }

  function Word16(low: byte, high: byte): (v: nat)
    ensures v < 0x1_0000
  {
    low as int + 256 * high as int
  }

  function Word32(s: bytes): (v: nat)
    requires |s| == 4
    ensures v < TWO_32
  {
    Word16(s[0], s[1]) + 0x1_0000 * Word16(s[2], s[3])
  }

  function U16(s: bytes): Result<Parsed<nat>> {
    if |s| < 2 then Err(Truncated) else Ok(Parsed(Word16(s[0], s[1]), s[2..]))
  }

  function U32(s: bytes): Result<Parsed<nat>> {
    if |s| < 4 then Err(Truncated) else Ok(Parsed(Word32(s[..4]), s[4..]))
  }

  function Put16(v: nat): (s: bytes)
    requires v < 0x1_0000
    ensures |s| == 2
  {
    [v % 256, v / 256]
  }

  function Put32(v: nat): (s: bytes)
    requires v < TWO_32
    ensures |s| == 4
  {
    Put16(v % 0x1_0000) + Put16(v / 0x1_0000)
  }

  /** The two's-complement reading of a 32-bit word. */
  function Signed32(v: nat): int
    requires v < TWO_32
  {
    if v >= TWO_31 then v - TWO_32 else v
  }

  /** The word whose two's-complement reading is `v`. */
  function Unsigned32(v: int): nat
    requires -TWO_31 <= v < TWO_31
  {
    if v < 0 then v + TWO_32 else v
  }

  lemma SignedUnsigned(v: int)
    requires -TWO_31 <= v < TWO_31
    ensures Signed32(Unsigned32(v)) == v
  {
  }

  lemma Halves(low: nat, high: nat)
    requires low < 0x1_0000 && high < 0x1_0000
    ensures (low + 0x1_0000 * high) % 0x1_0000 == low && (low + 0x1_0000 * high) / 0x1_0000 == high
  {
  }

  lemma PutHalves(low: nat, high: nat)
    requires low < 0x1_0000 && high < 0x1_0000
    ensures Put32(low + 0x1_0000 * high) == Put16(low) + Put16(high)
  {
    hide Put16;
    Halves(low, high);
  }

  lemma HalfBytes(low: byte, high: byte)
    ensures Put16(Word16(low, high)) == [low, high]
  {
  }

  /** Every four bytes are the little-endian form of the word they read as. */
  lemma WordBytes(s: bytes)
    requires |s| == 4
    ensures Put32(Word32(s)) == s
    ensures Put16(Word16(s[0], s[1])) == s[..2]
  {
    hide Put32, Put16, Word16;
    HalfBytes(s[0], s[1]);
    HalfBytes(s[2], s[3]);
    PutHalves(Word16(s[0], s[1]), Word16(s[2], s[3]));
    assert s == [s[0], s[1]] + [s[2], s[3]];
  }

  lemma Put16RoundTrip(v: nat, rest: bytes)
    requires v < 0x1_0000
    ensures U16(Put16(v) + rest) == Ok(Parsed(v, rest))
  {
    assert (Put16(v) + rest)[2..] == rest;
  }

  lemma Word32Put32(v: nat)
    requires v < TWO_32
    ensures Word32(Put32(v)) == v
  {
  }

  lemma Put32RoundTrip(v: nat, rest: bytes)
    requires v < TWO_32
    ensures U32(Put32(v) + rest) == Ok(Parsed(v, rest))
  {
    assert (Put32(v) + rest)[..4] == Put32(v);
    assert (Put32(v) + rest)[4..] == rest;
  }

  lemma TakeAppend(s: bytes, rest: bytes)
    ensures Take(s + rest, |s|) == Ok(Parsed(s, rest))
  {
    assert (s + rest)[..|s|] == s;
    assert (s + rest)[|s|..] == rest;
  }

  lemma TakeAll(s: bytes)
    ensures Take(s, |s|) == Ok(Parsed(s, []))
  {
    assert s[..|s|] == s && s[|s|..] == [];
  }

  /** `after` is `before` with `more` appended to what was left unread. */
  ghost predicate Extends<T(!new)>(before: Result<Parsed<T>>, more: bytes, after: Result<Parsed<T>>) {
    before.Ok? ==> after == Ok(Parsed(before.value.value, before.value.rest + more))
  }

  lemma FixedWidthStable(s: bytes, more: bytes, count: nat)
    ensures Extends(Take(s, count), more, Take(s + more, count))
    ensures Extends(Byte(s), more, Byte(s + more))
    ensures Extends(U16(s), more, U16(s + more))
    ensures Extends(U32(s), more, U32(s + more))
  {
    if count <= |s| {
      assert (s + more)[..count] == s[..count];
      assert (s + more)[count..] == s[count..] + more;
    }
    if |s| >= 1 {
      assert (s + more)[1..] == s[1..] + more;
    }
    if |s| >= 2 {
      assert (s + more)[2..] == s[2..] + more;
    }
    if |s| >= 4 {
      assert (s + more)[..4] == s[..4];
      assert (s + more)[4..] == s[4..] + more;
    }
  }

  // ---------------------------------------------------------------- decimal digits

  /** The last `count` decimal digits of a number, in ASCII. */
  function Decimal(n: nat, count: nat): (s: bytes)
    ensures |s| == count
  {
    if count == 0 then [] else Decimal(n / 10, count - 1) + [0x30 + n % 10]
  }

  predicate AllDigits(s: bytes) {
    forall i :: 0 <= i < |s| ==> 0x30 <= s[i] <= 0x39
  }

  lemma {:induction false} DecimalDigits(n: nat, count: nat)
    ensures AllDigits(Decimal(n, count))
  {
    if count > 0 {
      DecimalDigits(n / 10, count - 1);
    }
  }

  lemma {:induction false} DigitsDecimal(s: bytes) returns (n: nat)
    requires AllDigits(s)
    ensures s == Decimal(n, |s|)
  {
    n := 0;
    if s != [] {
      var init, digit := s[..|s| - 1], s[|s| - 1] as nat - 0x30;
      var upper := DigitsDecimal(init);
      n := 10 * upper + digit;
      assert n / 10 == upper && n % 10 == digit;
      assert s == init + [s[|s| - 1]];
    }
  }

  /** Bytes are decimal digits exactly when they are the digits of a number. */
  lemma DecimalMeaning(s: bytes)
    ensures AllDigits(s) <==> exists n: nat :: s == Decimal(n, |s|)
  {
    hide Decimal, AllDigits;
    if AllDigits(s) {
      var n := DigitsDecimal(s);
    } else if n: nat :| s == Decimal(n, |s|) {
      DecimalDigits(n, |s|);
    }
  }

  // ---------------------------------------------------------------- TDX signed varint

  /** The continuation of a TDX varint: `again` is the top bit of the byte just read. */
  function VarintMore(s: bytes, again: bool, value: nat, shift: nat): Result<Parsed<nat>>
    decreases |s|
  {
    if !again then Ok(Parsed(value, s))
    else if shift >= 55 then Err(VarintTooLong)
    else if |s| == 0 then Err(Truncated)
    else VarintMore(s[1..], s[0] >= 128, value + Shl(s[0] % 128, shift), shift + 7)
  }

  lemma VarintMoreStep(b: byte, s: bytes, value: nat, shift: nat)
    requires shift < 55
    ensures VarintMore([b] + s, true, value, shift)
            == VarintMore(s, b >= 128, value + Shl(b % 128, shift), shift + 7)
  {
    assert ([b] + s)[1..] == s;
  }

  /** Six magnitude bits and a sign in the first byte, then seven bits a byte. */
  function Varint(s: bytes): Result<Parsed<int>> {
    if |s| == 0 then Err(Truncated) else
    var magnitude :- VarintMore(s[1..], s[0] >= 128, s[0] % 64, 6);
    var value := magnitude.value as int;
    Ok(Parsed(if s[0] / 64 % 2 == 1 then -value else value, magnitude.rest))
  }
}
