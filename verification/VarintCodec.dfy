/** The TDX signed varint: the printer of the program's own contract check against the
    decoder `Varint`, with the exact range in which they are inverse. */
module VarintCodec {
  import opened Arithmetic
  import opened Wire
  import opened Cursor

  /** The magnitude above its six lowest bits, in groups of seven. */
  function Groups(magnitude: nat): bytes {
    if magnitude == 0 then []
    else [magnitude % 128 + if magnitude >= 128 then 128 else 0] + Groups(magnitude / 128)
  }

  function Head(n: int): byte {
    Abs(n) % 64 + (if n < 0 then 64 else 0) + if Abs(n) >= 64 then 128 else 0
  }

  function Signed(n: int): bytes {
    [Head(n)] + Groups(Abs(n) / 64)
  }

  lemma GroupsStep(magnitude: nat)
    requires magnitude > 0
    ensures Groups(magnitude)
            == [magnitude % 128 + if magnitude / 128 > 0 then 128 else 0] + Groups(magnitude / 128)
  {
  }

  lemma PatchLast(before: bytes, last: byte, group: byte, more: bytes)
    requires last < 128
    ensures var data := before + [last];
            data[|data| - 1 := data[|data| - 1] + 128] + [group] == before + [last + 128] + [group]
    ensures before + [last + 128] + ([group] + more) == before + [last + 128] + [group] + more
  {
  }

  /** The printer as it runs: the continuation bit of the last byte is set when another
      byte turns out to be needed. */
  method PrintSigned(n: int) returns (data: bytes)
    ensures data == Signed(n)
  {
    hide Groups;
    var magnitude: nat := Abs(n);
    data := [magnitude % 64 + if n < 0 then 64 else 0];
    magnitude := magnitude / 64;
    ghost var before: bytes, last: byte := [], data[0];
    while magnitude > 0
      invariant magnitude >= 0 && last < 128 && data == before + [last]
      invariant Signed(n) == before + [last + if magnitude > 0 then 128 else 0] + Groups(magnitude)
    {
      GroupsStep(magnitude);
      PatchLast(before, last, magnitude % 128, Groups(magnitude / 128));
      data := data[|data| - 1 := data[|data| - 1] + 128] + [magnitude % 128];
      before, last := before + [last + 128], magnitude % 128;
      magnitude := magnitude / 128;
    }
    NoGroups();
    assert data + [] == data;
  }

  lemma NoGroups()
    ensures Groups(0) == []
  {
  }

  lemma {:induction false} ShlUnshift(m: nat, shift: nat)
    ensures Shl(m % 128, shift) + Shl(m / 128, shift + 7) == Shl(m, shift)
  {
    ShlSeven(m / 128, shift);
    ShlSum(m % 128, 128 * (m / 128), shift);
  }

  lemma NothingMore(s: bytes, value: nat, shift: nat)
    ensures VarintMore(s, false, value, shift) == Ok(Parsed(value, s))
    ensures shift >= 55 ==> VarintMore(s, true, value, shift) == Err(VarintTooLong)
  {
  }

  lemma {:induction false} GroupsParse(magnitude: nat, rest: bytes, value: nat, shift: nat)
    requires shift <= 55 && (55 - shift) % 7 == 0
    ensures VarintMore(Groups(magnitude) + rest, magnitude > 0, value, shift)
            == if magnitude < Pow2(55 - shift)
               then Ok(Parsed(value + Shl(magnitude, shift), rest))
               else Err(VarintTooLong)
    decreases magnitude
  {
    hide Groups, VarintMore, Shl, Pow2;
    if magnitude == 0 {
      NoGroups();
      assert [] + rest == rest;
      ShlSum(0, 0, shift);
      Pow2Grows(0, 55 - shift);
      PowZero();
      NothingMore(rest, value, shift);
    } else if shift < 55 {
      var low, high := magnitude % 128, magnitude / 128;
      var b: byte := low + if high > 0 then 128 else 0;
      var more := Groups(high) + rest;
      GroupsStep(magnitude);
      assert [b] + Groups(high) + rest == [b] + more;
      assert b % 128 == low;
      VarintMoreStep(b, more, value, shift);
      GroupsParse(high, rest, value + Shl(low, shift), shift + 7);
      ShlUnshift(magnitude, shift);
      FitsGroup(magnitude, 48 - shift);
    } else {
      PowZero();
      NothingMore(Groups(magnitude) + rest, value, shift);
    }
  }

  lemma PowZero()
    ensures Pow2(0) == 1
  {
  }

  lemma FitsGroup(magnitude: nat, bits: nat)
    ensures magnitude < Pow2(bits + 7) <==> magnitude / 128 < Pow2(bits)
  {
    ShlShl(1, bits, 7);
    ShlSeven(Pow2(bits), 0);
  }

  /** Decoding a printed integer gives it back, and exactly its bytes are consumed, if
      and only if its magnitude is below 2^55; otherwise the decoder refuses. */
  lemma SignedRoundTrip(n: int, rest: bytes)
    ensures Varint(Signed(n) + rest)
            == if Abs(n) < Pow2(55) then Ok(Parsed(n, rest)) else Err(VarintTooLong)
  {
    var high := Abs(n) / 64;
    assert (Signed(n) + rest)[1..] == Groups(high) + rest;
    GroupsParse(high, rest, Abs(n) % 64, 6);
    ShlSix(high);
    FitsHead(Abs(n));
    HeadParts(n);
  }

  lemma HeadParts(n: int)
    ensures Head(n) % 64 == Abs(n) % 64
    ensures Head(n) >= 128 <==> Abs(n) / 64 > 0
    ensures Head(n) / 64 % 2 == 1 <==> n < 0
  {
  }

  lemma FitsHead(magnitude: nat)
    ensures magnitude < Pow2(55) <==> magnitude / 64 < Pow2(49)
  {
    ShlShl(1, 49, 6);
    ShlSix(Pow2(49));
  }

  lemma {:induction false} MoreBounded(s: bytes, again: bool, value: nat, shift: nat)
    requires value < Pow2(shift) && shift <= 55 && (55 - shift) % 7 == 0
    ensures var r := VarintMore(s, again, value, shift);
            r.Ok? ==> r.value.value < Pow2(55)
                      && |r.value.rest| <= |s| && r.value.rest == s[|s| - |r.value.rest|..]
    decreases |s|
  {
    if again && shift < 55 && |s| > 0 {
      GroupBelow(value, s[0] % 128, shift);
      MoreBounded(s[1..], s[0] >= 128, value + Shl(s[0] % 128, shift), shift + 7);
    } else if !again {
      Pow2Grows(shift, 55);
    }
  }

  /** Every accepted value lies strictly between -2^55 and 2^55, and what is left unread
      is a proper suffix of the input. */
  lemma VarintBounded(s: bytes)
    ensures var r := Varint(s);
            r.Ok? ==> Abs(r.value.value) < Pow2(55)
                      && |r.value.rest| < |s| && r.value.rest == s[|s| - |r.value.rest|..]
  {
    if |s| > 0 {
      ShlSix(1);
      MoreBounded(s[1..], s[0] >= 128, s[0] % 64, 6);
    }
  }

  lemma {:induction false} MoreStable(s: bytes, more: bytes, again: bool, value: nat, shift: nat)
    ensures Extends(VarintMore(s, again, value, shift), more, VarintMore(s + more, again, value, shift))
    decreases |s|
  {
    if again && shift < 55 && |s| > 0 {
      assert (s + more)[1..] == s[1..] + more;
      MoreStable(s[1..], more, s[0] >= 128, value + Shl(s[0] % 128, shift), shift + 7);
    }
  }

  lemma VarintStable(s: bytes, more: bytes)
    ensures Extends(Varint(s), more, Varint(s + more))
  {
    if |s| > 0 {
      assert (s + more)[1..] == s[1..] + more;
      MoreStable(s[1..], more, s[0] >= 128, s[0] % 64, 6);
    }
  }

  // ---------------------------------------------------------------- the decoder in closed form

  /** Where the first byte without a continuation bit is, or the end. */
  function FirstFinal(s: bytes): (n: nat)
    ensures n <= |s|
  {
    if s == [] || s[0] < 128 then 0 else 1 + FirstFinal(s[1..])
  }

  /** The number whose base-128 digits, lowest first, are the first `n` bytes without their
      top bits. */
  function Base128(s: bytes, n: nat): nat
    requires n <= |s|
    decreases n
  {
    if n == 0 then 0 else s[0] as nat % 128 + 128 * Base128(s[1..], n - 1)
  }

  lemma ShlDigits(low: nat, high: nat, shift: nat)
    ensures Shl(low + 128 * high, shift) == Shl(low, shift) + Shl(high, shift + 7)
  {
    ShlSum(low, 128 * high, shift);
    ShlSeven(high, shift);
  }

  lemma BaseOne(s: bytes)
    requires s != []
    ensures Base128(s, 1) == s[0] as nat % 128
  {
    assert Base128(s[1..], 0) == 0;
  }

  /** How many groups of seven fit from `shift` on. */
  function Room(shift: nat): nat
    decreases 55 - shift
  {
    if shift >= 55 then 0 else 1 + Room(shift + 7)
  }

  lemma {:induction false} MoreExact(s: bytes, value: nat, shift: nat)
    ensures VarintMore(s, true, value, shift)
            == var n := FirstFinal(s);
               if n < Room(shift) && n < |s| then Ok(Parsed(value + Shl(Base128(s, n + 1), shift), s[n + 1..]))
               else if |s| < Room(shift) then Err(Truncated)
               else Err(VarintTooLong)
    decreases |s|
  {
    hide Shl;
    var n := FirstFinal(s);
    if shift < 55 && s != [] {
      assert [s[0]] + s[1..] == s;
      VarintMoreStep(s[0], s[1..], value, shift);
      if s[0] < 128 {
        BaseOne(s);
        NothingMore(s[1..], value + Shl(s[0] % 128, shift), shift + 7);
      } else {
        MoreExact(s[1..], value + Shl(s[0] % 128, shift), shift + 7);
        if n < |s| && n < Room(shift) {
          ShlDigits(s[0] as nat % 128, Base128(s[1..], n), shift);
          assert s[1..][n..] == s[n + 1..];
        }
      }
    }
  }

  lemma RoomAfterFirst()
    ensures Room(6) == 7
  {
    assert Room(48) == 1 && Room(34) == 3 && Room(20) == 5 && Room(6) == 7;
  }

  /** Every input: six magnitude bits and a sign in the first byte, and up to seven more
      bytes of seven bits, lowest first, the last of them without its top bit. Fewer bytes
      are truncated, more are too long; nothing else is refused, not even digits that are
      zero. */
  lemma VarintExact(s: bytes)
    ensures Varint(s)
            == if s == [] then Err(Truncated)
               else
                 var t, sign := s[1..], if s[0] % 128 >= 64 then -1 else 1;
                 var n := FirstFinal(t);
                 if s[0] < 128 then Ok(Parsed(sign * (s[0] as int % 64), t))
                 else if n < 7 && n < |t| then
                   Ok(Parsed(sign * (s[0] as int % 64 + 64 * Base128(t, n + 1)), t[n + 1..]))
                 else if |t| < 7 then Err(Truncated)
                 else Err(VarintTooLong)
  {
    if s != [] {
      hide VarintMore, FirstFinal, Base128, Room, Shl;
      SignBit(s[0]);
      RoomAfterFirst();
      var t := s[1..];
      var n := FirstFinal(t);
      NothingMore(t, s[0] as nat % 64, 6);
      MoreExact(t, s[0] as nat % 64, 6);
      if n < |t| {
        ShlSix(Base128(t, n + 1));
      }
    }
  }

  lemma SignBit(b: byte)
    ensures b / 64 % 2 == 1 <==> b % 128 >= 64
  {
  }

  // ---------------------------------------------------------------- runs of varints

  /** `count` varints, one after another. */
  function Varints(s: bytes, count: nat): (r: Result<Parsed<seq<int>>>)
    ensures r.Ok? ==> |r.value.value| == count
    decreases count
  {
    if count == 0 then Ok(Parsed([], s)) else
    var first :- Varint(s);
    var others :- Varints(first.rest, count - 1);
    Ok(Parsed([first.value] + others.value, others.rest))
  }

  function PutSigned(values: seq<int>): bytes {
    if values == [] then [] else Signed(values[0]) + PutSigned(values[1..])
  }

  ghost predicate AllFit(values: seq<int>) {
    forall i :: 0 <= i < |values| ==> Abs(values[i]) < Pow2(55)
  }

  lemma AllFitFirst(values: seq<int>)
    requires values != []
    ensures AllFit(values) <==> Abs(values[0]) < Pow2(55) && AllFit(values[1..])
  {
    hide Pow2, Abs;
    if Abs(values[0]) < Pow2(55) && AllFit(values[1..]) {
      forall i | 0 <= i < |values|
        ensures Abs(values[i]) < Pow2(55)
      {
        assert i > 0 ==> values[i] == values[1..][i - 1];
      }
    }
  }

  /** Reading as many varints as were printed gives the list back exactly when every
      one of them fits; one that does not fit refuses the whole list. */
  lemma {:induction false} VarintsRoundTrip(values: seq<int>, rest: bytes)
    ensures Varints(PutSigned(values) + rest, |values|)
            == if AllFit(values) then Ok(Parsed(values, rest)) else Err(VarintTooLong)
  {
    hide Varint, Signed, Pow2, Abs, AllFit;
    if values == [] {
      assert PutSigned(values) + rest == rest;
      NoneFit();
    } else {
      var tail := PutSigned(values[1..]) + rest;
      assert PutSigned(values) + rest == Signed(values[0]) + tail;
      SignedRoundTrip(values[0], tail);
      VarintsRoundTrip(values[1..], rest);
      AllFitFirst(values);
      assert [values[0]] + values[1..] == values;
    }
  }

  lemma NoneFit()
    ensures AllFit([])
  {
  }

  lemma {:induction false} VarintsStable(s: bytes, more: bytes, count: nat)
    ensures Extends(Varints(s, count), more, Varints(s + more, count))
    decreases count
  {
    if count > 0 {
      VarintStable(s, more);
      var first := Varint(s);
      if first.Ok? {
        VarintsStable(first.value.rest, more, count - 1);
      }
    }
  }

  /** What a run of varints leaves unread is a suffix of the input. */
  lemma {:induction false} VarintsSuffix(s: bytes, count: nat)
    ensures var r := Varints(s, count);
            r.Ok? ==> |r.value.rest| <= |s| && r.value.rest == s[|s| - |r.value.rest|..]
    decreases count
  {
    if count > 0 {
      VarintBounded(s);
      var first := Varint(s);
      if first.Ok? {
        VarintsSuffix(first.value.rest, count - 1);
      }
    }
  }

  /** After `values`, the rest of a run of `count` varints is that of `unread`. */
  ghost predicate ReadsSome(start: bytes, count: nat, values: seq<int>, unread: bytes) {
    |values| <= count &&
    (var rest := Varints(unread, count - |values|);
     Varints(start, count)
     == if rest.Err? then rest else Ok(Parsed(values + rest.value.value, rest.value.rest)))
  }

  lemma ReadsSomeStart(start: bytes, count: nat)
    ensures ReadsSome(start, count, [], start)
  {
    var run := Varints(start, count);
    assert run.Ok? ==> [] + run.value.value == run.value.value;
  }

  lemma ReadsSomeNext(start: bytes, count: nat, values: seq<int>, unread: bytes)
    requires ReadsSome(start, count, values, unread) && |values| < count
    ensures var first := Varint(unread);
            if first.Err? then Varints(start, count) == Err(first.error)
            else ReadsSome(start, count, values + [first.value.value], first.value.rest)
  {
    var first := Varint(unread);
    if first.Ok? {
      var rest := Varints(first.value.rest, count - |values| - 1);
      assert rest.Ok? ==> values + [first.value.value] + rest.value.value
                          == values + ([first.value.value] + rest.value.value);
    }
  }

  method ReadVarints(reader: Reader, count: nat) returns (r: Result<seq<int>>)
    requires reader.offset <= |reader.data|
    modifies reader`offset
    ensures Reads(r, Varints(old(reader.Unread()), count), reader.Unread())
    ensures r.Ok? ==> reader.offset <= |reader.data| && |r.value| == count
  {
    var values: seq<int> := [];
    ghost var start := reader.Unread();
    ReadsSomeStart(start, count);
    while |values| < count
      invariant reader.offset <= |reader.data|
      invariant ReadsSome(start, count, values, reader.Unread())
    {
      ReadsSomeNext(start, count, values, reader.Unread());
      var value :- reader.Varint();
      values := values + [value];
    }
    assert values + [] == values;
    r := Ok(values);
  }
}
