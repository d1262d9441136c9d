/** Exactly which messages the Protocol Buffers reader accepts, and what it makes of them. */
module ProtobufExact {
  import opened Arithmetic
  import opened Wire
  import opened Protobuf
  import opened VarintCodec
  import opened ProtobufLaws

  // ---------------------------------------------------------------- varints

  /** How many bytes may still carry on below the 64th bit. */
  function Rounds(shift: nat): nat
    decreases 63 - shift
  {
    if shift >= 63 then 0 else 1 + Rounds(shift + 7)
  }

  lemma ConsumeMoreStep(s: bytes, value: nat, shift: nat)
    requires shift < 63 && s != []
    ensures ConsumeMore(s, value, shift)
            == var sum := value + Shl(s[0] % 128, shift);
               if s[0] < 128 then Ok(Parsed(sum, s[1..])) else ConsumeMore(s[1..], sum, shift + 7)
  {
    hide Shl;
  }

  lemma LastRound(s: bytes, value: nat)
    ensures ConsumeMore(s, value, 63)
            == if s == [] then Err(Truncated)
               else if s[0] > 1 then Err(Varint64)
               else Ok(Parsed(value + Shl(s[0] as nat, 63), s[1..]))
  {
    hide Shl;
  }

  /** What the reader makes of `s` when `rounds` bytes may still carry on. */
  function Decoded(s: bytes, value: nat, shift: nat, rounds: nat): Result<Parsed<nat>> {
    var n := FirstFinal(s);
    if n < rounds && n < |s| then Ok(Parsed(value + Shl(Base128(s, n + 1), shift), s[n + 1..]))
    else if |s| <= rounds then Err(Truncated)
    else if s[rounds] > 1 then Err(Varint64)
    else Ok(Parsed(value + Shl(Base128(s, rounds + 1), shift), s[rounds + 1..]))
  }

  lemma DecodedStep(s: bytes, value: nat, shift: nat, rounds: nat)
    requires s != []
    ensures s[0] >= 128 ==>
              Decoded(s, value, shift, rounds + 1)
              == Decoded(s[1..], value + Shl(s[0] % 128, shift), shift + 7, rounds)
  {
    hide Shl, Base128;
    if s[0] >= 128 {
      CarryOn(s, shift, FirstFinal(s[1..]));
      CarryOn(s, shift, rounds);
    }
  }

  lemma DecodedEnds(s: bytes, value: nat, shift: nat, rounds: nat)
    ensures s == [] ==> Decoded(s, value, shift, rounds) == Err(Truncated)
    ensures s != [] && s[0] < 128 && rounds > 0 ==>
              Decoded(s, value, shift, rounds) == Ok(Parsed(value + Shl(s[0] % 128, shift), s[1..]))
    ensures s != [] && rounds == 0 ==>
              Decoded(s, value, shift, rounds)
              == if s[0] > 1 then Err(Varint64) else Ok(Parsed(value + Shl(s[0] as nat, shift), s[1..]))
  {
    hide Shl;
    if s != [] {
      BaseOne(s);
    }
  }

  lemma {:induction false} MoreExact(s: bytes, value: nat, shift: nat)
    requires shift <= 63 && (63 - shift) % 7 == 0
    ensures ConsumeMore(s, value, shift) == Decoded(s, value, shift, Rounds(shift))
    decreases |s|
  {
    hide Shl, ConsumeMore, Decoded;
    DecodedEnds(s, value, shift, Rounds(shift));
    if shift == 63 {
      LastRound(s, value);
    } else if s == [] {
      NothingLeft(value, shift);
    } else {
      ConsumeMoreStep(s, value, shift);
      if s[0] >= 128 {
        MoreExact(s[1..], value + Shl(s[0] % 128, shift), shift + 7);
        DecodedStep(s, value, shift, Rounds(shift + 7));
      }
    }
  }

  lemma NothingLeft(value: nat, shift: nat)
    requires shift <= 63
    ensures ConsumeMore([], value, shift) == Err(Truncated)
  {
  }

  /** One more digit below `n + 1` others. */
  lemma CarryOn(s: bytes, shift: nat, n: nat)
    requires s != []
    ensures n < |s| - 1 ==>
              && Shl(s[0] % 128, shift) + Shl(Base128(s[1..], n + 1), shift + 7) == Shl(Base128(s, n + 2), shift)
              && s[1..][n + 1..] == s[n + 2..] && s[1..][n] == s[n + 1]
  {
    hide Shl;
    if n < |s| - 1 {
      ShlDigits(s[0] as nat % 128, Base128(s[1..], n + 1), shift);
    }
  }

  lemma NineRounds()
    ensures Rounds(0) == 9
  {
    assert Rounds(56) == 1 && Rounds(42) == 3 && Rounds(28) == 5 && Rounds(14) == 7;
  }

  lemma NoShift(value: nat)
    ensures Shl(value, 0) == value
  {
  }

  /** Every input: base-128 digits, lowest first, up to the first byte without a top bit,
      which is the tenth at the latest and then at most 1. Nothing else is refused, not even
      digits that are zero. */
  lemma ConsumeExact(s: bytes)
    ensures Consume(s)
            == var n := FirstFinal(s);
               if n < 9 && n < |s| then Ok(Parsed(Base128(s, n + 1), s[n + 1..]))
               else if |s| <= 9 then Err(Truncated)
               else if s[9] > 1 then Err(Varint64)
               else Ok(Parsed(Base128(s, 10), s[10..]))
  {
    hide ConsumeMore, Rounds, Decoded, FirstFinal, Base128;
    MoreExact(s, 0, 0);
    NineRounds();
    DecodedUnshifted(s, 9);
  }

  lemma DecodedUnshifted(s: bytes, rounds: nat)
    ensures var n := FirstFinal(s);
            Decoded(s, 0, 0, rounds)
            == if n < rounds && n < |s| then Ok(Parsed(Base128(s, n + 1), s[n + 1..]))
               else if |s| <= rounds then Err(Truncated)
               else if s[rounds] > 1 then Err(Varint64)
               else Ok(Parsed(Base128(s, rounds + 1), s[rounds + 1..]))
  {
    hide Shl, FirstFinal, Base128;
    if FirstFinal(s) < |s| {
      NoShift(Base128(s, FirstFinal(s) + 1));
    }
    if rounds < |s| {
      NoShift(Base128(s, rounds + 1));
    }
  }

  lemma {:induction false} MoreStable(s: bytes, more: bytes, value: nat, shift: nat)
    ensures Extends(ConsumeMore(s, value, shift), more, ConsumeMore(s + more, value, shift))
    decreases |s|
  {
    hide Shl;
    if |s| > 0 {
      assert (s + more)[1..] == s[1..] + more;
      MoreStable(s[1..], more, value + Shl(s[0] % 128, shift), shift + 7);
    }
  }

  /** An accepted varint is accepted without what follows it. */
  lemma {:induction false} MoreCut(s: bytes, value: nat, shift: nat) returns (used: bytes)
    ensures var r := ConsumeMore(s, value, shift);
            r.Ok? ==> s == used + r.value.rest && ConsumeMore(used, value, shift) == Ok(Parsed(r.value.value, []))
    decreases |s|
  {
    hide Shl;
    used := [];
    if ConsumeMore(s, value, shift).Ok? {
      var sum := value + Shl(s[0] % 128, shift);
      if s[0] < 128 {
        used := s[..1];
        assert used[1..] == [];
      } else {
        var rest := MoreCut(s[1..], sum, shift + 7);
        used := [s[0]] + rest;
        assert used[1..] == rest;
      }
    }
  }

  lemma ConsumeStable(s: bytes, more: bytes)
    ensures Extends(Consume(s), more, Consume(s + more))
  {
    MoreStable(s, more, 0, 0);
  }

  lemma ConsumeCut(s: bytes) returns (used: bytes)
    ensures Consume(s).Ok? ==>
              s == used + Consume(s).value.rest && Consume(used) == Ok(Parsed(Consume(s).value.value, []))
  {
    used := MoreCut(s, 0, 0);
  }

  // ---------------------------------------------------------------- messages

  /** What follows a tag of one of the four wire types: a varint, eight bytes, a length and so
      many bytes, or four bytes. */
  ghost predicate IsBody(wire: nat, s: bytes, value: Field) {
    match wire
    case 0 => value.Number? && Consume(s) == Ok(Parsed(value.n, []))
    case 1 => value == Fixed64(s) && |s| == 8
    case 2 => value.Blob? && Consume(s) == Ok(Parsed(|value.raw|, value.raw))
    case 5 => value == Fixed32(s) && |s| == 4
    case _ => false
  }

  /** `part` is one field on the wire, of a positive number. */
  ghost predicate IsField(part: bytes, number: nat, value: Field) {
    && Consume(part).Ok? && number > 0
    && Consume(part).value.value / 8 == number
    && IsBody(Consume(part).value.value % 8, Consume(part).value.rest, value)
  }

  ghost predicate AreFields(parts: seq<bytes>, entries: seq<Entry>) {
    |parts| == |entries| && forall i :: 0 <= i < |parts| ==> IsField(parts[i], entries[i].number, entries[i].value)
  }

  lemma BodyStable(wire: nat, s: bytes, more: bytes, value: Field)
    requires IsBody(wire, s, value)
    ensures FieldBody(wire, s + more) == Ok(Parsed(value, more))
  {
    hide Consume;
    ConsumeStable(s, more);
    if wire == 2 {
      TakeAppend(value.raw, more);
    } else {
      assert [] + more == more;
      TakeAppend(s, more);
    }
  }

  /** A field is read whatever follows it. */
  lemma FieldReads(part: bytes, number: nat, value: Field, more: bytes, fields: Fields)
    requires IsField(part, number, value)
    ensures FieldsFrom(part + more, fields) == FieldsFrom(more, fields[number := value])
  {
    hide FieldBody, Consume, IsBody;
    var tag := Consume(part).value;
    ConsumeStable(part, more);
    BodyStable(tag.value % 8, tag.rest, more, value);
    assert part + more != [];
  }

  lemma {:induction false} FieldsRead(parts: seq<bytes>, entries: seq<Entry>, fields: Fields)
    requires AreFields(parts, entries)
    ensures FieldsFrom(Concat(parts), fields) == Ok(fields + LastWins(entries))
    decreases |parts|
  {
    hide IsField;
    if parts == [] {
      assert fields + LastWins(entries) == fields;
    } else {
      var first, tail := entries[0], entries[1..];
      assert IsField(parts[0], first.number, first.value);
      FieldReads(parts[0], first.number, first.value, Concat(parts[1..]), fields);
      assert AreFields(parts[1..], tail);
      FieldsRead(parts[1..], tail, fields[first.number := first.value]);
      LastWinsCons(entries);
      UpdateThenMerge(fields, first.number, first.value, LastWins(tail));
    }
  }

  /** The first field of an accepted message. */
  lemma FirstField(s: bytes) returns (part: bytes, number: nat, value: Field, rest: bytes)
    requires s != [] && FieldsFrom(s, map[]).Ok?
    ensures s == part + rest && IsField(part, number, value) && |rest| < |s|
  {
    hide Consume, FieldBody, IsBody;
    var tag := Consume(s).value;
    var tagBytes := ConsumeCut(s);
    number := tag.value / 8;
    var body := FieldBody(tag.value % 8, tag.rest).value;
    value, rest := body.value, body.rest;
    var bodyBytes := BodyCut(tag.value % 8, tag.rest);
    part := tagBytes + bodyBytes;
    ConsumeStable(tagBytes, bodyBytes);
    assert [] + bodyBytes == bodyBytes;
    assert tagBytes + (bodyBytes + rest) == part + rest;
  }

  lemma BodyCut(wire: nat, s: bytes) returns (used: bytes)
    ensures var r := FieldBody(wire, s); r.Ok? ==> s == used + r.value.rest && IsBody(wire, used, r.value.value)
  {
    hide Consume;
    used := [];
    var r := FieldBody(wire, s);
    if r.Ok? {
      if wire == 0 {
        used := ConsumeCut(s);
      } else if wire == 2 {
        used := BlobCut(s);
      } else {
        used := s[..if wire == 1 then 8 else 4];
      }
    }
  }

  lemma BlobCut(s: bytes) returns (used: bytes)
    requires FieldBody(2, s).Ok?
    ensures var r := FieldBody(2, s).value;
            s == used + r.rest && r.value.Blob? && Consume(used) == Ok(Parsed(|r.value.raw|, r.value.raw))
  {
    hide Consume;
    var size := Consume(s).value;
    var sizeBytes := ConsumeCut(s);
    var raw := size.rest[..size.value];
    ConsumeStable(sizeBytes, raw);
    used := sizeBytes + raw;
    assert size.rest == raw + size.rest[size.value..] && [] + raw == raw;
    assert sizeBytes + (raw + size.rest[size.value..]) == used + size.rest[size.value..];
  }

  lemma {:induction false} FieldsFound(s: bytes, fields: Fields) returns (parts: seq<bytes>, entries: seq<Entry>)
    ensures FieldsFrom(s, fields).Ok? ==> AreFields(parts, entries) && Concat(parts) == s
    decreases |s|
  {
    parts, entries := [], [];
    if s != [] && FieldsFrom(s, fields).Ok? {
      StartIrrelevant(s, fields);
      var part, number, value, rest := FirstField(s);
      FieldReads(part, number, value, rest, fields);
      var moreParts, moreEntries := FieldsFound(rest, fields[number := value]);
      parts, entries := [part] + moreParts, [Entry(number, value)] + moreEntries;
      hide IsField, FieldsFrom;
      assert parts[1..] == moreParts;
    }
  }

  /** Whether a message is accepted does not depend on the fields read before. */
  lemma {:induction false} StartIrrelevant(s: bytes, fields: Fields)
    ensures FieldsFrom(s, fields).Ok? <==> FieldsFrom(s, map[]).Ok?
  {
    StartsAlike(s, fields, map[]);
  }

  lemma {:induction false} StartsAlike(s: bytes, left: Fields, right: Fields)
    ensures FieldsFrom(s, left).Ok? <==> FieldsFrom(s, right).Ok?
    decreases |s|
  {
    hide Consume, FieldBody;
    if s != [] && Consume(s).Ok? {
      var tag := Consume(s).value;
      var body := FieldBody(tag.value % 8, tag.rest);
      if body.Ok? {
        var number := tag.value / 8;
        StartsAlike(body.value.rest, left[number := body.value.value], right[number := body.value.value]);
      }
    }
  }

  /** A message is accepted with some fields if and only if it is a sequence of fields on the
      wire, of which the last of each number is kept. */
  lemma MessageExact(data: bytes, fields: Fields)
    ensures ParseFields(data) == Ok(fields)
            <==> exists parts, entries ::
                   AreFields(parts, entries) && Concat(parts) == data && LastWins(entries) == fields
  {
    hide FieldsFrom, AreFields, Concat, LastWins;
    var foundParts, foundEntries := FieldsFound(data, map[]);
    if ParseFields(data).Ok? {
      FieldsRead(foundParts, foundEntries, map[]);
      assert map[] + LastWins(foundEntries) == LastWins(foundEntries);
    }
    forall parts, entries | AreFields(parts, entries) && Concat(parts) == data && LastWins(entries) == fields
      ensures ParseFields(data) == Ok(fields)
    {
      FieldsRead(parts, entries, map[]);
      assert map[] + LastWins(entries) == LastWins(entries);
    }
  }

  // ---------------------------------------------------------------- typed access

  /** An integer is read from a field that is absent or a varint, as the one number of 32 bits
      with a sign that is congruent to it; from no other. Bytes likewise from a field that is
      absent or has a length. */
  lemma AccessExact(fields: Fields, number: nat, default: nat, blank: bytes)
    ensures var r, n := IntField(fields, number, default),
                        if number in fields && fields[number].Number? then fields[number].n else default;
            && (r.Ok? <==> number !in fields || fields[number].Number?)
            && (r.Ok? ==> -0x8000_0000 <= r.value < 0x8000_0000 && (n - r.value) % 0x1_0000_0000 == 0)
    ensures BytesField(fields, number, blank)
            == if number !in fields then Ok(blank)
               else if fields[number].Blob? then Ok(fields[number].raw)
               else Err(WireMismatch)
  {
  }
}
