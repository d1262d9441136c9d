/** Laws of the Protocol Buffers subset: the reader inverts the printer, with the last
    field of a number winning. */
module ProtobufLaws {
  import opened Arithmetic
  import opened Wire
  import opened Protobuf
  import VarintCodec

  lemma {:induction false} MoreRoundTrip(v: nat, rest: bytes, value: nat, shift: nat)
    requires shift <= 63 && shift % 7 == 0 && v < Pow2(64 - shift)
    ensures ConsumeMore(PutVarint(v) + rest, value, shift) == Ok(Parsed(value + Shl(v, shift), rest))
    decreases v
  {
    var s := PutVarint(v) + rest;
    if v < 128 {
      assert s[1..] == rest;
      if shift == 63 {
        assert Pow2(1) == 2;
      }
    } else {
      var tail := PutVarint(v / 128) + rest;
      assert s == [v % 128 + 128] + tail;
      assert s[1..] == tail;
      assert shift < 63 by {
        assert Pow2(1) == 2;
      }
      VarintCodec.FitsGroup(v, 57 - shift);
      MoreRoundTrip(v / 128, rest, value + Shl(v % 128, shift), shift + 7);
      VarintCodec.ShlUnshift(v, shift);
    }
  }

  lemma Pow64()
    ensures Pow2(64) == TWO_64
  {
    Pow2Seven(57);
    Pow2Seven(50);
    Pow2Seven(43);
    Pow2Seven(36);
    Pow2Seven(29);
    Pow2Seven(22);
    Pow2Seven(15);
    Pow2Seven(8);
    Pow2Seven(1);
  }

  lemma Pow2Seven(n: nat)
    ensures Pow2(n + 7) == 128 * Pow2(n)
  {
    ShlShl(1, n, 7);
    ShlSeven(Pow2(n), 0);
  }

  lemma ConsumeRoundTrip(v: nat, rest: bytes)
    requires v < TWO_64
    ensures Consume(PutVarint(v) + rest) == Ok(Parsed(v, rest))
  {
    Pow64();
    MoreRoundTrip(v, rest, 0, 0);
  }

  lemma PowOne()
    ensures Pow2(1) == 2
  {
  }

  /** An accepted varint adds `high` above what was collected before; `high` fits what is
      left of 64 bits, and its own shortest form is no longer than what was read. */
  lemma {:induction false} MoreAccepted(s: bytes, value: nat, shift: nat) returns (high: nat)
    requires shift <= 63 && shift % 7 == 0
    ensures var r := ConsumeMore(s, value, shift);
            && r != Err(Unterminated)
            && (r.Ok? ==>
                  && r.value.value == value + Shl(high, shift) && high < Pow2(64 - shift)
                  && |PutVarint(high)| <= |s| - |r.value.rest| <= 10 - shift / 7
                  && r.value.rest == s[|s| - |r.value.rest|..])
    decreases |s|
  {
    hide Shl, Pow2;
    high := 0;
    if |s| > 0 && !(shift >= 63 && s[0] > 1) {
      var low := s[0] as int % 128;
      if s[0] < 128 {
        high := low;
        if shift == 63 {
          PowOne();
        } else {
          VarintCodec.FitsGroup(low, 57 - shift);
          VarintCodec.PowZero();
          Pow2Grows(0, 57 - shift);
        }
      } else {
        var above := MoreAccepted(s[1..], value + Shl(low, shift), shift + 7);
        high := low + 128 * above;
        VarintCodec.ShlUnshift(high, shift);
        VarintCodec.FitsGroup(high, 57 - shift);
      }
    }
  }

  /** Every accepted varint is below 2^64, was read from one to ten bytes, and from no
      fewer than the printer would use; running out of rounds without a final byte
      cannot happen. */
  lemma ConsumeAccepted(s: bytes)
    ensures Consume(s) != Err(Unterminated)
    ensures var r := Consume(s);
            r.Ok? ==> && r.value.value < TWO_64
                      && |PutVarint(r.value.value)| <= |s| - |r.value.rest| <= 10
                      && r.value.rest == s[|s| - |r.value.rest|..]
  {
    Pow64();
    var high := MoreAccepted(s, 0, 0);
  }

  // ---------------------------------------------------------------- whole messages

  datatype Entry = Entry(number: nat, value: Field)

  ghost predicate AllPrintable(entries: seq<Entry>) {
    forall i :: 0 <= i < |entries| ==> Printable(entries[i].number, entries[i].value)
  }

  function Print(entries: seq<Entry>): bytes
    requires forall i :: 0 <= i < |entries| ==> entries[i].value.Number? || entries[i].value.Blob?
  {
    if entries == [] then []
    else PutField(entries[0].number, entries[0].value) + Print(entries[1..])
  }

  /** The value that the last entry of each number carries. */
  ghost function LastWins(entries: seq<Entry>): Fields {
    map number | number in (set i | 0 <= i < |entries| :: entries[i].number)
      :: entries[LastIndex(entries, number)].value
  }

  ghost predicate IsLast(entries: seq<Entry>, number: nat, i: nat) {
    && i < |entries| && entries[i].number == number
    && forall j :: i < j < |entries| ==> entries[j].number != number
  }

  ghost function LastIndex(entries: seq<Entry>, number: nat): (i: nat)
    requires exists k :: 0 <= k < |entries| && entries[k].number == number
    ensures IsLast(entries, number, i)
  {
    if entries[|entries| - 1].number == number then |entries| - 1
    else LastIndex(entries[..|entries| - 1], number)
  }

  lemma BodyRoundTrip(value: Field, rest: bytes)
    requires Printable(1, value)
    ensures FieldBody(value.WireType(), PutBody(value) + rest) == Ok(Parsed(value, rest))
  {
    if value.Number? {
      ConsumeRoundTrip(value.n, rest);
    } else {
      assert PutBody(value) + rest == PutVarint(|value.raw|) + (value.raw + rest);
      ConsumeRoundTrip(|value.raw|, value.raw + rest);
      TakeAppend(value.raw, rest);
    }
  }

  lemma FieldRoundTrip(number: nat, value: Field, rest: bytes, fields: Fields)
    requires Printable(number, value)
    ensures FieldsFrom(PutField(number, value) + rest, fields)
            == FieldsFrom(rest, fields[number := value])
  {
    var tag := number * 8 + value.WireType();
    assert PutField(number, value) + rest == PutVarint(tag) + (PutBody(value) + rest);
    ConsumeRoundTrip(tag, PutBody(value) + rest);
    BodyRoundTrip(value, rest);
    assert tag / 8 == number && tag % 8 == value.WireType();
  }

  /** Reading printed fields onto `fields` overwrites them with the last of each number. */
  lemma {:induction false} PrintedFields(entries: seq<Entry>, fields: Fields)
    requires AllPrintable(entries)
    ensures FieldsFrom(Print(entries), fields) == Ok(fields + LastWins(entries))
    decreases |entries|
  {
    if entries == [] {
      assert fields + LastWins(entries) == fields;
    } else {
      var first, tail := entries[0], entries[1..];
      FieldRoundTrip(first.number, first.value, Print(tail), fields);
      assert AllPrintable(tail);
      PrintedFields(tail, fields[first.number := first.value]);
      LastWinsCons(entries);
      UpdateThenMerge(fields, first.number, first.value, LastWins(tail));
    }
  }

  lemma UpdateThenMerge(fields: Fields, number: nat, value: Field, later: Fields)
    ensures fields[number := value] + later == fields + (map[number := value] + later)
  {
  }

  lemma LastWinsCons(entries: seq<Entry>)
    requires entries != []
    ensures LastWins(entries)
            == map[entries[0].number := entries[0].value] + LastWins(entries[1..])
  {
    var first, tail := entries[0], entries[1..];
    var whole := map[first.number := first.value] + LastWins(tail);
    forall number: nat
      ensures number in LastWins(entries) <==> number in whole
      ensures number in LastWins(entries) ==> LastWins(entries)[number] == whole[number]
    {
      if number in LastWins(tail) {
        var i := LastIndex(tail, number);
        assert entries[i + 1] == tail[i];
        LastIsUnique(entries, number, i + 1);
      } else {
        NotLater(entries, number);
        if number == first.number {
          LastIsUnique(entries, number, 0);
        }
      }
    }
  }

  lemma NotLater(entries: seq<Entry>, number: nat)
    requires entries != [] && number !in LastWins(entries[1..])
    ensures forall j :: 0 < j < |entries| ==> entries[j].number != number
  {
    forall j | 0 < j < |entries|
      ensures entries[j].number != number
    {
      assert entries[1..][j - 1] == entries[j];
    }
  }

  lemma LastIsUnique(entries: seq<Entry>, number: nat, i: nat)
    requires i < |entries| && entries[i].number == number
    requires forall j :: i < j < |entries| ==> entries[j].number != number
    ensures number in LastWins(entries) && LastIndex(entries, number) == i
  {
  }

  /** Reading what the printer wrote gives, for each field number, its last value. */
  lemma ParsePrint(entries: seq<Entry>)
    requires AllPrintable(entries)
    ensures ParseFields(Print(entries)) == Ok(LastWins(entries))
  {
    PrintedFields(entries, map[]);
    assert map[] + LastWins(entries) == LastWins(entries);
  }

  /** The 64-bit sign extension of an int32, as a peer sends it. */
  function SignExtended(v: int): nat
    requires -TWO_31 <= v < TWO_31
  {
    if v < 0 then v + TWO_64 else v
  }

  lemma OneField(number: nat, value: Field)
    requires Printable(number, value)
    ensures ParseFields(PutField(number, value)) == Ok(map[number := value])
  {
    FieldRoundTrip(number, value, [], map[]);
    hide PutField;
    assert PutField(number, value) + [] == PutField(number, value);
  }

  /** A printed int32 is recovered, and only the low 32 bits of the field matter. */
  lemma Int32RoundTrip(number: nat, v: int, default: nat)
    requires 0 < number < TWO_32 && -TWO_31 <= v < TWO_31
    ensures var fields := ParseFields(PutField(number, Number(SignExtended(v))));
            fields.Ok? && IntField(fields.value, number, default) == Ok(v)
  {
    var value := Number(SignExtended(v));
    OneField(number, value);
    hide PutField, ParseFields;
    assert SignExtended(v) % TWO_32 == if v < 0 then v + TWO_32 else v;
  }
}
