/** The subset of the Protocol Buffers wire format that the cloud client speaks: a
    printer, a reader, and why the reader inverts the printer. */
module Protobuf {
  import opened Arithmetic
  import opened Wire
  import opened Cursor

  /** A field as the reader keeps it; the wire type decides the case. */
  datatype Field = Number(n: nat) | Fixed64(raw: bytes) | Blob(raw: bytes) | Fixed32(raw: bytes) {
    function WireType(): nat {
      match this
      case Number(_) => 0
      case Fixed64(_) => 1
      case Blob(_) => 2
      case Fixed32(_) => 5
    }
  }

  type Fields = map<nat, Field>

  // ---------------------------------------------------------------- printing

  function PutVarint(value: nat): (s: bytes)
    ensures |s| >= 1
  {
    if value < 128 then [value] else [value % 128 + 128] + PutVarint(value / 128)
  }

  method PbVarint(value: int) returns (r: Result<bytes>)
    ensures r == if 0 <= value < TWO_64 then Ok(PutVarint(value)) else Err(Varint64)
  {
    var result: bytes, rest := [], value;
    :- Need(0 <= value < TWO_64, Varint64);
    while rest >= 128
      invariant rest >= 0 && result + PutVarint(rest) == PutVarint(value)
    {
      result := result + [rest % 128 + 128];
      rest := rest / 128;
    }
    r := Ok(result + [rest]);
  }

  /** A field as the client prints it: an integer, or bytes behind their length. */
  function PutField(number: nat, value: Field): bytes
    requires value.Number? || value.Blob?
  {
    PutVarint(number * 8 + value.WireType()) + PutBody(value)
  }

  function PutBody(value: Field): bytes
    requires value.Number? || value.Blob?
  {
    if value.Number? then PutVarint(value.n) else PutVarint(|value.raw|) + value.raw
  }

  /** What `pb_field` can print without leaving the 64-bit range. */
  predicate Printable(number: nat, value: Field) {
    && (value.Number? || value.Blob?)
    && number > 0 && number * 8 + value.WireType() < TWO_64
    && (if value.Number? then value.n else |value.raw|) < TWO_64
  }

  // ---------------------------------------------------------------- reading

  /** The reader's varint loop: `shift` runs through 0, 7, ..., 63. */
  function ConsumeMore(s: bytes, value: nat, shift: nat): (r: Result<Parsed<nat>>)
    ensures r.Ok? ==> |r.value.rest| < |s|
    decreases |s|
  {
    if shift >= 70 then Err(Unterminated)
    else if |s| == 0 then Err(Truncated)
    else if shift >= 63 && s[0] > 1 then Err(Varint64)
    else
      var sum := value + Shl(s[0] % 128, shift);
      if s[0] < 128 then Ok(Parsed(sum, s[1..])) else ConsumeMore(s[1..], sum, shift + 7)
  }

  function Consume(s: bytes): (r: Result<Parsed<nat>>)
    ensures r.Ok? ==> |r.value.rest| < |s|
  {
    ConsumeMore(s, 0, 0)
  }

  function FieldBody(wire: nat, s: bytes): (r: Result<Parsed<Field>>)
    ensures r.Ok? ==> |r.value.rest| <= |s|
  {
    if wire == 0 then
      var value :- Consume(s);
      Ok(Parsed(Number(value.value), value.rest))
    else if wire == 2 then
      var size :- Consume(s);
      var raw :- Take(size.rest, size.value);
      Ok(Parsed(Blob(raw.value), raw.rest))
    else if wire == 1 then
      var raw :- Take(s, 8);
      Ok(Parsed(Fixed64(raw.value), raw.rest))
    else if wire == 5 then
      var raw :- Take(s, 4);
      Ok(Parsed(Fixed32(raw.value), raw.rest))
    else Err(BadWire)
  }

  /** Reads fields to the end of `s`, each one overwriting an earlier one of its number. */
  function FieldsFrom(s: bytes, fields: Fields): Result<Fields>
    decreases |s|
  {
    if s == [] then Ok(fields) else
    var tag :- Consume(s);
    var number := tag.value / 8;
    :- Need(number > 0, ZeroField);
    var body :- FieldBody(tag.value % 8, tag.rest);
    FieldsFrom(body.rest, fields[number := body.value])
  }

  function ParseFields(data: bytes): Result<Fields> {
    FieldsFrom(data, map[])
  }

  method ConsumeFrom(reader: Reader) returns (r: Result<nat>)
    requires reader.offset <= |reader.data|
    modifies reader`offset
    ensures Reads(r, Consume(old(reader.Unread())), reader.Unread())
    ensures r.Ok? ==> old(reader.offset) < reader.offset <= |reader.data|
  {
    var value, shift := 0, 0;
    while shift < 70
      invariant old(reader.offset) <= reader.offset <= |reader.data| && value >= 0 && shift >= 0
      invariant ConsumeMore(reader.Unread(), value, shift) == Consume(old(reader.Unread()))
      decreases 70 - shift
    {
      assert reader.Unread() == [] || reader.Unread()[1..] == reader.data[reader.offset + 1..];
      var byte :- reader.Byte();
      :- Need(shift < 63 || byte <= 1, Varint64);
      value := value + Shl(byte % 128, shift);
      if byte < 128 {
        return Ok(value);
      }
      shift := shift + 7;
    }
    r := Err(Unterminated);
  }

  method FieldBodyFrom(reader: Reader, wire: nat) returns (r: Result<Field>)
    requires reader.offset <= |reader.data|
    modifies reader`offset
    ensures Reads(r, FieldBody(wire, old(reader.Unread())), reader.Unread())
    ensures r.Ok? ==> old(reader.offset) <= reader.offset <= |reader.data|
  {
    if wire == 0 {
      var value :- ConsumeFrom(reader);
      r := Ok(Number(value));
    } else if wire == 2 {
      var size :- ConsumeFrom(reader);
      var raw :- reader.Take(size);
      r := Ok(Blob(raw));
    } else if wire == 1 {
      var raw :- reader.Take(8);
      r := Ok(Fixed64(raw));
    } else if wire == 5 {
      var raw :- reader.Take(4);
      r := Ok(Fixed32(raw));
    } else {
      r := Err(BadWire);
    }
  }

  method PbFields(data: bytes) returns (r: Result<Fields>)
    ensures r == ParseFields(data)
  {
    var reader := new Reader(data, 0);
    var fields: Fields := map[];
    while reader.offset < |data|
      invariant reader.data == data && reader.offset <= |data|
      invariant FieldsFrom(reader.Unread(), fields) == ParseFields(data)
      decreases |data| - reader.offset
    {
      var tag :- ConsumeFrom(reader);
      var number, wire := tag / 8, tag % 8;
      :- Need(number > 0, ZeroField);
      var value :- FieldBodyFrom(reader, wire);
      fields := fields[number := value];
    }
    r := Ok(fields);
  }

  // ---------------------------------------------------------------- typed access

  /** An integer field: the low 32 bits, read as a signed number. */
  function IntField(fields: Fields, number: nat, default: nat): (r: Result<int>)
    ensures r.Ok? ==> -TWO_31 <= r.value < TWO_31
  {
    var field := if number in fields then fields[number] else Number(default);
    if field.Number? then Ok(Signed32(field.n % TWO_32)) else Err(WireMismatch)
  }

  function BytesField(fields: Fields, number: nat, default: bytes): Result<bytes> {
    var field := if number in fields then fields[number] else Blob(default);
    if field.Blob? then Ok(field.raw) else Err(WireMismatch)
  }
}
