/** The cursor that every reply parser works through, proved against the functions of
    module `Wire`. */
module Cursor {
  import opened Arithmetic
  import opened Wire

  /** What a cursor method returns and leaves unread, compared with its specification. */
  ghost predicate Reads<T>(r: Result<T>, spec: Result<Parsed<T>>, unread: bytes) {
    match spec
    case Ok(p) => r == Ok(p.value) && unread == p.rest
    case Err(e) => r == Err(e)
  }

  class Reader {
    const data: bytes
    var offset: nat

    constructor (data: bytes, offset: nat)
      ensures this.data == data && this.offset == offset
    {
      this.data, this.offset := data, offset;
    }

    /** A cursor may be created past the end; it then has nothing to read. */
    ghost function Unread(): bytes
      reads this
    {
      if offset <= |data| then data[offset..] else []
    }

    method Take(count: nat) returns (r: Result<bytes>)
      modifies this`offset
      ensures old(offset) <= |data| ==> Reads(r, Wire.Take(old(Unread()), count), Unread())
      ensures old(offset) > |data| ==> r == Err(Truncated)
      ensures r.Ok? ==> offset <= |data|
      ensures r.Err? ==> offset == old(offset)
    {
      if offset + count > |data| {
        return Err(Truncated);
      }
      assert data[offset..][..count] == data[offset..offset + count];
      assert data[offset..][count..] == data[offset + count..];
      r := Ok(data[offset..offset + count]);
      offset := offset + count;
    }

    method Byte() returns (r: Result<byte>)
      modifies this`offset
      ensures r == if old(offset) < |data| then Ok(data[old(offset)]) else Err(Truncated)
      ensures offset == if r.Ok? then old(offset) + 1 else old(offset)
      ensures r.Ok? ==> offset <= |data|
    {
      var raw :- Take(1);
      r := Ok(raw[0]);
    }

    method U16() returns (r: Result<nat>)
      modifies this`offset
      ensures Reads(r, Wire.U16(old(Unread())), Unread())
      ensures r.Ok? ==> offset <= |data|
    {
      var raw :- Take(2);
      r := Ok(Word16(raw[0], raw[1]));
    }

    method U32() returns (r: Result<nat>)
      modifies this`offset
      ensures Reads(r, Wire.U32(old(Unread())), Unread())
      ensures r.Ok? ==> offset <= |data|
    {
      var raw :- Take(4);
      r := Ok(Word32(raw));
    }

    method Varint() returns (r: Result<int>)
      modifies this`offset
      ensures Reads(r, Wire.Varint(old(Unread())), Unread())
      ensures r.Ok? ==> offset <= |data|
    {
      var first :- Byte();
      var magnitude :- Magnitude(first);
      r := Ok(if first / 64 % 2 == 1 then -magnitude else magnitude);
    }

    /** The loop of `Varint`: `first` has been read, and its top bit asks for more. */
    method Magnitude(first: byte) returns (r: Result<int>)
      requires offset <= |data|
      modifies this`offset
      ensures Reads(r, VarintMore(old(Unread()), first >= 128, first % 64, 6), Unread())
      ensures r.Ok? ==> offset <= |data|
    {
      var value, shift, byte := first % 64, 6, first;
      ghost var spec := VarintMore(Unread(), first >= 128, first % 64, 6);
      while byte >= 128
        invariant offset <= |data| && shift >= 0 && value >= 0
        invariant VarintMore(Unread(), byte >= 128, value, shift) == spec
        decreases |data| - offset
      {
        :- Need(shift < 55, VarintTooLong);
        assert data[offset..] == [] || data[offset..][1..] == data[offset + 1..];
        byte :- Byte();
        value := value + Shl(byte % 128, shift);
        shift := shift + 7;
      }
      r := Ok(value);
    }

    method End() returns (r: Outcome)
      ensures offset <= |data| ==> r == Need(Unread() == [], Residue)
      ensures offset > |data| ==> r == Fail(Residue)
    {
      r := Need(offset == |data|, Residue);
    }
  }
}
