/** The growable byte buffer of tdx_bytes.c. */
module Buffer {
  import opened Wire

  /** The least that the C standard lets `SIZE_MAX` be (ISO/IEC 9899:2011, section 7.20.3). */
  const SMALLEST_LIMIT := 0xFFFF

  // ---------------------------------------------------------------- growth

  /** Doubling until `needed` fits, or exactly `needed` where doubling would pass `limit`,
      the largest value of a `size_t`. */
  function Doubled(capacity: nat, needed: nat, limit: nat): (grown: nat)
    requires 0 < capacity
    ensures grown >= needed && grown >= capacity
    ensures capacity <= limit && needed <= limit ==> grown <= limit
    decreases needed - capacity
  {
    if capacity >= needed then capacity
    else if capacity > limit / 2 then needed
    else Doubled(2 * capacity, needed, limit)
  }

  function Grown(capacity: nat, needed: nat, limit: nat): (grown: nat)
    ensures grown >= needed && grown >= capacity
    ensures 256 <= limit && capacity <= limit && needed <= limit ==> grown <= limit
  {
    if needed <= capacity then capacity
    else Doubled(if capacity > 0 then capacity else 256, needed, limit)
  }

  method NextCapacity(cap: nat, needed: nat, limit: nat) returns (capacity: nat)
    requires needed > cap
    ensures capacity == Grown(cap, needed, limit)
  {
    capacity := if cap > 0 then cap else 256;
    while capacity < needed
      invariant 0 < capacity && Doubled(capacity, needed, limit) == Grown(cap, needed, limit)
      decreases needed - capacity
    {
      if capacity > limit / 2 {
        capacity := needed;
        break;
      }
      capacity := 2 * capacity;
    }
  }

  // ---------------------------------------------------------------- the buffer as a value

  /** `limit` is the largest size there is; `obtained` adds up every capacity ever obtained;
      `largest` is the largest length for which room was made. */
  datatype Contained = Contained(limit: nat, contents: bytes, capacity: nat, obtained: nat, largest: nat)

  function Empty(limit: nat): Contained {
    Contained(limit, [], 0, 0, 0)
  }

  /** Whether room for `extra` more bytes can be had; `memory` says whether the allocator
      would grant a larger block. */
  predicate CanReserve(s: Contained, extra: nat, memory: bool) {
    var needed := |s.contents| + extra;
    needed <= s.limit && (needed <= s.capacity || memory)
  }

  function Reserved(s: Contained, extra: nat, memory: bool): Contained {
    var needed := |s.contents| + extra;
    if !CanReserve(s, extra, memory) then s
    else
      var capacity := Grown(s.capacity, needed, s.limit);
      Contained(s.limit, s.contents, capacity, s.obtained + (if needed <= s.capacity then 0 else capacity),
            if needed > s.largest then needed else s.largest)
  }

  /** Appending nothing asks for nothing. */
  function Appended(s: Contained, data: bytes, memory: bool): Contained {
    if data == [] || !CanReserve(s, |data|, memory) then s
    else
      var r := Reserved(s, |data|, memory);
      r.(contents := s.contents + data)
  }

  function Zeros(count: nat): (zeros: bytes)
    ensures |zeros| == count && forall k :: 0 <= k < count ==> zeros[k] == 0
  {
    seq(count, _ => 0)
  }

  function Cleared(s: Contained): Contained {
    s.(contents := [])
  }

  /** One call. Each but the last says whether the allocator would grant more memory. */
  datatype Op =
    | Reserve(extra: nat, memory: bool)
    | Append(data: bytes, memory: bool)
    | Clear

  function Apply(s: Contained, op: Op): Contained {
    match op
    case Reserve(extra, memory) => Reserved(s, extra, memory)
    case Append(data, memory) => Appended(s, data, memory)
    case Clear => Cleared(s)
  }

  predicate Succeeds(s: Contained, op: Op) {
    match op
    case Reserve(extra, memory) => CanReserve(s, extra, memory)
    case Append(data, memory) => data == [] || CanReserve(s, |data|, memory)
    case Clear => true
  }

  class Buf {
    const limit: nat
    var data: array?<byte>
    var len: nat
    var cap: nat
    ghost var obtained: nat
    ghost var largest: nat

    ghost predicate Valid()
      reads this
    {
      && (data == null ==> cap == 0) && (data != null ==> data.Length == cap)
      && len <= cap <= limit && SMALLEST_LIMIT <= limit
    }

    ghost function Contents(): bytes
      reads this, data
      requires Valid()
    {
      if data == null then [] else data[..len]
    }

    ghost function State(): Contained
      reads this, data
      requires Valid()
    {
      Contained(limit, Contents(), cap, obtained, largest)
    }

    constructor (limit: nat)
      requires SMALLEST_LIMIT <= limit
      ensures Valid() && State() == Empty(limit) && data == null
    {
      this.limit := limit;
      data, len, cap := null, 0, 0;
      obtained, largest := 0, 0;
    }

    method Reserve(extra: nat, memory: bool) returns (ok: bool)
      requires Valid() && extra <= limit
      modifies this
      ensures Valid() && ok == CanReserve(old(State()), extra, memory)
      ensures State() == Reserved(old(State()), extra, memory)
      ensures len == old(len) && (data == old(data) || fresh(data))
      ensures ok ==> len + extra <= cap
    {
      hide Doubled;
      if extra > limit - len {
        return false;
      }
      var needed := len + extra;
      if needed <= cap {
        largest := if needed > largest then needed else largest;
        return true;
      }
      var capacity := NextCapacity(cap, needed, limit);
      if !memory {
        return false;
      }
      var grown := new byte[capacity];
      if data != null {
        forall i | 0 <= i < len {
          grown[i] := data[i];
        }
      }
      ghost var contents := Contents();
      assert grown[..len] == contents;
      data, cap := grown, capacity;
      obtained, largest := obtained + capacity, if needed > largest then needed else largest;
      ok := true;
    }

    method Push(value: byte, memory: bool) returns (ok: bool)
      requires Valid()
      modifies this, data
      ensures Valid() && ok == Succeeds(old(State()), Op.Append([value], memory))
      ensures State() == Apply(old(State()), Op.Append([value], memory))
      ensures data == old(data) || fresh(data)
    {
      ok := Reserve(1, memory);
      if ok {
        ghost var contents := Contents();
        data[len] := value;
        len := len + 1;
        assert data[..len] == contents + [value];
      }
    }

    /** The source must not overlap the buffer, as `memcpy` demands. Appending nothing
        succeeds even without a source. */
    method Append(source: array?<byte>, size: nat, memory: bool) returns (ok: bool)
      requires Valid() && size <= limit
      requires source != null ==> source != data && size <= source.Length
      modifies this, data
      ensures Valid()
      ensures source == null ==> ok == (size == 0) && State() == old(State())
      ensures source != null ==>
                && ok == Succeeds(old(State()), Op.Append(old(source[..size]), memory))
                && State() == Apply(old(State()), Op.Append(old(source[..size]), memory))
      ensures data == old(data) || fresh(data)
    {
      if size == 0 {
        return true;
      }
      if source == null {
        return false;
      }
      hide Grown;
      ghost var given := source[..size];
      ok := Reserve(size, memory);
      if ok {
        ghost var contents := Contents();
        forall i | 0 <= i < size {
          data[len + i] := source[i];
        }
        len := len + size;
        assert data[..len] == contents + given;
      }
    }

    method AppendZeros(count: nat, memory: bool) returns (ok: bool)
      requires Valid() && count <= limit
      modifies this, data
      ensures Valid() && ok == Succeeds(old(State()), Op.Append(Zeros(count), memory))
      ensures State() == Apply(old(State()), Op.Append(Zeros(count), memory))
      ensures data == old(data) || fresh(data)
    {
      if count == 0 {
        return true;
      }
      ok := Reserve(count, memory);
      if ok {
        ghost var contents := Contents();
        forall i | 0 <= i < count {
          data[len + i] := 0;
        }
        len := len + count;
        assert data[..len] == contents + Zeros(count);
      }
    }

    /** Two bytes, the low one first. */
    method AppendU16le(value: nat, memory: bool) returns (ok: bool)
      requires Valid() && value < 0x1_0000
      modifies this, data
      ensures Valid() && ok == Succeeds(old(State()), Op.Append(Put16(value), memory))
      ensures State() == Apply(old(State()), Op.Append(Put16(value), memory))
      ensures data == old(data) || fresh(data)
    {
      var raw := new byte[2][value % 256, value / 256 % 256];
      assert raw[..2] == Put16(value);
      ok := Append(raw, 2, memory);
    }

    method AppendU32le(value: nat, memory: bool) returns (ok: bool)
      requires Valid() && value < TWO_32
      modifies this, data
      ensures Valid() && ok == Succeeds(old(State()), Op.Append(Put32(value), memory))
      ensures State() == Apply(old(State()), Op.Append(Put32(value), memory))
      ensures data == old(data) || fresh(data)
    {
      var raw := new byte[4][value % 256, value / 256 % 256, value / 0x1_0000 % 256, value / 0x100_0000 % 256];
      Shifted(value);
      assert raw[..4] == Put32(value);
      ok := Append(raw, 4, memory);
    }

    method ClearAll()
      requires Valid()
      modifies this
      ensures Valid() && State() == Apply(old(State()), Op.Clear) && data == old(data)
    {
      len := 0;
    }

    method Free()
      requires Valid()
      modifies this
      ensures Valid() && State() == Empty(limit) && data == null
    {
      data, len, cap := null, 0, 0;
      obtained, largest := 0, 0;
    }
  }

  lemma Shifted(value: nat)
    requires value < TWO_32
    ensures Put32(value)
            == [value % 256, value / 256 % 256, value / 0x1_0000 % 256, value / 0x100_0000 % 256]
  {
    var first := value / 256;
    var second := first / 256;
    assert second == value / 0x1_0000 && second / 256 == value / 0x100_0000;
    assert value % 0x1_0000 == value % 256 + 256 * (first % 256);
  }
}
