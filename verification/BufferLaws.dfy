/** What a buffer holds and what it costs, over any run of calls; and that little-endian
    writes read back. */
module BufferLaws {
  import opened Arithmetic
  import opened Wire
  import opened Buffer

  // ---------------------------------------------------------------- runs

  function Run(s: Contained, ops: seq<Op>): Contained
    decreases |ops|
  {
    if ops == [] then s else Run(Apply(s, ops[0]), ops[1..])
  }

  /** Which calls of a run report success. */
  function Outcomes(s: Contained, ops: seq<Op>): (oks: seq<bool>)
    ensures |oks| == |ops|
    decreases |ops|
  {
    if ops == [] then [] else [Succeeds(s, ops[0])] + Outcomes(Apply(s, ops[0]), ops[1..])
  }

  /** Every byte the caller was told had been appended by the calls after the last clear. */
  function Log(ops: seq<Op>, oks: seq<bool>): bytes
    requires |oks| == |ops|
  {
    if ops == [] then [] else
    var last := |ops| - 1;
    var before := Log(ops[..last], oks[..last]);
    match ops[last]
    case Clear => []
    case Reserve(_, _) => before
    case Append(data, _) => if oks[last] then before + data else before
  }

  lemma {:induction false} RunSnoc(s: Contained, ops: seq<Op>, op: Op)
    ensures Run(s, ops + [op]) == Apply(Run(s, ops), op)
    ensures Outcomes(s, ops + [op]) == Outcomes(s, ops) + [Succeeds(Run(s, ops), op)]
    decreases |ops|
  {
    if ops == [] {
      assert [] + [op] == [op];
      assert Outcomes(s, [op]) == [Succeeds(s, op)] + Outcomes(Apply(s, op), []);
    } else {
      assert (ops + [op])[1..] == ops[1..] + [op];
      RunSnoc(Apply(s, ops[0]), ops[1..], op);
      assert Outcomes(s, ops + [op])
             == [Succeeds(s, ops[0])] + (Outcomes(Apply(s, ops[0]), ops[1..]) + [Succeeds(Run(s, ops), op)]);
    }
  }

  /** After any run the contents are exactly the bytes reported appended since the last
      clear. */
  lemma {:induction false} ContentsAreLog(limit: nat, ops: seq<Op>)
    ensures Run(Empty(limit), ops).contents == Log(ops, Outcomes(Empty(limit), ops))
    decreases |ops|
  {
    if ops != [] {
      var last := |ops| - 1;
      var before, op := ops[..last], ops[last];
      assert before + [op] == ops;
      RunSnoc(Empty(limit), before, op);
      ContentsAreLog(limit, before);
      assert Outcomes(Empty(limit), ops)[..last] == Outcomes(Empty(limit), before);
      assert Outcomes(Empty(limit), ops)[last] == Succeeds(Run(Empty(limit), before), op);
    }
  }

  /** The calls of a run that succeeded. */
  function Successful(ops: seq<Op>, oks: seq<bool>): seq<Op>
    requires |oks| == |ops|
  {
    if ops == [] then [] else (if oks[0] then [ops[0]] else []) + Successful(ops[1..], oks[1..])
  }

  /** A call that fails changes nothing, neither contents nor capacity: leaving the failed
      calls out of a run leads to the same buffer. */
  lemma {:induction false} FailuresChangeNothing(s: Contained, ops: seq<Op>)
    ensures Run(s, Successful(ops, Outcomes(s, ops))) == Run(s, ops)
    decreases |ops|
  {
    if ops != [] {
      var after := Apply(s, ops[0]);
      var rest := Successful(ops[1..], Outcomes(after, ops[1..]));
      assert Outcomes(s, ops)[1..] == Outcomes(after, ops[1..]);
      FailuresChangeNothing(after, ops[1..]);
      if Succeeds(s, ops[0]) {
        assert ([ops[0]] + rest)[1..] == rest;
      } else {
        assert [] + rest == rest;
      }
    }
  }

  /** The length a call asks for. */
  function Needed(s: Contained, op: Op): nat {
    match op
    case Reserve(extra, _) => |s.contents| + extra
    case Append(data, _) => |s.contents| + |data|
    case Clear => 0
  }

  /** A call succeeds exactly when the length it asks for fits, into the largest size there is
      when memory is granted and into the block there is otherwise; clearing always does. */
  lemma WhenSucceeds(s: Contained, op: Op)
    requires |s.contents| <= s.capacity <= s.limit
    ensures Succeeds(s, op)
            <==> op.Clear? || Needed(s, op) <= if op.memory then s.limit else s.capacity
  {
  }

  // ---------------------------------------------------------------- cost

  /** The capacities a run has gone through, added up: each time it changes, the new one. */
  function Blocks(s: Contained, ops: seq<Op>): nat
    decreases |ops|
  {
    if ops == [] then 0 else
    var after := Apply(s, ops[0]);
    (if after.capacity != s.capacity then after.capacity else 0) + Blocks(after, ops[1..])
  }

  /** The largest length that a successful call of a run asks for, `least` if all are smaller. */
  function Asked(s: Contained, ops: seq<Op>, least: nat): nat
    decreases |ops|
  {
    if ops == [] then least else
    var needed := if Succeeds(s, ops[0]) then Needed(s, ops[0]) else 0;
    Asked(Apply(s, ops[0]), ops[1..], if needed > least then needed else least)
  }

  lemma ApplyAccounts(s: Contained, op: Op)
    requires |s.contents| <= s.largest
    ensures var after, needed := Apply(s, op), if Succeeds(s, op) then Needed(s, op) else 0;
            && after.obtained == s.obtained + (if after.capacity != s.capacity then after.capacity else 0)
            && after.largest == (if needed > s.largest then needed else s.largest)
            && |after.contents| <= after.largest
  {
    hide Doubled;
  }

  /** What a buffer says it has obtained, and the largest length it says it made room for, are
      those of the calls made. */
  lemma {:induction false} Accounts(s: Contained, ops: seq<Op>)
    requires |s.contents| <= s.largest
    ensures Run(s, ops).obtained == s.obtained + Blocks(s, ops)
    ensures Run(s, ops).largest == Asked(s, ops, s.largest)
    decreases |ops|
  {
    hide Apply, Succeeds, Needed;
    if ops != [] {
      ApplyAccounts(s, ops[0]);
      Accounts(Apply(s, ops[0]), ops[1..]);
    }
  }

  lemma {:induction false} ShlRises(k: nat, top: nat)
    requires k <= top
    ensures 256 <= Shl(256, k) <= Shl(256, top)
    ensures k < top ==> 2 * Shl(256, k) <= Shl(256, top)
    decreases top
  {
    if k < top {
      ShlRises(k, top - 1);
    } else if top > 0 {
      ShlRises(k - 1, top - 1);
    }
  }

  /** The largest value of a size of 9 + `top` bits. */
  function Limit(top: nat): nat {
    ShlRises(0, top);
    2 * Shl(256, top) - 1
  }

  /** The size up to which doubling never overflows: half the address space. */
  function Half(top: nat): nat {
    Shl(256, top)
  }

  /** Sizes of 16, 32 and 64 bits. */
  lemma Limits()
    ensures Limit(7) == 0xFFFF && Limit(23) == 0xFFFF_FFFF && Limit(55) == 0xFFFF_FFFF_FFFF_FFFF
  {
    ShlSeven(0x100, 0);
    ShlSeven(0x100, 7);
    ShlShl(0x100, 7, 7);
    ShlSeven(0x8000, 0);
    ShlShl(0x100, 14, 7);
    ShlSeven(0x40_0000, 0);
    assert Shl(0x100, 21) == 0x2000_0000;
    assert Shl(0x100, 23) == 4 * Shl(0x100, 21);
    ShlShl(0x100, 21, 7);
    ShlSeven(0x2000_0000, 0);
    ShlShl(0x100, 28, 7);
    ShlSeven(0x10_0000_0000, 0);
    ShlShl(0x100, 35, 7);
    ShlSeven(0x800_0000_0000, 0);
    ShlShl(0x100, 42, 7);
    ShlSeven(0x4_0000_0000_0000, 0);
    ShlShl(0x100, 49, 6);
    ShlSix(0x200_0000_0000_0000);
  }

  /** 256 doubled up to `top` times, none, or more than half the address space. */
  ghost predicate Stepped(capacity: nat, top: nat) {
    capacity == 0 || capacity > Half(top) || exists k: nat :: k <= top && capacity == Shl(256, k)
  }

  /** Capacities are bounded by the largest length asked for, and so is their sum by the
      last of them. */
  ghost predicate Amortised(s: Contained, top: nat) {
    && Stepped(s.capacity, top)
    && |s.contents| <= s.largest <= s.capacity
    && (s.capacity <= 256 || s.capacity < 2 * s.largest)
    && (s.capacity == 0 ==> s.obtained == 0)
    && s.obtained <= 2 * s.capacity
  }

  /** Where the doubling from a stepped capacity ends: at the first step that fits, short of
      twice what is needed, or past half the address space at exactly what is needed. */
  lemma {:induction false} DoubledSteps(capacity: nat, needed: nat, k: nat, top: nat)
    requires k <= top && capacity == Shl(256, k) && 0 < capacity < needed
    ensures needed <= Half(top) ==>
              && Stepped(Doubled(capacity, needed, Limit(top)), top)
              && 2 * capacity <= Doubled(capacity, needed, Limit(top)) < 2 * needed
    ensures needed > Half(top) ==> Doubled(capacity, needed, Limit(top)) == needed
    decreases needed - capacity
  {
    ShlRises(k, top);
    if k < top {
      assert Shl(256, k + 1) == 2 * capacity;
      assert Doubled(capacity, needed, Limit(top)) == Doubled(2 * capacity, needed, Limit(top));
      if 2 * capacity < needed {
        DoubledSteps(2 * capacity, needed, k + 1, top);
      }
    }
  }

  /** The capacity after growing from a stepped one. */
  lemma GrownSteps(capacity: nat, needed: nat, top: nat)
    requires Stepped(capacity, top) && capacity < needed
    ensures var grown := Grown(capacity, needed, Limit(top));
            && Stepped(grown, top)
            && (needed <= Half(top) ==>
                  2 * capacity <= grown && needed <= grown && (grown == 256 || grown < 2 * needed))
            && (needed > Half(top) ==> grown == needed)
  {
    ShlRises(0, top);
    if capacity <= Half(top) {
      var start := if capacity > 0 then capacity else 256;
      assert Shl(256, 0) == 256;
      var k: nat :| k <= top && start == Shl(256, k);
      if start < needed {
        DoubledSteps(start, needed, k, top);
      } else {
        assert Grown(capacity, needed, Limit(top)) == 256;
      }
    }
  }

  lemma ReserveStep(s: Contained, extra: nat, memory: bool, top: nat)
    requires Amortised(s, top) && s.limit == Limit(top)
    ensures var needed := |s.contents| + extra;
            Amortised(Reserved(s, extra, memory), top)
            <==> !CanReserve(s, extra, memory) || needed <= s.capacity || needed <= Half(top) || s.obtained <= needed
  {
    var needed := |s.contents| + extra;
    if CanReserve(s, extra, memory) && s.capacity < needed {
      hide Stepped, Doubled, Grown;
      var grown := Grown(s.capacity, needed, s.limit);
      GrownSteps(s.capacity, needed, top);
      assert Reserved(s, extra, memory) == Contained(s.limit, s.contents, grown, s.obtained + grown, needed);
      assert needed <= Half(top) ==> s.obtained + grown <= 2 * grown;
      assert needed > Half(top) ==> (s.obtained + grown <= 2 * grown <==> s.obtained <= needed);
    }
  }

  lemma AppendStep(s: Contained, data: bytes, memory: bool, top: nat)
    requires Amortised(s, top) && s.limit == Limit(top)
    ensures var needed := |s.contents| + |data|;
            Amortised(Appended(s, data, memory), top)
            <==> !CanReserve(s, |data|, memory) || needed <= s.capacity || needed <= Half(top) || s.obtained <= needed
  {
    hide Stepped, Grown;
    ReserveStep(s, |data|, memory, top);
  }

  /** One call keeps the cost bounded, unless it succeeds in growing the buffer past half the
      address space to a length that the blocks obtained before already exceed; then it does
      not. */
  lemma AmortisedStep(s: Contained, op: Op, top: nat)
    requires Amortised(s, top) && s.limit == Limit(top)
    ensures var needed := Needed(s, op);
            Amortised(Apply(s, op), top)
            <==> !Succeeds(s, op) || needed <= s.capacity || needed <= Half(top) || s.obtained <= needed
  {
    hide Stepped, Reserved;
    match op
    case Reserve(extra, memory) => ReserveStep(s, extra, memory, top);
    case Append(data, memory) => AppendStep(s, data, memory, top);
    case Clear =>
  }

  lemma ApplyLimit(s: Contained, op: Op)
    ensures Apply(s, op).limit == s.limit && Apply(s, op).largest >= s.largest
    ensures Succeeds(s, op) && Needed(s, op) > s.capacity && |s.contents| <= s.largest <= s.capacity ==>
              Apply(s, op).largest == Needed(s, op)
  {
    hide Doubled;
  }

  lemma {:induction false} RunLimit(s: Contained, ops: seq<Op>)
    ensures Run(s, ops).limit == s.limit
    decreases |ops|
  {
    hide Apply;
    if ops != [] {
      ApplyLimit(s, ops[0]);
      RunLimit(Apply(s, ops[0]), ops[1..]);
    }
  }

  lemma EmptyAmortised(top: nat)
    ensures Amortised(Empty(Limit(top)), top)
  {
  }

  /** Over any run that never needs more than half the address space, the capacity is the
      least of 256, 512 and so on that holds the largest length asked for, and all the blocks
      ever obtained add up to at most twice the last one. */
  lemma {:induction false} AmortisedRun(ops: seq<Op>, top: nat)
    requires Run(Empty(Limit(top)), ops).largest <= Half(top)
    ensures Amortised(Run(Empty(Limit(top)), ops), top)
    decreases |ops|
  {
    hide Apply, Succeeds, Limit, Half, Stepped;
    var start := Empty(Limit(top));
    if ops == [] {
      EmptyAmortised(top);
    } else {
      var last := |ops| - 1;
      var before := Run(start, ops[..last]);
      assert ops[..last] + [ops[last]] == ops;
      RunSnoc(start, ops[..last], ops[last]);
      RunLimit(start, ops[..last]);
      ApplyLimit(before, ops[last]);
      AmortisedRun(ops[..last], top);
      AmortisedStep(before, ops[last], top);
    }
  }

  lemma GrowExactly(s: Contained, size: nat, top: nat)
    requires Stepped(s.capacity, top) && s.contents == [] && s.largest <= s.capacity && s.limit == Limit(top)
    requires Half(top) < size <= s.limit && s.capacity < size
    ensures Apply(s, Op.Reserve(size, true)) == Contained(s.limit, [], size, s.obtained + size, size)
  {
    GrownSteps(s.capacity, size, top);
    hide Grown, Stepped;
  }

  lemma RunThree(s: Contained, a: Op, b: Op, c: Op)
    ensures Run(s, [a, b, c]) == Apply(Apply(Apply(s, a), b), c)
  {
    hide Apply;
    assert [a, b, c][1..] == [b, c] && [b, c][1..] == [c] && [c][1..] == [];
    assert Run(Apply(Apply(s, a), b), [c]) == Apply(Apply(Apply(s, a), b), c);
    assert Run(Apply(s, a), [b, c]) == Run(Apply(Apply(s, a), b), [c]);
  }

  /** Past half the address space growth is to exactly what is needed, and three such
      growths break the bound on the sum, whatever the width of a size. */
  lemma NotAmortised(top: nat)
    ensures var half := Half(top);
            var ops := [Op.Reserve(half + 1, true), Op.Reserve(half + 2, true), Op.Reserve(half + 3, true)];
            Run(Empty(Limit(top)), ops).obtained > 2 * Run(Empty(Limit(top)), ops).capacity
  {
    hide Apply;
    ShlRises(0, top);
    var start, half := Empty(Limit(top)), Half(top);
    var first, second, third := Op.Reserve(half + 1, true), Op.Reserve(half + 2, true), Op.Reserve(half + 3, true);
    GrowExactly(start, half + 1, top);
    GrowExactly(Apply(start, first), half + 2, top);
    GrowExactly(Apply(Apply(start, first), second), half + 3, top);
    RunThree(start, first, second, third);
  }

  // ---------------------------------------------------------------- little-endian scalars

  /** What a successful 32-bit append added reads back as the word appended, signed or not. */
  lemma AppendedWord(s: Contained, v: int, memory: bool)
    requires -TWO_31 <= v < TWO_31
    requires var op := Op.Append(Put32(Unsigned32(v)), memory); Succeeds(s, op)
    ensures var after := Apply(s, Op.Append(Put32(Unsigned32(v)), memory)).contents;
            && |after| == |s.contents| + 4 && after[..|s.contents|] == s.contents
            && Word32(after[|s.contents|..]) == Unsigned32(v)
            && Signed32(Word32(after[|s.contents|..])) == v
  {
    hide Put32, Word32, Reserved;
    var raw := Put32(Unsigned32(v));
    Word32Put32(Unsigned32(v));
    assert (s.contents + raw)[|s.contents|..] == raw;
  }
}
