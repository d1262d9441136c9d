/** The comma-separated lists of a bond prospectus (`tdx_bond_csv_pieces` and
    `tdx_bond_csv_numbers`). */
module Csv {
  import opened Arithmetic
  import opened Options

  /** A piece of the text, by position. */
  datatype Piece = Piece(offset: nat, length: nat)

  const FLOWS_MAX := 64

  predicate Blank(c: char) {
    c == ' ' || c == '\t'
  }

  // ---------------------------------------------------------------- what the scanner should find

  /** The first comma at or after `i`, or the end. */
  function FieldEnd(text: string, i: nat): (e: nat)
    requires i <= |text|
    ensures i <= e <= |text| && (e < |text| ==> text[e] == ',')
    ensures forall k :: i <= k < e ==> text[k] != ','
    decreases |text| - i
  {
    if i == |text| || text[i] == ',' then i else FieldEnd(text, i + 1)
  }

  function TrimStart(text: string, i: nat, e: nat): (s: nat)
    requires i <= e <= |text|
    ensures i <= s <= e && (s < e ==> !Blank(text[s]))
    ensures forall k :: i <= k < s ==> Blank(text[k])
    decreases e - i
  {
    if i < e && Blank(text[i]) then TrimStart(text, i + 1, e) else i
  }

  function TrimEnd(text: string, s: nat, e: nat): (t: nat)
    requires s <= e <= |text|
    ensures s <= t <= e && (s < t ==> !Blank(text[t - 1]))
    ensures forall k :: t <= k < e ==> Blank(text[k])
  {
    if s < e && Blank(text[e - 1]) then TrimEnd(text, s, e - 1) else e
  }

  /** The field in [i, e) without its blanks, unless nothing is left of it. */
  function Trimmed(text: string, i: nat, e: nat): seq<Piece>
    requires i <= e <= |text|
  {
    var s := TrimStart(text, i, e);
    var t := TrimEnd(text, s, e);
    if s < t then [Piece(s, t - s)] else []
  }

  /** The text from `i` on, split at commas, each field trimmed, empty ones dropped. */
  function PiecesFrom(text: string, i: nat): seq<Piece>
    requires i <= |text|
    decreases |text| - i
  {
    var e := FieldEnd(text, i);
    Trimmed(text, i, e) + if e < |text| then PiecesFrom(text, e + 1) else []
  }

  function Pieces(text: string): seq<Piece> {
    PiecesFrom(text, 0)
  }

  function First<T>(s: seq<T>, count: nat): seq<T> {
    if count <= |s| then s[..count] else s
  }

  // ---------------------------------------------------------------- the scanner

  /** `PiecesFrom`, one field at a time. */
  lemma FieldStep(text: string, i: nat, e: nat)
    requires i <= |text| && e == FieldEnd(text, i)
    ensures PiecesFrom(text, i) == Trimmed(text, i, e) + if e < |text| then PiecesFrom(text, e + 1) else []
  {
    hide Trimmed, FieldEnd;
  }

  lemma SkipOne(text: string, i: nat)
    requires i < |text| && (text[i] == ',' || Blank(text[i]))
    ensures PiecesFrom(text, i) == PiecesFrom(text, i + 1)
  {
    hide PiecesFrom;
    var e := FieldEnd(text, i);
    FieldStep(text, i, e);
    if text[i] == ',' {
      assert Trimmed(text, i, i) == [];
    } else {
      assert FieldEnd(text, i + 1) == e;
      FieldStep(text, i + 1, e);
      assert TrimStart(text, i, e) == TrimStart(text, i + 1, e);
    }
  }

  lemma NothingAtEnd(text: string)
    ensures PiecesFrom(text, |text|) == []
  {
  }

  /** A field that starts at a character that is neither a comma nor blank. */
  lemma TakeField(text: string, start: nat, e: nat, stop: nat)
    requires start < |text| && text[start] != ',' && !Blank(text[start])
    requires e == FieldEnd(text, start) && stop == TrimEnd(text, start, e)
    ensures start < stop
    ensures PiecesFrom(text, start)
            == [Piece(start, stop - start)] + PiecesFrom(text, e)
  {
    hide PiecesFrom;
    TrimKeepsFirst(text, start, e);
    FieldStep(text, start, e);
    assert Trimmed(text, start, e) == [Piece(start, stop - start)];
    if e < |text| {
      SkipOne(text, e);
    } else {
      NothingAtEnd(text);
    }
  }

  lemma {:induction false} TrimKeepsFirst(text: string, start: nat, e: nat)
    requires start < e <= |text| && !Blank(text[start])
    ensures start < TrimEnd(text, start, e)
    decreases e
  {
    if Blank(text[e - 1]) {
      TrimKeepsFirst(text, start, e - 1);
    }
  }

  lemma FirstOf<T>(found: seq<T>, rest: seq<T>, capacity: nat)
    requires |found| == capacity || (|found| < capacity && rest == [])
    ensures First(found + rest, capacity) == found
  {
    assert (found + rest)[..|found|] == found;
  }

  /** The scanner in one pass: `out` receives the first `capacity` pieces. */
  method CsvPieces(text: array?<char>, length: nat, out: array?<Piece>, capacity: nat) returns (count: nat)
    requires text != null ==> length <= text.Length
    requires out != null ==> capacity <= out.Length
    modifies if out == null then {} else {out}
    ensures text == null || out == null || capacity == 0 ==> count == 0
    ensures text != null && out != null && capacity > 0 ==>
              count <= capacity && out[..count] == First(Pieces(text[..length]), capacity)
    ensures out != null ==> forall k :: count <= k < out.Length ==> out[k] == old(out[k])
  {
    hide PiecesFrom, First, Trimmed, TrimStart;
    count := 0;
    if text == null || out == null || capacity == 0 {
      return;
    }
    ghost var content := text[..length];
    ghost var all := Pieces(content);
    var index := 0;
    while index < length
      invariant index <= length && count <= capacity
      invariant all == out[..count] + PiecesFrom(content, index)
      invariant forall k :: count <= k < out.Length ==> out[k] == old(out[k])
    {
      while index < length && (text[index] == ',' || text[index] == ' ' || text[index] == '\t')
        modifies {}
        invariant index <= length
        invariant all == out[..count] + PiecesFrom(content, index)
      {
        SkipOne(content, index);
        index := index + 1;
      }
      var start := index;
      while index < length && text[index] != ','
        modifies {}
        invariant start <= index <= length
        invariant FieldEnd(content, start) == FieldEnd(content, index)
      {
        index := index + 1;
      }
      var stop := index;
      while stop > start && (text[stop - 1] == ' ' || text[stop - 1] == '\t')
        modifies {}
        invariant start <= stop <= index
        invariant TrimEnd(content, start, index) == TrimEnd(content, start, stop)
      {
        stop := stop - 1;
      }
      if start < length {
        TakeField(content, start, index, stop);
      }
      if stop == start {
        continue;
      }
      if count >= capacity {
        FirstOf(out[..count], PiecesFrom(content, start), capacity);
        return;
      }
      ghost var before := out[..count];
      out[count] := Piece(start, stop - start);
      assert out[..count + 1] == before + [Piece(start, stop - start)];
      count := count + 1;
    }
    NothingAtEnd(content);
    FirstOf(out[..count], [], capacity);
  }

  // ---------------------------------------------------------------- numbers

  function TextOf(text: string, piece: Piece): string {
    if piece.offset + piece.length <= |text| then text[piece.offset..piece.offset + piece.length] else []
  }

  /** `number` is the C library's reading of a text; a text longer than 63 characters is
      not read at all. */
  function ReadNumber(text: string, piece: Piece, number: string -> Option<real>): Option<real> {
    if piece.length >= 64 then None else number(TextOf(text, piece))
  }

  /** The pieces that read as numbers, in order. */
  function NumbersOf(text: string, pieces: seq<Piece>, number: string -> Option<real>): seq<real>
    decreases |pieces|
  {
    if pieces == [] then [] else
    var before := NumbersOf(text, pieces[..|pieces| - 1], number);
    match ReadNumber(text, pieces[|pieces| - 1], number)
    case None => before
    case Some(value) => before + [value]
  }

  lemma NothingRead(text: string, number: string -> Option<real>)
    ensures NumbersOf(text, [], number) == []
  {
  }

  lemma NumbersStep(text: string, pieces: seq<Piece>, k: nat, number: string -> Option<real>)
    requires k < |pieces|
    ensures var before, read := NumbersOf(text, pieces[..k], number), ReadNumber(text, pieces[k], number);
            NumbersOf(text, pieces[..k + 1], number) == if read.None? then before else before + [read.value]
  {
    assert pieces[..k + 1][..k] == pieces[..k];
  }

  function Numbers(text: string, capacity: nat, number: string -> Option<real>): seq<real> {
    NumbersOf(text, First(Pieces(text), Min(capacity, FLOWS_MAX)), number)
  }

  ghost predicate AllWithin(text: string, pieces: seq<Piece>) {
    forall k :: 0 <= k < |pieces| ==> pieces[k].offset + pieces[k].length <= |text|
  }

  lemma TrimmedWithin(text: string, i: nat, e: nat)
    requires i <= e <= |text|
    ensures AllWithin(text, Trimmed(text, i, e))
  {
  }

  lemma {:induction false} InBounds(text: string, i: nat)
    requires i <= |text|
    ensures AllWithin(text, PiecesFrom(text, i))
    decreases |text| - i
  {
    hide PiecesFrom, Trimmed;
    var e := FieldEnd(text, i);
    FieldStep(text, i, e);
    TrimmedWithin(text, i, e);
    if e < |text| {
      InBounds(text, e + 1);
      var rest := PiecesFrom(text, e + 1);
      forall k | 0 <= k < |Trimmed(text, i, e) + rest|
        ensures var piece := (Trimmed(text, i, e) + rest)[k]; piece.offset + piece.length <= |text|
      {
      }
    }
  }

  lemma SliceOfPrefix(text: array<char>, length: nat, low: nat, high: nat)
    requires low <= high <= length <= text.Length
    ensures text[low..high] == text[..length][low..high]
  {
  }

  method CsvNumbers(text: array?<char>, length: nat, out: array?<real>, capacity: nat,
                    number: string -> Option<real>) returns (written: nat)
    requires text != null ==> length <= text.Length
    requires out != null ==> capacity <= out.Length
    modifies if out == null then {} else {out}
    ensures text == null || out == null || capacity == 0 ==> written == 0
    ensures text != null && out != null && capacity > 0 ==>
              written <= Min(capacity, FLOWS_MAX)
              && out[..written] == Numbers(text[..length], capacity, number)
  {
    hide PiecesFrom, NumbersOf;
    written := 0;
    if out == null || capacity == 0 {
      return;
    }
    var pieces := new Piece[FLOWS_MAX];
    var count := CsvPieces(text, length, pieces, Min(capacity, FLOWS_MAX));
    if text == null {
      return;
    }
    ghost var found := pieces[..count];
    assert NumbersOf(text[..length], [], number) == [] by {
      NothingRead(text[..length], number);
    }
    ghost var content := text[..length];
    InBounds(content, 0);
    assert AllWithin(content, found);
    for index := 0 to count
      invariant pieces[..count] == found && text[..length] == content
      invariant written <= index && out[..written] == NumbersOf(content, found[..index], number)
    {
      var piece := pieces[index];
      assert piece == found[index];
      NumbersStep(content, found, index, number);
      if piece.length >= 64 {
        continue;
      }
      var value := number(text[piece.offset..piece.offset + piece.length]);
      SliceOfPrefix(text, length, piece.offset, piece.offset + piece.length);
      if value.None? {
        continue;
      }
      ghost var before := out[..written];
      out[written] := value.value;
      assert out[..written + 1] == before + [value.value];
      written := written + 1;
    }
    assert found[..count] == found;
  }
}
