/** What the pieces of a list are, and that joining pieces and scanning them again is the
    identity. */
module CsvLaws {
  import opened Csv

  /** A piece lies in the text from `low` on, is not empty, holds no comma, and has no
      blank at either end. */
  ghost predicate IsPiece(text: string, piece: Piece, low: nat) {
    var stop := piece.offset + piece.length;
    && low <= piece.offset && 0 < piece.length && stop <= |text|
    && (forall k :: piece.offset <= k < stop ==> text[k] != ',')
    && text[piece.offset] !in " \t" && text[stop - 1] !in " \t"
  }

  lemma TrimmedIsPiece(text: string, i: nat, e: nat)
    requires i <= e <= |text| && forall k :: i <= k < e ==> text[k] != ','
    ensures |Trimmed(text, i, e)| <= 1
    ensures forall piece :: piece in Trimmed(text, i, e) ==>
              IsPiece(text, piece, i) && piece.offset + piece.length <= e
  {
  }

  ghost predicate CommaBetween(text: string, from: nat, to: nat) {
    exists c :: from <= c < to <= |text| && text[c] == ','
  }

  /** Pieces of the text from `low` on, one after another with a comma between. */
  ghost predicate InOrder(text: string, found: seq<Piece>, low: nat) {
    && (forall k :: 0 <= k < |found| ==> IsPiece(text, found[k], low))
    && (forall j, k :: 0 <= j < k < |found| ==>
          CommaBetween(text, found[j].offset + found[j].length, found[k].offset))
  }

  /** Some piece holds position `i`. */
  ghost predicate Covered(found: seq<Piece>, i: int) {
    exists k :: 0 <= k < |found| && found[k].offset <= i < found[k].offset + found[k].length
  }

  /** Every character that is neither a comma nor blank lies in a piece. */
  ghost predicate CoversAll(text: string, found: seq<Piece>, low: nat) {
    forall i :: low <= i < |text| && text[i] !in ", \t" ==> Covered(found, i)
  }

  lemma InOrderAppend(text: string, field: seq<Piece>, rest: seq<Piece>, i: nat, e: nat)
    requires |field| <= 1 && InOrder(text, rest, e + 1) && i <= e
    requires rest != [] ==> e < |text| && text[e] == ','
    requires forall piece :: piece in field ==> IsPiece(text, piece, i) && piece.offset + piece.length <= e
    ensures InOrder(text, field + rest, i)
  {
    var found := field + rest;
    forall k | 0 <= k < |found|
      ensures IsPiece(text, found[k], i)
    {
      assert k < |field| ==> found[k] in field;
    }
    forall j, k | 0 <= j < k < |found|
      ensures CommaBetween(text, found[j].offset + found[j].length, found[k].offset)
    {
      assert found[k] == rest[k - |field|] && IsPiece(text, found[k], e + 1);
      if j < |field| {
        assert found[j] in field;
        assert text[e] == ',';
      } else {
        assert found[j] == rest[j - |field|];
      }
    }
  }

  lemma TrimmedCovers(text: string, i: nat, e: nat, k: nat)
    requires i <= k < e <= |text| && text[k] !in " \t"
    ensures Covered(Trimmed(text, i, e), k)
  {
    var s := TrimStart(text, i, e);
    var t := TrimEnd(text, s, e);
    assert Trimmed(text, i, e)[0] == Piece(s, t - s);
  }

  lemma CoveredByField(text: string, i: nat, e: nat, rest: seq<Piece>)
    requires i <= e <= |text| && (e < |text| ==> text[e] == ',' && CoversAll(text, rest, e + 1))
    ensures CoversAll(text, Trimmed(text, i, e) + rest, i)
  {
    hide Trimmed;
    var field := Trimmed(text, i, e);
    forall k | i <= k < |text| && text[k] !in ", \t"
      ensures Covered(field + rest, k)
    {
      if k < e {
        TrimmedCovers(text, i, e, k);
        var j :| 0 <= j < |field| && field[j].offset <= k < field[j].offset + field[j].length;
        assert (field + rest)[j] == field[j];
      } else {
        var j :| 0 <= j < |rest| && rest[j].offset <= k < rest[j].offset + rest[j].length;
        assert (field + rest)[|field| + j] == rest[j];
      }
    }
  }

  /** The pieces that scanning finds are pieces, in order with a comma between any two, and
      leave out nothing but commas and blanks. */
  lemma {:induction false} PiecesOrdered(text: string, i: nat)
    requires i <= |text|
    ensures InOrder(text, PiecesFrom(text, i), i) && CoversAll(text, PiecesFrom(text, i), i)
    decreases |text| - i
  {
    hide IsPiece, Trimmed, PiecesFrom, InOrder, CoversAll;
    var e := FieldEnd(text, i);
    FieldStep(text, i, e);
    TrimmedIsPiece(text, i, e);
    if e < |text| {
      PiecesOrdered(text, e + 1);
      InOrderAppend(text, Trimmed(text, i, e), PiecesFrom(text, e + 1), i, e);
      CoveredByField(text, i, e, PiecesFrom(text, e + 1));
    } else {
      InOrderAppend(text, Trimmed(text, i, e), [], i, e);
      CoveredByField(text, i, e, []);
    }
  }

  // ---------------------------------------------------------------- join and scan

  /** A text that a list can hold as a piece of its own. */
  ghost predicate Clean(item: string) {
    && item != [] && item[0] !in " \t" && item[|item| - 1] !in " \t"
    && forall k :: 0 <= k < |item| ==> item[k] != ','
  }

  function Join(items: seq<string>): string {
    if items == [] then [] else if |items| == 1 then items[0] else items[0] + "," + Join(items[1..])
  }

  function Texts(text: string, pieces: seq<Piece>): seq<string> {
    if pieces == [] then [] else [TextOf(text, pieces[0])] + Texts(text, pieces[1..])
  }

  lemma FieldEndIs(text: string, i: nat, e: nat)
    requires i <= e <= |text| && (e < |text| ==> text[e] == ',')
    requires forall k :: i <= k < e ==> text[k] != ','
    ensures FieldEnd(text, i) == e
  {
  }

  /** A field with nothing to trim. */
  lemma TrimmedIs(text: string, i: nat, e: nat)
    requires i < e <= |text| && !Blank(text[i]) && !Blank(text[e - 1])
    ensures Trimmed(text, i, e) == [Piece(i, e - i)]
  {
  }

  lemma CleanField(text: string, i: nat, e: nat)
    requires i <= e <= |text| && Clean(text[i..e]) && (e == |text| || text[e] == ',')
    ensures FieldEnd(text, i) == e && Trimmed(text, i, e) == [Piece(i, e - i)]
  {
    hide Trimmed, FieldEnd;
    var item := text[i..e];
    forall k | i <= k < e
      ensures text[k] == item[k - i]
    {
    }
    FieldEndIs(text, i, e);
    TrimmedIs(text, i, e);
  }

  lemma SplitAtComma(text: string, i: nat, item: string, tail: string)
    requires i <= |text| && text[i..] == item + "," + tail
    ensures var e := i + |item|;
            e < |text| && text[i..e] == item && text[e] == ',' && text[e + 1..] == tail
  {
    var e, rest := i + |item|, text[i..];
    assert rest[..|item|] == item && rest[|item|] == ',' && rest[|item| + 1..] == tail;
    assert text[i..e] == rest[..|item|] && text[e + 1..] == rest[|item| + 1..];
  }

  /** The first field, then what scanning behind its comma finds. */
  lemma FoundField(text: string, i: nat, e: nat, rest: seq<string>)
    requires i <= e <= |text| && Clean(text[i..e]) && (e == |text| || text[e] == ',')
    requires if e < |text| then Texts(text, PiecesFrom(text, e + 1)) == rest else rest == []
    ensures Texts(text, PiecesFrom(text, i)) == [text[i..e]] + rest
  {
    hide PiecesFrom, FieldEnd, Trimmed, Clean;
    CleanField(text, i, e);
    FieldStep(text, i, e);
    var found := if e < |text| then PiecesFrom(text, e + 1) else [];
    assert PiecesFrom(text, i) == [Piece(i, e - i)] + found;
    assert ([Piece(i, e - i)] + found)[1..] == found;
    assert TextOf(text, Piece(i, e - i)) == text[i..e];
  }

  lemma {:induction false} RescanFrom(text: string, i: nat, items: seq<string>)
    requires forall k :: 0 <= k < |items| ==> Clean(items[k])
    requires i <= |text| && text[i..] == Join(items)
    ensures Texts(text, PiecesFrom(text, i)) == items
    decreases |items|
  {
    hide PiecesFrom, FieldEnd, Clean;
    if items == [] {
      NothingAtEnd(text);
      assert i == |text|;
    } else {
      JoinCons(items);
      var item, rest := items[0], items[1..];
      hide Join, Texts;
      if rest == [] {
        assert text[i..|text|] == item;
        FoundField(text, i, |text|, []);
      } else {
        SplitAtComma(text, i, item, Join(rest));
        RescanFrom(text, i + |item| + 1, rest);
        FoundField(text, i, i + |item|, rest);
      }
    }
  }

  lemma JoinCons(items: seq<string>)
    requires items != []
    ensures items == [items[0]] + items[1..]
    ensures Join(items) == if items[1..] == [] then items[0] else items[0] + "," + Join(items[1..])
  {
  }

  /** Scanning a list of clean texts joined by commas gives back the texts. */
  lemma Rescan(items: seq<string>)
    requires forall k :: 0 <= k < |items| ==> Clean(items[k])
    ensures Texts(Join(items), Pieces(Join(items))) == items
  {
    RescanFrom(Join(items), 0, items);
  }
}
