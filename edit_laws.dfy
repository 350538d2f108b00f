/** Laws about several edits in a row.

    - A backspace just after an inserted character restores the document.
    - Typing a run of characters at one position costs new pieces only for
      the first character: every later one lands at the end of the piece
      holding the character before it, which ends at the last slot of the
      add buffer, so `is_appendable` holds and that piece grows instead.
 */
module EditLaws {
  import opened Pieces
  import opened PieceEdits

  /** `delete(i + 1)` right after `insert(c, i)` gives the old document back. */
  lemma InsertThenDelete(rows: seq<Piece>, original: seq<char>, add: seq<char>, c: char, i: nat)
    requires WellFormed(rows, original, add) && i <= Total(rows)
    ensures WellFormed(DeleteRows(InsertRows(rows, |add| + 1, i), i + 1), original, add + [c])
    ensures Text(DeleteRows(InsertRows(rows, |add| + 1, i), i + 1), original, add + [c]) == Text(rows, original, add)
  {
    var r := InsertRows(rows, |add| + 1, i);
    InsertRowsText(rows, original, add, c, i);
    DeleteRowsText(r, original, add + [c], i + 1);
    CutInserted(Text(rows, original, add), Text(r, original, add + [c]), i, c);
  }

  /** Cutting the character just spliced in at i gives the sequence back. */
  lemma CutInserted(d: seq<char>, e: seq<char>, i: nat, c: char)
    requires i <= |d| && e == d[..i] + [c] + d[i..]
    ensures e[..i] + e[i + 1..] == d
  {
    assert e[..i] == d[..i] && e[i + 1..] == d[i..];
    assert d[..i] + d[i..] == d;
  }

  /** The rows after typing n characters at positions i, i + 1, ...; the add
      buffer holds `addLen` characters before the first one is pushed. */
  function Type(rows: seq<Piece>, addLen: nat, i: nat, n: nat): seq<Piece>
    decreases n
  {
    if n == 0 then rows else Type(InsertRows(rows, addLen + 1, i), addLen + 1, i + 1, n - 1)
  }

  /** Typing s at i splices s into the document at i. */
  lemma {:induction false} TypeText(rows: seq<Piece>, original: seq<char>, add: seq<char>, i: nat, s: seq<char>)
    requires WellFormed(rows, original, add) && i <= Total(rows)
    ensures WellFormed(Type(rows, |add|, i, |s|), original, add + s)
    ensures Text(Type(rows, |add|, i, |s|), original, add + s)
         == Text(rows, original, add)[..i] + s + Text(rows, original, add)[i..]
    decreases |s|
  {
    if s == [] {
      assert add + s == add;
      SpliceNothing(Text(rows, original, add), i);
    } else {
      var d := Text(rows, original, add);
      var r := TypeFirst(rows, original, add, i, s);
      var e := Text(r, original, add + [s[0]]);
      TypeText(r, original, add + [s[0]], i + 1, s[1..]);
      SpliceTyped(Type(r, |add + [s[0]]|, i + 1, |s[1..]|), original, add, s, d, e, i);
    }
  }

  /** The rows r after typing s[0] at i: the document has s[0] spliced in at
      i, and typing the rest of s at i + 1 on r is typing all of s. */
  lemma TypeFirst(rows: seq<Piece>, original: seq<char>, add: seq<char>, i: nat, s: seq<char>) returns (r: seq<Piece>)
    requires WellFormed(rows, original, add) && i <= Total(rows) && s != []
    ensures WellFormed(r, original, add + [s[0]]) && Total(r) == Total(rows) + 1
    ensures Text(r, original, add + [s[0]]) == Text(rows, original, add)[..i] + [s[0]] + Text(rows, original, add)[i..]
    ensures Type(rows, |add|, i, |s|) == Type(r, |add + [s[0]]|, i + 1, |s[1..]|)
  {
    r := InsertRows(rows, |add| + 1, i);
    InsertRowsText(rows, original, add, s[0], i);
    TypeStep(rows, |add|, i, s, |add + [s[0]]|, r);
  }

  /** The rows t that hold the rest of s spliced in after s[0] hold all of s. */
  lemma SpliceTyped(t: seq<Piece>, original: seq<char>, add: seq<char>, s: seq<char>, d: seq<char>, e: seq<char>, i: nat)
    requires s != [] && i <= |d| && e == d[..i] + [s[0]] + d[i..]
    requires WellFormed(t, original, add + [s[0]] + s[1..])
    requires Text(t, original, add + [s[0]] + s[1..]) == e[..i + 1] + s[1..] + e[i + 1..]
    ensures WellFormed(t, original, add + s)
    ensures Text(t, original, add + s) == d[..i] + s + d[i..]
  {
    PushFirst(add, s);
    SpliceRest(d, e, i, s);
  }

  /** One step of `Type`, with the rows after the first insert named. */
  lemma TypeStep(rows: seq<Piece>, addLen: nat, i: nat, s: seq<char>, pushed: nat, r: seq<Piece>)
    requires s != [] && pushed == addLen + 1 && r == InsertRows(rows, pushed, i)
    ensures Type(rows, addLen, i, |s|) == Type(r, pushed, i + 1, |s[1..]|)
  {
  }

  lemma PushFirst(add: seq<char>, s: seq<char>)
    requires s != []
    ensures add + [s[0]] + s[1..] == add + s
  {
    assert [s[0]] + s[1..] == s;
  }

  lemma SpliceNothing(d: seq<char>, i: nat)
    requires i <= |d|
    ensures d[..i] + [] + d[i..] == d
  {
    assert d == d[..i] + d[i..];
  }

  /** Splicing s[0] at i and then the rest of s at i + 1 splices s at i. */
  lemma SpliceRest(d: seq<char>, e: seq<char>, i: nat, s: seq<char>)
    requires i <= |d| && s != []
    requires e == d[..i] + [s[0]] + d[i..]
    ensures e[..i + 1] + s[1..] + e[i + 1..] == d[..i] + s + d[i..]
  {
    assert e[..i + 1] == d[..i] + [s[0]];
    assert e[i + 1..] == d[i..];
    assert [s[0]] + s[1..] == s;
  }

  /** Where an insert puts its character: it is the last character of piece
      q, which ends at document position i + 1 and at the add buffer's end. */
  lemma InsertLands(rows: seq<Piece>, addLen: nat, i: nat) returns (q: nat)
    requires addLen > 0 && i <= Total(rows)
    ensures q < |InsertRows(rows, addLen, i)|
    ensures InsertRows(rows, addLen, i)[q].buffer == Add
    ensures InsertRows(rows, addLen, i)[q].start + InsertRows(rows, addLen, i)[q].length == addLen
    ensures Total(InsertRows(rows, addLen, i)[..q + 1]) == i + 1
  {
    var r := InsertRows(rows, addLen, i);
    var piece := NewPiece(addLen);
    match Locate(rows, i)
    case None =>
      assert rows == [] && r == [piece] && r[..1] == [piece];
      q := 0;
    case Some(Position(row, k)) =>
      var p := rows[row];
      if k == 0 {
        assert r[..1] == [piece];
        q := 0;
      } else if k == p.length {
        if IsAppendable(p, addLen) {
          assert r[..row + 1] == rows[..row] + [p.(length := p.length + 1)];
          TotalAppend(rows[..row], [p.(length := p.length + 1)]);
          q := row;
        } else {
          assert r[..row + 2] == rows[..row + 1] + [piece];
          TotalAppend(rows[..row + 1], [piece]);
          TotalStep(rows, row);
          q := row + 1;
        }
      } else {
        var head := Piece(p.buffer, p.start, k);
        assert r[..row + 2] == rows[..row] + [head, piece];
        TotalAppend(rows[..row], [head, piece]);
        TotalPair(head, piece);
        q := row + 1;
      }
  }

  lemma TotalPair(p: Piece, q: Piece)
    ensures Total([p, q]) == p.length + q.length
  {
    assert [q][1..] == [];
    assert Total([q]) == q.length;
    assert [p, q][1..] == [q];
  }

  /** Once the last character typed ends piece q at the add buffer's end,
      the next character typed right after it grows piece q. */
  lemma NextInsertCoalesces(rows: seq<Piece>, addLen: nat, q: nat, i: nat)
    requires NonEmptyPieces(rows) && q < |rows|
    requires rows[q].buffer == Add && rows[q].start + rows[q].length == addLen
    requires i == Total(rows[..q + 1])
    ensures InsertRows(rows, addLen + 1, i) == rows[q := rows[q].(length := rows[q].length + 1)]
  {
    LocateAtEnd(rows, q, i);
  }

  /** Growing piece q keeps the pieces non-empty, and piece q now ends one
      position later in the document. */
  lemma GrowPiece(rows: seq<Piece>, q: nat)
    requires NonEmptyPieces(rows) && q < |rows|
    ensures NonEmptyPieces(rows[q := rows[q].(length := rows[q].length + 1)])
    ensures Total(rows[q := rows[q].(length := rows[q].length + 1)][..q + 1]) == Total(rows[..q + 1]) + 1
  {
    var g := rows[q].(length := rows[q].length + 1);
    var r := rows[q := g];
    UpdateIsReplace(rows, q, g);
    assert [g][1..] == [];
    assert rows == rows[..q] + rows[q..];
    assert rows[q..] == [rows[q]] + rows[q + 1..];
    NonEmptyAppend(rows[..q], rows[q..]);
    NonEmptyAppend([rows[q]], rows[q + 1..]);
    NonEmptyAppend(rows[..q], [g]);
    NonEmptyAppend(rows[..q] + [g], rows[q + 1..]);
    assert r[..q] == rows[..q];
    TotalStep(r, q);
    TotalStep(rows, q);
  }

  /** After the first character, typing never adds a piece. */
  lemma {:induction false} TypeCoalesced(rows: seq<Piece>, addLen: nat, q: nat, i: nat, n: nat)
    requires NonEmptyPieces(rows) && q < |rows|
    requires rows[q].buffer == Add && rows[q].start + rows[q].length == addLen
    requires i == Total(rows[..q + 1])
    ensures |Type(rows, addLen, i, n)| == |rows|
    decreases n
  {
    if n > 0 {
      NextInsertCoalesces(rows, addLen, q, i);
      GrowPiece(rows, q);
      TypeCoalesced(rows[q := rows[q].(length := rows[q].length + 1)], addLen + 1, q, i + 1, n - 1);
    }
  }

  /** Typing a run of n + 1 characters leaves exactly as many pieces as the
      first character alone does: at most two more than before. */
  lemma TypeRunPieces(rows: seq<Piece>, original: seq<char>, add: seq<char>, i: nat, n: nat)
    requires WellFormed(rows, original, add) && i <= Total(rows)
    ensures |Type(rows, |add|, i, n + 1)| == |InsertRows(rows, |add| + 1, i)| <= |rows| + 2
  {
    var r := InsertRows(rows, |add| + 1, i);
    InsertRowsText(rows, original, add, ' ', i);
    var q := InsertLands(rows, |add| + 1, i);
    TypeCoalesced(r, |add| + 1, q, i + 1, n);
  }

  /** Typing n + 1 characters is typing one, then n more. */
  lemma TypeUnfold(rows: seq<Piece>, addLen: nat, i: nat, n: nat)
    ensures Type(rows, addLen, i, n + 1) == Type(InsertRows(rows, addLen + 1, i), addLen + 1, i + 1, n)
  {
  }

  /** Typing on at the end of a table that is one add-buffer piece, which
      ends at the add buffer's end, keeps it one piece. */
  lemma {:induction false} TypeOnSingle(start: nat, m: nat, n: nat)
    requires m > 0
    ensures Type([Piece(Add, start, m)], start + m, m, n) == [Piece(Add, start, m + n)]
    decreases n
  {
    if n > 0 {
      var r := [Piece(Add, start, m)];
      assert r[..1] == r;
      NextInsertCoalesces(r, start + m, 0, m);
      assert r[0 := Piece(Add, start, m + 1)] == [Piece(Add, start, m + 1)];
      TypeUnfold(r, start + m, m, n - 1);
      TypeOnSingle(start, m + 1, n - 1);
    }
  }

  /** Typing into an empty table leaves a single add-buffer piece holding
      the whole run. */
  lemma TypeIntoEmpty(addLen: nat, n: nat)
    requires n > 0
    ensures Type([], addLen, 0, n) == [Piece(Add, addLen, n)]
  {
    TypeUnfold([], addLen, 0, n - 1);
    assert InsertRows([], addLen + 1, 0) == [Piece(Add, addLen, 1)];
    TypeOnSingle(addLen, 1, n - 1);
  }
}
