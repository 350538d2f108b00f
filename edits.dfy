/** The two edits of a piece table, as functions from the old piece
    sequence to the new one, and what they do to the document.

    Both edits look the index up with `Locate` (first row whose end is at
    or after the index) and then rewrite only the piece sequence: they
    coalesce, split, shrink or remove pieces, and never touch a character
    already stored in a buffer.
 */
module PieceEdits {
  import opened Pieces

  /** The coalescing test of insert. `addLen` is the add buffer's length
      after the new character was pushed: the piece must come from the add
      buffer and end exactly at the slot the new character now occupies.
      (The source compares with the length minus 2, one slot too early.) */
  predicate IsAppendable(p: Piece, addLen: nat)
  {
    p.buffer == Add && p.start + p.length + 1 == addLen
  }

  /** Growing an appendable piece by one appends exactly the pushed character. */
  lemma AppendableExtends(p: Piece, original: seq<char>, add: seq<char>, c: char)
    requires Fits(p, original, add)
    requires IsAppendable(p, |add| + 1)
    ensures Fits(p.(length := p.length + 1), original, add + [c])
    ensures Slice(p.(length := p.length + 1), original, add + [c]) == Slice(p, original, add) + [c]
  {
    var q := p.(length := p.length + 1);
    assert (add + [c])[p.start .. p.start + q.length] == add[p.start .. p.start + p.length] + [c];
  }

  /** The new piece insert creates: the last slot of the add buffer, length 1. */
  function NewPiece(addLen: nat): (p: Piece)
    requires addLen > 0
    ensures p.buffer == Add && p.start + p.length == addLen && p.length == 1
  {
    Piece(Add, addLen - 1, 1)
  }

  /** The pushed character is exactly what the new piece names. */
  lemma NewPieceText(original: seq<char>, add: seq<char>, c: char)
    ensures Fits(NewPiece(|add| + 1), original, add + [c])
    ensures Text([NewPiece(|add| + 1)], original, add + [c]) == [c]
  {
    assert Slice(NewPiece(|add| + 1), original, add + [c]) == [c];
  }

  /** The piece sequence after `insert(c, i)`, where `addLen` is the add
      buffer's length after c was pushed.
      - no piece found: if i is the document's end (the table is empty),
        the new piece is appended; otherwise nothing changes;
      - offset 0: the new piece goes before the found piece (this only
        happens in row 0, see Locate, so there is never a
        previous piece to coalesce with);
      - offset at the piece's end: grow the piece if it is appendable,
        otherwise put the new piece after it;
      - offset strictly inside: head, new piece, tail. */
  function InsertRows(rows: seq<Piece>, addLen: nat, i: nat): (r: seq<Piece>)
    requires addLen > 0
    ensures i > Total(rows) ==> r == rows
    ensures i <= Total(rows) ==> |rows| <= |r| <= |rows| + 2
  {
    var piece := NewPiece(addLen);
    match Locate(rows, i)
    case None => if i == Total(rows) then rows + [piece] else rows
    case Some(Position(row, k)) =>
      var p := rows[row];
      if k == 0 then
        rows[..row] + [piece] + rows[row..]
      else if k == p.length then
        if IsAppendable(p, addLen) then rows[row := p.(length := p.length + 1)]
        else rows[..row + 1] + [piece] + rows[row + 1..]
      else
        rows[..row] + [Piece(p.buffer, p.start, k), piece, Piece(p.buffer, p.start + k, p.length - k)] + rows[row + 1..]
  }

  /** `shrink_or_delete_entry`: the piece in `row` loses its last character;
      a piece of length 1 is removed instead of being left empty. */
  function ShrinkOrDelete(rows: seq<Piece>, row: nat): (r: seq<Piece>)
    requires row < |rows| && rows[row].length > 0
    ensures |r| == if rows[row].length == 1 then |rows| - 1 else |rows|
  {
    var p := rows[row];
    if p.length == 1 then rows[..row] + rows[row + 1..]
    else rows[row := p.(length := p.length - 1)]
  }

  /** The piece sequence after `delete(i)`, which removes the character
      just before i (a backspace at i).
      - no piece found (i past the end, or no rows): nothing changes;
      - offset 0 (only i == 0, in row 0): nothing before it, nothing changes;
      - offset at the piece's end: shrink or remove that piece;
      - offset k strictly inside: head of length k - 1 (dropped when empty)
        and tail from start + k. */
  function DeleteRows(rows: seq<Piece>, i: nat): (r: seq<Piece>)
    ensures i == 0 || i > Total(rows) ==> r == rows
    ensures |rows| - 1 <= |r| <= |rows| + 1
  {
    match Locate(rows, i)
    case None => rows
    case Some(Position(row, k)) =>
      var p := rows[row];
      if k == 0 then rows
      else if k == p.length then ShrinkOrDelete(rows, row)
      else
        var tail := Piece(p.buffer, p.start + k, p.length - k);
        if k == 1 then rows[row := tail]
        else rows[..row] + [Piece(p.buffer, p.start, k - 1), tail] + rows[row + 1..]
  }

  // ---- Proofs: what the edits do to the document --------------------------------

  /** Inserting c at offset k of the middle part S of A + S + B. */
  lemma SpliceInside(a: seq<char>, s: seq<char>, b: seq<char>, k: nat, c: char)
    requires k <= |s|
    ensures (a + s + b)[..|a| + k] + [c] + (a + s + b)[|a| + k..] == a + (s[..k] + [c] + s[k..]) + b
  {
    var d := a + s + b;
    assert d[..|a| + k] == a + s[..k];
    assert d[|a| + k..] == s[k..] + b;
  }

  /** Removing the character before offset k of the middle part S of A + S + B. */
  lemma CutInside(a: seq<char>, s: seq<char>, b: seq<char>, k: nat)
    requires 1 <= k <= |s|
    ensures (a + s + b)[..|a| + k - 1] + (a + s + b)[|a| + k..] == a + (s[..k - 1] + s[k..]) + b
  {
    var d := a + s + b;
    assert d[..|a| + k - 1] == a + s[..k - 1];
    assert d[|a| + k..] == s[k..] + b;
  }

  /** Replacing row `row` by well-formed pieces `mid` keeps the sequence well
      formed, and its text is the text before the row, mid's text, and the
      text after the row. */
  lemma TextReplace(rows: seq<Piece>, row: nat, mid: seq<Piece>, original: seq<char>, add: seq<char>)
    requires WellFormed(rows, original, add) && WellFormed(mid, original, add)
    requires row < |rows|
    ensures WellFormed(rows[..row], original, add) && WellFormed(rows[row + 1..], original, add)
    ensures WellFormed(rows[..row] + mid + rows[row + 1..], original, add)
    ensures Text(rows[..row] + mid + rows[row + 1..], original, add)
         == Text(rows[..row], original, add) + Text(mid, original, add) + Text(rows[row + 1..], original, add)
  {
    var before, after := rows[..row], rows[row + 1..];
    WellFormedCut(rows, row, original, add);
    assert rows[row..] == [rows[row]] + after;
    WellFormedAppend([rows[row]], after, original, add);
    WellFormedAppend(before, mid, original, add);
    WellFormedAppend(before + mid, after, original, add);
    TextAppend(before, mid, original, add);
    TextAppend(before + mid, after, original, add);
  }

  /** Replacing row `row` by pieces that read as its slice with c spliced in
      at offset k splices c into the document at that row's start plus k. */
  lemma SpliceRow(rows: seq<Piece>, row: nat, mid: seq<Piece>, original: seq<char>, add: seq<char>,
                  k: nat, c: char, i: nat, r: seq<Piece>)
    requires WellFormed(rows, original, add) && WellFormed(mid, original, add)
    requires row < |rows| && k <= rows[row].length && Fits(rows[row], original, add)
    requires Text(mid, original, add) == Slice(rows[row], original, add)[..k] + [c] + Slice(rows[row], original, add)[k..]
    requires i == Total(rows[..row]) + k
    requires r == rows[..row] + mid + rows[row + 1..]
    ensures WellFormed(r, original, add) && i <= Total(rows)
    ensures Text(r, original, add) == Text(rows, original, add)[..i] + [c] + Text(rows, original, add)[i..]
  {
    TextReplace(rows, row, mid, original, add);
    TextSplit(rows, row, original, add);
    SpliceInside(Text(rows[..row], original, add), Slice(rows[row], original, add),
                 Text(rows[row + 1..], original, add), k, c);
  }

  /** Replacing row `row` by pieces that read as its slice without the
      character before offset k removes that character from the document. */
  lemma CutRow(rows: seq<Piece>, row: nat, mid: seq<Piece>, original: seq<char>, add: seq<char>,
               k: nat, i: nat, r: seq<Piece>)
    requires WellFormed(rows, original, add) && WellFormed(mid, original, add)
    requires row < |rows| && 1 <= k <= rows[row].length && Fits(rows[row], original, add)
    requires Text(mid, original, add) == Slice(rows[row], original, add)[..k - 1] + Slice(rows[row], original, add)[k..]
    requires i == Total(rows[..row]) + k
    requires r == rows[..row] + mid + rows[row + 1..]
    ensures WellFormed(r, original, add) && 1 <= i <= Total(rows)
    ensures Text(r, original, add) == Text(rows, original, add)[..i - 1] + Text(rows, original, add)[i..]
  {
    TextReplace(rows, row, mid, original, add);
    TextSplit(rows, row, original, add);
    CutInside(Text(rows[..row], original, add), Slice(rows[row], original, add),
              Text(rows[row + 1..], original, add), k);
  }

  /** The text of one, two and three non-empty pieces. */
  lemma Text1(x: Piece, original: seq<char>, add: seq<char>)
    requires x.length > 0 && Fits(x, original, add)
    ensures WellFormed([x], original, add)
    ensures Text([x], original, add) == Slice(x, original, add)
  {
    assert [x][1..] == [];
  }

  lemma Text2(x: Piece, y: Piece, original: seq<char>, add: seq<char>)
    requires x.length > 0 && Fits(x, original, add)
    requires y.length > 0 && Fits(y, original, add)
    ensures WellFormed([x, y], original, add)
    ensures Text([x, y], original, add) == Slice(x, original, add) + Slice(y, original, add)
  {
    assert [x, y][1..] == [y];
    Text1(y, original, add);
  }

  lemma Text3(x: Piece, y: Piece, z: Piece, original: seq<char>, add: seq<char>)
    requires x.length > 0 && Fits(x, original, add)
    requires y.length > 0 && Fits(y, original, add)
    requires z.length > 0 && Fits(z, original, add)
    ensures WellFormed([x, y, z], original, add)
    ensures Text([x, y, z], original, add)
         == Slice(x, original, add) + Slice(y, original, add) + Slice(z, original, add)
  {
    assert [x, y, z][1..] == [y, z];
    Text2(y, z, original, add);
  }

  /** The two parts of a piece split at k are the prefix and suffix of its slice. */
  lemma SliceParts(p: Piece, k: nat, original: seq<char>, add: seq<char>)
    requires Fits(p, original, add)
    requires k <= p.length
    ensures Fits(Piece(p.buffer, p.start, k), original, add)
    ensures Fits(Piece(p.buffer, p.start + k, p.length - k), original, add)
    ensures Slice(Piece(p.buffer, p.start, k), original, add) == Slice(p, original, add)[..k]
    ensures Slice(Piece(p.buffer, p.start + k, p.length - k), original, add) == Slice(p, original, add)[k..]
  {
    SliceSplit(p, k, original, add);
  }

  /** Overwriting one row is replacing it by a one-piece sequence. */
  lemma UpdateIsReplace(rows: seq<Piece>, row: nat, x: Piece)
    requires row < |rows|
    ensures rows[row := x] == rows[..row] + [x] + rows[row + 1..]
  {
  }

  // Piece-level views of each rewrite: the pieces that replace one piece,
  // read as that piece's slice with a character spliced in or cut out.

  /** Insert at offset 0: the new piece goes before p. */
  lemma PlaceBefore(p: Piece, piece: Piece, c: char, original: seq<char>, add: seq<char>)
    requires p.length > 0 && Fits(p, original, add)
    requires piece.length > 0 && Fits(piece, original, add) && Slice(piece, original, add) == [c]
    ensures WellFormed([piece, p], original, add)
    ensures Text([piece, p], original, add)
         == Slice(p, original, add)[..0] + [c] + Slice(p, original, add)[0..]
  {
    Text2(piece, p, original, add);
    var s := Slice(p, original, add);
    assert s[..0] == [] && s[0..] == s;
  }

  /** Insert at p's end without coalescing: the new piece goes after p. */
  lemma PlaceAfter(p: Piece, piece: Piece, c: char, original: seq<char>, add: seq<char>)
    requires p.length > 0 && Fits(p, original, add)
    requires piece.length > 0 && Fits(piece, original, add) && Slice(piece, original, add) == [c]
    ensures WellFormed([p, piece], original, add)
    ensures Text([p, piece], original, add)
         == Slice(p, original, add)[..p.length] + [c] + Slice(p, original, add)[p.length..]
  {
    Text2(p, piece, original, add);
    var s := Slice(p, original, add);
    assert s[..p.length] == s && s[p.length..] == [];
  }

  /** Insert at p's end with coalescing: p grows over the pushed character. */
  lemma GrowOver(p: Piece, c: char, original: seq<char>, add: seq<char>)
    requires p.length > 0 && Fits(p, original, add)
    requires IsAppendable(p, |add| + 1)
    ensures Fits(p, original, add + [c])
    ensures WellFormed([p.(length := p.length + 1)], original, add + [c])
    ensures Text([p.(length := p.length + 1)], original, add + [c])
         == Slice(p, original, add + [c])[..p.length] + [c] + Slice(p, original, add + [c])[p.length..]
  {
    AppendableExtends(p, original, add, c);
    Text1(p.(length := p.length + 1), original, add + [c]);
    var s := Slice(p, original, add + [c]);
    assert s == Slice(p, original, add);
    assert s[..p.length] == s && s[p.length..] == [];
  }

  /** Insert strictly inside p: head, new piece, tail. */
  lemma SplitAround(p: Piece, k: nat, piece: Piece, c: char, original: seq<char>, add: seq<char>, mid: seq<Piece>)
    requires Fits(p, original, add) && 0 < k < p.length
    requires piece.length > 0 && Fits(piece, original, add) && Slice(piece, original, add) == [c]
    requires mid == [Piece(p.buffer, p.start, k), piece, Piece(p.buffer, p.start + k, p.length - k)]
    ensures WellFormed(mid, original, add)
    ensures Text(mid, original, add) == Slice(p, original, add)[..k] + [c] + Slice(p, original, add)[k..]
  {
    SliceParts(p, k, original, add);
    Text3(Piece(p.buffer, p.start, k), piece, Piece(p.buffer, p.start + k, p.length - k), original, add);
  }

  /** Delete of p's only character: nothing replaces it. */
  lemma DropOnly(p: Piece, original: seq<char>, add: seq<char>)
    requires Fits(p, original, add) && p.length == 1
    ensures Text([], original, add) == Slice(p, original, add)[..0] + Slice(p, original, add)[1..]
  {
    var s := Slice(p, original, add);
    assert s[..0] == [] && s[1..] == [];
  }

  /** Delete of p's last character: p shortened by one. */
  lemma DropLast(p: Piece, original: seq<char>, add: seq<char>)
    requires Fits(p, original, add) && p.length > 1
    ensures WellFormed([p.(length := p.length - 1)], original, add)
    ensures Text([p.(length := p.length - 1)], original, add)
         == Slice(p, original, add)[..p.length - 1] + Slice(p, original, add)[p.length..]
  {
    SliceParts(p, p.length - 1, original, add);
    assert p.(length := p.length - 1) == Piece(p.buffer, p.start, p.length - 1);
    Text1(p.(length := p.length - 1), original, add);
    var s := Slice(p, original, add);
    assert s[p.length..] == [];
  }

  /** Delete of p's first character: the tail of p from offset 1. */
  lemma DropFirst(p: Piece, original: seq<char>, add: seq<char>)
    requires Fits(p, original, add) && p.length > 1
    ensures WellFormed([Piece(p.buffer, p.start + 1, p.length - 1)], original, add)
    ensures Text([Piece(p.buffer, p.start + 1, p.length - 1)], original, add)
         == Slice(p, original, add)[..0] + Slice(p, original, add)[1..]
  {
    SliceParts(p, 1, original, add);
    Text1(Piece(p.buffer, p.start + 1, p.length - 1), original, add);
    var s := Slice(p, original, add);
    assert s[..0] == [];
  }

  /** Delete strictly inside p (past its first character): head and tail. */
  lemma CutPiece(p: Piece, k: nat, original: seq<char>, add: seq<char>, mid: seq<Piece>)
    requires Fits(p, original, add) && 1 < k < p.length
    requires mid == [Piece(p.buffer, p.start, k - 1), Piece(p.buffer, p.start + k, p.length - k)]
    ensures WellFormed(mid, original, add)
    ensures Text(mid, original, add) == Slice(p, original, add)[..k - 1] + Slice(p, original, add)[k..]
  {
    SliceParts(p, k, original, add);
    SliceParts(p, k - 1, original, add);
    Text2(Piece(p.buffer, p.start, k - 1), Piece(p.buffer, p.start + k, p.length - k), original, add);
  }

  /** `shrink_or_delete_entry` removes exactly the last character of the
      piece in `row` (the one at document index e - 1, e being the piece's
      end), keeps the table well formed, and touches no buffer. */
  lemma ShrinkOrDeleteText(rows: seq<Piece>, row: nat, original: seq<char>, add: seq<char>, e: nat)
    requires WellFormed(rows, original, add)
    requires row < |rows| && rows[row].length > 0 && e == Total(rows[..row + 1])
    ensures WellFormed(ShrinkOrDelete(rows, row), original, add)
    ensures 1 <= e <= Total(rows)
    ensures Text(ShrinkOrDelete(rows, row), original, add)
         == Text(rows, original, add)[..e - 1] + Text(rows, original, add)[e..]
  {
    TotalStep(rows, row);
    ShrinkAt(rows, row, original, add, e, ShrinkOrDelete(rows, row));
  }

  lemma ShrinkAt(rows: seq<Piece>, row: nat, original: seq<char>, add: seq<char>, i: nat, r: seq<Piece>)
    requires WellFormed(rows, original, add)
    requires row < |rows| && rows[row].length > 0
    requires i == Total(rows[..row]) + rows[row].length
    requires r == ShrinkOrDelete(rows, row)
    ensures WellFormed(r, original, add) && 1 <= i <= Total(rows)
    ensures Text(r, original, add) == Text(rows, original, add)[..i - 1] + Text(rows, original, add)[i..]
  {
    var p := rows[row];
    WellFormedAt(rows, row, original, add);
    if p.length == 1 {
      DropOnly(p, original, add);
      assert r == rows[..row] + [] + rows[row + 1..];
      CutRow(rows, row, [], original, add, 1, i, r);
    } else {
      DropLast(p, original, add);
      UpdateIsReplace(rows, row, p.(length := p.length - 1));
      CutRow(rows, row, [p.(length := p.length - 1)], original, add, p.length, i, r);
    }
  }

  /** Insert keeps the table well formed, and within the document it splices
      c in at i: the document becomes old[..i] + [c] + old[i..]. */
  lemma InsertRowsText(rows: seq<Piece>, original: seq<char>, add: seq<char>, c: char, i: nat)
    requires WellFormed(rows, original, add)
    ensures WellFormed(InsertRows(rows, |add| + 1, i), original, add + [c])
    ensures i <= Total(rows) ==>
              Text(InsertRows(rows, |add| + 1, i), original, add + [c])
              == Text(rows, original, add)[..i] + [c] + Text(rows, original, add)[i..]
    ensures i > Total(rows) ==> Text(InsertRows(rows, |add| + 1, i), original, add + [c]) == Text(rows, original, add)
  {
    var add' := add + [c];
    TextExtend(rows, original, add, [c]);
    NewPieceText(original, add, c);
    var r := InsertRows(rows, |add'|, i);
    match Locate(rows, i)
    case None =>
      if i == Total(rows) {
        assert r == [NewPiece(|add'|)];
      }
    case Some(Position(row, k)) =>
      InsertAt(rows, row, k, original, add, c, i, r);
  }

  /** The found-piece case of insert, with the new document stated against
      the add buffer before the push. */
  lemma InsertAt(rows: seq<Piece>, row: nat, k: nat, original: seq<char>, add: seq<char>, c: char, i: nat, r: seq<Piece>)
    requires WellFormed(rows, original, add)
    requires Locate(rows, i) == Some(Position(row, k))
    requires r == InsertRows(rows, |add| + 1, i)
    ensures WellFormed(r, original, add + [c])
    ensures Text(r, original, add + [c]) == Text(rows, original, add)[..i] + [c] + Text(rows, original, add)[i..]
  {
    var add' := add + [c];
    TextExtend(rows, original, add, [c]);
    WellFormedAt(rows, row, original, add);
    WellFormedAt(rows, row, original, add');
    InsertAtRow(rows, row, k, original, add, c, i, r);
  }

  lemma InsertAtRow(rows: seq<Piece>, row: nat, k: nat, original: seq<char>, add: seq<char>, c: char, i: nat, r: seq<Piece>)
    requires WellFormed(rows, original, add + [c])
    requires Locate(rows, i) == Some(Position(row, k))
    requires rows[row].length > 0 && Fits(rows[row], original, add)
    requires r == InsertRows(rows, |add| + 1, i)
    ensures WellFormed(r, original, add + [c])
    ensures Text(r, original, add + [c]) == Text(rows, original, add + [c])[..i] + [c] + Text(rows, original, add + [c])[i..]
  {
    var add' := add + [c];
    var p := rows[row];
    var piece := NewPiece(|add'|);
    NewPieceText(original, add, c);
    Text1(piece, original, add');
    if k == 0 {
      InsertBefore(rows, original, add', piece, c, i, r);
    } else if k == p.length {
      if IsAppendable(p, |add'|) {
        InsertGrow(rows, row, original, add, c, i, r);
      } else {
        InsertAfter(rows, row, original, add', piece, c, i, r);
      }
    } else {
      var mid := [Piece(p.buffer, p.start, k), piece, Piece(p.buffer, p.start + k, p.length - k)];
      InsertInside(rows, row, k, original, add', piece, c, i, mid, r);
    }
  }

  lemma InsertBefore(rows: seq<Piece>, original: seq<char>, add: seq<char>, piece: Piece, c: char, i: nat, r: seq<Piece>)
    requires WellFormed(rows, original, add) && rows != [] && i == 0
    requires piece.length > 0 && Fits(piece, original, add) && Slice(piece, original, add) == [c]
    requires r == rows[..0] + [piece] + rows[0..]
    ensures WellFormed(r, original, add)
    ensures Text(r, original, add) == Text(rows, original, add)[..i] + [c] + Text(rows, original, add)[i..]
  {
    var p := rows[0];
    WellFormedAt(rows, 0, original, add);
    PlaceBefore(p, piece, c, original, add);
    assert rows[..0] == [] && rows[0..] == [p] + rows[1..];
    assert r == rows[..0] + [piece, p] + rows[1..];
    SpliceRow(rows, 0, [piece, p], original, add, 0, c, i, r);
  }

  lemma InsertGrow(rows: seq<Piece>, row: nat, original: seq<char>, add: seq<char>, c: char, i: nat, r: seq<Piece>)
    requires WellFormed(rows, original, add + [c]) && row < |rows|
    requires rows[row].length > 0 && Fits(rows[row], original, add) && IsAppendable(rows[row], |add| + 1)
    requires i == Total(rows[..row]) + rows[row].length
    requires r == rows[row := rows[row].(length := rows[row].length + 1)]
    ensures WellFormed(r, original, add + [c]) && i <= Total(rows)
    ensures Text(r, original, add + [c]) == Text(rows, original, add + [c])[..i] + [c] + Text(rows, original, add + [c])[i..]
  {
    var p := rows[row];
    GrowOver(p, c, original, add);
    UpdateIsReplace(rows, row, p.(length := p.length + 1));
    SpliceRow(rows, row, [p.(length := p.length + 1)], original, add + [c], p.length, c, i, r);
  }

  lemma InsertAfter(rows: seq<Piece>, row: nat, original: seq<char>, add: seq<char>, piece: Piece, c: char, i: nat, r: seq<Piece>)
    requires WellFormed(rows, original, add) && row < |rows|
    requires rows[row].length > 0 && Fits(rows[row], original, add)
    requires i == Total(rows[..row]) + rows[row].length
    requires piece.length > 0 && Fits(piece, original, add) && Slice(piece, original, add) == [c]
    requires r == rows[..row + 1] + [piece] + rows[row + 1..]
    ensures WellFormed(r, original, add) && i <= Total(rows)
    ensures Text(r, original, add) == Text(rows, original, add)[..i] + [c] + Text(rows, original, add)[i..]
  {
    var p := rows[row];
    PlaceAfter(p, piece, c, original, add);
    assert rows[..row + 1] == rows[..row] + [p];
    assert r == rows[..row] + [p, piece] + rows[row + 1..];
    SpliceRow(rows, row, [p, piece], original, add, p.length, c, i, r);
  }

  lemma InsertInside(rows: seq<Piece>, row: nat, k: nat, original: seq<char>, add: seq<char>, piece: Piece, c: char, i: nat,
                     mid: seq<Piece>, r: seq<Piece>)
    requires WellFormed(rows, original, add) && row < |rows|
    requires Fits(rows[row], original, add) && 0 < k < rows[row].length
    requires i == Total(rows[..row]) + k
    requires piece.length > 0 && Fits(piece, original, add) && Slice(piece, original, add) == [c]
    requires mid == [Piece(rows[row].buffer, rows[row].start, k), piece,
                     Piece(rows[row].buffer, rows[row].start + k, rows[row].length - k)]
    requires r == rows[..row] + mid + rows[row + 1..]
    ensures WellFormed(r, original, add) && i <= Total(rows)
    ensures Text(r, original, add) == Text(rows, original, add)[..i] + [c] + Text(rows, original, add)[i..]
  {
    SplitAround(rows[row], k, piece, c, original, add, mid);
    SpliceRow(rows, row, mid, original, add, k, c, i, r);
  }

  /** Delete keeps the table well formed, and for 0 < i <= length it removes
      exactly the character at i - 1: the document becomes old[..i-1] + old[i..]. */
  lemma DeleteRowsText(rows: seq<Piece>, original: seq<char>, add: seq<char>, i: nat)
    requires WellFormed(rows, original, add)
    ensures WellFormed(DeleteRows(rows, i), original, add)
    ensures 0 < i <= Total(rows) ==>
              Text(DeleteRows(rows, i), original, add)
              == Text(rows, original, add)[..i - 1] + Text(rows, original, add)[i..]
  {
    match Locate(rows, i)
    case None =>
    case Some(Position(row, k)) =>
      if k > 0 {
        DeleteAt(rows, row, k, original, add, i, DeleteRows(rows, i));
      }
  }

  lemma DeleteAt(rows: seq<Piece>, row: nat, k: nat, original: seq<char>, add: seq<char>, i: nat, r: seq<Piece>)
    requires WellFormed(rows, original, add)
    requires Locate(rows, i) == Some(Position(row, k)) && k > 0
    requires r == DeleteRows(rows, i)
    ensures WellFormed(r, original, add)
    ensures Text(r, original, add) == Text(rows, original, add)[..i - 1] + Text(rows, original, add)[i..]
  {
    var p := rows[row];
    WellFormedAt(rows, row, original, add);
    if k == p.length {
      ShrinkAt(rows, row, original, add, i, r);
    } else if k == 1 {
      DeleteFirst(rows, row, original, add, i, r);
    } else {
      var mid := [Piece(p.buffer, p.start, k - 1), Piece(p.buffer, p.start + k, p.length - k)];
      DeleteInside(rows, row, k, original, add, i, mid, r);
    }
  }

  lemma DeleteFirst(rows: seq<Piece>, row: nat, original: seq<char>, add: seq<char>, i: nat, r: seq<Piece>)
    requires WellFormed(rows, original, add) && row < |rows|
    requires Fits(rows[row], original, add) && 1 < rows[row].length
    requires i == Total(rows[..row]) + 1
    requires r == rows[row := Piece(rows[row].buffer, rows[row].start + 1, rows[row].length - 1)]
    ensures WellFormed(r, original, add) && 1 <= i <= Total(rows)
    ensures Text(r, original, add) == Text(rows, original, add)[..i - 1] + Text(rows, original, add)[i..]
  {
    var p := rows[row];
    var tail := Piece(p.buffer, p.start + 1, p.length - 1);
    DropFirst(p, original, add);
    UpdateIsReplace(rows, row, tail);
    CutRow(rows, row, [tail], original, add, 1, i, r);
  }

  lemma DeleteInside(rows: seq<Piece>, row: nat, k: nat, original: seq<char>, add: seq<char>, i: nat,
                     mid: seq<Piece>, r: seq<Piece>)
    requires WellFormed(rows, original, add) && row < |rows|
    requires Fits(rows[row], original, add) && 1 < k < rows[row].length
    requires i == Total(rows[..row]) + k
    requires mid == [Piece(rows[row].buffer, rows[row].start, k - 1),
                     Piece(rows[row].buffer, rows[row].start + k, rows[row].length - k)]
    requires r == rows[..row] + mid + rows[row + 1..]
    ensures WellFormed(r, original, add) && 1 <= i <= Total(rows)
    ensures Text(r, original, add) == Text(rows, original, add)[..i - 1] + Text(rows, original, add)[i..]
  {
    CutPiece(rows[row], k, original, add, mid);
    CutRow(rows, row, mid, original, add, k, i, r);
  }
}
