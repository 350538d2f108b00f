/** The piece sequence of a piece table and its meaning.

    A piece names a run of characters in one of two buffers: the original
    buffer, fixed when the table is built, and the append-only add buffer.
    The document is the concatenation, in order, of the runs the pieces name.
 */
module Pieces {

  datatype Buffer = Original | Add

  /** The half-open range [start, start + length) of `buffer`. */
  datatype Piece = Piece(buffer: Buffer, start: nat, length: nat)

  /** A piece's row in the sequence and an offset inside it. */
  datatype Position = Position(row: nat, offset: nat)

  datatype Option<T> = None | Some(value: T)

  /** The buffer a tag stands for. */
  function Source(b: Buffer, original: seq<char>, add: seq<char>): seq<char>
  {
    match b
    case Original => original
    case Add => add
  }

  /** The piece's range lies inside its buffer. */
  predicate Fits(p: Piece, original: seq<char>, add: seq<char>)
  {
    p.start + p.length <= |Source(p.buffer, original, add)|
  }

  /** Every piece's range lies inside its buffer. */
  predicate AllFit(rows: seq<Piece>, original: seq<char>, add: seq<char>)
  {
    rows == [] || (Fits(rows[0], original, add) && AllFit(rows[1..], original, add))
  }

  /** No piece of length zero is kept in the sequence. */
  predicate NonEmptyPieces(rows: seq<Piece>)
  {
    rows == [] || (rows[0].length > 0 && NonEmptyPieces(rows[1..]))
  }

  /** The invariant of a piece table's rows. */
  predicate WellFormed(rows: seq<Piece>, original: seq<char>, add: seq<char>)
  {
    NonEmptyPieces(rows) && AllFit(rows, original, add)
  }

  /** The characters one piece stands for. */
  function Slice(p: Piece, original: seq<char>, add: seq<char>): (s: seq<char>)
    requires Fits(p, original, add)
    ensures |s| == p.length
  {
    Source(p.buffer, original, add)[p.start .. p.start + p.length]
  }

  /** The document length: the sum of the piece lengths. */
  function Total(rows: seq<Piece>): nat
  {
    if rows == [] then 0 else rows[0].length + Total(rows[1..])
  }

  /** The document: the concatenation of the pieces' slices. */
  function Text(rows: seq<Piece>, original: seq<char>, add: seq<char>): (s: seq<char>)
    requires AllFit(rows, original, add)
    ensures |s| == Total(rows)
  {
    if rows == [] then [] else Slice(rows[0], original, add) + Text(rows[1..], original, add)
  }

  lemma {:induction false} TotalAppend(a: seq<Piece>, b: seq<Piece>)
    ensures Total(a + b) == Total(a) + Total(b)
  {
    if a == [] {
      assert a + b == b;
    } else {
      assert (a + b)[1..] == a[1..] + b;
      TotalAppend(a[1..], b);
    }
  }

  lemma {:induction false} AllFitAppend(a: seq<Piece>, b: seq<Piece>, original: seq<char>, add: seq<char>)
    ensures AllFit(a + b, original, add) <==> AllFit(a, original, add) && AllFit(b, original, add)
  {
    if a == [] {
      assert a + b == b;
    } else {
      assert (a + b)[1..] == a[1..] + b;
      AllFitAppend(a[1..], b, original, add);
    }
  }

  lemma {:induction false} NonEmptyAppend(a: seq<Piece>, b: seq<Piece>)
    ensures NonEmptyPieces(a + b) <==> NonEmptyPieces(a) && NonEmptyPieces(b)
  {
    if a == [] {
      assert a + b == b;
    } else {
      assert (a + b)[1..] == a[1..] + b;
      NonEmptyAppend(a[1..], b);
    }
  }

  /** A sequence of pieces is well formed exactly when both its parts are. */
  lemma WellFormedAppend(a: seq<Piece>, b: seq<Piece>, original: seq<char>, add: seq<char>)
    ensures WellFormed(a + b, original, add) <==> WellFormed(a, original, add) && WellFormed(b, original, add)
  {
    AllFitAppend(a, b, original, add);
    NonEmptyAppend(a, b);
  }

  lemma {:induction false} AllFitAt(rows: seq<Piece>, j: nat, original: seq<char>, add: seq<char>)
    requires AllFit(rows, original, add) && j < |rows|
    ensures Fits(rows[j], original, add)
  {
    if j > 0 {
      AllFitAt(rows[1..], j - 1, original, add);
    }
  }

  lemma {:induction false} NonEmptyAt(rows: seq<Piece>, j: nat)
    requires NonEmptyPieces(rows) && j < |rows|
    ensures rows[j].length > 0
  {
    if j > 0 {
      NonEmptyAt(rows[1..], j - 1);
    }
  }

  /** Each piece of a well-formed sequence is non-empty and fits. */
  lemma WellFormedAt(rows: seq<Piece>, j: nat, original: seq<char>, add: seq<char>)
    requires WellFormed(rows, original, add) && j < |rows|
    ensures rows[j].length > 0 && Fits(rows[j], original, add)
  {
    AllFitAt(rows, j, original, add);
    NonEmptyAt(rows, j);
  }

  /** Both sides of a cut of a well-formed sequence are well formed. */
  lemma WellFormedCut(rows: seq<Piece>, j: nat, original: seq<char>, add: seq<char>)
    requires WellFormed(rows, original, add) && j <= |rows|
    ensures WellFormed(rows[..j], original, add) && WellFormed(rows[j..], original, add)
  {
    assert rows == rows[..j] + rows[j..];
    WellFormedAppend(rows[..j], rows[j..], original, add);
  }

  /** The prefix total grows by one piece's length per row. */
  lemma TotalStep(rows: seq<Piece>, j: nat)
    requires j < |rows|
    ensures Total(rows[..j + 1]) == Total(rows[..j]) + rows[j].length
  {
    assert rows[..j + 1] == rows[..j] + [rows[j]];
    TotalAppend(rows[..j], [rows[j]]);
  }

  /** Prefix totals are monotone in the prefix length, and bounded by the total. */
  lemma TotalPrefixMono(rows: seq<Piece>, j: nat, m: nat)
    requires j <= m <= |rows|
    ensures Total(rows[..j]) <= Total(rows[..m]) <= Total(rows)
  {
    assert rows[..m] == rows[..j] + rows[j..m];
    TotalAppend(rows[..j], rows[j..m]);
    assert rows == rows[..m] + rows[m..];
    TotalAppend(rows[..m], rows[m..]);
  }

  lemma {:induction false} TextAppend(a: seq<Piece>, b: seq<Piece>, original: seq<char>, add: seq<char>)
    requires AllFit(a, original, add) && AllFit(b, original, add)
    ensures AllFit(a + b, original, add)
    ensures Text(a + b, original, add) == Text(a, original, add) + Text(b, original, add)
  {
    AllFitAppend(a, b, original, add);
    if a == [] {
      assert a + b == b;
    } else {
      assert (a + b)[1..] == a[1..] + b;
      TextAppend(a[1..], b, original, add);
    }
  }

  /** The document around row j: what comes before it, its slice, what comes after. */
  lemma TextSplit(rows: seq<Piece>, j: nat, original: seq<char>, add: seq<char>)
    requires AllFit(rows, original, add)
    requires j < |rows|
    ensures AllFit(rows[..j], original, add) && Fits(rows[j], original, add) && AllFit(rows[j + 1..], original, add)
    ensures Text(rows, original, add)
         == Text(rows[..j], original, add) + Slice(rows[j], original, add) + Text(rows[j + 1..], original, add)
  {
    var before, here, after := rows[..j], [rows[j]], rows[j + 1..];
    assert rows == before + (here + after);
    AllFitAppend(before, here + after, original, add);
    AllFitAppend(here, after, original, add);
    TextSingle(rows[j], original, add);
    TextAppend(here, after, original, add);
    TextAppend(before, here + after, original, add);
  }

  /** A single piece fits exactly when it does alone, and reads its slice. */
  lemma TextSingle(p: Piece, original: seq<char>, add: seq<char>)
    ensures AllFit([p], original, add) <==> Fits(p, original, add)
    ensures Fits(p, original, add) ==> Text([p], original, add) == Slice(p, original, add)
  {
    assert [p][1..] == [];
  }

  /** Position i of the document, when it falls inside row j, reads that
      piece's buffer at the piece's start plus i's offset into the piece. */
  lemma TextAt(rows: seq<Piece>, j: nat, original: seq<char>, add: seq<char>, i: nat)
    requires AllFit(rows, original, add) && j < |rows|
    requires Total(rows[..j]) <= i < Total(rows[..j]) + rows[j].length
    ensures Fits(rows[j], original, add) && i < Total(rows)
    ensures Text(rows, original, add)[i] == Source(rows[j].buffer, original, add)[rows[j].start + i - Total(rows[..j])]
  {
    TextSplit(rows, j, original, add);
    TotalStep(rows, j);
    TotalPrefixMono(rows, j + 1, |rows|);
    ReadMiddle(Text(rows[..j], original, add), Slice(rows[j], original, add), Text(rows[j + 1..], original, add), i);
    SliceAt(rows[j], original, add, i - Total(rows[..j]));
  }

  /** Offset k of a piece's slice is its buffer's character at start + k. */
  lemma SliceAt(p: Piece, original: seq<char>, add: seq<char>, k: nat)
    requires Fits(p, original, add) && k < p.length
    ensures Slice(p, original, add)[k] == Source(p.buffer, original, add)[p.start + k]
  {
  }

  /** A position within the middle part of a concatenation reads that part. */
  lemma ReadMiddle(a: seq<char>, b: seq<char>, c: seq<char>, i: nat)
    requires |a| <= i < |a| + |b|
    ensures (a + b + c)[i] == b[i - |a|]
  {
  }

  /** Appending to the add buffer does not change the text of pieces that fit before. */
  lemma {:induction false} TextExtend(rows: seq<Piece>, original: seq<char>, add: seq<char>, more: seq<char>)
    requires AllFit(rows, original, add)
    ensures AllFit(rows, original, add + more)
    ensures Text(rows, original, add + more) == Text(rows, original, add)
  {
    if rows != [] {
      TextExtend(rows[1..], original, add, more);
      assert Slice(rows[0], original, add + more) == Slice(rows[0], original, add);
    }
  }

  /** Splitting a piece at k leaves the concatenated text unchanged. */
  lemma SliceSplit(p: Piece, k: nat, original: seq<char>, add: seq<char>)
    requires Fits(p, original, add)
    requires k <= p.length
    ensures Fits(Piece(p.buffer, p.start, k), original, add)
    ensures Fits(Piece(p.buffer, p.start + k, p.length - k), original, add)
    ensures Slice(Piece(p.buffer, p.start, k), original, add)
          + Slice(Piece(p.buffer, p.start + k, p.length - k), original, add)
         == Slice(p, original, add)
  {
    var s := Source(p.buffer, original, add);
    assert s[p.start .. p.start + k] + s[p.start + k .. p.start + p.length] == s[p.start .. p.start + p.length];
  }

  /** The lookup shared by insert and delete: the first row whose end is at
      or after i (a `<=` test), with i's offset inside it. At a boundary
      between two pieces the earlier one is chosen, with offset equal to
      its length. None when i is past the document or there are no rows. */
  function Locate(rows: seq<Piece>, i: nat): (r: Option<Position>)
    ensures r.Some? <==> rows != [] && i <= Total(rows)
    ensures r.Some? ==> r.value.row < |rows| && r.value.offset <= rows[r.value.row].length
                        && Total(rows[..r.value.row]) + r.value.offset == i
    ensures r.Some? && r.value.row > 0 ==> r.value.offset > 0
  {
    if rows == [] then None
    else if i <= rows[0].length then
      assert rows[..0] == [];
      Some(Position(0, i))
    else
      match Locate(rows[1..], i - rows[0].length)
      case None => None
      case Some(p) =>
        TotalPrefixTailAt(rows, p.row + 1);
        Some(Position(p.row + 1, p.offset))
  }

  lemma TotalPrefixTailAt(rows: seq<Piece>, j: nat)
    requires 0 < j <= |rows|
    ensures Total(rows[..j]) == rows[0].length + Total(rows[1..][..j - 1])
  {
    assert rows[..j][1..] == rows[1..][..j - 1];
  }

  /** Past the first piece, the lookup continues in the remaining rows. */
  lemma LocateStep(rows: seq<Piece>, i: nat, row: nat, offset: nat)
    requires rows != [] && i > rows[0].length
    requires Locate(rows[1..], i - rows[0].length) == Some(Position(row, offset))
    ensures Locate(rows, i) == Some(Position(row + 1, offset))
  {
  }

  /** The converse of Locate's contract: a position of i that lies in row 0
      or past the start of its piece is the one Locate returns. */
  lemma {:induction false} LocateUnique(rows: seq<Piece>, i: nat, row: nat, k: nat)
    requires row < |rows| && k <= rows[row].length && Total(rows[..row]) + k == i
    requires row == 0 || k > 0
    ensures Locate(rows, i) == Some(Position(row, k))
  {
    if row == 0 {
      assert rows[..0] == [];
    } else {
      TotalPrefixTailAt(rows, row);
      assert rows[1..][row - 1] == rows[row];
      LocateUnique(rows[1..], i - rows[0].length, row - 1, k);
      LocateStep(rows, i, row - 1, k);
    }
  }

  /** The end of row r is found in row r itself, at offset equal to its
      length: with no empty piece, a piece boundary belongs to the piece
      before it. */
  lemma LocateAtEnd(rows: seq<Piece>, r: nat, i: nat)
    requires NonEmptyPieces(rows)
    requires r < |rows| && i == Total(rows[..r + 1])
    ensures Locate(rows, i) == Some(Position(r, rows[r].length))
  {
    TotalStep(rows, r);
    NonEmptyAt(rows, r);
    LocateUnique(rows, i, r, rows[r].length);
  }
}
