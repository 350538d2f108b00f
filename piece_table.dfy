/** The piece table object: its rows are rewritten in place by `insert` and
    `delete`, its add buffer only ever grows, and its original buffer never
    changes after construction.

    Every method is proved against the functions of `PieceEdits`: the new
    rows are `InsertRows` / `DeleteRows` of the old ones, and through the
    lemmas there the document changes by exactly one character.
 */
module Table {
  import opened Pieces
  import opened PieceEdits

  class PieceTable {
    var rows: seq<Piece>
    const original: seq<char>
    var add: seq<char>

    /** The rows keep no empty piece and every piece lies inside its buffer. */
    ghost predicate Valid()
      reads this
    {
      WellFormed(rows, original, add)
    }

    /** The document the table stands for. */
    ghost function Doc(): (d: seq<char>)
      reads this
      requires Valid()
      ensures |d| == Total(rows)
    {
      Text(rows, original, add)
    }

    /** `new`: the whole text is one piece of the original buffer. An empty
        text gives no piece at all rather than a piece of length zero. */
    constructor (text: seq<char>)
      ensures Valid() && Doc() == text
      ensures original == text && add == []
      ensures rows == if text == [] then [] else [Piece(Original, 0, |text|)]
    {
      original := text;
      add := [];
      if text == [] {
        rows := [];
      } else {
        rows := [Piece(Original, 0, |text|)];
      }
      new;
      if text != [] {
        assert text[0..|text|] == text;
        Text1(Piece(Original, 0, |text|), original, add);
      }
    }

    /** `set_rows`: replaces the rows wholesale; the table is valid afterwards
        exactly when the new rows are well formed against its buffers. */
    method SetRows(newRows: seq<Piece>)
      modifies this`rows
      ensures rows == newRows
      ensures Valid() <==> WellFormed(newRows, original, add)
    {
      rows := newRows;
    }

    /** `index`: the character at document position i, or a space when i is
        past the end. The search stops at the first piece that ends after i. */
    method Index(i: nat) returns (ch: char)
      requires Valid()
      ensures i < |Doc()| ==> ch == Doc()[i]
      ensures i >= |Doc()| ==> ch == ' '
    {
      var counter := 0;
      var j := 0;
      while j < |rows|
        invariant j <= |rows|
        invariant counter == Total(rows[..j]) && counter <= i
      {
        var p := rows[j];
        if i < counter + p.length {
          TextAt(rows, j, original, add, i);
          match p.buffer {
            case Original => ch := original[p.start + i - counter];
            case Add => ch := add[p.start + i - counter];
          }
          return;
        }
        TotalStep(rows, j);
        counter := counter + p.length;
        j := j + 1;
      }
      assert rows[..j] == rows;
      ch := ' ';
    }

    /** The search shared by `insert` and `delete`: walk the rows keeping the
        running length, and stop at the first row whose end is at or after i. */
    method Find(i: nat) returns (found: bool, row: nat, offset: nat)
      ensures found <==> Locate(rows, i).Some?
      ensures found ==> Locate(rows, i) == Some(Position(row, offset))
    {
      var counter := 0;
      var j := 0;
      while j < |rows|
        invariant j <= |rows|
        invariant counter == Total(rows[..j])
        invariant j == 0 || counter < i
      {
        var p := rows[j];
        if i <= counter + p.length {
          LocateUnique(rows, i, j, i - counter);
          return true, j, i - counter;
        }
        TotalStep(rows, j);
        counter := counter + p.length;
        j := j + 1;
      }
      assert rows[..j] == rows;
      return false, 0, 0;
    }

    /** `shrink_or_delete_entry`: the piece in `row` loses its last
        character, or is removed when that was its only one. */
    method ShrinkOrDeleteEntry(row: nat)
      requires row < |rows| && rows[row].length > 0
      modifies this`rows
      ensures rows == ShrinkOrDelete(old(rows), row)
    {
      var p := rows[row];
      if p.length == 1 {
        rows := rows[..row] + rows[row + 1..];
      } else {
        rows := rows[row := p.(length := p.length - 1)];
      }
    }

    /** `insert`: pushes c onto the add buffer, then makes the document read
        c at position i. An index past the end leaves the rows alone (the
        pushed character is then unreferenced). */
    method Insert(c: char, i: nat)
      requires Valid()
      modifies this
      ensures Valid()
      ensures add == old(add) + [c]
      ensures rows == InsertRows(old(rows), |add|, i)
      ensures i <= old(|Doc()|) ==> Doc() == old(Doc())[..i] + [c] + old(Doc())[i..]
      ensures i > old(|Doc()|) ==> Doc() == old(Doc())
    {
      add := add + [c];
      var found, row, k := Find(i);
      var rs, n := rows, |add|;
      var piece := NewPiece(n);
      var r := rs;
      if !found {
        if i == Total(rs) {
          r := rs + [piece];
        }
      } else {
        var p := rs[row];
        if k == 0 {
          r := rs[..row] + [piece] + rs[row..];
        } else if k == p.length {
          if IsAppendable(p, n) {
            r := rs[row := p.(length := p.length + 1)];
          } else {
            r := rs[..row + 1] + [piece] + rs[row + 1..];
          }
        } else {
          r := rs[..row] + [Piece(p.buffer, p.start, k), piece, Piece(p.buffer, p.start + k, p.length - k)]
               + rs[row + 1..];
        }
        assert r == InsertRows(rs, n, i);
      }
      rows := r;
      InsertRowsText(old(rows), original, old(add), c, i);
    }

    /** `delete`: removes the character just before position i, as a
        backspace at i would. Position 0 and positions past the end change
        nothing. */
    method Delete(i: nat)
      requires Valid()
      modifies this`rows
      ensures Valid()
      ensures rows == DeleteRows(old(rows), i)
      ensures 0 < i <= old(|Doc()|) ==> Doc() == old(Doc())[..i - 1] + old(Doc())[i..]
      ensures i == 0 || i > old(|Doc()|) ==> Doc() == old(Doc())
    {
      var found, row, k := Find(i);
      var rs := rows;
      var r := rs;
      if found && k > 0 {
        var p := rs[row];
        WellFormedAt(rs, row, original, add);
        if k == p.length {
          ShrinkOrDeleteEntry(row);
          r := rows;
        } else {
          var tail := Piece(p.buffer, p.start + k, p.length - k);
          if k == 1 {
            r := rs[row := tail];
          } else {
            r := rs[..row] + [Piece(p.buffer, p.start, k - 1), tail] + rs[row + 1..];
          }
        }
        assert r == DeleteRows(rs, i);
      }
      rows := r;
      DeleteRowsText(old(rows), original, add, i);
    }
  }
}
