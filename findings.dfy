/** The piece table's edits and read as the Rust code states them,
    defects included, beside concrete inputs on which they go wrong. The
    rest of the project models the evidently intended behaviour instead;
    each example below names the corrected member it is compared with.

    `None` stands for a panic: an index out of bounds, an `unwrap` of
    `None`, or a `u16` subtraction that underflows (in a debug build).
    Positions and lengths are unbounded naturals: the overflow of `u16`
    additions is not modelled.
 */
module AsWritten {
  import opened Pieces
  import opened PieceEdits

  /** What the lookup loop of `insert` and `delete` leaves behind: whether
      a row was found, its position, the "correct index" (which adds the
      piece's start to the offset), and the row before it. */
  datatype Scan = Scan(found: bool, entryIndex: nat, correctIndex: nat, previous: Option<Piece>)

  /** The lookup loop from row j on, `counter` being the length of the rows
      before j; the test is `index <= counter + length`. */
  function ScanFrom(rows: seq<Piece>, i: nat, j: nat, counter: nat): (s: Scan)
    requires j <= |rows| && counter <= i
    ensures s.found ==> s.entryIndex < |rows|
    ensures !s.found ==> s.entryIndex == |rows|
    ensures s.previous.Some? <==> s.entryIndex > 0
    ensures s.previous.Some? ==> s.previous.value == rows[s.entryIndex - 1]
    decreases |rows| - j
  {
    var previous := if j == 0 then None else Some(rows[j - 1]);
    if j == |rows| then Scan(false, j, 0, previous)
    else if i <= counter + rows[j].length then Scan(true, j, i - counter + rows[j].start, previous)
    else ScanFrom(rows, i, j + 1, counter + rows[j].length)
  }

  /** `is_appendable` as written: the piece's end is compared with the add
      buffer's length minus 2. (On tables built by `new` and the edits the
      subtraction cannot underflow: an add piece exists only once the buffer
      holds two characters after the push, and the buffer test comes first.
      Rows installed by `set_rows` may name the add buffer before the first
      push, and there it underflows; see `AppendableUnderflows`.) */
  predicate IsAppendableAsWritten(p: Piece, addLen: nat)
  {
    p.buffer == Add && p.start + p.length + 2 == addLen
  }

  /** Whether `is_appendable` as written panics: for an add piece (the
      buffer test comes first) the `u16` subtraction `len - 2` underflows
      when the add buffer holds fewer than two characters after the push. */
  predicate AppendableUnderflows(p: Piece, addLen: nat)
  {
    p.buffer == Add && addLen < 2
  }

  /** The test as written accepts exactly the pieces the corrected test
      accepted one push earlier, so the two never agree: a piece that ends
      right where the pushed character sits is never grown. */
  lemma AppendableOneSlotEarly(p: Piece, addLen: nat)
    ensures IsAppendableAsWritten(p, addLen + 1) <==> IsAppendable(p, addLen)
    ensures IsAppendable(p, addLen) ==> !IsAppendableAsWritten(p, addLen)
  {
  }

  /** `insert` as written, on the rows, with `addLen` the add buffer's length
      after the push. The piece compared and split is always row 0. */
  function InsertAsWritten(rows: seq<Piece>, addLen: nat, i: nat): (r: Option<seq<Piece>>)
    requires addLen > 0
    ensures !ScanFrom(rows, i, 0, 0).found ==> r == Some(rows)
    ensures r.Some? ==> |rows| <= |r.value| <= |rows| + 2
  {
    var scan := ScanFrom(rows, i, 0, 0);
    if !scan.found then Some(rows)
    else
      var e := scan.entryIndex;
      var searched := rows[0];
      var piece := Piece(Add, addLen - 1, 1);
      var k := scan.correctIndex;
      if k == 0 && scan.previous.None? then Some(rows[..e] + [piece] + rows[e..])
      else if k == 0 && AppendableUnderflows(scan.previous.value, addLen) then None
      else if k == 0 && IsAppendableAsWritten(scan.previous.value, addLen) then
        Some(rows[e - 1 := scan.previous.value.(length := scan.previous.value.length + 1)])
      else if k != 0 && k == searched.length then
        if AppendableUnderflows(searched, addLen) then None
        else if IsAppendableAsWritten(searched, addLen) then Some(rows[e := searched.(length := searched.length + 1)])
        else Some(rows[..e + 1] + [piece] + rows[e + 1..])
      else if k > searched.length then None
      else Some(rows[..e] + [searched.(length := k), piece, Piece(searched.buffer, searched.start + k, searched.length - k)]
                + rows[e + 1..])
  }

  /** `shrink_or_delete_entry` as written: the row it removes or shrinks is
      `index - 1`, where `index` is the in-piece offset it is passed. */
  function ShrinkAsWritten(rows: seq<Piece>, entry: Piece, index: nat): (r: Option<seq<Piece>>)
    ensures r.Some? ==> 0 < index <= |rows|
    ensures r.Some? && entry.length == 1 ==> |r.value| == |rows| - 1
    ensures r.Some? && entry.length != 1 ==> |r.value| == |rows|
  {
    if index == 0 || index > |rows| || entry.length == 0 then None
    else if entry.length == 1 then Some(rows[..index - 1] + rows[index..])
    else Some(rows[index - 1 := entry.(length := entry.length - 1)])
  }

  /** `delete` as written, on the rows. */
  function DeleteAsWritten(rows: seq<Piece>, i: nat): (r: Option<seq<Piece>>)
    ensures !ScanFrom(rows, i, 0, 0).found ==> r == Some(rows)
    ensures r.Some? ==> |rows| - 1 <= |r.value| <= |rows| + 1
  {
    var scan := ScanFrom(rows, i, 0, 0);
    if !scan.found then Some(rows)
    else
      var e := scan.entryIndex;
      var searched := rows[0];
      var k := scan.correctIndex;
      if k == 0 then
        if scan.previous.None? then Some(rows) else ShrinkAsWritten(rows, scan.previous.value, k)
      else if k == searched.length then ShrinkAsWritten(rows, searched, k)
      else if k > searched.length then None
      else Some(rows[..e] + [searched.(length := k - 1), Piece(searched.buffer, searched.start + k, searched.length - k)]
                + rows[e + 1..])
  }

  /** `index` as written, from row j on: the test is `i <= counter + length`,
      and the character is read with `chars().nth(..).unwrap()`. */
  function IndexAsWritten(rows: seq<Piece>, original: seq<char>, add: seq<char>, i: nat, j: nat, counter: nat): (r: Option<char>)
    requires j <= |rows| && counter <= i
    ensures j == |rows| ==> r == Some(' ')
    decreases |rows| - j
  {
    if j == |rows| then Some(' ')
    else if i <= counter + rows[j].length then BufferAt(rows[j], i - counter, original, add)
    else IndexAsWritten(rows, original, add, i, j + 1, counter + rows[j].length)
  }

  /** The character at offset k of piece p, read from p's buffer even past
      p's end; None when the buffer ends first (the `unwrap` of `None`). */
  function BufferAt(p: Piece, k: nat, original: seq<char>, add: seq<char>): Option<char>
  {
    var b := Source(p.buffer, original, add);
    if p.start + k < |b| then Some(b[p.start + k]) else None
  }

  /** The loop of `index` as written is the lookup `Locate` followed by a
      read of the buffer at the piece's start plus the offset. */
  lemma {:induction false} IndexAsWrittenScans(rows: seq<Piece>, original: seq<char>, add: seq<char>, i: nat, j: nat, counter: nat,
                                               d: seq<Piece>)
    requires j <= |rows| && counter <= i && d == rows[j..]
    ensures IndexAsWritten(rows, original, add, i, j, counter)
            == match Locate(d, i - counter)
               case None => Some(' ')
               case Some(Position(row, k)) => BufferAt(d[row], k, original, add)
    decreases |rows| - j
  {
    var x := i - counter;
    if j < |rows| {
      var p := rows[j];
      assert d[0] == p;
      if x <= p.length {
        assert d[..0] == [];
        assert Locate(d, x) == Some(Position(0, x));
      } else {
        var rest := rows[j + 1..];
        assert d[1..] == rest;
        IndexAsWrittenScans(rows, original, add, i, j + 1, counter + p.length, rest);
        match Locate(rest, x - p.length)
        case None =>
          assert Locate(d, x).None?;
        case Some(q) =>
          LocateStep(d, x, q.row, q.offset);
          assert d[q.row + 1] == rest[q.row];
      }
    }
  }

  /** What `index(i)` as written returns, against the document. When the
      lookup finds no row (i past the end), the space sentinel. At an
      offset strictly inside the piece found, the document's character i.
      Only at an offset equal to the piece's length (a piece's end, which
      the `<=` test picks) does it read the buffer character just past the
      piece, or panic when the buffer ends there. */
  lemma IndexAsWrittenReads(rows: seq<Piece>, original: seq<char>, add: seq<char>, i: nat)
    requires AllFit(rows, original, add)
    ensures i > Total(rows) ==> IndexAsWritten(rows, original, add, i, 0, 0) == Some(' ')
    ensures match Locate(rows, i)
            case None => IndexAsWritten(rows, original, add, i, 0, 0) == Some(' ')
            case Some(Position(row, k)) =>
              if k < rows[row].length then
                i < |Text(rows, original, add)|
                && IndexAsWritten(rows, original, add, i, 0, 0) == Some(Text(rows, original, add)[i])
              else
                IndexAsWritten(rows, original, add, i, 0, 0) == BufferAt(rows[row], rows[row].length, original, add)
  {
    assert rows[0..] == rows;
    IndexAsWrittenScans(rows, original, add, i, 0, 0, rows);
    match Locate(rows, i)
    case None =>
    case Some(Position(row, k)) =>
      assert IndexAsWritten(rows, original, add, i, 0, 0) == BufferAt(rows[row], k, original, add);
      if k < rows[row].length {
        ReadInside(rows, original, add, i, row, k);
      }
  }

  /** Strictly inside a piece, the buffer read is the document's character. */
  lemma ReadInside(rows: seq<Piece>, original: seq<char>, add: seq<char>, i: nat, row: nat, k: nat)
    requires AllFit(rows, original, add) && row < |rows| && k < rows[row].length
    requires Total(rows[..row]) + k == i
    ensures i < |Text(rows, original, add)| && BufferAt(rows[row], k, original, add) == Some(Text(rows, original, add)[i])
  {
    TextAt(rows, row, original, add, i);
  }

  // ---- Inputs that show each defect ----------------------------------------------

  /** After the lookup, the code splits row 0 instead of the row it found.
      Original "ab", add "X" then c pushed; typing c at the end (3) of "abX"
      gives "abacb"; the corrected insert gives "abXc". */
  lemma StaleEntryExample()
    ensures InsertAsWritten([Piece(Original, 0, 2), Piece(Add, 0, 1)], 2, 3)
         == Some([Piece(Original, 0, 2), Piece(Original, 0, 1), Piece(Add, 1, 1), Piece(Original, 1, 1)])
    ensures Text([Piece(Original, 0, 2), Piece(Original, 0, 1), Piece(Add, 1, 1), Piece(Original, 1, 1)], "ab", "Xc")
         == "abacb"
    ensures Text(InsertRows([Piece(Original, 0, 2), Piece(Add, 0, 1)], 2, 3), "ab", "Xc") == "abXc"
  {
    var rows := [Piece(Original, 0, 2), Piece(Add, 0, 1)];
    assert ScanFrom(rows, 3, 0, 0) == Scan(true, 1, 1, Some(rows[0]));
    assert InsertAsWritten(rows, 2, 3) == Some(rows[..1] + [Piece(Original, 0, 1), Piece(Add, 1, 1), Piece(Original, 1, 1)] + rows[2..]);
    assert rows[..1] + [Piece(Original, 0, 1), Piece(Add, 1, 1), Piece(Original, 1, 1)] + rows[2..]
        == [Piece(Original, 0, 2), Piece(Original, 0, 1), Piece(Add, 1, 1), Piece(Original, 1, 1)];
    assert Locate(rows, 3) == Some(Position(1, 1));
    Text4(Piece(Original, 0, 2), Piece(Original, 0, 1), Piece(Add, 1, 1), Piece(Original, 1, 1), "ab", "Xc");
    Text2(Piece(Original, 0, 2), Piece(Add, 0, 2), "ab", "Xc");
  }

  /** The in-piece offset includes the piece's start. With the original
      buffer "xab" and rows naming "ab" from position 1, typing c at 1 puts
      it after "ab"; the corrected insert gives "acb". */
  lemma OffsetWithStartExample()
    ensures InsertAsWritten([Piece(Original, 1, 2)], 1, 1) == Some([Piece(Original, 1, 2), Piece(Add, 0, 1)])
    ensures Text([Piece(Original, 1, 2), Piece(Add, 0, 1)], "xab", "c") == "abc"
    ensures Text(InsertRows([Piece(Original, 1, 2)], 1, 1), "xab", "c") == "acb"
  {
    var rows := [Piece(Original, 1, 2)];
    assert ScanFrom(rows, 1, 0, 0) == Scan(true, 0, 2, None);
    assert rows[..1] == rows && rows[1..] == [];
    assert InsertAsWritten(rows, 1, 1) == Some(rows[..1] + [Piece(Add, 0, 1)] + rows[1..]);
    assert rows[..1] + [Piece(Add, 0, 1)] + rows[1..] == [Piece(Original, 1, 2), Piece(Add, 0, 1)];
    assert Locate(rows, 1) == Some(Position(0, 1));
    assert InsertRows(rows, 1, 1) == rows[..0] + [Piece(Original, 1, 1), Piece(Add, 0, 1), Piece(Original, 2, 1)] + rows[1..];
    assert rows[..0] + [Piece(Original, 1, 1), Piece(Add, 0, 1), Piece(Original, 2, 1)] + rows[1..]
        == [Piece(Original, 1, 1), Piece(Add, 0, 1), Piece(Original, 2, 1)];
    Text2(Piece(Original, 1, 2), Piece(Add, 0, 1), "xab", "c");
    assert Slice(Piece(Original, 1, 2), "xab", "c") == "ab";
    Text3(Piece(Original, 1, 1), Piece(Add, 0, 1), Piece(Original, 2, 1), "xab", "c");
    assert Slice(Piece(Original, 1, 1), "xab", "c") == "a" && Slice(Piece(Original, 2, 1), "xab", "c") == "b";
  }

  /** The coalescing test is one slot early. An add piece naming "a" while
      the add buffer, after c is pushed, is "abc": typing c right after the
      piece grows it over "b", giving "ab"; the corrected insert gives "ac". */
  lemma AppendableOffByOneExample()
    ensures IsAppendableAsWritten(Piece(Add, 0, 1), 3) && !IsAppendable(Piece(Add, 0, 1), 3)
    ensures InsertAsWritten([Piece(Add, 0, 1)], 3, 1) == Some([Piece(Add, 0, 2)])
    ensures Text([Piece(Add, 0, 2)], "", "abc") == "ab"
    ensures Text(InsertRows([Piece(Add, 0, 1)], 3, 1), "", "abc") == "ac"
  {
    var rows := [Piece(Add, 0, 1)];
    assert ScanFrom(rows, 1, 0, 0) == Scan(true, 0, 1, None);
    assert rows[0 := Piece(Add, 0, 2)] == [Piece(Add, 0, 2)];
    assert Locate(rows, 1) == Some(Position(0, 1));
    Text1(Piece(Add, 0, 2), "", "abc");
    Text2(Piece(Add, 0, 1), Piece(Add, 2, 1), "", "abc");
  }

  /** Rows installed by `set_rows` may name the add buffer while it is
      still empty: `insert(c, 1)` on the rows [add 0..1] then reaches the
      coalescing test with a one-character add buffer, and `len - 2`
      underflows. */
  lemma AppendableUnderflowExample()
    ensures AppendableUnderflows(Piece(Add, 0, 1), 1)
    ensures InsertAsWritten([Piece(Add, 0, 1)], 1, 1) == None
  {
    assert ScanFrom([Piece(Add, 0, 1)], 1, 0, 0) == Scan(true, 0, 1, None);
  }

  /** Once every piece is deleted, insert finds no row and returns: after
      `new("a")` and `delete(1)`, `insert(c, 0)` leaves the document empty;
      the corrected insert gives "c". */
  lemma EmptiedTableExample()
    ensures DeleteAsWritten([Piece(Original, 0, 1)], 1) == Some([])
    ensures InsertAsWritten([], 1, 0) == Some([])
    ensures Text(InsertRows([], 1, 0), "a", "c") == "c"
  {
    var rows := [Piece(Original, 0, 1)];
    assert ScanFrom(rows, 1, 0, 0) == Scan(true, 0, 1, None);
    Text1(Piece(Add, 0, 1), "a", "c");
  }

  /** `shrink_or_delete_entry` uses the offset as a row number: after
      `new("abc")`, a backspace at the end (`delete(3)`) indexes row 2 of a
      one-row table and panics; the corrected delete leaves "ab". */
  lemma ShrinkRowIndexExample()
    ensures DeleteAsWritten([Piece(Original, 0, 3)], 3) == None
    ensures Text(DeleteRows([Piece(Original, 0, 3)], 3), "abc", "") == "ab"
  {
    var rows := [Piece(Original, 0, 3)];
    assert ScanFrom(rows, 3, 0, 0) == Scan(true, 0, 3, None);
    assert Locate(rows, 3) == Some(Position(0, 3));
    Text1(Piece(Original, 0, 2), "abc", "");
  }

  /** Deleting the first character of a piece keeps a head of length 0:
      after `new("abc")`, `delete(1)` leaves an empty piece in the rows,
      which the corrected delete drops. */
  lemma ZeroLengthHeadExample()
    ensures DeleteAsWritten([Piece(Original, 0, 3)], 1) == Some([Piece(Original, 0, 0), Piece(Original, 1, 2)])
    ensures !NonEmptyPieces([Piece(Original, 0, 0), Piece(Original, 1, 2)])
    ensures DeleteRows([Piece(Original, 0, 3)], 1) == [Piece(Original, 1, 2)]
    ensures NonEmptyPieces(DeleteRows([Piece(Original, 0, 3)], 1))
  {
    var rows := [Piece(Original, 0, 3)];
    assert ScanFrom(rows, 1, 0, 0) == Scan(true, 0, 1, None);
    assert DeleteAsWritten(rows, 1) == Some(rows[..0] + [Piece(Original, 0, 0), Piece(Original, 1, 2)] + rows[1..]);
    assert rows[..0] + [Piece(Original, 0, 0), Piece(Original, 1, 2)] + rows[1..] == [Piece(Original, 0, 0), Piece(Original, 1, 2)];
    assert Locate(rows, 1) == Some(Position(0, 1));
    assert [Piece(Original, 1, 2)][1..] == [];
  }

  /** `index` tests `i <= counter + length`, so a position at a piece's end
      reads past that piece: after `new("ab")`, `index(2)` unwraps a missing
      character and panics instead of giving the sentinel space; and with
      rows naming "a" of "ab" and then "X", `index(1)` gives 'b', not 'X'. */
  lemma IndexBoundaryExample()
    ensures IndexAsWritten([Piece(Original, 0, 2)], "ab", "", 2, 0, 0) == None
    ensures IndexAsWritten([Piece(Original, 0, 1), Piece(Add, 0, 1)], "ab", "X", 1, 0, 0) == Some('b')
    ensures Text([Piece(Original, 0, 1), Piece(Add, 0, 1)], "ab", "X") == "aX"
  {
    Text2(Piece(Original, 0, 1), Piece(Add, 0, 1), "ab", "X");
  }

  lemma Text4(w: Piece, x: Piece, y: Piece, z: Piece, original: seq<char>, add: seq<char>)
    requires w.length > 0 && Fits(w, original, add)
    requires x.length > 0 && Fits(x, original, add)
    requires y.length > 0 && Fits(y, original, add)
    requires z.length > 0 && Fits(z, original, add)
    ensures WellFormed([w, x, y, z], original, add)
    ensures Text([w, x, y, z], original, add)
         == Slice(w, original, add) + Slice(x, original, add) + Slice(y, original, add) + Slice(z, original, add)
  {
    assert [w, x, y, z][1..] == [x, y, z];
    Text3(x, y, z, original, add);
  }
}
