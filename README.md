# Piece table of the reditor terminal editor

This project models the piece table at the core of reditor, a terminal text
editor written in Rust. The table keeps the document as two buffers plus a
sequence of pieces:

- the original buffer is fixed when the table is built;
- the add buffer only ever grows, one pushed character per `insert`;
- each piece (`PieceTableEntry`) names a run `[start, start + length)` of one buffer;
- the document is the concatenation of the runs, in order.

`insert(c, i)` and `delete(i)` rewrite only the piece sequence. They coalesce, split, shrink or remove pieces, and never touch a stored character. `index(i)` reads one character.

Modules:

- `Pieces` (`pieces.dfy`) defines the data:
  - the buffer tag, the piece, and the document `Text`;
  - well-formedness: every piece lies inside its buffer and none is empty;
  - the lookup `Locate` shared by `insert` and `delete`, with lemmas about each of them.
- `PieceEdits` (`edits.dfy`) gives the two edits as functions on the piece sequence (`InsertRows`, `DeleteRows`, `ShrinkOrDelete`). It proves case by case that they keep the table well formed. It also proves that insert splices exactly `c` in at `i` and that delete cuts exactly the character before `i`.
- `Table` (`piece_table.dfy`) is the `PieceTable` class. Its fields `rows` and `add` are updated in place by imperative methods with the source's loops; `original` is a constant fixed when the table is built. Each method is proved against the functions of `PieceEdits` and against the ghost document `Doc()`.
- `EditLaws` (`edit_laws.dfy`) holds laws over several edits:
  - a backspace right after an insert restores the document;
  - typing a string splices it in;
  - typing a run costs new pieces only for its first character.
- `AsWritten` (`findings.dfy`) models the lookup, `insert`, `delete`, `shrink_or_delete_entry` and `index` as the Rust code writes them, with every panic rendered as a failure. Unlike the Rust code it works on unbounded naturals (see "Left out"). Next to each defect it gives a concrete input; see "Findings".

Conventions, following the code:

- `delete(i)` is a backspace at `i`:
  - it removes the character at `i - 1`;
  - `delete(0)` and deletes past the end change nothing.

  `delete` could also be read as removing the character at `i`; its arithmetic (lines 206-222) removes the one before it, and the model follows the code.
- The lookup tests `i <= counter + length`: the first piece whose end is at or after `i`. At a boundary between two pieces the earlier one is found, with the offset equal to its length. As a consequence, offset 0 only ever occurs in row 0 (`Pieces.Locate`).
- `insert` pushes its character before the lookup. An index past the end therefore still grows the add buffer but leaves the pieces alone.

## Model

| member | source | states |
|---|---|---|
| Pieces.Text | src/editor/piece_table.rs:2-13 | The document named by the pieces has exactly as many characters as the piece lengths add up to. |
| Pieces.TextAppend | src/editor/piece_table.rs:2-13 | The document of two piece sequences placed one after the other is the concatenation of their documents. |
| Pieces.TextAt | src/editor/piece_table.rs:60-68 | When position i falls inside piece j (between the total length of the earlier pieces and that plus j's length), the document's character i is the buffer character at j's start plus the offset. |
| Pieces.TextExtend | src/editor/piece_table.rs:81 | Appending to the add buffer leaves every existing piece inside its buffer and leaves the document unchanged. |
| Pieces.Locate | src/editor/piece_table.rs:91-103 | The lookup finds a row exactly when the table is non-empty and i is at most the document length. The row and offset it returns locate i (the earlier pieces' total plus the offset is i, with the offset at most the piece's length). The offset is 0 only in row 0. |
| Pieces.LocateUnique | src/editor/piece_table.rs:173-185 | Conversely, any position of i that lies in row 0 or strictly past the start of its piece is the one the lookup returns. |
| Pieces.LocateAtEnd | src/editor/piece_table.rs:92 | With no empty piece, the end of row r is found in row r itself with offset equal to its length (the `<=` test picks the earlier piece at a boundary). |
| PieceEdits.IsAppendable | src/editor/piece_table.rs:40-44 | The corrected coalescing test: the piece comes from the add buffer and ends exactly at the slot of the character just pushed (the add buffer's length minus 1 after the push). |
| PieceEdits.AppendableExtends | src/editor/piece_table.rs:40-44 | A piece passing the coalescing test, once grown by one, still lies in the pushed add buffer and names its old text followed by exactly the pushed character. |
| PieceEdits.NewPiece | src/editor/piece_table.rs:111-115 | The new piece comes from the add buffer, has length 1, and ends at the add buffer's end after the push. |
| PieceEdits.NewPieceText | src/editor/piece_table.rs:111-115 | The new piece names exactly the pushed character. |
| PieceEdits.InsertRows | src/editor/piece_table.rs:79-162 | An index past the end leaves the pieces unchanged; otherwise insert adds at most two pieces. |
| PieceEdits.ShrinkOrDelete | src/editor/piece_table.rs:46-55 | A piece of length 1 is removed (one row fewer); otherwise the row count is unchanged. |
| PieceEdits.DeleteRows | src/editor/piece_table.rs:164-226 | Index 0 and indexes past the end leave the pieces unchanged; a delete changes the piece count by at most one. |
| PieceEdits.InsertRowsText | src/editor/piece_table.rs:79-162 | For every well-formed table, insert keeps the table well formed against the pushed add buffer. For i up to the document length, the new document is old[..i] + [c] + old[i..]; past the end the document is unchanged, the character only being pushed. |
| PieceEdits.InsertBefore | src/editor/piece_table.rs:118-122 | Offset 0 (row 0): placing the new piece before the found piece splices c in at i and keeps the table well formed. |
| PieceEdits.InsertGrow | src/editor/piece_table.rs:135-140 | Offset at the piece's end with the coalescing test passing: growing that piece splices c in at i; the piece count is unchanged. |
| PieceEdits.InsertAfter | src/editor/piece_table.rs:141-144 | Offset at the piece's end without coalescing: the new piece after it splices c in at i. |
| PieceEdits.InsertInside | src/editor/piece_table.rs:147-161 | Offset strictly inside: head (length k), new piece, tail (start + k, length − k) splice c in at i and keep every piece non-empty and inside its buffer. |
| PieceEdits.SplitAround | src/editor/piece_table.rs:148-157 | Head, new piece and tail read as the old piece's text with c spliced in at offset k. |
| PieceEdits.ShrinkOrDeleteText | src/editor/piece_table.rs:46-55 | Shrinking or removing a piece keeps the table well formed (no zero-length piece). It removes exactly the document character just before the piece's end. |
| PieceEdits.DeleteRowsText | src/editor/piece_table.rs:164-226 | For every well-formed table, delete keeps it well formed. For 0 < i ≤ length the new document is old[..i-1] + old[i..]. |
| PieceEdits.DeleteFirst | src/editor/piece_table.rs:212-225 | Deleting a piece's first character leaves only its tail, dropping the empty head; exactly one character is cut. |
| PieceEdits.DeleteInside | src/editor/piece_table.rs:212-225 | Offset k strictly inside: head (length k − 1) and tail (start + k, length − k) cut exactly document character i − 1. |
| PieceEdits.CutPiece | src/editor/piece_table.rs:213-222 | Head and tail read as the old piece's text without its character k − 1. |
| Table.PieceTable.constructor | src/editor/piece_table.rs:22-34 | A new table is valid and its document is the given text. The original buffer is the text, the add buffer is empty, and there is one original piece of the text's full length (none for an empty text). |
| Table.PieceTable.SetRows | src/editor/piece_table.rs:36-38 | The rows are replaced; the table is valid exactly when the new rows are well formed against its buffers. |
| Table.PieceTable.Index | src/editor/piece_table.rs:57-77 | Within the document, the character read is the document's character i; past the end it is the space sentinel. |
| Table.PieceTable.Find | src/editor/piece_table.rs:91-103 | The lookup loop finds a row exactly when `Locate` does, and returns the same row and offset. |
| Table.PieceTable.ShrinkOrDeleteEntry | src/editor/piece_table.rs:46-55 | The rows become `ShrinkOrDelete` of the old rows at the given row. |
| Table.PieceTable.Insert | src/editor/piece_table.rs:79-162 | The add buffer gains c at its end. The rows become `InsertRows` of the old ones and the table stays valid. For i up to the length the document becomes old[..i] + [c] + old[i..]; past it the document is unchanged. |
| Table.PieceTable.Delete | src/editor/piece_table.rs:164-226 | The rows become `DeleteRows` of the old ones, the table stays valid, and no buffer changes. For 0 < i ≤ length the document becomes old[..i-1] + old[i..]; otherwise it is unchanged. |
| EditLaws.InsertThenDelete | src/editor/piece_table.rs:79-226 | `delete(i + 1)` right after `insert(c, i)` gives the old document back, on a well-formed table. |
| EditLaws.TypeText | src/editor/piece_table.rs:79-162 | Typing a string s at i, i + 1, … splices s into the document at i and keeps the table well formed. |
| EditLaws.InsertLands | src/editor/piece_table.rs:111-161 | The inserted character is the last character of some add-buffer piece q, which ends at the add buffer's end and at document position i + 1. |
| EditLaws.NextInsertCoalesces | src/editor/piece_table.rs:40-44 | When piece q ends at the add buffer's end, the next character typed right after it grows piece q in place instead of adding a piece. |
| EditLaws.GrowPiece | src/editor/piece_table.rs:137-140 | Growing a piece keeps every piece non-empty and moves its end one document position later. |
| EditLaws.TypeCoalesced | src/editor/piece_table.rs:135-140 | Once a typed character ends its piece at the add buffer's end, typing on never changes the piece count. |
| EditLaws.TypeRunPieces | src/editor/piece_table.rs:135-161 | Typing a run of n + 1 characters leaves as many pieces as the first character alone: at most two more than before. |
| EditLaws.TypeOnSingle | src/editor/piece_table.rs:135-140 | Typing at the end of a single add-buffer piece that ends at the buffer's end keeps a single piece, grown by the run's length. |
| EditLaws.TypeIntoEmpty | src/editor/piece_table.rs:105-115 | Typing n > 0 characters into an empty table gives a single add-buffer piece holding the whole run. |
| AsWritten.ScanFrom | src/editor/piece_table.rs:91-103 | The lookup loop as written: a found row is inside the table, and a previous row is reported exactly when the found position is not row 0. |
| AsWritten.IsAppendableAsWritten | src/editor/piece_table.rs:40-44 | The coalescing test as written: the piece comes from the add buffer and ends at the add buffer's length minus 2 after the push. |
| AsWritten.AppendableOneSlotEarly | src/editor/piece_table.rs:43 | The test as written accepts exactly the pieces the corrected test accepted one push earlier, so a piece the corrected test accepts is never accepted as written. |
| AsWritten.AppendableUnderflowExample | src/editor/piece_table.rs:43 | On rows installed by `set_rows` that name the still-empty add buffer, `insert(c, 1)` reaches the coalescing test with a one-character add buffer and fails on the `len - 2` underflow. |
| AsWritten.InsertAsWritten | src/editor/piece_table.rs:79-162 | `insert` as written: a failed lookup leaves the rows unchanged, a completed insert adds at most two rows. |
| AsWritten.ShrinkAsWritten | src/editor/piece_table.rs:46-55 | `shrink_or_delete_entry` as written succeeds only for an offset between 1 and the row count, removing one row for a piece of length 1. |
| AsWritten.DeleteAsWritten | src/editor/piece_table.rs:164-226 | `delete` as written: a failed lookup leaves the rows unchanged, and a completed delete changes the row count by at most one. |
| AsWritten.IndexAsWrittenScans | src/editor/piece_table.rs:57-77 | The loop of `index` as written is the lookup followed by a read of the piece's buffer at its start plus the offset. With no row found, the result is the space sentinel. |
| AsWritten.IndexAsWrittenReads | src/editor/piece_table.rs:57-77 | For rows inside their buffers, `index(i)` as written returns the space sentinel past the end, and the document's character i whenever i is strictly inside the piece the lookup finds. Only at a piece's end does it read the buffer character just past the piece, or fail when there is none. |
| AsWritten.StaleEntryExample | src/editor/piece_table.rs:108 | Splitting row 0 instead of the found row turns "abX" plus c at 3 into "abacb"; the corrected insert gives "abXc". |
| AsWritten.OffsetWithStartExample | src/editor/piece_table.rs:95 | Adding the piece's start to the offset puts c after "ab" instead of between a and b. |
| AsWritten.AppendableOffByOneExample | src/editor/piece_table.rs:43 | The `len - 2` test grows a piece over the wrong add-buffer slot, giving "ab" instead of "ac". |
| AsWritten.EmptiedTableExample | src/editor/piece_table.rs:105-106 | Once every piece is deleted, insert finds no row and the document stays empty; the corrected insert gives "c". |
| AsWritten.ShrinkRowIndexExample | src/editor/piece_table.rs:46-55 | Using the offset as a row number makes a backspace at the end of "abc" fail on an index out of bounds; the corrected delete leaves "ab". |
| AsWritten.ZeroLengthHeadExample | src/editor/piece_table.rs:213-225 | Deleting a piece's first character keeps a zero-length head; the corrected delete drops it and keeps every piece non-empty. |
| AsWritten.IndexBoundaryExample | src/editor/piece_table.rs:62 | The `<=` test in `index` reads past a piece at its end: it fails at the end of "ab", and reads 'b' instead of 'X' at a boundary. |

## Left out

- `u16` widths: positions, lengths and counters are unbounded naturals. The overflow of the `u16` additions (lines 43, 62, 64, 70, 92, 95, 99, 101, 128, 138, 155, 174, 177, 181, 183, 220) and the truncating `as u16` casts of the buffer lengths (lines 28, 43, 114) are not modelled. The subtractions that underflow (lines 43, 51, 154, 219) and the `(index as i32 - 1) as usize` of offset 0 (lines 48, 50) are modelled only in `AsWritten`, as a failure.
- Bytes versus characters: the buffers are sequences of characters, and a piece's length counts characters. The Rust code measures the initial text with `String::len`, a byte count (line 28), but reads with `chars().nth` (lines 66-67).
- The `dbg!` call in `delete` (line 193) is debug output and is not modelled.
- `new("")` gives a table with no piece rather than one piece of length 0 (lines 24-29). An insert into a table with no piece, at index 0, appends a new add-buffer piece; the Rust code instead finds no row and returns (lines 105-106).
- Table.PieceTable.Insert: the previous-piece branch (lines 123-132) is not modelled as a separate case. Offset 0 arises only in row 0, where there is no previous piece (`Pieces.Locate`), so the branch cannot be reached once the offset is computed without the piece's start.
- Table.PieceTable.Delete: the same holds for the previous-piece branch of `delete` (lines 196-203). Offset 0 means i = 0, and a backspace there changes nothing.
- `src/editor/window.rs`, `src/editor/keyboard.rs` and `src/editor.rs` are not part of this model: terminal I/O, event polling, and a key-dispatch loop that never calls the piece table.

## Findings

| source | as written | input that shows it | evidently intended | confidence | as-written member | corrected member |
|---|---|---|---|---|---|---|
| src/editor/piece_table.rs:108 | after a successful lookup, the piece compared and split is always row 0 (same at line 190) | original "ab", rows [original 0..2, add 0..1], add "Xc" after the push, insert at 3: document "abacb" | use the found piece: "abXc" | high, not executed | AsWritten.StaleEntryExample | PieceEdits.InsertRowsText |
| src/editor/piece_table.rs:95 | the in-piece offset adds the piece's start (same at line 177) | original "xab", rows [original 1..3], insert 'c' at 1: document "abc" | offset without the start: "acb" | high, not executed | AsWritten.OffsetWithStartExample | PieceEdits.InsertRowsText |
| src/editor/piece_table.rs:43 | `is_appendable` compares the piece's end with the add buffer's length minus 2 after the push | rows [add 0..1], add "abc" after the push, insert at 1: the piece grows over "b", document "ab" | minus 1: a new piece, document "ac" | high, not executed | AsWritten.AppendableOffByOneExample | PieceEdits.InsertRowsText |
| src/editor/piece_table.rs:105-106 | an insert that finds no row returns, even into a table with no piece | `new("a")`, `delete(1)`, `insert('c', 0)`: document stays "" | append a new piece: "c" | medium, not executed | AsWritten.EmptiedTableExample | PieceEdits.InsertRowsText |
| src/editor/piece_table.rs:48 | `shrink_or_delete_entry` uses the in-piece offset minus 1 as the row number (same at line 50) | `new("abc")`, `delete(3)`: row 2 of a one-row table, index out of bounds | shrink the found row: "ab" | high, not executed | AsWritten.ShrinkRowIndexExample | PieceEdits.ShrinkOrDeleteText |
| src/editor/piece_table.rs:213-216 | deleting a piece's first character keeps a head of length 0 | `new("abc")`, `delete(1)`: rows [original 0..0, original 1..3] | drop the empty head: rows [original 1..3] | medium, not executed | AsWritten.ZeroLengthHeadExample | PieceEdits.DeleteRowsText |
| src/editor/piece_table.rs:62 | `index` tests `i <= counter + length` | `new("ab")`, `index(2)`: `unwrap` of a missing character; rows [original 0..1, add 0..1] over "ab" and "X", `index(1)`: 'b' | strict `<`: the space sentinel, and 'X' | high, not executed | AsWritten.IndexBoundaryExample | Table.PieceTable.Index |
