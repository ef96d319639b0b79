# wasm-core text engine, modelled in Dafny

This project models the text engine of the `wasm-core` crate. The engine is a
piece-table text buffer with cached line-start offsets. On top of it sit a
two-stack undo/redo history of edit operations, and a `Document` that
bounds-checks every edit, records it and can undo and redo it. It also models
the line/column `Position` and `Range` values.

Modules follow the crate's files:

- `Wrappers` (wrappers.dfy) — `Option`.
- `TextLines` (text_lines.dfy) — reference definitions of lines in a text:
  the count of `'\n'`, the offsets after each `'\n'`, the split into lines, and
  the offset ↔ (line, column) maps. The piece table is measured against these.
- `Positions` (position.dfy) — `position.rs`.
- `Operations` (operations.dfy) — `operations.rs`, plus `Describes`: an
  operation faithfully records the edit from one text to another.
- `Histories` (history.rs) — the undo and redo stacks, bounded at 1000 entries.
- `PieceTables` (piece_table.dfy) — `piece_table.rs`. A table is an immutable
  value. Its meaning is `Text(t)`, the concatenation of its pieces' buffer
  slices. `Valid(t)` says:
  - every piece lies inside its buffer;
  - every piece's cached line starts are those of its slice;
  - `total_length` and `line_count` agree with the text.

  Every operation keeps `Valid` and states its effect on `Text`. The Rust loops
  become loops or front-to-back scans with invariants over the text read so far.
- `Documents` (document.dfy) — `lib.rs`. The invariant `Inv` says:
  - the piece table is valid;
  - the history is bounded;
  - reading the undo stack from the top, each operation records the edit that
    produced the text under it;
  - likewise each redo-stack operation records the edit that redo would make.

  From `Inv`, undo always restores the text before the undone edit, and redo
  restores the text after it. This holds in every reachable document, not
  only right after an edit.

Strings are `seq<char>`. Each character stands for one byte of the UTF-8 text,
so lengths, offsets and columns are byte counts, as in the crate.

## Model

| member | source | states |
|---|---|---|
| PieceTables.ComputeLineStarts | packages/wasm-core/src/piece_table.rs:34-42 | the result holds, in order, the offset just after every '\n' of the text; it has as many entries as the text has line feeds |
| PieceTables.NewPiece | packages/wasm-core/src/piece_table.rs:24-32 | a piece keeps its buffer, start and length; its cached line starts are those of its text; its line count is that text's number of '\n' |
| TextLines.LineStartsCorrect | packages/wasm-core/src/piece_table.rs:34-42 | each cached line start follows a '\n', and it is the start of line j + 1 for its index j (the '\n' count before it is j + 1) |
| PieceTables.New | packages/wasm-core/src/piece_table.rs:67-84 | a new table is valid, its text is the initial content, its length is the content length, and its line count is the number of '\n' plus one; the add buffer is empty |
| PieceTables.GetText | packages/wasm-core/src/piece_table.rs:87-97 | concatenating the pieces' buffer slices gives the document text, whose length is the sum of the piece lengths |
| PieceTables.GetLength | packages/wasm-core/src/piece_table.rs:100-102 | on a valid table the cached length is the length of the text |
| PieceTables.GetLineCount | packages/wasm-core/src/piece_table.rs:105-107 | on a valid table the cached line count is the number of '\n' plus one, which is the number of lines the text splits into |
| PieceTables.LengthIsSumOfPieces | packages/wasm-core/src/piece_table.rs:52-63 | in a valid table the cached total length equals the sum of the piece lengths |
| PieceTables.GetTextRange | packages/wasm-core/src/piece_table.rs:110-156 | the result is the text from `offset` to `offset + length`, with both ends clipped to the text's end (empty past the end) |
| PieceTables.GetLine | packages/wasm-core/src/piece_table.rs:159-179 | None exactly when `line` is not below the line count; otherwise line number `line` of the text split at '\n', without its line feed |
| PieceTables.GetLineOffset | packages/wasm-core/src/piece_table.rs:182-205 | None exactly when `line` is not below the line count; otherwise the offset where that line starts (0, or just after the line-th '\n') |
| PieceTables.Insert | packages/wasm-core/src/piece_table.rs:208-227 | the table stays valid; `text` is spliced into the text at `offset`, or appended when `offset` is past the end; the original buffer is unchanged and the add buffer only grows by `text` |
| PieceTables.InsertPieceAtOffset | packages/wasm-core/src/piece_table.rs:283-324 | the new piece list is well formed, and its text is the old text with the new piece's text placed at `offset` (at the end when past it), whether the piece goes first, last or into a split piece |
| PieceTables.SplitPiece | packages/wasm-core/src/piece_table.rs:365-373 | the part of a piece from `offset` for `length` bytes stays in bounds, reads the matching slice of the piece's text and caches that slice's line starts |
| PieceTables.DeleteRange | packages/wasm-core/src/piece_table.rs:326-363 | the kept pieces are well formed, and their text is the old text with the part of `offset .. offset + length` inside it removed |
| PieceTables.Delete | packages/wasm-core/src/piece_table.rs:230-242 | the table stays valid; the part of `offset .. offset + length` inside the text is removed; a zero length or an offset at or past the end changes nothing |
| PieceTables.DeleteAsWritten | packages/wasm-core/src/piece_table.rs:230-242 | the source's delete: the pieces and the line count are right, but the table is valid after a non-empty delete exactly when `offset + length` does not pass the end |
| PieceTables.WrappedLengthRight | packages/wasm-core/src/piece_table.rs:240 | under 32-bit wrap-around, subtracting the requested length gives the new text length exactly when the range does not pass the end |
| PieceTables.OffsetToPosition | packages/wasm-core/src/piece_table.rs:245-272 | with the offset clamped to the text's end, the line is the number of '\n' before it and the column is the distance from that line's start; the line is below the line count |
| PieceTables.PositionToOffset | packages/wasm-core/src/piece_table.rs:275-281 | None exactly when `line` is not below the line count; otherwise the line's start plus the column clamped to the line's length |
| TextLines.OffsetPositionOffset | packages/wasm-core/src/piece_table.rs:446-461 | turning an offset into (line, column) and back gives the offset again |
| TextLines.PositionOffsetPosition | packages/wasm-core/src/piece_table.rs:275-281 | turning (line, column) into an offset and back gives the same line and the column clamped to that line's length |
| TextLines.SplitJoinRoundTrip | packages/wasm-core/src/piece_table.rs:159-179 | joining the lines of a text with '\n' gives the text back, so the lines `get_line` serves cover the text exactly |
| TextLines.SplitLinesSegment | packages/wasm-core/src/piece_table.rs:159-179 | line `l` of the text is the text between that line's start and the next '\n' (or the end) |
| TextLines.LineUpToNext | packages/wasm-core/src/piece_table.rs:164-176 | reading from a line's start up to the next line's start (or the end), then dropping one final '\n', gives exactly that line |
| Positions.NewPosition | packages/wasm-core/src/position.rs:13-15 | the position holds the given line and column |
| Positions.Zero | packages/wasm-core/src/position.rs:17-19 | the origin is line 0, column 0 |
| Positions.OriginAgrees | packages/wasm-core/src/position.rs:17-25 | `zero()`, `default()` and `new(0, 0)` are the same position |
| Positions.NewRange | packages/wasm-core/src/position.rs:38-40 | the range holds the given start and end |
| Positions.FromPositions | packages/wasm-core/src/position.rs:42-47 | building a range from four numbers equals building it from the two positions they name |
| Positions.IsEmpty | packages/wasm-core/src/position.rs:50-52 | a range is empty exactly when its start and end coincide |
| Positions.Contains | packages/wasm-core/src/position.rs:55-66 | a range holds a position exactly when start <= p < end in (line, column) order |
| Positions.EndNotContained | packages/wasm-core/src/position.rs:55-66 | a range never holds its own end, so an empty range holds nothing |
| Operations.New | packages/wasm-core/src/operations.rs:30-38 | an operation of any kind keeps its fields and has no old text |
| Operations.NewReplace | packages/wasm-core/src/operations.rs:40-48 | a Replace keeps the replaced length, the new text as its text and the replaced text as its old text |
| Operations.ForInsert | packages/wasm-core/src/operations.rs:51-54 | an Insert's length is the length of its text; it has no old text |
| Operations.ForDelete | packages/wasm-core/src/operations.rs:57-60 | a Delete keeps the removed text, and its length is that text's length |
| Operations.ForInsertDescribes | packages/wasm-core/src/lib.rs:63-78 | the operation `insert` records faithfully describes inserting its text at its offset |
| Operations.ForDeleteDescribes | packages/wasm-core/src/lib.rs:82-98 | the operation `delete` records, holding the removed bytes, faithfully describes the deletion |
| Operations.NewReplaceDescribes | packages/wasm-core/src/lib.rs:102-114 | the operation `replace` records, holding the replaced bytes, faithfully describes the replacement |
| Operations.DescribesDeterminesBefore | packages/wasm-core/src/lib.rs:193-208 | an operation and the text after it determine the text before it, so undoing it has only one right answer |
| Histories.New | packages/wasm-core/src/history.rs:16-21 | a new history has empty undo and redo stacks |
| Histories.Push | packages/wasm-core/src/history.rs:25-36 | the redo stack is emptied and the operation is the new undo top; past 1000 entries the oldest is dropped; the bound is kept |
| Histories.Undo | packages/wasm-core/src/history.rs:40-47 | on an empty undo stack nothing changes and None is returned; otherwise the undo top moves onto the redo stack and is returned |
| Histories.Redo | packages/wasm-core/src/history.rs:51-58 | on an empty redo stack nothing changes and None is returned; otherwise the redo top moves back onto the undo stack and is returned |
| Histories.CanUndo | packages/wasm-core/src/history.rs:61-63 | true exactly when `undo` would return an operation |
| Histories.CanRedo | packages/wasm-core/src/history.rs:66-68 | true exactly when `redo` would return an operation |
| Histories.Clear | packages/wasm-core/src/history.rs:81-84 | after clearing, neither undo nor redo is possible |
| Histories.UndoThenRedo | packages/wasm-core/src/history.rs:40-58 | undo followed by redo gives back both stacks and redoes the same operation |
| Histories.RedoThenUndo | packages/wasm-core/src/history.rs:40-58 | redo followed by undo gives back both stacks and undoes the same operation |
| Histories.MovesPreserveTotal | packages/wasm-core/src/history.rs:71-78 | undo and redo keep the sum of the two stack sizes, and so keep the bound |
| Documents.New | packages/wasm-core/src/lib.rs:24-29 | a new document meets the invariant; its text is the initial content, or empty when there is none; both stacks are empty |
| Documents.Insert | packages/wasm-core/src/lib.rs:63-78 | succeeds exactly when `offset` is within the text; on failure nothing changes; on success `text` is spliced in at `offset` and an Insert of it is pushed; the invariant is kept |
| Documents.Delete | packages/wasm-core/src/lib.rs:82-98 | succeeds exactly when `offset + length` is within the text; on failure nothing changes; on success that range is removed and a Delete holding the removed bytes is pushed |
| Documents.Replace | packages/wasm-core/src/lib.rs:102-114 | succeeds exactly when `offset + length` is within the text; on failure nothing changes; on success the range is replaced by `text` and one Replace holding the old and new text is pushed |
| Documents.Undo | packages/wasm-core/src/lib.rs:118-125 | succeeds exactly when the history can undo; on failure nothing changes; on success the history is popped and the text becomes the one the undone operation started from |
| Documents.Redo | packages/wasm-core/src/lib.rs:129-136 | succeeds exactly when the history can redo; on failure nothing changes; on success the history is popped and the text becomes the one the redone operation produces |
| Documents.ClearHistory | packages/wasm-core/src/lib.rs:152-154 | the text is untouched, the invariant is kept, and neither undo nor redo is possible |
| Documents.GetTextRange | packages/wasm-core/src/lib.rs:158-163 | None exactly when `offset + length` passes the end of the text; otherwise exactly the bytes from `offset` to `offset + length` |
| Documents.ApplyOperation | packages/wasm-core/src/lib.rs:178-191 | the table stays valid and its text becomes `Redone(op, text)` (a Replace first removes as many bytes as its old text holds) |
| Documents.ApplyInverseOperation | packages/wasm-core/src/lib.rs:193-208 | the table stays valid and its text becomes `Undone(op, text)` (a Replace first removes as many bytes as its new text holds, then puts the old text back) |
| Documents.RedoneDescribed | packages/wasm-core/src/lib.rs:178-191 | re-applying an operation that describes the edit from `before` to `after` turns `before` into `after` |
| Documents.UndoneDescribed | packages/wasm-core/src/lib.rs:193-208 | inverting an operation that describes the edit from `before` to `after` turns `after` back into `before` |
| Documents.UndoChainDropOldest | packages/wasm-core/src/history.rs:33-35 | dropping the oldest undo entry keeps every remaining entry a faithful record |
| Documents.PushKeeps | packages/wasm-core/src/history.rs:25-36 | pushing a faithful record of the latest edit keeps the history bounded and both stacks faithful to the new text |
| Documents.ApplyEdit | packages/wasm-core/src/lib.rs:63-114 | any of the three edits, when accepted, leaves a faithful record of itself on top of the undo stack and an empty redo stack |
| Documents.EditUndoRedo | packages/wasm-core/src/lib.rs:63-136 | after an accepted edit, undo succeeds and gives back the text from before the edit, and then redo succeeds and gives back the text from after it |
| Wrappers.UnwrapOr | packages/wasm-core/src/lib.rs:26 | the value inside an option, or the fallback when there is none |

## Left out

- The `wasm_bindgen` glue, `init`, and the `serde_wasm_bindgen` conversion of a `Position` to a JavaScript value (lib.rs:167-170) are left out. The position itself is modelled by `PieceTables.OffsetToPosition`.
- `Document`'s one-line delegations are not repeated as members. These are `get_text`, `get_length`, `get_line_count`, `get_line`, `get_line_offset`, `can_undo`, `can_redo`, `offset_to_position` and `position_to_offset`. They are the piece-table and history members above, applied to the document's `pt` and `history`.
- UTF-8 is left out: a `char` stands for one byte. Slicing inside a multi-byte character, which panics in Rust, is not modelled.
- Allocation, `Clone`, and `Debug` are left out.
- `UndoCount` and `RedoCount` are plain stack sizes and carry no contract of their own. `Histories.MovesPreserveTotal` states what undo and redo do to them.
- Documents.Delete: `usize` is an unbounded `nat`, so the guard's `offset + length` never overflows. On wasm32 (32-bit `usize`) a release build wraps it, and a huge `length` slips past the guard. This is not modelled.
- Documents.Replace: the guard's `offset + length` overflow on 32-bit `usize` is not modelled, as for `Documents.Delete`.
- Documents.GetTextRange: the guard's `offset + length` overflow on 32-bit `usize` is not modelled, as for `Documents.Delete`.
- PieceTables.GetTextRange: `offset + length` is computed without 32-bit wrap-around.
- PieceTables.DeleteRange: `offset + length` is computed without 32-bit wrap-around.
- PieceTables.Delete: states the intended length update (the number of bytes actually removed), not the source's `total_length -= length`. The source behaviour is `PieceTables.DeleteAsWritten`; see Findings. `Documents` uses this corrected delete. Behind `Document`'s guards the range always fits, and there `DeleteAsWritten` also keeps the table valid, so the two agree on every call a document makes.
- PieceTables.DeleteAsWritten: models the release-build wrap-around of `total_length -= length` modulo 2^32. A debug build panics on that underflow instead.
- PieceTables.GetLine and PieceTables.PositionToOffset: the `?` and `unwrap_or` fallbacks (piece_table.rs:164-168, 276-277) cannot be taken on a valid table, so they have no separate path in the model.
- PieceTables.GetLineOffset: the final `None` after the scan (piece_table.rs:204) cannot be reached on a valid table, so it has no separate path in the model.

## Findings

| source | as written | input that shows it | evidently intended | confidence | as-written member | corrected member |
|---|---|---|---|---|---|---|
| packages/wasm-core/src/piece_table.rs:240 | `delete` lowers `total_length` by the requested `length`, but `delete_range` only removes the part of the range inside the text | `PieceTable::new("hello")`, then `delete(3, 3)`: the text becomes "hel" (3 bytes) while `total_length` becomes 2 | lower `total_length` by the number of bytes actually removed | not executed | PieceTables.DeleteAsWritten | PieceTables.Delete |

`PieceTables.DeletePastEndWitness` spells out the "hello" example, and
`PieceTables.WrappedLengthRight` shows that the subtraction is right exactly
when the range does not pass the end.
