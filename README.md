# Eva editor: text-editing core

A Dafny model of the text-editing core of the Eva editor, found in `eva-editor/src/editor.rs`. It covers:

- **Buffer.** A buffer holds the UTF-8 bytes of its text, an optional file path, and a `modified` flag. It offers two splices, insert and delete. Both silently ignore an offset or a span that lies past the end of the text.
- **Cursor.** The single cursor is a byte offset. Its line and column are derived from that offset.
- **Editor.** The editor keeps a list of buffers and the index of the active one. It moves the cursor and applies typing and backspace to the active buffer. Every edit does nothing when the index names no buffer.

Text is modelled as bytes (`seq<byte>`), since Rust's `String` lengths and offsets are byte counts.

Rust panics when an offset falls inside a multi-byte character, in `insert_str`, `replace_range` and `&s[..p]`. The model turns each such case into a precondition, written with Rust's own `is_char_boundary` test: an offset is a boundary when it is 0, when it is the end of the text, or when the byte at it is not a continuation byte (0x80..0xBF).

Modules:

- `Common` (`common.dfy`): the byte type, `Option`, and the `Ok`/`IoError` outcome of file operations.
- `Splice` (`splice.dfy`): the char-boundary test, the two splices as functions, their round trips, and lemmas showing that splicing keeps char boundaries.
- `LineColumn` (`lines.dfy`): line and column as functions of the text and the offset. It also defines `OffsetOf`, the inverse map from a (line, column) pair back to an offset. Two lemmas show that this map and the forward one undo each other.
- `EditorCore` (`editor.dfy`): the classes `Buffer` and `Editor` and the `Cursor` value, with contracts stated in terms of the functions above. `Editor.CursorValid()` says that the cursor lies within the active buffer, on a char boundary, with the line and column derived from its offset. Moving the cursor, inserting text and deleting backward preserve it whenever their preconditions hold. The invariant does not make backspace safe: backspace counts bytes, and a count that stops inside a character is excluded by a precondition. Opening a file does not preserve the invariant.
- `Scenarios` (`scenarios.dfy`): clients that check the expected outcomes of typing, backspace and opening a file, the insert-then-delete round trip on a live buffer, and a backspace that would split a character.

Two behaviours of the code are easy to miss, and the model keeps both:

- Inserting empty text still marks the buffer modified.
- Deleting backward moves the cursor to the clamped start even when nothing was deleted. This happens when the cursor lies past the end of the text after a file switch.

## Model

| member | source | states |
|---|---|---|
| `Splice.Inserted` | eva-editor/src/editor.rs:43 | splicing text in at an offset lengthens the bytes by exactly the text's length |
| `Splice.Removed` | eva-editor/src/editor.rs:50 | removing the span `[start, end)` shortens the bytes by exactly `end - start` |
| `Splice.InsertThenRemove` | eva-editor/src/editor.rs:41-53 | for any offset within the text, inserting text there and then deleting `[p, p + len)` restores the original bytes |
| `Splice.RemoveThenInsert` | eva-editor/src/editor.rs:41-53 | deleting a span and inserting the deleted bytes back at its start restores the original bytes |
| `Splice.InsertedKeepsBoundaries` | eva-editor/src/editor.rs:43 | after an insert at a char boundary, every old boundary is still a boundary: offsets before the insert keep their place, and offsets from it on shift by the text's length (so the cursor target `p + len` is one) |
| `Splice.RemovedKeepsBoundaries` | eva-editor/src/editor.rs:50 | after a delete that ends on a boundary, the start of the deleted span is a boundary, and every other old boundary is still one, shifted left when it lay after the span |
| `Splice.InsertedStartsAtChar` | eva-editor/src/editor.rs:43 | inserting a `str` keeps the text from starting inside a character |
| `Splice.RemovedStartsAtChar` | eva-editor/src/editor.rs:50 | deleting a span that ends on a boundary keeps the text from starting inside a character |
| `LineColumn.CountNewlines` | eva-editor/src/editor.rs:120 | the count of `'\n'` is at most the length, and it is 0 exactly when no byte is `'\n'` |
| `LineColumn.LastNewline` | eva-editor/src/editor.rs:121 | `rfind('\n')` returns an index holding `'\n'` with no `'\n'` after it, or None exactly when there is no `'\n'` |
| `LineColumn.ColumnOf` | eva-editor/src/editor.rs:121-125 | the column is at most the offset, the bytes it spans hold no `'\n'`, and the byte just before them is a `'\n'` unless the column reaches back to offset 0 |
| `LineColumn.CountNewlinesAppend` | eva-editor/src/editor.rs:120 | the line-break count of a concatenation is the sum of the two counts |
| `LineColumn.OffsetOfLineColumn` | eva-editor/src/editor.rs:119-125 | the line and column derived from any offset within the text lead back to that offset |
| `LineColumn.LineColumnOfOffset` | eva-editor/src/editor.rs:119-125 | every offset reached from a (line, column) pair has exactly that line and column, so valid offsets and valid pairs correspond one to one |
| `EditorCore.CursorAt` | eva-editor/src/editor.rs:119-130 | the cursor computed for offset `p` has position `p`, and its line and column lead back to `p` |
| `EditorCore.DefaultCursorAtStart` | eva-editor/src/editor.rs:62-70 | the default cursor (0, 0, 0) is the cursor derived for offset 0 of any text |
| `EditorCore.SaturatingSub` | eva-editor/src/editor.rs:147 | `position.saturating_sub(count)` is at most `position`, equals `position - count` when `count <= position`, and is 0 otherwise |
| `EditorCore.Buffer.constructor` | eva-editor/src/editor.rs:14-21 | a new buffer is empty, has no file and is not modified |
| `EditorCore.Buffer.FromFile` | eva-editor/src/editor.rs:23-31 | a buffer built from a file's bytes holds those bytes and the path, and is not modified |
| `EditorCore.Buffer.Save` | eva-editor/src/editor.rs:33-39 | with no file, saving succeeds and leaves `modified` alone; a successful write clears `modified`; a failed write reports an I/O error and changes nothing |
| `EditorCore.Buffer.Insert` | eva-editor/src/editor.rs:41-46 | at an offset within the text, the new content is `content[..p] + text + content[p..]` and `modified` is set, even for empty text; past the end, content and `modified` are unchanged |
| `EditorCore.Buffer.Delete` | eva-editor/src/editor.rs:48-53 | when `start < end <= len`, the new content is `content[..start] + content[end..]` and `modified` is set; otherwise content and `modified` are unchanged |
| `EditorCore.Editor.constructor` | eva-editor/src/editor.rs:81-89 | a new editor has one fresh empty buffer, active, with the default cursor, and the cursor invariant holds |
| `EditorCore.Editor.ActiveBuffer` | eva-editor/src/editor.rs:98-104 | the active buffer is returned exactly when the index is in range, and None otherwise |
| `EditorCore.Editor.OpenFile` | eva-editor/src/editor.rs:91-96 | a loaded buffer is appended and made active, and the cursor is left unchanged; a failed read reports an I/O error and changes nothing |
| `EditorCore.Editor.MoveCursor` | eva-editor/src/editor.rs:106-131 | for an offset within the active text, the cursor becomes that offset, with its line as the count of `'\n'` before it and its column as the distance from the last `'\n'`; with no active buffer or an offset past the end, the cursor is untouched |
| `EditorCore.Editor.InsertText` | eva-editor/src/editor.rs:133-143 | inserts at the cursor, and moves the cursor to `position + len(text)` only when the text grew; a cursor past the end changes nothing; other buffers and the active buffer's file path are untouched, and the cursor invariant is preserved |
| `EditorCore.Editor.DeleteText` | eva-editor/src/editor.rs:145-152 | removes `[max(0, position - count), position)` when that span is non-empty and within the text, then moves the cursor to the clamped start whenever it lies within the text; other buffers and the active buffer's file path are untouched, and the cursor invariant is preserved |
| `EditorCore.Editor.SaveActiveBuffer` | eva-editor/src/editor.rs:154-159 | saves the active buffer and reports an I/O error exactly when its file write failed; the content and file path stay the same, `modified` is cleared only by a write that happened, and with no active buffer it succeeds |
| `Scenarios.CursorOnSecondLine` | eva-editor/src/editor.rs:119-125 | in `"ab\ncd"`, offset 4 is on line 1, column 1 |
| `Scenarios.BackspaceInsideCharacter` | eva-editor/src/editor.rs:145-152 | with the text "é" (bytes 0xC3 0xA9) and a valid cursor at 2, deleting 1 byte backward falls outside the precondition, because `replace_range(1..2, "")` would split the character |
| `Scenarios.InsertThenDelete` | eva-editor/src/editor.rs:41-53 | on a live buffer, `insert(p, s)` followed by `delete(p, p + len(s))` restores the content and leaves the buffer modified |

The client methods `Scenarios.InsertAtStart`, `Scenarios.DeleteToStart` and `Scenarios.OpenFileKeepsCursor` check three expected behaviours through the editor's contracts:

- `"ab"` with the cursor at 0: typing `"X"` gives `"Xab"` with the cursor at 1.
- `"ab"` with the cursor at 2: deleting 2 backward gives `""` with the cursor at 0.
- After a file is opened, the old cursor can lie past the end of the new active text. Typing then changes nothing.

## Left out

- File I/O: the read in `Buffer::from_file` and `Editor::open_file`, and the write in `Buffer::save`. Their outcomes are parameters: the bytes read (or `None` for a failed read) and whether the write succeeded.
- The `syntax`, `syntax_set` and `theme_set` fields and their loading in `Editor::new`: objects of an external highlighting library with no behaviour in this code.
- Full UTF-8 validity of the content is not modelled. The model keeps only its consequence that the text does not start with a continuation byte (`Splice.StartsAtChar`), which the cursor moves rely on. Line breaks are counted as the byte 0x0A, which in UTF-8 never occurs inside a multi-byte character.
- Panics on offsets inside a character are modelled as preconditions, not as an outcome.
- EditorCore.Editor.DeleteText: backspace counts bytes, not characters, so a count that stops inside a multi-byte character is excluded by the precondition (the source panics there, in `replace_range`). The cursor invariant does not rule this out (`Scenarios.BackspaceInsideCharacter`).
- `usize` width: offsets and lengths are unbounded naturals. `position + text.len()` cannot overflow in the source, because a `String` holds at most `isize::MAX` bytes.
- EditorCore.Editor.OpenFile: requires the loaded buffer not to be one of the open buffers already; in the source the `Vec` takes ownership of a freshly read buffer, so the case cannot arise.
- `get_active_buffer` and `get_active_buffer_mut` are one function, `EditorCore.Editor.ActiveBuffer`, because shared and mutable borrows coincide in the model.
- Rendering, fonts, shaders, themes, the window and the event loop (`font.rs`, `shader.rs`, `renderer.rs`, `ui.rs`, `theme.rs`, `main.rs`): graphics-library calls and floating-point drawing, not part of this model.
