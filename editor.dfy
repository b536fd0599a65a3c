/**
 * The text-editing state of the editor: buffers of UTF-8 bytes, one cursor
 * kept as a byte offset with the line and column derived from it, and the
 * editor that applies the cursor's edits to the active buffer.
 */
module EditorCore {
  import opened Common
  import opened Splice
  import opened LineColumn

  /** A file-system path, kept only as the buffer's association to its file. */
  type Path = string

  /** An editable text with its file association and its unsaved-changes flag. */
  class Buffer {
    var content: seq<byte>
    var filePath: Option<Path>
    var modified: bool

    /** The part of "content is valid UTF-8" that the edits rely on. */
    predicate Valid()
      reads this
    {
      StartsAtChar(content)
    }

    /** An empty buffer with no file. */
    constructor ()
      ensures Valid()
      ensures content == [] && filePath == None && !modified
    {
      content := [];
      filePath := None;
      modified := false;
    }

    /** The buffer made from the bytes read from `path`; the read itself is not part of this model. */
    constructor FromFile(path: Path, read: seq<byte>)
      requires StartsAtChar(read)
      ensures Valid()
      ensures content == read && filePath == Some(path) && !modified
    {
      content := read;
      filePath := Some(path);
      modified := false;
    }

    /**
     * Writes the content to the buffer's file, if it has one. `written` is
     * the outcome of that write; only a write that happened clears `modified`,
     * and a failed write is reported and changes nothing.
     */
    method Save(written: bool) returns (r: Outcome)
      modifies this`modified
      ensures filePath.None? ==> r == Ok && modified == old(modified)
      ensures filePath.Some? && written ==> r == Ok && !modified
      ensures filePath.Some? && !written ==> r == IoError && modified == old(modified)
    {
      r := Ok;
      if filePath.Some? {
        if !written {
          return IoError;
        }
        modified := false;
      }
    }

    /**
     * Splices `text` in at byte offset `position` and marks the buffer
     * modified, even when `text` is empty. An offset past the end is
     * ignored. An offset inside a character would panic in the source.
     */
    method Insert(position: nat, text: seq<byte>)
      requires position <= |content| ==> IsCharBoundary(content, position)
      modifies this`content, this`modified
      ensures position <= |old(content)| ==> content == Inserted(old(content), position, text) && modified
      ensures position > |old(content)| ==> content == old(content) && modified == old(modified)
      ensures old(Valid()) && StartsAtChar(text) ==> Valid()
    {
      if position <= |content| {
        if Valid() && StartsAtChar(text) {
          InsertedStartsAtChar(content, position, text);
        }
        content := Inserted(content, position, text);
        modified := true;
      }
    }

    /**
     * Removes the bytes in `[start, end)` and marks the buffer modified.
     * An empty, reversed or out-of-range span is ignored. An end inside a
     * character would panic in the source.
     */
    method Delete(start: nat, end: nat)
      requires start < end <= |content| ==> IsCharBoundary(content, start) && IsCharBoundary(content, end)
      modifies this`content, this`modified
      ensures start < end <= |old(content)| ==> content == Removed(old(content), start, end) && modified
      ensures !(start < end <= |old(content)|) ==> content == old(content) && modified == old(modified)
      ensures old(Valid()) ==> Valid()
    {
      if start < end && end <= |content| {
        if Valid() {
          RemovedStartsAtChar(content, start, end);
        }
        content := Removed(content, start, end);
        modified := true;
      }
    }
  }

  /** A byte offset with the zero-based line and column derived from it. */
  datatype Cursor = Cursor(position: nat, line: nat, column: nat)

  /** `Cursor::default()`: offset 0 on line 0, column 0. */
  const DefaultCursor := Cursor(0, 0, 0)

  /**
   * The cursor at offset `p` of `s`: line and column computed from the bytes
   * before `p`, which locate `p` again.
   */
  function CursorAt(s: seq<byte>, p: nat): (c: Cursor)
    requires p <= |s|
    ensures c.position == p
    ensures OffsetOf(s, c.line, c.column) == Some(p)
  {
    OffsetOfLineColumn(s, p);
    Cursor(p, LineOf(s, p), ColumnOf(s, p))
  }

  /** The default cursor is the cursor at offset 0 of every text. */
  lemma DefaultCursorAtStart(s: seq<byte>)
    ensures CursorAt(s, 0) == DefaultCursor
  {
    assert s[..0] == [];
  }

  /**
   * The cursor agrees with the text: its offset lies within it on a char
   * boundary and its line and column are the ones derived from the offset.
   */
  predicate CursorFits(s: seq<byte>, c: Cursor) {
    c.position <= |s| && IsCharBoundary(s, c.position) && c == CursorAt(s, c.position)
  }

  /** The open buffers, the index of the active one, and the single cursor. */
  class Editor {
    var buffers: seq<Buffer>
    var activeBuffer: nat
    var cursor: Cursor

    /** The editor owns its buffers: no buffer appears twice. */
    ghost predicate Valid()
      reads this
    {
      forall i, j :: 0 <= i < j < |buffers| ==> buffers[i] != buffers[j]
    }

    /**
     * The cursor fits the active buffer, whose content starts at a character.
     * Every edit keeps this; opening a file need not.
     */
    ghost predicate CursorValid()
      reads this, buffers
    {
      activeBuffer < |buffers| && buffers[activeBuffer].Valid() && CursorFits(buffers[activeBuffer].content, cursor)
    }

    /** One empty buffer, active, with the cursor at its start. */
    constructor ()
      ensures Valid() && CursorValid()
      ensures |buffers| == 1 && fresh(buffers[0]) && activeBuffer == 0
      ensures buffers[0].content == [] && buffers[0].filePath == None && !buffers[0].modified
      ensures cursor == DefaultCursor
    {
      var empty := new Buffer();
      buffers := [empty];
      activeBuffer := 0;
      cursor := DefaultCursor;
      new;
      DefaultCursorAtStart(empty.content);
    }

    /** `get_active_buffer` and `get_active_buffer_mut`: the active buffer, or None when the index is out of range. */
    function ActiveBuffer(): (b: Option<Buffer>)
      reads this
      ensures b.Some? <==> activeBuffer < |buffers|
      ensures b.Some? ==> b.value == buffers[activeBuffer]
    {
      if activeBuffer < |buffers| then Some(buffers[activeBuffer]) else None
    }

    /** The only buffer an edit may change: the active one, if there is one. */
    function ActiveFrame(): (frame: set<Buffer>)
      reads this
    {
      if activeBuffer < |buffers| then {buffers[activeBuffer]} else {}
    }

    /**
     * Adds the buffer read from a file and makes it active; the cursor is
     * left as it was. `loaded` is None when the read failed, which is
     * reported and changes nothing.
     */
    method OpenFile(loaded: Option<Buffer>) returns (r: Outcome)
      requires Valid()
      requires loaded.Some? ==> loaded.value !in buffers
      modifies this`buffers, this`activeBuffer
      ensures Valid()
      ensures loaded.None? ==> r == IoError && buffers == old(buffers) && activeBuffer == old(activeBuffer)
      ensures loaded.Some? ==> r == Ok && buffers == old(buffers) + [loaded.value] && activeBuffer == |buffers| - 1
      ensures cursor == old(cursor)
    {
      if loaded.None? {
        return IoError;
      }
      buffers := buffers + [loaded.value];
      activeBuffer := |buffers| - 1;
      r := Ok;
    }

    /**
     * Moves the cursor to byte offset `position` of the active buffer and
     * derives its line and column. Without an active buffer, or past the end
     * of its content, the cursor stays as it was.
     */
    method MoveCursor(position: nat)
      requires activeBuffer < |buffers| && position <= |buffers[activeBuffer].content| ==>
                 IsCharBoundary(buffers[activeBuffer].content, position)
      modifies this`cursor
      ensures activeBuffer < |buffers| && position <= |buffers[activeBuffer].content| ==>
                cursor == CursorAt(buffers[activeBuffer].content, position) &&
                CursorFits(buffers[activeBuffer].content, cursor)
      ensures !(activeBuffer < |buffers| && position <= |buffers[activeBuffer].content|) ==> cursor == old(cursor)
    {
      var active := ActiveBuffer();
      if active.None? {
        return;
      }
      var content := active.value.content;
      if position > |content| {
        return;
      }
      var before := content[..position];
      var lineCount := CountNewlines(before);
      var column := match LastNewline(before)
        case Some(i) => |before| - i - 1
        case None => |before|;
      cursor := Cursor(position, lineCount, column);
    }

    /**
     * Inserts `text` into the active buffer at the cursor. Only when the
     * content grew, which needs a non-empty `text`, does the cursor move to
     * the end of the inserted text.
     */
    method InsertText(text: seq<byte>)
      requires Valid()
      requires activeBuffer < |buffers| ==> buffers[activeBuffer].Valid()
      requires activeBuffer < |buffers| && cursor.position <= |buffers[activeBuffer].content| ==>
                 IsCharBoundary(buffers[activeBuffer].content, cursor.position)
      modifies this`cursor, ActiveFrame()
      ensures activeBuffer >= |buffers| ==> cursor == old(cursor)
      ensures activeBuffer < |buffers| && old(cursor.position) <= |old(buffers[activeBuffer].content)| ==>
                buffers[activeBuffer].content == Inserted(old(buffers[activeBuffer].content), old(cursor.position), text) &&
                buffers[activeBuffer].modified &&
                cursor == if text == [] then old(cursor) else CursorAt(buffers[activeBuffer].content, old(cursor.position) + |text|)
      ensures activeBuffer < |buffers| && old(cursor.position) > |old(buffers[activeBuffer].content)| ==>
                buffers[activeBuffer].content == old(buffers[activeBuffer].content) &&
                buffers[activeBuffer].modified == old(buffers[activeBuffer].modified) &&
                cursor == old(cursor)
      ensures activeBuffer < |buffers| ==> buffers[activeBuffer].filePath == old(buffers[activeBuffer].filePath)
      ensures old(CursorValid()) && StartsAtChar(text) ==> CursorValid()
    {
      var position := cursor.position;
      var active := ActiveBuffer();
      if active.Some? {
        var buffer := active.value;
        ghost var before := buffer.content;
        var oldLen := |buffer.content|;
        buffer.Insert(position, text);
        if |buffer.content| > oldLen {
          InsertedKeepsBoundaries(before, position, text, position);
          MoveCursor(position + |text|);
        } else if position <= oldLen {
          assert buffer.content == before;
        }
      }
    }

    /**
     * Deletes up to `count` bytes before the cursor from the active buffer
     * and moves the cursor to the start of the deleted span. The start is
     * clamped at 0; when the cursor lies past the end nothing is deleted,
     * but the cursor still moves to that start if it lies within the text.
     */
    method DeleteText(count: nat)
      requires Valid()
      requires activeBuffer < |buffers| ==>
                 DeleteBackwardInBounds(buffers[activeBuffer].content, cursor.position, count)
      modifies this`cursor, ActiveFrame()
      ensures activeBuffer >= |buffers| ==> cursor == old(cursor)
      ensures activeBuffer < |buffers| ==>
                var start := SaturatingSub(old(cursor.position), count);
                var b := buffers[activeBuffer];
                (start < old(cursor.position) <= |old(b.content)| ==>
                   b.content == Removed(old(b.content), start, old(cursor.position)) && b.modified) &&
                (!(start < old(cursor.position) <= |old(b.content)|) ==>
                   b.content == old(b.content) && b.modified == old(b.modified)) &&
                cursor == if start <= |b.content| then CursorAt(b.content, start) else old(cursor)
      ensures activeBuffer < |buffers| ==> buffers[activeBuffer].filePath == old(buffers[activeBuffer].filePath)
      ensures old(CursorValid()) ==> CursorValid()
    {
      var position := cursor.position;
      var start := SaturatingSub(position, count);
      var active := ActiveBuffer();
      if active.Some? {
        var buffer := active.value;
        ghost var before := buffer.content;
        buffer.Delete(start, position);
        if start < position <= |before| {
          RemovedKeepsBoundaries(before, start, position, position);
        }
        MoveCursor(start);
      }
    }

    /** Saves the active buffer, if there is one; `written` is the outcome of the file write. */
    method SaveActiveBuffer(written: bool) returns (r: Outcome)
      modifies ActiveFrame()
      ensures activeBuffer >= |buffers| ==> r == Ok
      ensures activeBuffer < |buffers| ==>
                var b := buffers[activeBuffer];
                (b.filePath.Some? && !written <==> r == IoError) &&
                (b.filePath.Some? && written ==> !b.modified) &&
                (!(b.filePath.Some? && written) ==> b.modified == old(b.modified)) &&
                b.content == old(b.content) && b.filePath == old(b.filePath)
    {
      r := Ok;
      var active := ActiveBuffer();
      if active.Some? {
        r := active.value.Save(written);
      }
    }
  }

  /** `usize::saturating_sub`: `a - n`, or 0 when `n` exceeds `a`. */
  function SaturatingSub(a: nat, n: nat): (r: nat)
    ensures r <= a
    ensures n <= a ==> r + n == a
    ensures n > a ==> r == 0
  {
    if n <= a then a - n else 0
  }

  /**
   * What deleting `count` bytes before offset `p` needs so that the source
   * does not panic: a span it removes starts and ends on char boundaries,
   * and the offset the cursor then moves to is a boundary of the text.
   */
  predicate DeleteBackwardInBounds(s: seq<byte>, p: nat, count: nat) {
    var start := SaturatingSub(p, count);
    (start < p <= |s| ==> IsCharBoundary(s, p)) && (start <= |s| ==> IsCharBoundary(s, start))
  }
}
