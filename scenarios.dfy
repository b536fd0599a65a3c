/**
 * Clients of the editor model: the expected outcomes of typing and
 * backspace, the insert/delete round trip on a live buffer, what opening a
 * file does to the cursor, and a backspace the source cannot perform.
 */
module Scenarios {
  import opened Common
  import opened Splice
  import opened LineColumn
  import opened EditorCore

  /** In "ab\ncd" the offset of 'd' lies on line 1, column 1. */
  lemma CursorOnSecondLine()
    ensures CursorAt([97, 98, 10, 99, 100], 4) == Cursor(4, 1, 1)
  {

  }

  /**
   * Inserting `text` at `position` and then deleting the span it occupies
   * leaves the buffer's content as it was; the buffer stays marked modified.
   */
  method InsertThenDelete(b: Buffer, position: nat, text: seq<byte>)
    requires b.Valid() && StartsAtChar(text)
    requires position <= |b.content| && IsCharBoundary(b.content, position)
    modifies b
    ensures b.content == old(b.content) && b.modified && b.Valid()
  {
    ghost var original := b.content;
    b.Insert(position, text);
    InsertedKeepsBoundaries(original, position, text, position);
    assert text != [] && position < |b.content| ==> b.content[position] == text[0];
    b.Delete(position, position + |text|);
    InsertThenRemove(original, position, text);
    if text == [] {
      assert Inserted(original, position, text) == original;
    }
  }

  /** The texts of the insert scenario below. */
  lemma InsertAtStartText()
    ensures Inserted([97, 98], 0, [88]) == [88, 97, 98]
    ensures CursorAt([88, 97, 98], 1) == Cursor(1, 0, 1)
  {

  }

  /** "ab" with the cursor at 0: inserting "X" gives "Xab" and the cursor at 1. */
  method InsertAtStart() {
    var e := new Editor();
    var ab := new Buffer.FromFile("ab.txt", [97, 98]);
    var _ := e.OpenFile(Some(ab));
    assert e.buffers[e.activeBuffer] == ab && e.cursor.position == 0;
    InsertAtStartText();
    e.InsertText([88]);
    assert ab.content == [88, 97, 98];
    assert e.cursor == Cursor(1, 0, 1);
  }

  /** The texts of the delete scenario below. */
  lemma DeleteToStartText()
    ensures Removed([97, 98], 0, 2) == []
    ensures CursorAt([], 0) == DefaultCursor
  {

  }

  /** "ab" with the cursor at 2: deleting 2 bytes backward gives "" and the cursor at 0. */
  method DeleteToStart() {
    var e := new Editor();
    var ab := new Buffer.FromFile("ab.txt", [97, 98]);
    var _ := e.OpenFile(Some(ab));
    e.MoveCursor(2);
    assert e.cursor.position == 2;
    e.DeleteText(2);
    DeleteToStartText();
    assert ab.content == [];
    assert e.cursor == DefaultCursor;
  }

  /**
   * Opening a file keeps the cursor: after "abc" with the cursor at 3, an
   * empty file opened leaves the cursor past the end of the new active
   * buffer, where typing changes nothing.
   */
  method OpenFileKeepsCursor() {
    var e := new Editor();
    e.InsertText([97, 98, 99]);
    var loaded := new Buffer.FromFile("empty.txt", []);
    var r := e.OpenFile(Some(loaded));
    assert r == Ok && e.activeBuffer == 1;
    assert e.cursor.position == 3 > |e.buffers[1].content|;
    assert !e.CursorValid();
    e.InsertText([88]);
    assert e.buffers[1].content == [] && !e.buffers[1].modified;
  }

  /**
   * Backspace counts bytes: with "\u00e9" (0xC3 0xA9) and a valid cursor at
   * its end, deleting one byte would split the character, so the call is
   * outside DeleteText's precondition (the source panics there).
   */
  lemma BackspaceInsideCharacter()
    ensures StartsAtChar([0xC3, 0xA9])
    ensures CursorFits([0xC3, 0xA9], Cursor(2, 0, 2))
    ensures !DeleteBackwardInBounds([0xC3, 0xA9], 2, 1)
  {
    var s: seq<byte> := [0xC3, 0xA9];
    assert s[..2] == s && s[1..] == [0xA9] && s[1..][1..] == [];
  }
}
