/** The cursor the console splitter keeps when no text device is attached (ConSplitter.c). */
module ConSplitterCursor {
  import opened TextScreen

  class VirtualConsole {
    var cursorColumn: nat
    var cursorRow: nat

    constructor ()
      ensures cursorColumn == 0 && cursorRow == 0
    {
      cursorColumn, cursorRow := 0, 0;
    }

    /** The part of OutputString that serves the virtual device. */
    method OutputString(w: seq<Char16>, maxColumn: nat, maxRow: nat)
      requires cursorColumn < maxColumn && cursorRow < maxRow
      modifies this
      ensures cursorColumn < maxColumn && cursorRow < maxRow
      ensures Cursor(cursorColumn, cursorRow)
              == MoveCursorOver(Cursor(old(cursorColumn), old(cursorRow)), w, maxColumn, maxRow)
    {
      ghost var start := Cursor(cursorColumn, cursorRow);
      var i := 0;
      while i < |w|
        invariant i <= |w| && cursorColumn < maxColumn && cursorRow < maxRow
        invariant Cursor(cursorColumn, cursorRow) == MoveCursorOver(start, w[..i], maxColumn, maxRow)
      {
        assert w[..i + 1][..i] == w[..i];
        if w[i] == CHAR_BACKSPACE {
          if cursorColumn == 0 && cursorRow > 0 {
            cursorRow := cursorRow - 1;
            cursorColumn := maxColumn - 1;
          } else if cursorColumn > 0 {
            cursorColumn := cursorColumn - 1;
          }
        } else if w[i] == CHAR_LINEFEED {
          if cursorRow < maxRow - 1 {
            cursorRow := cursorRow + 1;
          }
        } else if w[i] == CHAR_CARRIAGE_RETURN {
          cursorColumn := 0;
        } else if cursorColumn < maxColumn - 1 {
          cursorColumn := cursorColumn + 1;
        } else {
          cursorColumn := 0;
          if cursorRow < maxRow - 1 {
            cursorRow := cursorRow + 1;
          }
        }
        i := i + 1;
      }
      assert w[..i] == w;
    }
  }
}
