/** The graphics console (GraphicsConsole.c): batched text output on a bitmap display, with
    an XOR cursor. */
module GraphicsConsole {
  import opened TextScreen
  import opened ScreenCells
  import opened CursorMarks

  const WIDE_ATTRIBUTE: bv8 := 0x80
  const COLOR_MASK: bv8 := 0x7F

  const CR_LF: seq<Char16> := [CHAR_CARRIAGE_RETURN, CHAR_LINEFEED]
  const SPACE_STR: seq<Char16> := [NARROW_CHAR, SPACE]

  /** The pixel value of a text color (blue, green, red from the low byte up). */
  function Pixel(color: bv8): bv32 {
    match color & 0x0F
    case 0 => 0x000000 case 1 => 0x000098 case 2 => 0x009800 case 3 => 0x009898
    case 4 => 0x980000 case 5 => 0x980098 case 6 => 0x989800 case 7 => 0x18C600
    case 8 => 0x303000 case 9 => 0x1F0000 case 10 => 0x00FF00 case 11 => 0xFF0700
    case 12 => 0x00F800 case 13 => 0xFF00FF case 14 => 0xE0FF00 case _ => 0xFFFFFF
  }

  datatype Status = Success | Unsupported | OutOfResources | DeviceError

  datatype ModeData = ModeData(columns: nat, rows: nat, gopMode: nat)

  predicate WideOf(attribute: bv8) {
    attribute & WIDE_ATTRIBUTE != 0
  }

  function ColorOf(attribute: bv8): bv8 {
    attribute & COLOR_MASK
  }

  /** The wide bit does not touch the colors. */
  lemma {:induction false} WideBit(a: bv8)
    ensures WideOf(a | WIDE_ATTRIBUTE) && !WideOf(a & !WIDE_ATTRIBUTE)
    ensures ColorOf(a | WIDE_ATTRIBUTE) == ColorOf(a) && ColorOf(a & !WIDE_ATTRIBUTE) == ColorOf(a)
  {
  }

  /** How deep output may still nest: a string may print the blanking string, which may
      print a line break, which prints nothing else. */
  ghost function Level(w: seq<Char16>): nat {
    if w == CR_LF then 0 else if w == SPACE_STR then 1 else 2
  }

  /** What a whole call of OutputString leaves: the width change is taken back. */
  ghost function Written(s: Console, w: seq<Char16>): (s': Console)
    requires CanWrite(s, w)
  {
    After(s, w, |w|).(wide := s.wide)
  }

  /** The blanking string switches to narrow characters before it prints its space. */
  lemma {:induction false} SpaceIsNarrow(wide: bool)
    ensures PrintsNarrow(wide, SPACE_STR) && PrintsNarrow(wide, CR_LF)
  {
    assert SPACE_STR[..1] == [NARROW_CHAR] && SPACE_STR[..1][..0] == [];
    assert CR_LF[..1] == [CHAR_CARRIAGE_RETURN] && CR_LF[..1][..0] == [];
  }

  lemma {:induction false} SpaceAtEnd(s: Console)
    requires s.InRange() && s.column + 1 == s.columns
    ensures CanWrite(s, SPACE_STR) && Written(s, SPACE_STR) == NewLine(Blanked(s))
  {
    SpaceIsNarrow(s.wide);
    AfterStep(s, SPACE_STR, 0);
    AfterStep(s, SPACE_STR, 1);
  }

  lemma {:induction false} SpaceInside(s: Console)
    requires s.InRange() && s.column + 1 < s.columns
    ensures CanWrite(s, SPACE_STR) && Written(s, SPACE_STR) == Blanked(s).(column := s.column + 1)
  {
    SpaceIsNarrow(s.wide);
    AfterStep(s, SPACE_STR, 0);
    AfterStep(s, SPACE_STR, 1);
  }

  lemma {:induction false} PutBackspace(s: Console)
    requires CanPut(s, CHAR_BACKSPACE)
    ensures Put(s, CHAR_BACKSPACE) ==
      if s.column == 0 && s.row > 0 then Blanked(s.(row := s.row - 1, column := s.columns - 1))
      else if s.column > 0 then Blanked(s.(column := s.column - 1))
      else s
  {
  }

  lemma {:induction false} PutControl(s: Console, c: Char16)
    requires CanPut(s, c) && IsControl(c)
    ensures c == CHAR_LINEFEED ==> Put(s, c) == LineFeed(s)
    ensures c == CHAR_CARRIAGE_RETURN ==> Put(s, c) == s.(column := 0)
    ensures c == WIDE_CHAR ==> Put(s, c) == s.(wide := true)
    ensures c == NARROW_CHAR ==> Put(s, c) == s.(wide := false)
  {
  }

  lemma {:induction false} NextLine(s: Console)
    requires s.Valid() && s.row < s.rows - 1
    ensures NewLine(s) == s.(column := 0, row := s.row + 1)
  {
  }

  lemma {:induction false} LineBreak(s: Console)
    requires s.Valid()
    ensures CanWrite(s, CR_LF) && Written(s, CR_LF) == NewLine(s)
  {
    SpaceIsNarrow(s.wide);
    AfterStep(s, CR_LF, 0);
    AfterStep(s, CR_LF, 1);
  }

  lemma {:induction false} AttributeFits(a: bv16)
    requires a | 0x7F == 0x7F
    ensures a & 0x7F == a && ((a & 0x7F) as bv8) & WIDE_ATTRIBUTE == 0
  {
  }

  lemma {:induction false} PixelBlack(color: bv8)
    ensures Pixel(color) == 0 <==> color & 0x0F == 0
  {
  }

  /** One display with its text mode. `text` is what the glyphs on the screen say, `marks` the
      cells that carry a cursor image. */
  class Display {
    var maxColumn: nat
    var maxRow: nat
    var cursorColumn: int
    var cursorRow: int
    var attribute: bv8
    var cursorVisible: bool
    var text: seq<seq<Ink>>
    var marks: Marks
    var mode: int                // -1 until a mode has been set
    var modeData: seq<ModeData>
    var hasLineBuffer: bool
    var gopMode: nat

    predicate Wide()
      reads this`attribute
    {
      WideOf(attribute)
    }

    function Color(): bv8
      reads this`attribute
    {
      ColorOf(attribute)
    }

    ghost predicate Valid()
      reads this
    {
      && mode != -1 && 0 <= cursorColumn && 0 <= cursorRow
      && View().Valid()
      && Shape(marks, maxColumn, maxRow)
    }

    /** The text console this display shows. */
    function View(): Console
      requires 0 <= cursorColumn && 0 <= cursorRow
      reads this
    {
      Console(maxColumn, maxRow, cursorColumn, cursorRow, Wide(), Color(), text)
    }

    ghost function CursorOff(): Marks
      requires Valid()
      reads this
    {
      NoMarks(maxColumn, maxRow)
    }

    /** Exactly one cursor image, at the cursor, when the cursor is visible. */
    ghost function CursorOn(): Marks
      requires Valid()
      reads this
    {
      if cursorVisible then OneMark(maxColumn, maxRow, cursorColumn, cursorRow, Pixel(Color())) else CursorOff()
    }

    /** What is on the screen besides the cursor image that belongs there. */
    ghost function Rest(): Marks
      requires Valid()
      reads this
    {
      if cursorVisible then Toggle(marks, cursorColumn, cursorRow, Pixel(Color())) else marks
    }

    /** Nothing is left over exactly when there is exactly the one cursor image. */
    lemma {:induction false} RestIsNothing()
      requires Valid()
      ensures Rest() == CursorOff() <==> marks == CursorOn()
    {
      if cursorVisible {
        ToggleTwice(marks, cursorColumn, cursorRow, Pixel(Color()));
        ToggleOn(maxColumn, maxRow, cursorColumn, cursorRow, Pixel(Color()));
        ToggleOff(maxColumn, maxRow, cursorColumn, cursorRow, Pixel(Color()));
      }
    }

    /** Erases the cursor if it shows, shows it if it does not. Before a mode is set the
        place is computed from an entry before the mode table; anything may be drawn. */
    method FlushCursor()
      requires mode != -1 ==> Valid()
      modifies this`marks
      ensures mode != -1 ==>
        && Valid() && marks == old(Rest()) && Rest() == old(marks)
        && (old(marks) == CursorOff() ==> marks == CursorOn())
        && (old(marks) == CursorOn() ==> marks == CursorOff())
    {
      if !cursorVisible {
        return;
      }
      if mode == -1 {
        marks := *;
        return;
      }
      ToggleOn(maxColumn, maxRow, cursorColumn, cursorRow, Pixel(Color()));
      ToggleOff(maxColumn, maxRow, cursorColumn, cursorRow, Pixel(Color()));
      ToggleTwice(marks, cursorColumn, cursorRow, Pixel(Color()));
      marks := Toggle(marks, cursorColumn, cursorRow, Pixel(Color()));
    }

    twostate predicate SameSetup()
      reads this
    {
      && cursorVisible == old(cursorVisible)
      && mode == old(mode) && modeData == old(modeData) && hasLineBuffer == old(hasLineBuffer)
      && gopMode == old(gopMode)
    }

    /** The call does not leave the mode it was made in. */
    twostate predicate SameMode()
      reads this
    {
      SameSetup() && maxColumn == old(maxColumn) && maxRow == old(maxRow) && attribute == old(attribute)
    }

    // `clean` below tells that the screen shows nothing but text and the cursor's own image;
    // what happens to the text does not depend on it.

    /** A batch is put on the screen in one go at the cursor. */
    method DrawAtCursorN(run: seq<Char16>, ghost clean: bool)
      requires Valid() && View().InRange() && Fits(View(), run)
      requires clean ==> marks == CursorOff() || (|run| > 0 && marks == CursorOn())
      modifies this`text, this`marks
      ensures Valid() && (clean ==> marks == CursorOff())
      ensures text == DrawRun(old(View()), run).text
    {
      hide NoMarks, OneMark, Overwrite, DrawRun;
      var cells := Span(View(), |run|);
      OverwriteNone(maxColumn, maxRow, cursorRow, cursorColumn, cells);
      if cells > 0 { OverwriteOne(maxColumn, maxRow, cursorRow, cursorColumn, cells, Pixel(Color())); }
      marks := Overwrite(marks, cursorRow, cursorColumn, cells);
      text := DrawRun(View(), run).text;
    }

    /** A line feed: on the last row the display scrolls up. */
    method FeedLine(ghost clean: bool)
      requires Valid() && (clean ==> marks == CursorOff())
      modifies this`text, this`marks, this`cursorRow
      ensures Valid() && (clean ==> marks == CursorOff())
      ensures View() == LineFeed(old(View()))
    {
      if cursorRow == maxRow - 1 {
        ScrollNone(maxColumn, maxRow);
        marks := Scroll(marks, maxColumn);
        text := text[1..] + [BlankRow(maxColumn, Color())];
      } else {
        cursorRow := cursorRow + 1;
      }
    }

    /** Prints a space at the cursor, through nested output, and takes the cursor image
        away again. */
    method PrintSpace(ghost clean: bool)
      requires Valid() && View().InRange() && (clean ==> marks == CursorOff())
      modifies this
      ensures Valid() && (clean ==> marks == CursorOff()) && SameMode()
      ensures View() == if old(cursorColumn) + 1 == maxColumn then NewLine(Blanked(old(View())))
                        else Blanked(old(View())).(column := old(cursorColumn) + 1)
      decreases 2, 0, 0
    {
      hide NoMarks, OneMark, Written, CanWrite, DrawGlyph, NewLine, WideOf, ColorOf, Pixel;
      if cursorColumn + 1 == maxColumn { SpaceAtEnd(View()); } else { SpaceInside(View()); }
      WriteString(SPACE_STR, clean);
      FlushCursor();
    }

    /** Moves back one cell and blanks it. */
    method Backspace(ghost clean: bool)
      requires Valid() && View().InRange() && (clean ==> marks == CursorOff())
      modifies this
      ensures Valid() && (clean ==> marks == CursorOff()) && SameMode()
      ensures View() == Put(old(View()), CHAR_BACKSPACE)
      decreases 2, 0, 1
    {
      hide NoMarks, OneMark, DrawGlyph, NewLine, Put, WideOf, ColorOf, Pixel;
      PutBackspace(View());
      if cursorColumn == 0 && cursorRow > 0 {
        cursorRow := cursorRow - 1;
        cursorColumn := maxColumn - 1;
        NextLine(Blanked(View()));
        PrintSpace(clean);
        cursorRow := cursorRow - 1;
        cursorColumn := maxColumn - 1;
      } else if cursorColumn > 0 {
        cursorColumn := cursorColumn - 1;
        PrintSpace(clean);
        cursorColumn := cursorColumn - 1;
      }
    }

    /** Switches wide characters on or off. */
    method SetWide(on: bool)
      requires Valid()
      modifies this`attribute
      ensures Valid() && View() == old(View()).(wide := on)
      ensures old(marks == CursorOff()) ==> marks == CursorOff()
      ensures old(marks == CursorOn()) ==> marks == CursorOn()
    {
      hide NoMarks, OneMark, Pixel, WideOf, ColorOf;
      WideBit(attribute);
      attribute := if on then attribute | WIDE_ATTRIBUTE else attribute & !WIDE_ATTRIBUTE;
    }

    /** One of the characters that are not printed. */
    method OutputControl(c: Char16, ghost clean: bool)
      requires Valid() && IsControl(c) && CanPut(View(), c)
      requires clean ==> marks == CursorOff() || (c == NARROW_CHAR && marks == CursorOn())
      modifies this
      ensures Valid() && View() == Put(old(View()), c)
      ensures SameSetup()
      ensures clean && old(marks == CursorOff()) ==> marks == CursorOff()
      ensures clean && old(marks == CursorOn()) && c == NARROW_CHAR ==> marks == CursorOn()
      decreases if c == CHAR_BACKSPACE then 2 else 0, 0, 2
    {
      hide NoMarks, OneMark, LineFeed, Put, Blanked, WideOf, ColorOf, Shape;
      PutControl(View(), c);
      if c == CHAR_BACKSPACE {
        Backspace(clean && marks == CursorOff());
      } else if c == CHAR_LINEFEED {
        FeedLine(clean && marks == CursorOff());
      } else if c == CHAR_CARRIAGE_RETURN {
        cursorColumn := 0;
      } else if c == WIDE_CHAR {
        SetWide(true);
      } else {
        SetWide(false);
      }
    }

    /** How many characters of the string are printed in one go, and over how many columns
        the cursor moves; two columns too many when a wide character does not fit. */
    method MeasureRun(w: seq<Char16>, i: nat) returns (count: nat, index: nat)
      requires Valid() && View().InRange() && i < |w| && !IsControl(w[i])
      ensures i + count <= |w| && Fits(View(), w[i..i + count])
      ensures forall k :: i <= k < i + count ==> !IsControl(w[k])
      ensures index == Span(View(), count) || (Wide() && index == 2 * count + 2)
      ensures index == Span(View(), count) ==> count > 0 && cursorColumn + index <= maxColumn
      ensures index != Span(View(), count) ==>
        i + count < |w| && !IsControl(w[i + count]) && cursorColumn + 2 * count + 1 == maxColumn
    {
      count, index := 0, 0;
      while cursorColumn + index < maxColumn
        invariant i + count <= |w| && index == Span(View(), count) && cursorColumn + index <= maxColumn
        invariant forall k :: i <= k < i + count ==> !IsControl(w[k])
        decreases maxColumn - cursorColumn - index
      {
        if i + count == |w| || IsControl(w[i + count]) {
          break;
        }
        if Wide() {
          index := index + 1;
          if cursorColumn + index + 1 > maxColumn {
            index := index + 1;
            break;
          }
        }
        count := count + 1;
        index := index + 1;
      }
    }

    /** Blanks the last cell of the line; the nested output wraps to the next line and
        leaves the cursor image there. */
    method PadLine(ghost clean: bool)
      requires Valid() && View().InRange() && (clean ==> marks == CursorOff()) && cursorColumn + 1 == maxColumn
      modifies this
      ensures Valid() && (clean ==> marks == CursorOn()) && SameMode()
      ensures View() == NewLine(Blanked(old(View())))
      decreases 2, 0, 0
    {
      SpaceAtEnd(View());
      WriteString(SPACE_STR, clean);
    }

    /** Goes to the next line from behind the end of a full one. */
    method BreakLine(ghost clean: bool)
      requires Valid() && (clean ==> marks == CursorOff())
      modifies this
      ensures Valid() && (clean ==> marks == CursorOff()) && SameMode()
      ensures View() == NewLine(old(View()))
      decreases 1, 0, 0
    {
      hide NoMarks, OneMark, Written, CanWrite, NewLine, WideOf, ColorOf, Pixel;
      LineBreak(View());
      FlushCursor();
      WriteString(CR_LF, clean);
      FlushCursor();
    }

    /** Prints characters from `i` on up to the end of the line. `padded` tells that a wide
        character did not fit: the line was padded and nothing of it consumed. On a display
        of one column that is so for every wide character. */
    method PrintRun(w: seq<Char16>, i: nat, ghost clean: bool) returns (i': nat, ghost padded: bool)
      requires Valid() && View().InRange() && i < |w| && !IsControl(w[i])
      requires w != CR_LF && (w == SPACE_STR ==> !Wide())
      requires clean ==> marks == CursorOff() || (marks == CursorOn() && cursorColumn + Width(View()) <= maxColumn)
      modifies this
      ensures Valid() && View().InRange() && SameMode() && i <= i' <= |w|
      ensures forall k :: i <= k < i' ==> !IsControl(w[k])
      ensures !padded ==> i < i' && (clean ==> marks == CursorOff())
                          && CanWrite(old(View()), w[i..i']) && View() == Write(old(View()), w[i..i'])
      ensures padded ==> i' < |w| && !IsControl(w[i']) && (clean ==> marks == CursorOn()) && Wide()
                         && (i == i' ==> old(cursorColumn) == maxColumn - 1)
      ensures padded && maxColumn >= 2 ==>
        CanWrite(old(View()), w[i..i']) && Padded(After(old(View()), w[i..i'], i' - i), View())
      ensures maxColumn == 1 && Wide() ==> padded && i' == i && View() == NewLine(Blanked(old(View())))
      decreases Level(w), 0, 1
    {
      hide NoMarks, OneMark, Written, CanWrite, Write, DrawRun, Blanked, NewLine, DrawGlyph, WideOf, ColorOf, Pixel,
        Fits, IsControl;
      ghost var v0 := View();
      var count, index := MeasureRun(w, i);
      ghost var run := w[i..i + count];
      RunDrawn(v0, run);
      DrawAtCursorN(w[i..i + count], clean);
      i' := i + count;
      cursorColumn := cursorColumn + index;
      padded := false;
      if cursorColumn > maxColumn {
        cursorColumn := cursorColumn - 2;
        padded := true;
        assert View() == DrawRun(v0, run);
        PadLine(clean);
      }
      if cursorColumn >= maxColumn {
        assert View() == DrawRun(v0, run);
        BreakLine(clean);
      }
    }

    /** What the batch means for the reference console. */
    lemma {:induction false} RunDrawn(v0: Console, run: seq<Char16>)
      requires v0.InRange() && Fits(v0, run)
      ensures v0.columns >= 2 || !v0.wide ==> CanWrite(v0, run) && Write(v0, run) == Wrap(DrawRun(v0, run))
      ensures (v0.columns >= 2 || !v0.wide) && v0.column + Span(v0, |run|) < v0.columns ==>
        After(v0, run, |run|) == DrawRun(v0, run)
      ensures |run| == 0 ==> DrawRun(v0, run) == v0
    {
      if v0.columns >= 2 || !v0.wide {
        RunIsWrite(v0, run);
        if v0.column + Span(v0, |run|) < v0.columns { ShortRun(v0, run); }
      }
    }

    /** In the middle of a string `w` that found the console as `v0`: the first `i`
        characters have been written. `padded` tells that moreover a wide character did not
        fit: the line has been padded and the cursor image left behind, to be overwritten
        by that character. */
    ghost predicate Printing(v0: Console, w: seq<Char16>, i: nat, padded: bool, clean: bool)
      reads this
    {
      && Valid() && CanWrite(v0, w) && i <= |w|
      && maxColumn == v0.columns && maxRow == v0.rows
      && View().color == v0.color
      && (w == SPACE_STR && i >= 1 ==> !View().wide)
      && (i > 0 || v0.InRange() ==> View().InRange())
      && (padded ==>
            i < |w| && !IsControl(w[i]) && (clean ==> marks == CursorOn()) && w != SPACE_STR
              && Padded(After(v0, w, i), View()))
      && (!padded ==>
            View() == After(v0, w, i)
            && (clean ==> marks == CursorOff() || (w == SPACE_STR && i <= 1 && marks == CursorOn())))
    }

    /** One turn of the loop over a string. Either characters are consumed, or the cursor
        moves away from the last column. */
    method OutputSome(w: seq<Char16>, i: nat, ghost v0: Console, ghost wasPadded: bool, ghost clean: bool)
        returns (i': nat, ghost padded: bool)
      requires Printing(v0, w, i, wasPadded, clean) && i < |w|
      requires v0.InRange() || w == CR_LF
      modifies this
      ensures Printing(v0, w, i', padded, clean) && SameSetup()
      ensures i < i' || (i == i' && old(cursorColumn) == maxColumn - 1 && cursorColumn < maxColumn - 1)
      decreases Level(w), 0, 3
    {
      hide NoMarks, OneMark, Write, NewLine, Blanked, DrawGlyph, Wrap, DrawNext, MakeRoom, After, WideOf, ColorOf,
        Pixel, Put;
      AfterStep(v0, w, i);
      i', padded := i, wasPadded;
      if IsControl(w[i]) {
        assert w == SPACE_STR ==> i == 0;
        OutputControl(w[i], clean);
        i' := i + 1;
      } else {
        ghost var v, p := View(), After(v0, w, i);
        if wasPadded { PaddedPut(p, v, w[i]); }
        i', padded := PrintRun(w, i, clean);
        if padded { PaddedPut(After(v, w[i..i'], i' - i), View(), w[i']); }
        AfterAll(v, w[i..i']);
        if i' > i {
          AfterRun(v0, w, i, i');
          if wasPadded { PaddedWrite(p, v, w[i..i']); }
        }
      }
    }

    /** The body of OutputString: the effect is that of writing the string character by
        character, and exactly one cursor image is on the screen afterwards. */
    method WriteString(w: seq<Char16>, ghost clean: bool)
      requires Valid() && CanWrite(View(), w)
      requires View().InRange() || w == CR_LF
      requires clean ==> marks == CursorOn() || (w == SPACE_STR && marks == CursorOff())
      modifies this
      ensures Valid() && (clean ==> marks == CursorOn()) && SameMode()
      ensures View() == Written(old(View()), w)
      decreases Level(w), 1, 0
    {
      hide NoMarks, OneMark, Toggle, Write, After, WideOf, ColorOf, Pixel, CanWrite, Printing;
      ghost var v0 := View();
      FlushCursor();
      AfterStart(v0, w);
      PrintingStarts(v0, w, clean);
      var originAttribute := attribute;
      WriteAll(w, v0, clean);
      PrintingEnds(v0, w, clean);
      attribute := originAttribute;
      FlushCursor();
    }

    lemma {:induction false} PrintingStarts(v0: Console, w: seq<Char16>, clean: bool)
      requires Valid() && View() == v0 && CanWrite(v0, w) && (v0.InRange() || w == CR_LF)
      requires clean ==> marks == CursorOff() || (w == SPACE_STR && marks == CursorOn())
      ensures Printing(v0, w, 0, false, clean)
    {
      AfterStart(v0, w);
    }

    lemma {:induction false} PrintingEnds(v0: Console, w: seq<Char16>, clean: bool)
      requires Printing(v0, w, |w|, false, clean) && (w == SPACE_STR ==> |w| == 2)
      ensures Valid() && CanWrite(v0, w) && View() == After(v0, w, |w|) && (clean ==> marks == CursorOff())
    {
    }

    /** The loop over the string. */
    method WriteAll(w: seq<Char16>, ghost v0: Console, ghost clean: bool)
      requires Printing(v0, w, 0, false, clean) && (v0.InRange() || w == CR_LF)
      modifies this
      ensures Printing(v0, w, |w|, false, clean) && SameSetup()
      decreases Level(w), 0, 4
    {
      hide Write, After, Padded;
      var i := 0;
      ghost var padded := false;
      while i < |w|
        invariant i <= |w| && (i == |w| ==> !padded) && Printing(v0, w, i, padded, clean) && SameSetup()
        decreases |w| - i, if cursorColumn == maxColumn - 1 then 1 else 0
      {
        i, padded := OutputSome(w, i, v0, padded, clean);
      }
    }

    /** MAIN: on a display of one column, when a string comes to a printable character at `n`
        while wide characters are on, the loop gets to that character, and no number of
        further turns consumes it. */
    method Stalls(w: seq<Char16>, n: nat, turns: nat) returns (i: nat)
      requires Valid() && View().InRange() && maxColumn == 1 && w != CR_LF && w != SPACE_STR
      requires n < |w| && ReachesWide(Wide(), w, n)
      modifies this
      ensures i == n && Valid() && View().InRange() && maxColumn == 1 && Wide()
    {
      FlushCursor();
      i := ReachStall(w, n);
      for turn := 0 to turns
        invariant i == n && Valid() && View().InRange() && maxColumn == 1 && Wide()
      {
        ghost var padded;
        i, padded := PrintRun(w, i, false);
      }
    }

    /** Switch to wide characters and print an A: the switch is done, and then no number of
        turns prints the A. */
    method StallExample(turns: nat) returns (i: nat)
      requires Valid() && View().InRange() && maxColumn == 1
      modifies this
      ensures !CanWrite(old(View()), STALL_STR)
      ensures i == 1 < |STALL_STR| && Valid() && View().InRange() && maxColumn == 1 && Wide()
    {
      NotWritableExample(View());
      i := Stalls(STALL_STR, 1, turns);
    }

    /** The turns of the loop up to that character. */
    method ReachStall(w: seq<Char16>, n: nat) returns (i: nat)
      requires Valid() && View().InRange() && maxColumn == 1 && w != CR_LF && w != SPACE_STR
      requires n < |w| && ReachesWide(Wide(), w, n)
      modifies this
      ensures i == n && Valid() && View().InRange() && maxColumn == 1 && Wide()
    {
      hide NoMarks, OneMark, Toggle, Write, After, WideOf, ColorOf, Pixel, Put, IsControl, WideAfter, PrintsNarrow,
        Blanked, NewLine;
      ghost var v0 := View();
      ghost var prefix := w[..n];
      StallPrefix(v0, w, n);
      i := 0;
      while i < n
        invariant i <= n && Valid() && maxColumn == 1 && View().InRange() && View() == After(v0, prefix, i)
        decreases n - i
      {
        AfterStep(v0, prefix, i);
        if IsControl(w[i]) {
          OutputControl(w[i], false);
          i := i + 1;
        } else {
          ghost var v, i0, padded := View(), i, false;
          i, padded := PrintRun(w, i, false);
          RunStopsBefore(v0.wide, w, i0, i, n);
          AfterRun(v0, prefix, i0, i);
          assert prefix[i0..i] == w[i0..i];
        }
      }
      assert prefix[..n] == prefix;
    }

    static lemma {:induction false} StallPrefix(v0: Console, w: seq<Char16>, n: nat)
      requires v0.InRange() && n < |w| && ReachesWide(v0.wide, w, n)
      ensures CanWrite(v0, w[..n]) && After(v0, w[..n], 0) == v0 && After(v0, w[..n], n).wide
    {
      assert w[..n][..n] == w[..n];
    }

    /** A run of characters printed narrow does not reach the wide one. */
    static lemma {:induction false} RunStopsBefore(wide: bool, w: seq<Char16>, i: nat, j: nat, n: nat)
      requires i <= j <= |w| && i < n < |w| && WideAfter(wide, w[..n]) && !WideAfter(wide, w[..n][..i])
      requires forall k :: i <= k < j ==> !IsControl(w[k])
      ensures j <= n
    {
      if j > n {
        assert w[..n] == w[..n][..i] + w[i..n];
        NarrowConcat(wide, w[..n][..i], w[i..n]);
        NoWidthChange(false, w[i..n]);
      }
    }

    // -------------------------------------------------------------------------
    // The protocol's calls
    // -------------------------------------------------------------------------

    /** Every state between calls: the cursor is in the text window once a mode is set, and
        wide characters are off. */
    ghost predicate Ready()
      reads this
    {
      !Wide() && (mode != -1 ==> Valid() && View().InRange())
    }

    /** Moreover exactly one cursor image is on the screen, at the cursor, when the cursor is
        visible, and none otherwise. */
    ghost predicate Disciplined()
      reads this
    {
      Ready() && (mode != -1 ==> marks == CursorOn())
    }

    /** As the driver starts: no mode, a visible cursor, light gray on black. */
    constructor (modeData: seq<ModeData>, gopMode: nat)
      ensures Disciplined() && mode == -1 && cursorVisible && attribute == 0x07 && !hasLineBuffer
      ensures this.modeData == modeData && this.gopMode == gopMode
    {
      maxColumn, maxRow, cursorColumn, cursorRow := 0, 0, 0, 0;
      attribute, cursorVisible, mode, hasLineBuffer := 0x07, true, -1, false;
      text, marks := [], [];
      this.modeData, this.gopMode := modeData, gopMode;
    }

    /** MAIN: the text and the cursor become those of the reference console, in every state;
        the cursor discipline is kept. The string has to be one on which the loop ends. */
    method OutputString(w: seq<Char16>) returns (status: Status)
      requires Ready() && (mode != -1 ==> CanWrite(View(), w))
      modifies this
      ensures Ready() && SameMode() && (old(Disciplined()) ==> Disciplined())
      ensures status == if mode == -1 then Unsupported else Success
      ensures mode != -1 ==> View() == Written(old(View()), w)
      ensures mode != -1 && IsNarrow(w) ==>
        Cursor(cursorColumn, cursorRow)
        == MoveCursorOver(Cursor(old(cursorColumn), old(cursorRow)), w, maxColumn, maxRow)
      ensures mode != -1 && IsPlain(w) ==> ShowsText(old(View()), w, View())
    {
      if mode == -1 {
        return Unsupported;
      }
      ghost var v0 := View();
      WriteString(w, Disciplined());
      AfterAll(v0, w);
      if IsNarrow(w) { CursorsAgree(v0, w); }
      if IsPlain(w) { TextFlows(v0, w); }
      return Success;
    }

    method SetAttribute(newAttribute: bv16) returns (status: Status)
      requires Ready()
      modifies this`attribute, this`marks
      ensures Ready() && (mode != -1 ==> Rest() == old(Rest())) && (Disciplined() <==> old(Disciplined()))
      ensures status == if newAttribute | 0x7F != 0x7F then Unsupported else Success
      ensures status == Success ==> attribute == (newAttribute & 0x7F) as bv8
      ensures status == Unsupported ==> attribute == old(attribute)
    {
      hide Toggle, NoMarks, OneMark, Pixel;
      if mode != -1 { RestIsNothing(); }
      if newAttribute | 0x7F != 0x7F {
        return Unsupported;
      }
      AttributeFits(newAttribute);
      var a := (newAttribute & 0x7F) as bv8;
      if a == attribute {
        return Success;
      }
      FlushCursor();
      attribute := a;
      FlushCursor();
      if mode != -1 { RestIsNothing(); }
      return Success;
    }

    /** MAIN: also when the discipline was lost, clearing the screen brings it back. */
    method ClearScreen() returns (status: Status)
      requires Ready()
      modifies this`text, this`marks, this`cursorColumn, this`cursorRow
      ensures Disciplined()
      ensures status == if mode == -1 then Unsupported else Success
      ensures mode != -1 ==>
        View() == old(View()).(column := 0, row := 0, text := BlankText(maxColumn, maxRow, Color()))
    {
      if mode == -1 {
        return Unsupported;
      }
      text := BlankText(maxColumn, maxRow, Color());
      marks := NoMarks(maxColumn, maxRow);
      cursorColumn, cursorRow := 0, 0;
      FlushCursor();
      return Success;
    }

    method SetCursorPosition(column: nat, row: nat) returns (status: Status)
      requires Ready()
      modifies this`marks, this`cursorColumn, this`cursorRow
      ensures Ready() && (mode != -1 ==> Rest() == old(Rest())) && (Disciplined() <==> old(Disciplined()))
      ensures status == if mode == -1 || column >= maxColumn || row >= maxRow then Unsupported else Success
      ensures mode != -1 ==>
        View() == if status == Success then old(View()).(column := column, row := row) else old(View())
    {
      hide Toggle, NoMarks, OneMark, Pixel;
      if mode == -1 {
        return Unsupported;
      }
      RestIsNothing();
      if column >= maxColumn || row >= maxRow {
        return Unsupported;
      }
      if cursorColumn == column && cursorRow == row {
        return Success;
      }
      FlushCursor();
      cursorColumn, cursorRow := column, row;
      FlushCursor();
      RestIsNothing();
      return Success;
    }

    method EnableCursor(visible: bool) returns (status: Status)
      requires Ready()
      modifies this`marks, this`cursorVisible
      ensures Ready() && (mode != -1 ==> Rest() == old(Rest())) && (Disciplined() <==> old(Disciplined()))
      ensures status == if mode == -1 then Unsupported else Success
      ensures cursorVisible == if mode == -1 then old(cursorVisible) else visible
    {
      hide Toggle, NoMarks, OneMark, Pixel;
      if mode == -1 {
        return Unsupported;
      }
      RestIsNothing();
      FlushCursor();
      cursorVisible := visible;
      FlushCursor();
      RestIsNothing();
      return Success;
    }

    /** MAIN: sets a text mode. `lineAllocated` and `gopSet` tell whether the line buffer
        could be allocated and the graphics mode set. Success brings the discipline, from
        whatever state. When one of them fails after a mode was in use, the cursor image has
        been XORed once and nothing else has happened: the discipline survives exactly when
        there was nothing to be seen of the image. */
    method SetMode(modeNumber: nat, lineAllocated: bool, gopSet: bool) returns (status: Status)
      requires Ready()
      requires forall m :: 0 <= m < |modeData| ==> (modeData[m].columns == 0 <==> modeData[m].rows == 0)
      requires 0 <= mode ==> mode < |modeData| && maxColumn == modeData[mode].columns && maxRow == modeData[mode].rows
      modifies this
      ensures attribute == old(attribute) && cursorVisible == old(cursorVisible) && modeData == old(modeData)
      ensures status ==
        if modeNumber >= |modeData| || modeData[modeNumber].columns == 0 then Unsupported
        else if old(hasLineBuffer && mode == modeNumber) then Success
        else if !lineAllocated then OutOfResources
        else if modeData[modeNumber].gopMode != old(gopMode) && !gopSet then DeviceError
        else Success
      ensures hasLineBuffer == (old(hasLineBuffer) || status == Success || status == DeviceError)
      ensures status == Success ==>
        && Disciplined() && mode == modeNumber < |modeData|
        && maxColumn == modeData[mode].columns && maxRow == modeData[mode].rows
        && cursorColumn == cursorRow == 0
        && text == BlankText(maxColumn, maxRow, if old(hasLineBuffer && mode == modeNumber) then Color() else 0)
        && gopMode == if old(hasLineBuffer && mode == modeNumber) then old(gopMode) else modeData[mode].gopMode
      ensures status != Success ==> Ready() && mode == old(mode) && gopMode == old(gopMode)
      ensures status == Unsupported ==> marks == old(marks) && (mode != -1 ==> View() == old(View()))
      ensures (status == OutOfResources || status == DeviceError) && mode != -1 ==>
        && View() == old(View())
        && marks == (if old(hasLineBuffer) then old(Rest()) else old(marks))
        && (old(Disciplined()) ==> (Disciplined() <==> !old(hasLineBuffer) || !cursorVisible || Color() & 0x0F == 0))
    {
      hide NoMarks, OneMark, Toggle, Pixel, ColorOf, WideOf, BlankText, Shape;
      if modeNumber >= |modeData| {
        return Unsupported;
      }
      var data := modeData[modeNumber];
      if data.columns <= 0 && data.rows <= 0 {
        return Unsupported;
      }
      if hasLineBuffer && modeNumber == mode {
        status := ClearScreen();
      } else {
        status := LeaveMode(modeNumber, lineAllocated, gopSet);
      }
    }

    /** A mode change that is not just a clearing of the screen. */
    method LeaveMode(modeNumber: nat, lineAllocated: bool, gopSet: bool) returns (status: Status)
      requires Ready() && modeNumber < |modeData| && modeData[modeNumber].columns > 0 && modeData[modeNumber].rows > 0
      modifies this`hasLineBuffer, this`gopMode, this`maxColumn, this`maxRow, this`text, this`marks, this`mode,
        this`cursorColumn, this`cursorRow
      ensures status == if !lineAllocated then OutOfResources
                        else if modeData[modeNumber].gopMode != old(gopMode) && !gopSet then DeviceError
                        else Success
      ensures hasLineBuffer == (old(hasLineBuffer) || lineAllocated)
      ensures status == Success ==>
        && Disciplined() && mode == modeNumber && gopMode == modeData[mode].gopMode
        && maxColumn == modeData[mode].columns && maxRow == modeData[mode].rows
        && cursorColumn == cursorRow == 0 && text == BlankText(maxColumn, maxRow, 0)
      ensures status != Success ==> Ready() && mode == old(mode) && gopMode == old(gopMode)
      ensures status != Success && mode != -1 ==>
        && View() == old(View()) && marks == (if old(hasLineBuffer) then old(Rest()) else old(marks))
        && (old(Disciplined()) ==> (Disciplined() <==> !old(hasLineBuffer) || !cursorVisible || Color() & 0x0F == 0))
    {
      hide NoMarks, OneMark, Toggle, Pixel, ColorOf, WideOf;
      if hasLineBuffer {
        EraseCursor();
      }
      status := ChangeMode(modeNumber, lineAllocated, gopSet);
    }

    /** Erases the cursor image before a mode change. */
    method EraseCursor()
      requires Ready()
      modifies this`marks
      ensures Ready()
      ensures mode != -1 ==> marks == old(Rest())
      ensures old(Disciplined()) && mode != -1 ==> (Disciplined() <==> !cursorVisible || Color() & 0x0F == 0)
    {
      hide NoMarks, OneMark, Toggle, Pixel, ColorOf, WideOf;
      if mode != -1 {
        OneMarkVisible(maxColumn, maxRow, cursorColumn, cursorRow, Pixel(Color()));
        PixelBlack(Color());
      }
      FlushCursor();
    }

    /** The rest of a mode change: line buffer, graphics mode, text mode. */
    method ChangeMode(modeNumber: nat, lineAllocated: bool, gopSet: bool) returns (status: Status)
      requires Ready() && modeNumber < |modeData| && modeData[modeNumber].columns > 0 && modeData[modeNumber].rows > 0
      modifies this`hasLineBuffer, this`gopMode, this`maxColumn, this`maxRow, this`text, this`marks, this`mode,
        this`cursorColumn, this`cursorRow
      ensures status == if !lineAllocated then OutOfResources
                        else if modeData[modeNumber].gopMode != old(gopMode) && !gopSet then DeviceError
                        else Success
      ensures hasLineBuffer == (old(hasLineBuffer) || lineAllocated)
      ensures status == Success ==>
        && Disciplined() && mode == modeNumber && gopMode == modeData[mode].gopMode
        && maxColumn == modeData[mode].columns && maxRow == modeData[mode].rows
        && cursorColumn == cursorRow == 0 && text == BlankText(maxColumn, maxRow, 0)
      ensures status != Success ==>
        && maxColumn == old(maxColumn) && maxRow == old(maxRow) && text == old(text) && marks == old(marks)
        && mode == old(mode)
        && cursorColumn == old(cursorColumn) && cursorRow == old(cursorRow) && gopMode == old(gopMode)
        && Ready() && (Disciplined() <==> old(Disciplined()))
    {
      hide NoMarks, OneMark, Toggle, Pixel, ColorOf, WideOf;
      if !lineAllocated {
        return OutOfResources;
      }
      hasLineBuffer := true;
      if modeData[modeNumber].gopMode != gopMode {
        if !gopSet {
          return DeviceError;
        }
        gopMode := modeData[modeNumber].gopMode;
      }
      StartMode(modeNumber);
      return Success;
    }

    /** The display is cleared to black in the new mode's geometry, the cursor at its upper
        left corner. */
    method StartMode(modeNumber: nat)
      requires modeNumber < |modeData| && modeData[modeNumber].columns > 0 && modeData[modeNumber].rows > 0 && !Wide()
      modifies this`maxColumn, this`maxRow, this`text, this`marks, this`mode, this`cursorColumn, this`cursorRow
      ensures Disciplined() && mode == modeNumber
      ensures maxColumn == modeData[mode].columns && maxRow == modeData[mode].rows && cursorColumn == cursorRow == 0
      ensures text == BlankText(maxColumn, maxRow, 0)
    {
      maxColumn, maxRow := modeData[modeNumber].columns, modeData[modeNumber].rows;
      text := BlankText(maxColumn, maxRow, 0);
      marks := NoMarks(maxColumn, maxRow);
      mode := modeNumber;
      cursorColumn, cursorRow := 0, 0;
      FlushCursor();
    }
  }

  /** A display in an 80 by 25 mode whose change to a second mode is refused: the cursor is
      visible and light gray, and its image is gone. */
  method LosesCursorImage() returns (d: Display)
    ensures fresh(d) && d.Ready() && !d.Disciplined() && d.mode == 0 && d.cursorVisible && d.Color() == 0x07
  {
    d := new Display([ModeData(80, 25, 0), ModeData(100, 31, 1)], 0);
    var status := d.SetMode(0, true, true);
    assert d.Disciplined() && d.hasLineBuffer && d.gopMode == 0;
    status := d.SetMode(1, true, false);
    assert status == DeviceError;
  }
}
