/** What the reference console shows, cell by cell: where a character is drawn, what scrolling
    and backspacing leave, and how a whole line of text flows over the screen. */
module ScreenCells {
  import opened TextScreen

  // ---------------------------------------------------------------------------
  // Runs
  // ---------------------------------------------------------------------------

  /** MAIN: a run that fits shows its characters one behind the other from the cursor on, in
      the current colour, each half in a cell of its own. */
  lemma {:induction false} RunCell(s: Console, run: seq<Char16>, k: nat, h: nat)
    requires Fits(s, run) && k < |run| && h < if s.wide then 2 else 1
    ensures var q := s.column + (if s.wide then 2 * k else k) + h;
      q < s.columns && DrawRun(s, run).text[s.row][q] == Glyph(run[k], s.color, h)
    decreases |run|
  {
    var front := run[..|run| - 1];
    NextCells(DrawRun(s, front), run[|run| - 1]);
    if k < |front| { RunCell(s, front, k, h); }
  }

  /** MAIN: every other cell is unchanged. */
  lemma {:induction false} RunElsewhere(s: Console, run: seq<Char16>, r: nat, q: nat)
    requires Fits(s, run) && r < s.rows && q < s.columns
    requires !(r == s.row && s.column <= q < s.column + Span(s, |run|))
    ensures DrawRun(s, run).text[r][q] == s.text[r][q]
    decreases |run|
  {
    if |run| > 0 {
      var front := run[..|run| - 1];
      NextCells(DrawRun(s, front), run[|run| - 1]);
      RunElsewhere(s, front, r, q);
    }
  }

  /** One character that fits. */
  lemma {:induction false} NextCells(s: Console, c: Char16)
    requires s.Valid() && s.column + Width(s) <= s.columns
    ensures forall r, q :: 0 <= r < s.rows && 0 <= q < s.columns ==>
      DrawNext(s, c).text[r][q]
      == if r == s.row && s.column <= q < s.column + Width(s) then Glyph(c, s.color, q - s.column)
         else s.text[r][q]
  {
  }

  // ---------------------------------------------------------------------------
  // Control characters
  // ---------------------------------------------------------------------------

  /** A line feed moves the cursor down; on the last row every row moves up by one, and the
      last is blank in the current colour. */
  lemma {:induction false} LineFeedCells(s: Console, r: nat, q: nat)
    requires CanPut(s, CHAR_LINEFEED) && r < s.rows && q < s.columns
    ensures var s' := Put(s, CHAR_LINEFEED);
      && s'.column == s.column
      && s'.row == (if s.row + 1 < s.rows then s.row + 1 else s.row)
      && s'.text[r][q] == if s.row + 1 < s.rows then s.text[r][q]
                          else if r + 1 < s.rows then s.text[r + 1][q]
                          else Background(s.color)
  {
  }

  /** A backspace goes back one cell, over the start of a line to the end of the one before,
      and puts a space into the one cell it comes to; at the very start it does nothing. */
  lemma {:induction false} BackspaceCells(s: Console, r: nat, q: nat)
    requires CanPut(s, CHAR_BACKSPACE) && r < s.rows && q < s.columns
    ensures var s' := Put(s, CHAR_BACKSPACE);
      && s'.row * s.columns + s'.column
         == (if s.row * s.columns + s.column == 0 then 0 else s.row * s.columns + s.column - 1)
      && s'.text[r][q] == if r == s'.row && q == s'.column && (s.row > 0 || s.column > 0) then Glyph(SPACE, s.color, 0)
                          else s.text[r][q]
  {
    if s.column == 0 && s.row > 0 {
      OneLess(s.row, s.columns);
    } else if s.row > 0 {
      OneLess(s.row, s.columns);
    }
  }

  lemma {:induction false} OneLess(row: nat, columns: nat)
    requires row > 0
    ensures row * columns == (row - 1) * columns + columns
  {
  }

  /** A carriage return and the width changes move no cell. */
  lemma {:induction false} OtherControlCells(s: Console, c: Char16)
    requires CanPut(s, c) && (c == CHAR_CARRIAGE_RETURN || c == NARROW_CHAR || c == WIDE_CHAR)
    ensures Put(s, c).text == s.text && Put(s, c).row == s.row
    ensures Put(s, c).column == if c == CHAR_CARRIAGE_RETURN then 0 else s.column
  {
  }

  // ---------------------------------------------------------------------------
  // One printed character
  // ---------------------------------------------------------------------------

  /** How many rows the screen scrolls when line `line`, counted from the top of the screen
      as it was, is to be on it. */
  function Scrolled(rows: nat, line: nat): nat
    requires rows >= 1
  {
    if line < rows then 0 else line - (rows - 1)
  }

  /** The line, counted so, and the column at which a character is drawn. */
  function DrawnAt(s: Console): (nat, nat) {
    if s.column + Width(s) <= s.columns then (s.row, s.column) else (s.row + 1, 0)
  }

  /** The line the cursor is on afterwards. */
  function LineAfter(s: Console): nat {
    var (line, column) := DrawnAt(s);
    if column + Width(s) < s.columns then line else line + 1
  }

  /** A cell of the picture without scrolling: what the character covers, the blank it leaves
      when it did not fit, or what was there before. */
  function PictureAfter(s: Console, c: Char16, line: nat, q: nat): Ink
    requires s.Valid() && q < s.columns
  {
    var (at, column) := DrawnAt(s);
    if line == at && column <= q < column + Width(s) then Glyph(c, s.color, q - column)
    else if s.column + Width(s) > s.columns && line == s.row && q == s.column then Glyph(SPACE, s.color, 0)
    else if line < s.rows then s.text[line][q]
    else Background(s.color)
  }

  /** A printed character: drawn at the cursor if it fits on the line, else at the start of the
      next line with the cell it leaves blanked; the screen shows the last rows of the
      picture. */
  lemma {:induction false} PrintedCells(s: Console, c: Char16, r: nat, q: nat)
    requires CanPut(s, c) && !IsControl(c) && r < s.rows && q < s.columns
    ensures var s' := Put(s, c);
      && s'.row + Scrolled(s.rows, LineAfter(s)) == LineAfter(s)
      && s'.column == (var end := DrawnAt(s).1 + Width(s); if end < s.columns then end else 0)
      && s'.text[r][q] == PictureAfter(s, c, r + Scrolled(s.rows, LineAfter(s)), q)
  {
    hide DrawGlyph, Put, NewLine, Blanked;
    if s.column + Width(s) <= s.columns {
      PrintedInLine(s, c, r, q);
    } else {
      PrintedBehind(s, c);
      PrintedInLine(NewLine(Blanked(s)), c, r, q);
      NewLineCells(s);
    }
  }

  /** A wide character at the last column. */
  lemma {:induction false} PrintedBehind(s: Console, c: Char16)
    requires CanPut(s, c) && !IsControl(c) && s.column + Width(s) > s.columns
    ensures s.InRange() && s.column + 1 == s.columns
    ensures var n := NewLine(Blanked(s)); CanPut(n, c) && n.wide && s.wide && Put(s, c) == Put(n, c)
  {
  }

  lemma {:induction false} NewLineCells(s: Console)
    requires s.InRange()
    ensures var n, line := NewLine(Blanked(s)), s.row + 1;
      && n.columns == s.columns && n.rows == s.rows && n.color == s.color && n.column == 0
      && n.row + Scrolled(s.rows, line) == line
      && forall r, q :: 0 <= r < s.rows && 0 <= q < s.columns ==>
           n.text[r][q]
           == (var at := r + Scrolled(s.rows, line);
               if at == s.row && q == s.column then Glyph(SPACE, s.color, 0)
               else if at < s.rows then s.text[at][q]
               else Background(s.color))
  {
    hide Blanked, NewLine;
    BlankedCells(s);
    FedCells(Blanked(s));
  }

  lemma {:induction false} FedCells(b: Console)
    requires b.Valid()
    ensures var n, line := NewLine(b), b.row + 1;
      && n.columns == b.columns && n.rows == b.rows && n.color == b.color && n.column == 0
      && n.row + Scrolled(b.rows, line) == line
      && forall r, q :: 0 <= r < b.rows && 0 <= q < b.columns ==>
           n.text[r][q]
           == (var at := r + Scrolled(b.rows, line); if at < b.rows then b.text[at][q] else Background(b.color))
  {
  }

  lemma {:induction false} BlankedCells(s: Console)
    requires s.InRange()
    ensures forall r, q :: 0 <= r < s.rows && 0 <= q < s.columns ==>
      Blanked(s).text[r][q]
      == if r == s.row && q == s.column then Glyph(SPACE, s.color, 0) else s.text[r][q]
  {
  }

  lemma {:induction false} PrintedInLine(s: Console, c: Char16, r: nat, q: nat)
    requires CanPut(s, c) && !IsControl(c) && s.column + Width(s) <= s.columns && r < s.rows && q < s.columns
    ensures var s', scrolls := Put(s, c), s.column + Width(s) == s.columns && s.row + 1 == s.rows;
      && s'.row == (if s.column + Width(s) == s.columns && !scrolls then s.row + 1 else s.row)
      && s'.column == (if s.column + Width(s) == s.columns then 0 else s.column + Width(s))
      && var line := if scrolls then r + 1 else r;
         s'.text[r][q] == if line == s.rows then Background(s.color)
                          else if line == s.row && s.column <= q < s.column + Width(s) then
                            Glyph(c, s.color, q - s.column)
                          else s.text[line][q]
  {
    hide DrawGlyph;
    NextCells(s, c);
    var d := DrawNext(s, c);
    assert Put(s, c) == Wrap(d);
    assert d.columns == s.columns && d.rows == s.rows && d.row == s.row && d.color == s.color;
  }

  // ---------------------------------------------------------------------------
  // Plain text
  // ---------------------------------------------------------------------------

  ghost predicate IsPlain(w: seq<Char16>) {
    forall k :: 0 <= k < |w| ==> !IsControl(w[k])
  }

  /** The cursor's place in reading order. */
  function Place(columns: nat, row: nat, column: nat): nat {
    row * columns + column
  }

  /** The cell at this place of the picture without scrolling: a character of the string, what
      was there before, or a blank below the screen. */
  function Flowed(s: Console, w: seq<Char16>, line: nat, q: nat): Ink
    requires s.Valid() && q < s.columns
  {
    var i := Place(s.columns, line, q) - Place(s.columns, s.row, s.column);
    if 0 <= i < |w| then Glyph(w[i], s.color, 0)
    else if line < s.rows then s.text[line][q]
    else Background(s.color)
  }

  /** Plain text fills the cells from the cursor on in reading order, one character a cell; the
      screen shows the last rows of that picture, with the cursor behind the text. */
  ghost predicate ShowsText(s: Console, w: seq<Char16>, s': Console)
    requires s.InRange()
  {
    var end := Place(s.columns, s.row, s.column) + |w|;
    var line := end / s.columns;
    && s'.InRange() && s'.columns == s.columns && s'.rows == s.rows
    && s'.column == end % s.columns && s'.row + Scrolled(s.rows, line) == line
    && forall r, q :: 0 <= r < s.rows && 0 <= q < s.columns ==>
         s'.text[r][q] == Flowed(s, w, r + Scrolled(s.rows, line), q)
  }

  /** MAIN: that is what writing plain text shows, whatever its length and the size of the
      screen. */
  lemma {:induction false} TextFlows(s: Console, w: seq<Char16>)
    requires s.InRange() && !s.wide && IsPlain(w)
    ensures CanWrite(s, w) && ShowsText(s, w, Write(s, w))
  {
    hide Write, Flowed;
    var line := FlowsTo(s, w);
    LineOf(s.columns, line, Write(s, w).column);
  }

  /** The screen shows the last rows of the picture, with the cursor on its line `line`. */
  ghost predicate Flowing(s: Console, w: seq<Char16>, s': Console, line: nat)
    requires s.InRange()
  {
    && s'.InRange() && s'.columns == s.columns && s'.rows == s.rows && s'.color == s.color && !s'.wide
    && Place(s.columns, line, s'.column) == Place(s.columns, s.row, s.column) + |w|
    && s'.row + Scrolled(s.rows, line) == line && s.row <= line
    && forall r, q :: 0 <= r < s.rows && 0 <= q < s.columns ==>
         s'.text[r][q] == Flowed(s, w, r + Scrolled(s.rows, line), q)
  }

  /** By the line the cursor comes to. */
  lemma {:induction false} FlowsTo(s: Console, w: seq<Char16>) returns (line: nat)
    requires s.InRange() && !s.wide && IsPlain(w)
    ensures CanWrite(s, w) && Flowing(s, w, Write(s, w), line)
    decreases |w|
  {
    NoWidthChange(false, w);
    if |w| == 0 {
      line := s.row;
    } else {
      var k := |w| - 1;
      var before := FlowsTo(s, w[..k]);
      assert CanPut(Write(s, w[..k]), w[k]);
      line := FlowsOn(s, w, Write(s, w[..k]), before);
    }
  }

  /** One more character. */
  lemma {:induction false} FlowsOn(s: Console, w: seq<Char16>, m: Console, before: nat) returns (line: nat)
    requires s.InRange() && |w| > 0 && !IsControl(w[|w| - 1])
    requires Flowing(s, w[..|w| - 1], m, before) && CanPut(m, w[|w| - 1])
    ensures Flowing(s, w, Put(m, w[|w| - 1]), line)
  {
    hide Put, Flowed;
    var c := w[|w| - 1];
    line := if m.column + 1 < s.columns then before else before + 1;
    NextPlace(s.columns, before, m.column);
    PrintedCells(m, c, 0, 0);
    forall r, q | 0 <= r < s.rows && 0 <= q < s.columns
      ensures Put(m, c).text[r][q] == Flowed(s, w, r + Scrolled(s.rows, line), q)
    {
      PrintedCells(m, c, r, q);
      FlowStep(s, w, m, before, r + Scrolled(s.rows, line), q);
      if r + Scrolled(s.rows, LineAfter(m))
        == s.rows { BelowAll(s, w, m, before, s.rows + Scrolled(s.rows, before), q); }
    }
  }

  /** Below the cursor's line nothing has been drawn. */
  lemma {:induction false} BelowAll(s: Console, w: seq<Char16>, m: Console, before: nat, line: nat, q: nat)
    requires s.InRange() && |w| > 0 && q < s.columns && m.column < s.columns
    requires Place(s.columns, before, m.column) == Place(s.columns, s.row, s.column) + |w| - 1
    requires line > before && line >= s.rows
    ensures Flowed(s, w[..|w| - 1], line, q) == Background(s.color)
  {
    Further(s.columns, before, line);
  }

  /** What one more character changes in the picture. */
  lemma {:induction false} FlowStep(s: Console, w: seq<Char16>, m: Console, before: nat, line: nat, q: nat)
    requires s.InRange() && |w| > 0 && m.column < s.columns && q < s.columns
    requires Place(s.columns, before, m.column) == Place(s.columns, s.row, s.column) + |w| - 1
    requires s.row <= before
    ensures Flowed(s, w, line, q)
            == if line == before && q == m.column then Glyph(w[|w| - 1], s.color, 0)
               else Flowed(s, w[..|w| - 1], line, q)
  {
    SamePlace(s.columns, line, q, before, m.column);
  }

  lemma {:induction false} SamePlace(columns: nat, a: nat, p: nat, b: nat, q: nat)
    requires p < columns && q < columns
    ensures Place(columns, a, p) == Place(columns, b, q) <==> a == b && p == q
  {
    if a < b { Further(columns, a, b); } else if b < a { Further(columns, b, a); }
  }

  lemma {:induction false} Further(columns: nat, a: nat, b: nat)
    requires a < b
    ensures a * columns + columns <= b * columns
  {
    assert b * columns == a * columns + columns + (b - a - 1) * columns;
  }

  lemma {:induction false} NextPlace(columns: nat, line: nat, column: nat)
    requires column < columns
    ensures Place(columns, line, column) + 1
            == if column + 1 < columns then Place(columns, line, column + 1) else Place(columns, line + 1, 0)
  {
  }

  lemma {:induction false} LineOf(columns: nat, line: nat, column: nat)
    requires column < columns
    ensures Place(columns, line, column) / columns == line && Place(columns, line, column) % columns == column
  {
    var p := Place(columns, line, column);
    assert p == Place(columns, p / columns, p % columns);
    SamePlace(columns, p / columns, p % columns, line, column);
  }
}
