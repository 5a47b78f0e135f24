/** The reference for text output: a console that takes one character at a time, as the
    Simple Text Output protocol describes it (section 12.4 of the UEFI Specification 2.8). */
module TextScreen {

  type Char16 = c: int | 0 <= c < 0x10000 witness 0

  const CHAR_BACKSPACE: Char16 := 8
  const CHAR_LINEFEED: Char16 := 10
  const CHAR_CARRIAGE_RETURN: Char16 := 13
  const SPACE: Char16 := 32
  const NARROW_CHAR: Char16 := 0xFFF0
  const WIDE_CHAR: Char16 := 0xFFF1

  predicate IsControl(c: Char16) {
    c == CHAR_BACKSPACE || c == CHAR_LINEFEED || c == CHAR_CARRIAGE_RETURN || c == NARROW_CHAR || c == WIDE_CHAR
  }

  /** What a cell shows: the left (0) or right (1) half of a character, or bare background. */
  datatype Ink = Glyph(ch: Char16, color: bv8, half: nat) | Background(color: bv8)

  datatype Console = Console(columns: nat, rows: nat, column: nat, row: nat, wide: bool, color: bv8,
                             text: seq<seq<Ink>>)
  {
    ghost predicate Valid() {
      && columns >= 1 && rows >= 1
      && column <= columns && row < rows
      && |text| == rows
      && forall r :: 0 <= r < rows ==> |text[r]| == columns
    }

    /** The cursor is on a cell of the text window. */
    ghost predicate InRange() {
      Valid() && column < columns
    }
  }

  function BlankRow(columns: nat, color: bv8): seq<Ink> {
    seq(columns, _ => Background(color))
  }

  function BlankText(columns: nat, rows: nat, color: bv8): (text: seq<seq<Ink>>)
    ensures |text| == rows && forall r :: 0 <= r < rows ==> |text[r]| == columns
  {
    seq(rows, _ => BlankRow(columns, color))
  }

  /** Draws one character at the cursor; a wide one takes two cells. */
  function DrawGlyph(s: Console, c: Char16, width: nat): (s': Console)
    requires s.Valid() && 1 <= width <= 2 && s.column + width <= s.columns
    ensures s'.Valid() && s' == s.(text := s'.text)
  {
    var line := s.text[s.row][s.column := Glyph(c, s.color, 0)];
    s.(text := s.text[s.row := if width == 2 then line[s.column + 1 := Glyph(c, s.color, 1)] else line])
  }

  function Blanked(s: Console): (s': Console)
    requires s.InRange()
    ensures s'.InRange() && s' == s.(text := s'.text)
  {
    DrawGlyph(s, SPACE, 1)
  }

  function LineFeed(s: Console): (s': Console)
    requires s.Valid()
    ensures s'.Valid() && s' == s.(row := s'.row, text := s'.text)
  {
    if s.row == s.rows - 1 then s.(text := s.text[1..] + [BlankRow(s.columns, s.color)])
    else s.(row := s.row + 1)
  }

  function NewLine(s: Console): (s': Console)
    requires s.Valid()
    ensures s'.InRange() && s' == s.(column := 0, row := s'.row, text := s'.text)
  {
    LineFeed(s.(column := 0))
  }

  /** Past the right edge the line wraps. */
  function Wrap(s: Console): (s': Console)
    requires s.Valid()
    ensures s'.InRange()
  {
    if s.column >= s.columns then NewLine(s) else s
  }

  function Width(s: Console): nat {
    if s.wide then 2 else 1
  }

  /** The cells `n` characters take. */
  function Span(s: Console, n: nat): nat {
    if s.wide then 2 * n else n
  }

  /** Draws a character that fits on the line and moves the cursor behind it. */
  function DrawNext(s: Console, c: Char16): (s': Console)
    requires s.Valid() && s.column + Width(s) <= s.columns
    ensures s'.Valid()
  {
    DrawGlyph(s, c, Width(s)).(column := s.column + Width(s))
  }

  /** A wide character that would stick out of the line goes to the next one; the cell it
      leaves is blanked. */
  ghost function MakeRoom(s: Console): (s': Console)
    requires s.InRange() && (s.wide ==> s.columns >= 2)
    ensures s'.InRange() && s'.column + Width(s') <= s'.columns && s'.wide == s.wide
  {
    if s.column + Width(s) > s.columns then NewLine(Blanked(s)) else s
  }

  /** A character that is not a control character. */
  ghost function PutGlyph(s: Console, c: Char16): (s': Console)
    requires s.InRange() && (s.columns >= 2 || !s.wide)
    ensures s'.InRange()
    ensures s'.columns == s.columns && s'.rows == s.rows && s'.color == s.color && s'.wide == s.wide
  {
    Wrap(DrawNext(MakeRoom(s), c))
  }

  ghost predicate CanPut(s: Console, c: Char16) {
    s.Valid() && (s.InRange() || c == CHAR_CARRIAGE_RETURN) && (IsControl(c) || s.columns >= 2 || !s.wide)
  }

  /** The effect of one character. */
  ghost function Put(s: Console, c: Char16): (s': Console)
    requires CanPut(s, c)
    ensures s'.InRange()
    ensures s'.columns == s.columns && s'.rows == s.rows && s'.color == s.color
    ensures s'.wide == if c == WIDE_CHAR then true else if c == NARROW_CHAR then false else s.wide
  {
    if c == CHAR_BACKSPACE then
      if s.column == 0 && s.row > 0 then Blanked(s.(row := s.row - 1, column := s.columns - 1))
      else if s.column > 0 then Blanked(s.(column := s.column - 1))
      else s
    else if c == CHAR_LINEFEED then LineFeed(s)
    else if c == CHAR_CARRIAGE_RETURN then s.(column := 0)
    else if c == WIDE_CHAR then s.(wide := true)
    else if c == NARROW_CHAR then s.(wide := false)
    else PutGlyph(s, c)
  }

  /** Whether wide characters are on after a string. */
  function WideAfter(wide: bool, w: seq<Char16>): bool {
    if |w| == 0 then wide
    else if w[|w| - 1] == WIDE_CHAR then true
    else if w[|w| - 1] == NARROW_CHAR then false
    else WideAfter(wide, w[..|w| - 1])
  }

  /** No character is printed while wide characters are on. */
  predicate PrintsNarrow(wide: bool, w: seq<Char16>) {
    |w| == 0
    || (PrintsNarrow(wide, w[..|w| - 1]) && (IsControl(w[|w| - 1]) || !WideAfter(wide, w[..|w| - 1])))
  }

  /** The string may be written: it starts at a cell (or with a carriage return), and on a
      one-column display prints nothing while wide characters are on. */
  ghost predicate CanWrite(s: Console, w: seq<Char16>) {
    && s.Valid()
    && (s.InRange() || (|w| > 0 && w[0] == CHAR_CARRIAGE_RETURN))
    && (s.columns >= 2 || PrintsNarrow(s.wide, w))
  }

  /** A string without width changes keeps the width, and prints narrow if that is. */
  lemma {:induction false} NoWidthChange(wide: bool, w: seq<Char16>)
    requires NARROW_CHAR !in w && WIDE_CHAR !in w
    ensures WideAfter(wide, w) == wide && (!wide ==> PrintsNarrow(wide, w))
    decreases |w|
  {
    if |w| > 0 { NoWidthChange(wide, w[..|w| - 1]); }
  }

  lemma {:induction false} NarrowConcat(wide: bool, v: seq<Char16>, w: seq<Char16>)
    ensures WideAfter(wide, v + w) == WideAfter(WideAfter(wide, v), w)
    ensures PrintsNarrow(wide, v + w) <==> PrintsNarrow(wide, v) && PrintsNarrow(WideAfter(wide, v), w)
    decreases |w|
  {
    if |w| == 0 {
      assert v + w == v;
    } else {
      NarrowConcat(wide, v, w[..|w| - 1]);
      assert (v + w)[..|v + w| - 1] == v + w[..|w| - 1];
    }
  }

  /** The effect of a string, one character after the other. */
  ghost function Write(s: Console, w: seq<Char16>): (s': Console)
    requires CanWrite(s, w)
    ensures s'.Valid() && (|w| > 0 || s.InRange() ==> s'.InRange())
    ensures s'.columns == s.columns && s'.rows == s.rows && s'.color == s.color
    ensures s'.wide == WideAfter(s.wide, w)
    decreases |w|
  {
    if |w| == 0 then s
    else Put(if |w| == 1 then s else Write(s, w[..|w| - 1]), w[|w| - 1])
  }

  lemma {:induction false} WriteSnoc(s: Console, w: seq<Char16>, c: Char16)
    requires CanWrite(s, w + [c])
    ensures |w| > 0 ==> CanWrite(s, w)
    ensures Write(s, w + [c]) == Put(if |w| == 0 then s else Write(s, w), c)
  {
    assert (w + [c])[..|w|] == w;
  }

  lemma {:induction false} WriteConcat(s: Console, v: seq<Char16>, w: seq<Char16>)
    requires CanWrite(s, v + w) && |v| > 0
    ensures CanWrite(s, v) && CanWrite(Write(s, v), w)
    ensures Write(s, v + w) == Write(Write(s, v), w)
    decreases |w|
  {
    NarrowConcat(s.wide, v, w);
    if |w| == 0 {
      assert v + w == v;
    } else {
      var k := |w| - 1;
      NarrowConcat(s.wide, v, w[..k]);
      assert v + w == (v + w[..k]) + [w[k]];
      assert w == w[..k] + [w[k]];
      WriteSnoc(s, v + w[..k], w[k]);
      WriteConcat(s, v, w[..k]);
    }
  }

  // ---------------------------------------------------------------------------
  // A run of characters that fits on the line
  // ---------------------------------------------------------------------------

  ghost predicate Fits(s: Console, run: seq<Char16>) {
    && s.Valid() && s.column + Span(s, |run|) <= s.columns
    && forall k :: 0 <= k < |run| ==> !IsControl(run[k])
  }

  /** Draws a run on the line, without wrapping. */
  function DrawRun(s: Console, run: seq<Char16>): (s': Console)
    requires Fits(s, run)
    ensures s'.Valid() && s'.column == s.column + Span(s, |run|) && s'.wide == s.wide
    ensures s' == s.(column := s'.column, text := s'.text)
    decreases |run|
  {
    if |run| == 0 then s
    else
      var s' := DrawRun(s, run[..|run| - 1]);
      DrawNext(s', run[|run| - 1])
  }

  /** Drawing a run at once and wrapping afterwards is writing it character by character. */
  lemma {:induction false} RunIsWrite(s: Console, run: seq<Char16>)
    requires Fits(s, run) && s.InRange() && (s.columns >= 2 || !s.wide)
    ensures CanWrite(s, run) && Write(s, run) == Wrap(DrawRun(s, run))
    decreases |run|
  {
    hide DrawNext, NewLine;
    NoWidthChange(s.wide, run);
    if |run| > 0 {
      var k := |run| - 1;
      RunIsWrite(s, run[..k]);
      var s' := DrawRun(s, run[..k]);
      PutFits(s', run[k]);
      assert CanWrite(s, run);
      assert Write(s, run) == Put(s', run[k]);
    }
  }

  lemma {:induction false} PutFits(s: Console, c: Char16)
    requires s.InRange() && (s.columns >= 2 || !s.wide) && s.column + Width(s) <= s.columns && !IsControl(c)
    ensures Put(s, c) == Wrap(DrawNext(s, c))
  {
  }

  /** A run that ends before the edge does not wrap. */
  lemma {:induction false} ShortRun(s: Console, run: seq<Char16>)
    requires Fits(s, run) && s.InRange() && (s.columns >= 2 || !s.wide) && s.column + Span(s, |run|) < s.columns
    ensures CanWrite(s, run) && After(s, run, |run|) == DrawRun(s, run)
  {
    RunIsWrite(s, run);
    assert run[..|run|] == run;
  }

  lemma {:induction false} PrefixWritable(s: Console, w: seq<Char16>, i: nat)
    requires CanWrite(s, w) && i <= |w|
    ensures i > 0 || s.InRange() ==> CanWrite(s, w[..i])
  {
    assert w == w[..i] + w[i..];
    NarrowConcat(s.wide, w[..i], w[i..]);
  }

  /** The state when `i` characters of the string have been written. */
  ghost function After(s: Console, w: seq<Char16>, i: nat): (s': Console)
    requires CanWrite(s, w) && i <= |w|
    ensures s'.Valid() && s'.columns == s.columns && s'.rows == s.rows && s'.color == s.color
    ensures i > 0 || s.InRange() ==> s'.InRange()
    ensures s'.wide == WideAfter(s.wide, w[..i])
  {
    PrefixWritable(s, w, i);
    if i == 0 then s else Write(s, w[..i])
  }

  lemma {:induction false} AfterStart(s: Console, w: seq<Char16>)
    requires CanWrite(s, w)
    ensures After(s, w, 0) == s
  {
  }

  lemma {:induction false} AfterAll(s: Console, w: seq<Char16>)
    requires CanWrite(s, w)
    ensures After(s, w, |w|) == if |w| == 0 then s else Write(s, w)
  {
    assert w[..|w|] == w;
  }

  lemma {:induction false} AfterStep(s: Console, w: seq<Char16>, i: nat)
    requires CanWrite(s, w) && i < |w|
    ensures CanPut(After(s, w, i), w[i])
    ensures After(s, w, i + 1) == Put(After(s, w, i), w[i])
  {
    assert w[..i + 1] == w[..i] + [w[i]];
    PrefixWritable(s, w, i + 1);
    WriteSnoc(s, w[..i], w[i]);
  }

  lemma {:induction false} AfterRun(s: Console, w: seq<Char16>, i: nat, j: nat)
    requires CanWrite(s, w) && i < j <= |w|
    ensures CanWrite(After(s, w, i), w[i..j])
    ensures After(s, w, j) == Write(After(s, w, i), w[i..j])
  {
    assert w[..j] == w[..i] + w[i..j];
    PrefixWritable(s, w, j);
    if i > 0 { WriteConcat(s, w[..i], w[i..j]); } else { assert w[..j] == w[i..j]; }
  }

  /** The end of a line with a wide character still to come: the last cell is blanked and
      the cursor is on the next line, although no character has been consumed. */
  ghost predicate Padded(p: Console, v: Console) {
    p.InRange() && p.wide && p.columns >= 2 && p.column + 1 == p.columns && v == NewLine(Blanked(p))
  }

  lemma {:induction false} PaddedPut(p: Console, v: Console, c: Char16)
    requires Padded(p, v) && !IsControl(c)
    ensures v.InRange() && v.column == 0 && v.wide && v.columns == p.columns && v.rows == p.rows && v.color == p.color
    ensures Put(p, c) == Put(v, c)
  {
  }

  lemma {:induction false} PaddedWrite(p: Console, v: Console, run: seq<Char16>)
    requires Padded(p, v) && |run| > 0 && forall k :: 0 <= k < |run| ==> !IsControl(run[k])
    ensures CanWrite(p, run) && CanWrite(v, run) && Write(p, run) == Write(v, run)
    decreases |run|
  {
    PaddedPut(p, v, run[0]);
    if |run| > 1 { PaddedWrite(p, v, run[..|run| - 1]); }
  }

  /** The character at `i` is the first that is printed while wide characters are on. */
  predicate ReachesWide(wide: bool, w: seq<Char16>, i: nat)
    requires i < |w|
  {
    PrintsNarrow(wide, w[..i]) && WideAfter(wide, w[..i]) && !IsControl(w[i])
  }

  /** MAIN: a string that starts on a cell is not writable exactly when the display has one
      column and the string comes to a printable character while wide characters are on. */
  lemma {:induction false} NotWritableIff(s: Console, w: seq<Char16>)
    requires s.InRange()
    ensures !CanWrite(s, w) <==>
      s.columns == 1 && exists i :: 0 <= i < |w| && ReachesWide(s.wide, w, i)
    decreases |w|
  {
    NotNarrowIff(s.wide, w);
  }

  /** On one column: switch to wide characters and print an A. */
  const STALL_STR: seq<Char16> := [WIDE_CHAR, 65]

  lemma {:induction false} NotWritableExample(s: Console)
    requires s.InRange() && s.columns == 1
    ensures !CanWrite(s, STALL_STR) && ReachesWide(s.wide, STALL_STR, 1)
  {
    assert STALL_STR[..1] == [WIDE_CHAR];
    assert [WIDE_CHAR][..0] == [];
    NotWritableIff(s, STALL_STR);
  }

  lemma {:induction false} NotNarrowIff(wide: bool, w: seq<Char16>)
    ensures !PrintsNarrow(wide, w) <==> exists i :: 0 <= i < |w| && ReachesWide(wide, w, i)
    decreases |w|
  {
    if |w| > 0 {
      var k := |w| - 1;
      NotNarrowIff(wide, w[..k]);
      assert !PrintsNarrow(wide, w) && PrintsNarrow(wide, w[..k]) ==> ReachesWide(wide, w, k);
      if i :| 0 <= i < k && ReachesWide(wide, w[..k], i) {
        assert w[..k][..i] == w[..i];
        assert ReachesWide(wide, w, i);
      }
      if i :| 0 <= i < |w| && ReachesWide(wide, w, i) {
        if i < k {
          assert w[..k][..i] == w[..i];
          assert ReachesWide(wide, w[..k], i);
        }
      }
    }
  }

  // ---------------------------------------------------------------------------
  // The virtual cursor
  // ---------------------------------------------------------------------------

  datatype Cursor = Cursor(column: nat, row: nat)

  /** How one character moves the cursor of a console without devices. */
  function MoveCursor(cur: Cursor, c: Char16, maxColumn: nat, maxRow: nat): (cur': Cursor)
    requires maxColumn >= 1 && maxRow >= 1 && cur.column < maxColumn && cur.row < maxRow
    ensures cur'.column < maxColumn && cur'.row < maxRow
  {
    if c == CHAR_BACKSPACE then
      if cur.column == 0 && cur.row > 0 then Cursor(maxColumn - 1, cur.row - 1)
      else if cur.column > 0 then cur.(column := cur.column - 1)
      else cur
    else if c == CHAR_LINEFEED then
      if cur.row < maxRow - 1 then cur.(row := cur.row + 1) else cur
    else if c == CHAR_CARRIAGE_RETURN then cur.(column := 0)
    else if cur.column < maxColumn - 1 then cur.(column := cur.column + 1)
    else Cursor(0, if cur.row < maxRow - 1 then cur.row + 1 else cur.row)
  }

  ghost function MoveCursorOver(cur: Cursor, w: seq<Char16>, maxColumn: nat, maxRow: nat): (cur': Cursor)
    requires maxColumn >= 1 && maxRow >= 1 && cur.column < maxColumn && cur.row < maxRow
    ensures cur'.column < maxColumn && cur'.row < maxRow
    decreases |w|
  {
    if |w| == 0 then cur
    else MoveCursor(MoveCursorOver(cur, w[..|w| - 1], maxColumn, maxRow), w[|w| - 1], maxColumn, maxRow)
  }

  ghost predicate IsNarrow(w: seq<Char16>) {
    NARROW_CHAR !in w && WIDE_CHAR !in w
  }

  /** MAIN: on strings without width changes, the console's cursor moves as the virtual one. */
  lemma {:induction false} CursorsAgree(s: Console, w: seq<Char16>)
    requires s.InRange() && !s.wide && IsNarrow(w)
    ensures CanWrite(s, w) && !Write(s, w).wide
    ensures var s' := Write(s, w);
      Cursor(s'.column, s'.row) == MoveCursorOver(Cursor(s.column, s.row), w, s.columns, s.rows)
    decreases |w|
  {
    NoWidthChange(false, w);
    if |w| > 0 { CursorsAgree(s, w[..|w| - 1]); }
  }
}
