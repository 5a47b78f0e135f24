/** What the XOR cursor leaves on the screen. Pixels of a cell are the ink drawn there,
    XORed (on the cursor's scan lines) with a mask; a drawn character overwrites the whole
    cell, so it resets the mask. Each text row has one more cell, for the margin right of
    the text window. */
module CursorMarks {

  type Marks = seq<seq<bv32>>

  function NoMarks(columns: nat, rows: nat): (m: Marks)
    ensures |m| == rows && forall r :: 0 <= r < rows ==> |m[r]| == columns + 1
  {
    seq(rows, _ => seq(columns + 1, _ => 0))
  }

  ghost predicate Shape(m: Marks, columns: nat, rows: nat) {
    |m| == rows && forall r :: 0 <= r < rows ==> |m[r]| == columns + 1
  }

  /** One cursor image of the given colour, and nothing else. */
  function OneMark(columns: nat, rows: nat, column: nat, row: nat, color: bv32): (m: Marks)
    requires column <= columns && row < rows
    ensures |m| == rows && forall r :: 0 <= r < rows ==> |m[r]| == columns + 1
  {
    var none := NoMarks(columns, rows);
    none[row := none[row][column := color]]
  }

  /** XORs the cursor image into one cell. */
  function Toggle(m: Marks, column: nat, row: nat, color: bv32): (m': Marks)
    requires row < |m| && column < |m[row]|
    ensures |m'| == |m| && forall r :: 0 <= r < |m| ==> |m'[r]| == |m[r]|
  {
    m[row := m[row][column := m[row][column] ^ color]]
  }

  lemma {:induction false} XorTwice(a: bv32)
    ensures 0 ^ a == a && a ^ a == 0
  {
  }

  lemma {:induction false} ToggleOn(columns: nat, rows: nat, column: nat, row: nat, color: bv32)
    requires column <= columns && row < rows
    ensures Toggle(NoMarks(columns, rows), column, row, color) == OneMark(columns, rows, column, row, color)
  {
    XorTwice(color);
  }

  lemma {:induction false} ToggleOff(columns: nat, rows: nat, column: nat, row: nat, color: bv32)
    requires column <= columns && row < rows
    ensures Toggle(OneMark(columns, rows, column, row, color), column, row, color) == NoMarks(columns, rows)
  {
    XorTwice(color);
    var none := NoMarks(columns, rows);
    assert none[row][column := color][column := 0] == none[row];
  }

  /** XORing the image twice changes nothing, whatever else is on the screen. */
  lemma {:induction false} ToggleTwice(m: Marks, column: nat, row: nat, color: bv32)
    requires row < |m| && column < |m[row]|
    ensures Toggle(Toggle(m, column, row, color), column, row, color) == m
  {
    XorAgain(m[row][column], color);
    var once := Toggle(m, column, row, color);
    assert once[row][column := m[row][column]] == m[row];
  }

  lemma {:induction false} XorAgain(a: bv32, b: bv32)
    ensures (a ^ b) ^ b == a
  {
  }

  /** A cursor image can be seen unless its colour is black. */
  lemma {:induction false} OneMarkVisible(columns: nat, rows: nat, column: nat, row: nat, color: bv32)
    requires column <= columns && row < rows
    ensures OneMark(columns, rows, column, row, color) == NoMarks(columns, rows) <==> color == 0
  {
    var one, none := OneMark(columns, rows, column, row, color), NoMarks(columns, rows);
    assert one[row][column] == color && none[row][column] == 0;
    if color == 0 { assert none[row][column := color] == none[row]; }
  }

  /** Drawing over cells of one row resets their masks. */
  function Overwrite(m: Marks, row: nat, column: nat, cells: nat): (m': Marks)
    requires row < |m| && column + cells <= |m[row]|
    ensures |m'| == |m| && forall r :: 0 <= r < |m| ==> |m'[r]| == |m[r]|
  {
    m[row := m[row][..column] + seq(cells, _ => 0) + m[row][column + cells..]]
  }

  lemma {:induction false} OverwriteNone(columns: nat, rows: nat, row: nat, column: nat, cells: nat)
    requires row < rows && column + cells <= columns
    ensures Overwrite(NoMarks(columns, rows), row, column, cells) == NoMarks(columns, rows)
  {
    var none := NoMarks(columns, rows);
    assert none[row][..column] + seq(cells, _ => 0 as bv32) + none[row][column + cells..] == none[row];
  }

  lemma {:induction false} OverwriteOne(columns: nat, rows: nat, row: nat, column: nat, cells: nat, color: bv32)
    requires row < rows && 1 <= cells && column + cells <= columns
    ensures Overwrite(OneMark(columns, rows, column, row, color), row, column, cells) == NoMarks(columns, rows)
  {
    var none, one := NoMarks(columns, rows), OneMark(columns, rows, column, row, color);
    assert one[row][..column] + seq(cells, _ => 0 as bv32) + one[row][column + cells..] == none[row];
  }

  /** Scrolling copies the cells of the text window up one row and clears the last row;
      the margin stays. */
  function Scroll(m: Marks, columns: nat): (m': Marks)
    requires |m| > 0 && forall r :: 0 <= r < |m| ==> |m[r]| == columns + 1
    ensures |m'| == |m| && forall r :: 0 <= r < |m| ==> |m'[r]| == columns + 1
  {
    seq(|m|, r requires 0 <= r < |m| =>
      (if r + 1 < |m| then m[r + 1][..columns] else seq(columns, _ => 0)) + m[r][columns..])
  }

  lemma {:induction false} ScrollNone(columns: nat, rows: nat)
    requires rows > 0
    ensures Scroll(NoMarks(columns, rows), columns) == NoMarks(columns, rows)
  {
    var none := NoMarks(columns, rows);
    forall r | 0 <= r < rows
      ensures Scroll(none, columns)[r] == none[r]
    {
      assert none[r][..columns] + none[r][columns..] == none[r];
    }
  }
}
