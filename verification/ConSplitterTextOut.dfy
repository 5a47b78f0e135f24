/** The text output side of the console splitter (ConSplitter.c): the arrays it keeps and
    the loops that maintain them. Each operation is proved against TextModes. */
module ConSplitterTextOut {
  import opened Basics
  import opened TextModes
  import opened ModeMapMemory

  const ALLOC_UNIT: nat := 32

  datatype Status = Success | NotFound | Unsupported | DeviceError

  const MAX_INT32: nat := 0x7FFF_FFFF

  /** The entries of a map of `n` rows. */
  ghost function MapColumn(s: seq<int>, off: nat, step: nat, n: nat): (column: seq<int>)
    requires off + Start(step, n) < |s| + step
    ensures |column| == n
  {
    seq(n, r requires 0 <= r < n => MapEntry(s, off, step, n, r))
  }

  ghost function MapEntry(s: seq<int>, off: nat, step: nat, n: nat, r: nat): int
    requires r < n && off + Start(step, n) < |s| + step
  {
    StartMono(step, r, n);
    s[off + Start(step, r)]
  }

  /** A row behind the part that has been overwritten still has its first contents. */
  lemma {:induction false} RowUnread(s0: seq<int>, s: seq<int>, step: nat, k: nat, index: nat, n: nat)
    requires k <= index < n && Start(step, n) <= |s0| == |s|
    requires Start(step, k) <= |s| && s[Start(step, k)..] == s0[Start(step, k)..]
    ensures Start(step, index) + step <= |s|
    ensures s[Start(step, index)..Start(step, index) + step] == Row(s0, step, n, index)
  {
    var at, from := Start(step, k), Start(step, index);
    StartMono(step, k, index);
    StartMono(step, index, n);
    forall i | from <= i < from + step
      ensures s[i] == s0[i]
    {
      assert s[at..][i - at] == s0[at..][i - at];
    }
  }

  /** One turn of the compaction loop that keeps row `index`: the table's first `k + 1`
      rows are the rows kept so far, and nothing behind them has changed. */
  lemma {:induction false} RowKept(s0: seq<int>, s: seq<int>, s': seq<int>, step: nat, k: nat, index: nat, n: nat)
    requires k <= index < n && Start(step, n) <= |s0| && |s| == |s0|
    requires Start(step, k) <= |s| && s[Start(step, k)..] == s0[Start(step, k)..]
    requires Start(step, index) + step <= |s| && Start(step, k) + step <= |s|
    requires s' == s[..Start(step, k)] + s[Start(step, index)..Start(step, index) + step] + s[Start(step, k) + step..]
    ensures Start(step, k + 1) <= Start(step, n)
    ensures Rows(s', step, k + 1) == Rows(s, step, k) + [Row(s0, step, n, index)]
    ensures s'[Start(step, k + 1)..] == s0[Start(step, k + 1)..]
  {
    StartMono(step, k + 1, n);
    RowUnread(s0, s, step, k, index, n);
    RestUnread(s0, s, s', Start(step, k), step, Row(s0, step, n, index));
    hide Rows, Row;
    WriteRow(s, s', step, k + 1, k, Row(s0, step, n, index));
    RowsPrefix(s, step, k, k + 1);
    assert Rows(s, step, k + 1)[k := Row(s0, step, n, index)] == Rows(s, step, k) + [Row(s0, step, n, index)];
  }

  /** What lies behind a row that is written is as it was. */
  lemma {:induction false} RestUnread(s0: seq<int>, s: seq<int>, s': seq<int>, at: nat, step: nat, row: seq<int>)
    requires at + step <= |s| == |s0| && s[at..] == s0[at..] && |row| == step
    requires s' == s[..at] + row + s[at + step..]
    ensures s'[at + step..] == s0[at + step..]
  {
    assert s[at + step..] == s[at..][step..] && s0[at + step..] == s0[at..][step..];
  }

  /** The state of the compaction when the rows below `index` have been looked at and `k`
      of them kept. */
  ghost predicate Compacting(s0: seq<int>, s: seq<int>, keep: seq<int>, step: nat, n: nat, k: nat, index: nat) {
    && 2 <= k <= index <= n == |keep| && |s| == |s0|
    && Start(step, k) <= Start(step, n) <= |s0|
    && Rows(s, step, k) == Compact(Rows(s0, step, n)[..index], keep[..index])
    && s[Start(step, k)..] == s0[Start(step, k)..]
    && index - k == DroppedBelow(keep, index)
  }

  lemma {:induction false} CompactingStarts(s0: seq<int>, keep: seq<int>, step: nat, n: nat, oldMode: int)
    requires 2 <= n == |keep| && Start(step, n) <= |s0|
    ensures Compacting(s0, s0, keep, step, n, 2, 2)
    ensures TrackedMode(keep, oldMode, 2) == oldMode
  {
    RowsPrefix(s0, step, 2, n);
  }

  lemma {:induction false} StartStep(step: nat, r: nat)
    ensures Start(step, r + 1) == Start(step, r) + step
  {
  }

  lemma {:induction false} NothingToCompact(rows: seq<seq<int>>, keep: seq<int>, mode: int)
    requires |rows| == |keep| < 2
    ensures Compact(rows, keep) == rows && DroppedBelow(keep, |keep|) == 0 && MovedMode(keep, mode) == mode
  {
  }

  lemma {:induction false} CompactingDrops(s0: seq<int>, s: seq<int>, keep: seq<int>, step: nat, n: nat, k: nat,
                                           index: nat)
    requires Compacting(s0, s, keep, step, n, k, index) && index < n && keep[index] == NOT_SUPPORTED
    ensures Compacting(s0, s, keep, step, n, k, index + 1)
  {
    var rows0 := Rows(s0, step, n);
    assert rows0[..index + 1][..index] == rows0[..index] && keep[..index + 1][..index] == keep[..index];
  }

  lemma {:induction false} CompactingKeeps(s0: seq<int>, s: seq<int>, s': seq<int>, keep: seq<int>, step: nat, n: nat,
                                           k: nat, index: nat)
    requires Compacting(s0, s, keep, step, n, k, index) && index < n && keep[index] != NOT_SUPPORTED
    requires Start(step, index) + step <= |s| && Start(step, k) + step <= |s|
    requires s' == s[..Start(step, k)] + s[Start(step, index)..Start(step, index) + step] + s[Start(step, k) + step..]
    ensures Compacting(s0, s', keep, step, n, k + 1, index + 1)
  {
    var rows0 := Rows(s0, step, n);
    assert rows0[..index + 1][..index] == rows0[..index] && keep[..index + 1][..index] == keep[..index];
    RowKept(s0, s, s', step, k, index, n);
  }

  lemma {:induction false} CompactingDone(s0: seq<int>, s: seq<int>, keep: seq<int>, step: nat, n: nat, k: nat,
                                          oldMode: int)
    requires Compacting(s0, s, keep, step, n, k, n)
    ensures Start(step, k) <= Start(step, n) <= |s| == |s0|
    ensures Rows(s, step, k) == Compact(Rows(s0, step, n), keep)
    ensures s[Start(step, k)..] == s0[Start(step, k)..]
    ensures k == n - DroppedBelow(keep, n) && TrackedMode(keep, oldMode, n) == MovedMode(keep, oldMode)
  {
    assert Rows(s0, step, n)[..n] == Rows(s0, step, n) && keep[..n] == keep;
  }

  /** The current mode as tracked when the rows below `index` have been looked at. */
  ghost function TrackedMode(keep: seq<int>, oldMode: int, index: nat): int
    requires index <= |keep|
  {
    if 2 <= oldMode < index && !Kept(keep, oldMode) then -1
    else oldMode - DroppedBelow(keep, if oldMode < index then oldMode else index)
  }

  lemma {:induction false} TrackedModeStep(keep: seq<int>, oldMode: int, index: nat)
    requires 2 <= index < |keep|
    ensures TrackedMode(keep, oldMode, index + 1) ==
            if keep[index] != NOT_SUPPORTED then TrackedMode(keep, oldMode, index)
            else if index == oldMode then -1
            else if index < oldMode then TrackedMode(keep, oldMode, index) - 1
            else TrackedMode(keep, oldMode, index)
  {
  }

  /** The new map's entry for the row to be looked at next is still what it was, also when
      the new map is a column of the table. */
  lemma {:induction false} EntryUnread(s0: seq<int>, s: seq<int>, m: seq<int>, m0: seq<int>, keep: seq<int>, off: nat,
                                       step: nat, newStep: nat, n: nat, k: nat, index: nat, same: bool)
    requires Compacting(s0, s, keep, step, n, k, index) && index < n
    requires off + Start(newStep, n) < |m0| + newStep && |m| == |m0|
    requires keep == MapColumn(m0, off, newStep, n)
    requires if same then m == s && m0 == s0 && newStep == step else m == m0
    ensures off + Start(newStep, index) < |m|
    ensures m[off + Start(newStep, index)] == keep[index]
  {
    StartMono(newStep, index, n);
    if same {
      StartMono(step, k, index);
      var clean, i := Start(step, k), off + Start(step, index);
      assert m[i] == m[clean..][i - clean] && m0[i] == m0[clean..][i - clean];
    }
  }

  /** One turn of the compaction: row `index` is dropped, or moved to its new place unless
      it is there already. */
  method DropOrKeep(table: array<int>, newMap: array<int>, current: nat, next: nat, new_: nat, step: nat,
                    ghost s0: seq<int>, ghost keep: seq<int>, ghost n: nat, ghost k: nat, ghost index: nat)
      returns (kept: bool)
    requires step > 0 && new_ < newMap.Length
    requires Compacting(s0, table[..], keep, step, n, k, index) && index < n
    requires current == Start(step, index) && next == Start(step, k) && newMap[new_] == keep[index]
    modifies table
    ensures kept <==> keep[index] != NOT_SUPPORTED
    ensures Compacting(s0, table[..], keep, step, n, if kept then k + 1 else k, index + 1)
  {
    hide *;
    CompactingBounds(s0, table[..], keep, step, n, k, index);
    ghost var before := table[..];
    kept := newMap[new_] != NOT_SUPPORTED;
    if kept {
      if current != next {
        CopyMem(table, next, table, current, step);
      }
      CompactingKeeps(s0, before, table[..], keep, step, n, k, index);
    } else {
      CompactingDrops(s0, before, keep, step, n, k, index);
    }
  }

  lemma {:induction false} CompactingBounds(s0: seq<int>, s: seq<int>, keep: seq<int>, step: nat, n: nat, k: nat,
                                            index: nat)
    requires Compacting(s0, s, keep, step, n, k, index) && index < n
    ensures Start(step, index) + step <= |s| && Start(step, k) + step <= |s|
  {
    StartMono(step, index, n);
    StartMono(step, k, n);
  }

  /** Reconstructs the mode map in place as the intersection: drops every row past the
      reserved two whose entry of the new map is -1. The new map starts at cell `off` of
      `newMap`; it may be a column of the very table being compacted. */
  method GetIntersection(table: array<int>, newMap: array<int>, off: nat, step: nat, newStep: nat,
                         oldMaxMode: nat, oldMode: int)
      returns (maxMode: nat, mode: int)
    requires step > 0 && newStep > 0 && Start(step, oldMaxMode) <= table.Length
    requires off + Start(newStep, oldMaxMode) < newMap.Length + newStep
    requires newMap == table ==> newStep == step && off < step
    modifies table
    ensures maxMode <= oldMaxMode && Start(step, maxMode) <= Start(step, oldMaxMode)
    ensures var keep := MapColumn(old(newMap[..]), off, newStep, oldMaxMode);
      && Rows(table[..], step, maxMode) == Compact(Rows(old(table[..]), step, oldMaxMode), keep)
      && maxMode == oldMaxMode - DroppedBelow(keep, oldMaxMode)
      && mode == MovedMode(keep, oldMode)
    ensures table[Start(step, maxMode)..] == old(table[Start(step, maxMode)..])
  {
    hide *;
    ghost var s0, m0, k := table[..], newMap[..], 2;
    ghost var keep := MapColumn(m0, off, newStep, oldMaxMode);
    maxMode, mode := oldMaxMode, oldMode;
    var index := 2;
    var current, next, new_ := step * 2, step * 2, off + newStep * 2;
    StartIsProduct(step, 2);
    StartIsProduct(newStep, 2);
    if oldMaxMode >= 2 {
      CompactingStarts(s0, keep, step, oldMaxMode, oldMode);
    } else {
      NothingToCompact(Rows(s0, step, oldMaxMode), keep, oldMode);
    }
    while index < oldMaxMode
      invariant oldMaxMode < 2 ==> index == 2 && maxMode == oldMaxMode && mode == oldMode && table[..] == s0
      invariant oldMaxMode >= 2 ==> 2 <= k <= index <= oldMaxMode
      invariant oldMaxMode >= 2 ==>
        && Compacting(s0, table[..], keep, step, oldMaxMode, k, index)
        && maxMode == oldMaxMode - (index - k)
        && mode == TrackedMode(keep, oldMode, index)
      invariant current == Start(step, index) && next == Start(step, k) && new_ == off + Start(newStep, index)
      invariant newMap != table ==> newMap[..] == m0
    {
      EntryUnread(s0, table[..], newMap[..], m0, keep, off, step, newStep, oldMaxMode, k, index, newMap == table);
      TrackedModeStep(keep, oldMode, index);
      StartStep(step, index);
      StartStep(step, k);
      StartStep(newStep, index);
      var kept := DropOrKeep(table, newMap, current, next, new_, step, s0, keep, oldMaxMode, k, index);
      if kept {
        next := next + step;
        k := k + 1;
      } else {
        if index == oldMode {
          mode := -1;
        } else if index < oldMode {
          mode := mode - 1;
        }
        maxMode := maxMode - 1;
      }
      current := current + step;
      new_ := new_ + newStep;
      index := index + 1;
    }
    if oldMaxMode >= 2 { CompactingDone(s0, table[..], keep, step, oldMaxMode, k, oldMode); }
  }

  // ---------------------------------------------------------------------------
  // How the arrays hold a table
  // ---------------------------------------------------------------------------

  /** Each row with `k` unused columns behind it. */
  ghost function Pad(rows: seq<seq<int>>, k: nat): (padded: seq<seq<int>>)
    ensures |padded| == |rows|
  {
    seq(|rows|, r requires 0 <= r < |rows| => rows[r] + NoColumn(k))
  }

  /** The map array holds the rows of `t` for `n` consoles, every unused column of a live
      row being -1, and the query data array starts with its cache. */
  ghost predicate Holds(map_: seq<int>, step: nat, n: nat, data: seq<Geometry>, t: Table) {
    && n <= step
    && |t.rows| <= |t.data| <= |data|
    && |map_| == Start(step, |data|) && Start(step, |t.rows|) <= |map_|
    && Rows(map_, step, |t.rows|) == Pad(t.rows, step - n)
    && data[..|t.data|] == t.data
  }

  /** A cell of the map that a console uses is the table's entry. */
  lemma {:induction false} LiveCell(map_: seq<int>, step: nat, n: nat, data: seq<Geometry>, t: Table, r: nat, c: nat)
    requires n > 0 && ValidTable(t, n) && Holds(map_, step, n, data, t) && r < |t.rows| && c < n
    ensures Start(step, r) + c < |map_| && map_[Start(step, r) + c] == t.rows[r][c]
  {
    CellOfRow(map_, step, |t.rows|, r, c);
    assert Rows(map_, step, |t.rows|)[r] == Pad(t.rows, step - n)[r];
  }

  lemma {:induction false} CompactPad(rows: seq<seq<int>>, keep: seq<int>, k: nat)
    requires |rows| == |keep|
    ensures Compact(Pad(rows, k), keep) == Pad(Compact(rows, keep), k)
  {
    if |rows| > 0 {
      var m := |rows| - 1;
      assert Pad(rows, k)[..m] == Pad(rows[..m], k);
      CompactPad(rows[..m], keep[..m], k);
    }
  }

  // ---------------------------------------------------------------------------
  // The map array when it grows
  // ---------------------------------------------------------------------------

  /** The rows of a reallocated map of `q` rows when `done` live rows have been copied. */
  ghost function Grown(oldRows: seq<seq<int>>, n: nat, step: nat, q: nat, done: nat): (rows: seq<seq<int>>)
    requires done <= |oldRows| && n <= step && forall r :: 0 <= r < |oldRows| ==> n <= |oldRows[r]|
    ensures |rows| == q
  {
    seq(q, r requires 0 <= r < q => if r < done then oldRows[r][..n] + NoColumn(step - n) else NoColumn(step))
  }

  lemma {:induction false} EmptyMap(s: seq<int>, step: nat, q: nat, oldRows: seq<seq<int>>, n: nat)
    requires |s| == Start(step, q) && s == NoColumn(|s|)
    requires n <= step && forall r :: 0 <= r < |oldRows| ==> n <= |oldRows[r]|
    ensures Rows(s, step, q) == Grown(oldRows, n, step, q, 0)
  {
    forall r | 0 <= r < q
      ensures Row(s, step, q, r) == NoColumn(step)
    {
      StartMono(step, r, q);
    }
  }

  lemma {:induction false} GrowBounds(step: nat, q: nat, maxMode: nat, index: nat)
    requires index < maxMode <= q && step >= ALLOC_UNIT
    ensures Start(step, index) + step <= Start(step, q)
    ensures Start(step - ALLOC_UNIT, index) + (step - ALLOC_UNIT) <= Start(step - ALLOC_UNIT, maxMode)
  {
    StartMono(step, index, q);
    StartMono(step - ALLOC_UNIT, index, maxMode);
  }

  lemma {:induction false} RowCopied(before: seq<int>, after: seq<int>, oldMap: seq<int>, oldRows: seq<seq<int>>,
                                     n: nat, step: nat, q: nat, maxMode: nat, index: nat)
    requires index < maxMode <= q && 0 < n && n + ALLOC_UNIT <= step
    requires |before| == Start(step, q) && Start(step - ALLOC_UNIT, maxMode) <= |oldMap|
    requires oldRows == Rows(oldMap, step - ALLOC_UNIT, maxMode)
    requires Rows(before, step, q) == Grown(oldRows, n, step, q, index)
    requires var to, from := Start(step, index), Start(step - ALLOC_UNIT, index);
      && to + n <= |before| && from + n <= |oldMap|
      && after == before[..to] + oldMap[from..from + n] + before[to + n..]
    ensures |after| == |before| && Rows(after, step, q) == Grown(oldRows, n, step, q, index + 1)
  {
    var to, from := Start(step, index), Start(step - ALLOC_UNIT, index);
    StartMono(step, index, q);
    OldRow(oldMap, step - ALLOC_UNIT, maxMode, index);
    assert Rows(before, step, q)[index] == NoColumn(step);
    assert before[to..to + step] == Rows(before, step, q)[index];
    hide Rows, Grown, Start;
    var row := oldRows[index][..n] + NoColumn(step - n);
    assert oldMap[from..from + n] == oldRows[index][..n];
    RestOfRow(before, after, to, n, step, oldRows[index][..n]);
    WriteRow(before, after, step, q, index, row);
    GrownNext(oldRows, n, step, q, index);
  }

  lemma {:induction false} OldRow(s: seq<int>, step: nat, n: nat, r: nat)
    requires r < n && Start(step, n) <= |s|
    ensures Start(step, r) + step <= |s| && Rows(s, step, n)[r] == s[Start(step, r)..Start(step, r) + step]
  {
    StartMono(step, r, n);
  }

  lemma {:induction false} GrownNext(oldRows: seq<seq<int>>, n: nat, step: nat, q: nat, index: nat)
    requires index < |oldRows| && index < q && n <= step && forall r :: 0 <= r < |oldRows| ==> n <= |oldRows[r]|
    ensures Grown(oldRows, n, step, q, index + 1)
      == Grown(oldRows, n, step, q, index)[index := oldRows[index][..n] + NoColumn(step - n)]
  {
  }

  /** Copying `n` cells over an empty row writes the whole row. */
  lemma {:induction false} RestOfRow(before: seq<int>, after: seq<int>, to: nat, n: nat, step: nat, cells: seq<int>)
    requires n <= step && to + step <= |before| && |cells| == n
    requires before[to..to + step] == NoColumn(step)
    requires after == before[..to] + cells + before[to + n..]
    ensures after == before[..to] + (cells + NoColumn(step - n)) + before[to + step..]
  {
    assert before[to + n..] == before[to..to + step][n..] + before[to + step..];
  }

  /** The rows of the first console's map when `m` of its modes have been added. */
  ghost function FirstRows(step: nat, q: nat, m: nat): (rows: seq<seq<int>>)
    requires step > 0 && m <= q
    ensures |rows| == q
  {
    seq(q, r requires 0 <= r < q => if r < m then [r] + NoColumn(step - 1) else NoColumn(step))
  }

  /** The arrays hold the first `m` modes of the first console. */
  ghost predicate AddingFirst(map_: seq<int>, step: nat, data: seq<Geometry>, d: TextDevice, m: nat)
    requires step > 0
  {
    && m <= |d.modes| <= |data| && |map_| == Start(step, |data|)
    && Rows(map_, step, |data|) == FirstRows(step, |data|, m)
    && forall i :: 0 <= i < m ==> data[i] == GeometryAt(d, i)
  }

  lemma {:induction false} AddingStarts(s: seq<int>, step: nat, data: seq<Geometry>, d: TextDevice)
    requires step > 0 && |d.modes| <= |data| && |s| == Start(step, |data|) && s == NoColumn(|s|)
    ensures AddingFirst(s, step, data, d, 0)
  {
    EmptyMap(s, step, |data|, [], 0);
    assert Grown([], 0, step, |data|, 0) == FirstRows(step, |data|, 0);
  }

  lemma {:induction false} AddingBounds(s: seq<int>, step: nat, data: seq<Geometry>, d: TextDevice, m: nat)
    requires step > 0 && m < |d.modes| && AddingFirst(s, step, data, d, m)
    ensures m < |data| && Start(step, m) < |s|
  {
    StartMono(step, m, |data|);
  }

  lemma {:induction false} AddingNext(before: seq<int>, after: seq<int>, step: nat, data: seq<Geometry>,
                                      data': seq<Geometry>, d: TextDevice, m: nat)
    requires step > 0 && m < |d.modes| && AddingFirst(before, step, data, d, m)
    requires Start(step, m) < |before| && after == before[Start(step, m) := m]
    requires |data'| == |data| && data'[m] == GeometryAt(d, m) && forall i :: 0 <= i < |data| && i != m ==>
      data'[i] == data[i]
    ensures AddingFirst(after, step, data', d, m + 1)
  {
    var q := |data|;
    WriteCell(before, after, step, q, m, 0, m);
    assert NoColumn(step)[0 := m] == [m] + NoColumn(step - 1);
    assert FirstRows(step, q, m)[m := [m] + NoColumn(step - 1)] == FirstRows(step, q, m + 1);
  }

  lemma {:induction false} FirstHolds(map_: seq<int>, step: nat, data: seq<Geometry>, d: TextDevice)
    requires step > 0 && WellFormed(d) && AddingFirst(map_, step, data, d, |d.modes|)
    ensures Holds(map_, step, 1, data, FirstTable(d)) && |map_| > 0 && map_[0] == 0
    ensures |FirstTable(d).rows| == |d.modes|
  {
    assert Start(step, 1) == step;
    StartMono(step, 1, |data|);
    CellOfRow(map_, step, |data|, 0, 0);
    RowsPrefix(map_, step, |d.modes|, |data|);
    assert Rows(map_, step, |d.modes|) == Pad(FirstTable(d).rows, step - 1);
    assert data[..|d.modes|] == FirstTable(d).data;
  }

  // ---------------------------------------------------------------------------
  // The arrays while a new device's modes are scanned
  // ---------------------------------------------------------------------------

  /** The live rows have the scan's column in place, and the query data is the scan's. */
  ghost predicate Syncing(map_: seq<int>, step: nat, n: nat, data: seq<Geometry>, t: Table, s: Scan) {
    && n < step && |data| >= 2
    && |t.rows| == |s.col| && |t.rows| <= |t.data| == |s.data| <= |data|
    && |map_| == Start(step, |data|) && Start(step, |t.rows|) <= |map_|
    && Rows(map_, step, |t.rows|) == Pad(Extend(t.rows, s.col), step - n - 1)
    && data[..|t.data|] == s.data
  }

  lemma {:induction false} SyncStarts(map_: seq<int>, step: nat, n: nat, data: seq<Geometry>, t: Table)
    requires Holds(map_, step, n, data, t) && n < step && |data| >= 2
    ensures Syncing(map_, step, n, data, t, Scan(t.data, NoColumn(|t.rows|)))
  {
    assert NoColumn(step - n) == [NOT_SUPPORTED] + NoColumn(step - n - 1);
    var extended, padded := Pad(Extend(t.rows, NoColumn(|t.rows|)), step - n - 1), Pad(t.rows, step - n);
    forall r | 0 <= r < |t.rows|
      ensures extended[r] == padded[r]
    {
      assert t.rows[r] + [NOT_SUPPORTED] + NoColumn(step - n - 1) == t.rows[r] + NoColumn(step - n);
    }
  }

  lemma {:induction false} SyncBounds(map_: seq<int>, step: nat, n: nat, data: seq<Geometry>, t: Table, s: Scan, r: nat)
    requires n > 0 && ValidTable(t, n) && Syncing(map_, step, n, data, t, s)
    requires r < |t.rows| || r == 1
    ensures Start(step, 1) == step && Start(step, r) + n < |map_| && |data| >= 2
    ensures r < |t.rows| ==> map_[Start(step, r)] == FirstColumn(t, n)[r]
  {
    StartMono(step, r, |data|);
    assert Start(step, 1) == Start(step, 0) + step;
    if r < |t.rows| {
      CellOfRow(map_, step, |t.rows|, r, 0);
      assert Rows(map_, step, |t.rows|)[r] == Pad(Extend(t.rows, s.col), step - n - 1)[r];
    }
  }

  /** Writing the new column's cell of one live row. */
  lemma {:induction false} SyncWrites(map_: seq<int>, map': seq<int>, step: nat, n: nat, data: seq<Geometry>,
                                      t: Table, s: Scan, r: nat, v: int)
    requires ValidTable(t, n) && Syncing(map_, step, n, data, t, s) && r < |t.rows|
    requires Start(step, r) + n < |map_| && map' == map_[Start(step, r) + n := v]
    ensures Syncing(map', step, n, data, t, s.(col := s.col[r := v]))
  {
    WriteCell(map_, map', step, |t.rows|, r, n, v);
    var k := step - n - 1;
    assert Rows(map_, step, |t.rows|)[r] == t.rows[r] + [s.col[r]] + NoColumn(k);
    assert (t.rows[r] + [s.col[r]] + NoColumn(k))[n := v] == t.rows[r] + [v] + NoColumn(k);
    assert Pad(Extend(t.rows, s.col), k)[r := t.rows[r] + [v] + NoColumn(k)] == Pad(Extend(t.rows, s.col[r := v]), k);
  }

  lemma {:induction false} SyncMatches(map_: seq<int>, map': seq<int>, step: nat, n: nat, data: seq<Geometry>,
                                       t: Table, s: Scan, r: nat, m: nat)
    requires ValidTable(t, n) && Syncing(map_, step, n, data, t, s) && r < |t.rows|
    requires n + Start(step, r) < |map_| && map' == map_[n + Start(step, r) := m]
    ensures Syncing(map', step, n, data, t, s.(col := s.col[r := m]))
  {
    SyncWrites(map_, map', step, n, data, t, s, r, m);
  }

  lemma {:induction false} SyncClears(map_: seq<int>, map': seq<int>, step: nat, n: nat, data: seq<Geometry>,
                                      data': seq<Geometry>, t: Table, s: Scan)
    requires ValidTable(t, n) && Syncing(map_, step, n, data, t, s)
    requires n + step < |map_| && Start(step, 1) == step && map' == map_[n + step := 1]
    requires data' == data[1 := NO_GEOMETRY]
    ensures Syncing(map', step, n, data', t,
                    Scan(if 1 < |s.data| then s.data[1 := NO_GEOMETRY] else s.data, if 1 < |s.col| then s.col[1 := 1]
                         else s.col))
  {
    if 1 < |s.col| {
      SyncWrites(map_, map', step, n, data, t, s, 1, 1);
    } else {
      SameRows(map_, map', step, |t.rows|);
    }
  }

  /** The column to be intersected is the scan's. */
  lemma {:induction false} SyncColumn(map_: seq<int>, step: nat, n: nat, data: seq<Geometry>, t: Table, s: Scan)
    requires ValidTable(t, n) && Syncing(map_, step, n, data, t, s)
    ensures Start(step, |t.rows|) <= |map_| && n < step && |t.rows| == |s.col|
    ensures n + Start(step, |t.rows|) < |map_| + step
    ensures MapColumn(map_, n, step, |t.rows|) == s.col
  {
    forall r | 0 <= r < |t.rows|
      ensures MapEntry(map_, n, step, |t.rows|, r) == s.col[r]
    {
      CellOfRow(map_, step, |t.rows|, r, n);
      assert Rows(map_, step, |t.rows|)[r] == t.rows[r] + [s.col[r]] + NoColumn(step - n - 1);
    }
  }

  lemma {:induction false} SyncDone(map_: seq<int>, map': seq<int>, step: nat, n: nat, data: seq<Geometry>, t: Table,
                                    d: TextDevice, maxMode: nat)
    requires n > 0 && ValidTable(t, n) && |map'| == |map_| && Start(step, maxMode) <= |map_|
    requires var s := ScanDevice(t, n, d);
      && Syncing(map_, step, n, data, t, s)
      && maxMode == |t.rows| - DroppedBelow(s.col, |t.rows|)
      && Rows(map', step, maxMode) == Compact(Rows(map_, step, |t.rows|), s.col)
    ensures var t' := SyncTable(t, n, d); maxMode == |t'.rows| && Holds(map', step, n + 1, data, t')
  {
    var s := ScanDevice(t, n, d);
    var all := Extend(t.rows, s.col);
    CompactPad(all, s.col, step - n - 1);
    CompactLength(all, s.col);
  }

  /** Growing the map by a block of columns keeps the table it holds. */
  lemma {:induction false} GrownHolds(map_: seq<int>, map': seq<int>, oldStep: nat, n: nat, data: seq<Geometry>,
                                      t: Table)
    requires n > 0 && ValidTable(t, n) && Holds(map_, oldStep, n, data, t)
    requires |map'| == Start(oldStep + ALLOC_UNIT, |data|)
    requires Rows(map', oldStep + ALLOC_UNIT, |data|)
             == Grown(Rows(map_, oldStep, |t.rows|), n, oldStep + ALLOC_UNIT, |data|, |t.rows|)
    ensures Holds(map', oldStep + ALLOC_UNIT, n, data, t)
  {
    RowsPrefix(map', oldStep + ALLOC_UNIT, |t.rows|, |data|);
    assert forall r :: 0 <= r < |t.rows| ==> Rows(map_, oldStep, |t.rows|)[r] == Pad(t.rows, oldStep - n)[r];
  }

  lemma {:induction false} HoldsBounds(map_: seq<int>, step: nat, n: nat, data: seq<Geometry>, t: Table)
    requires Holds(map_, step, n, data, t)
    ensures |t.rows| <= |data| && Start(step, |t.rows|) <= |map_| && |map_| == Start(step, |data|)
  {
  }

  lemma {:induction false} BuildSnoc(devs: seq<TextDevice>, d: TextDevice)
    requires AllWellFormed(devs) && WellFormed(d)
    ensures AllWellFormed(devs + [d])
    ensures Build(devs + [d]) == if |devs| == 0 then FirstTable(d) else SyncTable(Build(devs), |devs|, d)
  {
    assert (devs + [d])[..|devs|] == devs;
  }

  lemma {:induction false} BuildPrefix(devs: seq<TextDevice>, k: nat)
    requires AllWellFormed(devs) && k < |devs|
    ensures AllWellFormed(devs[..k]) && AllWellFormed(devs[..k + 1])
    ensures Build(devs[..k + 1]) == if k == 0 then FirstTable(devs[0]) else SyncTable(Build(devs[..k]), k, devs[k])
  {
    assert devs[..k + 1] == devs[..k] + [devs[k]];
    BuildSnoc(devs[..k], devs[k]);
  }

  lemma {:induction false} EmptyTable()
    ensures Build([]) == Table([DEFAULT_GEOMETRY], [[]])
  {
  }

  lemma {:induction false} DetachWellFormed(devs: seq<TextDevice>, id: nat)
    requires AllWellFormed(devs)
    ensures AllWellFormed(Detach(devs, id))
  {
    if |devs| > 0 { DetachWellFormed(devs[1..], id); }
  }

  lemma {:induction false} QueryCell(map_: seq<int>, step: nat, n: nat, data: seq<Geometry>, t: Table, r: nat)
    requires n > 0 && ValidTable(t, n) && Holds(map_, step, n, data, t) && r < |t.rows|
    ensures step * r < |map_| && 0 <= map_[step * r] < |data|
    ensures data[map_[step * r]] == RowGeometry(t, n, r)
  {
    StartIsProduct(step, r);
    CellOfRow(map_, step, |t.rows|, r, 0);
    assert Rows(map_, step, |t.rows|)[r] == Pad(t.rows, step - n)[r];
  }

  lemma {:induction false} ModeOfferedByAll(devs: seq<TextDevice>, r: nat)
    requires |devs| > 0 && AllWellFormed(devs) && 2 <= r < |Build(devs).rows|
    ensures forall c :: 0 <= c < |devs| ==> Offers(devs[c], RowGeometry(Build(devs), |devs|, r))
  {
    forall c | 0 <= c < |devs|
      ensures Offers(devs[c], RowGeometry(Build(devs), |devs|, r))
    {
      RowsAgree(devs, r, c);
      OffersMeaning(devs[c], RowGeometry(Build(devs), |devs|, r));
    }
  }

  lemma {:induction false} HoldsFirst(map_: seq<int>, step: nat, n: nat, data: seq<Geometry>, t: Table)
    requires n > 0 && ValidTable(t, n) && Holds(map_, step, n, data, t)
    ensures |map_| > 0 && map_[0] == 0
  {
    CellOfRow(map_, step, |t.rows|, 0, 0);
    assert Rows(map_, step, |t.rows|)[0] == Pad(t.rows, step - n)[0];
  }

  // ---------------------------------------------------------------------------
  // The consoles' modes
  // ---------------------------------------------------------------------------

  /** The console has a mode of this number. */
  predicate EntryFits(d: TextDevice, m: int) {
    0 <= m < |d.modes| && d.modes[m].Some?
  }

  /** A console as far as its text mode goes. It refuses a mode it does not have, and may fail
      at any call; `faults` counts those failures. */
  class TextConsole {
    const device: TextDevice
    var mode: int
    var clears: nat           // how often the screen was cleared on request
    ghost var faults: nat

    constructor (device: TextDevice, mode: int)
      ensures this.device == device && this.mode == mode
    {
      this.device, this.mode, clears := device, mode, 0;
    }

    method SetMode(m: int) returns (taken: bool)
      modifies this`mode, this`faults
      ensures faults >= old(faults)
      ensures taken <==> EntryFits(device, m) && faults == old(faults)
      ensures mode == if taken then m else old(mode)
    {
      var fault: bool := *;
      if fault {
        faults := faults + 1;
      }
      taken := !fault && 0 <= m < |device.modes| && device.modes[m].Some?;
      if taken {
        mode := m;
      }
    }

    method ClearScreen() returns (cleared: bool)
      modifies this`faults, this`clears
      ensures faults >= old(faults)
      ensures cleared <==> faults == old(faults)
      ensures clears == old(clears) + if cleared then 1 else 0
    {
      cleared := *;
      if cleared {
        clears := clears + 1;
      } else {
        faults := faults + 1;
      }
    }
  }

  /** These are the consoles behind the list of devices. */
  ghost predicate AreConsoles(devs: seq<TextDevice>, consoles: seq<TextConsole>) {
    && |consoles| == |devs|
    && (forall c :: 0 <= c < |devs| ==> consoles[c].device == devs[c])
    && (forall c, d :: 0 <= c < d < |devs| ==> consoles[c] != consoles[d])
  }

  lemma {:induction false} LiveRow(map_: seq<int>, step: nat, n: nat, data: seq<Geometry>, t: Table, r: nat)
    requires n > 0 && ValidTable(t, n) && Holds(map_, step, n, data, t) && r < |t.rows|
    ensures step * r + n <= |map_| && map_[step * r..step * r + n] == t.rows[r]
  {
    hide Holds;
    StartIsProduct(step, r);
    forall c: nat | c < n
      ensures step * r + c < |map_| && map_[step * r + c] == t.rows[r][c]
    {
      LiveCell(map_, step, n, data, t, r, c);
    }
    LiveCell(map_, step, n, data, t, r, n - 1);
  }

  /** Every console is in its mode for virtual mode `r`. */
  ghost predicate InMode(devs: seq<TextDevice>, r: nat, consoles: seq<TextConsole>)
    requires AllWellFormed(devs) && r < |Build(devs).rows| && |consoles| == |devs|
    reads consoles
  {
    forall c :: 0 <= c < |devs| ==> consoles[c].mode == Build(devs).rows[r][c]
  }

  twostate predicate NoFaults(consoles: seq<TextConsole>, n: nat)
    requires n <= |consoles|
    reads consoles
  {
    forall c :: 0 <= c < n ==> consoles[c].faults == old(consoles[c].faults)
  }

  twostate predicate FaultsGrow(consoles: seq<TextConsole>)
    reads consoles
  {
    forall c :: 0 <= c < |consoles| ==> consoles[c].faults >= old(consoles[c].faults)
  }

  twostate predicate SameModes(consoles: seq<TextConsole>)
    reads consoles
  {
    forall c :: 0 <= c < |consoles| ==> consoles[c].mode == old(consoles[c].mode)
  }

  twostate predicate Untouched(consoles: seq<TextConsole>, n: nat)
    requires n <= |consoles|
    reads consoles
  {
    forall c :: n <= c < |consoles| ==>
      consoles[c].mode == old(consoles[c].mode) && consoles[c].faults == old(consoles[c].faults)
  }

  /** The first `n` consoles were sent to the modes in `row`: each that has its mode and did not
      fail is there, and any other is where it was. */
  twostate predicate Sent(row: seq<int>, consoles: seq<TextConsole>, n: nat)
    requires n <= |consoles| == |row|
    reads consoles
  {
    forall c :: 0 <= c < n ==>
      consoles[c].mode
      == if EntryFits(consoles[c].device, row[c]) && consoles[c].faults == old(consoles[c].faults) then row[c]
         else old(consoles[c].mode)
  }

  /** The first `n` consoles were cleared, except those that failed. */
  twostate predicate Cleared(consoles: seq<TextConsole>, n: nat)
    requires n <= |consoles|
    reads consoles
  {
    forall c :: 0 <= c < n ==>
      consoles[c].clears
      == old(consoles[c].clears) + if consoles[c].faults == old(consoles[c].faults) then 1 else 0
  }

  twostate predicate SameClears(consoles: seq<TextConsole>, n: nat)
    requires n <= |consoles|
    reads consoles
  {
    forall c :: n <= c < |consoles| ==> consoles[c].clears == old(consoles[c].clears)
  }

  ghost predicate RowFits(devs: seq<TextDevice>, row: seq<int>, n: nat)
    requires n <= |devs| == |row|
  {
    forall c :: 0 <= c < n ==> EntryFits(devs[c], row[c])
  }

  /** The geometry virtual mode `r` stands for. */
  ghost function ModeGeometry(devs: seq<TextDevice>, r: nat): Geometry
    requires AllWellFormed(devs) && |devs| > 0 && r < |Build(devs).rows|
  {
    RowGeometry(Build(devs), |devs|, r)
  }

  /** Every console has its mode for virtual mode `r`: always from mode 2 on; mode 0 when all
      offer the first one's; mode 1 when none lacks it, all offer the first one's and it is not
      the geometry of mode 0 too. */
  ghost predicate AllCanTake(devs: seq<TextDevice>, r: nat)
  {
    || |devs| == 0 || r >= 2
    || (r == 0 && |devs[0].modes| > 0 && OfferedByOthers(devs, GeometryAt(devs[0], 0)))
    || (r == 1 && |devs[0].modes| > 1 && (forall c :: 0 <= c < |devs| ==> !LacksMode1(devs[c]))
        && OfferedByOthers(devs, GeometryAt(devs[0], 1))
        && (|devs| == 1 || GeometryAt(devs[0], 1) != GeometryAt(devs[0], 0)))
  }

  lemma {:induction false} RowsWithin(devs: seq<TextDevice>)
    requires AllWellFormed(devs) && |devs| > 0
    ensures |Build(devs).rows| <= |devs[0].modes|
  {
    CacheIs(devs);
  }

  lemma {:induction false} NoneToTake(devs: seq<TextDevice>, r: nat)
    requires |devs| == 0
    ensures AllCanTake(devs, r)
  {
  }

  /** MAIN: exactly then does every console have the mode its entry names, and then that is a
      mode of one and the same geometry. */
  lemma {:induction false} RowFitsIff(devs: seq<TextDevice>, r: nat)
    requires AllWellFormed(devs) && |devs| > 0 && r < |Build(devs).rows|
    ensures |Build(devs).rows| <= |devs[0].modes|
    ensures RowFits(devs, Build(devs).rows[r], |devs|) <==> AllCanTake(devs, r)
    ensures AllCanTake(devs, r) ==>
      forall c :: 0 <= c < |devs| ==> EntryRight(devs[c], Build(devs).rows[r][c], ModeGeometry(devs, r))
  {
    hide Build;
    RowsWithin(devs);
    if r == 0 {
      Row0FitsIff(devs);
    } else if r == 1 {
      Row1FitsIff(devs);
    } else {
      forall c | 0 <= c < |devs|
        ensures EntryRight(devs[c], Build(devs).rows[r][c], ModeGeometry(devs, r))
      {
        RowsAgree(devs, r, c);
      }
    }
  }

  lemma {:induction false} Row0FitsIff(devs: seq<TextDevice>)
    requires AllWellFormed(devs) && |devs| > 0
    ensures RowFits(devs, Build(devs).rows[0], |devs|) <==> AllCanTake(devs, 0)
    ensures AllCanTake(devs, 0) ==>
      forall c :: 0 <= c < |devs| ==> EntryRight(devs[c], Build(devs).rows[0][c], ModeGeometry(devs, 0))
  {
    hide Build;
    CacheIs(devs);
    forall c | 0 <= c < |devs|
      ensures Build(devs).rows[0][c] == if c == 0 then 0 else ModeFor(devs[c], GeometryAt(devs[0], 0))
    {
      Row0Is(devs, c);
    }
  }

  lemma {:induction false} Row1FitsIff(devs: seq<TextDevice>)
    requires AllWellFormed(devs) && |devs| > 0 && |Build(devs).rows| > 1
    ensures |devs[0].modes| > 1
    ensures RowFits(devs, Build(devs).rows[1], |devs|) <==> AllCanTake(devs, 1)
    ensures AllCanTake(devs, 1) ==>
      forall c :: 0 <= c < |devs| ==> EntryRight(devs[c], Build(devs).rows[1][c], ModeGeometry(devs, 1))
  {
    hide Build;
    RowsWithin(devs);
    CacheIs(devs);
    BuildEntriesRight(devs);
    var row, g := Build(devs).rows[1], GeometryAt(devs[0], 1);
    forall c | 0 <= c < |devs|
      ensures LacksMode1(devs[c]) ==> !EntryFits(devs[c], row[c])
      ensures !(exists i :: 0 <= i < |devs| && LacksMode1(devs[i])) ==>
        row[c] == if c == 0 then 1 else if g == GeometryAt(devs[0], 0) then NOT_SUPPORTED else ModeFor(devs[c], g)
    {
      Row1Is(devs, c);
    }
    hide EntryRight, OfferedByOthers, ModeFor, LacksMode1, EntryFits;
    if c :| 0 <= c < |devs| && LacksMode1(devs[c]) {
      assert !EntryFits(devs[c], row[c]);
    } else {
      Row1WhenNoneLacks(devs, row, g);
    }
  }

  lemma {:induction false} Row1WhenNoneLacks(devs: seq<TextDevice>, row: seq<int>, g: Geometry)
    requires |devs| > 0 && AllWellFormed(devs) && |row| == |devs| && |devs[0].modes| > 1 && g == GeometryAt(devs[0], 1)
    requires forall c :: 0 <= c < |devs| ==> !LacksMode1(devs[c])
    requires forall c :: 0 <= c < |devs| ==>
      row[c] == if c == 0 then 1 else if g == GeometryAt(devs[0], 0) then NOT_SUPPORTED else ModeFor(devs[c], g)
    ensures RowFits(devs, row, |devs|) <==>
      OfferedByOthers(devs, g) && (|devs| == 1 || g != GeometryAt(devs[0], 0))
    ensures RowFits(devs, row, |devs|) ==> forall c :: 0 <= c < |devs| ==> EntryRight(devs[c], row[c], g)
  {
    if |devs| > 1 && g == GeometryAt(devs[0], 0) { assert !EntryFits(devs[1], row[1]); }
  }

  // ---------------------------------------------------------------------------
  // The mode to prefer
  // ---------------------------------------------------------------------------

  /** What QueryMode answers for virtual mode `r`. */
  ghost function Answer(devs: seq<TextDevice>, r: nat): Option<Geometry>
    requires AllWellFormed(devs) && r < |Build(devs).rows|
  {
    if |devs| == 0 then Some(DEFAULT_GEOMETRY)
    else
      var g := RowGeometry(Build(devs), |devs|, r);
      if g == NO_GEOMETRY then None else Some(g)
  }

  /** It answers for every mode, except for mode 1 when some console lacks it: the geometry the
      first console has there. */
  lemma {:induction false} AnswerIs(devs: seq<TextDevice>, r: nat)
    requires AllWellFormed(devs) && r < |Build(devs).rows|
    ensures Answer(devs, r) == None <==> r == 1 && exists d :: d in devs && LacksMode1(d)
    ensures |devs| == 0 ==> r == 0 && Answer(devs, 0) == Some(Geometry(40, 12))
    ensures |devs| > 0 && Answer(devs, r).Some? ==>
      EntryRight(devs[0], Build(devs).rows[r][0], Answer(devs, r).value)
  {
    if |devs| > 0 {
      hide Build;
      RowsWithin(devs);
      CacheIs(devs);
      BuildEntriesRight(devs);
      assert (exists d :: d in devs && LacksMode1(d)) <==> exists i :: 0 <= i < |devs| && LacksMode1(devs[i]);
      if r == 0 {
        Row0Is(devs, 0);
      } else if r == 1 {
        Row1Is(devs, 0);
      } else {
        RowsAgree(devs, r, 0);
      }
    }
  }

  ghost function Answers(devs: seq<TextDevice>): (answers: seq<Option<Geometry>>)
    requires AllWellFormed(devs)
    ensures |answers| == |Build(devs).rows|
  {
    seq(|Build(devs).rows|, r requires 0 <= r < |Build(devs).rows| => Answer(devs, r))
  }

  const NO_MODE: nat := 0xFF

  /** The mode to prefer, the default mode, and the largest geometry come across. */
  datatype Choice = Choice(prefer: nat, base: nat, largest: Geometry)

  predicate AtLeast(g: Geometry, h: Geometry) {
    g.columns >= h.columns && g.rows >= h.rows
  }

  /** One more mode: a wanted geometry is preferred when met, without one the largest. */
  function Consider(c: Choice, r: nat, answer: Option<Geometry>, want: Geometry): Choice {
    match answer
    case None => c
    case Some(g) =>
      var c' := if g == DEFAULT_GEOMETRY then c.(base := r) else c;
      if want.columns != 0 && want.rows != 0 then
        if g == want then c'.(prefer := r) else c'
      else if AtLeast(g, c.largest) then c'.(prefer := r, largest := g) else c'
  }

  function Chosen(answers: seq<Option<Geometry>>, want: Geometry): (c: Choice) {
    if |answers| == 0 then Choice(NO_MODE, NO_MODE, NO_GEOMETRY)
    else Consider(Chosen(answers[..|answers| - 1], want), |answers| - 1, answers[|answers| - 1], want)
  }

  /** A geometry that some mode has. */
  ghost predicate Listed(answers: seq<Option<Geometry>>, g: Geometry) {
    exists r :: 0 <= r < |answers| && answers[r] == Some(g)
  }

  lemma {:induction false} ListedSnoc(answers: seq<Option<Geometry>>, g: Geometry)
    requires |answers| > 0
    ensures Listed(answers, g) <==> Listed(answers[..|answers| - 1], g) || answers[|answers| - 1] == Some(g)
  {
    var front := answers[..|answers| - 1];
    if r :| 0 <= r < |answers| && answers[r] == Some(g) {
      if r < |front| { assert front[r] == Some(g); }
    }
    if r :| 0 <= r < |front| && front[r] == Some(g) { assert answers[r] == Some(g); }
  }

  /** MAIN: a wanted geometry is chosen when some mode has it, and then its last mode;
      otherwise no mode is. */
  lemma {:induction false} WantedIsChosen(answers: seq<Option<Geometry>>, want: Geometry)
    requires want.columns != 0 && want.rows != 0
    ensures var p := Chosen(answers, want).prefer;
      if Listed(answers, want) then
        p < |answers| && answers[p] == Some(want) && forall r :: p < r < |answers| ==> answers[r] != Some(want)
      else p == NO_MODE
  {
    if |answers| > 0 {
      WantedIsChosen(answers[..|answers| - 1], want);
      ListedSnoc(answers, want);
    }
  }

  /** MAIN: 255 stands for no mode, yet is set like any other: a mode that is set is the wanted
      one if and only if the geometry is listed or there are at most 255 modes. */
  lemma {:induction false} ChosenIsWantedIff(answers: seq<Option<Geometry>>, want: Geometry)
    requires want.columns != 0 && want.rows != 0
    ensures var p := Chosen(answers, want).prefer;
      (p < |answers| ==> answers[p] == Some(want)) <==> Listed(answers, want) || |answers| <= NO_MODE
  {
    WantedIsChosen(answers, want);
  }

  /** 256 modes of 80 by 25, and 100 by 31 wanted: mode 255 is chosen. */
  lemma {:induction false} NoModeIsAModeExample()
    ensures var answers := seq(256, _ => Some(Geometry(80, 25)));
      var c := Chosen(answers, Geometry(100, 31));
      c.prefer == 255 < |answers| && answers[c.prefer] == Some(Geometry(80, 25))
  {
    var answers := seq(256, _ => Some(Geometry(80, 25)));
    WantedIsChosen(answers, Geometry(100, 31));
  }

  /** MAIN: without a wanted geometry the mode chosen is one that no other mode exceeds: any
      that is at least as large in both directions has the same geometry. */
  lemma {:induction false} LargestIsChosen(answers: seq<Option<Geometry>>, want: Geometry)
    requires want.columns == 0 || want.rows == 0
    ensures var c := Chosen(answers, want);
      && (forall r :: 0 <= r < |answers| && answers[r].Some?
                      && answers[r].value.columns >= c.largest.columns && answers[r].value.rows >= c.largest.rows ==>
            answers[r].value == c.largest)
      && if forall r :: 0 <= r < |answers| ==> answers[r] == None then c.prefer == NO_MODE && c.largest == NO_GEOMETRY
         else c.prefer < |answers| && answers[c.prefer] == Some(c.largest)
  {
    if |answers| > 0 {
      var k := |answers| - 1;
      var front := answers[..k];
      LargestIsChosen(front, want);
      assert forall r :: 0 <= r < k ==> answers[r] == front[r];
    }
  }

  /** The default mode, if there is one. */
  lemma {:induction false} BaseIsDefault(answers: seq<Option<Geometry>>, want: Geometry)
    ensures var b := Chosen(answers, want).base;
      if Listed(answers, DEFAULT_GEOMETRY) then b < |answers| && answers[b] == Some(DEFAULT_GEOMETRY) else b == NO_MODE
  {
    if |answers| > 0 {
      BaseIsDefault(answers[..|answers| - 1], want);
      ListedSnoc(answers, DEFAULT_GEOMETRY);
    }
  }

  // ---------------------------------------------------------------------------
  // The current mode over a rebuild
  // ---------------------------------------------------------------------------

  /** The current mode number after a rebuild from `devs`: it moves with the compactions of
      the rebuild, as if it had been a mode of the first console all along. */
  ghost function RebuiltMode(devs: seq<TextDevice>, mode: int): int
    requires AllWellFormed(devs)
  {
    if |devs| <= 1 then mode
    else
      var n := |devs| - 1;
      MovedMode(ScanDevice(Build(devs[..n]), n, devs[n]).col, RebuiltMode(devs[..n], mode))
  }

  lemma {:induction false} RebuiltOne(devs: seq<TextDevice>, mode: int)
    requires |devs| == 1 && AllWellFormed(devs)
    ensures RebuiltMode(devs, mode) == mode
  {
  }

  lemma {:induction false} RebuiltPrefix(devs: seq<TextDevice>, k: nat, mode: int)
    requires AllWellFormed(devs) && 0 < k < |devs|
    ensures AllWellFormed(devs[..k]) && AllWellFormed(devs[..k + 1])
    ensures RebuiltMode(devs[..k + 1], mode)
      == MovedMode(ScanDevice(Build(devs[..k]), k, devs[k]).col, RebuiltMode(devs[..k], mode))
  {
    assert devs[..k + 1][..k] == devs[..k];
  }

  /** The virtual text console: the devices behind it and the intersection of their modes. */
  class TextOutSplitter {
    var textOutList: array<TextDevice>
    var currentNumberOfConsoles: nat
    var queryData: array<Geometry>
    var modeMap: array?<int>
    var maxMode: nat
    var mode: int
    var cursorColumn: nat
    var cursorRow: nat
    var cursorVisible: bool

    ghost function Repr(): set<object>
      reads this
    {
      if modeMap == null then {this, textOutList, queryData}
      else var m: object := modeMap; {this, textOutList, queryData, m}
    }

    ghost function Devices(): seq<TextDevice>
      requires currentNumberOfConsoles <= textOutList.Length
      reads this, textOutList
    {
      textOutList[..currentNumberOfConsoles]
    }

    /** Whatever was attached and detached before, the live part of the arrays is the table
        of the consoles attached now. */
    ghost predicate Valid()
      reads this, Repr()
    {
      && textOutList.Length >= ALLOC_UNIT && queryData.Length >= ALLOC_UNIT
      && currentNumberOfConsoles <= textOutList.Length
      && AllWellFormed(Devices())
      && maxMode == |Build(Devices()).rows|
      && (modeMap != null ==> modeMap.Length > 0 && modeMap[0] == 0)
      && (currentNumberOfConsoles == 0 ==> queryData[0] == DEFAULT_GEOMETRY)
      && (currentNumberOfConsoles > 0 ==>
            && modeMap != null
            && Holds(modeMap[..], textOutList.Length, currentNumberOfConsoles, queryData[..], Build(Devices())))
    }

    constructor ()
      ensures Valid() && fresh(Repr())
      ensures Devices() == [] && mode == 0
    {
      textOutList := new TextDevice[ALLOC_UNIT];
      queryData := new Geometry[ALLOC_UNIT];
      modeMap := null;
      currentNumberOfConsoles, maxMode := 0, 1;
      mode, cursorColumn, cursorRow, cursorVisible := 0, 0, 0, true;
      new;
      queryData[0] := DEFAULT_GEOMETRY;
    }

    method GrowTextOutList()
      requires currentNumberOfConsoles <= textOutList.Length
      modifies this`textOutList
      ensures fresh(textOutList) && textOutList.Length == old(textOutList.Length) + ALLOC_UNIT
      ensures textOutList[..old(textOutList.Length)] == old(textOutList[..])
    {
      var bigger := new TextDevice[textOutList.Length + ALLOC_UNIT];
      forall i | 0 <= i < textOutList.Length {
        bigger[i] := textOutList[i];
      }
      textOutList := bigger;
    }

    method GrowQueryData()
      modifies this`queryData
      ensures fresh(queryData) && queryData.Length == old(queryData.Length) + ALLOC_UNIT
      ensures queryData[..old(queryData.Length)] == old(queryData[..])
    {
      var bigger := new Geometry[queryData.Length + ALLOC_UNIT];
      forall i | 0 <= i < queryData.Length {
        bigger[i] := queryData[i];
      }
      queryData := bigger;
    }

    /** Reallocates the mode map for the current sizes. Live rows keep their used columns;
        every other cell of the new map is -1. */
    method GrowMapTable()
      requires modeMap != null && currentNumberOfConsoles > 0 ==>
        && currentNumberOfConsoles + ALLOC_UNIT <= textOutList.Length
        && maxMode <= queryData.Length
        && Start(textOutList.Length - ALLOC_UNIT, maxMode) <= modeMap.Length
      modifies this`modeMap
      ensures modeMap != null && fresh(modeMap)
      ensures modeMap.Length == Start(textOutList.Length, queryData.Length)
      ensures var step, q := textOutList.Length, queryData.Length;
        if old(modeMap) == null || currentNumberOfConsoles == 0 then
          modeMap[..] == NoColumn(modeMap.Length)
        else
          Rows(modeMap[..], step, q)
          == Grown(Rows(old(modeMap[..]), step - ALLOC_UNIT, maxMode), currentNumberOfConsoles, step, q, maxMode)
    {
      hide Rows, Grown, Start;
      var oldMap := modeMap;
      var step := textOutList.Length;
      StartIsProduct(step, queryData.Length);
      var bigger := new int[step * queryData.Length](_ => NOT_SUPPORTED);
      modeMap := bigger;
      assert bigger[..] == NoColumn(bigger.Length);
      if oldMap != null {
        ghost var copying := currentNumberOfConsoles > 0;
        ghost var oldRows := if copying then Rows(oldMap[..], step - ALLOC_UNIT, maxMode) else [];
        var index := 0;
        var to: nat, from: nat := 0, 0;
        if copying {
          StartIsProduct(step, 0);
          StartIsProduct(step - ALLOC_UNIT, 0);
          EmptyMap(bigger[..], step, queryData.Length, oldRows, currentNumberOfConsoles);
        }
        while index < maxMode
          invariant index <= maxMode && modeMap == bigger
          invariant copying ==> to == Start(step, index) && from == Start(step - ALLOC_UNIT, index)
          invariant !copying ==> bigger[..] == NoColumn(bigger.Length)
          invariant copying ==>
            Rows(bigger[..], step, queryData.Length)
              == Grown(oldRows, currentNumberOfConsoles, step, queryData.Length, index)
        {
          ghost var before := bigger[..];
          if copying { GrowBounds(step, queryData.Length, maxMode, index); }
          CopyMem(bigger, to, oldMap, from, currentNumberOfConsoles);
          if copying {
            RowCopied(before, bigger[..], oldMap[..], oldRows, currentNumberOfConsoles, step, queryData.Length,
                      maxMode, index);
            StartStep(step, index);
            StartStep(step - ALLOC_UNIT, index);
          }
          to := to + step;
          from := if step >= ALLOC_UNIT then from + (step - ALLOC_UNIT) else 0;
          index := index + 1;
        }
      }
    }

    /** Adds the first device: its modes become the mode list. */
    method AddOutputMode(d: TextDevice)
      requires WellFormed(d) && textOutList.Length >= ALLOC_UNIT && queryData.Length >= ALLOC_UNIT
      requires modeMap == null || currentNumberOfConsoles == 0
      modifies this`maxMode, this`modeMap, this`queryData, queryData
      ensures modeMap != null && fresh(modeMap) && (queryData == old(queryData) || fresh(queryData))
      ensures queryData.Length >= ALLOC_UNIT
      ensures maxMode == |FirstTable(d).rows|
      ensures modeMap.Length > 0 && modeMap[0] == 0
      ensures Holds(modeMap[..], textOutList.Length, 1, queryData[..], FirstTable(d))
    {
      maxMode := |d.modes|;
      while maxMode > queryData.Length
        invariant queryData.Length >= ALLOC_UNIT
        invariant queryData == old(queryData) || fresh(queryData)
        invariant modeMap == old(modeMap) && maxMode == |d.modes|
      {
        GrowQueryData();
      }
      GrowMapTable();
      hide Rows, Start, FirstRows, NoColumn, Holds, AddingFirst, FirstTable, WellFormed;
      ghost var step := textOutList.Length;
      var m, index: nat := 0, 0;
      AddingStarts(modeMap[..], step, queryData[..], d);
      while m < maxMode
        invariant m <= maxMode == |d.modes|
        invariant modeMap != null && fresh(modeMap) && queryData.Length >= ALLOC_UNIT
        invariant queryData == old(queryData) || fresh(queryData)
        invariant index == Start(step, m)
        invariant AddingFirst(modeMap[..], step, queryData[..], d, m)
      {
        AddMode(d, m, index);
        StartStep(step, m);
        m := m + 1;
        index := index + textOutList.Length;
      }
      FirstHolds(modeMap[..], step, queryData[..], d);
    }

    /** One mode of the first device. */
    method AddMode(d: TextDevice, m: nat, index: nat)
      requires modeMap != null && textOutList.Length > 0 && m < |d.modes| && WellFormed(d)
        && index == Start(textOutList.Length, m)
      requires AddingFirst(modeMap[..], textOutList.Length, queryData[..], d, m)
      modifies modeMap, queryData
      ensures AddingFirst(modeMap[..], textOutList.Length, queryData[..], d, m + 1)
    {
      hide Rows, Start, FirstRows;
      ghost var map0, data0 := modeMap[..], queryData[..];
      AddingBounds(map0, textOutList.Length, data0, d, m);
      match d.modes[m] {
        case Some(g) =>
          queryData[m] := g;
        case None =>
          if m == 1 {
            queryData[m] := NO_GEOMETRY;
          }
      }
      modeMap[index] := m;
      AddingNext(map0, modeMap[..], textOutList.Length, data0, queryData[..], d, m);
    }

    /** One mode of the newly added device: records its number in the first row whose
        geometry it has. */
    method SyncMode(d: TextDevice, m: nat, ghost t: Table, ghost s: Scan)
      requires m < |d.modes| && modeMap != null && currentNumberOfConsoles > 0 && maxMode == |t.rows|
      requires ValidTable(t, currentNumberOfConsoles)
      requires Syncing(modeMap[..], textOutList.Length, currentNumberOfConsoles, queryData[..], t, s)
      modifies modeMap, queryData
      ensures Syncing(modeMap[..], textOutList.Length, currentNumberOfConsoles, queryData[..], t,
                      ScanMode(s, FirstColumn(t, currentNumberOfConsoles), d, m))
    {
      hide Syncing, FindRow, FirstColumn, Start;
      match d.modes[m] {
        case None =>
          if m == 1 {
            ghost var map0, data0 := modeMap[..], queryData[..];
            var step, n := textOutList.Length, currentNumberOfConsoles;
            SyncBounds(map0, step, n, data0, t, s, 1);
            modeMap[n + step] := m;
            queryData[m] := NO_GEOMETRY;
            SyncClears(map0, modeMap[..], step, n, data0, queryData[..], t, s);
          }
        case Some(g) =>
          RecordMode(g, m, t, s);
      }
    }

    /** Records a mode of the new device in the first row of its geometry. */
    method RecordMode(g: Geometry, m: nat, ghost t: Table, ghost s: Scan)
      requires modeMap != null && currentNumberOfConsoles > 0 && maxMode == |t.rows|
      requires ValidTable(t, currentNumberOfConsoles)
      requires Syncing(modeMap[..], textOutList.Length, currentNumberOfConsoles, queryData[..], t, s)
      modifies modeMap
      ensures |s.data| == |t.data|
      ensures var r := FindRow(FirstColumn(t, currentNumberOfConsoles), s.data, g, 0);
        Syncing(modeMap[..], textOutList.Length, currentNumberOfConsoles, queryData[..], t,
                if r < |t.rows| then s.(col := s.col[r := m]) else s)
    {
      var step, n := textOutList.Length, currentNumberOfConsoles;
      ghost var map0, data0, first := modeMap[..], queryData[..], FirstColumn(t, n);
      var index := 0;
      while index < maxMode
        invariant index <= maxMode == |t.rows|
        invariant modeMap[..] == map0
        invariant FindRow(first, s.data, g, 0) == FindRow(first, s.data, g, index)
      {
        SyncBounds(map0, step, n, data0, t, s, index);
        StartIsProduct(step, index);
        var queryMode := modeMap[index * step];
        assert data0[queryMode] == s.data[queryMode];
        if queryData[queryMode] == g {
          modeMap[n + index * step] := m;
          SyncMatches(map0, modeMap[..], step, n, data0, t, s, index, m);
          break;
        }
        index := index + 1;
      }
    }

    /** Scans all modes of the newly added device. */
    method ScanNewDevice(d: TextDevice, ghost t: Table)
      requires modeMap != null && currentNumberOfConsoles > 0 && maxMode == |t.rows|
      requires ValidTable(t, currentNumberOfConsoles)
      requires Syncing(modeMap[..], textOutList.Length, currentNumberOfConsoles, queryData[..], t,
                       Scan(t.data, NoColumn(|t.rows|)))
      modifies modeMap, queryData
      ensures Syncing(modeMap[..], textOutList.Length, currentNumberOfConsoles, queryData[..], t,
                      ScanDevice(t, currentNumberOfConsoles, d))
    {
      hide Syncing, ScanMode;
      ghost var first, start := FirstColumn(t, currentNumberOfConsoles), Scan(t.data, NoColumn(|t.rows|));
      var m := 0;
      while m < |d.modes|
        invariant m <= |d.modes|
        invariant Syncing(modeMap[..], textOutList.Length, currentNumberOfConsoles, queryData[..], t,
                          ScanModes(start, first, d, m))
      {
        SyncMode(d, m, t, ScanModes(start, first, d, m));
        m := m + 1;
      }
    }

    /** Adds another device: its column is filled in, then the rows it does not support are
        dropped. */
    method SyncOutputMode(d: TextDevice, ghost t: Table)
      requires modeMap != null && 0 < currentNumberOfConsoles < textOutList.Length && queryData.Length >= 2
      requires ValidTable(t, currentNumberOfConsoles) && maxMode == |t.rows|
      requires Holds(modeMap[..], textOutList.Length, currentNumberOfConsoles, queryData[..], t)
      modifies this`maxMode, this`mode, modeMap, queryData
      ensures var t' := SyncTable(t, currentNumberOfConsoles, d);
        && Holds(modeMap[..], textOutList.Length, currentNumberOfConsoles + 1, queryData[..], t')
        && maxMode == |t'.rows|
        && mode == MovedMode(ScanDevice(t, currentNumberOfConsoles, d).col, old(mode))
    {
      hide Syncing, Holds, SyncTable, ScanDevice, MovedMode, MapColumn, Rows, Compact, Start, DroppedBelow;
      var step, n := textOutList.Length, currentNumberOfConsoles;
      SyncStarts(modeMap[..], step, n, queryData[..], t);
      ScanNewDevice(d, t);
      ghost var map0, s := modeMap[..], ScanDevice(t, n, d);
      SyncColumn(map0, step, n, queryData[..], t, s);
      maxMode, mode := GetIntersection(modeMap, modeMap, n, step, step, maxMode, mode);
      SyncDone(map0, modeMap[..], step, n, queryData[..], t, d, maxMode);
    }

    /** Makes room for one more device: when the list is full, it and the mode map grow. */
    method GrowForOneMore()
      requires Valid()
      modifies this`textOutList, this`modeMap
      ensures Valid() && Devices() == old(Devices()) && currentNumberOfConsoles < textOutList.Length
      ensures textOutList == old(textOutList) || fresh(textOutList)
      ensures modeMap == old(modeMap) || (modeMap != null && fresh(modeMap))
    {
      while currentNumberOfConsoles >= textOutList.Length
        invariant textOutList == old(textOutList) || fresh(textOutList)
        invariant modeMap == old(modeMap) || (modeMap != null && fresh(modeMap))
        invariant Valid() && Devices() == old(Devices())
        decreases currentNumberOfConsoles - textOutList.Length
      {
        GrowBoth();
      }
    }

    /** The list and the mode map grow by one block. */
    method GrowBoth()
      requires Valid() && currentNumberOfConsoles == textOutList.Length
      modifies this`textOutList, this`modeMap
      ensures Valid() && Devices() == old(Devices())
      ensures textOutList.Length == old(textOutList.Length) + ALLOC_UNIT
      ensures fresh(textOutList) && modeMap != null && fresh(modeMap)
    {
      hide Build, Holds, Start, Rows, Grown, AllWellFormed;
      ghost var step0, map0, devs := textOutList.Length, modeMap, Devices();
      ghost var n, t, data := |devs|, Build(devs), queryData[..];
      HoldsBounds(map0[..], step0, n, data, t);
      GrowTextOutList();
      GrowMapTable();
      assert Devices() == devs;
      GrownHolds(map0[..], modeMap[..], step0, n, data, t);
      HoldsFirst(modeMap[..], textOutList.Length, n, data, t);
    }

    /** Attaches a device. The device's own modes are intersected with those of the
        devices already there. */
    method AddDevice(d: TextDevice)
      requires Valid() && WellFormed(d)
      modifies Repr()
      ensures Valid() && fresh(Repr() - old(Repr()))
      ensures Devices() == old(Devices()) + [d]
      ensures old(currentNumberOfConsoles) == 0 ==> mode == old(mode)
      ensures old(currentNumberOfConsoles) > 0 ==>
        mode == MovedMode(ScanDevice(Build(old(Devices())), |old(Devices())|, d).col, old(mode))
    {
      hide Build, Holds, Start, Rows, AllWellFormed, ScanDevice, MovedMode;
      GrowForOneMore();
      textOutList[currentNumberOfConsoles] := d;
      assert textOutList[..currentNumberOfConsoles] == old(Devices());
      AttachLast(d);
    }

    /** Brings the device behind the attached ones into the mode list. */
    method AttachLast(d: TextDevice)
      requires Valid() && WellFormed(d)
      requires currentNumberOfConsoles < textOutList.Length && textOutList[currentNumberOfConsoles] == d
      modifies this`currentNumberOfConsoles, this`maxMode, this`mode, this`modeMap, this`queryData, modeMap, queryData
      ensures Valid() && Devices() == old(Devices()) + [d]
      ensures queryData == old(queryData) || fresh(queryData)
      ensures modeMap == old(modeMap) || (modeMap != null && fresh(modeMap))
      ensures old(currentNumberOfConsoles) == 0 ==> mode == old(mode)
      ensures old(currentNumberOfConsoles) > 0 ==>
        mode == MovedMode(ScanDevice(Build(old(Devices())), |old(Devices())|, d).col, old(mode))
    {
      hide Build, Holds, Start, Rows, SyncTable, FirstTable, AllWellFormed, ScanDevice, MovedMode;
      ghost var devs := Devices();
      assert textOutList[..currentNumberOfConsoles + 1] == devs + [d];
      BuildSnoc(devs, d);
      if currentNumberOfConsoles == 0 {
        AddOutputMode(d);
      } else {
        SyncOutputMode(d, Build(devs));
      }
      currentNumberOfConsoles := currentNumberOfConsoles + 1;
      HoldsFirst(modeMap[..], textOutList.Length, |devs| + 1, queryData[..], Build(devs + [d]));
    }

    /** Takes the first device of this identity out of the list, moving the later ones up.
        `left` is the number of devices that remain. */
    method RemoveFromList(id: nat) returns (found: bool, left: nat)
      requires currentNumberOfConsoles <= textOutList.Length
      modifies textOutList
      ensures found <==> exists i :: 0 <= i < |old(Devices())| && old(Devices())[i].id == id
      ensures found ==> left + 1 == currentNumberOfConsoles && textOutList[..left] == Detach(old(Devices()), id)
      ensures !found ==> textOutList[..] == old(textOutList[..])
    {
      ghost var devs := Devices();
      var index, p := currentNumberOfConsoles as int - 1, 0;
      while index >= 0
        invariant -1 <= index && p + index + 1 == currentNumberOfConsoles
        invariant textOutList[..] == old(textOutList[..])
        invariant forall i :: 0 <= i < p ==> devs[i].id != id
      {
        if textOutList[p].id == id {
          DetachAt(devs, id, p);
          forall i | p <= i < p + index {
            textOutList[i] := textOutList[i + 1];
          }
          assert textOutList[..currentNumberOfConsoles - 1] == devs[..p] + devs[p + 1..];
          return true, currentNumberOfConsoles - 1;
        }
        index := index - 1;
        p := p + 1;
      }
      return false, currentNumberOfConsoles;
    }

    /** Builds the mode list again from the first `count` devices, one by one. */
    method Rebuild(count: nat)
      requires 0 < count <= textOutList.Length && textOutList.Length >= ALLOC_UNIT && queryData.Length >= ALLOC_UNIT
      requires modeMap == null && AllWellFormed(textOutList[..count])
      modifies this`maxMode, this`mode, this`modeMap, this`queryData, this`currentNumberOfConsoles, queryData
      ensures Valid() && currentNumberOfConsoles == count
      ensures mode == RebuiltMode(textOutList[..count], old(mode))
      ensures modeMap != null && fresh(modeMap) && (queryData == old(queryData) || fresh(queryData))
    {
      hide Build, Holds, SyncTable, FirstTable, ScanDevice, MovedMode, RebuiltMode;
      ghost var devs := textOutList[..count];
      RebuiltOne(devs[..1], mode);
      AddOutputMode(textOutList[0]);
      var index := 1;
      currentNumberOfConsoles := 1;
      BuildPrefix(devs, 0);
      while index < count
        invariant 0 < index <= count && currentNumberOfConsoles == index
        invariant modeMap != null && fresh(modeMap) && (queryData == old(queryData) || fresh(queryData))
        invariant queryData.Length >= ALLOC_UNIT
        invariant textOutList[..count] == devs && mode == RebuiltMode(devs[..index], old(mode))
        invariant AllWellFormed(devs[..index]) && maxMode == |Build(devs[..index]).rows|
        invariant Holds(modeMap[..], textOutList.Length, index, queryData[..], Build(devs[..index]))
      {
        BuildPrefix(devs, index);
        RebuiltPrefix(devs, index, old(mode));
        SyncOutputMode(textOutList[index], Build(devs[..index]));
        index := index + 1;
        currentNumberOfConsoles := currentNumberOfConsoles + 1;
      }
      assert devs[..count] == devs;
      HoldsFirst(modeMap[..], textOutList.Length, count, queryData[..], Build(devs));
    }

    /** With no console left there is one mode, the default one, and it is current. */
    method ResetParameters()
      requires textOutList.Length >= ALLOC_UNIT && queryData.Length >= ALLOC_UNIT
      requires modeMap != null ==> modeMap.Length > 0 && modeMap[0] == 0
      modifies this`currentNumberOfConsoles, this`maxMode, queryData
      modifies this`mode, this`cursorColumn, this`cursorRow, this`cursorVisible
      ensures Valid() && Devices() == [] && mode == 0
    {
      currentNumberOfConsoles := 0;
      maxMode := 1;
      queryData[0] := DEFAULT_GEOMETRY;
      TextOutSetMode(0);
      assert Devices() == [];
      EmptyTable();
    }

    /** Detaches a device and rebuilds the mode list from the ones that remain. */
    method DeleteDevice(id: nat) returns (status: Status)
      requires Valid()
      modifies Repr()
      ensures Valid() && fresh(Repr() - old(Repr()))
      ensures status == NotFound <==> forall i :: 0 <= i < |old(Devices())| ==> old(Devices())[i].id != id
      ensures status == NotFound || status == Success
      ensures status == NotFound ==> Devices() == old(Devices()) && mode == old(mode)
      ensures status == Success ==> Devices() == Detach(old(Devices()), id)
      ensures status == Success ==> mode == if |Devices()| == 0 then 0 else RebuiltMode(Devices(), old(mode))
    {
      hide Build, Holds, AllWellFormed, RebuiltMode;
      ghost var devs := Devices();
      var found, left := RemoveFromList(id);
      if !found {
        assert Devices() == devs;
        return NotFound;
      }
      DetachWellFormed(devs, id);
      assert textOutList[..left] == Detach(devs, id);
      if left == 0 {
        ResetParameters();
        return Success;
      }
      forall i | 0 <= i < queryData.Length {
        queryData[i] := NO_GEOMETRY;
      }
      modeMap := null;
      assert textOutList[..left] == Detach(devs, id);
      Rebuild(left);
      return Success;
    }

    /** The geometry of a virtual mode, through the first console's column of the map. */
    method QueryMode(modeNumber: nat) returns (r: Option<Geometry>)
      requires Valid()
      ensures modeNumber >= maxMode ==> r == None
      ensures modeNumber < maxMode ==> r == Answer(Devices(), modeNumber)
      ensures r == None <==> modeNumber >= maxMode || (modeNumber == 1 && exists d :: d in Devices() && LacksMode1(d))
      ensures r.Some? && currentNumberOfConsoles > 0 ==>
        EntryRight(Devices()[0], Build(Devices()).rows[modeNumber][0], r.value)
      ensures currentNumberOfConsoles > 0 && 2 <= modeNumber && r.Some? ==>
        forall c :: 0 <= c < currentNumberOfConsoles ==> Offers(Devices()[c], r.value)
    {
      hide Build, Start, Rows, LacksMode1, EntryRight, Offers, AllWellFormed;
      if modeNumber >= maxMode {
        return None;
      }
      AnswerIs(Devices(), modeNumber);
      var currentMode: int := modeNumber;
      EmptyTable();
      if modeMap != null {
        var step := textOutList.Length;
        if currentNumberOfConsoles > 0 {
          QueryCell(modeMap[..], step, currentNumberOfConsoles, queryData[..], Build(Devices()), modeNumber);
        }
        currentMode := modeMap[step * modeNumber];
      }
      var g := queryData[currentMode];
      if g == NO_GEOMETRY {
        return None;
      }
      if currentNumberOfConsoles > 0 && 2 <= modeNumber {
        ModeOfferedByAll(Devices(), modeNumber);
      }
      return Some(g);
    }

    method TextOutSetMode(modeNumber: nat)
      modifies this`mode, this`cursorColumn, this`cursorRow, this`cursorVisible
      ensures mode == modeNumber && cursorColumn == 0 && cursorRow == 0 && cursorVisible
    {
      mode, cursorColumn, cursorRow, cursorVisible := modeNumber, 0, 0, true;
    }

    /** MAIN: sends every console to its own number for this mode. It fails only when a console
        fails or does not have the mode, and leaves such a console where it was and the others
        in the one geometry of the mode. A number that is current already is taken to be in
        force, so after success the consoles are in their modes for it if and only if it was
        not current before, or they were there already. */
    method SetMode(modeNumber: nat, consoles: seq<TextConsole>) returns (status: Status)
      requires Valid() && AreConsoles(Devices(), consoles)
      modifies this`mode, this`cursorColumn, this`cursorRow, this`cursorVisible, consoles
      ensures Valid()
      ensures status == Unsupported <==> modeNumber > MAX_INT32 || modeNumber >= maxMode
      ensures status == Unsupported ==> unchanged(this) && unchanged(consoles)
      ensures FaultsGrow(consoles)
      ensures status != Unsupported ==>
        && (status == Success || status == DeviceError)
        && mode == modeNumber && cursorColumn == 0 && cursorRow == 0 && cursorVisible
      ensures status != Unsupported && old(mode) == modeNumber ==>
        SameModes(consoles) && Cleared(consoles, |consoles|)
      ensures status != Unsupported ==>
        (status == Success
         <==> NoFaults(consoles, |consoles|)
              && (old(mode) == modeNumber || AllCanTake(Devices(), modeNumber)))
      ensures status != Unsupported && old(mode) != modeNumber ==>
        Sent(Build(Devices()).rows[modeNumber], consoles, |consoles|)
      ensures status == Success ==>
        (InMode(Devices(), modeNumber, consoles)
         <==> old(mode) != modeNumber || old(InMode(Devices(), modeNumber, consoles)))
      ensures status == Success && old(mode) != modeNumber ==>
        forall c :: 0 <= c < |consoles| ==>
          EntryRight(consoles[c].device, consoles[c].mode, ModeGeometry(Devices(), modeNumber))
    {
      hide Build, Holds, Start, Rows, AllWellFormed, EntryRight, EntryFits, AllCanTake, ModeGeometry;
      if currentNumberOfConsoles > 0 { RowsWithin(Devices()); }
      if modeNumber > MAX_INT32 {
        return Unsupported;
      }
      if modeNumber >= maxMode {
        return Unsupported;
      }
      if mode == modeNumber {
        status := ClearScreen(consoles);
        return;
      }
      status := SendMode(modeNumber, consoles);
      if currentNumberOfConsoles > 0 { RowFitsIff(Devices(), modeNumber); } else { NoneToTake(Devices(), modeNumber); }
      TextOutSetMode(modeNumber);
    }

    /** MAIN: brings the consoles to the mode to prefer, or failing that to the default mode. */
    method SetConsoleOutMode(want: Geometry, consoles: seq<TextConsole>) returns (status: Status, fellBack: bool)
      requires Valid() && AreConsoles(Devices(), consoles)
      modifies this`mode, this`cursorColumn, this`cursorRow, this`cursorVisible, consoles
      ensures Valid()
      ensures status != Unsupported ==>
        var choice := Chosen(Answers(Devices()), want);
        mode == if fellBack then choice.base else choice.prefer
      ensures !fellBack ==>
        && status == Success && Chosen(Answers(Devices()), want).prefer < maxMode
        && (mode != old(mode) ==>
              forall c :: 0 <= c < |consoles| ==>
                EntryRight(consoles[c].device, consoles[c].mode, ModeGeometry(Devices(), mode)))
      ensures var prefer := Chosen(Answers(Devices()), want).prefer;
        prefer < maxMode && prefer <= MAX_INT32 && NoFaults(consoles, |consoles|)
        && (old(mode) == prefer || AllCanTake(Devices(), prefer)) ==>
          !fellBack
      ensures !fellBack && want.columns != 0 && want.rows != 0 ==>
        (Answers(Devices())[mode] == Some(want) <==> Listed(Answers(Devices()), want))
    {
      hide Build, Holds, Start, Rows, AllWellFormed, Sent, InMode, EntryRight, RowGeometry, Chosen, AllCanTake;
      if want.columns != 0 && want.rows != 0 { WantedIsChosen(Answers(Devices()), want); }
      var prefer, base := ChooseMode(want);
      assert maxMode == |Answers(Devices())| && currentNumberOfConsoles == |Devices()|;
      hide Valid, Listed, Answers, ModeGeometry, EntryFits;
      status := SetMode(prefer, consoles);
      fellBack := status != Success;
      if fellBack {
        status := SetMode(base, consoles);
      }
    }

    /** The loop over the modes. */
    method ChooseMode(want: Geometry) returns (prefer: nat, base: nat)
      requires Valid()
      ensures var choice := Chosen(Answers(Devices()), want); prefer == choice.prefer && base == choice.base
    {
      hide Build, Holds, Start, Rows, AllWellFormed, RowGeometry;
      ghost var answers := Answers(Devices());
      var choice := Choice(NO_MODE, NO_MODE, NO_GEOMETRY);
      var r := 0;
      while r < maxMode
        invariant r <= maxMode && choice == Chosen(answers[..r], want)
      {
        assert answers[..r + 1][..r] == answers[..r];
        var answer := QueryMode(r);
        choice := Consider(choice, r, answer, want);
        r := r + 1;
      }
      assert answers[..maxMode] == answers;
      return choice.prefer, choice.base;
    }

    /** Takes the consoles' numbers from the row of the map and sends them. */
    method SendMode(modeNumber: nat, consoles: seq<TextConsole>) returns (status: Status)
      requires Valid() && AreConsoles(Devices(), consoles) && modeNumber < maxMode
      modifies consoles
      ensures status == Success || status == DeviceError
      ensures Sent(Build(Devices()).rows[modeNumber], consoles, |consoles|) && FaultsGrow(consoles)
      ensures status == Success <==>
        NoFaults(consoles, |consoles|) && RowFits(Devices(), Build(Devices()).rows[modeNumber], |consoles|)
    {
      hide Build, Holds, Start, Rows, AllWellFormed, EntryFits, Sent;
      var textOutModeMap := [];
      if currentNumberOfConsoles > 0 {
        ghost var t := Build(Devices());
        LiveRow(modeMap[..], textOutList.Length, currentNumberOfConsoles, queryData[..], t, modeNumber);
        var row := textOutList.Length * modeNumber;
        textOutModeMap := modeMap[row..row + currentNumberOfConsoles];
      }
      status := SendRow(textOutModeMap, Devices(), consoles);
    }

    /** The loop over the consoles; the worst answer is kept. */
    static method SendRow(row: seq<int>, ghost devs: seq<TextDevice>, consoles: seq<TextConsole>)
      returns (status: Status)
      requires AreConsoles(devs, consoles) && |row| == |consoles|
      modifies consoles
      ensures status == Success || status == DeviceError
      ensures Sent(row, consoles, |consoles|) && FaultsGrow(consoles)
      ensures status == Success <==> NoFaults(consoles, |consoles|) && RowFits(devs, row, |consoles|)
    {
      hide EntryFits;
      status := Success;
      var index := 0;
      while index < |consoles|
        invariant index <= |consoles| && (status == Success || status == DeviceError)
        invariant Sent(row, consoles, index) && FaultsGrow(consoles) && Untouched(consoles, index)
        invariant status == Success <==> NoFaults(consoles, index) && RowFits(devs, row, index)
      {
        var taken := consoles[index].SetMode(row[index]);
        if !taken {
          status := DeviceError;
        }
        index := index + 1;
      }
    }

    /** Clears every console and puts the cursor back. */
    method ClearScreen(consoles: seq<TextConsole>) returns (status: Status)
      requires Valid() && AreConsoles(Devices(), consoles)
      modifies this`cursorColumn, this`cursorRow, this`cursorVisible, consoles
      ensures status == Success || status == DeviceError
      ensures cursorColumn == 0 && cursorRow == 0 && cursorVisible
      ensures SameModes(consoles) && FaultsGrow(consoles) && Cleared(consoles, |consoles|)
      ensures status == Success <==> NoFaults(consoles, |consoles|)
    {
      status := ClearAll(Devices(), consoles);
      cursorColumn, cursorRow, cursorVisible := 0, 0, true;
    }

    /** The loop over the consoles; the worst answer is kept. */
    static method ClearAll(ghost devs: seq<TextDevice>, consoles: seq<TextConsole>) returns (status: Status)
      requires AreConsoles(devs, consoles)
      modifies consoles
      ensures status == Success || status == DeviceError
      ensures SameModes(consoles) && FaultsGrow(consoles) && Cleared(consoles, |consoles|)
      ensures status == Success <==> NoFaults(consoles, |consoles|)
    {
      status := Success;
      var index := 0;
      while index < |consoles|
        invariant index <= |consoles| && (status == Success || status == DeviceError)
        invariant SameModes(consoles) && FaultsGrow(consoles)
        invariant Untouched(consoles, index) && Cleared(consoles, index) && SameClears(consoles, index)
        invariant status == Success <==> NoFaults(consoles, index)
      {
        var cleared := consoles[index].ClearScreen();
        if !cleared {
          status := DeviceError;
        }
        index := index + 1;
      }
    }
  }

  /** MAIN: whatever was attached and detached before, and however often the arrays have
      grown: two splitters with the same consoles publish the same number of modes, hold
      the same geometries for them, and every console's number in every row is the same. */
  lemma {:induction false} HistoryIndependent(a: TextOutSplitter, b: TextOutSplitter, r: nat, c: nat)
    requires a.Valid() && b.Valid() && a.Devices() == b.Devices()
    requires r < a.maxMode && c < a.currentNumberOfConsoles
    ensures a.maxMode == b.maxMode && a.modeMap != null && b.modeMap != null
    ensures var ca, cb := Start(a.textOutList.Length, r) + c, Start(b.textOutList.Length, r) + c;
      ca < a.modeMap.Length && cb < b.modeMap.Length && a.modeMap[ca] == b.modeMap[cb]
    ensures var m := Build(a.Devices()).rows[r][0];
      0 <= m < a.queryData.Length && m < b.queryData.Length && a.queryData[m] == b.queryData[m]
  {
    var n, t := a.currentNumberOfConsoles, Build(a.Devices());
    LiveCell(a.modeMap[..], a.textOutList.Length, n, a.queryData[..], t, r, c);
    LiveCell(b.modeMap[..], b.textOutList.Length, n, b.queryData[..], t, r, c);
    var m := t.rows[r][0];
    assert a.queryData[..][..|t.data|][m] == b.queryData[..][..|t.data|][m];
  }

  function ExampleDevice(): TextDevice {
    TextDevice(7, [Some(Geometry(80, 25)), None, Some(Geometry(100, 31))])
  }

  lemma {:induction false} OneDevice()
    ensures var d := ExampleDevice();
      WellFormed(d) && AllWellFormed([d]) && |Build([d]).rows| == 3 && Build([d]).rows[2] == [2]
  {
    var d := ExampleDevice();
    assert [d] == [] + [d];
    BuildSnoc([], d);
  }

  method SetTwice(splitter: TextOutSplitter) returns (first: Status, second: Status, at: int)
    requires splitter.Valid() && splitter.Devices() == [ExampleDevice()] && splitter.mode == 0
    modifies splitter
    ensures first == Success || first == DeviceError
    ensures second == Success || second == DeviceError
    ensures at == if first == Success then 2 else 0
  {
    hide Build, Holds, Start, Rows, AllWellFormed, EntryRight, RowGeometry, ExampleDevice;
    OneDevice();
    var console := new TextConsole(ExampleDevice(), 0);
    first := splitter.SetMode(2, [console]);
    second := splitter.SetMode(2, [console]);
    at := console.mode;
  }

  /** A console that refuses a mode, and the same call again: it succeeds, for the number is
      current already, and the console is not in that mode. */
  method SetModeTwiceExample() returns (first: Status, second: Status, at: int)
    ensures first == Success || first == DeviceError
    ensures second == Success || second == DeviceError
    ensures at == if first == Success then 2 else 0
  {
    hide Build, Holds, Start, Rows, AllWellFormed, EntryRight, RowGeometry, ExampleDevice;
    OneDevice();
    var splitter := new TextOutSplitter();
    splitter.AddDevice(ExampleDevice());
    assert splitter.Devices() == [ExampleDevice()];
    first, second, at := SetTwice(splitter);
  }
}
