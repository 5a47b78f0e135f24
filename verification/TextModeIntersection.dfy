/** The text mode table as an intersection: a reference definition of what the consoles have
    in common, the table it is compared with, and when the order of the consoles matters. */
module TextModeIntersection {
  import opened Basics
  import opened TextModes

  /** No mode of `d` before `m` has the geometry of mode `m`. */
  predicate FirstListed(d: TextDevice, m: nat)
    requires m < |d.modes|
  {
    forall k :: 0 <= k < m ==> d.modes[k] != d.modes[m]
  }

  /** Mode `m` of the first console is published: every other console offers its geometry,
      and, once there are others, the first console has not listed it before. */
  predicate Published(devs: seq<TextDevice>, m: nat)
    requires |devs| > 0 && m < |devs[0].modes|
  {
    OfferedByOthers(devs, GeometryAt(devs[0], m)) && (|devs| == 1 || FirstListed(devs[0], m))
  }

  /** The first console does not list the geometry of mode 1 again past the reserved modes,
      unless mode 0 has it too. */
  predicate Mode1Apart(d: TextDevice) {
    |d.modes| > 1 && d.modes[1].Some? && d.modes[1] != d.modes[0] ==>
      forall m :: 2 <= m < |d.modes| ==> d.modes[m] != d.modes[1]
  }

  /** The numbers under which the consoles know mode `m` of the first one. */
  ghost function SharedRow(devs: seq<TextDevice>, m: nat): (row: seq<int>)
    requires |devs| > 0 && m < |devs[0].modes|
    ensures |row| == |devs|
  {
    seq(|devs|, i requires 0 <= i < |devs| =>
      if i == 0 then m else ModeFor(devs[i], GeometryAt(devs[0], m)))
  }

  /** The reference definition: the published ones of the first console's modes 2 up to `m`,
      in order. */
  ghost function SharedRows(devs: seq<TextDevice>, m: nat): seq<seq<int>>
    requires |devs| > 0 && m <= |devs[0].modes|
  {
    if m <= 2 then []
    else SharedRows(devs, m - 1) + (if Published(devs, m - 1) then [SharedRow(devs, m - 1)] else [])
  }

  predicate AnyLacksMode1(devs: seq<TextDevice>) {
    exists i :: 0 <= i < |devs| && LacksMode1(devs[i])
  }

  /** The cached geometries: the first console's, with mode 1 cleared once any console
      lacks it. */
  ghost function SharedData(devs: seq<TextDevice>): (data: seq<Geometry>)
    requires |devs| > 0
    ensures |data| == |devs[0].modes|
  {
    seq(|devs[0].modes|, m requires 0 <= m < |devs[0].modes| =>
      if m == 1 && AnyLacksMode1(devs) then NO_GEOMETRY
      else GeometryAt(devs[0], m))
  }

  /** What SharedRows says about its rows: strictly increasing first-console modes. */
  lemma {:induction false} SharedRowsFirst(devs: seq<TextDevice>, m: nat)
    requires |devs| > 0 && m <= |devs[0].modes|
    ensures var rows := SharedRows(devs, m);
      && (forall r :: 0 <= r < |rows| ==>
          |rows[r]| == |devs| && 2 <= rows[r][0] < m && rows[r] == SharedRow(devs, rows[r][0]))
      && (forall r, q :: 0 <= r < q < |rows| ==> rows[r][0] < rows[q][0])
      && |rows| <= if m <= 2 then 0 else m - 2
  {
    if m > 2 { SharedRowsFirst(devs, m - 1); }
  }

  lemma {:induction false} CompactSnoc<T>(rows: seq<T>, keep: seq<int>, row: T, k: int)
    requires 2 <= |rows| == |keep|
    ensures Compact(rows + [row], keep + [k])
            == Compact(rows, keep) + (if k != NOT_SUPPORTED then [row] else [])
  {
    assert (rows + [row])[..|rows|] == rows && (keep + [k])[..|rows|] == keep;
  }

  lemma {:induction false} ExtendCompactSnoc(rows: seq<seq<int>>, keep: seq<int>, row: seq<int>, k: int)
    requires 2 <= |rows| == |keep|
    ensures Compact(Extend(rows + [row], keep + [k]), keep + [k])
            == Compact(Extend(rows, keep), keep) + (if k != NOT_SUPPORTED then [row + [k]] else [])
  {
    assert Extend(rows + [row], keep + [k]) == Extend(rows, keep) + [row + [k]];
    CompactSnoc(Extend(rows, keep), keep, row + [k], k);
  }

  /** What a new console's column says about mode `m` of the first one. */
  function NewEntry(devs: seq<TextDevice>, m: nat): int
    requires |devs| > 1 && m < |devs[0].modes|
  {
    if FirstListed(devs[0], m) then ModeFor(devs[|devs| - 1], GeometryAt(devs[0], m)) else NOT_SUPPORTED
  }

  /** The column of the last console's numbers for the rows shared by the others. */
  ghost function NewColumn(devs: seq<TextDevice>, m: nat): (col: seq<int>)
    requires |devs| > 1 && m <= |devs[0].modes|
    ensures |col| == |SharedRows(devs[..|devs| - 1], m)|
  {
    if m <= 2 then []
    else NewColumn(devs, m - 1) + (if Published(devs[..|devs| - 1], m - 1) then [NewEntry(devs, m - 1)] else [])
  }

  lemma {:induction false} NewColumnAt(devs: seq<TextDevice>, m: nat, r: nat)
    requires |devs| > 1 && m <= |devs[0].modes|
    requires r < |SharedRows(devs[..|devs| - 1], m)|
    ensures var row := SharedRows(devs[..|devs| - 1], m)[r];
      |row| > 0 && 0 <= row[0] < |devs[0].modes| && Published(devs[..|devs| - 1], row[0])
      && NewColumn(devs, m)[r] == NewEntry(devs, row[0])
  {
    if r < |SharedRows(devs[..|devs| - 1], m - 1)| { NewColumnAt(devs, m - 1, r); }
  }

  /** Adding a column and dropping the rows it does not support takes the reference rows
      for `n` consoles to those for `n + 1`. */
  lemma {:induction false} SharedRowsStep(devs: seq<TextDevice>, m: nat, top: seq<seq<int>>, topCol: seq<int>)
    requires |devs| > 1 && m <= |devs[0].modes|
    requires |top| == |topCol| == 2
    ensures var keep := topCol + NewColumn(devs, m);
      Compact(Extend(top + SharedRows(devs[..|devs| - 1], m), keep), keep)
      == Extend(top, topCol) + SharedRows(devs, m)
  {
    var n := |devs| - 1;
    var before, col := SharedRows(devs[..n], m), NewColumn(devs, m);
    if m <= 2 {
      assert top + before == top && topCol + col == topCol;
      assert Extend(top, topCol) + SharedRows(devs, m) == Extend(top, topCol);
    } else {
      SharedRowsStep(devs, m - 1, top, topCol);
      SharedRowsUnfold(devs, m);
      if Published(devs[..n], m - 1) {
        AppendShared(top, topCol, SharedRows(devs[..n], m - 1), NewColumn(devs, m - 1), SharedRows(devs, m - 1),
                     SharedRow(devs[..n], m - 1), NewEntry(devs, m - 1));
      }
    }
  }

  lemma {:induction false} AppendShared(top: seq<seq<int>>, topCol: seq<int>, before: seq<seq<int>>, col: seq<int>,
                                        shared: seq<seq<int>>, row: seq<int>, k: int)
    requires |top| == |topCol| == 2 && |before| == |col|
    requires Compact(Extend(top + before, topCol + col), topCol + col) == Extend(top, topCol) + shared
    ensures Compact(Extend(top + (before + [row]), topCol + (col + [k])), topCol + (col + [k]))
            == Extend(top, topCol) + (shared + (if k != NOT_SUPPORTED then [row + [k]] else []))
  {
    var rows, keep := top + before, topCol + col;
    assert top + (before + [row]) == rows + [row] && topCol + (col + [k]) == keep + [k];
    ExtendCompactSnoc(rows, keep, row, k);
    var more := if k != NOT_SUPPORTED then [row + [k]] else [];
    assert Extend(top, topCol) + (shared + more) == Extend(top, topCol) + shared + more;
  }

  lemma {:induction false} SharedRowsUnfold(devs: seq<TextDevice>, m: nat)
    requires |devs| > 1 && 2 < m <= |devs[0].modes|
    ensures var n := |devs| - 1;
      var row, k := SharedRow(devs[..n], m - 1), NewEntry(devs, m - 1);
      if Published(devs[..n], m - 1) then
        && SharedRows(devs[..n], m) == SharedRows(devs[..n], m - 1) + [row]
        && NewColumn(devs, m) == NewColumn(devs, m - 1) + [k]
        && SharedRows(devs, m) == SharedRows(devs, m - 1) + (if k != NOT_SUPPORTED then [row + [k]] else [])
      else
        && SharedRows(devs[..n], m) == SharedRows(devs[..n], m - 1)
        && NewColumn(devs, m) == NewColumn(devs, m - 1)
        && SharedRows(devs, m) == SharedRows(devs, m - 1)
  {
    var n, g := |devs| - 1, GeometryAt(devs[0], m - 1);
    OfferedByOneMore(devs, g);
    assert SharedRow(devs, m - 1) == SharedRow(devs[..n], m - 1) + [ModeFor(devs[n], g)];
  }

  lemma {:induction false} OfferedByOneMore(devs: seq<TextDevice>, g: Geometry)
    requires |devs| > 1
    ensures var n := |devs| - 1;
      OfferedByOthers(devs, g) <==> OfferedByOthers(devs[..n], g) && Offers(devs[n], g)
  {
  }

  /** `t` is the intersection of the consoles' modes: its rows from 2 on are exactly the
      reference rows, rows 0 and 1 stay, and the cache is the first console's, with mode 1
      cleared when some console lacks it. */
  ghost predicate IsIntersection(t: Table, devs: seq<TextDevice>)
    requires |devs| > 0
  {
    && ValidTable(t, |devs|)
    && t.data == SharedData(devs)
    && (|devs[0].modes| < 2 ==> |t.rows| == 1)
    && (|devs[0].modes| >= 2 ==>
          |t.rows| >= 2 && t.rows[1][0] == 1 && t.rows[2..] == SharedRows(devs, |devs[0].modes|))
  }

  /** MAIN: the table built console by console is the intersection. */
  lemma {:induction false} BuildIsIntersection(devs: seq<TextDevice>)
    requires |devs| > 0 && AllWellFormed(devs) && Mode1Apart(devs[0])
    ensures IsIntersection(Build(devs), devs)
  {
    if |devs| == 1 {
      FirstIsIntersection(devs);
    } else {
      BuildIsIntersection(devs[..|devs| - 1]);
      SyncIsIntersection(devs, Build(devs[..|devs| - 1]));
    }
  }

  lemma {:induction false} FirstIsIntersection(devs: seq<TextDevice>)
    requires |devs| == 1 && WellFormed(devs[0])
    ensures IsIntersection(FirstTable(devs[0]), devs)
  {
    var t, all := FirstTable(devs[0]), |devs[0].modes|;
    SingleConsole(devs, all);
    assert AnyLacksMode1(devs) <==> LacksMode1(devs[0]);
    assert forall m :: 0 <= m < all ==> t.data[m] == SharedData(devs)[m];
    if all >= 2 { assert t.rows[2..] == SharedRows(devs, all); }
  }

  lemma {:induction false} SyncIsIntersection(devs: seq<TextDevice>, b: Table)
    requires |devs| > 1 && AllWellFormed(devs) && Mode1Apart(devs[0])
    requires IsIntersection(b, devs[..|devs| - 1])
    ensures IsIntersection(SyncTable(b, |devs| - 1, devs[|devs| - 1]), devs)
  {
    SyncCache(devs, b);
    if |devs[0].modes| >= 2 { SyncRows(devs, b); }
  }

  lemma {:induction false} SyncCache(devs: seq<TextDevice>, b: Table)
    requires |devs| > 1 && IsIntersection(b, devs[..|devs| - 1])
    ensures SyncTable(b, |devs| - 1, devs[|devs| - 1]).data == SharedData(devs)
  {
    var n := |devs| - 1;
    ScanData(Scan(b.data, NoColumn(|b.rows|)), FirstColumn(b, n), devs[n], |devs[n].modes|);
    SharedDataStep(devs);
  }

  lemma {:induction false} SyncRows(devs: seq<TextDevice>, b: Table)
    requires |devs| > 1 && AllWellFormed(devs) && Mode1Apart(devs[0]) && |devs[0].modes| >= 2
    requires IsIntersection(b, devs[..|devs| - 1])
    ensures var n := |devs| - 1; var col := ScanDevice(b, n, devs[n]).col;
      SyncTable(b, n, devs[n]).rows == Extend(b.rows[..2], col[..2]) + SharedRows(devs, |devs[0].modes|)
  {
    var n, all := |devs| - 1, |devs[0].modes|;
    var col := ScanDevice(b, n, devs[n]).col;
    NewColumnScanned(devs, b);
    assert b.rows[..2] + b.rows[2..] == b.rows && col[..2] + col[2..] == col;
    SharedRowsStep(devs, all, b.rows[..2], col[..2]);
  }

  /** Below the two reserved rows, the scan over a new console's modes produces its
      numbers for the shared geometries. */
  lemma {:induction false} NewColumnScanned(devs: seq<TextDevice>, t: Table)
    requires |devs| > 1 && AllWellFormed(devs) && Mode1Apart(devs[0]) && |devs[0].modes| >= 2
    requires IsIntersection(t, devs[..|devs| - 1])
    ensures var n := |devs| - 1; ScanDevice(t, n, devs[n]).col[2..] == NewColumn(devs, |devs[0].modes|)
  {
    var n := |devs| - 1;
    forall r | 0 <= r < |t.rows| - 2
      ensures ScanDevice(t, n, devs[n]).col[r + 2] == NewColumn(devs, |devs[0].modes|)[r]
    {
      NewColumnScannedAt(devs, t, r);
    }
  }

  lemma {:induction false} NewColumnScannedAt(devs: seq<TextDevice>, t: Table, r: nat)
    requires |devs| > 1 && AllWellFormed(devs) && Mode1Apart(devs[0]) && |devs[0].modes| >= 2
    requires IsIntersection(t, devs[..|devs| - 1]) && r < |t.rows| - 2
    ensures var n := |devs| - 1;
      ScanDevice(t, n, devs[n]).col[r + 2] == NewColumn(devs, |devs[0].modes|)[r]
  {
    var n, all := |devs| - 1, |devs[0].modes|;
    var first, start, m := FirstColumn(t, n), Scan(t.data, NoColumn(|t.rows|)), t.rows[r + 2][0];
    NewColumnAt(devs, all, r);
    assert t.rows[r + 2] == SharedRows(devs[..n], all)[r];
    if FirstListed(devs[0], m) {
      EarlierRowsDiffer(devs[..n], t, r + 2);
      ScanFirst(start, first, devs[n], |devs[n].modes|, r + 2);
    } else {
      var k := SameGeometryBefore(devs[..n], t, r + 2);
      ScanLater(start, first, devs[n], |devs[n].modes|, k, r + 2);
    }
  }

  /** The cached geometry of a mode past the reserved ones is its own, and no cleared one. */
  lemma {:induction false} CacheAt(devs: seq<TextDevice>, m: nat)
    requires |devs| > 0 && WellFormed(devs[0]) && 2 <= m < |devs[0].modes|
    ensures SharedData(devs)[m] == GeometryAt(devs[0], m) != NO_GEOMETRY
    ensures devs[0].modes[m] == Some(GeometryAt(devs[0], m))
  {
    assert devs[0].modes[m].Some?;
  }

  /** The row of a first-listed mode has a geometry no earlier row has. */
  lemma {:induction false} EarlierRowsDiffer(devs: seq<TextDevice>, t: Table, r: nat)
    requires |devs| > 0 && WellFormed(devs[0]) && |devs[0].modes| >= 2 && IsIntersection(t, devs)
    requires 2 <= r < |t.rows| && FirstListed(devs[0], t.rows[r][0])
    ensures 2 <= t.rows[r][0] < |devs[0].modes|
    ensures t.data[t.rows[r][0]] == GeometryAt(devs[0], t.rows[r][0])
    ensures forall k :: 0 <= k < r ==> t.data[t.rows[k][0]] != t.data[t.rows[r][0]]
  {
    SharedRowsFirst(devs, |devs[0].modes|);
    var rows, m := SharedRows(devs, |devs[0].modes|), t.rows[r][0];
    assert t.rows[r] == rows[r - 2];
    CacheAt(devs, m);
    forall k | 0 <= k < r
      ensures t.data[t.rows[k][0]] != t.data[m]
    {
      var j := t.rows[k][0];
      assert k >= 2 ==> t.rows[k] == rows[k - 2];
      assert j < m && devs[0].modes[j] != devs[0].modes[m];
    }
  }

  /** A row whose mode is not first-listed belongs to a single console, and its geometry is
      that of an earlier row other than row 1. */
  lemma {:induction false} SameGeometryBefore(devs: seq<TextDevice>, t: Table, r: nat) returns (k: nat)
    requires |devs| > 0 && WellFormed(devs[0]) && Mode1Apart(devs[0]) && |devs[0].modes| >= 2 && IsIntersection(t, devs)
    requires 2 <= r < |t.rows| && 0 <= t.rows[r][0] < |devs[0].modes|
    requires Published(devs, t.rows[r][0]) && !FirstListed(devs[0], t.rows[r][0])
    ensures k < r && t.rows[k][0] != 1 && 2 <= t.rows[r][0]
    ensures t.data[t.rows[k][0]] == t.data[t.rows[r][0]]
  {
    var d, all := devs[0], |devs[0].modes|;
    SingleConsole(devs, all);
    assert t.rows[r] == SharedRows(devs, all)[r - 2];
    CacheAt(devs, r);
    var j :| 0 <= j < r && d.modes[j] == d.modes[r];
    k := if j == 1 then 0 else j;
    assert d.modes[k] == d.modes[r];
    if k >= 2 {
      assert t.rows[k] == SharedRows(devs, all)[k - 2];
      CacheAt(devs, k);
    }
  }

  lemma {:induction false} SingleConsole(devs: seq<TextDevice>, m: nat)
    requires |devs| == 1 && m <= |devs[0].modes|
    ensures |SharedRows(devs, m)| == if m <= 2 then 0 else m - 2
    ensures forall r :: 0 <= r < |SharedRows(devs, m)| ==> SharedRows(devs, m)[r] == [r + 2]
  {
    if m > 2 { SingleConsole(devs, m - 1); }
  }

  lemma {:induction false} SharedDataStep(devs: seq<TextDevice>)
    requires |devs| > 1
    ensures var n := |devs| - 1; var before := SharedData(devs[..n]);
      SharedData(devs) == if |before| > 1 && LacksMode1(devs[n]) then before[1 := NO_GEOMETRY] else before
  {
    var n := |devs| - 1;
    var init := devs[..n];
    if i :| 0 <= i < |devs| && LacksMode1(devs[i]) {
      assert i < n ==> LacksMode1(init[i]);
    }
    if i :| 0 <= i < n && LacksMode1(init[i]) {
      assert LacksMode1(devs[i]);
    }
    assert AnyLacksMode1(devs) <==> AnyLacksMode1(init) || LacksMode1(devs[n]);
    var before := SharedData(init);
    var after := if |before| > 1 && LacksMode1(devs[n]) then before[1 := NO_GEOMETRY] else before;
    assert forall m :: 0 <= m < |before| ==> SharedData(devs)[m] == after[m];
  }

  // ---------------------------------------------------------------------------
  // The order of the consoles
  // ---------------------------------------------------------------------------

  ghost predicate SameOthers(devs: seq<TextDevice>, devs': seq<TextDevice>)
    requires |devs| > 0 && |devs'| > 0
  {
    devs[0] == devs'[0] && forall d :: d in devs[1..] <==> d in devs'[1..]
  }

  /** MAIN: which geometries survive, and in which order they are published, does not
      depend on the order (or the repetition) of the consoles after the first. */
  lemma {:induction false} OrderOfOthersIrrelevant(devs: seq<TextDevice>, devs': seq<TextDevice>)
    requires |devs| > 0 && |devs'| > 0 && AllWellFormed(devs) && AllWellFormed(devs') && Mode1Apart(devs[0])
    requires SameOthers(devs, devs')
    ensures Build(devs).data == Build(devs').data
    ensures FirstColumn(Build(devs), |devs|) == FirstColumn(Build(devs'), |devs'|)
  {
    SameCache(devs, devs');
    OthersOfferTheSame(devs, devs');
    BuildIsIntersection(devs);
    BuildIsIntersection(devs');
    SameIntersection(devs, devs', Build(devs), Build(devs'));
  }

  lemma {:induction false} OthersOfferTheSame(devs: seq<TextDevice>, devs': seq<TextDevice>)
    requires |devs| > 0 && |devs'| > 0 && SameOthers(devs, devs')
    ensures SameOffers(devs, devs')
  {
    SameAlone(devs, devs');
    forall g
      ensures OfferedByOthers(devs, g) <==> OfferedByOthers(devs', g)
    {
      if OfferedByOthers(devs, g) { SameOffered(devs, devs', g); }
      if OfferedByOthers(devs', g) { SameOffered(devs', devs, g); }
    }
  }

  lemma {:induction false} SameAlone(devs: seq<TextDevice>, devs': seq<TextDevice>)
    requires |devs| > 0 && |devs'| > 0 && SameOthers(devs, devs')
    ensures |devs| == 1 <==> |devs'| == 1
  {
    if |devs| > 1 { assert devs[1..][0] in devs'[1..]; }
    if |devs'| > 1 { assert devs'[1..][0] in devs[1..]; }
  }

  lemma {:induction false} SameIntersection(devs: seq<TextDevice>, devs': seq<TextDevice>, t: Table, t': Table)
    requires |devs| > 0 && |devs'| > 0 && IsIntersection(t, devs) && IsIntersection(t', devs')
    requires SameOffers(devs, devs')
    ensures FirstColumn(t, |devs|) == FirstColumn(t', |devs'|)
  {
    var all := |devs[0].modes|;
    SameSurvivors(devs, devs', all);
    forall r | 0 <= r < |t.rows|
      ensures r < |t'.rows| && t.rows[r][0] == t'.rows[r][0]
    {
      if r >= 2 {
        assert t.rows[r] == t.rows[2..][r - 2] && t'.rows[r] == t'.rows[2..][r - 2];
        SameSurvivor(devs, devs', all, r - 2);
      }
    }
  }

  lemma {:induction false} SameLacks(devs: seq<TextDevice>, devs': seq<TextDevice>)
    requires |devs| > 0 && |devs'| > 0 && SameOthers(devs, devs') && AnyLacksMode1(devs)
    ensures AnyLacksMode1(devs')
  {
    var i :| 0 <= i < |devs| && LacksMode1(devs[i]);
    if i == 0 {
      assert LacksMode1(devs'[0]);
    } else {
      assert devs[1..][i - 1] in devs[1..];
      var j :| 0 <= j < |devs'[1..]| && devs'[1..][j] == devs[i];
      assert LacksMode1(devs'[j + 1]);
    }
  }

  lemma {:induction false} SameCache(devs: seq<TextDevice>, devs': seq<TextDevice>)
    requires |devs| > 0 && |devs'| > 0 && SameOthers(devs, devs')
    ensures SharedData(devs) == SharedData(devs')
  {
    if AnyLacksMode1(devs) { SameLacks(devs, devs'); }
    if AnyLacksMode1(devs') { SameLacks(devs', devs); }
    assert AnyLacksMode1(devs) == AnyLacksMode1(devs');
  }

  lemma {:induction false} SameOffered(devs: seq<TextDevice>, devs': seq<TextDevice>, g: Geometry)
    requires |devs| > 0 && |devs'| > 0 && SameOthers(devs, devs') && OfferedByOthers(devs, g)
    ensures OfferedByOthers(devs', g)
  {
    forall j | 1 <= j < |devs'|
      ensures Offers(devs'[j], g)
    {
      assert devs'[1..][j - 1] in devs'[1..];
      var i :| 0 <= i < |devs[1..]| && devs[1..][i] == devs'[j];
      assert Offers(devs[i + 1], g);
    }
  }

  ghost predicate SameOffers(devs: seq<TextDevice>, devs': seq<TextDevice>)
    requires |devs| > 0 && |devs'| > 0
  {
    && devs[0] == devs'[0] && (|devs| == 1 <==> |devs'| == 1)
    && forall g :: OfferedByOthers(devs, g) <==> OfferedByOthers(devs', g)
  }

  lemma {:induction false} SameSurvivors(devs: seq<TextDevice>, devs': seq<TextDevice>, m: nat)
    requires |devs| > 0 && |devs'| > 0 && SameOffers(devs, devs') && m <= |devs[0].modes|
    ensures |SharedRows(devs, m)| == |SharedRows(devs', m)|
  {
    if m > 2 {
      SameSurvivors(devs, devs', m - 1);
    }
  }

  lemma {:induction false} SameSurvivor(devs: seq<TextDevice>, devs': seq<TextDevice>, m: nat, r: nat)
    requires |devs| > 0 && |devs'| > 0 && SameOffers(devs, devs') && m <= |devs[0].modes|
    requires r < |SharedRows(devs, m)|
    ensures r < |SharedRows(devs', m)|
    ensures var row, row' := SharedRows(devs, m)[r], SharedRows(devs', m)[r];
      |row| > 0 && |row'| > 0 && row[0] == row'[0]
  {
    SameSurvivors(devs, devs', m - 1);
    if r < |SharedRows(devs, m - 1)| { SameSurvivor(devs, devs', m - 1, r); }
  }

  /** A console with the one geometry, and one that has it past a mode 1 it lacks. */
  function Plain(g: Geometry): TextDevice {
    TextDevice(0, [Some(g)])
  }

  function Lacking(g: Geometry): TextDevice {
    TextDevice(0, [Some(g), None, Some(g)])
  }

  lemma {:induction false} PlainColumn(d: TextDevice, g: Geometry)
    requires WellFormed(d) && |d.modes| > 1 && d.modes[1] == Some(g) && d.modes[0] != Some(g) && WellFormed(Plain(g))
    ensures ScanDevice(FirstTable(d), 1, Plain(g)).col == NoColumn(|d.modes|)[1 := 0]
  {
    var t := FirstTable(d);
    var first, start := FirstColumn(t, 1), Scan(t.data, NoColumn(|t.rows|));
    assert ScanModes(start, first, Plain(g), 0) == start;
    assert FindRow(first, t.data, g, 0) == 1;
  }

  lemma {:induction false} NothingKept(rows: seq<seq<int>>, keep: seq<int>)
    requires |rows| == |keep| >= 2 && forall r :: 2 <= r < |keep| ==> keep[r] == NOT_SUPPORTED
    ensures |Compact(rows, keep)| == 2
  {
    if |Compact(rows, keep)| > 2 { var q := CompactFrom(rows, keep, 2); }
  }

  lemma {:induction false} PlainTakesMode1(d: TextDevice, g: Geometry)
    requires WellFormed(d) && |d.modes| > 1 && d.modes[1] == Some(g) && d.modes[0] != Some(g)
    requires AllWellFormed([d, Plain(g), Lacking(g)]) && AllWellFormed([d, Plain(g)]) && WellFormed(Plain(g))
    ensures |Build([d, Plain(g), Lacking(g)]).rows| == 2
  {
    hide ScanDevice, FirstTable, Compact;
    var y, z := [d, Plain(g)], [d, Plain(g), Lacking(g)];
    assert y[..1] == [d] && z[..2] == y;
    var t, s := FirstTable(d), ScanDevice(FirstTable(d), 1, Plain(g));
    PlainColumn(d, g);
    NothingKept(Extend(t.rows, s.col), s.col);
    assert Build(y) == SyncTable(t, 1, Plain(g));
    assert Build(z) == SyncTable(Build(y), 2, Lacking(g));
  }

  lemma {:induction false} LackingScan(d: TextDevice, g: Geometry) returns (q: nat)
    requires WellFormed(d) && |d.modes| > 1 && d.modes[1] == Some(g) && d.modes[0] != Some(g) && HasUnreserved(d, g)
    requires WellFormed(Lacking(g))
    ensures var s := ScanDevice(FirstTable(d), 1, Lacking(g));
      && 2 <= q < |d.modes| && d.modes[q] == Some(g) && s.col[q] == 2
      && s.data == FirstTable(d).data[1 := NO_GEOMETRY]
  {
    var t := FirstTable(d);
    var first, start := FirstColumn(t, 1), Scan(t.data, NoColumn(|t.rows|));
    ScanData(start, first, Lacking(g), 2);
    ScanData(start, first, Lacking(g), 3);
    var s2 := ScanModes(start, first, Lacking(g), 2);
    var m :| 2 <= m < |d.modes| && d.modes[m] == Some(g);
    assert s2.data[first[m]] == g;
    q := FindRow(first, s2.data, g, 0);
    assert q >= 2;
  }

  lemma {:induction false} LackingFreesRow(d: TextDevice, g: Geometry) returns (r: nat)
    requires WellFormed(d) && |d.modes| > 1 && d.modes[1] == Some(g) && d.modes[0] != Some(g) && HasUnreserved(d, g)
    requires AllWellFormed([d, Lacking(g)]) && WellFormed(Lacking(g))
    ensures var t := Build([d, Lacking(g)]);
      2 <= r < |t.rows| && RowGeometry(t, 2, r) == g && t.data[0] != g && t.data[1] == NO_GEOMETRY
  {
    hide ScanDevice, Compact;
    assert [d, Lacking(g)][..1] == [d];
    var t, s := FirstTable(d), ScanDevice(FirstTable(d), 1, Lacking(g));
    var q := LackingScan(d, g);
    r := CompactTo(Extend(t.rows, s.col), s.col, q);
  }

  /** When mode 1 is not apart, a geometry is published or not depending on which of two
      consoles comes first. */
  lemma {:induction false} OrderMatters(d: TextDevice, g: Geometry)
    requires WellFormed(d) && |d.modes| > 1 && d.modes[1] == Some(g) && d.modes[0] != Some(g) && HasUnreserved(d, g)
    ensures AllWellFormed([d, Lacking(g), Plain(g)]) && AllWellFormed([d, Plain(g), Lacking(g)])
    ensures |Build([d, Lacking(g), Plain(g)]).rows| > 2 == |Build([d, Plain(g), Lacking(g)]).rows|
  {
    assert d.modes[1].Some?;
    var x, z := [d, Lacking(g)], [d, Lacking(g), Plain(g)];
    assert z[..2] == x;
    assert WellFormed(Plain(g)) && AllWellFormed([d, Plain(g)]);
    PlainTakesMode1(d, g);
    assert WellFormed(Lacking(g));
    var r0 := LackingFreesRow(d, g);
    BuildEntriesRight(x);
    OffersMeaning(Plain(g), g);
    var r := SyncKeepsShared(z, Build(x), g, r0);
  }

  /** A first console that lists 80 by 50 at mode 1 and again at mode 2. */
  lemma {:induction false} OrderMattersExample()
    ensures var g := Geometry(80, 50);
      var d := TextDevice(0, [Some(Geometry(80, 25)), Some(g), Some(g)]);
      && AllWellFormed([d, Lacking(g), Plain(g)]) && AllWellFormed([d, Plain(g), Lacking(g)])
      && |Build([d, Lacking(g), Plain(g)]).rows| > 2 == |Build([d, Plain(g), Lacking(g)]).rows|
  {
    var g := Geometry(80, 50);
    var d := TextDevice(0, [Some(Geometry(80, 25)), Some(g), Some(g)]);
    assert d.modes[2] == Some(g);
    OrderMatters(d, g);
  }

  ghost predicate SameFirstColumn(devs: seq<TextDevice>, devs': seq<TextDevice>)
    requires |devs| > 0 && |devs'| > 0 && AllWellFormed(devs) && AllWellFormed(devs')
  {
    FirstColumn(Build(devs), |devs|) == FirstColumn(Build(devs'), |devs'|)
  }

  /** MAIN: for a first console, the order of the others is irrelevant if and only if it
      lists mode 1 apart. */
  lemma {:induction false} OrderIrrelevantIff(d: TextDevice)
    requires WellFormed(d)
    ensures Mode1Apart(d) <==>
      forall devs, devs' ::
        |devs| > 0 && |devs'| > 0 && devs[0] == d && AllWellFormed(devs) && AllWellFormed(devs')
          && SameOthers(devs, devs')
        ==> SameFirstColumn(devs, devs')
  {
    if Mode1Apart(d) {
      forall devs, devs' |
        |devs| > 0 && |devs'| > 0 && devs[0] == d && AllWellFormed(devs) && AllWellFormed(devs')
          && SameOthers(devs, devs')
        ensures SameFirstColumn(devs, devs')
      {
        OrderOfOthersIrrelevant(devs, devs');
      }
    } else {
      var g := d.modes[1].value;
      var x, y := [d, Lacking(g), Plain(g)], [d, Plain(g), Lacking(g)];
      OrderMatters(d, g);
      assert x[1..] == [Lacking(g), Plain(g)] && y[1..] == [Plain(g), Lacking(g)];
      assert SameOthers(x, y) && !SameFirstColumn(x, y);
    }
  }

  ghost predicate BuildsIntersection(devs: seq<TextDevice>)
    requires |devs| > 0 && AllWellFormed(devs)
  {
    IsIntersection(Build(devs), devs)
  }

  /** MAIN: for a first console, the table is the intersection whatever the others are if and
      only if it lists mode 1 apart. */
  lemma {:induction false} IntersectionIff(d: TextDevice)
    requires WellFormed(d)
    ensures Mode1Apart(d) <==>
      forall devs :: |devs| > 0 && devs[0] == d && AllWellFormed(devs) ==> BuildsIntersection(devs)
  {
    if Mode1Apart(d) {
      forall devs | |devs| > 0 && devs[0] == d && AllWellFormed(devs)
        ensures BuildsIntersection(devs)
      {
        BuildIsIntersection(devs);
      }
    } else {
      NotBothIntersections(d, d.modes[1].value);
    }
  }

  lemma {:induction false} NotBothIntersections(d: TextDevice, g: Geometry)
    requires WellFormed(d) && |d.modes| > 1 && d.modes[1] == Some(g) && d.modes[0] != Some(g) && HasUnreserved(d, g)
    ensures AllWellFormed([d, Lacking(g), Plain(g)]) && AllWellFormed([d, Plain(g), Lacking(g)])
    ensures !BuildsIntersection([d, Lacking(g), Plain(g)]) || !BuildsIntersection([d, Plain(g), Lacking(g)])
  {
    hide Build, IsIntersection, SameOffers;
    var x, y := [d, Lacking(g), Plain(g)], [d, Plain(g), Lacking(g)];
    OrderMatters(d, g);
    assert x[1..] == [Lacking(g), Plain(g)] && y[1..] == [Plain(g), Lacking(g)];
    if BuildsIntersection(x) && BuildsIntersection(y) {
      OthersOfferTheSame(x, y);
      SameIntersection(x, y, Build(x), Build(y));
    }
  }
}
