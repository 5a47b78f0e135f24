/** The text mode table of the console splitter, as a value: what the table is for a
    given list of attached consoles, and what it means.

    A table has one row per virtual mode and one column per console; `rows[r][c]` is the
    number under which console `c` knows virtual mode `r`, or NOT_SUPPORTED. Column 0
    holds the first console's own mode numbers, which index the geometry cache `data`.
 */
module TextModes {

  import opened Basics

  datatype Geometry = Geometry(columns: nat, rows: nat)

  /** A text device: its identity, and what QueryMode answers for each of its modes. */
  datatype TextDevice = TextDevice(id: nat, modes: seq<Option<Geometry>>)

  datatype Table = Table(data: seq<Geometry>, rows: seq<seq<int>>)

  const NOT_SUPPORTED: int := -1
  const NO_GEOMETRY := Geometry(0, 0)
  const DEFAULT_GEOMETRY := Geometry(40, 12)

  /** QueryMode may fail on mode 1 only, and never reports the empty geometry. */
  ghost predicate WellFormed(d: TextDevice) {
    && |d.modes| >= 1
    && (forall m :: 0 <= m < |d.modes| && m != 1 ==> d.modes[m].Some?)
    && (forall m :: 0 <= m < |d.modes| && d.modes[m].Some? ==> d.modes[m].value != NO_GEOMETRY)
  }

  ghost predicate AllWellFormed(devs: seq<TextDevice>) {
    forall i :: 0 <= i < |devs| ==> WellFormed(devs[i])
  }

  function GeometryAt(d: TextDevice, m: int): Geometry
    requires 0 <= m < |d.modes|
  {
    if d.modes[m].Some? then d.modes[m].value else NO_GEOMETRY
  }

  // ---------------------------------------------------------------------------
  // Building the table one console at a time
  // ---------------------------------------------------------------------------

  ghost predicate ValidTable(t: Table, n: nat) {
    && 1 <= |t.rows| <= |t.data|
    && (forall r :: 0 <= r < |t.rows| ==> |t.rows[r]| == n)
    && (n > 0 ==> t.rows[0][0] == 0 && forall r :: 0 <= r < |t.rows| ==> 0 <= t.rows[r][0] < |t.data|)
  }

  ghost function FirstTable(d: TextDevice): (t: Table)
    requires WellFormed(d)
    ensures ValidTable(t, 1)
  {
    Table(seq(|d.modes|, m requires 0 <= m < |d.modes| => GeometryAt(d, m)),
          seq(|d.modes|, m => [m]))
  }

  /** The column of mode numbers of the first console. */
  ghost function FirstColumn(t: Table, n: nat): (first: seq<int>)
    requires n > 0 && ValidTable(t, n)
    ensures |first| == |t.rows|
    ensures forall r :: 0 <= r < |first| ==> 0 <= first[r] == t.rows[r][0] < |t.data|
  {
    seq(|t.rows|, r requires 0 <= r < |t.rows| => t.rows[r][0])
  }

  /** The first row at or after `i` whose cached geometry is `g`, or the number of rows. */
  ghost function FindRow(first: seq<int>, data: seq<Geometry>, g: Geometry, i: nat): (r: nat)
    requires i <= |first|
    requires forall k :: 0 <= k < |first| ==> 0 <= first[k] < |data|
    ensures i <= r <= |first|
    ensures r < |first| ==> data[first[r]] == g
    ensures forall k :: i <= k < r ==> data[first[k]] != g
    decreases |first| - i
  {
    if i == |first| || data[first[i]] == g then i else FindRow(first, data, g, i + 1)
  }

  /** What the scan over a new console's modes has produced so far. */
  datatype Scan = Scan(data: seq<Geometry>, col: seq<int>)

  /** The scan step for one mode of the new console. */
  ghost function ScanMode(s: Scan, first: seq<int>, d: TextDevice, m: nat): (s': Scan)
    requires m < |d.modes| && |s.col| == |first|
    requires forall k :: 0 <= k < |first| ==> 0 <= first[k] < |s.data|
    ensures |s'.data| == |s.data| && |s'.col| == |s.col|
  {
    match d.modes[m]
    case None =>
      if m != 1 then s
      else Scan(if 1 < |s.data| then s.data[1 := NO_GEOMETRY] else s.data,
                if 1 < |s.col| then s.col[1 := 1] else s.col)
    case Some(g) =>
      var r := FindRow(first, s.data, g, 0);
      if r < |first| then s.(col := s.col[r := m]) else s
  }

  /** The scan over the modes below `m`. */
  ghost function ScanModes(s: Scan, first: seq<int>, d: TextDevice, m: nat): (s': Scan)
    requires m <= |d.modes| && |s.col| == |first|
    requires forall k :: 0 <= k < |first| ==> 0 <= first[k] < |s.data|
    ensures |s'.data| == |s.data| && |s'.col| == |s.col|
  {
    if m == 0 then s else ScanMode(ScanModes(s, first, d, m - 1), first, d, m - 1)
  }

  ghost function NoColumn(n: nat): seq<int> {
    seq(n, _ => NOT_SUPPORTED)
  }

  ghost function ScanDevice(t: Table, n: nat, d: TextDevice): (s: Scan)
    requires n > 0 && ValidTable(t, n)
    ensures |s.data| == |t.data| && |s.col| == |t.rows|
  {
    ScanModes(Scan(t.data, NoColumn(|t.rows|)), FirstColumn(t, n), d, |d.modes|)
  }

  /** Rows 0 and 1 always stay; a later row stays when its entry of `keep` is a mode. */
  predicate Kept(keep: seq<int>, r: int)
    requires 0 <= r < |keep|
  {
    r < 2 || keep[r] != NOT_SUPPORTED
  }

  /** The rows that stay, in order. */
  ghost function Compact<T>(rows: seq<T>, keep: seq<int>): (kept: seq<T>)
    requires |rows| == |keep|
    ensures |kept| <= |rows|
    ensures |rows| <= 2 ==> kept == rows
    ensures |rows| >= 2 ==> |kept| >= 2 && kept[..2] == rows[..2]
    ensures forall x :: x in kept ==> x in rows
  {
    if |rows| == 0 then []
    else
      var k := |rows| - 1;
      Compact(rows[..k], keep[..k]) + (if Kept(keep, k) then [rows[k]] else [])
  }

  /** Each row with one more entry. */
  ghost function Extend(rows: seq<seq<int>>, col: seq<int>): (r: seq<seq<int>>)
    requires |rows| == |col|
    ensures |r| == |rows|
  {
    seq(|rows|, i requires 0 <= i < |rows| => rows[i] + [col[i]])
  }

  lemma {:induction false} CompactKeepsShape(rows: seq<seq<int>>, keep: seq<int>, n: nat, modes: nat)
    requires |rows| == |keep| && n > 0
    requires forall r :: 0 <= r < |rows| ==> |rows[r]| == n && 0 <= rows[r][0] < modes
    ensures forall r :: 0 <= r < |Compact(rows, keep)| ==>
              |Compact(rows, keep)[r]| == n && 0 <= Compact(rows, keep)[r][0] < modes
  {
    forall r | 0 <= r < |Compact(rows, keep)|
      ensures Compact(rows, keep)[r] in rows
    {
      assert Compact(rows, keep)[r] in Compact(rows, keep);
    }
  }

  lemma {:induction false} CompactKeepsFirst<T>(rows: seq<T>, keep: seq<int>)
    requires |rows| == |keep| > 0
    ensures |Compact(rows, keep)| > 0 && Compact(rows, keep)[0] == rows[0]
  {
    if |rows| >= 2 { assert Compact(rows, keep)[..2][0] == rows[..2][0]; }
  }

  ghost function SyncTable(t: Table, n: nat, d: TextDevice): (t': Table)
    requires n > 0 && ValidTable(t, n)
    ensures ValidTable(t', n + 1)
    ensures |t'.data| == |t.data|
  {
    var s := ScanDevice(t, n, d);
    var all := Extend(t.rows, s.col);
    var rows := Compact(all, s.col);
    CompactKeepsShape(all, s.col, n + 1, |t.data|);
    assert rows[0] == all[0] by { CompactKeepsFirst(all, s.col); }
    Table(s.data, rows)
  }

  /** The table for a list of consoles, in the order in which they were attached. */
  ghost function Build(devs: seq<TextDevice>): (t: Table)
    requires AllWellFormed(devs)
    ensures ValidTable(t, |devs|)
  {
    if |devs| == 0 then Table([DEFAULT_GEOMETRY], [[]])
    else if |devs| == 1 then FirstTable(devs[0])
    else SyncTable(Build(devs[..|devs| - 1]), |devs| - 1, devs[|devs| - 1])
  }

  // ---------------------------------------------------------------------------
  // What the entries of a table mean
  // ---------------------------------------------------------------------------

  /** The number under which `d` reports geometry `g` among its modes below `m`; the
      last one counts when there are several. */
  function LastMode(d: TextDevice, g: Geometry, m: nat): (k: int)
    requires m <= |d.modes|
    ensures k == NOT_SUPPORTED || (0 <= k < m && d.modes[k] == Some(g))
    ensures forall j :: k < j < m ==> 0 <= j && d.modes[j] != Some(g)
  {
    if m == 0 then NOT_SUPPORTED
    else if d.modes[m - 1] == Some(g) then m - 1
    else LastMode(d, g, m - 1)
  }

  function ModeFor(d: TextDevice, g: Geometry): int {
    LastMode(d, g, |d.modes|)
  }

  predicate Offers(d: TextDevice, g: Geometry) {
    ModeFor(d, g) != NOT_SUPPORTED
  }

  /** `Offers` is what its name says. */
  lemma {:induction false} OffersMeaning(d: TextDevice, g: Geometry)
    ensures Offers(d, g) <==> Some(g) in d.modes
  {
  }

  predicate OfferedByOthers(devs: seq<TextDevice>, g: Geometry) {
    forall i :: 1 <= i < |devs| ==> Offers(devs[i], g)
  }

  /** Some console reports that it does not support mode 1. */
  predicate LacksMode1(d: TextDevice) {
    |d.modes| > 1 && d.modes[1].None?
  }

  /** The geometry cache only ever changes at mode 1, and there only to the empty one. */
  lemma {:induction false} ScanData(s: Scan, first: seq<int>, d: TextDevice, m: nat)
    requires m <= |d.modes| && |s.col| == |first|
    requires forall k :: 0 <= k < |first| ==> 0 <= first[k] < |s.data|
    ensures ScanModes(s, first, d, m).data ==
            if m > 1 && |s.data| > 1 && LacksMode1(d) then s.data[1 := NO_GEOMETRY] else s.data
  {
    if m > 0 { ScanData(s, first, d, m - 1); }
  }

  /** Whatever the scan records for a row past the reserved ones is a mode in which the new
      console really has the row's geometry. */
  lemma {:induction false} ScanSound(s: Scan, first: seq<int>, d: TextDevice, m: nat, r: nat)
    requires m <= |d.modes| && |s.col| == |first|
    requires forall k :: 0 <= k < |first| ==> 0 <= first[k] < |s.data|
    requires 2 <= r < |first| && first[r] != 1 && s.col[r] == NOT_SUPPORTED
    ensures var c := ScanModes(s, first, d, m).col[r];
      c == NOT_SUPPORTED || (0 <= c < m && d.modes[c] == Some(s.data[first[r]]))
  {
    if m > 0 {
      ScanSound(s, first, d, m - 1, r);
      ScanData(s, first, d, m - 1);
    }
  }

  /** On the first row of a geometry, row 1 apart, the scan records the new console's last
      number for that geometry. */
  lemma {:induction false} ScanFirst(s: Scan, first: seq<int>, d: TextDevice, m: nat, r: nat)
    requires m <= |d.modes| && WellFormed(d) && |s.col| == |first|
    requires forall k :: 0 <= k < |first| ==> 0 <= first[k] < |s.data|
    requires r < |first| && r != 1 && first[r] != 1 && s.col[r] == NOT_SUPPORTED
    requires forall k :: 0 <= k < r ==> s.data[first[k]] != s.data[first[r]]
    ensures ScanModes(s, first, d, m).col[r] == LastMode(d, s.data[first[r]], m)
  {
    if m > 0 {
      ScanFirst(s, first, d, m - 1, r);
      ScanData(s, first, d, m - 1);
      var data := ScanModes(s, first, d, m - 1).data;
      assert data[first[r]] == s.data[first[r]];
      if d.modes[m - 1].Some? {
        var g := d.modes[m - 1].value;
        var i := FindRow(first, data, g, 0);
        assert g == data[first[r]] ==> i <= r;
        assert i < r ==> s.data[first[i]] == g;
      }
    }
  }

  /** Row 1 gets the number 1 for a console without a mode 1; otherwise its last number for
      the geometry cached for mode 1, unless mode 0 has that too. */
  lemma {:induction false} ScanRow1(s: Scan, first: seq<int>, d: TextDevice, m: nat)
    requires m <= |d.modes| && WellFormed(d) && |s.col| == |first| > 1 && |s.data| > 1
    requires forall k :: 0 <= k < |first| ==> 0 <= first[k] < |s.data|
    requires first[0] == 0 && first[1] == 1 && s.col[1] == NOT_SUPPORTED
    ensures ScanModes(s, first, d, m).col[1] ==
      if m > 1 && LacksMode1(d) then 1
      else if s.data[1] == s.data[0] then NOT_SUPPORTED
      else LastMode(d, s.data[1], m)
  {
    if m > 0 {
      ScanRow1(s, first, d, m - 1);
      ScanData(s, first, d, m - 1);
      if d.modes[m - 1].Some? {
        var data, g := ScanModes(s, first, d, m - 1).data, d.modes[m - 1].value;
        var i := FindRow(first, data, g, 0);
        assert data[first[0]] == g ==> i == 0;
        assert data[first[1]] == g ==> i <= 1;
      }
    }
  }

  /** A later row of the same geometry is never recorded. */
  lemma {:induction false} ScanLater(s: Scan, first: seq<int>, d: TextDevice, m: nat, k: nat, r: nat)
    requires m <= |d.modes| && |s.col| == |first|
    requires forall i :: 0 <= i < |first| ==> 0 <= first[i] < |s.data|
    requires k < r && 2 <= r < |first| && first[k] != 1 && first[r] != 1 && s.col[r] == NOT_SUPPORTED
    requires s.data[first[k]] == s.data[first[r]]
    ensures ScanModes(s, first, d, m).col[r] == NOT_SUPPORTED
  {
    if m > 0 {
      ScanLater(s, first, d, m - 1, k, r);
      ScanData(s, first, d, m - 1);
    }
  }

  /** Every row past the reserved ones was a row that is kept. */
  lemma {:induction false} CompactFrom<T>(rows: seq<T>, keep: seq<int>, i: nat) returns (q: nat)
    requires |rows| == |keep| && 2 <= i < |Compact(rows, keep)|
    ensures 2 <= q < |rows| && keep[q] != NOT_SUPPORTED && Compact(rows, keep)[i] == rows[q]
  {
    var k := |rows| - 1;
    if i < |Compact(rows[..k], keep[..k])| { q := CompactFrom(rows[..k], keep[..k], i); } else { q := k; }
  }

  /** Every row that is kept stays a row past the reserved ones. */
  lemma {:induction false} CompactTo<T>(rows: seq<T>, keep: seq<int>, q: nat) returns (i: nat)
    requires |rows| == |keep| && 2 <= q < |rows| && keep[q] != NOT_SUPPORTED
    ensures 2 <= i < |Compact(rows, keep)| && Compact(rows, keep)[i] == rows[q]
  {
    var k := |rows| - 1;
    if q == k {
      i := |Compact(rows[..k], keep[..k])|;
    } else {
      i := CompactTo(rows[..k], keep[..k], q);
    }
  }

  predicate EntryRight(d: TextDevice, m: int, g: Geometry) {
    0 <= m < |d.modes| && d.modes[m] == Some(g)
  }

  /** The cache is the first console's, up to the empty geometry at mode 1. */
  ghost predicate CacheRight(data: seq<Geometry>, d: TextDevice) {
    && |data| == |d.modes|
    && forall m :: 0 <= m < |data| ==> data[m] == GeometryAt(d, m) || (m == 1 && data[m] == NO_GEOMETRY)
  }

  /** Every entry of a row past the reserved ones is right. */
  ghost predicate EntriesRight(t: Table, devs: seq<TextDevice>)
    requires |devs| > 0
  {
    && ValidTable(t, |devs|) && CacheRight(t.data, devs[0])
    && (|t.rows| >= 2 ==> t.rows[1][0] == 1)
    && (forall r :: 2 <= r < |t.rows| ==> t.rows[r][0] >= 2)
    && (forall r, c :: 2 <= r < |t.rows| && 0 <= c < |devs| ==>
          EntryRight(devs[c], t.rows[r][c], t.data[t.rows[r][0]]))
  }

  lemma {:induction false} BuildEntriesRight(devs: seq<TextDevice>)
    requires |devs| > 0 && AllWellFormed(devs)
    ensures EntriesRight(Build(devs), devs)
  {
    if |devs| > 1 {
      BuildEntriesRight(devs[..|devs| - 1]);
      SyncEntriesRight(devs, Build(devs[..|devs| - 1]));
    }
  }

  lemma {:induction false} SyncEntriesRight(devs: seq<TextDevice>, b: Table)
    requires |devs| > 1 && EntriesRight(b, devs[..|devs| - 1])
    ensures EntriesRight(SyncTable(b, |devs| - 1, devs[|devs| - 1]), devs)
  {
    var n := |devs| - 1;
    var s, t := ScanDevice(b, n, devs[n]), SyncTable(b, n, devs[n]);
    ScanData(Scan(b.data, NoColumn(|b.rows|)), FirstColumn(b, n), devs[n], |devs[n].modes|);
    if |b.rows| >= 2 { assert t.rows[..2][1] == Extend(b.rows, s.col)[..2][1]; }
    forall r | 2 <= r < |t.rows|
      ensures t.rows[r][0] >= 2
      ensures forall c :: 0 <= c < |devs| ==> EntryRight(devs[c], t.rows[r][c], t.data[t.rows[r][0]])
    {
      SyncRowRight(devs, b, r);
    }
  }

  lemma {:induction false} SyncRowRight(devs: seq<TextDevice>, b: Table, r: nat)
    requires |devs| > 1 && EntriesRight(b, devs[..|devs| - 1])
    requires 2 <= r < |SyncTable(b, |devs| - 1, devs[|devs| - 1]).rows|
    ensures var t := SyncTable(b, |devs| - 1, devs[|devs| - 1]);
      t.rows[r][0] >= 2 && forall c :: 0 <= c < |devs| ==> EntryRight(devs[c], t.rows[r][c], t.data[t.rows[r][0]])
  {
    var n := |devs| - 1;
    var s, t, first := ScanDevice(b, n, devs[n]), SyncTable(b, n, devs[n]), FirstColumn(b, n);
    var start := Scan(b.data, NoColumn(|b.rows|));
    ScanData(start, first, devs[n], |devs[n].modes|);
    var q := CompactFrom(Extend(b.rows, s.col), s.col, r);
    ScanSound(start, first, devs[n], |devs[n].modes|, q);
    assert t.rows[r] == b.rows[q] + [s.col[q]];
    forall c | 0 <= c < |devs|
      ensures EntryRight(devs[c], t.rows[r][c], t.data[t.rows[r][0]])
    {
      if c < n { assert EntryRight(devs[..n][c], b.rows[q][c], b.data[b.rows[q][0]]); }
    }
  }

  /** The geometry under which virtual mode `r` is published. */
  ghost function RowGeometry(t: Table, n: nat, r: nat): Geometry
    requires n > 0 && ValidTable(t, n) && r < |t.rows|
  {
    t.data[t.rows[r][0]]
  }

  /** MAIN: sending every console its entry of row `r` brings all of them to one geometry, the
      published one: each entry of a live row past the reserved ones is a mode in which its
      console really has that geometry, whatever the consoles report and how often. */
  lemma {:induction false} RowsAgree(devs: seq<TextDevice>, r: nat, c: nat)
    requires |devs| > 0 && AllWellFormed(devs)
    requires 2 <= r < |Build(devs).rows| && c < |devs|
    ensures EntryRight(devs[c], Build(devs).rows[r][c], RowGeometry(Build(devs), |devs|, r))
  {
    BuildEntriesRight(devs);
  }

  /** The geometry cached for mode 1 once these consoles are attached. */
  ghost function Mode1Geometry(devs: seq<TextDevice>): Geometry
    requires |devs| > 0 && |devs[0].modes| > 1
  {
    if exists i :: 0 <= i < |devs| && LacksMode1(devs[i]) then NO_GEOMETRY else GeometryAt(devs[0], 1)
  }

  lemma {:induction false} Mode1Step(devs: seq<TextDevice>)
    requires |devs| > 1 && |devs[0].modes| > 1
    ensures var n := |devs| - 1;
      Mode1Geometry(devs) == if LacksMode1(devs[n]) then NO_GEOMETRY else Mode1Geometry(devs[..n])
  {
    var n := |devs| - 1;
    hide LacksMode1, GeometryAt;
    assert forall i :: 0 <= i < n ==> devs[..n][i] == devs[i];
    assert LacksMode1(devs[n]) ==> exists i :: 0 <= i < |devs| && LacksMode1(devs[i]);
  }

  lemma {:induction false} BuildData(devs: seq<TextDevice>)
    requires |devs| > 1 && AllWellFormed(devs)
    ensures var n := |devs| - 1;
      var data := Build(devs[..n]).data;
      Build(devs).data == if |data| > 1 && LacksMode1(devs[n]) then data[1 := NO_GEOMETRY] else data
  {
    var n := |devs| - 1;
    hide Compact, ScanModes;
    var b := Build(devs[..n]);
    ScanData(Scan(b.data, NoColumn(|b.rows|)), FirstColumn(b, n), devs[n], |devs[n].modes|);
  }

  /** The cache: the first console's, with mode 1 cleared once some console lacks it. */
  lemma {:induction false} CacheIs(devs: seq<TextDevice>)
    requires |devs| > 0 && AllWellFormed(devs)
    ensures |Build(devs).data| == |devs[0].modes|
    ensures Build(devs).data[0] == GeometryAt(devs[0], 0)
    ensures |devs[0].modes| > 1 ==> Build(devs).data[1] == Mode1Geometry(devs)
  {
    if |devs| > 1 {
      hide Build, Mode1Geometry;
      CacheIs(devs[..|devs| - 1]);
      BuildData(devs);
      if |devs[0].modes| > 1 { Mode1Step(devs); }
    }
  }

  lemma {:induction false} CompactKeepsReserved<T>(rows: seq<T>, keep: seq<int>, r: nat)
    requires |rows| == |keep| && r < 2 && r < |rows|
    ensures r < |Compact(rows, keep)| && Compact(rows, keep)[r] == rows[r]
  {
    CompactKeepsFirst(rows, keep);
    if |rows| >= 2 { assert Compact(rows, keep)[..2][r] == rows[..2][r]; }
  }

  /** One more console: the reserved rows get one entry more. */
  lemma {:induction false} ReservedRows(devs: seq<TextDevice>, r: nat)
    requires |devs| > 1 && AllWellFormed(devs) && r < 2 && r < |Build(devs[..|devs| - 1]).rows|
    ensures var n := |devs| - 1;
      var b := Build(devs[..n]);
      r < |Build(devs).rows| && Build(devs).rows[r] == b.rows[r] + [ScanDevice(b, n, devs[n]).col[r]]
  {
    hide Compact, ScanDevice;
    var n := |devs| - 1;
    var b := Build(devs[..n]);
    var col := ScanDevice(b, n, devs[n]).col;
    CompactKeepsReserved(Extend(b.rows, col), col, r);
  }

  /** What the scan of a new console records in row 0. */
  lemma {:induction false} ScanRow0(t: Table, n: nat, d: TextDevice)
    requires n > 0 && ValidTable(t, n) && WellFormed(d)
    ensures ScanDevice(t, n, d).col[0] == ModeFor(d, t.data[0])
  {
    hide ScanModes, LastMode;
    var first := FirstColumn(t, n);
    assert first[0] == 0;
    ScanFirst(Scan(t.data, NoColumn(|t.rows|)), first, d, |d.modes|, 0);
  }

  lemma {:induction false} Prefix(devs: seq<TextDevice>)
    requires AllWellFormed(devs) && |devs| > 1
    ensures AllWellFormed(devs[..|devs| - 1]) && WellFormed(devs[|devs| - 1]) && devs[..|devs| - 1][0] == devs[0]
    ensures ValidTable(Build(devs[..|devs| - 1]), |devs| - 1)
  {
  }

  lemma {:induction false} Row0First(devs: seq<TextDevice>)
    requires AllWellFormed(devs) && |devs| == 1
    ensures Build(devs).rows[0] == [0]
  {
  }

  /** MAIN: what row 0 holds. The first console is at its mode 0, and every later one at its
      last mode of that geometry, or at none if it has none. */
  lemma {:induction false} Row0Is(devs: seq<TextDevice>, c: nat)
    requires AllWellFormed(devs) && c < |devs|
    ensures Build(devs).rows[0][c] == if c == 0 then 0 else ModeFor(devs[c], GeometryAt(devs[0], 0))
  {
    hide Build, WellFormed, AllWellFormed, ScanDevice, ModeFor, GeometryAt;
    if |devs| == 1 {
      Row0First(devs);
    } else {
      var n := |devs| - 1;
      Prefix(devs);
      ReservedRows(devs, 0);
      if c < n {
        Row0Is(devs[..n], c);
      } else {
        CacheIs(devs[..n]);
        ScanRow0(Build(devs[..n]), n, devs[n]);
      }
    }
  }

  lemma {:induction false} ScanRow1Device(t: Table, n: nat, d: TextDevice)
    requires n > 0 && ValidTable(t, n) && WellFormed(d) && |t.rows| > 1 && t.rows[1][0] == 1
    ensures ScanDevice(t, n, d).col[1] ==
      if LacksMode1(d) then 1 else if t.data[1] == t.data[0] then NOT_SUPPORTED else ModeFor(d, t.data[1])
  {
    hide ScanModes, LastMode;
    var first := FirstColumn(t, n);
    assert first[0] == 0 && first[1] == 1;
    ScanRow1(Scan(t.data, NoColumn(|t.rows|)), first, d, |d.modes|);
  }

  lemma {:induction false} Row1First(devs: seq<TextDevice>)
    requires AllWellFormed(devs) && |devs| == 1 && |devs[0].modes| > 1
    ensures |Build(devs).rows| > 1 && Build(devs).rows[1] == [1]
  {
  }

  /** MAIN: what row 1 holds. A console without a mode 1 has the number 1 there; any other its
      last mode of the geometry cached for mode 1 when it came, unless that is the geometry of
      mode 0 too or has been cleared. */
  lemma {:induction false} Row1Is(devs: seq<TextDevice>, c: nat)
    requires AllWellFormed(devs) && c < |devs| && |devs[0].modes| > 1
    ensures |Build(devs).rows| > 1
    ensures Build(devs).rows[1][c] ==
      if c == 0 || LacksMode1(devs[c]) then 1
      else if Mode1Geometry(devs[..c]) == GeometryAt(devs[0], 0) then NOT_SUPPORTED
      else ModeFor(devs[c], Mode1Geometry(devs[..c]))
  {
    hide Build, WellFormed, AllWellFormed, ScanDevice, ModeFor, GeometryAt, Mode1Geometry, LacksMode1;
    if |devs| == 1 {
      Row1First(devs);
    } else {
      var n := |devs| - 1;
      Prefix(devs);
      Row1Is(devs[..n], 0);
      ReservedRows(devs, 1);
      if c < n {
        Row1Is(devs[..n], c);
        assert devs[..n][..c] == devs[..c];
      } else {
        CacheIs(devs[..n]);
        ScanRow1Device(Build(devs[..n]), n, devs[n]);
      }
    }
  }

  /** The first console has geometry `g` at some mode past the reserved ones. */
  predicate HasUnreserved(d: TextDevice, g: Geometry) {
    exists m :: 2 <= m < |d.modes| && d.modes[m] == Some(g)
  }

  /** The first console has geometry `g` at a reserved mode. */
  predicate HasReserved(d: TextDevice, g: Geometry) {
    exists m :: 0 <= m < |d.modes| && m < 2 && d.modes[m] == Some(g)
  }

  /** MAIN: only a geometry that the first console has past the reserved modes and every
      console offers is published past the reserved rows, and each such geometry is, unless
      the first console has it at a reserved mode too. */
  lemma {:induction false} SurvivorsAreShared(devs: seq<TextDevice>, g: Geometry)
    requires |devs| > 0 && AllWellFormed(devs)
    ensures var survives := exists r :: 2 <= r < |Build(devs).rows| && RowGeometry(Build(devs), |devs|, r) == g;
      var shared := HasUnreserved(devs[0], g) && OfferedByOthers(devs, g);
      (survives ==> shared) && (!HasReserved(devs[0], g) ==> (survives <==> shared))
  {
    if r :| 2 <= r < |Build(devs).rows| && RowGeometry(Build(devs), |devs|, r) == g { SurvivorIsShared(devs, r); }
    if HasUnreserved(devs[0], g) && OfferedByOthers(devs, g) && !HasReserved(devs[0], g) {
      var r := SharedSurvives(devs, g);
    }
  }

  lemma {:induction false} SurvivorIsShared(devs: seq<TextDevice>, r: nat)
    requires |devs| > 0 && AllWellFormed(devs) && 2 <= r < |Build(devs).rows|
    ensures var g := RowGeometry(Build(devs), |devs|, r);
      HasUnreserved(devs[0], g) && OfferedByOthers(devs, g)
  {
    BuildEntriesRight(devs);
    var t := Build(devs);
    assert EntryRight(devs[0], t.rows[r][0], RowGeometry(t, |devs|, r));
    forall c | 1 <= c < |devs|
      ensures Offers(devs[c], RowGeometry(t, |devs|, r))
    {
      assert EntryRight(devs[c], t.rows[r][c], RowGeometry(t, |devs|, r));
      OffersMeaning(devs[c], RowGeometry(t, |devs|, r));
    }
  }

  lemma {:induction false} SharedSurvives(devs: seq<TextDevice>, g: Geometry) returns (r: nat)
    requires |devs| > 0 && AllWellFormed(devs)
    requires HasUnreserved(devs[0], g) && OfferedByOthers(devs, g) && !HasReserved(devs[0], g)
    ensures 2 <= r < |Build(devs).rows| && RowGeometry(Build(devs), |devs|, r) == g
  {
    if |devs| == 1 {
      r :| 2 <= r < |devs[0].modes| && devs[0].modes[r] == Some(g);
    } else {
      var n := |devs| - 1;
      assert OfferedByOthers(devs[..n], g);
      r := SharedSurvives(devs[..n], g);
      BuildEntriesRight(devs[..n]);
      NotCachedReserved(Build(devs[..n]).data, devs[0], g);
      r := SyncKeepsShared(devs, Build(devs[..n]), g, r);
    }
  }

  lemma {:induction false} NotCachedReserved(data: seq<Geometry>, d: TextDevice, g: Geometry)
    requires WellFormed(d) && CacheRight(data, d) && HasUnreserved(d, g) && !HasReserved(d, g)
    ensures forall m :: 0 <= m < 2 && m < |data| ==> data[m] != g
  {
    forall m | 0 <= m < 2 && m < |data|
      ensures data[m] != g
    {
      assert d.modes[m] != Some(g);
    }
  }

  /** A geometry that is not cached for a reserved mode stays published when the next
      console offers it. */
  lemma {:induction false} SyncKeepsShared(devs: seq<TextDevice>, b: Table, g: Geometry, r0: nat) returns (r: nat)
    requires |devs| > 1 && AllWellFormed(devs) && EntriesRight(b, devs[..|devs| - 1])
    requires Offers(devs[|devs| - 1], g)
    requires forall m :: 0 <= m < 2 && m < |b.data| ==> b.data[m] != g
    requires 2 <= r0 < |b.rows| && RowGeometry(b, |devs| - 1, r0) == g
    ensures 2 <= r < |SyncTable(b, |devs| - 1, devs[|devs| - 1]).rows|
    ensures RowGeometry(SyncTable(b, |devs| - 1, devs[|devs| - 1]), |devs|, r) == g
  {
    var n := |devs| - 1;
    var s, first, start := ScanDevice(b, n, devs[n]), FirstColumn(b, n), Scan(b.data, NoColumn(|b.rows|));
    assert EntryRight(devs[..n][0], b.rows[r0][0], g);
    var q := FindRow(first, b.data, g, 0);
    assert q >= 2;
    ScanFirst(start, first, devs[n], |devs[n].modes|, q);
    ScanData(start, first, devs[n], |devs[n].modes|);
    r := CompactTo(Extend(b.rows, s.col), s.col, q);
  }

  // ---------------------------------------------------------------------------
  // The list of consoles
  // ---------------------------------------------------------------------------

  /** The list without the first console of this identity. */
  function Detach(devs: seq<TextDevice>, id: nat): (rest: seq<TextDevice>)
    ensures (forall i :: 0 <= i < |devs| ==> devs[i].id != id) ==> rest == devs
  {
    if |devs| == 0 then []
    else if devs[0].id == id then devs[1..]
    else [devs[0]] + Detach(devs[1..], id)
  }

  lemma {:induction false} DetachAt(devs: seq<TextDevice>, id: nat, p: nat)
    requires p < |devs| && devs[p].id == id && forall i :: 0 <= i < p ==> devs[i].id != id
    ensures Detach(devs, id) == devs[..p] + devs[p + 1..]
  {
    if p > 0 {
      DetachAt(devs[1..], id, p - 1);
      assert [devs[0]] + devs[1..][..p - 1] == devs[..p];
      assert devs[1..][p..] == devs[p + 1..];
    }
  }

  // ---------------------------------------------------------------------------
  // Where a mode number moves when rows are dropped
  // ---------------------------------------------------------------------------

  /** How many of the rows 2 up to `r` are dropped. */
  function DroppedBelow(keep: seq<int>, r: int): (n: nat)
    requires r <= |keep|
    ensures r >= 2 ==> n <= r - 2
  {
    if r <= 2 then 0 else DroppedBelow(keep, r - 1) + if Kept(keep, r - 1) then 0 else 1
  }

  /** The number a current mode has after the compaction; -1 when its row is dropped. */
  function MovedMode(keep: seq<int>, mode: int): int {
    if 2 <= mode < |keep| && !Kept(keep, mode) then -1
    else mode - DroppedBelow(keep, if mode < |keep| then mode else |keep|)
  }

  lemma {:induction false} CompactLength<T>(rows: seq<T>, keep: seq<int>)
    requires |rows| == |keep|
    ensures |Compact(rows, keep)| == |rows| - DroppedBelow(keep, |keep|)
  {
    if |rows| > 0 {
      var k := |rows| - 1;
      CompactLength(rows[..k], keep[..k]);
      DroppedPrefix(keep, k, k);
    }
  }

  lemma {:induction false} DroppedPrefix(keep: seq<int>, k: nat, r: nat)
    requires r <= k <= |keep|
    ensures DroppedBelow(keep[..k], r) == DroppedBelow(keep, r)
  {
    if r > 2 { DroppedPrefix(keep, k, r - 1); }
  }

  /** MAIN: a valid current mode keeps naming its row across a compaction, or becomes -1
      exactly when that row is dropped. */
  lemma {:induction false} CurrentModeFollowsItsRow<T>(rows: seq<T>, keep: seq<int>, mode: nat)
    requires |rows| == |keep| && mode < |rows|
    ensures Kept(keep, mode) ==>
              0 <= MovedMode(keep, mode) < |Compact(rows, keep)|
                && Compact(rows, keep)[MovedMode(keep, mode)] == rows[mode]
    ensures !Kept(keep, mode) <==> MovedMode(keep, mode) == -1
  {
    var k := |rows| - 1;
    CompactLength(rows[..k], keep[..k]);
    DroppedPrefix(keep, k, k);
    if mode < k {
      CurrentModeFollowsItsRow(rows[..k], keep[..k], mode);
      DroppedPrefix(keep, k, mode);
    }
  }
}
