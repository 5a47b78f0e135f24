/** The graphics modes all attached displays have in common, as a function of the displays'
    own mode lists. */
module GraphicsModes {

  datatype Resolution = Resolution(horizontal: nat, vertical: nat)

  const DEFAULT_MODE := Resolution(800, 600)

  /** The entries of `b` that a display offers, each once, in order. */
  function Common(b: seq<Resolution>, modes: seq<Resolution>): (c: seq<Resolution>)
    ensures |c| <= |b|
  {
    if |b| == 0 then []
    else
      var front, last := Common(b[..|b| - 1], modes), b[|b| - 1];
      if last in modes && last !in front then front + [last] else front
  }

  ghost predicate NoDuplicates(b: seq<Resolution>) {
    forall i, j :: 0 <= i < j < |b| ==> b[i] != b[j]
  }

  /** MAIN: exactly the shared resolutions survive, and none twice. */
  lemma {:induction false} CommonMeaning(b: seq<Resolution>, modes: seq<Resolution>, r: Resolution)
    ensures r in Common(b, modes) <==> r in b && r in modes
    ensures NoDuplicates(Common(b, modes))
  {
    if |b| > 0 {
      CommonMeaning(b[..|b| - 1], modes, r);
      assert b == b[..|b| - 1] + [b[|b| - 1]];
      assert r in b <==> r in b[..|b| - 1] || r == b[|b| - 1];
    }
  }

  /** The order of the old list is kept. */
  lemma {:induction false} CommonKeepsOrder(b: seq<Resolution>, modes: seq<Resolution>, i: nat, j: nat)
    requires i < j < |Common(b, modes)|
    ensures exists p, q :: 0 <= p < q < |b| && b[p] == Common(b, modes)[i] && b[q] == Common(b, modes)[j]
  {
    var front, last := Common(b[..|b| - 1], modes), b[|b| - 1];
    if j < |front| {
      CommonKeepsOrder(b[..|b| - 1], modes, i, j);
      var p, q :| 0 <= p < q < |b| - 1 && b[..|b| - 1][p] == front[i] && b[..|b| - 1][q] == front[j];
      assert b[p] == Common(b, modes)[i] && b[q] == Common(b, modes)[j];
    } else {
      CommonMeaning(b[..|b| - 1], modes, front[i]);
      var p :| 0 <= p < |b| - 1 && b[..|b| - 1][p] == front[i];
      assert b[p] == Common(b, modes)[i] && b[|b| - 1] == Common(b, modes)[j];
    }
  }

  /** The mode buffer after a row of additions: the first list, then the common part. */
  function Buffer(displays: seq<seq<Resolution>>): (b: seq<Resolution>)
    requires |displays| > 0
  {
    if |displays| == 1 then displays[0] else Common(Buffer(displays[..|displays| - 1]), displays[|displays| - 1])
  }

  lemma {:induction false} BufferStarts(modes: seq<Resolution>)
    ensures Buffer([modes]) == modes
  {
  }

  /** One more display leaves the common part of its modes and the buffer's. */
  lemma {:induction false} BufferGrows(displays: seq<seq<Resolution>>, modes: seq<Resolution>)
    requires |displays| > 0
    ensures Buffer(displays + [modes]) == Common(Buffer(displays), modes)
  {
    assert (displays + [modes])[..|displays|] == displays;
  }

  /** MAIN: after any additions the buffer lists exactly what every display offers; with two
      or more displays no resolution is listed twice. */
  lemma {:induction false} BufferIsIntersection(displays: seq<seq<Resolution>>, r: Resolution)
    requires |displays| > 0
    ensures r in Buffer(displays) <==> forall i :: 0 <= i < |displays| ==> r in displays[i]
    ensures |displays| > 1 ==> NoDuplicates(Buffer(displays))
  {
    if |displays| > 1 {
      var front, last := displays[..|displays| - 1], displays[|displays| - 1];
      BufferIsIntersection(front, r);
      CommonMeaning(Buffer(front), last, r);
      if forall i :: 0 <= i < |displays| ==> r in displays[i] {
        forall i | 0 <= i < |front| ensures r in front[i] { assert front[i] == displays[i]; }
      }
      if forall i :: 0 <= i < |front| ==> r in front[i] {
        forall i | 0 <= i < |displays| - 1 ensures r in displays[i] { assert front[i] == displays[i]; }
      }
    }
  }

  /** The first place of `r` in `b`, or the length of `b`. */
  function IndexOf(b: seq<Resolution>, r: Resolution): (i: nat)
    ensures i <= |b| && (i < |b| <==> r in b) && (i < |b| ==> b[i] == r && r !in b[..i])
  {
    if |b| == 0 then 0 else if b[0] == r then 0 else
      var i := IndexOf(b[1..], r);
      assert forall k :: 0 < k < i + 1 && k < |b| ==> b[k] == b[1..][k - 1];
      1 + i
  }

  /** The mode to switch to when a display at `current` joins: its own resolution if shared,
      else 800 by 600 if shared, else the first mode. */
  function Preferred(b: seq<Resolution>, current: Resolution): (i: nat)
    ensures |b| > 0 ==> i < |b|
    ensures current in b ==> i < |b| && b[i] == current
    ensures current !in b && DEFAULT_MODE in b ==> i < |b| && b[i] == DEFAULT_MODE
    ensures current !in b && DEFAULT_MODE !in b ==> i == 0
  {
    if current in b then IndexOf(b, current)
    else if DEFAULT_MODE in b then IndexOf(b, DEFAULT_MODE)
    else 0
  }
}
