/** The mode map as the splitter stores it: a flat array read as a table of rows that are
    `step` cells long, with the copy the splitter uses on it. */
module ModeMapMemory {

  /** Where row `r` starts. */
  function Start(step: nat, r: nat): nat {
    if r == 0 then 0 else Start(step, r - 1) + step
  }

  lemma {:induction false} StartIsProduct(step: nat, r: nat)
    ensures Start(step, r) == r * step
  {
    if r > 0 { StartIsProduct(step, r - 1); }
  }

  lemma {:induction false} StartMono(step: nat, a: nat, b: nat)
    requires a <= b
    ensures Start(step, a) <= Start(step, b)
    ensures a < b ==> Start(step, a) + step <= Start(step, b)
  {
    if a < b { StartMono(step, a, b - 1); }
  }

  /** Row `r` of a table of `n` rows. */
  ghost function Row(s: seq<int>, step: nat, n: nat, r: nat): (row: seq<int>)
    requires r < n && Start(step, n) <= |s|
    ensures |row| == step
  {
    StartMono(step, r, n);
    s[Start(step, r)..Start(step, r) + step]
  }

  ghost function Rows(s: seq<int>, step: nat, n: nat): (rows: seq<seq<int>>)
    requires Start(step, n) <= |s|
    ensures |rows| == n
    ensures forall r :: 0 <= r < n ==> |rows[r]| == step
  {
    seq(n, r requires 0 <= r < n => Row(s, step, n, r))
  }

  /** A cell of the flat array is the cell of its row. */
  lemma {:induction false} CellOfRow(s: seq<int>, step: nat, n: nat, r: nat, c: nat)
    requires r < n && Start(step, n) <= |s| && c < step
    ensures Start(step, r) + c < Start(step, n)
    ensures Rows(s, step, n)[r][c] == s[Start(step, r) + c]
  {
    StartMono(step, r, n);
  }

  /** Rows that are not written stay. */
  lemma {:induction false} OtherRow(s: seq<int>, s': seq<int>, step: nat, n: nat, r: nat, q: nat)
    requires r < n && q < n && q != r && Start(step, n) <= |s| == |s'|
    requires Start(step, r) + step <= |s|
    requires s'[..Start(step, r)] == s[..Start(step, r)] && s'[Start(step, r) + step..] == s[Start(step, r) + step..]
    ensures Row(s', step, n, q) == Row(s, step, n, q)
  {
    var lo, hi := Start(step, r), Start(step, r) + step;
    var a := Start(step, q);
    StartMono(step, q, n);
    if q < r {
      StartMono(step, q, r);
      forall i | a <= i < a + step
        ensures s[i] == s'[i]
      {
        assert s[..lo][i] == s'[..lo][i];
      }
    } else {
      StartMono(step, r + 1, q);
      assert s[a..a + step] == s[hi..][a - hi..a - hi + step];
      assert s'[a..a + step] == s'[hi..][a - hi..a - hi + step];
    }
  }

  /** Replacing the cells of one row changes that row and no other. */
  lemma {:induction false} WriteRow(s: seq<int>, s': seq<int>, step: nat, n: nat, r: nat, row: seq<int>)
    requires r < n && Start(step, n) <= |s| && |row| == step
    requires Start(step, r) + step <= |s|
    requires s' == s[..Start(step, r)] + row + s[Start(step, r) + step..]
    ensures Rows(s', step, n) == Rows(s, step, n)[r := row]
  {
    forall q | 0 <= q < n
      ensures Row(s', step, n, q) == Rows(s, step, n)[r := row][q]
    {
      if q != r { OtherRow(s, s', step, n, r, q); }
    }
  }

  lemma {:induction false} WriteCell(s: seq<int>, s': seq<int>, step: nat, n: nat, r: nat, c: nat, v: int)
    requires r < n && Start(step, n) <= |s| && c < step
    requires Start(step, r) + c < |s| && s' == s[Start(step, r) + c := v]
    ensures Rows(s', step, n) == Rows(s, step, n)[r := Rows(s, step, n)[r][c := v]]
  {
    StartMono(step, r, n);
    WriteRow(s, s', step, n, r, Row(s, step, n, r)[c := v]);
  }

  /** Two tables that agree on their first `n` rows' cells have the same rows. */
  lemma {:induction false} SameRows(s: seq<int>, s': seq<int>, step: nat, n: nat)
    requires Start(step, n) <= |s| && Start(step, n) <= |s'| && s[..Start(step, n)] == s'[..Start(step, n)]
    ensures Rows(s, step, n) == Rows(s', step, n)
  {
    forall r | 0 <= r < n
      ensures Row(s, step, n, r) == Row(s', step, n, r)
    {
      StartMono(step, r, n);
      var a := Start(step, r);
      assert s[a..a + step] == s[..Start(step, n)][a..a + step];
      assert s'[a..a + step] == s'[..Start(step, n)][a..a + step];
    }
  }

  /** The rows of a longer table start with the rows of a shorter one. */
  lemma {:induction false} RowsPrefix(s: seq<int>, step: nat, k: nat, n: nat)
    requires k <= n && Start(step, n) <= |s|
    ensures Start(step, k) <= Start(step, n) && Rows(s, step, n)[..k] == Rows(s, step, k)
  {
    StartMono(step, k, n);
  }

  /** CopyMem: the source cells as they were on entry, also when the ranges overlap. */
  method CopyMem(dst: array<int>, d: nat, src: array<int>, s: nat, len: nat)
    requires len > 0 ==> d + len <= dst.Length && s + len <= src.Length
    modifies dst
    ensures len == 0 ==> dst[..] == old(dst[..])
    ensures len > 0 ==> dst[..] == old(dst[..d] + src[s..s + len] + dst[d + len..])
  {
    forall i | 0 <= i < len {
      dst[d + i] := src[s + i];
    }
  }
}
