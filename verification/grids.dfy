/** Rectangular character grids as read by the grid puzzles: a sequence of
    rows, addressed as (row, column). */
module Grids {

  type Rows = seq<seq<char>>

  /** Every row is as long as the first one. */
  predicate Rectangular(g: Rows) {
    forall i :: 0 <= i < |g| ==> |g[i]| == |g[0]|
  }

  /** The width the programs read off the first row (0 for no rows). */
  function Width(g: Rows): nat {
    if |g| == 0 then 0 else |g[0]|
  }

  /** (r, c) lies inside the rows and inside the first row's width. */
  predicate InGrid(g: Rows, r: int, c: int) {
    0 <= r < |g| && 0 <= c < Width(g)
  }

  /** Cell (r, c) is inside the grid and holds `ch`. */
  predicate LetterAt(g: Rows, r: int, c: int, ch: char) {
    InGrid(g, r, c) && c < |g[r]| && g[r][c] == ch
  }

  /** Number of cells holding `ch`. */
  function CountChar(g: Rows, ch: char): nat {
    if |g| == 0 then 0
    else CountChar(g[..|g| - 1], ch) + multiset(g[|g| - 1])[ch]
  }

  /** Total number of cells. */
  function Area(g: Rows): nat {
    if |g| == 0 then 0 else Area(g[..|g| - 1]) + |g[|g| - 1]|
  }

  lemma {:induction false} CountCharBound(g: Rows, ch: char)
    ensures CountChar(g, ch) <= Area(g)
  {
    if |g| > 0 {
      CountCharBound(g[..|g| - 1], ch);
      var row := g[|g| - 1];
      assert multiset(row)[ch] <= |multiset(row)|;
    }
  }

  lemma {:induction false} AreaRectangular(g: Rows)
    requires Rectangular(g)
    ensures Area(g) == |g| * Width(g)
  {
    if |g| > 0 {
      var p := g[..|g| - 1];
      assert Rectangular(p);
      if |p| > 0 {
        assert p[0] == g[0];
      }
      AreaRectangular(p);
      assert Area(p) == |p| * Width(g);
    }
  }

  /** (r, c) comes strictly before (r', c') in row-major order. */
  predicate RowMajorBefore(p: (nat, nat), q: (nat, nat)) {
    p.0 < q.0 || (p.0 == q.0 && p.1 < q.1)
  }

  /** Cells of row `i` among its first `k` columns whose character is in
      `chars`, left to right. */
  function RowCells(g: Rows, i: nat, k: nat, chars: set<char>): seq<(nat, nat)>
    requires i < |g| && k <= |g[i]|
  {
    if k == 0 then []
    else RowCells(g, i, k - 1, chars) + (if g[i][k - 1] in chars then [(i, k - 1)] else [])
  }

  /** A row's listing holds exactly the matching cells among its first `k`
      columns. */
  lemma {:induction false} RowCellsMembers(g: Rows, i: nat, k: nat, chars: set<char>)
    requires i < |g| && k <= |g[i]|
    ensures forall p :: p in RowCells(g, i, k, chars) ==> p.0 == i && p.1 < k && g[i][p.1] in chars
    ensures forall j :: 0 <= j < k && g[i][j] in chars ==> (i, j) in RowCells(g, i, k, chars)
  {
    if k > 0 {
      RowCellsMembers(g, i, k - 1, chars);
    }
  }

  /** A row's cells are listed left to right. */
  lemma {:induction false} RowCellsAscending(g: Rows, i: nat, k: nat, chars: set<char>)
    requires i < |g| && k <= |g[i]|
    ensures forall a, b :: 0 <= a < b < |RowCells(g, i, k, chars)| ==>
              RowCells(g, i, k, chars)[a].1 < RowCells(g, i, k, chars)[b].1
  {
    if k > 0 {
      RowCellsAscending(g, i, k - 1, chars);
      RowCellsMembers(g, i, k - 1, chars);
      var prev := RowCells(g, i, k - 1, chars);
      var r := RowCells(g, i, k, chars);
      assert r == prev + (if g[i][k - 1] in chars then [(i, k - 1)] else []);
      forall a, b | 0 <= a < b < |r|
        ensures r[a].1 < r[b].1
      {
        if b < |prev| {
          assert r[a] == prev[a] && r[b] == prev[b];
          assert prev[a].1 < prev[b].1;
        } else {
          assert r[a] == prev[a] && prev[a] in prev;
          assert prev[a].1 < k - 1;
          assert r[b] == (i, k - 1);
        }
      }
    }
  }

  /** Cells of the first `n` rows whose character is in `chars`, in
      row-major order: exactly the matching cells, each once. */
  function CellsBelow(g: Rows, n: nat, chars: set<char>): (r: seq<(nat, nat)>)
    requires n <= |g|
    ensures forall p :: p in r ==> p.0 < n && p.1 < |g[p.0]| && g[p.0][p.1] in chars
    ensures forall i, j :: 0 <= i < n && 0 <= j < |g[i]| && g[i][j] in chars ==> (i, j) in r
  {
    if n == 0 then []
    else
      RowCellsMembers(g, n - 1, |g[n - 1]|, chars);
      CellsBelow(g, n - 1, chars) + RowCells(g, n - 1, |g[n - 1]|, chars)
  }

  /** The listing below row `n` is in row-major order. */
  lemma {:induction false} CellsBelowOrdered(g: Rows, n: nat, chars: set<char>)
    requires n <= |g|
    ensures forall a, b :: 0 <= a < b < |CellsBelow(g, n, chars)| ==>
              RowMajorBefore(CellsBelow(g, n, chars)[a], CellsBelow(g, n, chars)[b])
  {
    if n > 0 {
      CellsBelowOrdered(g, n - 1, chars);
      var prev := CellsBelow(g, n - 1, chars);
      var row := RowCells(g, n - 1, |g[n - 1]|, chars);
      RowCellsAscending(g, n - 1, |g[n - 1]|, chars);
      RowCellsMembers(g, n - 1, |g[n - 1]|, chars);
      var r := CellsBelow(g, n, chars);
      assert r == prev + row;
      forall a, b | 0 <= a < b < |r|
        ensures RowMajorBefore(r[a], r[b])
      {
        if b < |prev| {
          assert r[a] == prev[a] && r[b] == prev[b];
          assert RowMajorBefore(prev[a], prev[b]);
        } else if a < |prev| {
          assert r[a] == prev[a] && prev[a] in prev;
          assert r[b] == row[b - |prev|] && row[b - |prev|] in row;
        } else {
          assert r[a] == row[a - |prev|] && r[b] == row[b - |prev|];
          assert row[a - |prev|] in row;
          assert row[a - |prev|].1 < row[b - |prev|].1;
        }
      }
    }
  }

  /** Every cell whose character is in `chars`, in row-major order. */
  function CellsOf(g: Rows, chars: set<char>): (r: seq<(nat, nat)>)
    ensures forall p :: p in r <==> p.0 < |g| && p.1 < |g[p.0]| && g[p.0][p.1] in chars
  {
    CellsBelow(g, |g|, chars)
  }

  /** Every cell listing is in row-major order. */
  lemma CellsOfOrdered(g: Rows, chars: set<char>)
    ensures forall a, b :: 0 <= a < b < |CellsOf(g, chars)| ==>
              RowMajorBefore(CellsOf(g, chars)[a], CellsOf(g, chars)[b])
  {
    CellsBelowOrdered(g, |g|, chars);
    CellsOfBelow(g, chars);
  }

  /** The listing of all rows is the listing below the last row. */
  lemma CellsOfBelow(g: Rows, chars: set<char>)
    ensures CellsOf(g, chars) == CellsBelow(g, |g|, chars)
  {
  }

  /** The listing below row `n` extends the one below row `n - 1` by the
      cells of row `n - 1`. */
  lemma CellsBelowStep(g: Rows, n: nat, chars: set<char>)
    requires 0 < n <= |g|
    ensures CellsBelow(g, n, chars) == CellsBelow(g, n - 1, chars) + RowCells(g, n - 1, |g[n - 1]|, chars)
  {
  }

  lemma {:induction false} RowCellsCount(g: Rows, i: nat, k: nat, ch: char)
    requires i < |g| && k <= |g[i]|
    ensures |RowCells(g, i, k, {ch})| == multiset(g[i][..k])[ch]
  {
    if k > 0 {
      RowCellsCount(g, i, k - 1, ch);
      assert g[i][..k] == g[i][..k - 1] + [g[i][k - 1]];
    }
  }

  lemma {:induction false} CellsBelowCount(g: Rows, n: nat, ch: char)
    requires n <= |g|
    ensures |CellsBelow(g, n, {ch})| == CountChar(g[..n], ch)
  {
    if n > 0 {
      CellsBelowCount(g, n - 1, ch);
      RowCellsCount(g, n - 1, |g[n - 1]|, ch);
      assert g[..n][..n - 1] == g[..n - 1];
      assert g[n - 1][..|g[n - 1]|] == g[n - 1];
    }
  }

  /** Listing the cells holding `ch` finds as many as counting them. */
  lemma CellsOfCount(g: Rows, ch: char)
    ensures |CellsOf(g, {ch})| == CountChar(g, ch)
  {
    CellsBelowCount(g, |g|, ch);
    assert g[..|g|] == g;
  }

  /** `g` with cell (r, c) set to `ch`. */
  function SetCell(g: Rows, r: nat, c: nat, ch: char): (h: Rows)
    requires r < |g| && c < |g[r]|
    ensures |h| == |g| && forall i :: 0 <= i < |g| ==> |h[i]| == |g[i]|
    ensures h[r][c] == ch
    ensures forall i, j :: 0 <= i < |g| && 0 <= j < |g[i]| && (i, j) != (r, c) ==> h[i][j] == g[i][j]
  {
    g[r := g[r][c := ch]]
  }
}
