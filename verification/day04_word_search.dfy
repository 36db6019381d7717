/** Day 4: word search for "XMAS" in eight directions, and the X-shaped
    "MAS" crosses anchored at an 'M'. */
module WordSearch {
  import opened Grids

  const Word: string := "XMAS"

  /** The eight search directions in the source's order: right, left, down,
      up, then the four diagonals. */
  const Directions: seq<(int, int)> :=
    [(0, 1), (0, -1), (1, 0), (-1, 0), (-1, -1), (-1, 1), (1, -1), (1, 1)]

  /** The word is spelled from (x, y) in direction (dx, dy): its four
      letters sit 0, 1, 2 and 3 steps along, every one inside the grid. */
  predicate WordAt(g: Rows, x: int, y: int, dx: int, dy: int) {
    && LetterAt(g, x, y, Word[0])
    && LetterAt(g, x + dx, y + dy, Word[1])
    && LetterAt(g, x + 2 * dx, y + 2 * dy, Word[2])
    && LetterAt(g, x + 3 * dx, y + 3 * dy, Word[3])
  }

  /** `n` steps of length `d` along one axis. */
  function Steps(n: nat, d: int): int {
    if n == 0 then 0 else Steps(n - 1, d) + d
  }

  /** `check_next_char`: matches the letter at position `p` of the word and
      recurses one step further in the same direction. It succeeds exactly
      when the rest of the word from letter `p` on is spelled from (x, y). */
  function CheckNextChar(g: Rows, p: nat, x: int, y: int, dx: int, dy: int): (r: bool)
    requires Rectangular(g)
    ensures r <==> SpelledFrom(g, p, x, y, dx, dy)
    decreases |Word| - p
  {
    if p >= |Word| then true
    else
      RestShift(g, p, x, y, dx, dy);
      if x < 0 || y < 0 || x >= |g| || y >= |g[0]| then false
      else if g[x][y] == Word[p] then
        assert |g[x]| == |g[0]|;
        CheckNextChar(g, p + 1, x + dx, y + dy, dx, dy)
      else false
  }

  /** Letters `p`, `p + 1`, ... of the word sit 0, 1, ... steps from (x, y). */
  predicate SpelledFrom(g: Rows, p: nat, x: int, y: int, dx: int, dy: int) {
    forall k :: 0 <= k < |Word| - p ==> LetterAt(g, x + Steps(k, dx), y + Steps(k, dy), Word[p + k])
  }

  /** The rest of the word from letter `p` is letter `p` here and the rest
      from letter `p + 1` one step further. */
  lemma RestShift(g: Rows, p: nat, x: int, y: int, dx: int, dy: int)
    requires p < |Word|
    ensures SpelledFrom(g, p, x, y, dx, dy)
        <==> LetterAt(g, x, y, Word[p]) && SpelledFrom(g, p + 1, x + dx, y + dy, dx, dy)
  {
    if SpelledFrom(g, p, x, y, dx, dy) {
      RestShiftDown(g, p, x, y, dx, dy);
    }
    if LetterAt(g, x, y, Word[p]) && SpelledFrom(g, p + 1, x + dx, y + dy, dx, dy) {
      RestShiftUp(g, p, x, y, dx, dy);
    }
  }

  lemma RestShiftDown(g: Rows, p: nat, x: int, y: int, dx: int, dy: int)
    requires p < |Word| && SpelledFrom(g, p, x, y, dx, dy)
    ensures LetterAt(g, x, y, Word[p]) && SpelledFrom(g, p + 1, x + dx, y + dy, dx, dy)
  {
    assert LetterAt(g, x + Steps(0, dx), y + Steps(0, dy), Word[p + 0]);
    forall k | 0 <= k < |Word| - (p + 1)
      ensures LetterAt(g, x + dx + Steps(k, dx), y + dy + Steps(k, dy), Word[p + 1 + k])
    {
      assert LetterAt(g, x + Steps(k + 1, dx), y + Steps(k + 1, dy), Word[p + (k + 1)]);
    }
  }

  lemma RestShiftUp(g: Rows, p: nat, x: int, y: int, dx: int, dy: int)
    requires p < |Word| && LetterAt(g, x, y, Word[p]) && SpelledFrom(g, p + 1, x + dx, y + dy, dx, dy)
    ensures SpelledFrom(g, p, x, y, dx, dy)
  {
    forall k | 0 <= k < |Word| - p
      ensures LetterAt(g, x + Steps(k, dx), y + Steps(k, dy), Word[p + k])
    {
      if k > 0 {
        assert LetterAt(g, x + dx + Steps(k - 1, dx), y + dy + Steps(k - 1, dy), Word[p + 1 + (k - 1)]);
      }
    }
  }

  /** `check_next_char(.., 0, x, y, dx, dy)` holds exactly when "XMAS" is
      spelled from (x, y) in that direction. */
  lemma CheckNextCharMeansWord(g: Rows, x: int, y: int, dx: int, dy: int)
    requires Rectangular(g)
    ensures CheckNextChar(g, 0, x, y, dx, dy) <==> WordAt(g, x, y, dx, dy)
  {
    SpelledMeansWord(g, x, y, dx, dy);
  }

  /** One, two and three steps of `d`. */
  lemma StepsSmall(d: int)
    ensures Steps(1, d) == d && Steps(2, d) == 2 * d && Steps(3, d) == 3 * d
  {
    assert Steps(1, d) == d;
    assert Steps(2, d) == d + d;
  }

  /** The whole word spelled from (x, y) is the four letters of `WordAt`. */
  lemma SpelledMeansWord(g: Rows, x: int, y: int, dx: int, dy: int)
    ensures SpelledFrom(g, 0, x, y, dx, dy) <==> WordAt(g, x, y, dx, dy)
  {
    if SpelledFrom(g, 0, x, y, dx, dy) {
      SpelledGivesWord(g, x, y, dx, dy);
    }
    if WordAt(g, x, y, dx, dy) {
      WordGivesSpelled(g, x, y, dx, dy);
    }
  }

  lemma SpelledGivesWord(g: Rows, x: int, y: int, dx: int, dy: int)
    requires SpelledFrom(g, 0, x, y, dx, dy)
    ensures WordAt(g, x, y, dx, dy)
  {
    StepsSmall(dx);
    StepsSmall(dy);
    assert LetterAt(g, x + Steps(0, dx), y + Steps(0, dy), Word[0]);
    assert LetterAt(g, x + Steps(1, dx), y + Steps(1, dy), Word[1]);
    assert LetterAt(g, x + Steps(2, dx), y + Steps(2, dy), Word[2]);
    assert LetterAt(g, x + Steps(3, dx), y + Steps(3, dy), Word[3]);
  }

  lemma WordGivesSpelled(g: Rows, x: int, y: int, dx: int, dy: int)
    requires WordAt(g, x, y, dx, dy)
    ensures SpelledFrom(g, 0, x, y, dx, dy)
  {
    StepsSmall(dx);
    StepsSmall(dy);
    forall k | 0 <= k < |Word|
      ensures LetterAt(g, x + Steps(k, dx), y + Steps(k, dy), Word[k])
    {
      assert k == 0 || k == 1 || k == 2 || k == 3;
    }
  }

  /** Positions 0, 1, 2 and 3 steps of `d` from `x` all lie in [0, n). */
  predicate LineInside(x: int, d: int, n: nat) {
    && 0 <= x < n
    && 0 <= x + d < n
    && 0 <= x + 2 * d < n
    && 0 <= x + 3 * d < n
  }

  /** `can_fit_word`: the cell three steps along the direction, where the
      last letter would go, lies inside rows x cols. Seen from a cell inside
      rows x cols this holds exactly when every letter of the word lands
      inside, since the letters lie on a line between the two ends. */
  function CanFitWord(x: nat, y: nat, dx: int, dy: int, rows: nat, cols: nat): (r: bool)
    ensures x < rows && y < cols ==> (r <==> LineInside(x, dx, rows) && LineInside(y, dy, cols))
  {
    var endX := x + (|Word| - 1) * dx;
    var endY := y + (|Word| - 1) * dy;
    0 <= endX < rows && 0 <= endY < cols
  }

  /** A word that is found always fits, so the screening done by the
      optimised count never discards a match. */
  lemma CheckImpliesFit(g: Rows, x: nat, y: nat, dx: int, dy: int)
    requires Rectangular(g)
    requires CheckNextChar(g, 0, x, y, dx, dy)
    ensures CanFitWord(x, y, dx, dy, |g|, Width(g))
  {
    CheckNextCharMeansWord(g, x, y, dx, dy);
    assert LetterAt(g, x + 3 * dx, y + 3 * dy, Word[3]);
  }

  /** Number of directions among `dirs` in which the word starts at (x, y);
      with `screen` set each direction is first screened by `can_fit_word`. */
  function MatchesAt(g: Rows, x: nat, y: nat, dirs: seq<(int, int)>, screen: bool): (n: nat)
    requires Rectangular(g)
    ensures n <= |dirs|
  {
    if |dirs| == 0 then 0
    else
      var d := dirs[|dirs| - 1];
      var hit := (!screen || CanFitWord(x, y, d.0, d.1, |g|, Width(g)))
                 && CheckNextChar(g, 0, x, y, d.0, d.1);
      MatchesAt(g, x, y, dirs[..|dirs| - 1], screen) + (if hit then 1 else 0)
  }

  /** Matches over the first `cols` cells of row `x`. */
  function RowMatches(g: Rows, x: nat, cols: nat, screen: bool): (n: nat)
    requires Rectangular(g)
    ensures n <= |Directions| * cols
  {
    if cols == 0 then 0
    else RowMatches(g, x, cols - 1, screen) + MatchesAt(g, x, cols - 1, Directions, screen)
  }

  /** `check_all_directions`: every cell of every row (each row's own
      length), all eight directions, no screening. The count is the number
      of directions the word reads in, summed over every 'X' of the grid. */
  function CheckAllDirections(g: Rows): (n: nat)
    requires Rectangular(g)
    ensures n == WordsFrom(g, Directions, CellsOf(g, {'X'}))
  {
    UnscreenedRowsCountWords(g, |g|);
    UnscreenedRows(g, |g|)
  }

  function UnscreenedRows(g: Rows, rows: nat): nat
    requires Rectangular(g) && rows <= |g|
  {
    if rows == 0 then 0
    else
      assert |g[rows - 1]| == Width(g);
      UnscreenedRows(g, rows - 1) + RowMatches(g, rows - 1, |g[rows - 1]|, false)
  }

  /** `check_all_directions_optimised`: rows x cols from the first row, each
      direction screened by `can_fit_word`. The source reads the first row,
      so an empty grid is outside its domain. */
  function CheckAllDirectionsOptimised(g: Rows): (n: nat)
    requires Rectangular(g) && |g| > 0
    ensures n == WordsFrom(g, Directions, CellsOf(g, {'X'}))
  {
    OptimisedCountAgrees(g, |g|);
    UnscreenedRowsCountWords(g, |g|);
    ScreenedRows(g, |g|)
  }

  function ScreenedRows(g: Rows, rows: nat): nat
    requires Rectangular(g) && rows <= |g|
  {
    if rows == 0 then 0
    else ScreenedRows(g, rows - 1) + RowMatches(g, rows - 1, Width(g), true)
  }

  // Reference count for part one: directions per start cell, summed over
  // a list of cells.

  /** Number of directions among `dirs` in which the word reads from
      (x, y). */
  function WordDirections(g: Rows, x: int, y: int, dirs: seq<(int, int)>): (n: nat)
    ensures n <= |dirs|
  {
    if |dirs| == 0 then 0
    else (if WordAt(g, x, y, dirs[0].0, dirs[0].1) then 1 else 0) + WordDirections(g, x, y, dirs[1..])
  }

  /** Words starting at the listed cells, in the directions `dirs`. */
  function WordsFrom(g: Rows, dirs: seq<(int, int)>, cells: seq<(nat, nat)>): nat {
    if |cells| == 0 then 0
    else
      var c := cells[|cells| - 1];
      WordsFrom(g, dirs, cells[..|cells| - 1]) + WordDirections(g, c.0, c.1, dirs)
  }

  lemma WordsFromSnoc(g: Rows, dirs: seq<(int, int)>, cells: seq<(nat, nat)>, c: (nat, nat))
    ensures WordsFrom(g, dirs, cells + [c]) == WordsFrom(g, dirs, cells) + WordDirections(g, c.0, c.1, dirs)
  {
    assert (cells + [c])[..|cells|] == cells;
  }

  lemma {:induction false} WordsFromAppend(g: Rows, dirs: seq<(int, int)>, a: seq<(nat, nat)>, b: seq<(nat, nat)>)
    ensures WordsFrom(g, dirs, a + b) == WordsFrom(g, dirs, a) + WordsFrom(g, dirs, b)
  {
    if |b| > 0 {
      var b' := b[..|b| - 1];
      assert (a + b)[..|a + b| - 1] == a + b';
      WordsFromAppend(g, dirs, a, b');
    } else {
      assert a + b == a;
    }
  }

  /** Without screening, the matches at a cell are the directions in which
      the word reads from it. */
  lemma {:induction false} MatchesAtCountsWords(g: Rows, x: nat, y: nat, dirs: seq<(int, int)>)
    requires Rectangular(g)
    ensures MatchesAt(g, x, y, dirs, false) == WordDirections(g, x, y, dirs)
  {
    if |dirs| > 0 {
      var front := dirs[..|dirs| - 1];
      var d := dirs[|dirs| - 1];
      MatchesAtCountsWords(g, x, y, front);
      CheckNextCharMeansWord(g, x, y, d.0, d.1);
      WordDirectionsSnoc(g, x, y, front, d);
      assert front + [d] == dirs;
    }
  }

  lemma {:induction false} WordDirectionsSnoc(g: Rows, x: int, y: int, dirs: seq<(int, int)>, d: (int, int))
    ensures WordDirections(g, x, y, dirs + [d])
         == WordDirections(g, x, y, dirs) + (if WordAt(g, x, y, d.0, d.1) then 1 else 0)
  {
    if |dirs| > 0 {
      assert (dirs + [d])[1..] == dirs[1..] + [d];
      WordDirectionsSnoc(g, x, y, dirs[1..], d);
    } else {
      assert (dirs + [d])[1..] == [];
    }
  }

  /** A word can only start on an 'X'. */
  lemma {:induction false} NoWordOffX(g: Rows, x: nat, y: nat, dirs: seq<(int, int)>)
    requires x < |g| && y < |g[x]| && g[x][y] != 'X'
    ensures WordDirections(g, x, y, dirs) == 0
  {
    if |dirs| > 0 {
      NoWordOffX(g, x, y, dirs[1..]);
    }
  }

  lemma {:induction false} RowMatchesCountWords(g: Rows, x: nat, cols: nat)
    requires Rectangular(g) && x < |g| && cols <= |g[x]|
    ensures RowMatches(g, x, cols, false) == WordsFrom(g, Directions, RowCells(g, x, cols, {'X'}))
  {
    if cols > 0 {
      RowMatchesCountWords(g, x, cols - 1);
      RowMatchesStep(g, x, cols);
      RowWordsStep(g, Directions, x, cols);
    }
  }

  lemma RowMatchesStep(g: Rows, x: nat, cols: nat)
    requires Rectangular(g) && x < |g| && 0 < cols <= |g[x]|
    ensures RowMatches(g, x, cols, false)
         == RowMatches(g, x, cols - 1, false) + WordDirections(g, x, cols - 1, Directions)
  {
    MatchesAtCountsWords(g, x, cols - 1, Directions);
  }

  /** One more cell of the row adds the words starting there. */
  lemma RowWordsStep(g: Rows, dirs: seq<(int, int)>, x: nat, cols: nat)
    requires x < |g| && 0 < cols <= |g[x]|
    ensures WordsFrom(g, dirs, RowCells(g, x, cols, {'X'}))
         == WordsFrom(g, dirs, RowCells(g, x, cols - 1, {'X'})) + WordDirections(g, x, cols - 1, dirs)
  {
    var prev := RowCells(g, x, cols - 1, {'X'});
    if g[x][cols - 1] == 'X' {
      assert RowCells(g, x, cols, {'X'}) == prev + [(x, cols - 1)];
      WordsFromSnoc(g, dirs, prev, (x, cols - 1));
    } else {
      NoWordOffX(g, x, cols - 1, dirs);
      assert RowCells(g, x, cols, {'X'}) == prev;
    }
  }

  lemma {:induction false} UnscreenedRowsCountWords(g: Rows, rows: nat)
    requires Rectangular(g) && rows <= |g|
    ensures UnscreenedRows(g, rows) == WordsFrom(g, Directions, CellsBelow(g, rows, {'X'}))
  {
    if rows > 0 {
      UnscreenedRowsCountWords(g, rows - 1);
      RowMatchesCountWords(g, rows - 1, |g[rows - 1]|);
      WordsBelowStep(g, rows);
    }
  }

  /** One more row adds the words starting on that row's 'X' cells. */
  lemma WordsBelowStep(g: Rows, rows: nat)
    requires 0 < rows <= |g|
    ensures WordsFrom(g, Directions, CellsBelow(g, rows, {'X'}))
         == WordsFrom(g, Directions, CellsBelow(g, rows - 1, {'X'}))
            + WordsFrom(g, Directions, RowCells(g, rows - 1, |g[rows - 1]|, {'X'}))
  {
    CellsBelowStep(g, rows, {'X'});
    WordsFromAppend(g, Directions, CellsBelow(g, rows - 1, {'X'}), RowCells(g, rows - 1, |g[rows - 1]|, {'X'}));
  }

  lemma {:induction false} ScreeningIsHarmless(g: Rows, x: nat, y: nat, dirs: seq<(int, int)>)
    requires Rectangular(g)
    ensures MatchesAt(g, x, y, dirs, true) == MatchesAt(g, x, y, dirs, false)
  {
    if |dirs| > 0 {
      ScreeningIsHarmless(g, x, y, dirs[..|dirs| - 1]);
      var d := dirs[|dirs| - 1];
      if CheckNextChar(g, 0, x, y, d.0, d.1) {
        CheckImpliesFit(g, x, y, d.0, d.1);
      }
    }
  }

  lemma {:induction false} RowScreeningIsHarmless(g: Rows, x: nat, cols: nat)
    requires Rectangular(g)
    ensures RowMatches(g, x, cols, true) == RowMatches(g, x, cols, false)
  {
    if cols > 0 {
      RowScreeningIsHarmless(g, x, cols - 1);
      ScreeningIsHarmless(g, x, cols - 1, Directions);
    }
  }

  /** On a rectangular grid the optimised and the unoptimised search find
      the same number of words over the first `rows` rows. */
  lemma {:induction false} OptimisedCountAgrees(g: Rows, rows: nat)
    requires Rectangular(g) && rows <= |g|
    ensures ScreenedRows(g, rows) == UnscreenedRows(g, rows)
  {
    if rows > 0 {
      OptimisedCountAgrees(g, rows - 1);
      assert |g[rows - 1]| == Width(g);
      RowScreeningIsHarmless(g, rows - 1, Width(g));
    }
  }

  lemma CountsAgree(g: Rows)
    requires Rectangular(g) && |g| > 0
    ensures CheckAllDirectionsOptimised(g) == CheckAllDirections(g)
    ensures CheckAllDirections(g) <= 8 * |g| * |g[0]|
  {
    var cells := CellsOf(g, {'X'});
    WordsFromBound(g, Directions, cells);
    CellsOfCount(g, 'X');
    CountCharBound(g, 'X');
    AreaRectangular(g);
    MulEight(|g|, |g[0]|, Area(g));
  }

  lemma MulEight(a: nat, b: nat, c: nat)
    requires c == a * b
    ensures 8 * a * b == 8 * c
  {
  }

  /** At most eight words start at each listed cell. */
  lemma {:induction false} WordsFromBound(g: Rows, dirs: seq<(int, int)>, cells: seq<(nat, nat)>)
    ensures WordsFrom(g, dirs, cells) <= |dirs| * |cells|
  {
    if |cells| > 0 {
      WordsFromBound(g, dirs, cells[..|cells| - 1]);
    }
  }

  // ---------------------------------------------------------------------
  // X-shaped MAS

  /** An X of two "MAS" diagonals anchored at (x, y): the second 'M' two
      steps along `u`, the two 'S' two steps along `v` from each 'M', the
      'A' in the middle. The anchor's own 'M' is checked by the caller. */
  predicate CrossAt(g: Rows, x: int, y: int, ux: int, uy: int, vx: int, vy: int) {
    && LetterAt(g, x + 2 * ux, y + 2 * uy, 'M')
    && LetterAt(g, x + 2 * vx, y + 2 * vy, 'S')
    && LetterAt(g, x + 2 * ux + 2 * vx, y + 2 * uy + 2 * vy, 'S')
    && LetterAt(g, x + ux + vx, y + uy + vy, 'A')
  }

  /** The four orientations tried by `check_cross_mas`, as (u, v) pairs:
      up, down, right, left. */
  const Orientations: seq<(int, int, int, int)> :=
    [(0, 1, -1, 0), (0, 1, 1, 0), (1, 0, 0, 1), (1, 0, 0, -1)]

  predicate Cell(g: Rows, x: nat, y: nat) {
    Rectangular(g) && x < |g| && y < |g[x]|
  }

  /** `check_y_left`: second 'M' below, crossing to the left. */
  function CheckYLeft(g: Rows, x: nat, y: nat): (r: bool)
    requires Cell(g, x, y)
    ensures r <==> CrossAt(g, x, y, 1, 0, 0, -1)
  {
    if x + 2 >= |g| || y - 2 < 0 then false
    else
      assert |g[x + 2]| == |g[x + 1]| == |g[x]|;
      g[x + 2][y] == 'M' && g[x][y - 2] == 'S' && g[x + 2][y - 2] == 'S' && g[x + 1][y - 1] == 'A'
  }

  /** `check_y_right`: second 'M' below, crossing to the right. */
  function CheckYRight(g: Rows, x: nat, y: nat): (r: bool)
    requires Cell(g, x, y)
    ensures r <==> CrossAt(g, x, y, 1, 0, 0, 1)
  {
    if x + 2 >= |g| || y + 2 >= |g[x]| then false
    else
      assert |g[x + 2]| == |g[x + 1]| == |g[x]| == |g[0]|;
      g[x + 2][y] == 'M' && g[x][y + 2] == 'S' && g[x + 2][y + 2] == 'S' && g[x + 1][y + 1] == 'A'
  }

  /** `check_x_up`: second 'M' to the right, crossing upwards. */
  function CheckXUp(g: Rows, x: nat, y: nat): (r: bool)
    requires Cell(g, x, y)
    ensures r <==> CrossAt(g, x, y, 0, 1, -1, 0)
  {
    if x - 2 < 0 || y + 2 >= |g[x]| then false
    else
      assert |g[x - 2]| == |g[x - 1]| == |g[x]| == |g[0]|;
      g[x][y + 2] == 'M' && g[x - 2][y] == 'S' && g[x - 2][y + 2] == 'S' && g[x - 1][y + 1] == 'A'
  }

  /** `check_x_down`: second 'M' to the right, crossing downwards. */
  function CheckXDown(g: Rows, x: nat, y: nat): (r: bool)
    requires Cell(g, x, y)
    ensures r <==> CrossAt(g, x, y, 0, 1, 1, 0)
  {
    if x + 2 >= |g| || y + 2 >= |g[x]| then false
    else
      assert |g[x + 2]| == |g[x + 1]| == |g[x]| == |g[0]|;
      g[x][y + 2] == 'M' && g[x + 2][y] == 'S' && g[x + 2][y + 2] == 'S' && g[x + 1][y + 1] == 'A'
  }

  /** Number of orientations among `os` that form a cross at (x, y). */
  function CrossCount(g: Rows, x: int, y: int, os: seq<(int, int, int, int)>): (n: nat)
    ensures n <= |os|
  {
    if |os| == 0 then 0
    else
      (if CrossAt(g, x, y, os[0].0, os[0].1, os[0].2, os[0].3) then 1 else 0)
      + CrossCount(g, x, y, os[1..])
  }

  /** `check_cross_mas`: how many of the four orientations complete a cross
      at (x, y), between 0 and 4. */
  function CheckCrossMas(g: Rows, x: nat, y: nat): (n: nat)
    requires Cell(g, x, y)
    ensures n <= 4
    ensures n == CrossCount(g, x, y, Orientations)
  {
    var os := Orientations;
    assert os[1..] == [(0, 1, 1, 0), (1, 0, 0, 1), (1, 0, 0, -1)];
    assert os[1..][1..] == [(1, 0, 0, 1), (1, 0, 0, -1)];
    assert os[1..][1..][1..] == [(1, 0, 0, -1)];
    assert os[1..][1..][1..][1..] == [];
    assert CrossCount(g, x, y, os[1..][1..][1..])
        == if CrossAt(g, x, y, 1, 0, 0, -1) then 1 else 0;
    assert CrossCount(g, x, y, os[1..][1..])
        == (if CrossAt(g, x, y, 1, 0, 0, 1) then 1 else 0) + CrossCount(g, x, y, os[1..][1..][1..]);
    assert CrossCount(g, x, y, os[1..])
        == (if CrossAt(g, x, y, 0, 1, 1, 0) then 1 else 0) + CrossCount(g, x, y, os[1..][1..]);
    (if CheckXUp(g, x, y) then 1 else 0)
    + (if CheckXDown(g, x, y) then 1 else 0)
    + (if CheckYRight(g, x, y) then 1 else 0)
    + (if CheckYLeft(g, x, y) then 1 else 0)
  }

  /** Crosses anchored on the first `cols` cells of row `x`, 'M' cells only. */
  function CrossRow(g: Rows, x: nat, cols: nat): (n: nat)
    requires Rectangular(g) && x < |g| && cols <= |g[x]|
    ensures n <= 4 * cols
  {
    if cols == 0 then 0
    else
      CrossRow(g, x, cols - 1)
      + (if g[x][cols - 1] != 'M' then 0 else CheckCrossMas(g, x, cols - 1))
  }

  /** Crosses anchored at the listed cells, all four orientations each. */
  function CrossesFrom(g: Rows, cells: seq<(nat, nat)>): nat {
    if |cells| == 0 then 0
    else
      var c := cells[|cells| - 1];
      CrossesFrom(g, cells[..|cells| - 1]) + CrossCount(g, c.0, c.1, Orientations)
  }

  lemma CrossesFromSnoc(g: Rows, cells: seq<(nat, nat)>, c: (nat, nat))
    ensures CrossesFrom(g, cells + [c]) == CrossesFrom(g, cells) + CrossCount(g, c.0, c.1, Orientations)
  {
    assert (cells + [c])[..|cells|] == cells;
  }

  lemma {:induction false} CrossesFromAppend(g: Rows, a: seq<(nat, nat)>, b: seq<(nat, nat)>)
    ensures CrossesFrom(g, a + b) == CrossesFrom(g, a) + CrossesFrom(g, b)
  {
    if |b| > 0 {
      var b' := b[..|b| - 1];
      assert (a + b)[..|a + b| - 1] == a + b';
      CrossesFromAppend(g, a, b');
    } else {
      assert a + b == a;
    }
  }

  lemma {:induction false} CrossRowCountsCrosses(g: Rows, x: nat, cols: nat)
    requires Rectangular(g) && x < |g| && cols <= |g[x]|
    ensures CrossRow(g, x, cols) == CrossesFrom(g, RowCells(g, x, cols, {'M'}))
  {
    if cols > 0 {
      CrossRowCountsCrosses(g, x, cols - 1);
      CrossRowStep(g, x, cols);
    }
  }

  /** One more cell of the row adds its crosses to both sides. */
  lemma CrossRowStep(g: Rows, x: nat, cols: nat)
    requires Rectangular(g) && x < |g| && 0 < cols <= |g[x]|
    ensures CrossRow(g, x, cols) - CrossRow(g, x, cols - 1)
         == CrossesFrom(g, RowCells(g, x, cols, {'M'})) - CrossesFrom(g, RowCells(g, x, cols - 1, {'M'}))
  {
    RowCrossesStep(g, x, cols);
  }

  /** One more cell of the row adds the crosses anchored there when it
      holds an 'M', and nothing otherwise. */
  lemma RowCrossesStep(g: Rows, x: nat, cols: nat)
    requires x < |g| && 0 < cols <= |g[x]|
    ensures CrossesFrom(g, RowCells(g, x, cols, {'M'}))
         == CrossesFrom(g, RowCells(g, x, cols - 1, {'M'}))
            + (if g[x][cols - 1] == 'M' then CrossCount(g, x, cols - 1, Orientations) else 0)
  {
    var prev := RowCells(g, x, cols - 1, {'M'});
    if g[x][cols - 1] == 'M' {
      assert RowCells(g, x, cols, {'M'}) == prev + [(x, cols - 1)];
      CrossesFromSnoc(g, prev, (x, cols - 1));
    } else {
      assert RowCells(g, x, cols, {'M'}) == prev;
    }
  }

  lemma {:induction false} CrossRowsCountCrosses(g: Rows, rows: nat)
    requires Rectangular(g) && rows <= |g|
    ensures CrossRows(g, rows) == CrossesFrom(g, CellsBelow(g, rows, {'M'}))
  {
    if rows > 0 {
      CrossRowsCountCrosses(g, rows - 1);
      CrossRowCountsCrosses(g, rows - 1, |g[rows - 1]|);
      CrossesBelowStep(g, rows);
    }
  }

  /** One more row adds the crosses anchored on that row's 'M' cells. */
  lemma CrossesBelowStep(g: Rows, rows: nat)
    requires 0 < rows <= |g|
    ensures CrossesFrom(g, CellsBelow(g, rows, {'M'}))
         == CrossesFrom(g, CellsBelow(g, rows - 1, {'M'})) + CrossesFrom(g, RowCells(g, rows - 1, |g[rows - 1]|, {'M'}))
  {
    CellsBelowStep(g, rows, {'M'});
    CrossesFromAppend(g, CellsBelow(g, rows - 1, {'M'}), RowCells(g, rows - 1, |g[rows - 1]|, {'M'}));
  }

  /** At most four crosses per listed cell. */
  lemma {:induction false} CrossesFromBound(g: Rows, cells: seq<(nat, nat)>)
    ensures CrossesFrom(g, cells) <= 4 * |cells|
  {
    if |cells| > 0 {
      CrossesFromBound(g, cells[..|cells| - 1]);
    }
  }

  function CrossRows(g: Rows, rows: nat): nat
    requires Rectangular(g) && rows <= |g|
  {
    if rows == 0 then 0
    else
      assert |g[rows - 1]| == Width(g);
      CrossRows(g, rows - 1) + CrossRow(g, rows - 1, |g[rows - 1]|)
  }

  /** `get_cross_mas`: the number of orientations completing a cross,
      summed over every 'M' of the grid and no other cell. */
  function GetCrossMas(g: Rows): (n: nat)
    requires Rectangular(g)
    ensures n == CrossesFrom(g, CellsOf(g, {'M'}))
    ensures n <= 4 * Area(g)
  {
    CrossRowsCountCrosses(g, |g|);
    CellsOfBelow(g, {'M'});
    CrossesFromBound(g, CellsOf(g, {'M'}));
    CellsOfCount(g, 'M');
    CountCharBound(g, 'M');
    CrossRows(g, |g|)
  }

  // ---------------------------------------------------------------------
  // The unit tests of the source, restated as lemmas.

  /** `test_get_cross_mas`: one cross on the 3x3 fixture. */
  lemma CrossMasFixtureThreeByThree()
    ensures Rectangular(["MAM", "AAA", "SAS"])
    ensures GetCrossMas(["MAM", "AAA", "SAS"]) == 1
  {
    var g: Rows := ["MAM", "AAA", "SAS"];
    assert CheckCrossMas(g, 0, 0) == 1;
    assert CheckCrossMas(g, 0, 2) == 0;
    assert CrossRow(g, 0, 3) == 1;
    assert CrossRow(g, 1, 3) == 0;
    assert CrossRow(g, 2, 3) == 0;
    assert CrossRows(g, 2) == 1;
  }

  /** `test_get_cross_mas_2`: two crosses on the 3x4 fixture. */
  lemma CrossMasFixtureThreeByFour()
    ensures Rectangular(["MMMM", ".AA.", "SSSS"])
    ensures GetCrossMas(["MMMM", ".AA.", "SSSS"]) == 2
  {
    var g: Rows := ["MMMM", ".AA.", "SSSS"];
    assert CheckCrossMas(g, 0, 0) == 1;
    assert CheckCrossMas(g, 0, 1) == 1;
    assert CheckCrossMas(g, 0, 2) == 0;
    assert CheckCrossMas(g, 0, 3) == 0;
    assert CrossRow(g, 0, 2) == 2;
    assert CrossRow(g, 0, 4) == 2;
    assert CrossRow(g, 1, 4) == 0;
    assert CrossRow(g, 2, 4) == 0;
    assert CrossRows(g, 2) == 2;
  }

  /** `test_get_cross_mas_4`: four crosses on the 5x4 fixture, two opening
      downwards from the top row and two upwards from the bottom row. */
  lemma CrossMasFixtureFiveByFour()
    ensures Rectangular(["MMMM", ".AA.", "SSSS", ".AA.", "MMMM"])
    ensures GetCrossMas(["MMMM", ".AA.", "SSSS", ".AA.", "MMMM"]) == 4
  {
    var g: Rows := ["MMMM", ".AA.", "SSSS", ".AA.", "MMMM"];
    assert CheckCrossMas(g, 0, 0) == 1;
    assert CheckCrossMas(g, 0, 1) == 1;
    assert CheckCrossMas(g, 0, 2) == 0;
    assert CheckCrossMas(g, 0, 3) == 0;
    assert CheckCrossMas(g, 4, 0) == 1;
    assert CheckCrossMas(g, 4, 1) == 1;
    assert CheckCrossMas(g, 4, 2) == 0;
    assert CheckCrossMas(g, 4, 3) == 0;
    assert CrossRow(g, 0, 2) == 2;
    assert CrossRow(g, 0, 4) == 2;
    assert CrossRow(g, 1, 4) == 0;
    assert CrossRow(g, 2, 4) == 0;
    assert CrossRow(g, 3, 4) == 0;
    assert CrossRow(g, 4, 2) == 2;
    assert CrossRow(g, 4, 4) == 2;
    assert CrossRows(g, 2) == 2;
    assert CrossRows(g, 4) == 2;
  }

  /** `test_check_cross_mas_nothing` and `test_check_cross_mas_up`. */
  lemma CheckCrossMasFixtures()
    ensures Cell(["MAS", "AAA", "SAS"], 1, 0) && CheckCrossMas(["MAS", "AAA", "SAS"], 1, 0) == 0
    ensures Cell(["SAS", "AAA", "MAM"], 2, 0) && CheckCrossMas(["SAS", "AAA", "MAM"], 2, 0) == 1
  {
  }

  /** The true/false fixtures of the four orientation tests. */
  lemma OrientationFixtures()
    ensures Cell(["M.M", ".A.", "S.S"], 0, 0) && CheckXDown(["M.M", ".A.", "S.S"], 0, 0)
    ensures Cell(["M.S", ".A.", "S.S"], 0, 0) && !CheckXDown(["M.S", ".A.", "S.S"], 0, 0)
    ensures Cell(["S.S", ".A.", "M.M"], 2, 0) && CheckXUp(["S.S", ".A.", "M.M"], 2, 0)
    ensures Cell(["S.M", ".A.", "M.M"], 2, 0) && !CheckXUp(["S.M", ".A.", "M.M"], 2, 0)
    ensures Cell(["S.M", ".A.", "S.M"], 0, 2) && CheckYLeft(["S.M", ".A.", "S.M"], 0, 2)
    ensures Cell(["S.M", ".A.", "S.S"], 0, 2) && !CheckYLeft(["S.M", ".A.", "S.S"], 0, 2)
    ensures Cell(["M.S", ".A.", "M.S"], 0, 0) && CheckYRight(["M.S", ".A.", "M.S"], 0, 0)
    ensures Cell(["M.S", ".A.", "S.S"], 0, 0) && !CheckYRight(["M.S", ".A.", "S.S"], 0, 0)
  {
  }
}
