/** Day 12: garden plots. A grid of letters is split into areas of equal,
    orthogonally connected letters by a machine that does one small step at
    a time (scan a cell, grow the current area by a cell, inspect one side
    of one cell for a fence), and each area scores its size times its
    number of fences. Colours, timing and drawing are not part of this
    model. */
module GardenFences {
  import opened Wrappers
  import opened Ints
  import opened Grids
  import opened Seqs

  /** A cell as (row, column); the program uses signed coordinates so that
      a step off the top or left edge can be represented. */
  type Pos = (int, int)

  datatype Direction = North | East | South | West

  /** A fence on side `.2` of cell (`.0`, `.1`). */
  type Fence = (int, int, Direction)

  /** `LetterArea` without its colour. */
  datatype LetterArea = LetterArea(
    letter: char,
    groupId: nat,
    coords: seq<Pos>,
    visited: bool,
    fences: seq<Fence>)

  /** `GridState`: the areas found so far and the bookkeeping of the
      current flood fill or fence walk. */
  datatype GridState = GridState(
    areas: seq<LetterArea>,
    currentArea: Option<nat>,
    stepCount: nat,
    nextGroupId: nat,
    fencePos: Option<Pos>,
    fenceDir: Option<Direction>,
    totalScore: nat)

  datatype Phase = Scanning | FloodFilling | Fencing | Complete

  /** The part of `MyApp` the steps read and write: the grid, the state,
      the scan position and the phase. */
  datatype App = App(grid: Rows, state: GridState, row: int, col: int, phase: Phase)

  // ---------------------------------------------------------------------
  // Directions and neighbours

  /** The row and column change of one step towards `d`. */
  function Offset(d: Direction): (int, int) {
    match d
    case North => (-1, 0)
    case East => (0, 1)
    case South => (1, 0)
    case West => (0, -1)
  }

  /** The cell next to `p` towards `d`. */
  function Step(p: Pos, d: Direction): Pos {
    (p.0 + Offset(d).0, p.1 + Offset(d).1)
  }

  /** The side inspected after `d` while fencing a cell: a quarter turn
      clockwise, so North, East, South, West and round again. */
  function NextDirection(d: Direction): (r: Direction)
    ensures Offset(r) == (Offset(d).1, -Offset(d).0)
  {
    match d
    case North => East
    case East => South
    case South => West
    case West => North
  }

  /** Four quarter turns come back to the start, and no fewer do. */
  lemma NextDirectionCycle(d: Direction)
    ensures NextDirection(NextDirection(NextDirection(NextDirection(d)))) == d
    ensures NextDirection(d) != d && NextDirection(NextDirection(d)) != d
    ensures NextDirection(NextDirection(NextDirection(d))) != d
  {
  }

  /** Row and column distance 1 and 0, or 0 and 1. */
  predicate Orthogonal(a: Pos, b: Pos) {
    var dr := Abs(a.0 - b.0);
    var dc := Abs(a.1 - b.1);
    (dr == 1 && dc == 0) || (dr == 0 && dc == 1)
  }

  /** Orthogonal neighbours are exactly the cells one step away. */
  lemma OrthogonalIsStep(a: Pos, b: Pos)
    ensures Orthogonal(a, b) <==> exists d :: Step(a, d) == b
  {
    if Orthogonal(a, b) {
      if b.0 == a.0 - 1 {
        assert Step(a, North) == b;
      } else if b.0 == a.0 + 1 {
        assert Step(a, South) == b;
      } else if b.1 == a.1 + 1 {
        assert Step(a, East) == b;
      } else {
        assert Step(a, West) == b;
      }
    }
  }

  /** `is_adjacent_to_area`: some coordinate of the area is an orthogonal
      neighbour of `pos`. */
  function IsAdjacentToArea(coords: seq<Pos>, pos: Pos): (r: bool)
    ensures r <==> exists i :: 0 <= i < |coords| && Orthogonal(coords[i], pos)
  {
    if |coords| == 0 then false
    else
      assert forall i :: 1 <= i < |coords| ==> coords[i] == coords[1..][i - 1];
      Orthogonal(coords[0], pos) || IsAdjacentToArea(coords[1..], pos)
  }

  /** `pos` is adjacent to an area exactly when it is one step away from
      one of its cells. */
  lemma AdjacentIsStep(coords: seq<Pos>, pos: Pos)
    ensures IsAdjacentToArea(coords, pos) <==>
              exists i, d :: 0 <= i < |coords| && Step(coords[i], d) == pos
  {
    forall i | 0 <= i < |coords|
      ensures Orthogonal(coords[i], pos) <==> exists d :: Step(coords[i], d) == pos
    {
      OrthogonalIsStep(coords[i], pos);
    }
  }

  /** Some area holds `pos` (the `any` in `needs_fence`). */
  function InSomeArea(areas: seq<LetterArea>, pos: Pos): (r: bool)
    ensures r <==> exists i :: 0 <= i < |areas| && pos in areas[i].coords
  {
    if |areas| == 0 then false
    else
      assert forall i :: 1 <= i < |areas| ==> areas[i] == areas[1..][i - 1];
      pos in areas[0].coords || InSomeArea(areas[1..], pos)
  }

  /** `is_adjacent_to_other_group`: an area with another group id holds
      `pos` (despite the name, `pos` itself, not a neighbour). */
  function IsAdjacentToOtherGroup(areas: seq<LetterArea>, pos: Pos, group: nat): (r: bool)
    ensures r <==> exists i :: 0 <= i < |areas| && areas[i].groupId != group && pos in areas[i].coords
  {
    if |areas| == 0 then false
    else
      assert forall i :: 1 <= i < |areas| ==> areas[i] == areas[1..][i - 1];
      (areas[0].groupId != group && pos in areas[0].coords) || IsAdjacentToOtherGroup(areas[1..], pos, group)
  }

  // ---------------------------------------------------------------------
  // needs_fence

  /** `needs_fence`: side `dir` of cell `pos` of the area `coords` (group
      `group`) gets a fence. It never does for a cell outside the area; it
      always does at the edge of the grid; otherwise it does exactly when
      the cell beyond is outside the area and either in no area at all or
      in an area of another group. */
  function NeedsFence(grid: Rows, areas: seq<LetterArea>, pos: Pos, dir: Direction, coords: seq<Pos>, group: nat): (r: bool)
    ensures pos !in coords ==> !r
    ensures pos in coords && !InGrid(grid, Step(pos, dir).0, Step(pos, dir).1) ==> r
    ensures pos in coords && InGrid(grid, Step(pos, dir).0, Step(pos, dir).1) && Step(pos, dir) in coords ==> !r
    ensures pos in coords && InGrid(grid, Step(pos, dir).0, Step(pos, dir).1) && Step(pos, dir) !in coords ==>
              (r <==> (forall i :: 0 <= i < |areas| ==> Step(pos, dir) !in areas[i].coords)
                      || exists i :: 0 <= i < |areas| && areas[i].groupId != group && Step(pos, dir) in areas[i].coords)
  {
    var next := Step(pos, dir);
    if pos !in coords then false
    else if !InGrid(grid, next.0, next.1) then true
    else if next !in coords && !InSomeArea(areas, next) then true
    else if next !in coords && IsAdjacentToOtherGroup(areas, next, group) then true
    else false
  }

  /** No two areas share a group id. */
  predicate DistinctIds(areas: seq<LetterArea>) {
    forall i, j :: 0 <= i < j < |areas| ==> areas[i].groupId != areas[j].groupId
  }

  /** Every group id is below `next`, the id the next new area gets. */
  predicate IdsBelow(areas: seq<LetterArea>, next: nat) {
    forall i :: 0 <= i < |areas| ==> areas[i].groupId < next
  }

  /** Every coordinate lies inside the grid. */
  predicate CoordsInGrid(grid: Rows, coords: seq<Pos>) {
    forall i :: 0 <= i < |coords| ==> InGrid(grid, coords[i].0, coords[i].1)
  }

  /** For an area whose group id is its own and whose cells lie inside the
      grid, `needs_fence` is the usual perimeter test: the cell belongs to
      the area and the cell beyond the side does not. */
  lemma FenceOnBoundary(grid: Rows, areas: seq<LetterArea>, k: nat, pos: Pos, dir: Direction)
    requires k < |areas| && DistinctIds(areas)
    requires CoordsInGrid(grid, areas[k].coords)
    ensures NeedsFence(grid, areas, pos, dir, areas[k].coords, areas[k].groupId) <==>
              pos in areas[k].coords && Step(pos, dir) !in areas[k].coords
  {
    var coords := areas[k].coords;
    var next := Step(pos, dir);
    if pos in coords && !InGrid(grid, next.0, next.1) {
      assert next !in coords;
    }
    if pos in coords && InGrid(grid, next.0, next.1) && next !in coords && InSomeArea(areas, next) {
      var j :| 0 <= j < |areas| && next in areas[j].coords;
      assert j != k;
      assert areas[j].groupId != areas[k].groupId;
    }
  }

  // ---------------------------------------------------------------------
  // calculate_total_score

  /** `calculate_total_score`: size times fence count, summed over the
      areas. */
  function TotalScore(areas: seq<LetterArea>): nat {
    if |areas| == 0 then 0
    else |areas[0].coords| * |areas[0].fences| + TotalScore(areas[1..])
  }

  /** The score of one area. */
  function AreaScore(a: LetterArea): nat {
    |a.coords| * |a.fences|
  }

  /** Replacing one area changes the total by the difference of the two
      areas' scores. */
  lemma {:induction false} TotalScoreUpdate(areas: seq<LetterArea>, k: nat, a: LetterArea)
    requires k < |areas|
    ensures TotalScore(areas[k := a]) + AreaScore(areas[k]) == TotalScore(areas) + AreaScore(a)
  {
    if k > 0 {
      TotalScoreUpdate(areas[1..], k - 1, a);
      assert areas[k := a][1..] == areas[1..][k - 1 := a];
    } else {
      assert areas[k := a][1..] == areas[1..];
    }
  }

  /** A new area adds its own score. */
  lemma {:induction false} TotalScoreAppend(areas: seq<LetterArea>, a: LetterArea)
    ensures TotalScore(areas + [a]) == TotalScore(areas) + AreaScore(a)
  {
    if |areas| > 0 {
      TotalScoreAppend(areas[1..], a);
      assert (areas + [a])[1..] == areas[1..] + [a];
    }
  }

  /** While no area has a fence the score is 0, however large the areas. */
  lemma {:induction false} TotalScoreNoFences(areas: seq<LetterArea>)
    requires forall i :: 0 <= i < |areas| ==> areas[i].fences == []
    ensures TotalScore(areas) == 0
  {
    if |areas| > 0 {
      TotalScoreNoFences(areas[1..]);
    }
  }

  // ---------------------------------------------------------------------
  // advance_position

  /** The number of cells, as `grid.len()` times the first row's length. */
  function CellCount(grid: Rows): nat {
    |grid| * Width(grid)
  }

  /** The row-major index of the scan position. */
  function CellIndex(app: App): int {
    app.row * Width(app.grid) + app.col
  }

  /** `advance_position`: one column to the right, to the start of the next
      row past the last column, and back to (0, 0) past the last row, which
      also ends a scan. */
  function AdvancePosition(app: App): (r: App)
    requires |app.grid| > 0
    ensures r.grid == app.grid && r.state == app.state
  {
    var col := app.col + 1;
    if col >= |app.grid[0]| then
      var row := app.row + 1;
      if row >= |app.grid| then
        app.(row := 0, col := 0, phase := if app.phase == Scanning then Fencing else app.phase)
      else
        app.(row := row, col := 0)
    else
      app.(col := col)
  }

  /** From a cell inside the grid, the scan moves to the next cell in
      row-major order, wrapping from the last cell to the first; the phase
      changes only on that wrap, and only from scanning to fencing. */
  lemma AdvanceRowMajor(app: App)
    requires |app.grid| > 0 && InGrid(app.grid, app.row, app.col)
    ensures var r := AdvancePosition(app);
            && InGrid(r.grid, r.row, r.col)
            && CellIndex(r) == (CellIndex(app) + 1) % CellCount(app.grid)
            && r.phase == (if CellIndex(app) + 1 == CellCount(app.grid) && app.phase == Scanning then Fencing else app.phase)
  {
    var r := AdvancePosition(app);
    var w := Width(app.grid);
    var h := |app.grid|;
    var next := CellIndex(app) + 1;
    LastRowBound(app.row, app.col, w, h);
    if app.col + 1 < w {
      assert CellIndex(r) == next;
      SmallMod(next, h * w);
    } else if app.row + 1 < h {
      assert CellIndex(r) == (app.row + 1) * w;
      assert (app.row + 1) * w == next;
      SmallMod(next, h * w);
    } else {
      assert CellIndex(r) == 0;
      assert next == h * w;
      SmallMod(next, h * w);
    }
  }

  lemma SmallMod(x: int, n: int)
    requires 0 <= x < n || 0 < x == n
    ensures x % n == (if x == n then 0 else x)
  {
  }

  /** The index after (row, col) is at most the cell count, and reaches it
      only from the last cell. */
  lemma LastRowBound(row: int, col: int, w: int, h: int)
    requires 0 <= row < h && 0 <= col < w
    ensures row * w + col + 1 <= h * w
    ensures row * w + col + 1 == h * w <==> row + 1 == h && col + 1 == w
    ensures (row + 1) * w == row * w + w
  {
    assert row * w <= (h - 1) * w;
    assert (h - 1) * w + w == h * w;
    if row + 1 < h {
      assert (row + 1) * w <= (h - 1) * w;
    }
  }

  // ---------------------------------------------------------------------
  // Finding areas

  /** Index of the first area from `i` on that satisfies `p`, as
      `iter().find` does. */
  function FindArea(areas: seq<LetterArea>, p: LetterArea -> bool, i: nat): (r: Option<nat>)
    requires i <= |areas|
    ensures r.Some? ==> i <= r.value < |areas| && p(areas[r.value])
    ensures forall j :: i <= j < |areas| && (r.None? || j < r.value) ==> !p(areas[j])
    decreases |areas| - i
  {
    if i == |areas| then None
    else if p(areas[i]) then Some(i)
    else FindArea(areas, p, i + 1)
  }

  /** The area has group id `g`. */
  function ById(g: nat): LetterArea -> bool {
    (a: LetterArea) => a.groupId == g
  }

  /** The area has not been fenced yet. */
  function Unvisited(): LetterArea -> bool {
    (a: LetterArea) => !a.visited
  }

  /** With distinct ids, looking an area up by its id finds that area. */
  lemma FindById(areas: seq<LetterArea>, k: nat)
    requires k < |areas| && DistinctIds(areas)
    ensures FindArea(areas, ById(areas[k].groupId), 0) == Some(k)
  {
    assert ById(areas[k].groupId)(areas[k]);
  }

  // ---------------------------------------------------------------------
  // The state every step keeps

  lemma AppendNoDup<T>(s: seq<T>, x: T)
    requires NoDup(s) && x !in s
    ensures NoDup(s + [x])
  {
  }

  /** The fence `f` stands on the boundary of `coords`: its cell is in the
      area and the cell it faces is not. */
  predicate OnBoundary(coords: seq<Pos>, f: Fence) {
    (f.0, f.1) in coords && Step((f.0, f.1), f.2) !in coords
  }

  /** An area as the steps build it: at least one cell, no cell or fence
      twice, every cell inside the grid and every fence on the boundary. */
  predicate AreaOk(grid: Rows, a: LetterArea) {
    && |a.coords| > 0 && NoDup(a.coords) && NoDup(a.fences)
    && CoordsInGrid(grid, a.coords)
    && forall i :: 0 <= i < |a.fences| ==> OnBoundary(a.coords, a.fences[i])
  }

  /** What the steps need so that no index panics: a rectangular grid with
      a first row, the scan position inside it, and no empty area. */
  predicate Indexable(app: App) {
    && |app.grid| > 0 && Rectangular(app.grid)
    && InGrid(app.grid, app.row, app.col)
    && forall i :: 0 <= i < |app.state.areas| ==> |app.state.areas[i].coords| > 0
  }

  /** Every area is well built, ids are distinct and below the next one,
      nothing is fenced before fencing starts, every area is visited once
      the machine is complete, and the stored score is the score of the
      areas. */
  predicate Valid(app: App) {
    && Indexable(app)
    && (forall i :: 0 <= i < |app.state.areas| ==> AreaOk(app.grid, app.state.areas[i]))
    && DistinctIds(app.state.areas) && IdsBelow(app.state.areas, app.state.nextGroupId)
    && (app.phase.Scanning? || app.phase.FloodFilling? ==>
          forall i :: 0 <= i < |app.state.areas| ==> app.state.areas[i].fences == [])
    && (app.phase.Complete? ==> forall i :: 0 <= i < |app.state.areas| ==> app.state.areas[i].visited)
    && app.state.totalScore == TotalScore(app.state.areas)
  }

  // ---------------------------------------------------------------------
  // Scanning

  /** `is_alphabetic`, for ASCII letters. */
  predicate IsAlphabetic(c: char) {
    'a' <= c <= 'z' || 'A' <= c <= 'Z'
  }

  /** The area holds letter `ch` and lies next to `pos`. */
  predicate Attaches(a: LetterArea, ch: char, pos: Pos) {
    a.letter == ch && IsAdjacentToArea(a.coords, pos)
  }

  function AttachesTo(ch: char, pos: Pos): LetterArea -> bool {
    (a: LetterArea) => Attaches(a, ch, pos)
  }

  /** `coords` with `pos` pushed unless it is there already. */
  function Extend(coords: seq<Pos>, pos: Pos): seq<Pos> {
    if pos in coords then coords else coords + [pos]
  }

  /** Adds `pos` to the first area with group id `g`. */
  function JoinArea(st: GridState, g: nat, pos: Pos): GridState {
    match FindArea(st.areas, ById(g), 0)
    case None => st
    case Some(k) =>
      var a := st.areas[k];
      st.(areas := st.areas[k := a.(coords := Extend(a.coords, pos))])
  }

  /** A fresh one-cell area for `pos`, with the next group id. */
  function NewArea(st: GridState, ch: char, pos: Pos): LetterArea {
    LetterArea(ch, st.nextGroupId, [pos], false, [])
  }

  /** The scanning step before the position moves on: a letter cell joins
      the first area of its letter next to it, or else starts a new area
      and a flood fill from it; any other cell changes nothing. */
  function Mark(app: App): (r: App)
    requires |app.grid| > 0 && Rectangular(app.grid) && InGrid(app.grid, app.row, app.col)
    ensures r.grid == app.grid && r.row == app.row && r.col == app.col
  {
    var pos := (app.row, app.col);
    var ch := app.grid[app.row][app.col];
    var st := app.state;
    if !IsAlphabetic(ch) then app
    else
      match FindArea(st.areas, AttachesTo(ch, pos), 0)
      case Some(i) => app.(state := JoinArea(st, st.areas[i].groupId, pos))
      case None =>
        var g := st.nextGroupId;
        app.(state := st.(areas := st.areas + [NewArea(st, ch, pos)], nextGroupId := g + 1, currentArea := Some(g)),
             phase := FloodFilling)
  }

  /** The scanning arm of `process_next_step`. */
  function Scan(app: App): (r: App)
    requires |app.grid| > 0 && Rectangular(app.grid) && InGrid(app.grid, app.row, app.col)
    ensures r.grid == app.grid
  {
    AdvancePosition(Mark(app))
  }

  /** A letter cell goes to the first area of its letter next to it, and
      to no other area; with no such area it starts a new one and the
      machine starts flood filling it. Either way the cell ends up in an
      area; a cell that is not a letter changes nothing. */
  lemma MarkAttaches(app: App)
    requires Valid(app)
    ensures var pos := (app.row, app.col);
            var ch := app.grid[app.row][app.col];
            var areas := app.state.areas;
            var r := Mark(app);
            && (!IsAlphabetic(ch) ==> r == app)
            && (IsAlphabetic(ch) ==> InSomeArea(r.state.areas, pos))
            && (forall i :: (0 <= i < |areas| && IsAlphabetic(ch) && Attaches(areas[i], ch, pos)
                                && forall j :: 0 <= j < i ==> !Attaches(areas[j], ch, pos)) ==>
                  r.state == app.state.(areas := areas[i := areas[i].(coords := Extend(areas[i].coords, pos))])
                  && r.phase == app.phase)
            && (IsAlphabetic(ch) && (forall i :: 0 <= i < |areas| ==> !Attaches(areas[i], ch, pos)) ==>
                  && r.state.areas == areas + [LetterArea(ch, app.state.nextGroupId, [pos], false, [])]
                  && r.state.currentArea == Some(app.state.nextGroupId)
                  && r.state.nextGroupId == app.state.nextGroupId + 1
                  && r.phase == FloodFilling)
  {
    var pos := (app.row, app.col);
    var ch := app.grid[app.row][app.col];
    var st := app.state;
    if IsAlphabetic(ch) {
      match FindArea(st.areas, AttachesTo(ch, pos), 0)
      case Some(i) =>
        FindById(st.areas, i);
        var r := Mark(app);
        assert r.state.areas[i].coords == Extend(st.areas[i].coords, pos);
        assert pos in r.state.areas[i].coords;
        forall i' | 0 <= i' < |st.areas| && Attaches(st.areas[i'], ch, pos)
            && (forall j :: 0 <= j < i' ==> !Attaches(st.areas[j], ch, pos))
          ensures i' == i
        {
          assert AttachesTo(ch, pos)(st.areas[i']);
          assert Attaches(st.areas[i], ch, pos);
        }
      case None =>
        var r := Mark(app);
        assert r.state.areas[|st.areas|].coords == [pos];
        forall i | 0 <= i < |st.areas|
          ensures !Attaches(st.areas[i], ch, pos)
        {
          assert !AttachesTo(ch, pos)(st.areas[i]);
        }
    }
  }

  // ---------------------------------------------------------------------
  // Flood filling

  /** The order the flood fill tries the neighbours of a cell in. */
  const FloodOrder: seq<Direction> := [East, South, West, North]

  /** `n` holds the letter `ch` and is not yet one of `coords`. */
  predicate Joins(grid: Rows, coords: seq<Pos>, ch: char, n: Pos) {
    LetterAt(grid, n.0, n.1, ch) && n !in coords
  }

  /** The area is closed: no neighbour of its cells holds its letter
      without belonging to it. */
  predicate Closed(grid: Rows, a: LetterArea) {
    forall i, d :: 0 <= i < |a.coords| ==> !Joins(grid, a.coords, a.letter, Step(a.coords[i], d))
  }

  lemma StepIsOrthogonal(p: Pos, d: Direction)
    ensures Orthogonal(p, Step(p, d))
  {
  }

  /** The first of the sides `ds` of `p` whose neighbour joins the area. */
  function FirstJoinerAt(grid: Rows, coords: seq<Pos>, ch: char, p: Pos, ds: seq<Direction>): (r: Option<Pos>)
    ensures r.Some? ==> Joins(grid, coords, ch, r.value) && Orthogonal(p, r.value)
    ensures r.None? <==> forall d :: d in ds ==> !Joins(grid, coords, ch, Step(p, d))
  {
    if |ds| == 0 then None
    else
      var n := Step(p, ds[0]);
      StepIsOrthogonal(p, ds[0]);
      if Joins(grid, coords, ch, n) then Some(n)
      else FirstJoinerAt(grid, coords, ch, p, ds[1..])
  }

  /** The first neighbour, in the order of the two nested loops of the
      flood fill (cells of `ps`, then sides in `FloodOrder`), that holds
      `ch` and is not yet in `coords`. */
  function FirstJoiner(grid: Rows, coords: seq<Pos>, ch: char, ps: seq<Pos>): (r: Option<Pos>)
    ensures r.Some? ==> Joins(grid, coords, ch, r.value) && IsAdjacentToArea(ps, r.value)
    ensures r.None? <==> forall i, d :: 0 <= i < |ps| ==> !Joins(grid, coords, ch, Step(ps[i], d))
  {
    if |ps| == 0 then None
    else
      forall d
        ensures d in FloodOrder
      {
        assert FloodOrder[(SideIndex(d) + 3) % 4] == d;
      }
      assert forall i :: 1 <= i < |ps| ==> ps[i] == ps[1..][i - 1];
      match FirstJoinerAt(grid, coords, ch, ps[0], FloodOrder)
      case Some(n) => Some(n)
      case None => FirstJoiner(grid, coords, ch, ps[1..])
  }

  /** Flood filling ends: back to scanning, with no current area. */
  function StopFlood(app: App): App {
    app.(phase := Scanning, state := app.state.(currentArea := None))
  }

  /** The flood-filling arm of `process_next_step`: the current area grows
      by the first new neighbour found, or, when there is none, flood
      filling stops. */
  function FloodStep(app: App): (r: App)
    ensures r.grid == app.grid && r.row == app.row && r.col == app.col
    ensures app.state.currentArea.None? ==> r == app
  {
    var st := app.state;
    match st.currentArea
    case None => app
    case Some(g) =>
      match FindArea(st.areas, ById(g), 0)
      case None => StopFlood(app)
      case Some(k) =>
        var a := st.areas[k];
        match FirstJoiner(app.grid, a.coords, a.letter, a.coords)
        case Some(n) => app.(state := st.(areas := st.areas[k := a.(coords := a.coords + [n])]))
        case None => StopFlood(app)
  }

  /** `b` is `a` with one more cell: a neighbour of `a` with its letter
      that `a` did not hold. */
  predicate GrownByOne(grid: Rows, a: LetterArea, b: LetterArea) {
    && |b.coords| == |a.coords| + 1
    && b == a.(coords := b.coords)
    && b.coords[..|a.coords|] == a.coords
    && Joins(grid, a.coords, a.letter, b.coords[|a.coords|])
    && IsAdjacentToArea(a.coords, b.coords[|a.coords|])
  }

  /** A flood-fill step on area `k` adds at most one cell: when the area
      is closed it stops and clears the current area, and otherwise that
      area alone grows by one neighbour holding its letter. */
  lemma FloodStepGrowsByOne(app: App, k: nat)
    requires k < |app.state.areas| && DistinctIds(app.state.areas)
    requires app.state.currentArea == Some(app.state.areas[k].groupId)
    ensures var r := FloodStep(app);
            var areas := app.state.areas;
            if Closed(app.grid, areas[k]) then
              r == StopFlood(app)
            else
              && r.phase == app.phase
              && r.state == app.state.(areas := r.state.areas)
              && |r.state.areas| == |areas|
              && GrownByOne(app.grid, areas[k], r.state.areas[k])
              && forall j :: 0 <= j < |areas| && j != k ==> r.state.areas[j] == areas[j]
  {
    FindById(app.state.areas, k);
    var a := app.state.areas[k];
    var found := FirstJoiner(app.grid, a.coords, a.letter, a.coords);
    if found.Some? {
      var b := a.(coords := a.coords + [found.value]);
      assert b.coords[..|a.coords|] == a.coords;
    }
  }

  // ---------------------------------------------------------------------
  // Fencing

  /** `position` of `pos` in `coords`, or 0 when absent
      (`unwrap_or(0)`). */
  function IndexOf(coords: seq<Pos>, pos: Pos): (i: nat)
    ensures pos in coords ==> i < |coords| && coords[i] == pos && pos !in coords[..i]
    ensures pos !in coords ==> i == 0
  {
    if |coords| == 0 || coords[0] == pos then 0
    else if pos in coords[1..] then 1 + IndexOf(coords[1..], pos)
    else 0
  }

  /** In a list without repeats a cell's position is its index. */
  lemma IndexOfDistinct(coords: seq<Pos>, i: nat)
    requires NoDup(coords) && i < |coords|
    ensures IndexOf(coords, coords[i]) == i
  {
    var j := IndexOf(coords, coords[i]);
    assert coords[j] == coords[i];
  }

  /** The cell whose sides are being inspected: the stored one, or the
      area's first cell. */
  function WalkPos(st: GridState, a: LetterArea): Pos
    requires |a.coords| > 0
  {
    if st.fencePos.Some? then st.fencePos.value else a.coords[0]
  }

  /** The side being inspected: the stored one, or North. */
  function WalkDir(st: GridState): Direction {
    if st.fenceDir.Some? then st.fenceDir.value else North
  }

  /** Adds fence `f` to area `k` and recomputes the score. */
  function AddFence(st: GridState, k: nat, f: Fence): (r: GridState)
    requires k < |st.areas|
  {
    var areas := st.areas[k := st.areas[k].(fences := st.areas[k].fences + [f])];
    st.(areas := areas, stepCount := st.stepCount + 1, totalScore := TotalScore(areas))
  }

  /** One step of the fence walk over area `k`: fence the inspected side
      when `needs_fence` says so and it is not fenced yet, then turn to the
      next side, moving on to the next cell after West and finishing the
      area after the West side of its last cell. */
  function FenceAt(app: App, k: nat): (r: App)
    requires k < |app.state.areas| && |app.state.areas[k].coords| > 0
    ensures r.grid == app.grid && r.row == app.row && r.col == app.col && r.phase == app.phase
    ensures |r.state.areas| == |app.state.areas|
  {
    var st := app.state;
    var a := st.areas[k];
    var pos := WalkPos(st, a);
    var dir := WalkDir(st);
    var st1 := FenceTested(app, k);
    if dir != West then
      app.(state := st1.(fenceDir := Some(NextDirection(dir))))
    else
      var i := IndexOf(a.coords, pos);
      if i + 1 < |a.coords| then
        app.(state := st1.(fenceDir := Some(North), fencePos := Some(a.coords[i + 1])))
      else
        app.(state := st1.(areas := st1.areas[k := st1.areas[k].(visited := true)],
                           currentArea := None, fencePos := None, fenceDir := None))
  }

  /** `fence_step`. */
  function FenceStep(app: App): (r: App)
    requires forall i :: 0 <= i < |app.state.areas| ==> |app.state.areas[i].coords| > 0
    ensures r.grid == app.grid && r.row == app.row && r.col == app.col
  {
    var st := app.state;
    match st.currentArea
    case None =>
      (match FindArea(st.areas, Unvisited(), 0)
       case Some(k) => app.(state := st.(currentArea := Some(st.areas[k].groupId)))
       case None => app.(phase := Complete))
    case Some(g) =>
      match FindArea(st.areas, ById(g), 0)
      case None => app
      case Some(k) => if st.areas[k].visited then app else FenceAt(app, k)
  }

  /** With no current area, fencing completes exactly when every area is
      visited, and otherwise takes up the first unvisited area. */
  lemma FenceStepPicksUnvisited(app: App)
    requires forall i :: 0 <= i < |app.state.areas| ==> |app.state.areas[i].coords| > 0
    requires app.state.currentArea.None? && app.phase == Fencing
    ensures var r := FenceStep(app);
            var areas := app.state.areas;
            && (r.phase == Complete <==> forall i :: 0 <= i < |areas| ==> areas[i].visited)
            && (r.phase != Complete ==>
                  exists k :: 0 <= k < |areas| && !areas[k].visited
                    && (forall j :: 0 <= j < k ==> areas[j].visited)
                    && r.state == app.state.(currentArea := Some(areas[k].groupId)))
  {
    var areas := app.state.areas;
    var found := FindArea(areas, Unvisited(), 0);
    if found.Some? {
      var k := found.value;
      assert Unvisited()(areas[k]);
      forall j | 0 <= j < k
        ensures areas[j].visited
      {
        assert !Unvisited()(areas[j]);
      }
    } else {
      forall i | 0 <= i < |areas|
        ensures areas[i].visited
      {
        assert !Unvisited()(areas[i]);
      }
    }
  }

  /** How far the walk over an area has got: four sides per cell, cells
      in the area's order. */
  function Progress(st: GridState, a: LetterArea): nat
    requires |a.coords| > 0
  {
    4 * IndexOf(a.coords, WalkPos(st, a)) + SideIndex(WalkDir(st))
  }

  /** The rank of a side in the order North, East, South, West. */
  function SideIndex(d: Direction): nat {
    match d
    case North => 0
    case East => 1
    case South => 2
    case West => 3
  }

  /** Each step of the fence walk inspects the next side: the progress
      goes up by exactly one, until the West side of the last cell, after
      which the area is visited and the walk is reset. */
  lemma FenceWalkAdvances(app: App, k: nat)
    requires k < |app.state.areas| && |app.state.areas[k].coords| > 0 && NoDup(app.state.areas[k].coords)
    ensures var r := FenceAt(app, k);
            var a := app.state.areas[k];
            var b := r.state.areas[k];
            && b.coords == a.coords && b.letter == a.letter && b.groupId == a.groupId
            && if Progress(app.state, a) + 1 < 4 * |a.coords| then
                 && b.visited == a.visited && r.state.currentArea == app.state.currentArea
                 && Progress(r.state, b) == Progress(app.state, a) + 1
               else
                 && b.visited && r.state.currentArea.None?
                 && r.state.fencePos.None? && r.state.fenceDir.None?
  {
    var st := app.state;
    var a := st.areas[k];
    var pos := WalkPos(st, a);
    var i := IndexOf(a.coords, pos);
    if WalkDir(st) == West && i + 1 < |a.coords| {
      IndexOfDistinct(a.coords, i + 1);
    }
  }

  /** The fence step adds the inspected side of the inspected cell to the
      area's fences exactly when that side lies on the area's boundary and
      is not fenced yet (for an area with its own id and cells inside the
      grid); nothing else gains a fence. */
  lemma FenceAtAddsBoundary(app: App, k: nat)
    requires k < |app.state.areas| && AreaOk(app.grid, app.state.areas[k]) && DistinctIds(app.state.areas)
    ensures var r := FenceAt(app, k);
            var st := app.state;
            var a := st.areas[k];
            var f := (WalkPos(st, a).0, WalkPos(st, a).1, WalkDir(st));
            && r.state.areas[k].fences ==
                 (if OnBoundary(a.coords, f) && f !in a.fences then a.fences + [f] else a.fences)
            && forall j :: 0 <= j < |st.areas| && j != k ==> r.state.areas[j] == st.areas[j]
  {
    var st := app.state;
    var a := st.areas[k];
    FenceOnBoundary(app.grid, st.areas, k, WalkPos(st, a), WalkDir(st));
  }

  // ---------------------------------------------------------------------
  // process_next_step

  /** The check at the end of `process_next_step`: a scan back at (0, 0)
      turns into fencing. */
  function EndScan(app: App): App {
    if app.phase == Scanning && app.row == 0 && app.col == 0 then app.(phase := Fencing) else app
  }

  /** Scanning and flood filling come first, then fencing, then the end. */
  function Rank(p: Phase): nat {
    match p
    case Scanning => 0
    case FloodFilling => 0
    case Fencing => 1
    case Complete => 2
  }

  /** `process_next_step`: one step of the phase the machine is in. The
      machine never goes back from fencing to scanning, and once complete
      it stays as it is. */
  function ProcessNextStep(app: App): (r: App)
    requires Indexable(app)
    ensures r.grid == app.grid
    ensures Rank(r.phase) >= Rank(app.phase)
    ensures app.phase == Complete ==> r == app
  {
    if app.phase == Complete then app
    else if app.phase == Scanning then EndScan(Scan(app))
    else if app.phase == FloodFilling then EndScan(FloodStep(app))
    else EndScan(FenceStep(app))
  }

  /** `MyApp::new` and `restart`: no areas, scanning from (0, 0). */
  function NewApp(grid: Rows): App {
    App(grid, GridState([], None, 0, 0, None, None, 0), 0, 0, Scanning)
  }

  /** The starting state is valid for any rectangular grid with a
      non-empty first row. */
  lemma NewAppValid(grid: Rows)
    requires |grid| > 0 && Rectangular(grid) && |grid[0]| > 0
    ensures Valid(NewApp(grid)) && NewApp(grid).state.totalScore == 0
  {
  }

  lemma AdvanceKeepsValid(app: App)
    requires Valid(app)
    ensures Valid(AdvancePosition(app))
  {
    AdvanceRowMajor(app);
  }

  lemma EndScanKeepsValid(app: App)
    requires Valid(app)
    ensures Valid(EndScan(app))
  {
  }

  /** Replacing a well-built area by another with the same id keeps the
      areas well built, distinct and below the next id. */
  lemma ReplaceAreaOk(grid: Rows, areas: seq<LetterArea>, next: nat, k: nat, b: LetterArea, areas': seq<LetterArea>)
    requires k < |areas| && (forall i :: 0 <= i < |areas| ==> AreaOk(grid, areas[i]))
    requires DistinctIds(areas) && IdsBelow(areas, next)
    requires AreaOk(grid, b) && b.groupId == areas[k].groupId && areas' == areas[k := b]
    ensures forall i :: 0 <= i < |areas'| ==> AreaOk(grid, areas'[i])
    ensures DistinctIds(areas') && IdsBelow(areas', next)
  {
  }

  lemma MarkKeepsValid(app: App)
    requires Valid(app) && app.phase == Scanning
    ensures Valid(Mark(app))
  {
    var pos := (app.row, app.col);
    var ch := app.grid[app.row][app.col];
    if IsAlphabetic(ch) {
      var found := FindArea(app.state.areas, AttachesTo(ch, pos), 0);
      if found.Some? {
        MarkJoinKeepsValid(app, found.value);
      } else {
        MarkNewKeepsValid(app);
      }
    }
  }

  lemma MarkJoinKeepsValid(app: App, i: nat)
    requires Valid(app) && app.phase == Scanning
    requires var pos := (app.row, app.col);
             var ch := app.grid[app.row][app.col];
             IsAlphabetic(ch) && FindArea(app.state.areas, AttachesTo(ch, pos), 0) == Some(i)
    ensures Valid(Mark(app))
  {
    var r := Mark(app);
    var areas := app.state.areas;
    var pos := (app.row, app.col);
    FindById(areas, i);
    var a := areas[i];
    if pos !in a.coords {
      AppendNoDup(a.coords, pos);
    }
    var b := a.(coords := Extend(a.coords, pos));
    assert r.state == app.state.(areas := areas[i := b]);
    assert AreaOk(app.grid, b);
    ReplaceAreaOk(app.grid, areas, app.state.nextGroupId, i, b, areas[i := b]);
    TotalScoreNoFences(areas);
    TotalScoreNoFences(r.state.areas);
  }

  lemma MarkNewKeepsValid(app: App)
    requires Valid(app) && app.phase == Scanning
    requires var pos := (app.row, app.col);
             var ch := app.grid[app.row][app.col];
             IsAlphabetic(ch) && FindArea(app.state.areas, AttachesTo(ch, pos), 0).None?
    ensures Valid(Mark(app))
  {
    var r := Mark(app);
    var areas := app.state.areas;
    var pos := (app.row, app.col);
    var ch := app.grid[app.row][app.col];
    var b := NewArea(app.state, ch, pos);
    assert r.state.areas == areas + [b];
    assert AreaOk(app.grid, b);
    TotalScoreNoFences(areas);
    TotalScoreNoFences(r.state.areas);
  }

  lemma ScanKeepsValid(app: App)
    requires Valid(app) && app.phase == Scanning
    ensures Valid(Scan(app))
  {
    MarkKeepsValid(app);
    AdvanceKeepsValid(Mark(app));
  }

  lemma FloodKeepsValid(app: App)
    requires Valid(app) && app.phase == FloodFilling
    ensures Valid(FloodStep(app))
  {
    var r := FloodStep(app);
    var st := app.state;
    if st.currentArea.Some? {
      var found := FindArea(st.areas, ById(st.currentArea.value), 0);
      if found.Some? {
        var k := found.value;
        var a := st.areas[k];
        var n := FirstJoiner(app.grid, a.coords, a.letter, a.coords);
        if n.Some? {
          AppendNoDup(a.coords, n.value);
          assert ById(st.currentArea.value)(a);
          assert r.state.areas == st.areas[k := a.(coords := a.coords + [n.value])];
          assert AreaOk(app.grid, r.state.areas[k]);
          TotalScoreNoFences(st.areas);
          TotalScoreNoFences(r.state.areas);
        }
      }
    }
  }

  /** The state after the fence test of `FenceAt`, before the walk
      moves on. */
  function FenceTested(app: App, k: nat): (st1: GridState)
    requires k < |app.state.areas| && |app.state.areas[k].coords| > 0
    ensures st1 == app.state.(areas := st1.areas, stepCount := st1.stepCount, totalScore := st1.totalScore)
    ensures |st1.areas| == |app.state.areas|
    ensures st1.areas[k] == app.state.areas[k].(fences := st1.areas[k].fences)
    ensures forall j :: 0 <= j < |st1.areas| && j != k ==> st1.areas[j] == app.state.areas[j]
  {
    var st := app.state;
    var a := st.areas[k];
    var pos := WalkPos(st, a);
    var dir := WalkDir(st);
    var f := (pos.0, pos.1, dir);
    if NeedsFence(app.grid, st.areas, pos, dir, a.coords, a.groupId) && f !in a.fences
    then AddFence(st, k, f)
    else st
  }

  lemma FenceTestedOk(app: App, k: nat)
    requires Valid(app) && k < |app.state.areas|
    ensures var st1 := FenceTested(app, k);
            && (forall i :: 0 <= i < |st1.areas| ==> AreaOk(app.grid, st1.areas[i]))
            && DistinctIds(st1.areas) && IdsBelow(st1.areas, st1.nextGroupId)
            && st1.totalScore == TotalScore(st1.areas)
            && st1.areas[k].coords == app.state.areas[k].coords
            && st1.currentArea == app.state.currentArea
  {
    var st := app.state;
    var a := st.areas[k];
    var pos := WalkPos(st, a);
    var dir := WalkDir(st);
    var f := (pos.0, pos.1, dir);
    FenceOnBoundary(app.grid, st.areas, k, pos, dir);
    if NeedsFence(app.grid, st.areas, pos, dir, a.coords, a.groupId) && f !in a.fences {
      AppendNoDup(a.fences, f);
      var b := a.(fences := a.fences + [f]);
      assert AreaOk(app.grid, b);
      ReplaceAreaOk(app.grid, st.areas, st.nextGroupId, k, b, st.areas[k := b]);
    }
  }

  lemma FenceAtKeepsValid(app: App, k: nat)
    requires Valid(app) && app.phase == Fencing && k < |app.state.areas|
    ensures Valid(FenceAt(app, k))
  {
    var st1 := FenceTested(app, k);
    FenceTestedOk(app, k);
    var b := st1.areas[k];
    ReplaceAreaOk(app.grid, st1.areas, st1.nextGroupId, k, b.(visited := true), st1.areas[k := b.(visited := true)]);
    TotalScoreUpdate(st1.areas, k, b.(visited := true));
  }

  lemma FenceKeepsValid(app: App)
    requires Valid(app) && app.phase == Fencing
    ensures Valid(FenceStep(app))
  {
    var st := app.state;
    if st.currentArea.None? {
      FenceStepPicksUnvisited(app);
    } else {
      var found := FindArea(st.areas, ById(st.currentArea.value), 0);
      if found.Some? && !st.areas[found.value].visited {
        FenceAtKeepsValid(app, found.value);
      }
    }
  }

  /** Every step keeps the state valid. */
  lemma StepKeepsValid(app: App)
    requires Valid(app)
    ensures Valid(ProcessNextStep(app))
  {
    if app.phase == Scanning {
      ScanKeepsValid(app);
      EndScanKeepsValid(Scan(app));
    } else if app.phase == FloodFilling {
      FloodKeepsValid(app);
      EndScanKeepsValid(FloodStep(app));
    } else if app.phase == Fencing {
      FenceKeepsValid(app);
      EndScanKeepsValid(FenceStep(app));
    }
  }

  /** The frame loop of `update`: steps until complete, at most `fuel` of
      them. Once complete, every area is visited, every fence stands on
      its area's boundary and appears once, and the shown total is the sum
      of size times fence count. */
  function Run(app: App, fuel: nat): (r: App)
    requires Valid(app)
    ensures Valid(r) && r.grid == app.grid
    ensures r.phase == Complete ==>
              && r.state.totalScore == TotalScore(r.state.areas)
              && forall i :: 0 <= i < |r.state.areas| ==>
                   && r.state.areas[i].visited
                   && NoDup(r.state.areas[i].fences)
                   && forall j :: 0 <= j < |r.state.areas[i].fences| ==>
                        OnBoundary(r.state.areas[i].coords, r.state.areas[i].fences[j])
    decreases fuel
  {
    if fuel == 0 || app.phase == Complete then app
    else
      StepKeepsValid(app);
      Run(ProcessNextStep(app), fuel - 1)
  }
}
