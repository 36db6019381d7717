/** Day 6: guards walking a board of one-character cells, turning right at
    `#`, marking their trail with `X`, and one counter, shared by all guards,
    of the turns taken since the last move onto a `.` cell; its fourth
    count is taken as the sign of a loop. */
module GuardPatrol {
  import opened Wrappers
  import opened Grids

  /** The four guard characters of `GUARDS`. */
  const GuardChars: set<char> := {'^', 'v', '>', '<'}

  /** A guard: its heading character and its cell. */
  datatype Guard = Guard(heading: char, row: nat, col: nat)

  /** The state `move_guard` works on: the play board, the guards, the shared
      turn counter and the logged blockages. */
  datatype Patrol = Patrol(board: Rows, guards: seq<Guard>, counter: nat, blockages: seq<(nat, nat)>)

  /** Every guard stands on a rectangular board. */
  predicate WellFormed(st: Patrol) {
    && Rectangular(st.board)
    && forall g :: g in st.guards ==> InGrid(st.board, g.row, g.col)
  }

  /** `after` has the shape of `before`, and every cell either kept its
      character or became `X`; in particular an `X` stays an `X`. */
  predicate Marked(before: Rows, after: Rows) {
    && |after| == |before|
    && (forall i :: 0 <= i < |before| ==> |after[i]| == |before[i]|)
    && forall i, j :: 0 <= i < |before| && 0 <= j < |before[i]| ==>
         after[i][j] == before[i][j] || after[i][j] == 'X'
  }

  lemma MarkedTransitive(a: Rows, b: Rows, c: Rows)
    requires Marked(a, b) && Marked(b, c)
    ensures Marked(a, c)
  {
  }

  // ---------------------------------------------------------------------
  // get_guard_locations

  /** `get_guard_locations`: every cell holding a guard character, in
      row-major order, with that character as the heading. */
  function GetGuardLocations(board: Rows): (r: seq<Guard>)
    ensures forall k :: 0 <= k < |r| ==>
              && r[k].row < |board| && r[k].col < |board[r[k].row]|
              && r[k].heading == board[r[k].row][r[k].col]
              && r[k].heading in GuardChars
    ensures forall i, j :: 0 <= i < |board| && 0 <= j < |board[i]| && board[i][j] in GuardChars ==>
              Guard(board[i][j], i, j) in r
    ensures forall a, b :: 0 <= a < b < |r| ==> RowMajorBefore((r[a].row, r[a].col), (r[b].row, r[b].col))
  {
    var cells := CellsOf(board, GuardChars);
    CellsOfOrdered(board, GuardChars);
    var r := seq(|cells|, k requires 0 <= k < |cells| => Guard(board[cells[k].0][cells[k].1], cells[k].0, cells[k].1));
    assert forall k :: 0 <= k < |cells| ==> cells[k] in cells;
    assert forall i, j :: 0 <= i < |board| && 0 <= j < |board[i]| && board[i][j] in GuardChars ==>
             exists k :: 0 <= k < |cells| && cells[k] == (i, j) && r[k] == Guard(board[i][j], i, j);
    r
  }

  /** A freshly scanned rectangular board gives a well-formed patrol. */
  lemma ScannedBoardWellFormed(board: Rows)
    requires Rectangular(board)
    ensures WellFormed(Patrol(board, GetGuardLocations(board), 0, []))
  {
    var gs := GetGuardLocations(board);
    forall g | g in gs
      ensures InGrid(board, g.row, g.col)
    {
      assert |board[g.row]| == |board[0]|;
    }
  }

  // ---------------------------------------------------------------------
  // One guard

  /** The 90-degree right turn `^ > v <`. */
  function TurnRight(h: char): (r: char)
    requires h in GuardChars
    ensures r in GuardChars && r != h
  {
    match h
    case '^' => '>'
    case '>' => 'v'
    case 'v' => '<'
    case '<' => '^'
  }

  /** Four right turns face the guard the way it started, and no single
      turn leaves it facing the same way. */
  lemma TurnRightCycle(h: char)
    requires h in GuardChars
    ensures TurnRight(h) in GuardChars && TurnRight(h) != h
    ensures TurnRight(TurnRight(TurnRight(TurnRight(h)))) == h
  {
  }

  /** The cell in front of a guard. */
  function Ahead(g: Guard): (p: (int, int))
    requires g.heading in GuardChars
    ensures (p.0 - g.row) * (p.0 - g.row) + (p.1 - g.col) * (p.1 - g.col) == 1
  {
    match g.heading
    case '^' => (g.row - 1, g.col)
    case 'v' => (g.row + 1, g.col)
    case '>' => (g.row, g.col + 1)
    case '<' => (g.row, g.col - 1)
  }

  /** The turn is clockwise: the step of the turned guard is its old step
      (rows counted downwards) rotated a quarter turn to the right, so
      `(dr, dc)` becomes `(dc, -dr)`. */
  lemma TurnRightClockwise(g: Guard)
    requires g.heading in GuardChars
    ensures var t := g.(heading := TurnRight(g.heading));
            && Ahead(t).0 - g.row == Ahead(g).1 - g.col
            && Ahead(t).1 - g.col == g.row - Ahead(g).0
  {
  }

  /** What one pass of the `move_guard` loop does to one guard. */
  datatype Step =
    | Leave                                            // next cell off the board
    | Turned(heading: char, counter: nat)              // `#` ahead, counter still at most 3
    | Blocked(board: Rows, counter: nat)               // `#` ahead, counter now above 3
    | Moved(board: Rows, row: nat, col: nat, counter: nat)
    | Invalid(reason: string)

  /** `g` and the cell in front of it both marked `X`. */
  function MarkBoth(board: Rows, g: Guard, p: (nat, nat)): (h: Rows)
    requires Rectangular(board) && InGrid(board, g.row, g.col) && InGrid(board, p.0, p.1)
    ensures Marked(board, h) && Rectangular(h)
    ensures h[g.row][g.col] == 'X' && h[p.0][p.1] == 'X'
    ensures forall i, j :: 0 <= i < |board| && 0 <= j < |board[i]| && (i, j) != (g.row, g.col) && (i, j) != p ==>
              h[i][j] == board[i][j]
  {
    var once := SetCell(board, g.row, g.col, 'X');
    SetCell(once, p.0, p.1, 'X')
  }

  /** The body of the `move_guard` loop for one guard. The heading is
      checked first, then the bounds (width read off row 0), then the cell
      ahead: `#` turns the guard and counts a turn, `X` moves it, `.` moves
      it and resets the counter; anything else is a panic. */
  function StepGuard(board: Rows, g: Guard, counter: nat): (r: Step)
    requires Rectangular(board) && InGrid(board, g.row, g.col)
    ensures r.Invalid? <==> g.heading !in GuardChars
                            || (InGrid(board, Ahead(g).0, Ahead(g).1) && board[Ahead(g).0][Ahead(g).1] !in {'#', 'X', '.'})
    ensures r.Leave? <==> g.heading in GuardChars && !InGrid(board, Ahead(g).0, Ahead(g).1)
    ensures r.Turned? ==> && board[Ahead(g).0][Ahead(g).1] == '#'
                          && r.heading == TurnRight(g.heading) && r.counter == counter + 1 <= 3
    ensures r.Blocked? ==> && board[Ahead(g).0][Ahead(g).1] == '#'
                           && r.counter == counter + 1 > 3
                           && r.board == MarkBoth(board, g, Ahead(g))
    ensures r.Moved? ==> && (r.row, r.col) == Ahead(g)
                         && board[r.row][r.col] in {'X', '.'}
                         && r.board == MarkBoth(board, g, Ahead(g))
                         && r.counter == if board[r.row][r.col] == '.' then 0 else counter
  {
    if g.heading !in GuardChars then Invalid("Invalid guard character")
    else
      var (ni, nj) := Ahead(g);
      if ni < 0 || nj < 0 || ni >= |board| || nj >= |board[0]| then Leave
      else
        var next := board[ni][nj];
        if next == '#' then
          if counter + 1 > 3 then Blocked(MarkBoth(board, g, (ni, nj)), counter + 1)
          else Turned(TurnRight(g.heading), counter + 1)
        else if next == 'X' then Moved(MarkBoth(board, g, (ni, nj)), ni, nj, counter)
        else if next == '.' then Moved(MarkBoth(board, g, (ni, nj)), ni, nj, 0)
        else Invalid("Invalid cell character")
  }

  // ---------------------------------------------------------------------
  // Removing the guards that left

  /** `s` without its element at `i`: `Vec::remove`. */
  function RemoveAt<T>(s: seq<T>, i: nat): (r: seq<T>)
    requires i < |s|
    ensures |r| == |s| - 1
    ensures forall k :: 0 <= k < i ==> r[k] == s[k]
    ensures forall k :: i <= k < |r| ==> r[k] == s[k + 1]
  {
    s[..i] + s[i + 1..]
  }

  /** The removal loop: indices removed from the last to the first. */
  function RemoveAll<T>(s: seq<T>, idxs: seq<nat>): (r: seq<T>)
    requires forall k :: 0 <= k < |idxs| ==> idxs[k] < |s|
    requires forall a, b :: 0 <= a < b < |idxs| ==> idxs[a] < idxs[b]
    ensures |r| == |s| - |idxs|
  {
    if |idxs| == 0 then s
    else
      var m := idxs[|idxs| - 1];
      RemoveAll(RemoveAt(s, m), idxs[..|idxs| - 1])
  }

  /** The elements among the first `n` of `s` whose index is not in `drop`,
      in order: the reference for the removal loop. */
  function Kept<T>(s: seq<T>, drop: set<nat>, n: nat): (r: seq<T>)
    requires n <= |s|
    ensures |r| <= n
    ensures forall x :: x in r ==> x in s
  {
    if n == 0 then []
    else Kept(s, drop, n - 1) + (if n - 1 in drop then [] else [s[n - 1]])
  }

  lemma {:induction false} KeptBelow<T>(s: seq<T>, m: nat, drop: set<nat>, n: nat)
    requires m < |s| && n <= m
    ensures Kept(RemoveAt(s, m), drop, n) == Kept(s, drop + {m}, n)
  {
    if n > 0 {
      KeptBelow(s, m, drop, n - 1);
    }
  }

  lemma {:induction false} KeptAbove<T>(s: seq<T>, m: nat, drop: set<nat>, n: nat)
    requires m < n <= |s|
    requires forall d :: d in drop ==> d < m
    ensures Kept(RemoveAt(s, m), drop, n - 1) == Kept(s, drop + {m}, n)
  {
    if n - 1 == m {
      KeptBelow(s, m, drop, m);
    } else {
      KeptAbove(s, m, drop, n - 1);
    }
  }

  function Elements(idxs: seq<nat>): set<nat> {
    set k | k in idxs
  }

  /** The last of increasing indices is above all the others. */
  lemma ElementsLast(idxs: seq<nat>, rest: seq<nat>, m: nat)
    requires |idxs| > 0 && rest == idxs[..|idxs| - 1] && m == idxs[|idxs| - 1]
    requires forall a, b :: 0 <= a < b < |idxs| ==> idxs[a] < idxs[b]
    ensures Elements(idxs) == Elements(rest) + {m}
    ensures forall d :: d in Elements(rest) ==> d < m
  {
    assert forall k :: k in idxs <==> k in rest || k == m;
  }

  /** Removing the indices back to front keeps exactly the guards whose index
      was not listed, in their order. */
  lemma {:induction false} RemoveAllKeepsTheRest<T>(s: seq<T>, idxs: seq<nat>)
    requires forall k :: 0 <= k < |idxs| ==> idxs[k] < |s|
    requires forall a, b :: 0 <= a < b < |idxs| ==> idxs[a] < idxs[b]
    ensures RemoveAll(s, idxs) == Kept(s, Elements(idxs), |s|)
    decreases |idxs|
  {
    if |idxs| == 0 {
      assert Elements(idxs) == {};
      KeptNone(s, |s|);
      assert s[..|s|] == s;
    } else {
      var m := idxs[|idxs| - 1];
      var rest := idxs[..|idxs| - 1];
      var drop := Elements(rest);
      ElementsLast(idxs, rest, m);
      RemoveAllKeepsTheRest(RemoveAt(s, m), rest);
      KeptAbove(s, m, drop, |s|);
      var s' := RemoveAt(s, m);
      assert RemoveAll(s, idxs) == RemoveAll(s', rest);
      assert RemoveAll(s', rest) == Kept(s', drop, |s'|);
      assert Kept(s', drop, |s'|) == Kept(s, drop + {m}, |s|);
    }
  }

  lemma {:induction false} KeptNone<T>(s: seq<T>, n: nat)
    requires n <= |s|
    ensures Kept(s, {}, n) == s[..n]
  {
    if n > 0 {
      KeptNone(s, n - 1);
      assert s[..n] == s[..n - 1] + [s[n - 1]];
    }
  }

  // ---------------------------------------------------------------------
  // move_guard

  /** The guards from `idx` on, with `removals` the indices already found
      to leave. A blockage returns at once and skips the removals. */
  function Tick(st: Patrol, idx: nat, removals: seq<nat>): (r: Outcome<Patrol>)
    requires WellFormed(st) && idx <= |st.guards|
    requires forall k :: 0 <= k < |removals| ==> removals[k] < idx
    requires forall a, b :: 0 <= a < b < |removals| ==> removals[a] < removals[b]
    ensures r.Done? ==> WellFormed(r.value) && Marked(st.board, r.value.board)
    ensures r.Done? ==> |r.value.guards| <= |st.guards|
    ensures r.Done? ==> r.value.blockages == st.blockages
                        || (|r.value.blockages| == |st.blockages| + 1 && r.value.blockages[..|st.blockages|] == st.blockages)
    decreases |st.guards| - idx
  {
    if idx == |st.guards| then
      RemoveAllKeepsTheRest(st.guards, removals);
      Done(st.(guards := RemoveAll(st.guards, removals)))
    else
      var g := st.guards[idx];
      match StepGuard(st.board, g, st.counter)
      case Invalid(reason) => Panic(reason)
      case Leave => Tick(st, idx + 1, removals + [idx])
      case Turned(h, c) =>
        Tick(st.(guards := st.guards[idx := g.(heading := h)], counter := c), idx + 1, removals)
      case Blocked(b, c) =>
        Done(st.(board := b, counter := c, blockages := st.blockages + [(g.row, g.col)]))
      case Moved(b, ni, nj, c) =>
        var st' := st.(board := b, guards := st.guards[idx := Guard(g.heading, ni, nj)], counter := c);
        Tick(st', idx + 1, removals)
  }

  /** `move_guard`: every guard takes one step in list order. */
  function MoveGuard(st: Patrol): (r: Outcome<Patrol>)
    requires WellFormed(st)
    ensures r.Done? ==> WellFormed(r.value) && Marked(st.board, r.value.board)
    ensures r.Done? ==> |r.value.guards| <= |st.guards|
  {
    Tick(st, 0, [])
  }

  // ---------------------------------------------------------------------
  // Counting the trail

  /** `get_all_traversed_guard_positions`: the `X` cells in row-major order. */
  function GetAllTraversedGuardPositions(board: Rows): (r: seq<(nat, nat)>)
    ensures forall p :: p in r <==> p.0 < |board| && p.1 < |board[p.0]| && board[p.0][p.1] == 'X'
    ensures forall a, b :: 0 <= a < b < |r| ==> RowMajorBefore(r[a], r[b])
  {
    CellsOfOrdered(board, {'X'});
    CellsOf(board, {'X'})
  }

  /** `count_guard_positions`: the number of `X` cells, which is the number
      of traversed positions listed and at most the board's area. */
  function CountGuardPositions(board: Rows): (n: nat)
    ensures n == |GetAllTraversedGuardPositions(board)|
    ensures n <= Area(board)
  {
    CellsOfCount(board, 'X');
    CountCharBound(board, 'X');
    CountChar(board, 'X')
  }

  /** Marking cells `X` can only add to the count. */
  lemma {:induction false} MarkedCountGrows(before: Rows, after: Rows)
    requires Marked(before, after)
    ensures CountChar(before, 'X') <= CountChar(after, 'X')
  {
    if |before| > 0 {
      var n := |before| - 1;
      assert Marked(before[..n], after[..n]);
      MarkedCountGrows(before[..n], after[..n]);
      RowMarkedCountGrows(before[n], after[n], |before[n]|);
      assert before[n][..|before[n]|] == before[n];
      assert after[n][..|after[n]|] == after[n];
    }
  }

  lemma {:induction false} RowMarkedCountGrows(a: seq<char>, b: seq<char>, k: nat)
    requires |a| == |b| && k <= |a|
    requires forall j :: 0 <= j < |a| ==> b[j] == a[j] || b[j] == 'X'
    ensures multiset(a[..k])['X'] <= multiset(b[..k])['X']
  {
    if k > 0 {
      RowMarkedCountGrows(a, b, k - 1);
      assert a[..k] == a[..k - 1] + [a[k - 1]];
      assert b[..k] == b[..k - 1] + [b[k - 1]];
    }
  }

  // ---------------------------------------------------------------------
  // Part one

  /** `while !guard_data.is_empty() { move_guard(..) }`: ticks until every
      guard has left. A blockage does not stop this loop. `None` when `fuel`
      ticks did not suffice. */
  function RunPatrol(st: Patrol, fuel: nat): (r: Outcome<Option<Patrol>>)
    requires WellFormed(st)
    ensures r.Done? && r.value.Some? ==> && r.value.value.guards == []
                                         && Marked(st.board, r.value.value.board)
    decreases fuel
  {
    if |st.guards| == 0 then Done(Some(st))
    else if fuel == 0 then Done(None)
    else
      match MoveGuard(st)
      case Panic(reason) => Panic(reason)
      case Done(next) =>
        var r := RunPatrol(next, fuel - 1);
        assert r.Done? && r.value.Some? ==> Marked(st.board, r.value.value.board) by {
          if r.Done? && r.value.Some? {
            MarkedTransitive(st.board, next.board, r.value.value.board);
          }
        }
        r
  }

  /** The start of a simulation on `board`. */
  function Start(board: Rows): Patrol {
    Patrol(board, GetGuardLocations(board), 0, [])
  }

  /** Part one: the number of `X` cells on the board the guards leave
      behind once every one has walked off. It fails exactly when the
      patrol panics or runs out of fuel, counts every starting `X`, and
      at most every cell. */
  function PartOne(board: Rows, fuel: nat): (r: Outcome<Option<nat>>)
    requires Rectangular(board)
    ensures WellFormed(Start(board))
    ensures var run := RunPatrol(Start(board), fuel);
      && (r.Panic? <==> run.Panic?)
      && (r.Done? && r.value.None? <==> run.Done? && run.value.None?)
      && (r.Done? && r.value.Some? ==>
            && run.Done? && run.value.Some?
            && r.value.value == CountChar(run.value.value.board, 'X'))
    ensures r.Done? && r.value.Some? ==> CountChar(board, 'X') <= r.value.value <= Area(board)
  {
    ScannedBoardWellFormed(board);
    match RunPatrol(Start(board), fuel)
    case Panic(reason) => Panic(reason)
    case Done(None) => Done(None)
    case Done(Some(final)) =>
      MarkedCountGrows(board, final.board);
      AreaMarked(board, final.board);
      Done(Some(CountGuardPositions(final.board)))
  }

  lemma {:induction false} AreaMarked(before: Rows, after: Rows)
    requires Marked(before, after)
    ensures Area(after) == Area(before)
  {
    if |before| > 0 {
      var n := |before| - 1;
      assert Marked(before[..n], after[..n]);
      AreaMarked(before[..n], after[..n]);
    }
  }

  // ---------------------------------------------------------------------
  // Part two

  /** The part-two loop: ticks until no guard is left or a blockage is
      logged, whichever comes first. */
  function RunTrial(st: Patrol, fuel: nat): (r: Outcome<Option<Patrol>>)
    requires WellFormed(st)
    ensures r.Done? && r.value.Some? ==> && (r.value.value.guards == [] || |r.value.value.blockages| > 0)
                                         && Marked(st.board, r.value.value.board)
    ensures r.Done? && r.value.Some? && st.blockages == [] ==> |r.value.value.blockages| <= 1
    decreases fuel
  {
    if |st.guards| == 0 then Done(Some(st))
    else if fuel == 0 then Done(None)
    else
      match MoveGuard(st)
      case Panic(reason) => Panic(reason)
      case Done(next) =>
        if |next.blockages| > 0 then
          assert st.blockages == [] ==> |next.blockages| <= 1 by {
            TickBlockagesGrowByOne(st);
          }
          Done(Some(next))
        else
          var r := RunTrial(next, fuel - 1);
          assert r.Done? && r.value.Some? ==> Marked(st.board, r.value.value.board) by {
            if r.Done? && r.value.Some? {
              MarkedTransitive(st.board, next.board, r.value.value.board);
            }
          }
          r
  }

  lemma TickBlockagesGrowByOne(st: Patrol)
    requires WellFormed(st)
    ensures MoveGuard(st).Done? ==> |MoveGuard(st).value.blockages| <= |st.blockages| + 1
  {
  }

  /** One trial: the original board with `#` at (i, j), scanned afresh, run
      with the counter reset: true when a blockage was logged, false when
      every guard walked off. */
  function Trial(origin: Rows, i: nat, j: nat, fuel: nat): (r: Outcome<Option<bool>>)
    requires Rectangular(origin) && i < |origin| && j < |origin[i]|
    ensures WellFormed(Start(SetCell(origin, i, j, '#')))
    ensures var run := RunTrial(Start(SetCell(origin, i, j, '#')), fuel);
      && (r.Panic? <==> run.Panic?)
      && (r.Done? && r.value.Some? ==>
            && run.Done? && run.value.Some?
            && (r.value.value <==> |run.value.value.blockages| == 1)
            && (!r.value.value ==> run.value.value.guards == []))
  {
    var board := SetCell(origin, i, j, '#');
    assert Rectangular(board) by {
      forall k | 0 <= k < |board| ensures |board[k]| == |board[0]| {
        assert |origin[k]| == |origin[0]|;
      }
    }
    ScannedBoardWellFormed(board);
    match RunTrial(Start(board), fuel)
    case Panic(reason) => Panic(reason)
    case Done(None) => Done(None)
    case Done(Some(final)) => Done(Some(|final.blockages| > 0))
  }

  /** The trials over `ps`: the positions whose trial logged a blockage. */
  function LoopingPositions(origin: Rows, ps: seq<(nat, nat)>, fuel: nat): (r: Outcome<Option<seq<(nat, nat)>>>)
    requires Rectangular(origin)
    requires forall k :: 0 <= k < |ps| ==> ps[k].0 < |origin| && ps[k].1 < |origin[ps[k].0]|
    ensures r.Done? && r.value.Some? ==> |r.value.value| <= |ps|
  {
    if |ps| == 0 then Done(Some([]))
    else
      var p := ps[0];
      match Trial(origin, p.0, p.1, fuel)
      case Panic(reason) => Panic(reason)
      case Done(None) => Done(None)
      case Done(Some(loops)) =>
        match LoopingPositions(origin, ps[1..], fuel)
        case Panic(reason) => Panic(reason)
        case Done(None) => Done(None)
        case Done(Some(rest)) => Done(Some(if loops then [p] + rest else rest))
  }

  /** When every trial finished, a position is recorded exactly when it is
      one of `ps` and its trial logged a blockage. */
  lemma {:induction false} LoopingPositionsExact(origin: Rows, ps: seq<(nat, nat)>, fuel: nat, p: (nat, nat))
    requires Rectangular(origin)
    requires forall k :: 0 <= k < |ps| ==> ps[k].0 < |origin| && ps[k].1 < |origin[ps[k].0]|
    ensures var r := LoopingPositions(origin, ps, fuel);
            r.Done? && r.value.Some? ==>
              (p in r.value.value <==> p in ps && Trial(origin, p.0, p.1, fuel) == Done(Some(true)))
  {
    if |ps| > 0 {
      var r := LoopingPositions(origin, ps, fuel);
      var q := ps[0];
      LoopingPositionsExact(origin, ps[1..], fuel, p);
      assert p in ps <==> p == q || p in ps[1..];
      if r.Done? && r.value.Some? {
        var t := Trial(origin, q.0, q.1, fuel);
        var rest := LoopingPositions(origin, ps[1..], fuel);
        assert t.Done? && t.value.Some? && rest.Done? && rest.value.Some?;
        assert r.value.value == if t.value.value then [q] + rest.value.value else rest.value.value;
      }
    }
  }

  /** Part two: part one's trail, then one trial per traversed cell; the
      number of cells whose obstruction logged a blockage. */
  function PartTwo(origin: Rows, fuel: nat): (r: Outcome<Option<nat>>)
    requires Rectangular(origin)
    ensures r.Done? && r.value.Some? ==> r.value.value <= Area(origin)
  {
    ScannedBoardWellFormed(origin);
    match RunPatrol(Start(origin), fuel)
    case Panic(reason) => Panic(reason)
    case Done(None) => Done(None)
    case Done(Some(final)) =>
      var ps := GetAllTraversedGuardPositions(final.board);
      assert forall k :: 0 <= k < |ps| ==> ps[k] in ps;
      match LoopingPositions(origin, ps, fuel)
      case Panic(reason) => Panic(reason)
      case Done(None) => Done(None)
      case Done(Some(found)) =>
        assert |ps| == CountGuardPositions(final.board);
        AreaMarked(origin, final.board);
        Done(Some(|found|))
  }
}
