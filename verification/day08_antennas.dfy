/** Day 8: antennas of one frequency project antinodes along the line
    through every ordered pair, repeatedly, until the line leaves the map.
    The answer counts the distinct antenna and antinode positions. */
module Antennas {
  import opened Grids

  type Point = (int, int)

  // ---------------------------------------------------------------------
  // Grouping

  /** The frequencies on the map: every character other than `.`. */
  function Frequencies(g: Rows): (fs: set<char>)
    ensures forall c :: c in fs <==> c != '.' && exists i, j :: 0 <= i < |g| && 0 <= j < |g[i]| && g[i][j] == c
  {
    set i, j | 0 <= i < |g| && 0 <= j < |g[i]| && g[i][j] != '.' :: g[i][j]
  }

  /** `char_coords[c]`: the cells holding `c`, in the row-major order the
      scan pushes them. */
  function Group(g: Rows, c: char): (coords: seq<(nat, nat)>)
    ensures forall p :: p in coords <==> p.0 < |g| && p.1 < |g[p.0]| && g[p.0][p.1] == c
    ensures forall a, b :: 0 <= a < b < |coords| ==> RowMajorBefore(coords[a], coords[b])
  {
    CellsOfOrdered(g, {c});
    CellsOf(g, {c})
  }

  /** A frequency on the map has at least one antenna. */
  lemma GroupOfFrequency(g: Rows, c: char)
    requires c in Frequencies(g)
    ensures |Group(g, c)| >= 1
  {
    var i, j :| 0 <= i < |g| && 0 <= j < |g[i]| && g[i][j] == c;
    assert (i, j) in Group(g, c);
  }

  // ---------------------------------------------------------------------
  // Rays

  /** The bound check of the antinode loop. Both coordinates are compared
      with the number of lines: the column bound is `columns.len()`, and
      `columns` holds one entry per line. */
  predicate InBox(n: int, p: Point) {
    0 <= p.0 < n && 0 <= p.1 < n
  }

  /** How far the walk from (x, y) along (dx, dy) can still go inside the box. */
  function Room(n: int, x: int, y: int, dx: int, dy: int): nat {
    if dx > 0 then (if n - x > 0 then n - x else 0)
    else if dx < 0 then (if x + 1 > 0 then x + 1 else 0)
    else if dy > 0 then (if n - y > 0 then n - y else 0)
    else if y + 1 > 0 then y + 1 else 0
  }

  /** The point `k` steps from (x, y) along (dx, dy). */
  function StepsFrom(x: int, y: int, dx: int, dy: int, k: int): Point {
    (x + k * dx, y + k * dy)
  }

  lemma StepsShift(x: int, y: int, dx: int, dy: int, k: int)
    ensures StepsFrom(x + dx, y + dy, dx, dy, k) == StepsFrom(x, y, dx, dy, k + 1)
  {
    assert (k + 1) * dx == k * dx + dx;
    assert (k + 1) * dy == k * dy + dy;
  }

  /** The points (x, y) + k·(dx, dy) for k = 1, 2, ..., up to and not
      including the first one outside the box. */
  function Ray(n: int, x: int, y: int, dx: int, dy: int): seq<Point>
    requires dx != 0 || dy != 0
    decreases Room(n, x, y, dx, dy)
  {
    var p := (x + dx, y + dy);
    if !InBox(n, p) then []
    else [p] + Ray(n, x + dx, y + dy, dx, dy)
  }

  /** The walk visits the points one, two, ... steps from (x, y), all
      inside the box, and stops at the first point outside. */
  lemma {:induction false} RayPoints(n: int, x: int, y: int, dx: int, dy: int)
    requires dx != 0 || dy != 0
    ensures var r := Ray(n, x, y, dx, dy);
      forall k :: 0 <= k < |r| ==> r[k] == StepsFrom(x, y, dx, dy, k + 1) && InBox(n, r[k])
    ensures !InBox(n, StepsFrom(x, y, dx, dy, |Ray(n, x, y, dx, dy)| + 1))
    decreases Room(n, x, y, dx, dy)
  {
    var p := (x + dx, y + dy);
    assert p == StepsFrom(x, y, dx, dy, 1);
    if InBox(n, p) {
      RoomShrinks(n, x, y, dx, dy);
      RayPoints(n, x + dx, y + dy, dx, dy);
      var rest := Ray(n, x + dx, y + dy, dx, dy);
      var r := Ray(n, x, y, dx, dy);
      assert r == [p] + rest;
      forall k | 0 <= k < |r|
        ensures r[k] == StepsFrom(x, y, dx, dy, k + 1) && InBox(n, r[k])
      {
        if k > 0 {
          assert r[k] == rest[k - 1];
          StepsShift(x, y, dx, dy, k);
        }
      }
      StepsShift(x, y, dx, dy, |rest| + 1);
    }
  }

  // ---------------------------------------------------------------------
  // Reference definition of the answer

  function Points(coords: seq<(nat, nat)>): set<Point> {
    set k | 0 <= k < |coords| :: (coords[k].0 as int, coords[k].1 as int)
  }

  /** Antinodes of every ordered pair of distinct antennas in `coords`. */
  ghost function PairNodes(n: int, coords: seq<(nat, nat)>): set<Point>
    requires Distinct(coords)
  {
    PairsBefore(n, coords, |coords|, 0)
  }

  predicate Distinct(coords: seq<(nat, nat)>) {
    forall a, b :: 0 <= a < |coords| && 0 <= b < |coords| && a != b ==> coords[a] != coords[b]
  }

  /** Antinodes of the ordered pairs (a, b) before (i, j) in the order the
      two index loops visit them. */
  ghost function PairsBefore(n: int, coords: seq<(nat, nat)>, i: int, j: int): set<Point>
    requires Distinct(coords)
  {
    set a, b, p | 0 <= a < |coords| && 0 <= b < |coords| && a != b && (a < i || (a == i && b < j))
                  && p in PairSet(n, coords[a], coords[b]) :: p
  }

  lemma PairsBeforeNext(n: int, coords: seq<(nat, nat)>, i: nat, j: nat)
    requires Distinct(coords) && i < |coords| && j < |coords|
    ensures PairsBefore(n, coords, i, j + 1)
            == PairsBefore(n, coords, i, j) + (if i != j then PairSet(n, coords[i], coords[j]) else {})
  {
  }

  lemma PairsBeforeRow(n: int, coords: seq<(nat, nat)>, i: nat)
    requires Distinct(coords) && i < |coords|
    ensures PairsBefore(n, coords, i + 1, 0) == PairsBefore(n, coords, i, |coords|)
  {
  }

  /** What one frequency puts into `seen`: nothing for a lone antenna,
      otherwise its antennas and all their antinodes. */
  ghost function FrequencyNodes(g: Rows, c: char): set<Point> {
    var coords := Group(g, c);
    if |coords| == 1 then {} else Points(coords) + PairNodes(|g|, coords)
  }

  /** `seen` after the frequencies in `done`. */
  ghost function SeenOf(g: Rows, done: set<char>): set<Point> {
    set c, p | c in done && p in FrequencyNodes(g, c) :: p
  }

  /** `seen` after every frequency. */
  ghost function Seen(g: Rows): set<Point> {
    SeenOf(g, Frequencies(g))
  }

  lemma SeenOfAdd(g: Rows, done: set<char>, c: char)
    ensures SeenOf(g, done + {c}) == SeenOf(g, done) + FrequencyNodes(g, c)
  {
  }

  /** Every antinode of a pair lies inside the box. */
  lemma PairNodesInBox(n: int, coords: seq<(nat, nat)>, p: Point)
    requires Distinct(coords) && p in PairNodes(n, coords)
    ensures InBox(n, p)
  {
    var a, b :| 0 <= a < |coords| && 0 <= b < |coords| && a != b && p in PairSet(n, coords[a], coords[b]);
    var ray := Ray(n, coords[b].0, coords[b].1, coords[b].0 as int - coords[a].0, coords[b].1 as int - coords[a].1);
    RayPoints(n, coords[b].0, coords[b].1, coords[b].0 as int - coords[a].0, coords[b].1 as int - coords[a].1);
    var k :| 0 <= k < |ray| && ray[k] == p;
  }

  /** Every position counted is an antenna or inside the box. */
  lemma SeenInBoxOrAntenna(g: Rows, p: Point)
    requires p in Seen(g)
    ensures InBox(|g|, p) || (0 <= p.0 < |g| && 0 <= p.1 < |g[p.0]| && g[p.0][p.1] != '.')
  {
    var c :| c in Frequencies(g) && p in FrequencyNodes(g, c);
    var coords := Group(g, c);
    if p in Points(coords) {
      var k :| 0 <= k < |coords| && p == (coords[k].0 as int, coords[k].1 as int);
      assert coords[k] in coords;
    } else {
      PairNodesInBox(|g|, coords, p);
    }
  }

  // ---------------------------------------------------------------------
  // The loops of main

  /** The points of `Ray` as a set. */
  function RaySet(n: int, x: int, y: int, dx: int, dy: int): set<Point>
    requires dx != 0 || dy != 0
  {
    set p | p in Ray(n, x, y, dx, dy)
  }

  /** One step of a ray: the next point, if inside, and the ray beyond it. */
  lemma RaySetStep(n: int, x: int, y: int, dx: int, dy: int)
    requires dx != 0 || dy != 0
    ensures RaySet(n, x, y, dx, dy)
            == if InBox(n, (x + dx, y + dy)) then {(x + dx, y + dy)} + RaySet(n, x + dx, y + dy, dx, dy) else {}
  {
  }

  lemma RoomShrinks(n: int, x: int, y: int, dx: int, dy: int)
    requires (dx != 0 || dy != 0) && InBox(n, (x + dx, y + dy))
    ensures Room(n, x + dx, y + dy, dx, dy) < Room(n, x, y, dx, dy)
  {
  }

  /** Moving one point from the part still ahead to the part inserted
      keeps the union. */
  lemma UnionStep(pts: set<Point>, p: Point, rest: set<Point>, pts': set<Point>, all: set<Point>)
    requires pts + ({p} + rest) == all && pts' == pts + {p}
    ensures pts' + rest == all
  {
  }

  /** The antinodes one ordered pair adds: the ray from `b` away from `a`. */
  function PairSet(n: int, a: (nat, nat), b: (nat, nat)): set<Point>
    requires a != b
  {
    RaySet(n, b.0, b.1, b.0 as int - a.0, b.1 as int - a.1)
  }

  /** The inner `loop`: step from `b` by `b - a` and insert every point
      until one falls outside the box. */
  method WalkRay(n: int, a: (nat, nat), b: (nat, nat)) returns (pts: set<Point>)
    requires a != b
    ensures pts == PairSet(n, a, b)
  {
    var dx, dy := b.0 as int - a.0, b.1 as int - a.1;
    var x: int, y: int := b.0, b.1;
    ghost var all := PairSet(n, a, b);
    pts := {};
    while true
      invariant (dx != 0 || dy != 0) && Accounts(n, x, y, dx, dy, pts, all)
      decreases Room(n, x, y, dx, dy)
    {
      if !InBox(n, (x + dx, y + dy)) {
        WalkEnds(n, x, y, dx, dy, pts, all);
        break;
      }
      ghost var x0, y0, pts0 := x, y, pts;
      x, y, pts := x + dx, y + dy, pts + {(x + dx, y + dy)};
      WalkAdvances(n, x0, y0, dx, dy, pts0, x, y, pts, all);
    }
  }

  /** The points inserted so far and the ray still ahead of (x, y) make up
      the whole ray. */
  predicate Accounts(n: int, x: int, y: int, dx: int, dy: int, pts: set<Point>, all: set<Point>)
    requires dx != 0 || dy != 0
  {
    pts + RaySet(n, x, y, dx, dy) == all
  }

  /** Inserting the next point, when inside, keeps the walk's account of
      the ray and leaves less room. */
  lemma WalkAdvances(n: int, x: int, y: int, dx: int, dy: int, pts: set<Point>,
                     x': int, y': int, pts': set<Point>, all: set<Point>)
    requires (dx != 0 || dy != 0) && InBox(n, (x + dx, y + dy)) && Accounts(n, x, y, dx, dy, pts, all)
    requires x' == x + dx && y' == y + dy && pts' == pts + {(x', y')}
    ensures Accounts(n, x', y', dx, dy, pts', all)
    ensures Room(n, x', y', dx, dy) < Room(n, x, y, dx, dy)
  {
    var rest := RaySet(n, x', y', dx, dy);
    RaySetStep(n, x, y, dx, dy);
    assert RaySet(n, x, y, dx, dy) == {(x', y')} + rest;
    RoomShrinks(n, x, y, dx, dy);
    UnionStep(pts, (x', y'), rest, pts', all);
  }

  /** Once the next point is outside, the inserted points are the whole ray. */
  lemma WalkEnds(n: int, x: int, y: int, dx: int, dy: int, pts: set<Point>, all: set<Point>)
    requires (dx != 0 || dy != 0) && !InBox(n, (x + dx, y + dy))
    requires Accounts(n, x, y, dx, dy, pts, all)
    ensures pts == all
  {
    RaySetStep(n, x, y, dx, dy);
  }

  /** The two index loops over ordered pairs of one frequency's antennas. */
  method AllPairs(n: int, coords: seq<(nat, nat)>) returns (pts: set<Point>)
    requires Distinct(coords)
    ensures pts == PairNodes(n, coords)
  {
    pts := {};
    var i := 0;
    while i < |coords|
      invariant 0 <= i <= |coords|
      invariant pts == PairsBefore(n, coords, i, 0)
    {
      var j := 0;
      while j < |coords|
        invariant 0 <= j <= |coords|
        invariant pts == PairsBefore(n, coords, i, j)
      {
        PairsBeforeNext(n, coords, i, j);
        if i != j {
          var ray := WalkRay(n, coords[i], coords[j]);
          pts := pts + ray;
        }
        j := j + 1;
      }
      PairsBeforeRow(n, coords, i);
      i := i + 1;
    }
  }

  /** The body of the loop over `char_coords` for frequency `c`: skip a
      lone antenna, otherwise its antennas and every pair's antinodes. */
  method VisitFrequency(g: Rows, c: char) returns (added: set<Point>)
    ensures added == FrequencyNodes(g, c)
  {
    var coords := Group(g, c);
    if |coords| == 1 {
      return {};
    }
    var pairs := AllPairs(|g|, coords);
    added := Points(coords) + pairs;
  }

  /** `main` after parsing: group the antennas, then for each frequency with
      more than one antenna insert its antennas and its antinodes into
      `seen`; the answer is the size of `seen`. Frequencies are visited in
      an unspecified order, as a hash map yields them. */
  method CountAntinodes(g: Rows) returns (count: nat)
    ensures count == |Seen(g)|
  {
    var seen: set<Point> := {};
    var todo := Frequencies(g);
    ghost var done: set<char> := {};
    assert SeenOf(g, done) == {};
    while todo != {}
      invariant todo !! done && todo + done == Frequencies(g)
      invariant seen == SeenOf(g, done)
      decreases |todo|
    {
      var c :| c in todo;
      SeenOfAdd(g, done, c);
      var added := VisitFrequency(g, c);
      seen := seen + added;
      todo, done := todo - {c}, done + {c};
    }
    return |seen|;
  }
}
