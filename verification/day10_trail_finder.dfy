/** Day 10: a topographic map of digits. A hiking trail starts at a `0`,
    climbs by exactly one per orthogonal step and ends at a `9`. Both
    versions of the program run the same depth-first search from every `0`;
    they differ in the order the four neighbours are tried and in the
    string used to remember each (trailhead, summit) pair. */
module TrailFinder {
  import opened Grids

  /** (row, column) of a cell; neighbours are computed in signed
      arithmetic and only followed once they are inside the grid. */
  type Coord = (nat, nat)

  // ---------------------------------------------------------------------
  // The grid of the refactored version

  /** `Grid`: the cells with the height and width read off once. */
  datatype Grid = Grid(cells: Rows, height: nat, width: nat)

  /** `Grid::is_in_bounds`. */
  predicate IsInBounds(g: Grid, row: int, col: int) {
    row >= 0 && col >= 0 && row < g.height && col < g.width
  }

  /** `Grid::new`: the height is the number of rows and the width the first
      row's length, or 0 without rows, so bounds mean the same as for the
      rows themselves. */
  function NewGrid(rows: Rows): (g: Grid)
    ensures g.cells == rows && g.height == |rows|
    ensures g.width == (if |rows| > 0 then |rows[0]| else 0)
    ensures forall r, c :: IsInBounds(g, r, c) <==> InGrid(rows, r, c)
  {
    Grid(rows, |rows|, Width(rows))
  }

  /** The character of digit `d`. */
  function DigitChar(d: nat): char
    requires d <= 9
  {
    ('0' as int + d) as char
  }

  /** `Grid::find_digit`: exactly the in-bounds cells holding `digit`, in
      row-major order and hence each once. The scan reads every row up to
      the first row's width, so the grid must be rectangular. */
  function FindDigit(g: Grid, digit: char): (r: seq<(nat, nat)>)
    requires g == NewGrid(g.cells) && Rectangular(g.cells)
    ensures forall p :: p in r <==> IsInBounds(g, p.0, p.1) && g.cells[p.0][p.1] == digit
    ensures forall a, b :: 0 <= a < b < |r| ==> RowMajorBefore(r[a], r[b])
  {
    CellsOfOrdered(g.cells, {digit});
    CellsOf(g.cells, {digit})
  }

  // ---------------------------------------------------------------------
  // Trails

  /** The neighbour order of the refactor: right, down, left, up. */
  const RefactorDirections: seq<(int, int)> := [(0, 1), (1, 0), (0, -1), (-1, 0)]

  /** The neighbour order of the first version: up, right, down, left. */
  const LegacyDirections: seq<(int, int)> := [(-1, 0), (0, 1), (1, 0), (0, -1)]

  /** `b` is one step from `a` along one of `dirs`. */
  predicate Neighbour(dirs: seq<(int, int)>, a: Coord, b: Coord) {
    (b.0 as int - a.0, b.1 as int - a.1) in dirs
  }

  /** `p` climbs from digit `d` to 9: its k-th cell holds digit `d + k` and
      each cell is a step along one of `dirs` from the one before. */
  predicate Climb(g: Rows, dirs: seq<(int, int)>, p: seq<Coord>, d: nat) {
    d <= 9 && |p| == 10 - d
    && (forall k :: 0 <= k < |p| ==> LetterAt(g, p[k].0, p[k].1, DigitChar(d + k)))
    && (forall k :: 0 <= k < |p| - 1 ==> Neighbour(dirs, p[k], p[k + 1]))
  }

  /** The summits the search reaches from `cur`, which holds digit `d`: one
      entry per trail, in the order the search finds them. */
  function Ends(g: Rows, dirs: seq<(int, int)>, cur: Coord, d: nat): seq<Coord>
    requires d <= 9
    decreases 9 - d, |dirs| + 1
  {
    if d == 9 then [cur] else EndsVia(g, dirs, cur, d, 0)
  }

  /** The summits reached through the neighbours `dirs[k..]` of `cur`. */
  function EndsVia(g: Rows, dirs: seq<(int, int)>, cur: Coord, d: nat, k: nat): seq<Coord>
    requires d < 9 && k <= |dirs|
    decreases 9 - d, |dirs| - k
  {
    if k == |dirs| then []
    else
      var r, c := cur.0 + dirs[k].0, cur.1 + dirs[k].1;
      (if LetterAt(g, r, c, DigitChar(d + 1)) then Ends(g, dirs, (r, c), d + 1) else [])
      + EndsVia(g, dirs, cur, d, k + 1)
  }

  /** Every summit the search reports ends a climb from `cur`. */
  lemma {:induction false} EndsSound(g: Rows, dirs: seq<(int, int)>, cur: Coord, d: nat, e: Coord)
    requires d <= 9 && LetterAt(g, cur.0, cur.1, DigitChar(d))
    requires e in Ends(g, dirs, cur, d)
    ensures exists p :: Climb(g, dirs, p, d) && p[0] == cur && p[|p| - 1] == e
    decreases 9 - d, |dirs| + 1
  {
    if d == 9 {
      assert Climb(g, dirs, [cur], d);
    } else {
      EndsViaSound(g, dirs, cur, d, 0, e);
    }
  }

  lemma {:induction false} EndsViaSound(g: Rows, dirs: seq<(int, int)>, cur: Coord, d: nat, k: nat, e: Coord)
    requires d < 9 && k <= |dirs| && LetterAt(g, cur.0, cur.1, DigitChar(d))
    requires e in EndsVia(g, dirs, cur, d, k)
    ensures exists p :: Climb(g, dirs, p, d) && p[0] == cur && p[|p| - 1] == e
    decreases 9 - d, |dirs| - k
  {
    var r, c := cur.0 + dirs[k].0, cur.1 + dirs[k].1;
    if LetterAt(g, r, c, DigitChar(d + 1)) && e in Ends(g, dirs, (r, c), d + 1) {
      var next: Coord := (r, c);
      EndsSound(g, dirs, next, d + 1, e);
      var q :| Climb(g, dirs, q, d + 1) && q[0] == next && q[|q| - 1] == e;
      ClimbExtend(g, dirs, cur, d, dirs[k], q);
    } else {
      EndsViaSound(g, dirs, cur, d, k + 1, e);
    }
  }

  /** A step along `dir` to the start of a climb from `d + 1` makes a climb
      from `d`. */
  lemma ClimbExtend(g: Rows, dirs: seq<(int, int)>, cur: Coord, d: nat, dir: (int, int), q: seq<Coord>)
    requires d < 9 && LetterAt(g, cur.0, cur.1, DigitChar(d))
    requires dir in dirs && Climb(g, dirs, q, d + 1) && q[0] == (cur.0 + dir.0, cur.1 + dir.1)
    ensures Climb(g, dirs, [cur] + q, d) && ([cur] + q)[|q|] == q[|q| - 1]
  {
    var p := [cur] + q;
    assert forall k :: 0 < k < |p| ==> p[k] == q[k - 1];
    assert Neighbour(dirs, p[0], p[1]);
  }

  /** Every climb from `p[0]` is found by the search. */
  lemma {:induction false} EndsComplete(g: Rows, dirs: seq<(int, int)>, p: seq<Coord>, d: nat)
    requires Climb(g, dirs, p, d)
    ensures p[|p| - 1] in Ends(g, dirs, p[0], d)
    decreases 9 - d
  {
    if d < 9 {
      var k :| 0 <= k < |dirs| && dirs[k] == (p[1].0 as int - p[0].0, p[1].1 as int - p[0].1);
      var q := p[1..];
      assert forall j :: 0 <= j < |q| ==> q[j] == p[j + 1];
      assert Climb(g, dirs, q, d + 1);
      EndsComplete(g, dirs, q, d + 1);
      EndsViaContains(g, dirs, p[0], d, 0, k, p[|p| - 1]);
    }
  }

  /** The summits behind neighbour `dirs[k]` are among those reached
      through `dirs[j..]` for any `j <= k`. */
  lemma {:induction false} EndsViaContains(g: Rows, dirs: seq<(int, int)>, cur: Coord, d: nat, j: nat, k: nat, e: Coord)
    requires d < 9 && j <= k < |dirs|
    requires LetterAt(g, cur.0 + dirs[k].0, cur.1 + dirs[k].1, DigitChar(d + 1))
    requires e in Ends(g, dirs, (cur.0 + dirs[k].0, cur.1 + dirs[k].1), d + 1)
    ensures e in EndsVia(g, dirs, cur, d, j)
    decreases k - j
  {
    if j < k {
      EndsViaContains(g, dirs, cur, d, j + 1, k, e);
    }
  }

  /** A cell none of whose neighbours holds the next digit leads nowhere. */
  lemma {:induction false} NoNextDigitNoEnds(g: Rows, dirs: seq<(int, int)>, cur: Coord, d: nat, k: nat)
    requires d < 9 && k <= |dirs|
    requires forall j :: k <= j < |dirs| ==>
               !LetterAt(g, cur.0 + dirs[j].0, cur.1 + dirs[j].1, DigitChar(d + 1))
    ensures EndsVia(g, dirs, cur, d, k) == []
    decreases |dirs| - k
  {
    if k < |dirs| {
      NoNextDigitNoEnds(g, dirs, cur, d, k + 1);
    }
  }

  // ---------------------------------------------------------------------
  // Path keys

  /** Decimal digits of `n` as `format!` prints a `usize`. */
  function Dec(n: nat): (s: string)
    ensures |s| >= 1 && forall k :: 0 <= k < |s| ==> '0' <= s[k] <= '9'
  {
    if n < 10 then [DigitChar(n)] else Dec(n / 10) + [DigitChar(n % 10)]
  }

  /** The value of a string of decimal digits. */
  function ParseDec(s: string): nat {
    if |s| == 0 then 0 else 10 * ParseDec(s[..|s| - 1]) + DigitValue(s[|s| - 1])
  }

  function DigitValue(c: char): nat {
    if '0' <= c <= '9' then c as int - '0' as int else 0
  }

  /** Printing and reading back a number gives the number. */
  lemma {:induction false} DecRoundTrip(n: nat)
    ensures ParseDec(Dec(n)) == n
  {
    if n >= 10 {
      DecRoundTrip(n / 10);
      var s := Dec(n);
      assert s[..|s| - 1] == Dec(n / 10);
    }
  }

  /** How the pair is turned into a set entry: the first version prints the
      four numbers back to back, the refactor separates them with `:`. */
  datatype KeyStyle = Concatenated | Separated

  function Key(style: KeyStyle, start: Coord, end: Coord): string {
    match style
    case Concatenated => Dec(start.0) + Dec(start.1) + Dec(end.0) + Dec(end.1)
    case Separated => Dec(start.0) + ":" + Dec(start.1) + ":" + Dec(end.0) + ":" + Dec(end.1)
  }

  /** Index of the first `:` in `s`, or `|s|` when there is none. */
  function FirstColon(s: string): (i: nat)
    ensures i <= |s|
  {
    if |s| == 0 || s[0] == ':' then 0 else 1 + FirstColon(s[1..])
  }

  lemma {:induction false} FirstColonAfter(a: string, x: string)
    requires forall k :: 0 <= k < |a| ==> a[k] != ':'
    ensures FirstColon(a + ":" + x) == |a|
  {
    if |a| > 0 {
      assert (a + ":" + x)[1..] == a[1..] + ":" + x;
      FirstColonAfter(a[1..], x);
    }
  }

  /** The text before the first `:` (all of `s` when there is none). */
  function Field(s: string): string {
    s[..FirstColon(s)]
  }

  /** The text after the first `:` (empty when there is none). */
  function AfterField(s: string): string {
    if FirstColon(s) < |s| then s[FirstColon(s) + 1..] else ""
  }

  /** A colon-free string in front of a `:` is split off again. */
  lemma ColonSplit(a: string, x: string)
    requires forall k :: 0 <= k < |a| ==> a[k] != ':'
    ensures Field(a + ":" + x) == a && AfterField(a + ":" + x) == x
  {
    var s := a + ":" + x;
    FirstColonAfter(a, x);
    assert s[..|a|] == a;
    assert s[|a| + 1..] == x;
  }

  /** Reads a `Path::to_string` key back into its (start, end) pair. */
  function ParseKey(s: string): (Coord, Coord) {
    var f0, r0 := Field(s), AfterField(s);
    var f1, r1 := Field(r0), AfterField(r0);
    var f2, f3 := Field(r1), AfterField(r1);
    ((ParseDec(f0), ParseDec(f1)), (ParseDec(f2), ParseDec(f3)))
  }

  lemma SeparatedKeyShape(s: Coord, e: Coord)
    ensures Key(Separated, s, e) == Dec(s.0) + ":" + (Dec(s.1) + ":" + (Dec(e.0) + ":" + Dec(e.1)))
  {
  }

  /** `Path::to_string` loses nothing: the key reads back as the pair. */
  lemma KeyRoundTrip(s: Coord, e: Coord)
    ensures ParseKey(Key(Separated, s, e)) == (s, e)
  {
    SeparatedKeyShape(s, e);
    var d0, d1, d2, d3 := Dec(s.0), Dec(s.1), Dec(e.0), Dec(e.1);
    ColonSplit(d0, d1 + ":" + (d2 + ":" + d3));
    ColonSplit(d1, d2 + ":" + d3);
    ColonSplit(d2, d3);
    DecRoundTrip(s.0);
    DecRoundTrip(s.1);
    DecRoundTrip(e.0);
    DecRoundTrip(e.1);
  }

  /** Hence distinct (start, end) pairs get distinct keys. */
  lemma SeparatedKeyInjective(s: Coord, e: Coord, s': Coord, e': Coord)
    requires Key(Separated, s, e) == Key(Separated, s', e')
    ensures s == s' && e == e'
  {
    KeyRoundTrip(s, e);
    KeyRoundTrip(s', e');
  }

  lemma SmallDecimals()
    ensures Dec(1) == "1" && Dec(2) == "2" && Dec(11) == "11" && Dec(12) == "12"
  {
    assert Dec(1) == "1";
    assert Dec(11) == Dec(1) + "1";
    assert Dec(12) == Dec(1) + "2";
  }

  lemma FirstCollidingKey()
    ensures Key(Concatenated, (1, 11), (1, 12)) == "111112"
  {
    SmallDecimals();
  }

  lemma SecondCollidingKey()
    ensures Key(Concatenated, (11, 1), (11, 2)) == "111112"
  {
    SmallDecimals();
  }

  /** The first version's key is not injective: the trails (1,11)→(1,12)
      and (11,1)→(11,2) both print as `111112`. */
  lemma ConcatenatedKeyCollision()
    ensures ((1, 11), (1, 12)) != ((11, 1), (11, 2))
    ensures Key(Concatenated, (1, 11), (1, 12)) == Key(Concatenated, (11, 1), (11, 2)) == "111112"
    ensures |KeyImage(Concatenated, {((1, 11), (1, 12)), ((11, 1), (11, 2))})| == 1
  {
    FirstCollidingKey();
    SecondCollidingKey();
    var pairs: set<(Coord, Coord)> := {((1, 11), (1, 12)), ((11, 1), (11, 2))};
    assert forall p :: p in pairs ==> Key(Concatenated, p.0, p.1) == "111112";
    assert Key(Concatenated, (1, 11), (1, 12)) in KeyImage(Concatenated, pairs);
    assert KeyImage(Concatenated, pairs) == {"111112"};
  }

  // ---------------------------------------------------------------------
  // The search state

  /** What the search accumulates: the set of path keys and the number of
      trails (`unique_paths` and `total_paths` in the refactor, `coord_set`
      and `total_nines` in the first version). */
  datatype Finder = Finder(keys: set<string>, total: nat)

  /** `dfs` (and `find_next_number_from_current_coord`) at `cur`, holding
      digit `d`, on behalf of trailhead `start`: at 9 the key goes into the
      set and the count up by one; otherwise every neighbour along `dirs`
      holding the next digit is searched in turn. */
  function Dfs(g: Rows, dirs: seq<(int, int)>, style: KeyStyle, f: Finder, start: Coord, cur: Coord, d: nat): Finder
    requires d <= 9
    decreases 9 - d, |dirs| + 1
  {
    if d == 9 then Finder(f.keys + {Key(style, start, cur)}, f.total + 1)
    else DfsVia(g, dirs, style, f, start, cur, d, 0)
  }

  function DfsVia(g: Rows, dirs: seq<(int, int)>, style: KeyStyle, f: Finder, start: Coord, cur: Coord, d: nat, k: nat): Finder
    requires d < 9 && k <= |dirs|
    decreases 9 - d, |dirs| - k
  {
    if k == |dirs| then f
    else
      var r, c := cur.0 + dirs[k].0, cur.1 + dirs[k].1;
      var f' := if LetterAt(g, r, c, DigitChar(d + 1)) then Dfs(g, dirs, style, f, start, (r, c), d + 1) else f;
      DfsVia(g, dirs, style, f', start, cur, d, k + 1)
  }

  /** The keys of the trails from `start` ending at `ends`. */
  function KeysOf(style: KeyStyle, start: Coord, ends: seq<Coord>): set<string> {
    set e | e in ends :: Key(style, start, e)
  }

  /** The search adds exactly one count per summit reached and the keys of
      those summits. */
  lemma {:induction false} DfsCollects(g: Rows, dirs: seq<(int, int)>, style: KeyStyle, f: Finder, start: Coord, cur: Coord, d: nat)
    requires d <= 9
    ensures var ends := Ends(g, dirs, cur, d);
            Dfs(g, dirs, style, f, start, cur, d) == Finder(f.keys + KeysOf(style, start, ends), f.total + |ends|)
    decreases 9 - d, |dirs| + 1
  {
    if d < 9 {
      DfsViaCollects(g, dirs, style, f, start, cur, d, 0);
    } else {
      assert KeysOf(style, start, [cur]) == {Key(style, start, cur)};
    }
  }

  lemma {:induction false} DfsViaCollects(g: Rows, dirs: seq<(int, int)>, style: KeyStyle, f: Finder, start: Coord, cur: Coord, d: nat, k: nat)
    requires d < 9 && k <= |dirs|
    ensures var ends := EndsVia(g, dirs, cur, d, k);
            DfsVia(g, dirs, style, f, start, cur, d, k) == Finder(f.keys + KeysOf(style, start, ends), f.total + |ends|)
    decreases 9 - d, |dirs| - k
  {
    if k == |dirs| {
      assert KeysOf(style, start, []) == {};
    } else {
      var next := (cur.0 + dirs[k].0, cur.1 + dirs[k].1);
      var rest := EndsVia(g, dirs, cur, d, k + 1);
      if LetterAt(g, next.0, next.1, DigitChar(d + 1)) {
        var here := Ends(g, dirs, next, d + 1);
        var f' := Dfs(g, dirs, style, f, start, next, d + 1);
        DfsCollects(g, dirs, style, f, start, next, d + 1);
        DfsViaCollects(g, dirs, style, f', start, cur, d, k + 1);
        CollectBoth(style, start, f, f', DfsVia(g, dirs, style, f', start, cur, d, k + 1), here, rest);
        assert EndsVia(g, dirs, cur, d, k) == here + rest;
      } else {
        DfsViaCollects(g, dirs, style, f, start, cur, d, k + 1);
        assert EndsVia(g, dirs, cur, d, k) == rest;
      }
    }
  }

  /** Collecting `here` and then `rest` collects `here + rest`. */
  lemma CollectBoth(style: KeyStyle, start: Coord, f: Finder, f': Finder, f'': Finder, here: seq<Coord>, rest: seq<Coord>)
    requires f' == Finder(f.keys + KeysOf(style, start, here), f.total + |here|)
    requires f'' == Finder(f'.keys + KeysOf(style, start, rest), f'.total + |rest|)
    ensures f'' == Finder(f.keys + KeysOf(style, start, here + rest), f.total + |here + rest|)
  {
    KeysOfAppend(style, start, here, rest);
  }

  lemma KeysOfAppend(style: KeyStyle, start: Coord, a: seq<Coord>, b: seq<Coord>)
    ensures KeysOf(style, start, a + b) == KeysOf(style, start, a) + KeysOf(style, start, b)
  {
    forall e | e in a + b
      ensures e in a || e in b
    {
    }
  }

  /** Trails to the same summit share a key, so there are no more keys
      than summits. */
  lemma {:induction false} KeysOfCard(style: KeyStyle, start: Coord, ends: seq<Coord>)
    ensures |KeysOf(style, start, ends)| <= |ends|
  {
    if |ends| > 0 {
      KeysOfCard(style, start, ends[1..]);
      assert ends == [ends[0]] + ends[1..];
      KeysOfAppend(style, start, [ends[0]], ends[1..]);
      assert KeysOf(style, start, [ends[0]]) == {Key(style, start, ends[0])};
    } else {
      assert KeysOf(style, start, ends) == {};
    }
  }

  /** Every key comes with an increment: a search only adds keys, and
      never more of them than it counts trails. */
  lemma DfsBound(g: Rows, dirs: seq<(int, int)>, style: KeyStyle, f: Finder, start: Coord, cur: Coord, d: nat)
    requires d <= 9
    ensures var r := Dfs(g, dirs, style, f, start, cur, d);
            f.keys <= r.keys && f.total <= r.total && |r.keys| <= |f.keys| + (r.total - f.total)
  {
    var ends := Ends(g, dirs, cur, d);
    DfsCollects(g, dirs, style, f, start, cur, d);
    KeysOfCard(style, start, ends);
    var added := KeysOf(style, start, ends);
    assert |f.keys + added| <= |f.keys| + |added| by {
      assert f.keys + added == f.keys + (added - f.keys);
    }
  }

  /** A cell without a neighbour holding the next digit adds nothing; in
      particular a `0` with no `1` next to it. */
  lemma NoNextDigitAddsNothing(g: Rows, dirs: seq<(int, int)>, style: KeyStyle, f: Finder, start: Coord, cur: Coord, d: nat)
    requires d < 9
    requires forall j :: 0 <= j < |dirs| ==>
               !LetterAt(g, cur.0 + dirs[j].0, cur.1 + dirs[j].1, DigitChar(d + 1))
    ensures Dfs(g, dirs, style, f, start, cur, d) == f
  {
    NoNextDigitNoEnds(g, dirs, cur, d, 0);
    DfsCollects(g, dirs, style, f, start, cur, d);
    assert KeysOf(style, start, []) == {};
  }

  // ---------------------------------------------------------------------
  // Searching from every trailhead

  /** One search per trailhead, in the order given, each passing the
      trailhead as its own start. */
  function SearchFrom(g: Rows, dirs: seq<(int, int)>, style: KeyStyle, f: Finder, zeros: seq<Coord>): Finder
    decreases |zeros|
  {
    if |zeros| == 0 then f
    else SearchFrom(g, dirs, style, Dfs(g, dirs, style, f, zeros[0], zeros[0], 0), zeros[1..])
  }

  /** The (trailhead, summit) pairs the searches reach. */
  function Reached(g: Rows, dirs: seq<(int, int)>, zeros: seq<Coord>): set<(Coord, Coord)> {
    if |zeros| == 0 then {}
    else (set e | e in Ends(g, dirs, zeros[0], 0) :: (zeros[0], e)) + Reached(g, dirs, zeros[1..])
  }

  /** The number of trails the searches follow. */
  function Trails(g: Rows, dirs: seq<(int, int)>, zeros: seq<Coord>): nat {
    if |zeros| == 0 then 0 else |Ends(g, dirs, zeros[0], 0)| + Trails(g, dirs, zeros[1..])
  }

  /** The keys of a set of (start, end) pairs. */
  function KeyImage(style: KeyStyle, pairs: set<(Coord, Coord)>): set<string> {
    set p | p in pairs :: Key(style, p.0, p.1)
  }

  lemma KeysOfPairs(style: KeyStyle, start: Coord, ends: seq<Coord>)
    ensures KeysOf(style, start, ends) == KeyImage(style, set e | e in ends :: (start, e))
  {
    var pairs := set e | e in ends :: (start, e);
    forall key | key in KeysOf(style, start, ends)
      ensures key in KeyImage(style, pairs)
    {
      var e :| e in ends && key == Key(style, start, e);
      assert (start, e) in pairs;
    }
    forall key | key in KeyImage(style, pairs)
      ensures key in KeysOf(style, start, ends)
    {
      var p :| p in pairs && key == Key(style, p.0, p.1);
      assert p.1 in ends;
    }
  }

  lemma KeyImageUnion(style: KeyStyle, a: set<(Coord, Coord)>, b: set<(Coord, Coord)>)
    ensures KeyImage(style, a + b) == KeyImage(style, a) + KeyImage(style, b)
  {
  }

  /** All searches together count every trail and insert the key of every
      pair reached. */
  lemma {:induction false} SearchCollects(g: Rows, dirs: seq<(int, int)>, style: KeyStyle, f: Finder, zeros: seq<Coord>)
    ensures SearchFrom(g, dirs, style, f, zeros)
            == Finder(f.keys + KeyImage(style, Reached(g, dirs, zeros)), f.total + Trails(g, dirs, zeros))
    decreases |zeros|
  {
    if |zeros| > 0 {
      var z := zeros[0];
      var ends := Ends(g, dirs, z, 0);
      DfsCollects(g, dirs, style, f, z, z, 0);
      var f' := Dfs(g, dirs, style, f, z, z, 0);
      SearchCollects(g, dirs, style, f', zeros[1..]);
      var here := set e | e in ends :: (z, e);
      KeysOfPairs(style, z, ends);
      KeyImageUnion(style, here, Reached(g, dirs, zeros[1..]));
    } else {
      assert KeyImage(style, {}) == {};
    }
  }

  /** A pair is reached exactly when its start is a listed trailhead and
      its end a summit found from there. */
  lemma {:induction false} ReachedMember(g: Rows, dirs: seq<(int, int)>, zeros: seq<Coord>, s: Coord, e: Coord)
    ensures (s, e) in Reached(g, dirs, zeros) <==> s in zeros && e in Ends(g, dirs, s, 0)
  {
    if |zeros| > 0 {
      ReachedMember(g, dirs, zeros[1..], s, e);
      assert s in zeros <==> s == zeros[0] || s in zeros[1..];
    }
  }

  /** With trailheads that hold `0`, the pairs reached are exactly those
      joined by a hiking trail. */
  lemma ReachedMeansTrail(g: Rows, dirs: seq<(int, int)>, zeros: seq<Coord>, s: Coord, e: Coord)
    requires forall z :: z in zeros ==> LetterAt(g, z.0, z.1, '0')
    ensures (s, e) in Reached(g, dirs, zeros)
            <==> s in zeros && exists p :: Climb(g, dirs, p, 0) && p[0] == s && p[9] == e
  {
    ReachedMember(g, dirs, zeros, s, e);
    if s in zeros && e in Ends(g, dirs, s, 0) {
      assert DigitChar(0) == '0';
      EndsSound(g, dirs, s, 0, e);
    }
    if s in zeros && exists p :: Climb(g, dirs, p, 0) && p[0] == s && p[9] == e {
      var p :| Climb(g, dirs, p, 0) && p[0] == s && p[9] == e;
      EndsComplete(g, dirs, p, 0);
    }
  }

  /** The two neighbour orders list the same four steps, so both versions
      reach the same pairs. */
  lemma DirectionOrderIrrelevant(g: Rows, zeros: seq<Coord>)
    requires forall z :: z in zeros ==> LetterAt(g, z.0, z.1, '0')
    ensures Reached(g, LegacyDirections, zeros) == Reached(g, RefactorDirections, zeros)
  {
    forall p: seq<Coord>
      ensures Climb(g, LegacyDirections, p, 0) <==> Climb(g, RefactorDirections, p, 0)
    {
      assert forall a, b :: Neighbour(LegacyDirections, a, b) <==> Neighbour(RefactorDirections, a, b);
    }
    forall q | q in Reached(g, LegacyDirections, zeros) || q in Reached(g, RefactorDirections, zeros)
      ensures q in Reached(g, LegacyDirections, zeros) <==> q in Reached(g, RefactorDirections, zeros)
    {
      ReachedMeansTrail(g, LegacyDirections, zeros, q.0, q.1);
      ReachedMeansTrail(g, RefactorDirections, zeros, q.0, q.1);
    }
  }

  /** Distinct pairs have distinct `Path::to_string` keys, so the refactor
      counts each reached pair once. */
  lemma {:induction false} SeparatedImageCard(pairs: set<(Coord, Coord)>)
    ensures |KeyImage(Separated, pairs)| == |pairs|
    decreases |pairs|
  {
    if pairs != {} {
      var x :| x in pairs;
      var rest := pairs - {x};
      SeparatedImageCard(rest);
      var kx := Key(Separated, x.0, x.1);
      assert KeyImage(Separated, pairs) == KeyImage(Separated, rest) + {kx};
      forall y | y in rest
        ensures Key(Separated, y.0, y.1) != kx
      {
        KeyRoundTrip(y.0, y.1);
        KeyRoundTrip(x.0, x.1);
      }
      assert kx !in KeyImage(Separated, rest);
    } else {
      assert KeyImage(Separated, pairs) == {};
    }
  }

  /** The trailheads: every `0`, in row-major order. */
  function Zeros(rows: Rows): (r: seq<Coord>)
    ensures forall z :: z in r <==> z.0 < |rows| && z.1 < |rows[z.0]| && rows[z.0][z.1] == '0'
    ensures forall a, b :: 0 <= a < b < |r| ==> RowMajorBefore(r[a], r[b])
  {
    CellsOfOrdered(rows, {'0'});
    CellsOf(rows, {'0'})
  }

  /** On a rectangular map every listed trailhead is an in-bounds `0`, so
      the searches reach exactly the pairs joined by a hiking trail. */
  lemma ZerosAreTrailheads(rows: Rows)
    requires Rectangular(rows)
    ensures forall z :: z in Zeros(rows) ==> LetterAt(rows, z.0, z.1, '0')
  {
  }

  /** The loop both versions run: a depth-first search from each trailhead
      in turn, sharing one key set and one counter. */
  method SearchAll(rows: Rows, dirs: seq<(int, int)>, style: KeyStyle, zeros: seq<Coord>) returns (f: Finder)
    ensures f == Finder(KeyImage(style, Reached(rows, dirs, zeros)), Trails(rows, dirs, zeros))
    ensures |f.keys| <= f.total
  {
    f := Finder({}, 0);
    var i := 0;
    while i < |zeros|
      invariant 0 <= i <= |zeros|
      invariant SearchFrom(rows, dirs, style, f, zeros[i..])
                == SearchFrom(rows, dirs, style, Finder({}, 0), zeros)
      invariant |f.keys| <= f.total
    {
      assert zeros[i..][1..] == zeros[i + 1..];
      DfsBound(rows, dirs, style, f, zeros[i], zeros[i], 0);
      f := Dfs(rows, dirs, style, f, zeros[i], zeros[i], 0);
      i := i + 1;
    }
    SearchCollects(rows, dirs, style, Finder({}, 0), zeros);
  }

  /** `find_all_paths` on `Grid::new(rows)` followed by `unique_path_count`
      and `total_path_count`: the first is the number of distinct
      (trailhead, summit) pairs, the second the number of trails. */
  method FindAllPaths(rows: Rows) returns (unique: nat, total: nat)
    requires Rectangular(rows)
    ensures unique == |Reached(rows, RefactorDirections, Zeros(rows))|
    ensures total == Trails(rows, RefactorDirections, Zeros(rows))
    ensures unique <= total
  {
    var g := NewGrid(rows);
    var zeros := FindDigit(g, '0');
    var f := SearchAll(rows, RefactorDirections, Separated, zeros);
    SeparatedImageCard(Reached(rows, RefactorDirections, zeros));
    unique, total := |f.keys|, f.total;
  }

  /** `main` of the first version: a search from every `0` in row-major
      order with the concatenated key; the set never outgrows the count.
      The bounds test compares each row index with the first row's
      length, so only a rectangular map is inside its domain. */
  method CountTrails(rows: Rows) returns (keys: nat, total: nat)
    requires Rectangular(rows)
    ensures keys == |KeyImage(Concatenated, Reached(rows, LegacyDirections, Zeros(rows)))|
    ensures total == Trails(rows, LegacyDirections, Zeros(rows))
    ensures keys <= total
  {
    var zeros := Zeros(rows);
    var f := SearchAll(rows, LegacyDirections, Concatenated, zeros);
    keys, total := |f.keys|, f.total;
  }
}
