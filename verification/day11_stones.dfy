/** Day 11: a row of numbered stones that changes on every blink. Only how
    many stones carry each number matters, so the program keeps a map from
    number to count and rewrites that map 75 times. */
module StoneCounts {
  import opened Ints

  /** Stone number ↦ how many stones carry it. */
  type Counts = map<nat, nat>

  /** The count of `k`, 0 when absent (`entry(k).or_insert(0)`). */
  function Get(m: Counts, k: nat): nat {
    if k in m then m[k] else 0
  }

  /** `insert_key_or_increment_value`: `value` more stones numbered `key`;
      no other number changes. */
  function Insert(m: Counts, key: nat, value: nat): (r: Counts)
    ensures r.Keys == m.Keys + {key}
    ensures Get(r, key) == Get(m, key) + value
    ensures forall k :: k != key ==> Get(r, k) == Get(m, k)
  {
    m[key := Get(m, key) + value]
  }

  /** `create_stones_map`: one increment per stone, so every number is
      counted as often as it occurs. */
  function CreateStonesMap(stones: seq<nat>): (r: Counts)
    ensures r.Keys == set k | k in stones
    ensures forall k :: Get(r, k) == multiset(stones)[k]
  {
    if |stones| == 0 then map[]
    else
      var n := |stones| - 1;
      assert stones == stones[..n] + [stones[n]];
      Insert(CreateStonesMap(stones[..n]), stones[n], 1)
  }

  // ---------------------------------------------------------------------
  // The numbers in a fixed order

  /** A least element of a non-empty set, found by setting one element
      aside and comparing it with the least of the rest. */
  lemma {:induction false} Least(s: set<nat>) returns (x: nat)
    requires s != {}
    ensures x in s && forall z :: z in s ==> x <= z
    decreases |s|
  {
    var y :| y in s;
    var rest := s - {y};
    if rest == {} {
      forall z | z in s
        ensures y <= z
      {
        assert z !in rest;
      }
      x := y;
    } else {
      var w := Least(rest);
      x := if y < w then y else w;
      forall z | z in s
        ensures x <= z
      {
        if z != y {
          assert z in rest;
        }
      }
    }
  }

  /** Every non-empty set of numbers has a least element. */
  lemma HasMinimum(s: set<nat>)
    requires s != {}
    ensures exists x :: x in s && forall y :: y in s ==> x <= y
  {
    var x := Least(s);
  }

  /** The least element of a non-empty set. */
  function MinKey(s: set<nat>): (x: nat)
    requires s != {}
    ensures x in s && forall y :: y in s ==> x <= y
  {
    HasMinimum(s);
    var x :| x in s && forall y :: y in s ==> x <= y;
    x
  }

  /** The elements of `s`, smallest first: as many entries as elements,
      and exactly the elements of `s`. */
  function SortedKeys(s: set<nat>): (r: seq<nat>)
    ensures |r| == |s| && forall k :: k in r <==> k in s
    decreases |s|
  {
    if s == {} then []
    else
      var x := MinKey(s);
      [x] + SortedKeys(s - {x})
  }

  /** The listing is strictly ascending, so no number is visited twice. */
  lemma {:induction false} SortedKeysAscending(s: set<nat>)
    ensures forall i, j :: 0 <= i < j < |SortedKeys(s)| ==> SortedKeys(s)[i] < SortedKeys(s)[j]
    decreases |s|
  {
    if s != {} {
      var x := MinKey(s);
      var rest := SortedKeys(s - {x});
      var r := SortedKeys(s);
      SortedKeysAscending(s - {x});
      assert r == [x] + rest;
      forall i, j | 0 <= i < j < |r|
        ensures r[i] < r[j]
      {
        assert r[j] == rest[j - 1] && rest[j - 1] in s - {x};
        if i > 0 {
          assert r[i] == rest[i - 1];
        }
      }
    }
  }

  /** Sum of the counts of `ks`. */
  function Sum(m: Counts, ks: seq<nat>): nat {
    if |ks| == 0 then 0 else Get(m, ks[0]) + Sum(m, ks[1..])
  }

  /** The number of stones: the sum of all counts (the final fold in
      `main`). */
  function Total(m: Counts): nat {
    Sum(m, SortedKeys(m.Keys))
  }

  // ---------------------------------------------------------------------
  // The stones a map stands for

  /** `c` stones numbered `x`. */
  function Copies(x: nat, c: nat): (r: multiset<nat>)
    ensures |r| == c && r[x] == c && forall y :: y != x ==> r[y] == 0
  {
    if c == 0 then multiset{} else Copies(x, c - 1) + multiset{x}
  }

  /** The stones whose numbers are in `ks`, with their counts. */
  function StonesOf(m: Counts, ks: seq<nat>): multiset<nat> {
    if |ks| == 0 then multiset{} else Copies(ks[0], Get(m, ks[0])) + StonesOf(m, ks[1..])
  }

  lemma {:induction false} StonesOfCounts(m: Counts, ks: seq<nat>)
    requires forall i, j :: 0 <= i < j < |ks| ==> ks[i] != ks[j]
    ensures |StonesOf(m, ks)| == Sum(m, ks)
    ensures forall n :: StonesOf(m, ks)[n] == if n in ks then Get(m, n) else 0
  {
    if |ks| > 0 {
      StonesOfCounts(m, ks[1..]);
      assert forall n :: n in ks <==> n == ks[0] || n in ks[1..];
      assert ks[0] !in ks[1..];
    }
  }

  /** The multiset of stones a map stands for: as many of each number as
      its count, and as many in all as the total. */
  function Stones(m: Counts): (r: multiset<nat>)
    ensures |r| == Total(m)
    ensures forall n :: r[n] == Get(m, n)
  {
    var ks := SortedKeys(m.Keys);
    SortedKeysAscending(m.Keys);
    assert forall i, j :: 0 <= i < j < |ks| ==> ks[i] < ks[j];
    StonesOfCounts(m, ks);
    StonesOf(m, ks)
  }

  /** Maps with the same counts stand for the same stones. */
  lemma SameCountsSameStones(m: Counts, m': Counts)
    requires forall n :: Get(m, n) == Get(m', n)
    ensures Stones(m) == Stones(m') && Total(m) == Total(m')
  {
    assert forall n :: Stones(m)[n] == Stones(m')[n];
  }

  /** Adding `value` stones adds `value` to the total. */
  lemma TotalInsert(m: Counts, key: nat, value: nat)
    ensures Total(Insert(m, key, value)) == Total(m) + value
  {
    StonesInsert(m, key, value);
  }

  /** Inserting `value` stones numbered `key` adds exactly those stones. */
  lemma StonesInsert(m: Counts, key: nat, value: nat)
    ensures Stones(Insert(m, key, value)) == Stones(m) + Copies(key, value)
  {
    var r := Insert(m, key, value);
    assert forall n :: Stones(r)[n] == (Stones(m) + Copies(key, value))[n];
  }

  /** The map built from a row stands for exactly the stones of the row. */
  lemma CreateStones(stones: seq<nat>)
    ensures Stones(CreateStonesMap(stones)) == multiset(stones)
  {
    var m := CreateStonesMap(stones);
    assert forall n :: Stones(m)[n] == multiset(stones)[n];
  }

  /** A row of stones is counted in full. */
  lemma CreateTotal(stones: seq<nat>)
    ensures Total(CreateStonesMap(stones)) == |stones|
  {
    CreateStones(stones);
  }

  // ---------------------------------------------------------------------
  // One blink

  /** The number has an even count of decimal digits (and is not 0, which
      is handled first). */
  predicate Splits(k: nat) {
    k != 0 && Digits(k) % 2 == 0
  }

  /** The left half of the digits of `k`, read as a number. */
  function LeftHalf(k: nat): nat {
    k / Pow(10, Digits(k) / 2)
  }

  /** The right half of the digits of `k`, read as a number; leading zeros
      vanish as they do in `parse`. */
  function RightHalf(k: nat): nat {
    k % Pow(10, Digits(k) / 2)
  }

  /** What one stone numbered `k` becomes: 0 turns into 1, a number with an
      even count of digits into its two halves, anything else into itself
      times 2024. */
  function Children(k: nat): (r: seq<nat>)
    ensures |r| == if Splits(k) then 2 else 1
  {
    if k == 0 then [1]
    else if Digits(k) % 2 == 0 then [LeftHalf(k), RightHalf(k)]
    else [k * 2024]
  }

  /** The halves are the two halves of the digits: the left one has
      exactly half the digits, the right one fits below them, and putting
      them back side by side gives `k`. */
  lemma SplitHalves(k: nat)
    requires Splits(k)
    ensures var h := Digits(k) / 2;
            LeftHalf(k) * Pow(10, h) + RightHalf(k) == k
            && RightHalf(k) < Pow(10, h) && Digits(LeftHalf(k)) == h
  {
    var h := Digits(k) / 2;
    var p := Pow(10, h);
    assert k == p * (k / p) + k % p;
    LeftHalfRange(k);
    DigitsExact(LeftHalf(k), h);
  }

  /** The left half of a `2h`-digit number has `h` digits: it lies between
      10^(h-1) and 10^h. */
  lemma LeftHalfRange(k: nat)
    requires Splits(k)
    ensures var h := Digits(k) / 2;
            h >= 1 && Pow(10, h - 1) <= LeftHalf(k) < Pow(10, h)
  {
    var d := Digits(k);
    var h := d / 2;
    assert d == h + h && h >= 1;
    var p, lo := Pow(10, h), Pow(10, h - 1);
    DigitsBound(k);
    LowerBound(k);
    PowAdd(10, h, h);
    PowAdd(10, h - 1, h);
    assert h - 1 + h == d - 1;
    assert lo * p <= k < p * p;
    DivBounds(k, p, lo, p);
  }

  /** A number with `d` digits is at least 10^(d-1). */
  lemma {:induction false} LowerBound(k: nat)
    requires k > 0
    ensures Pow(10, Digits(k) - 1) <= k
  {
    if k >= 10 {
      LowerBound(k / 10);
      assert Digits(k) - 1 == Digits(k / 10);
      assert Pow(10, Digits(k / 10)) == 10 * Pow(10, Digits(k / 10) - 1);
    }
  }

  lemma {:induction false} PowAdd(b: nat, x: nat, y: nat)
    ensures Pow(b, x + y) == Pow(b, x) * Pow(b, y)
  {
    if x > 0 {
      PowAdd(b, x - 1, y);
      var u, v := Pow(b, x - 1), Pow(b, y);
      assert Pow(b, x + y) == b * Pow(b, x - 1 + y);
      assert b * (u * v) == (b * u) * v;
    }
  }

  /** lo·p <= k < hi·p puts k / p between lo and hi. */
  lemma DivBounds(k: nat, p: nat, lo: nat, hi: nat)
    requires p > 0 && lo * p <= k < hi * p
    ensures lo <= k / p < hi
  {
    var q := k / p;
    assert q * p <= k < (q + 1) * p;
    MulCancel(lo, q + 1, p);
    MulCancel(q, hi, p);
  }

  lemma MulCancel(a: nat, b: nat, p: nat)
    requires p > 0 && a * p < b * p
    ensures a < b
  {
  }

  /** `insert_key_or_increment_value` for each number of `ks`, all with
      count `value`. */
  function InsertAll(m: Counts, ks: seq<nat>, value: nat): Counts
    decreases |ks|
  {
    if |ks| == 0 then m else InsertAll(Insert(m, ks[0], value), ks[1..], value)
  }

  lemma MulSucc(n: nat, v: nat)
    ensures n * v + v == (n + 1) * v
  {
  }

  lemma TotalInsertAll(m: Counts, ks: seq<nat>, value: nat)
    ensures Total(InsertAll(m, ks, value)) == Total(m) + |ks| * value
  {
    StonesInsertAll(m, ks, value);
    CopiesAllSize(ks, value);
  }

  /** The loop of `iterate_stones_map` over the numbers `ks`: every stone
      numbered `k` is replaced by `Children(k)`, counts carried over. */
  function BlinkFrom(m: Counts, ks: seq<nat>, acc: Counts): Counts {
    if |ks| == 0 then acc
    else BlinkFrom(m, ks[1..], InsertAll(acc, Children(ks[0]), Get(m, ks[0])))
  }

  /** One blink over every number of the map, smallest first. */
  function Blink(m: Counts): Counts {
    BlinkFrom(m, SortedKeys(m.Keys), map[])
  }

  /** Sum of the counts of the numbers in `ks` that split. */
  function SplitSum(m: Counts, ks: seq<nat>): nat {
    if |ks| == 0 then 0 else (if Splits(ks[0]) then Get(m, ks[0]) else 0) + SplitSum(m, ks[1..])
  }

  /** How many stones are about to split. */
  function SplitTotal(m: Counts): nat {
    SplitSum(m, SortedKeys(m.Keys))
  }

  lemma {:induction false} BlinkFromTotal(m: Counts, ks: seq<nat>, acc: Counts)
    ensures Total(BlinkFrom(m, ks, acc)) == Total(acc) + Sum(m, ks) + SplitSum(m, ks)
  {
    if |ks| > 0 {
      var k := ks[0];
      TotalInsertAll(acc, Children(k), Get(m, k));
      BlinkFromTotal(m, ks[1..], InsertAll(acc, Children(k), Get(m, k)));
    }
  }

  /** After one blink there are as many stones as before plus one more for
      every stone that split. */
  lemma BlinkTotal(m: Counts)
    ensures Total(Blink(m)) == Total(m) + SplitTotal(m)
  {
    BlinkFromTotal(m, SortedKeys(m.Keys), map[]);
    assert Total(map[]) == 0;
  }

  // ---------------------------------------------------------------------
  // The same blink on the row itself

  /** One blink of an explicit row of stones: each stone is replaced, in
      place, by what it becomes. */
  function BlinkRow(row: seq<nat>): (r: seq<nat>)
    ensures |r| >= |row|
  {
    if |row| == 0 then [] else Children(row[0]) + BlinkRow(row[1..])
  }

  /** `step` applied `n` times in a row. */
  function Repeatedly<T>(step: T -> T, x: T, n: nat): T
    decreases n
  {
    if n == 0 then x else Repeatedly(step, step(x), n - 1)
  }

  lemma RepeatedlyUnfold<T>(step: T -> T, x: T, n: nat)
    requires n > 0
    ensures Repeatedly(step, x, n) == Repeatedly(step, step(x), n - 1)
  {
  }

  /** A relation that one step preserves on both sides survives any
      number of steps. */
  lemma {:induction false} RepeatedlyRelated<S, T>(f: S -> S, g: T -> T, rel: (S, T) -> bool, x: S, y: T, n: nat)
    requires forall a, b :: rel(a, b) ==> rel(f(a), g(b))
    requires rel(x, y)
    ensures rel(Repeatedly(f, x, n), Repeatedly(g, y, n))
    decreases n
  {
    if n > 0 {
      RepeatedlyRelated(f, g, rel, f(x), g(y), n - 1);
    }
  }

  /** `n` blinks of an explicit row. */
  function BlinkRowTimes(row: seq<nat>, n: nat): seq<nat> {
    Repeatedly(BlinkRow, row, n)
  }

  /** What a bag of stones becomes after one blink, with no order at all:
      the union of the children of every stone. */
  ghost function ImageBag(b: multiset<nat>): multiset<nat>
    decreases |b|
  {
    if b == multiset{} then multiset{}
    else
      var x :| x in b;
      multiset(Children(x)) + ImageBag(b - multiset{x})
  }

  /** Taking out a stone `x` other than the one just added. */
  lemma TakeOther(b: multiset<nat>, x: nat, y: nat)
    requires x in b + multiset{y} && x != y
    ensures (b + multiset{y}) - multiset{x} == (b - multiset{x}) + multiset{y}
    ensures (b - multiset{x}) + multiset{x} == b
  {
  }

  lemma BagSwap(cx: multiset<nat>, cy: multiset<nat>, r: multiset<nat>)
    ensures cx + (cy + r) == cy + (cx + r)
  {
  }

  /** The image does not depend on which stone is taken first. */
  lemma {:induction false} ImageAdd(b: multiset<nat>, y: nat)
    ensures ImageBag(b + multiset{y}) == multiset(Children(y)) + ImageBag(b)
    decreases |b|
  {
    var z := b + multiset{y};
    var x :| x in z && ImageBag(z) == multiset(Children(x)) + ImageBag(z - multiset{x});
    if x != y {
      var rest := b - multiset{x};
      TakeOther(b, x, y);
      ImageAdd(rest, y);
      ImageAdd(rest, x);
      BagSwap(multiset(Children(x)), multiset(Children(y)), ImageBag(rest));
    } else {
      assert z - multiset{x} == b;
    }
  }

  lemma {:induction false} ImageUnion(a: multiset<nat>, b: multiset<nat>)
    ensures ImageBag(a + b) == ImageBag(a) + ImageBag(b)
    decreases |b|
  {
    if b != multiset{} {
      var y :| y in b;
      var rest := b - multiset{y};
      assert b == rest + multiset{y};
      assert a + b == (a + rest) + multiset{y};
      ImageUnion(a, rest);
      ImageAdd(a + rest, y);
      ImageAdd(rest, y);
    } else {
      assert a + b == a;
    }
  }

  /** Blinking a row yields the image of its stones. */
  lemma {:induction false} RowImage(row: seq<nat>)
    ensures multiset(BlinkRow(row)) == ImageBag(multiset(row))
  {
    if |row| > 0 {
      RowImage(row[1..]);
      assert row == [row[0]] + row[1..];
      assert multiset(row) == multiset(row[1..]) + multiset{row[0]};
      ImageAdd(multiset(row[1..]), row[0]);
    }
  }

  /** `v` stones for each entry of `cs`. */
  function CopiesAll(cs: seq<nat>, v: nat): multiset<nat> {
    if |cs| == 0 then multiset{} else Copies(cs[0], v) + CopiesAll(cs[1..], v)
  }

  lemma {:induction false} CopiesAllStep(cs: seq<nat>, v: nat)
    requires v > 0
    ensures CopiesAll(cs, v) == CopiesAll(cs, v - 1) + multiset(cs)
  {
    if |cs| > 0 {
      CopiesAllStep(cs[1..], v);
      assert cs == [cs[0]] + cs[1..];
      assert multiset(cs) == multiset{cs[0]} + multiset(cs[1..]);
    }
  }

  /** `v` stones for each of the `|cs|` numbers. */
  lemma {:induction false} CopiesAllSize(cs: seq<nat>, v: nat)
    ensures |CopiesAll(cs, v)| == |cs| * v
  {
    if |cs| > 0 {
      CopiesAllSize(cs[1..], v);
      MulSucc(|cs[1..]|, v);
    }
  }

  lemma {:induction false} StonesInsertAll(m: Counts, cs: seq<nat>, v: nat)
    ensures Stones(InsertAll(m, cs, v)) == Stones(m) + CopiesAll(cs, v)
    decreases |cs|
  {
    if |cs| > 0 {
      StonesInsert(m, cs[0], v);
      StonesInsertAll(Insert(m, cs[0], v), cs[1..], v);
    }
  }

  lemma {:induction false} ImageCopies(k: nat, v: nat)
    ensures ImageBag(Copies(k, v)) == CopiesAll(Children(k), v)
  {
    if v > 0 {
      ImageCopies(k, v - 1);
      ImageAdd(Copies(k, v - 1), k);
      CopiesAllStep(Children(k), v);
    } else {
      assert CopiesAll(Children(k), 0) == multiset{} by {
        CopiesAllNone(Children(k));
      }
    }
  }

  lemma {:induction false} CopiesAllNone(cs: seq<nat>)
    ensures CopiesAll(cs, 0) == multiset{}
  {
    if |cs| > 0 {
      CopiesAllNone(cs[1..]);
    }
  }

  lemma {:induction false} BlinkFromStones(m: Counts, ks: seq<nat>, acc: Counts)
    ensures Stones(BlinkFrom(m, ks, acc)) == Stones(acc) + ImageBag(StonesOf(m, ks))
  {
    if |ks| > 0 {
      var k := ks[0];
      var v := Get(m, k);
      var acc' := InsertAll(acc, Children(k), v);
      BlinkFromStones(m, ks[1..], acc');
      StonesInsertAll(acc, Children(k), v);
      ImageCopies(k, v);
      ImageUnion(Copies(k, v), StonesOf(m, ks[1..]));
    }
  }

  /** A blink of the map turns its stones into their image, whatever order
      the numbers are visited in. */
  lemma BlinkStones(m: Counts)
    ensures Stones(Blink(m)) == ImageBag(Stones(m))
  {
    BlinkFromStones(m, SortedKeys(m.Keys), map[]);
    assert Stones(map[]) == multiset{} by {
      assert forall n :: Stones(map[])[n] == 0;
    }
  }

  /** One blink of the map agrees with one blink of the row it stands for. */
  lemma BlinkMatchesRow(m: Counts, row: seq<nat>)
    requires Stones(m) == multiset(row)
    ensures Stones(Blink(m)) == multiset(BlinkRow(row))
  {
    BlinkStones(m);
    RowImage(row);
  }

  /** Blinking the map `n` times agrees with blinking the row it stands
      for `n` times. */
  lemma BlinkTimesMatchesRow(m: Counts, row: seq<nat>, n: nat)
    requires Stones(m) == multiset(row)
    ensures Stones(BlinkTimes(m, n)) == multiset(BlinkRowTimes(row, n))
  {
    forall a: Counts, b: seq<nat> | Stones(a) == multiset(b)
      ensures Stones(Blink(a)) == multiset(BlinkRow(b))
    {
      BlinkMatchesRow(a, b);
    }
    RepeatedlyRelated(Blink, BlinkRow, (a: Counts, b: seq<nat>) => Stones(a) == multiset(b), m, row, n);
  }

  // ---------------------------------------------------------------------
  // Blinking 75 times

  /** `n` blinks in a row. */
  function BlinkTimes(m: Counts, n: nat): Counts {
    Repeatedly(Blink, m, n)
  }

  /** `iterate_stones_map`: blink and recurse until the counter passes 74. */
  function IterateStonesMap(m: Counts, counter: nat): Counts
    decreases 75 - counter
  {
    if counter > 74 then m else IterateStonesMap(Blink(m), counter + 1)
  }

  /** Starting from counter `c` the map is blinked 75 - c times (none once
      past 74), so the call from `main` with 0 blinks exactly 75 times. */
  lemma {:induction false} IterateBlinks(m: Counts, c: nat)
    ensures IterateStonesMap(m, c) == BlinkTimes(m, if c > 74 then 0 else 75 - c)
    decreases 75 - c
  {
    if c <= 74 {
      IterateBlinks(Blink(m), c + 1);
      RepeatedlyUnfold(Blink, m, 75 - c);
    }
  }

  /** A step that never decreases `size` never decreases it when
      repeated. */
  lemma {:induction false} RepeatedlyGrows<T>(step: T -> T, size: T -> nat, x: T, n: nat)
    requires forall a :: size(step(a)) >= size(a)
    ensures size(Repeatedly(step, x, n)) >= size(x)
    decreases n
  {
    if n > 0 {
      RepeatedlyGrows(step, size, step(x), n - 1);
    }
  }

  /** Blinking never loses stones. */
  lemma BlinkTimesGrows(m: Counts, n: nat)
    ensures Total(BlinkTimes(m, n)) >= Total(m)
  {
    forall x
      ensures Total(Blink(x)) >= Total(x)
    {
      BlinkTotal(x);
    }
    RepeatedlyGrows(Blink, Total, m, n);
  }

  /** The counter value `main` passes to `iterate_stones_map`. */
  const FirstCounter: nat := 0

  /** How many blinks the counter from `FirstCounter` to 74 performs. */
  const Blinks: nat := 75

  /** `main`: the stone count after `iterate_stones_map` from the first counter. */
  function StonesAfterBlinking(stones: seq<nat>): nat {
    Total(IterateStonesMap(CreateStonesMap(stones), FirstCounter))
  }

  /** The answer is the total after exactly 75 blinks of the parsed row. */
  lemma StonesAfterBlinkingRounds(stones: seq<nat>)
    ensures StonesAfterBlinking(stones) == Total(BlinkTimes(CreateStonesMap(stones), Blinks))
  {
    var m := CreateStonesMap(stones);
    IterateBlinks(m, FirstCounter);
    assert IterateStonesMap(m, FirstCounter) == BlinkTimes(m, Blinks);
  }

  /** There are at least as many stones at the end as at the start. */
  lemma StonesAfterBlinkingBound(stones: seq<nat>)
    ensures StonesAfterBlinking(stones) >= |stones|
  {
    var m := CreateStonesMap(stones);
    StonesAfterBlinkingRounds(stones);
    CreateTotal(stones);
    BlinkTimesGrows(m, Blinks);
  }

  /** The count map gives the length of the row after 75 blinks of the
      row itself. */
  lemma StonesAfterBlinkingRow(stones: seq<nat>)
    ensures StonesAfterBlinking(stones) == |BlinkRowTimes(stones, Blinks)|
  {
    var m := CreateStonesMap(stones);
    StonesAfterBlinkingRounds(stones);
    CreateStones(stones);
    BlinkTimesMatchesRow(m, stones, Blinks);
  }
}
