/** Day 9: a dense disk map of alternating file and free-span lengths,
    expanded into blocks, compacted block by block with two pointers (part
    one) or file by file into the first span that fits (part two), and
    summarised by a position-weighted checksum. */
module DiskFragmenter {
  import opened Wrappers

  /** The block value `-1` marks free space; files use their id. */
  const Free: int := -1

  // ---------------------------------------------------------------------
  // Parsing and expansion

  /** `c.to_digit(10).unwrap()` for every character: `None` when one of
      them is not a decimal digit (the source panics there). */
  function ParseDigits(s: seq<char>): (r: Option<seq<nat>>)
    ensures r.Some? <==> forall k :: 0 <= k < |s| ==> '0' <= s[k] <= '9'
    ensures r.Some? ==> |r.value| == |s| && forall k :: 0 <= k < |s| ==> r.value[k] == (s[k] - '0') as nat < 10
  {
    if |s| == 0 then Some([])
    else
      match ParseDigits(s[..|s| - 1])
      case None => None
      case Some(ds) =>
        var c := s[|s| - 1];
        if '0' <= c <= '9' then Some(ds + [(c - '0') as nat]) else None
  }

  /** Sum of the digits: the number of blocks the map describes. */
  function DigitSum(ds: seq<nat>): nat {
    if |ds| == 0 then 0 else DigitSum(ds[..|ds| - 1]) + ds[|ds| - 1]
  }

  /** Sum of the digits at odd positions: the free blocks. */
  function FreeSum(ds: seq<nat>): nat {
    if |ds| == 0 then 0
    else FreeSum(ds[..|ds| - 1]) + (if (|ds| - 1) % 2 == 1 then ds[|ds| - 1] else 0)
  }

  function Repeat(v: int, c: nat): (r: seq<int>)
    ensures |r| == c && forall k :: 0 <= k < c ==> r[k] == v
  {
    if c == 0 then [] else Repeat(v, c - 1) + [v]
  }

  /** The block value digit `i` expands to: file `i / 2` at even positions,
      free space at odd ones. */
  function BlockValue(i: nat): int {
    if i % 2 == 0 then i / 2 else Free
  }

  /** The expansion loop of `main`: digit `i` contributes `ds[i]` copies of
      its block value, so the disk has as many blocks as the digits add up
      to, and every block is free or belongs to a file of the map. */
  function Expand(ds: seq<nat>): (r: seq<int>)
    ensures |r| == DigitSum(ds)
    ensures forall k :: 0 <= k < |r| ==> r[k] == Free || 0 <= r[k] < (|ds| + 1) / 2
  {
    if |ds| == 0 then []
    else
      var n := |ds| - 1;
      Expand(ds[..n]) + Repeat(BlockValue(n), ds[n])
  }

  /** Every file id occurs exactly as often as its digit says. */
  lemma {:induction false} ExpandFileCount(ds: seq<nat>, i: nat)
    requires i < |ds| && i % 2 == 0
    ensures multiset(Expand(ds))[i / 2] == ds[i]
    decreases |ds|, 1
  {
    var n := |ds| - 1;
    var id := i / 2;
    var prev, block := Expand(ds[..n]), Repeat(BlockValue(n), ds[n]);
    calc {
      multiset(Expand(ds))[id];
      { assert Expand(ds) == prev + block; }
      multiset(prev + block)[id];
      multiset(prev)[id] + multiset(block)[id];
      { FileCountSplit(ds, i); }
      ds[i];
    }
  }

  lemma {:induction false} FileCountSplit(ds: seq<nat>, i: nat)
    requires i < |ds| && i % 2 == 0
    ensures var n := |ds| - 1;
            multiset(Expand(ds[..n]))[i / 2] + multiset(Repeat(BlockValue(n), ds[n]))[i / 2] == ds[i]
    decreases |ds|, 0
  {
    var n := |ds| - 1;
    var id := i / 2;
    var block := Repeat(BlockValue(n), ds[n]);
    if i < n {
      ExpandFileCount(ds[..n], i);
      assert ds[..n][i] == ds[i];
      assert id !in block;
    } else {
      assert BlockValue(n) == id;
      RepeatCount(id, ds[n]);
      ExpandRange(ds[..n], id);
    }
  }

  /** Ids from `(|ds| + 1) / 2` on do not occur. */
  lemma ExpandRange(ds: seq<nat>, id: int)
    requires id >= (|ds| + 1) / 2
    ensures multiset(Expand(ds))[id] == 0
  {
    assert id !in Expand(ds);
  }

  /** Free blocks occur as often as the odd-position digits add up to. */
  lemma {:induction false} ExpandFreeCount(ds: seq<nat>)
    ensures multiset(Expand(ds))[Free] == FreeSum(ds)
  {
    if |ds| > 0 {
      var n := |ds| - 1;
      ExpandFreeCount(ds[..n]);
      RepeatCount(BlockValue(n), ds[n]);
      if n % 2 == 0 {
        assert Free !in Repeat(BlockValue(n), ds[n]);
      }
    }
  }

  lemma {:induction false} RepeatCount(v: int, c: nat)
    ensures multiset(Repeat(v, c))[v] == c
  {
    if c > 0 {
      RepeatCount(v, c - 1);
    }
  }

  // ---------------------------------------------------------------------
  // Part one: two-pointer compaction

  /** No free block comes before a file block. */
  predicate Compacted(data: seq<int>) {
    forall i, j :: 0 <= i < j < |data| && data[i] == Free ==> data[j] == Free
  }

  /** Number of free blocks. */
  function FreeCount(s: seq<int>): nat {
    if |s| == 0 then 0 else FreeCount(s[..|s| - 1]) + (if s[|s| - 1] == Free then 1 else 0)
  }

  /** The file blocks, in order. */
  function FilesIn(s: seq<int>): (r: seq<int>)
    ensures |r| <= |s|
    ensures forall k :: 0 <= k < |r| ==> r[k] != Free
  {
    if |s| == 0 then [] else (if s[0] != Free then [s[0]] else []) + FilesIn(s[1..])
  }

  /** What block `k` of `input` holds once the blocks of `moved` have been
      moved into the free space: a file block stays; the free block with
      `c` free blocks before it receives the `c`-th block of `moved`
      counted from its end, or stays free once `moved` has run out. */
  function FillAt(input: seq<int>, moved: seq<int>, k: nat): int
    requires k < |input|
  {
    if input[k] != Free then input[k]
    else
      var c := FreeCount(input[..k]);
      if c < |moved| then moved[|moved| - 1 - c] else Free
  }

  /** The disk part one should end with, stated without pointers: with `n`
      file blocks in all, the first `n` positions keep their file blocks
      and have their free blocks filled, in order, with the file blocks
      found from position `n` on, the last one first; every position from
      `n` on is free. */
  function Compaction(input: seq<int>): (r: seq<int>)
    ensures |r| == |input|
  {
    var n := |FilesIn(input)|;
    seq(|input|, k requires 0 <= k < |input| => if k < n then FillAt(input, FilesIn(input[n..]), k) else Free)
  }

  /** What the two pointers keep between swaps: no free block before
      `start`, nothing but free blocks from `end` on, and below `end`
      exactly the blocks from `end` on moved into the free space, all of
      them placed at or before `start`. */
  predicate Pointers(input: seq<int>, data: seq<int>, start: nat, end: nat) {
    && start <= end <= |data| == |input|
    && (forall k :: 0 <= k < start ==> data[k] != Free)
    && (forall k :: end <= k < |data| ==> data[k] == Free)
    && (forall k :: 0 <= k < end ==> data[k] == FillAt(input, FilesIn(input[end..]), k))
    && FreeCount(input[..start]) <= |FilesIn(input[end..])| <= FreeCount(input[..end])
  }

  /** The two-pointer loop of `main`: `start` finds the first free block,
      `end` the last file block, and the two are swapped until they meet.
      It only swaps, so the blocks are a permutation of the input; it
      leaves every file block before every free one; and the file blocks
      at the back fill the free blocks at the front, the last one into the
      first hole. */
  method Compact(input: seq<int>) returns (data: seq<int>)
    ensures multiset(data) == multiset(input)
    ensures |data| == |input|
    ensures Compacted(data)
    ensures data == Compaction(input)
  {
    data := input;
    var start, end := 0, |data|;
    assert input[|input|..] == [];
    while true
      invariant 0 <= start <= end <= |data| == |input|
      invariant multiset(data) == multiset(input)
      invariant Pointers(input, data, start, end)
      decreases end - start
    {
      while start < end
        invariant start <= end
        invariant Pointers(input, data, start, end)
      {
        if data[start] == Free {
          break;
        }
        AdvanceStart(input, data, start, end);
        start := start + 1;
      }
      ghost var top := end;
      while start < end
        invariant start <= end
        invariant Pointers(input, data, start, end)
        invariant start < end ==> data[start] == Free
      {
        top := end;
        end := end - 1;
        if data[end] != Free {
          break;
        }
        RetreatEnd(input, data, start, end, top);
      }
      if start == end {
        break;
      }
      SwapStep(input, data, start, end, top);
      data := Swap(data, start, end);
    }
    CompactDone(input, data, end);
  }

  lemma FreeCountStep(s: seq<int>, k: nat)
    requires k < |s|
    ensures FreeCount(s[..k + 1]) == FreeCount(s[..k]) + (if s[k] == Free then 1 else 0)
  {
    assert s[..k + 1][..k] == s[..k];
  }

  lemma {:induction false} FreeCountMono(s: seq<int>, i: nat, j: nat)
    requires i <= j <= |s|
    ensures FreeCount(s[..i]) <= FreeCount(s[..j])
    decreases j
  {
    if i < j {
      FreeCountMono(s, i, j - 1);
      FreeCountStep(s, j - 1);
    }
  }

  /** Reading the file blocks from position `e` on starts with block `e`. */
  lemma FilesInFrom(s: seq<int>, e: nat)
    requires e < |s|
    ensures FilesIn(s[e..]) == (if s[e] != Free then [s[e]] else []) + FilesIn(s[e + 1..])
  {
    assert s[e..][1..] == s[e + 1..];
  }

  lemma {:induction false} FilesInSplit(s: seq<int>, m: nat)
    requires m <= |s|
    ensures |FilesIn(s)| == |FilesIn(s[..m])| + |FilesIn(s[m..])|
  {
    if m > 0 {
      assert s[..m][1..] == s[1..][..m - 1];
      assert s[m..] == s[1..][m - 1..];
      FilesInSplit(s[1..], m - 1);
    } else {
      assert s[..0] == [] && s[0..] == s;
    }
  }

  /** Every block is a file block or a free one. */
  lemma {:induction false} FilesAndFree(s: seq<int>)
    ensures |FilesIn(s)| + FreeCount(s) == |s|
  {
    if |s| > 0 {
      var n := |s| - 1;
      FilesAndFree(s[..n]);
      FilesInSplit(s, n);
      assert s[n..][1..] == [];
    }
  }

  /** One more block moved in fills the hole at `s`, the one with exactly
      as many holes before it as blocks were moved in already, and leaves
      every other position as it was. */
  lemma FillAtExtend(input: seq<int>, moved: seq<int>, x: int, s: nat, k: nat)
    requires s < |input| && k < |input| && input[s] == Free
    requires FreeCount(input[..s]) == |moved|
    ensures FillAt(input, [x] + moved, k) == if k == s then x else FillAt(input, moved, k)
  {
    if input[k] == Free {
      if k < s {
        FreeCountStep(input, k);
        FreeCountMono(input, k + 1, s);
      } else if k > s {
        FreeCountStep(input, s);
        FreeCountMono(input, s + 1, k);
      }
    }
  }

  /** The first inner loop steps over a block that is not free. */
  lemma AdvanceStart(input: seq<int>, data: seq<int>, start: nat, end: nat)
    requires Pointers(input, data, start, end) && start < end && data[start] != Free
    ensures Pointers(input, data, start + 1, end)
  {
    FreeCountStep(input, start);
  }

  /** The second inner loop steps back over a free block. */
  lemma RetreatEnd(input: seq<int>, data: seq<int>, start: nat, e: nat, top: nat)
    requires top == e + 1 && Pointers(input, data, start, top) && start <= e
    requires data[start] == Free && data[e] == Free
    ensures Pointers(input, data, start, e)
  {
    var moved := FilesIn(input[top..]);
    assert data[e] == FillAt(input, moved, e);
    assert data[start] == FillAt(input, moved, start);
    FilesInFrom(input, e);
    assert FilesIn(input[e..]) == moved;
    FreeCountStep(input, e);
    if start < e {
      FreeCountStep(input, start);
      FreeCountMono(input, start + 1, e);
    }
  }

  /** A swap moves the last file block into the first hole. */
  lemma SwapStep(input: seq<int>, data: seq<int>, start: nat, e: nat, top: nat)
    requires top == e + 1 && Pointers(input, data, start, top) && start < e
    requires data[start] == Free && data[e] != Free
    ensures Pointers(input, Swap(data, start, e), start, e)
  {
    var moved := FilesIn(input[e + 1..]);
    assert data[start] == FillAt(input, moved, start);
    assert data[e] == FillAt(input, moved, e);
    FreeCountStep(input, start);
    FreeCountMono(input, start + 1, e);
    FilesInFrom(input, e);
    var x := input[e];
    assert FilesIn(input[e..]) == [x] + moved;
    var r := Swap(data, start, e);
    forall k | 0 <= k < e
      ensures r[k] == FillAt(input, FilesIn(input[e..]), k)
    {
      FillAtExtend(input, moved, x, start, k);
    }
  }

  /** When the pointers meet, the disk is the reference compaction. */
  lemma CompactDone(input: seq<int>, data: seq<int>, end: nat)
    requires Pointers(input, data, end, end)
    ensures Compacted(data) && data == Compaction(input)
  {
    FilesInSplit(input, end);
    FilesAndFree(input[..end]);
    assert |FilesIn(input)| == end;
    var c := Compaction(input);
    assert forall k :: 0 <= k < |data| ==> data[k] == c[k];
  }

  /** The map `12101` expands to `0..12`; the block `2` fills the first
      hole and `1` the second, for a checksum of 1 * 2 + 2 * 1. */
  lemma CompactionExample()
    ensures Compaction([0, Free, Free, 1, 2]) == [0, 2, 1, Free, Free]
    ensures Checksum(Compaction([0, Free, Free, 1, 2])) == 4
  {
    var input := [0, Free, Free, 1, 2];
    assert input[5..] == [];
    FilesInFrom(input, 4);
    FilesInFrom(input, 3);
    assert FilesIn(input[3..]) == [1, 2];
    FilesInFrom(input, 2);
    FilesInFrom(input, 1);
    FilesInFrom(input, 0);
    assert input[0..] == input;
    assert FilesIn(input) == [0, 1, 2];
    assert FreeCount(input[..1]) == 0;
    assert FreeCount(input[..2]) == 1;
    var out := [0, 2, 1, Free, Free];
    assert out[..4][..3] == out[..3] && out[..3][..2] == out[..2] && out[..2][..1] == out[..1];
    assert Checksum(out[..1]) == 0;
    assert Checksum(out[..3]) == 4;
    assert out[..5] == out;
  }

  /** `slice::swap`. */
  function Swap(s: seq<int>, i: nat, j: nat): (r: seq<int>)
    requires i < |s| && j < |s|
    ensures |r| == |s| && r[i] == s[j] && r[j] == s[i]
    ensures forall k :: 0 <= k < |s| && k != i && k != j ==> r[k] == s[k]
    ensures multiset(r) == multiset(s)
  {
    s[i := s[j]][j := s[i]]
  }

  // ---------------------------------------------------------------------
  // Block checksum

  /** Σ index · value over the blocks that are not free. */
  function Checksum(data: seq<int>): int {
    if |data| == 0 then 0
    else
      var k := |data| - 1;
      Checksum(data[..k]) + (if data[k] != Free then k * data[k] else 0)
  }

  /** `calculate_checksum`: the fold over the blocks. */
  method CalculateChecksum(data: seq<int>) returns (sum: int)
    ensures sum == Checksum(data)
  {
    sum := 0;
    var index := 0;
    while index < |data|
      invariant 0 <= index <= |data|
      invariant sum == Checksum(data[..index])
    {
      if data[index] != Free {
        sum := sum + index * data[index];
      }
      assert data[..index + 1][..index] == data[..index];
      index := index + 1;
    }
    assert data[..index] == data;
  }

  /** 0 + 1 + ... + (n - 1). */
  function Tri(n: nat): nat {
    if n == 0 then 0 else Tri(n - 1) + (n - 1)
  }

  lemma {:induction false} TriClosedForm(n: nat)
    ensures 2 * Tri(n) == n * (n - 1)
  {
    if n > 0 {
      TriClosedForm(n - 1);
    }
  }

  /** Appending `c` blocks of value `v` after `a` adds
      v · (c · |a| + 0 + 1 + ... + (c - 1)) unless they are free. */
  lemma {:induction false} ChecksumAppendRepeat(a: seq<int>, v: int, c: nat)
    ensures Checksum(a + Repeat(v, c)) == Checksum(a) + (if v != Free then v * (c * |a| + Tri(c)) else 0)
  {
    if c > 0 {
      var b := a + Repeat(v, c - 1);
      calc {
        Checksum(a + Repeat(v, c));
        { assert a + Repeat(v, c) == b + [v]; }
        Checksum(b + [v]);
        { ChecksumSnoc(b, v); }
        Checksum(b) + (if v != Free then |b| * v else 0);
        { ChecksumAppendRepeat(a, v, c - 1); }
        Checksum(a) + (if v != Free then v * ((c - 1) * |a| + Tri(c - 1)) else 0) + (if v != Free then |b| * v else 0);
        { RepeatStepWeight(v, c, |a|, Tri(c - 1)); }
        Checksum(a) + (if v != Free then v * (c * |a| + Tri(c)) else 0);
      }
    } else {
      assert a + Repeat(v, c) == a;
    }
  }

  /** One more block at the end adds its own weight. */
  lemma ChecksumSnoc(b: seq<int>, x: int)
    ensures Checksum(b + [x]) == Checksum(b) + (if x != Free then |b| * x else 0)
  {
    assert (b + [x])[..|b|] == b;
  }

  lemma RepeatStepWeight(v: int, c: nat, len: nat, t: nat)
    requires c > 0
    ensures v * (c * len + (t + (c - 1))) == v * ((c - 1) * len + t) + (len + c - 1) * v
  {
    assert c * len == (c - 1) * len + len;
  }

  // ---------------------------------------------------------------------
  // Part two: whole files

  datatype FileData = FileData(id: nat, length: nat, start: nat)
  datatype FreeSpace = FreeSpace(length: nat, start: nat)

  /** The layout loop of `do_part_two`: even digits are files with id
      `i / 2`, odd digits free spans, each starting where the previous
      entry ended. */
  function Layout(ds: seq<nat>): (r: (seq<FileData>, seq<FreeSpace>))
    ensures |r.0| == (|ds| + 1) / 2 && |r.1| == |ds| / 2
    ensures forall k :: 0 <= k < |r.0| ==> r.0[k] == FileData(k, ds[2 * k], DigitSum(ds[..2 * k]))
    ensures forall k :: 0 <= k < |r.1| ==> r.1[k] == FreeSpace(ds[2 * k + 1], DigitSum(ds[..2 * k + 1]))
  {
    if |ds| == 0 then ([], [])
    else
      var n := |ds| - 1;
      var (files, frees) := Layout(ds[..n]);
      assert forall m :: 0 <= m <= n ==> ds[..n][..m] == ds[..m];
      assert forall k :: 0 <= k < n ==> ds[..n][k] == ds[k];
      if n % 2 == 0 then (files + [FileData(n / 2, ds[n], DigitSum(ds[..n]))], frees)
      else (files, frees + [FreeSpace(ds[n], DigitSum(ds[..n]))])
  }

  /** Each span of the layout ends where the next one starts. */
  lemma LayoutContiguous(ds: seq<nat>, k: nat)
    requires 2 * k + 1 < |ds|
    ensures Layout(ds).0[k].start + Layout(ds).0[k].length == Layout(ds).1[k].start
    ensures 2 * k + 2 < |ds| ==> Layout(ds).1[k].start + Layout(ds).1[k].length == Layout(ds).0[k + 1].start
  {
    var (files, frees) := Layout(ds);
    assert files[k] == FileData(k, ds[2 * k], DigitSum(ds[..2 * k]));
    assert frees[k] == FreeSpace(ds[2 * k + 1], DigitSum(ds[..2 * k + 1]));
    DigitSumStep(ds, 2 * k);
    if 2 * k + 2 < |ds| {
      assert files[k + 1] == FileData(k + 1, ds[2 * k + 2], DigitSum(ds[..2 * k + 2]));
      DigitSumStep(ds, 2 * k + 1);
    }
  }

  lemma DigitSumStep(ds: seq<nat>, m: nat)
    requires m < |ds|
    ensures DigitSum(ds[..m + 1]) == DigitSum(ds[..m]) + ds[m]
  {
    assert ds[..m + 1][..m] == ds[..m];
  }

  /** Index of the first span at least as long as `len`, or `|frees|`. */
  function FirstFit(frees: seq<FreeSpace>, len: nat): (i: nat)
    ensures i <= |frees|
    ensures forall k :: 0 <= k < i ==> frees[k].length < len
    ensures i < |frees| ==> frees[i].length >= len
  {
    if |frees| == 0 || frees[0].length >= len then 0 else 1 + FirstFit(frees[1..], len)
  }

  /** Spans in order of position, none overlapping the next. */
  predicate Ordered(frees: seq<FreeSpace>) {
    forall i, j :: 0 <= i < j < |frees| ==> frees[i].start + frees[i].length <= frees[j].start
  }

  /** The body of the per-file closure: scan for the first span that fits;
      move there only if that span does not start after the file; use the
      span up exactly or shrink it from the front. */
  function MoveFile(frees: seq<FreeSpace>, file: FileData): (r: (seq<FreeSpace>, FileData))
    ensures r.1.id == file.id && r.1.length == file.length && r.1.start <= file.start
    ensures |r.0| <= |frees|
    ensures r.1 != file ==> var i := FirstFit(frees, file.length);
                            && i < |frees| && r.1.start == frees[i].start
                            && r.1.start + r.1.length <= frees[i].start + frees[i].length
    ensures var i := FirstFit(frees, file.length);
            i < |frees| && frees[i].start <= file.start ==>
              && r.1.start == frees[i].start
              && (frees[i].length == file.length ==> r.0 == frees[..i] + frees[i + 1..])
              && (frees[i].length > file.length ==>
                    && |r.0| == |frees|
                    && r.0[i] == FreeSpace(frees[i].length - file.length, frees[i].start + file.length)
                    && forall k :: 0 <= k < |frees| && k != i ==> r.0[k] == frees[k])
    ensures Ordered(frees) ==> Ordered(r.0)
  {
    var i := FirstFit(frees, file.length);
    if i == |frees| then (frees, file)
    else
      var span := frees[i];
      if span.start > file.start then (frees, file)
      else
        var moved := file.(start := span.start);
        if span.length == file.length then (frees[..i] + frees[i + 1..], moved)
        else (frees[i := FreeSpace(span.length - file.length, span.start + file.length)], moved)
  }

  /** Total length of the free spans. */
  function FreeTotal(frees: seq<FreeSpace>): nat {
    if |frees| == 0 then 0 else frees[0].length + FreeTotal(frees[1..])
  }

  lemma {:induction false} FreeTotalAppend(a: seq<FreeSpace>, b: seq<FreeSpace>)
    ensures FreeTotal(a + b) == FreeTotal(a) + FreeTotal(b)
  {
    if |a| > 0 {
      assert (a + b)[0] == a[0];
      assert (a + b)[1..] == a[1..] + b;
      FreeTotalAppend(a[1..], b);
    } else {
      assert a + b == b;
    }
  }

  /** The spans around index `i` and span `i` itself make up the total. */
  lemma FreeTotalAround(frees: seq<FreeSpace>, i: nat)
    requires i < |frees|
    ensures FreeTotal(frees) == FreeTotal(frees[..i]) + frees[i].length + FreeTotal(frees[i + 1..])
  {
    assert frees == frees[..i] + ([frees[i]] + frees[i + 1..]);
    FreeTotalAppend(frees[..i], [frees[i]] + frees[i + 1..]);
    FreeTotalAppend([frees[i]], frees[i + 1..]);
  }

  /** Free space is conserved: a file moves exactly when the first span that
      fits starts no later than the file, and then the spans lose exactly the
      file's length; otherwise neither the spans nor the file change. */
  lemma MoveFileAccounting(frees: seq<FreeSpace>, file: FileData)
    ensures var i := FirstFit(frees, file.length);
            var r := MoveFile(frees, file);
            if i < |frees| && frees[i].start <= file.start then
              r.1.start == frees[i].start && FreeTotal(r.0) + file.length == FreeTotal(frees)
            else
              r == (frees, file)
  {
    var i := FirstFit(frees, file.length);
    if i < |frees| && frees[i].start <= file.start {
      var r := MoveFile(frees, file);
      if frees[i].length == file.length {
        assert r.0 == frees[..i] + frees[i + 1..];
        RemoveTotal(frees, i);
      } else {
        ShrinkTotal(frees, r.0, i, file.length);
      }
    }
  }

  /** Removing span `i` removes its length from the total. */
  lemma RemoveTotal(frees: seq<FreeSpace>, i: nat)
    requires i < |frees|
    ensures FreeTotal(frees[..i] + frees[i + 1..]) + frees[i].length == FreeTotal(frees)
  {
    FreeTotalAround(frees, i);
    FreeTotalAppend(frees[..i], frees[i + 1..]);
  }

  /** Shrinking span `i` by `len` removes `len` from the total. */
  lemma ShrinkTotal(frees: seq<FreeSpace>, shrunk: seq<FreeSpace>, i: nat, len: nat)
    requires i < |frees| == |shrunk| && shrunk == frees[i := shrunk[i]]
    requires shrunk[i].length + len == frees[i].length
    ensures FreeTotal(shrunk) + len == FreeTotal(frees)
  {
    FreeTotalAround(frees, i);
    FreeTotalAround(shrunk, i);
    assert shrunk[..i] == frees[..i];
    assert shrunk[i + 1..] == frees[i + 1..];
  }

  /** `file_data.iter_mut().for_each(..)` over the files in the order given. */
  function MoveAll(files: seq<FileData>, frees: seq<FreeSpace>): (r: seq<FileData>)
    ensures |r| == |files|
    ensures forall k :: 0 <= k < |files| ==>
              r[k].id == files[k].id && r[k].length == files[k].length && r[k].start <= files[k].start
    decreases |files|
  {
    if |files| == 0 then []
    else
      var (frees', f) := MoveFile(frees, files[0]);
      [f] + MoveAll(files[1..], frees')
  }

  function Reverse<T>(s: seq<T>): (r: seq<T>)
    ensures |r| == |s| && forall k :: 0 <= k < |s| ==> r[k] == s[|s| - 1 - k]
  {
    if |s| == 0 then [] else [s[|s| - 1]] + Reverse(s[..|s| - 1])
  }

  // ---------------------------------------------------------------------
  // File checksum

  /** Σ over i < length of (start + i) · id, in closed form. */
  function FileSum(f: FileData): int {
    f.id * (f.length * f.start + Tri(f.length))
  }

  function FilesChecksum(files: seq<FileData>): int {
    if |files| == 0 then 0 else FilesChecksum(files[..|files| - 1]) + FileSum(files[|files| - 1])
  }

  /** `calcualte_file_checksum`: the per-block inner loop summed per file. */
  method CalculateFileChecksum(files: seq<FileData>) returns (sum: int)
    ensures sum == FilesChecksum(files)
  {
    sum := 0;
    var index := 0;
    while index < |files|
      invariant 0 <= index <= |files|
      invariant sum == FilesChecksum(files[..index])
    {
      var file := files[index];
      var fileacc := 0;
      var i := 0;
      while i < file.length
        invariant 0 <= i <= file.length
        invariant fileacc == file.id * (i * file.start + Tri(i))
      {
        fileacc := fileacc + (file.start + i) * file.id;
        assert file.id * ((i + 1) * file.start + Tri(i + 1))
               == file.id * (i * file.start + Tri(i)) + (file.start + i) * file.id;
        i := i + 1;
      }
      sum := sum + fileacc;
      assert files[..index + 1][..index] == files[..index];
      index := index + 1;
    }
    assert files[..index] == files;
  }

  /** Before any file moves, the file checksum of the layout is the block
      checksum of the expansion: the two parts measure the same disk. */
  lemma {:induction false} InitialChecksumsAgree(ds: seq<nat>)
    ensures FilesChecksum(Layout(ds).0) == Checksum(Expand(ds))
  {
    if |ds| > 0 {
      var n := |ds| - 1;
      var prev := Expand(ds[..n]);
      var v := BlockValue(n);
      assert Expand(ds) == prev + Repeat(v, ds[n]);
      ChecksumAppendRepeat(prev, v, ds[n]);
      InitialChecksumsAgree(ds[..n]);
      LayoutStep(ds);
      BlockRunSum(n, ds[n], |prev|);
    }
  }

  /** The run of digit `n`, `c` blocks from position `start`, adds to the
      block checksum what its file (if any) adds to the file checksum. */
  lemma BlockRunSum(n: nat, c: nat, start: nat)
    ensures (if BlockValue(n) != Free then BlockValue(n) * (c * start + Tri(c)) else 0)
            == (if n % 2 == 0 then FileSum(FileData(n / 2, c, start)) else 0)
  {
  }

  /** The last digit adds a file to the layout exactly when it is a file. */
  lemma LayoutStep(ds: seq<nat>)
    requires |ds| > 0
    ensures var n := |ds| - 1;
            FilesChecksum(Layout(ds).0)
            == FilesChecksum(Layout(ds[..n]).0) + (if n % 2 == 0 then FileSum(FileData(n / 2, ds[n], DigitSum(ds[..n]))) else 0)
  {
    var n := |ds| - 1;
    var files := Layout(ds[..n]).0;
    if n % 2 == 0 {
      var f := FileData(n / 2, ds[n], DigitSum(ds[..n]));
      assert Layout(ds).0 == files + [f];
      assert (files + [f])[..|files|] == files;
    } else {
      assert Layout(ds).0 == files;
    }
  }

  /** `do_part_two` after parsing: lay out, move the files from the highest
      id down, sum. */
  method DoPartTwo(ds: seq<nat>) returns (sum: int)
    ensures sum == FilesChecksum(MoveAll(Reverse(Layout(ds).0), Layout(ds).1))
  {
    var (files, frees) := Layout(ds);
    var moved := MoveAll(Reverse(files), frees);
    sum := CalculateFileChecksum(moved);
  }

  /** Part one after parsing: expand, compact, sum. */
  method DoPartOne(ds: seq<nat>) returns (sum: int, blocks: seq<int>)
    ensures multiset(blocks) == multiset(Expand(ds)) && Compacted(blocks)
    ensures blocks == Compaction(Expand(ds))
    ensures sum == Checksum(Compaction(Expand(ds)))
  {
    blocks := Compact(Expand(ds));
    sum := CalculateChecksum(blocks);
  }
}
