/** Day 7: can a row's numbers, combined strictly left to right with `+`,
    `*` and decimal concatenation, reach the row's total? Every operator
    sequence is tried by counting through its base-3 encodings. */
module BridgeCalibration {
  import opened Ints

  datatype Op = Add | Mul | Cat

  // ---------------------------------------------------------------------
  // Decimal concatenation

  /** `format!("{}{}", a, b).parse()` for non-negative operands: `a` shifted
      left by the digits of `b`, then `b`. */
  function Concat(a: nat, b: nat): nat {
    a * Pow(10, Digits(b)) + b
  }

  /** Concatenation loses nothing: the right operand is the low digits and
      the left operand the rest. */
  lemma ConcatSplits(a: nat, b: nat)
    ensures Concat(a, b) % Pow(10, Digits(b)) == b
    ensures Concat(a, b) / Pow(10, Digits(b)) == a
  {
    DigitsBound(b);
    DivUnique(Concat(a, b), Pow(10, Digits(b)), a, b);
  }

  /** Division has one quotient and remainder. */
  lemma DivUnique(x: int, d: int, q: int, r: int)
    requires d > 0 && 0 <= r < d && x == d * q + r
    ensures x / d == q && x % d == r
  {
    var q0, r0 := x / d, x % d;
    assert (q - q0 + 1) * d == r0 - r + d;
    PositiveFactor(q - q0 + 1, d);
    assert (q0 - q + 1) * d == r - r0 + d;
    PositiveFactor(q0 - q + 1, d);
  }

  lemma PositiveFactor(a: int, b: int)
    requires b > 0 && a * b > 0
    ensures a > 0
  {
  }

  lemma MulLe(a: nat, u: nat, v: nat)
    requires u <= v
    ensures a * u <= a * v
  {
  }

  /** Dividing by `a` then by `b` is dividing by `a * b`. */
  lemma DivDiv(x: nat, a: nat, b: nat)
    requires a > 0 && b > 0
    ensures x / a / b == x / (a * b)
  {
    var q, r := x / a, x % a;
    var q2, r2 := q / b, q % b;
    assert x == a * q + r;
    assert q == b * q2 + r2;
    assert a * q == (a * b) * q2 + a * r2 by {
      assert a * (b * q2 + r2) == a * (b * q2) + a * r2;
      assert a * (b * q2) == (a * b) * q2;
    }
    assert a * r2 + r < a * b by {
      MulLe(a, r2, b - 1);
      assert a * (b - 1) == a * b - a;
    }
    DivUnique(x, a * b, q2, a * r2 + r);
  }

  // ---------------------------------------------------------------------
  // Evaluation

  function Apply(op: Op, acc: nat, x: nat): nat {
    match op
    case Add => acc + x
    case Mul => acc * x
    case Cat => Concat(acc, x)
  }

  /** The running total after the first `j` operators. */
  function EvalUpTo(data: seq<nat>, ops: seq<Op>, j: nat): nat
    requires |data| == |ops| + 1 && j <= |ops|
  {
    if j == 0 then data[0] else Apply(ops[j - 1], EvalUpTo(data, ops, j - 1), data[j])
  }

  /** `data` combined by `ops`, strictly left to right. */
  function Eval(data: seq<nat>, ops: seq<Op>): nat
    requires |data| == |ops| + 1
  {
    EvalUpTo(data, ops, |ops|)
  }

  /** Some operator sequence takes `data` to `total`. */
  ghost predicate Reachable(data: seq<nat>, total: int) {
    exists ops: seq<Op> :: |ops| + 1 == |data| && Eval(data, ops) == total
  }

  // ---------------------------------------------------------------------
  // Base-3 encodings of operator sequences

  /** The operator of one base-3 digit: 0 adds, 1 multiplies, 2 concatenates. */
  function OpOf(digit: nat): Op
    requires digit < 3
  {
    if digit == 0 then Add else if digit == 1 then Mul else Cat
  }

  function Code(op: Op): nat {
    match op
    case Add => 0
    case Mul => 1
    case Cat => 2
  }

  /** The `n` operators that encoding `i` stands for, least significant
      digit first. */
  function Decode(i: nat, n: nat): (ops: seq<Op>)
    ensures |ops| == n
  {
    if n == 0 then [] else [OpOf(i % 3)] + Decode(i / 3, n - 1)
  }

  /** The encoding of `ops`. */
  function Encode(ops: seq<Op>): nat {
    if |ops| == 0 then 0 else Code(ops[0]) + 3 * Encode(ops[1..])
  }

  /** Every operator sequence has an encoding among the `3^n` tried, and
      that encoding decodes back to it. */
  lemma {:induction false} EncodeDecode(ops: seq<Op>)
    ensures Encode(ops) < Pow(3, |ops|)
    ensures Decode(Encode(ops), |ops|) == ops
  {
    if |ops| > 0 {
      EncodeDecode(ops[1..]);
      var e := Encode(ops[1..]);
      assert (Code(ops[0]) + 3 * e) % 3 == Code(ops[0]);
      assert (Code(ops[0]) + 3 * e) / 3 == e;
      assert OpOf(Code(ops[0])) == ops[0];
    }
  }

  /** Base-3 digit `j` of `i`, as the loop computes it with `3usize.pow(j)`. */
  function Digit(i: nat, j: nat): (d: nat)
    ensures d < 3
  {
    (i / Pow(3, j)) % 3
  }

  /** Digit `j` of the encoding is the `j`-th operator: what the loop reads
      as `(i / 3^j) % 3`. */
  lemma {:induction false} DecodeAt(i: nat, n: nat, j: nat)
    requires j < n
    ensures Decode(i, n)[j] == OpOf(Digit(i, j))
  {
    if j > 0 {
      DecodeAt(i / 3, n - 1, j - 1);
      DivDiv(i, 3, Pow(3, j - 1));
    }
  }

  // ---------------------------------------------------------------------
  // get_is_product_possible

  /** The inner loop of `get_is_product_possible`: apply to the numbers, left
      to right, the operators whose base-3 digits make up `i`. */
  method EvalEncoding(data: seq<nat>, i: nat) returns (current: nat)
    requires |data| > 0
    ensures current == Eval(data, Decode(i, |data| - 1))
  {
    var opCount := |data| - 1;
    ghost var ops := Decode(i, opCount);
    current := data[0];
    var j := 0;
    while j < opCount
      invariant 0 <= j <= opCount
      invariant current == EvalUpTo(data, ops, j)
    {
      var op := Digit(i, j);
      DecodeAt(i, opCount, j);
      assert ops[j] == OpOf(op);
      if op == 0 {
        current := current + data[j + 1];
      } else if op == 1 {
        current := current * data[j + 1];
      } else {
        current := Concat(current, data[j + 1]);
      }
      j := j + 1;
    }
  }

  /** `get_is_product_possible`: false for no numbers, a comparison for one,
      and otherwise a search through every base-3 encoding that stops at the
      first sequence whose left-to-right value is the total. The numbers are
      non-negative, so concatenation is the arithmetic `Concat`. */
  method GetIsProductPossible(data: seq<nat>, total: int) returns (r: bool)
    ensures |data| == 0 ==> !r
    ensures |data| == 1 ==> (r <==> data[0] == total)
    ensures r <==> Reachable(data, total)
  {
    var n := |data|;
    if n == 0 {
      return false;
    }
    var opCount := n - 1;
    if opCount == 0 {
      assert Eval(data, []) == data[0];
      return data[0] == total;
    }
    var totalCombinations := Pow(3, opCount);
    var i := 0;
    while i < totalCombinations
      invariant 0 <= i <= totalCombinations
      invariant forall k :: 0 <= k < i ==> Eval(data, Decode(k, opCount)) != total
    {
      var current := EvalEncoding(data, i);
      if current == total {
        return true;
      }
      i := i + 1;
    }
    forall ops: seq<Op> | |ops| + 1 == |data|
      ensures Eval(data, ops) != total
    {
      EncodeDecode(ops);
    }
    return false;
  }

  /** Equations from the puzzle's own example: `156: 15 6` needs a
      concatenation, `3267: 81 40 27` two different operators. */
  lemma ExampleEquations()
    ensures Reachable([15, 6], 156)
    ensures Reachable([81, 40, 27], 3267)
  {
    assert Eval([15, 6], [Cat]) == 156;
    assert EvalUpTo([81, 40, 27], [Mul, Add], 1) == 3240;
    assert Eval([81, 40, 27], [Mul, Add]) == 3267;
  }

  // ---------------------------------------------------------------------
  // The total in main

  /** One parsed line: the test value and its numbers. */
  datatype Equation = Equation(total: int, numbers: seq<nat>)

  /** The sum of the totals of the equations some operator sequence
      satisfies. */
  ghost function CalibrationSum(eqs: seq<Equation>): int {
    if |eqs| == 0 then 0
    else
      var e := eqs[|eqs| - 1];
      CalibrationSum(eqs[..|eqs| - 1]) + (if Reachable(e.numbers, e.total) then e.total else 0)
  }

  /** The fold in `main`: add each satisfiable equation's total. */
  method TotalCalibration(eqs: seq<Equation>) returns (sum: int)
    ensures sum == CalibrationSum(eqs)
  {
    sum := 0;
    var k := 0;
    while k < |eqs|
      invariant 0 <= k <= |eqs|
      invariant sum == CalibrationSum(eqs[..k])
    {
      var possible := GetIsProductPossible(eqs[k].numbers, eqs[k].total);
      if possible {
        sum := sum + eqs[k].total;
      }
      assert eqs[..k + 1][..k] == eqs[..k];
      k := k + 1;
    }
    assert eqs[..k] == eqs;
  }

  /** The calibration sum never exceeds the sum of all non-negative totals. */
  lemma {:induction false} CalibrationSumBound(eqs: seq<Equation>)
    requires forall k :: 0 <= k < |eqs| ==> eqs[k].total >= 0
    ensures 0 <= CalibrationSum(eqs) <= TotalOf(eqs)
  {
    if |eqs| > 0 {
      CalibrationSumBound(eqs[..|eqs| - 1]);
    }
  }

  function TotalOf(eqs: seq<Equation>): int {
    if |eqs| == 0 then 0 else TotalOf(eqs[..|eqs| - 1]) + eqs[|eqs| - 1].total
  }
}
