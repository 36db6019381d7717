/** Failure-carrying result types shared by the puzzle models. A Rust `panic!`
    or `unwrap` on bad input is modelled as `None` / `Panic` rather than as a
    precondition, so the error path stays visible. */
module Wrappers {

  datatype Option<+T> = None | Some(value: T)

  /** The outcome of a computation whose source can abort with a panic. */
  datatype Outcome<+T> = Done(value: T) | Panic(reason: string)
}

/** Integer helpers shared by the arithmetic models. */
module Ints {

  function Abs(x: int): nat {
    if x < 0 then -x else x
  }

  /** `b` to the power `e`; a power of a positive base is positive. */
  function Pow(b: nat, e: nat): (p: nat)
    ensures b > 0 ==> p > 0
  {
    if e == 0 then 1 else b * Pow(b, e - 1)
  }

  /** Number of decimal digits of `b` as `format!` prints it (`0` has one). */
  function Digits(b: nat): (d: nat)
    ensures d >= 1
  {
    if b < 10 then 1 else 1 + Digits(b / 10)
  }

  /** `b` is below 10 to the power of its digit count. */
  lemma {:induction false} DigitsBound(b: nat)
    ensures b < Pow(10, Digits(b))
  {
    if b >= 10 {
      DigitsBound(b / 10);
    }
  }

  /** A number between 10^(d-1) and 10^d has exactly `d` digits. */
  lemma {:induction false} DigitsExact(b: nat, d: nat)
    requires d >= 1 && Pow(10, d - 1) <= b < Pow(10, d)
    ensures Digits(b) == d
  {
    if d > 1 {
      assert Pow(10, d - 1) == 10 * Pow(10, d - 2);
      assert Pow(10, d) == 10 * Pow(10, d - 1);
      DigitsExact(b / 10, d - 1);
    }
  }
}

/** Sequence predicates shared by the models. */
module Seqs {

  /** No element occurs twice. */
  predicate NoDup<T(==)>(s: seq<T>) {
    forall i, j :: 0 <= i < j < |s| ==> s[i] != s[j]
  }
}
