/**
 * Positional notation in an arbitrary base, most significant digit first: the shortest form
 * that `{}` and `{:x}` print, and the fixed-width form of `to_be_bytes`.
 */
module Digits {

  type Base = b: nat | 2 <= b witness 2

  ghost predicate AreDigits(d: seq<nat>, b: Base) {
    forall i | 0 <= i < |d| :: d[i] < b
  }

  /** The number a digit string stands for. */
  function Value(d: seq<nat>, b: Base): (n: nat) {
    if d == [] then 0 else Value(d[..|d| - 1], b) * b + d[|d| - 1]
  }

  /** No leading zero, except in the one-digit zero. */
  predicate Canonical(d: seq<nat>) {
    d != [] && (d[0] == 0 ==> |d| == 1)
  }

  function Pow(b: Base, w: nat): (p: nat)
    ensures p >= 1
  {
    if w == 0 then 1 else PowStep(b, Pow(b, w - 1)); Pow(b, w - 1) * b
  }

  /** The shortest digits of a number. */
  function Shortest(n: nat, b: Base): (d: seq<nat>)
    ensures AreDigits(d, b) && Canonical(d)
    decreases n
  {
    if n < b then [n]
    else
      Quotient(n, b);
      Shortest(n / b, b) + [n % b]
  }

  /** The last `w` digits of a number, padded with zeros on the left. */
  function Fixed(n: nat, b: Base, w: nat): (d: seq<nat>)
    ensures AreDigits(d, b) && |d| == w
    decreases w
  {
    if w == 0 then [] else Quotient(n, b); Fixed(n / b, b, w - 1) + [n % b]
  }

  // Arithmetic ------------------------------------------------------------------------------

  lemma PowStep(b: Base, p: nat)
    requires p >= 1
    ensures p * b >= 1
  {}

  lemma MulAtLeast(k: int, b: int)
    requires 0 < b
    ensures k >= 1 ==> k * b >= b
    ensures k <= -1 ==> k * b <= -b
  {}

  lemma Quotient(n: nat, b: Base)
    ensures 0 <= n % b < b && n == n / b * b + n % b && 0 <= n / b
    ensures b <= n ==> 0 < n / b < n
  {
    MulAtLeast(n / b, b);
  }

  lemma QuotientBelow(n: nat, b: Base, p: nat)
    requires n < p * b
    ensures n / b < p
  {
    Quotient(n, b);
    var k := n / b - p;
    assert n / b * b == p * b + k * b;
    MulAtLeast(k, b);
  }

  lemma DivMod(x: nat, r: nat, b: Base)
    requires r < b
    ensures (x * b + r) / b == x && (x * b + r) % b == r
  {
    var n := x * b + r;
    Quotient(n, b);
    assert (x - n / b) * b == n % b - r;
    MulAtLeast(x - n / b, b);
  }

  lemma MulLess(x: nat, y: nat, b: nat)
    requires x < y && 0 < b
    ensures x * b + b <= y * b
  {
    var k := y - x;
    MulAtLeast(k, b);
    assert (x + k) * b == x * b + k * b;
  }

  // Round trips -----------------------------------------------------------------------------

  lemma {:induction false} ValueOfShortest(n: nat, b: Base)
    ensures Value(Shortest(n, b), b) == n
    decreases n
  {
    if n >= b {
      Quotient(n, b);
      ValueOfShortest(n / b, b);
      var d := Shortest(n / b, b);
      assert (d + [n % b])[..|d|] == d;
    }
  }

  lemma {:induction false} ValuePositive(d: seq<nat>, b: Base)
    requires Canonical(d) && d[0] != 0
    ensures Value(d, b) > 0
    decreases |d|
  {
    var init := d[..|d| - 1];
    if init != [] {
      ValuePositive(init, b);
      MulLess(0, Value(init, b), b);
    }
  }

  /** Canonical digits are the only ones a number is printed with. */
  lemma {:induction false} ShortestOfValue(d: seq<nat>, b: Base)
    requires AreDigits(d, b) && Canonical(d)
    ensures Shortest(Value(d, b), b) == d
    decreases |d|
  {
    var init, r := d[..|d| - 1], d[|d| - 1];
    assert d == init + [r];
    if init != [] {
      ShortestOfValue(init, b);
      ValuePositive(init, b);
      var x := Value(init, b);
      DivMod(x, r, b);
      MulLess(0, x, b);
      assert x * b + r >= b;
      assert Shortest(x * b + r, b) == Shortest(x, b) + [r];
    } else {
      assert Value(init, b) == 0;
      assert d == [r];
    }
  }

  lemma {:induction false} ValueBound(d: seq<nat>, b: Base)
    requires AreDigits(d, b)
    ensures Value(d, b) < Pow(b, |d|)
    decreases |d|
  {
    if d != [] {
      ValueBound(d[..|d| - 1], b);
      MulLess(Value(d[..|d| - 1], b), Pow(b, |d| - 1), b);
    }
  }

  lemma {:induction false} ValueOfFixed(n: nat, b: Base, w: nat)
    requires n < Pow(b, w)
    ensures Value(Fixed(n, b, w), b) == n
    decreases w
  {
    if w > 0 {
      var q, r := n / b, n % b;
      Quotient(n, b);
      QuotientBelow(n, b, Pow(b, w - 1));
      ValueOfFixed(q, b, w - 1);
      var d := Fixed(q, b, w - 1);
      assert Fixed(n, b, w) == d + [r];
      assert (d + [r])[..|d|] == d;
    }
  }

  lemma {:induction false} FixedOfValue(d: seq<nat>, b: Base)
    requires AreDigits(d, b)
    ensures Fixed(Value(d, b), b, |d|) == d
    decreases |d|
  {
    if d != [] {
      var init, r := d[..|d| - 1], d[|d| - 1];
      FixedOfValue(init, b);
      DivMod(Value(init, b), r, b);
      assert d == init + [r];
    }
  }
}
