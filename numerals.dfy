/**
 * Positional numerals in a base `b`, most significant digit first.
 * Base 256 gives the big-endian bytes of a word (readUInt32BE / writeUInt32BE),
 * base 85 gives the Ascii85 digits of a group.
 */
module Numerals {

  /** An 8-bit value, as read by readUInt8 and written by writeUInt8. */
  type byte = x: int | 0 <= x < 256

  function Pow(b: nat, e: nat): (r: nat)
    ensures b > 0 ==> r > 0
  {
    if e == 0 then 1 else b * Pow(b, e - 1)
  }

  /** Value of `ds` in base `b`, accumulated as `acc * b + d` from the first digit on. */
  function FromDigits(ds: seq<nat>, b: nat): nat
  {
    if ds == [] then 0 else FromDigits(ds[..|ds| - 1], b) * b + ds[|ds| - 1]
  }

  /** The `n` lowest digits of `x` in base `b`, most significant first. */
  function ToDigits(x: nat, n: nat, b: nat): (r: seq<nat>)
    requires b > 0
    ensures |r| == n
    decreases n
  {
    if n == 0 then [] else ToDigits(x / b, n - 1, b) + [x % b]
  }

  /** Every digit of `ds` is a digit of base `b`. */
  predicate DigitsBelow(ds: seq<nat>, b: nat)
  {
    forall k :: 0 <= k < |ds| ==> ds[k] < b
  }

  // ---------------------------------------------------------------------
  // Arithmetic facts

  lemma PowPositive(b: nat, e: nat)
    requires b > 0
    ensures Pow(b, e) > 0
  {
    if e > 0 {
      PowPositive(b, e - 1);
    }
  }

  lemma {:induction false} PowAdd(b: nat, x: nat, y: nat)
    ensures Pow(b, x + y) == Pow(b, x) * Pow(b, y)
  {
    if y > 0 {
      PowAdd(b, x, y - 1);
      assert Pow(b, x + y) == b * Pow(b, x + y - 1);
      assert Pow(b, y) == b * Pow(b, y - 1);
      MulRotate(b, Pow(b, x), Pow(b, y - 1));
    }
  }

  lemma {:induction false} PowMonotoneBase(a: nat, b: nat, e: nat)
    requires a <= b
    ensures Pow(a, e) <= Pow(b, e)
  {
    if e > 0 {
      PowMonotoneBase(a, b, e - 1);
      MulMonotone(a, Pow(a, e - 1), b, Pow(b, e - 1));
    }
  }

  lemma MulMonotone(a: nat, x: nat, b: nat, y: nat)
    requires a <= b && x <= y
    ensures a * x <= b * y
  {
    assert a * x <= b * x;
    assert b * x <= b * y;
  }

  lemma DivModUnique(x: int, d: int, q: int, r: int)
    requires 0 < d && 0 <= r < d && x == q * d + r
    ensures x / d == q && x % d == r
  {
    var q', r' := x / d, x % d;
    assert x == q' * d + r';
    assert (q' - q) * d == r - r' by {
      MulSub(q', q, d);
    }
    if q' > q {
      MulAtLeast(q' - q, d);
    } else if q' < q {
      MulAtLeast(q - q', d);
      MulSub(q, q', d);
    }
  }

  lemma MulRotate(a: int, c: int, d: int)
    ensures a * (c * d) == c * (a * d)
  {
  }

  lemma MulSub(a: int, b: int, d: int)
    ensures (a - b) * d == a * d - b * d
  {
  }

  lemma MulAtLeast(k: int, d: int)
    requires k >= 1 && d > 0
    ensures k * d >= d
  {
  }

  lemma DivDiv(x: nat, a: nat, b: nat)
    requires a > 0 && b > 0
    ensures x / a / b == x / (a * b)
  {
    var q := x / a / b;
    var r := (x / a % b) * a + x % a;
    assert x / a == b * q + x / a % b;
    assert x == a * (x / a) + x % a;
    assert x == q * (a * b) + r by {
      assert a * (x / a) == a * (b * q) + a * (x / a % b);
      assert a * (b * q) == q * (a * b);
    }
    MulMonotone(x / a % b, a, b - 1, a);
    assert r < a * b;
    DivModUnique(x, a * b, q, r);
  }

  lemma ModSplit(x: nat, b: nat, p: nat)
    requires b > 0 && p > 0
    ensures (x / b % p) * b + x % b == x % (b * p)
  {
    var q := x / b / p;
    var r := (x / b % p) * b + x % b;
    assert x / b == p * q + x / b % p;
    assert x == b * (x / b) + x % b;
    assert x == q * (b * p) + r by {
      assert b * (x / b) == b * (p * q) + b * (x / b % p);
      assert b * (p * q) == q * (b * p);
    }
    MulMonotone(x / b % p, b, p - 1, b);
    DivModUnique(x, b * p, q, r);
  }

  // ---------------------------------------------------------------------
  // Digits and values

  /** Every digit `ToDigits` produces is a digit of the base. */
  lemma {:induction false} DigitsInBase(x: nat, n: nat, b: nat)
    requires b > 0
    ensures DigitsBelow(ToDigits(x, n, b), b)
    decreases n
  {
    if n > 0 {
      DigitsInBase(x / b, n - 1, b);
      assert ToDigits(x, n, b) == ToDigits(x / b, n - 1, b) + [x % b];
    }
  }

  /** The digits of `x` spell `x` modulo `b^n`. */
  lemma {:induction false} DigitsValue(x: nat, n: nat, b: nat)
    requires b > 0
    ensures FromDigits(ToDigits(x, n, b), b) == x % Pow(b, n)
    decreases n
  {
    if n > 0 {
      var ds := ToDigits(x, n, b);
      assert ds[..n - 1] == ToDigits(x / b, n - 1, b);
      DigitsValue(x / b, n - 1, b);
      PowPositive(b, n - 1);
      ModSplit(x, b, Pow(b, n - 1));
    }
  }

  /** A value below `b^|ds|` determines its digits. */
  lemma {:induction false} ValueBound(ds: seq<nat>, b: nat)
    requires b > 0 && DigitsBelow(ds, b)
    ensures FromDigits(ds, b) < Pow(b, |ds|)
  {
    if ds != [] {
      var init := ds[..|ds| - 1];
      var f, p := FromDigits(init, b), Pow(b, |init|);
      assert DigitsBelow(init, b);
      ValueBound(init, b);
      assert FromDigits(ds, b) == f * b + ds[|ds| - 1];
      assert Pow(b, |ds|) == b * p;
      MulMonotone(f, b, p - 1, b);
      MulSub(p, 1, b);
    }
  }

  /** Converting digits to their value and back gives the same digits. */
  lemma {:induction false} DigitsOfValue(ds: seq<nat>, b: nat)
    requires b > 0 && DigitsBelow(ds, b)
    ensures ToDigits(FromDigits(ds, b), |ds|, b) == ds
  {
    if ds != [] {
      var init := ds[..|ds| - 1];
      var x := FromDigits(ds, b);
      DivModUnique(x, b, FromDigits(init, b), ds[|ds| - 1]);
      DigitsOfValue(init, b);
    }
  }

  /** Digit `j` of `x` is `x / b^(n-1-j)` modulo `b`. */
  lemma {:induction false} DigitAt(x: nat, n: nat, b: nat, j: nat)
    requires b > 0 && j < n
    ensures ToDigits(x, n, b)[j] == x / Pow(b, n - 1 - j) % b
    decreases n
  {
    var ds := ToDigits(x, n, b);
    assert ds == ToDigits(x / b, n - 1, b) + [x % b];
    if j < n - 1 {
      DigitAt(x / b, n - 1, b, j);
      PowPositive(b, n - 2 - j);
      DivDiv(x, b, Pow(b, n - 2 - j));
      assert Pow(b, n - 1 - j) == b * Pow(b, n - 2 - j);
      assert ds[j] == ToDigits(x / b, n - 1, b)[j];
    }
  }

  /** The high `m` of `m + p` digits are the digits of the quotient by `b^p`. */
  lemma {:induction false} DigitsSplit(x: nat, m: nat, p: nat, b: nat)
    requires b > 0
    ensures ToDigits(x, m + p, b) == ToDigits(x / Pow(b, p), m, b) + ToDigits(x, p, b)
    decreases p
  {
    if p > 0 {
      DigitsSplit(x / b, m, p - 1, b);
      PowPositive(b, p - 1);
      DivDiv(x, b, Pow(b, p - 1));
      assert Pow(b, p) == b * Pow(b, p - 1);
      assert x / b / Pow(b, p - 1) == x / Pow(b, p);
      var high, low := ToDigits(x / Pow(b, p), m, b), ToDigits(x / b, p - 1, b);
      assert ToDigits(x, m + p, b) == (high + low) + [x % b];
      assert ToDigits(x, p, b) == low + [x % b];
      assert (high + low) + [x % b] == high + (low + [x % b]);
    } else {
      assert x / Pow(b, p) == x;
      assert ToDigits(x, m + p, b) + [] == ToDigits(x, m + p, b);
    }
  }

  /** Value of a concatenation of digit strings. */
  lemma {:induction false} ValueAppend(xs: seq<nat>, ys: seq<nat>, b: nat)
    ensures FromDigits(xs + ys, b) == FromDigits(xs, b) * Pow(b, |ys|) + FromDigits(ys, b)
  {
    if ys == [] {
      assert xs + ys == xs;
    } else {
      var init := ys[..|ys| - 1];
      assert (xs + ys)[..|xs + ys| - 1] == xs + init;
      ValueAppend(xs, init, b);
      ShiftIn(FromDigits(xs, b), Pow(b, |init|), FromDigits(init, b), b, ys[|ys| - 1]);
    }
  }

  lemma ShiftIn(a: int, p: int, c: int, b: int, d: int)
    ensures (a * p + c) * b + d == a * (b * p) + (c * b + d)
  {
  }

  /** Zero has only zero digits. */
  lemma ZeroDigits(n: nat, b: nat)
    requires b > 0
    ensures forall k :: 0 <= k < n ==> ToDigits(0, n, b)[k] == 0
  {
    forall k | 0 <= k < n ensures ToDigits(0, n, b)[k] == 0 {
      DigitAt(0, n, b, k);
      PowPositive(b, n - 1 - k);
    }
  }
}
