/** The fragments of Python and numpy semantics that the splitter relies on:
    floor division `//`, the `int()` conversion of a number, `numpy.arange`
    and one-step slicing `a[lo:hi]` with Python's treatment of negative and
    out-of-range bounds. */
module PythonSemantics {

  function Min(a: int, b: int): int { if a <= b then a else b }

  /** Python's `a // b` on integers, which rounds toward negative infinity;
      Dafny's `/` is Euclidean, which differs when `b` is negative. The
      remainder `a - b * q` has the sign of `b` and is smaller than `|b|`. */
  function FloorDiv(a: int, b: int): (q: int)
    requires b != 0
    ensures b > 0 ==> b * q <= a < b * q + b
    ensures b < 0 ==> b * q + b < a <= b * q
  {
    if b > 0 then a / b else (-a) / (-b)
  }

  /** How many whole times `b` fits into the count `a`, by repeated
      subtraction: floor division of a count by a positive number. */
  function DivCount(a: nat, b: nat): (q: nat)
    requires b > 0
    ensures q <= a
    ensures q == 0 <==> a < b
    decreases a
  {
    if a < b then 0 else 1 + DivCount(a - b, b)
  }

  /** Repeated subtraction agrees with Python's `//` on counts. */
  lemma {:induction false} DivCountIsFloorDiv(a: nat, b: nat)
    requires b > 0
    ensures DivCount(a, b) == FloorDiv(a, b)
  {
    if a >= b {
      DivCountIsFloorDiv(a - b, b);
      var q := FloorDiv(a - b, b);
      assert b * (q + 1) == b * q + b;
      QuotientUnique(a, b, q + 1, FloorDiv(a, b));
    }
  }

  /** At most one quotient leaves a remainder in `[0, b)`. */
  lemma QuotientUnique(a: int, b: int, x: int, y: int)
    requires b > 0
    requires b * x <= a < b * x + b
    requires b * y <= a < b * y + b
    ensures x == y
  {
    if x < y {
      assert (x + 1) * b == b * x + b;
      MulMonotone(x + 1, y, b);
    } else if y < x {
      assert (y + 1) * b == b * y + b;
      MulMonotone(y + 1, x, b);
    }
  }

  /** Scaling by a non-negative factor keeps the order. */
  lemma MulMonotone(a: int, b: int, k: int)
    requires a <= b && 0 <= k
    ensures a * k <= b * k
  {
    assert b * k - a * k == (b - a) * k;
  }

  /** A fraction of a non-negative amount lies between zero and the amount. */
  lemma FractionBounds(t: real, x: real)
    requires 0.0 <= t <= 1.0 && 0.0 <= x
    ensures 0.0 <= t * x <= x
  {
    assert x - t * x == (1.0 - t) * x;
  }

  /** Python's `int(x)` on a number: truncation toward zero. */
  function Trunc(x: real): (r: int)
    ensures 0.0 <= x ==> 0 <= r && r as real <= x < r as real + 1.0
    ensures x < 0.0 ==> r <= 0 && r as real - 1.0 < x <= r as real
  {
    if x >= 0.0 then x.Floor else -((-x).Floor)
  }

  /** `int()` of a fraction of a count is a whole number between zero and
      that count, and it is the floor of the product. */
  lemma TruncFraction(t: real, k: int)
    requires 0.0 <= t <= 1.0 && 0 <= k
    ensures 0 <= Trunc(t * k as real) <= k
    ensures Trunc(t * k as real) == (t * k as real).Floor
  {
    var x := t * k as real;
    FractionBounds(t, k as real);
    var r := Trunc(x);
    assert r as real <= x <= k as real;
  }

  /** `int()` of a scaled count: at least zero for a non-negative factor, and
      at most the count for a factor in `[0, 1]`. */
  lemma TruncScaled(t: real, k: nat)
    ensures 0.0 <= t ==> 0 <= Trunc(t * k as real)
    ensures 0.0 <= t <= 1.0 ==> Trunc(t * k as real) <= k
  {
    if 0.0 <= t <= 1.0 {
      TruncFraction(t, k);
    } else if 0.0 <= t {
      assert 0.0 <= t * k as real;
    }
  }

  /** Where a slice bound `i` lands in a sequence of length `len`: a negative
      bound counts from the end, and the result is clamped into `[0, len]`. */
  function SliceBound(i: int, len: nat): (b: nat)
    ensures b <= len
    ensures 0 <= i ==> b == Min(i, len)
    ensures i < 0 && 0 <= i + len ==> b == i + len
    ensures i + len < 0 ==> b == 0
  {
    if i < 0 then (if i + len < 0 then 0 else i + len)
    else if i > len then len
    else i
  }

  /** `s[lo:hi]`: the elements between the two normalised bounds, or nothing
      when the lower bound is not below the upper one (never an error). */
  function Slice<T>(s: seq<T>, lo: int, hi: int): (r: seq<T>)
    ensures |r| <= |s|
    ensures SliceBound(lo, |s|) >= SliceBound(hi, |s|) ==> r == []
  {
    var a := SliceBound(lo, |s|);
    var b := SliceBound(hi, |s|);
    if a < b then s[a..b] else []
  }

  /** How many values `range(m)` produces. */
  function RangeLen(m: int): (r: nat)
    ensures m <= 0 ==> r == 0
    ensures 0 <= m ==> r == m
  {
    if m > 0 then m else 0
  }

  /** `numpy.arange(n)`: the indices `0, 1, ..., n - 1`. */
  function Arange(n: nat): (r: seq<int>)
    ensures |r| == n
    ensures forall j :: 0 <= j < n ==> r[j] == j
  {
    seq(n, j => j)
  }

  /** The integers of the half-open range `[lo, hi)` in increasing order;
      empty when `lo >= hi`. */
  function Interval(lo: int, hi: int): (r: seq<int>)
    ensures |r| == if lo < hi then hi - lo else 0
  {
    if lo < hi then seq(hi - lo, j => lo + j) else []
  }

  /** Position `j` of an interval holds `lo + j`: the elements are consecutive. */
  lemma IntervalAt(lo: int, hi: int, j: int)
    requires 0 <= j < |Interval(lo, hi)|
    ensures lo + j < hi && Interval(lo, hi)[j] == lo + j
  {
  }

  /** Membership in an interval is exactly the range test. */
  lemma InInterval(lo: int, hi: int, x: int)
    ensures x in Interval(lo, hi) <==> lo <= x < hi
  {
    if lo <= x < hi {
      assert Interval(lo, hi)[x - lo] == x;
    }
  }

  /** Every member of an interval passes the range test. */
  lemma InIntervalBounds(lo: int, hi: int)
    ensures forall x :: x in Interval(lo, hi) ==> lo <= x < hi
  {
    forall x | x in Interval(lo, hi)
      ensures lo <= x < hi
    {
      InInterval(lo, hi, x);
    }
  }

  /** Slicing `arange(n)` gives back the positions it selects: every element
      of the slice equals its index in the original array. */
  lemma ArangeSlice(n: nat, lo: int, hi: int)
    ensures Slice(Arange(n), lo, hi) == Interval(SliceBound(lo, n), SliceBound(hi, n))
  {
    var a, b := SliceBound(lo, n), SliceBound(hi, n);
    if a < b {
      var r := Slice(Arange(n), lo, hi);
      assert r == Arange(n)[a..b];
      assert forall j :: 0 <= j < b - a ==> r[j] == a + j;
    }
  }
}
