/** Fixed-width big-endian numerals, and the order their digits sort in. */
module Numerals {

  /** Bytes, or base32 characters of five bits. */
  datatype Base = Byte | Char32

  function Size(b: Base): int {
    match b case Byte => 256 case Char32 => 32
  }

  function Low(v: int, b: Base): int {
    match b case Byte => v % 256 case Char32 => v % 32
  }

  function High(v: int, b: Base): int {
    match b case Byte => v / 256 case Char32 => v / 32
  }

  function Join(high: int, low: int, b: Base): int {
    match b case Byte => 256 * high + low case Char32 => 32 * high + low
  }

  /** How many numerals of n digits there are. */
  function Capacity(b: Base, n: nat): int {
    if n == 0 then 1 else Join(Capacity(b, n - 1), 0, b)
  }

  ghost predicate InBase(ds: seq<int>, b: Base) {
    forall i :: 0 <= i < |ds| ==> 0 <= ds[i] < Size(b)
  }

  /** The low n digits of v. */
  function Digits(v: int, b: Base, n: nat): (ds: seq<int>)
    ensures |ds| == n && InBase(ds, b)
    decreases n
  {
    if n == 0 then [] else Digits(High(v, b), b, n - 1) + [Low(v, b)]
  }

  function Value(ds: seq<int>, b: Base): int {
    if |ds| == 0 then 0 else Join(Value(ds[..|ds| - 1], b), ds[|ds| - 1], b)
  }

  /** Lexicographic order on sequences of one length. */
  ghost predicate Before(x: seq<int>, y: seq<int>)
    requires |x| == |y|
  {
    exists i :: 0 <= i < |x| && x[..i] == y[..i] && x[i] < y[i]
  }

  lemma {:induction false} ValueRange(ds: seq<int>, b: Base)
    requires InBase(ds, b)
    ensures 0 <= Value(ds, b) < Capacity(b, |ds|)
  {
    if |ds| > 0 {
      ValueRange(ds[..|ds| - 1], b);
    }
  }

  /** Reading a numeral and writing it again gives the same digits. */
  lemma {:induction false} DigitsOfValue(ds: seq<int>, b: Base)
    requires InBase(ds, b)
    ensures Digits(Value(ds, b), b, |ds|) == ds
  {
    if |ds| > 0 {
      DigitsOfValue(ds[..|ds| - 1], b);
    }
  }

  /** Writing a number that fits and reading it back gives the number. */
  lemma {:induction false} ValueOfDigits(v: int, b: Base, n: nat)
    requires 0 <= v < Capacity(b, n)
    ensures Value(Digits(v, b, n), b) == v
    decreases n
  {
    if n > 0 {
      ValueOfDigits(High(v, b), b, n - 1);
      assert Digits(v, b, n)[..n - 1] == Digits(High(v, b), b, n - 1);
    }
  }

  lemma BeforeExtends(x: seq<int>, y: seq<int>, u: seq<int>, v: seq<int>)
    requires |x| == |y| && |u| == |v| && Before(x, y)
    ensures Before(x + u, y + v)
  {
    var i :| 0 <= i < |x| && x[..i] == y[..i] && x[i] < y[i];
    assert (x + u)[..i] == x[..i];
    assert (y + v)[..i] == y[..i];
  }

  /** The order by its last digit. */
  lemma BeforeStep(x: seq<int>, y: seq<int>)
    requires |x| == |y| > 0
    ensures var n := |x| - 1;
            Before(x, y) <==> Before(x[..n], y[..n]) || (x[..n] == y[..n] && x[n] < y[n])
  {
    var n := |x| - 1;
    if Before(x, y) {
      var i :| 0 <= i < |x| && x[..i] == y[..i] && x[i] < y[i];
      if i < n {
        assert x[..n][..i] == x[..i] && y[..n][..i] == y[..i];
        assert x[..n][i] < y[..n][i];
      }
    }
    if Before(x[..n], y[..n]) {
      BeforeExtends(x[..n], y[..n], [x[n]], [y[n]]);
      assert x == x[..n] + [x[n]] && y == y[..n] + [y[n]];
    }
  }

  /** Numerals of one width sort the way the numbers they stand for do. */
  lemma {:induction false} OrderIsNumeric(x: seq<int>, y: seq<int>, b: Base)
    requires |x| == |y| && InBase(x, b) && InBase(y, b)
    ensures Before(x, y) <==> Value(x, b) < Value(y, b)
    decreases |x|
  {
    if |x| > 0 {
      var fx, fy := x[..|x| - 1], y[..|x| - 1];
      BeforeStep(x, y);
      OrderIsNumeric(fx, fy, b);
      if Value(fx, b) == Value(fy, b) {
        SameValue(fx, fy, b);
      }
    }
  }

  lemma SameValue(x: seq<int>, y: seq<int>, b: Base)
    requires |x| == |y| && InBase(x, b) && InBase(y, b) && Value(x, b) == Value(y, b)
    ensures x == y
  {
    DigitsOfValue(x, b);
    DigitsOfValue(y, b);
  }
}
