/**
 An image carousel: a current index, one dot per image, and buttons that
 step the index forward and back modulo the number of images, as
 JavaScript numbers do (so an empty carousel's index becomes `NaN`).
 */
module Carousel {

  /** A JavaScript number as the carousel uses it: an integer, or `NaN`. */
  datatype Index = Num(n: int) | NaN

  function Abs(x: int): nat {
    if x < 0 then -x else x
  }

  /**
   JavaScript's `%` on integers (section 6.1.6.1.6 of ECMA-262, Number::remainder):
   `x % 0` is `NaN`; otherwise the remainder is smaller than the divisor in
   magnitude, is zero or has the dividend's sign, and differs from the
   dividend by a multiple of the divisor. `JsRemUnique` shows these three
   facts leave only one possible remainder.
   */
  function JsRem(a: int, b: int): (r: Index)
    ensures b == 0 <==> r == NaN
    ensures r.Num? ==> Abs(r.n) < Abs(b)
    ensures r.Num? ==> r.n == 0 || (r.n < 0 <==> a < 0)
    ensures r.Num? ==> (a - r.n) % Abs(b) == 0
  {
    if b == 0 then NaN
    else
      var m := Abs(b);
      if a >= 0 then
        RemainderOfNatural(a, m);
        Num(a % m)
      else
        RemainderOfNatural(-a, m);
        NegatedMultiple(a + (-a) % m, m);
        Num(-((-a) % m))
  }

  /** On a non-negative dividend the remainder differs from it by a multiple of `m`. */
  lemma RemainderOfNatural(a: int, m: int)
    requires a >= 0 && m > 0
    ensures 0 <= a % m < m
    ensures (a - a % m) % m == 0
  {
    var q := a / m;
    assert a - a % m == q * m;
    MultipleMod(q, m);
  }

  lemma NegatedMultiple(x: int, m: int)
    requires m > 0 && (-x) % m == 0
    ensures x % m == 0
  {
    var q := (-x) / m;
    assert -x == q * m;
    assert x == (-q) * m;
    MultipleMod(-q, m);
  }

  /** A multiple of `m` whose magnitude is below `m` is zero. */
  lemma SmallMultiple(k: int, m: int)
    requires m > 0 && -m < k * m < m
    ensures k == 0
  {
  }

  /** A multiple of `m` leaves no remainder. */
  lemma MultipleMod(q: int, m: int)
    requires m > 0
    ensures (q * m) % m == 0
  {
    var x := q * m;
    var r := x % m;
    assert x == (x / m) * m + r;
    assert r == (q - x / m) * m;
    SmallMultiple(q - x / m, m);
  }

  /**
   The three facts in `JsRem`'s contract determine the remainder: any `r`
   meeting them is the one `JsRem` returns.
   */
  lemma JsRemUnique(a: int, b: int, r: int)
    requires b != 0
    requires Abs(r) < Abs(b) && (r == 0 || (r < 0 <==> a < 0)) && (a - r) % Abs(b) == 0
    ensures JsRem(a, b) == Num(r)
  {
    RemainderUnique(a, Abs(b), r, JsRem(a, b).n);
  }

  /** Two remainders of `a` by `m` with the dividend's sign and magnitude below `m` coincide. */
  lemma RemainderUnique(a: int, m: int, r: int, s: int)
    requires m > 0
    requires Abs(r) < m && (r == 0 || (r < 0 <==> a < 0)) && (a - r) % m == 0
    requires Abs(s) < m && (s == 0 || (s < 0 <==> a < 0)) && (a - s) % m == 0
    ensures r == s
  {
    var qr := (a - r) / m;
    var qs := (a - s) / m;
    assert a - r == qr * m;
    assert a - s == qs * m;
    assert -m < r - s < m;
    assert r - s == qs * m - qr * m;
    assert qs * m - qr * m == (qs - qr) * m;
    SmallMultiple(qs - qr, m);
  }

  predicate InRange(total: nat, i: Index) {
    i.Num? && 0 <= i.n < total
  }

  /** `nextSlide`: `(currentIndex + 1) % totalImages`. */
  function Next(total: nat, i: Index): (j: Index)
    ensures total > 0 && i.Num? && 0 <= i.n < total ==> j.Num? && 0 <= j.n < total
    ensures total == 0 ==> j == NaN
  {
    match i
    case NaN => NaN
    case Num(n) => JsRem(n + 1, total)
  }

  /** `prevSlide`: `(currentIndex - 1 + totalImages) % totalImages`. */
  function Prev(total: nat, i: Index): (j: Index)
    ensures total > 0 && i.Num? && 0 <= i.n < total ==> j.Num? && 0 <= j.n < total
    ensures total == 0 ==> j == NaN
  {
    match i
    case NaN => NaN
    case Num(n) => JsRem(n - 1 + total, total)
  }

  lemma ModSmall(a: int, m: int)
    requires 0 <= a < m
    ensures a % m == a
  {
  }

  lemma ModAddOnce(a: int, m: int)
    requires 0 <= a < m
    ensures (a + m) % m == a
  {
  }

  /** On an in-range index, `Next` steps forward with wrap-around. */
  lemma NextWraps(total: nat, i: Index)
    requires InRange(total, i)
    ensures Next(total, i) == Num(if i.n + 1 == total then 0 else i.n + 1)
  {
    if i.n + 1 < total {
      ModSmall(i.n + 1, total);
    } else {
      ModAddOnce(0, total);
    }
  }

  /** On an in-range index, `Prev` steps back with wrap-around. */
  lemma PrevWraps(total: nat, i: Index)
    requires InRange(total, i)
    ensures Prev(total, i) == Num(if i.n == 0 then total - 1 else i.n - 1)
  {
    if i.n == 0 {
      ModSmall(total - 1, total);
    } else {
      ModAddOnce(i.n - 1, total);
    }
  }

  /** `prevSlide` undoes `nextSlide` and the other way round. */
  lemma PrevNextInverse(total: nat, i: Index)
    requires InRange(total, i)
    ensures Prev(total, Next(total, i)) == i
    ensures Next(total, Prev(total, i)) == i
  {
    NextWraps(total, i);
    PrevWraps(total, i);
    NextWraps(total, Prev(total, i));
    PrevWraps(total, Next(total, i));
  }

  /** `k` presses of the next button. */
  function NextN(total: nat, i: Index, k: nat): Index
    decreases k
  {
    if k == 0 then i else NextN(total, Next(total, i), k - 1)
  }

  /** Up to the last image, `k` presses move `k` places forward; one more wraps to the first. */
  lemma {:induction false} NextNForward(total: nat, n: nat, k: nat)
    requires n + k <= total && n < total
    ensures NextN(total, Num(n), k) == Num(if n + k == total then 0 else n + k)
    decreases k
  {
    if k > 0 {
      NextWraps(total, Num(n));
      if n + 1 < total {
        NextNForward(total, n + 1, k - 1);
      }
    }
  }

  lemma {:induction false} NextNSplit(total: nat, i: Index, a: nat, b: nat)
    ensures NextN(total, i, a + b) == NextN(total, NextN(total, i, a), b)
    decreases a
  {
    if a > 0 {
      NextNSplit(total, Next(total, i), a - 1, b);
    }
  }

  /** Pressing next once per image brings the carousel back to the same image. */
  lemma NextFullCircle(total: nat, i: Index)
    requires InRange(total, i)
    ensures NextN(total, i, total) == i
  {
    var n := i.n;
    NextNForward(total, n, total - n);
    NextNSplit(total, i, total - n, n);
    if n > 0 {
      NextNForward(total, 0, n);
    }
  }

  /** `updateCarousel`: dot `k` is active exactly when `k` equals the current index. */
  function Dots(total: nat, i: Index): (dots: seq<bool>)
    ensures |dots| == total
    ensures forall k :: 0 <= k < total ==> (dots[k] <==> i == Num(k))
  {
    seq(total, k => i == Num(k))
  }

  /**
   `updateCarousel`'s loop as written: each existing dot in turn is toggled
   to active exactly when its position equals the current index. The result
   is `Dots`, whatever the flags were before.
   */
  method UpdateDots(prev: seq<bool>, i: Index) returns (dots: seq<bool>)
    ensures dots == Dots(|prev|, i)
    ensures CountActive(dots) == if InRange(|prev|, i) then 1 else 0
  {
    dots := prev;
    var k := 0;
    while k < |dots|
      invariant 0 <= k <= |dots| && |dots| == |prev|
      invariant forall j :: 0 <= j < k ==> (dots[j] <==> i == Num(j))
    {
      dots := dots[k := i == Num(k)];
      k := k + 1;
    }
    ExactlyOneActive(|prev|, i);
  }

  function CountActive(dots: seq<bool>): nat
    decreases |dots|
  {
    if |dots| == 0 then 0 else CountActive(dots[..|dots| - 1]) + (if dots[|dots| - 1] then 1 else 0)
  }

  /** The number of active dots in a prefix of `Dots`. */
  lemma {:induction false} CountDotsPrefix(total: nat, i: Index, m: nat)
    requires m <= total
    ensures CountActive(Dots(total, i)[..m]) == if i.Num? && 0 <= i.n < m then 1 else 0
    decreases m
  {
    if m > 0 {
      var d := Dots(total, i)[..m];
      assert d[..m - 1] == Dots(total, i)[..m - 1];
      CountDotsPrefix(total, i, m - 1);
    }
  }

  /** Exactly one dot is active when the index is in range, and none otherwise. */
  lemma ExactlyOneActive(total: nat, i: Index)
    ensures CountActive(Dots(total, i)) == if InRange(total, i) then 1 else 0
  {
    CountDotsPrefix(total, i, total);
    assert Dots(total, i)[..total] == Dots(total, i);
  }

  datatype State = State(total: nat, index: Index, dots: seq<bool>)

  /** After set-up: index 0 and only the first dot active. */
  function Init(total: nat): (s: State)
    ensures s.total == total && s.index == Num(0)
    ensures s.dots == Dots(total, Num(0))
    ensures total > 0 ==> CountActive(s.dots) == 1 && s.dots[0]
  {
    ExactlyOneActive(total, Num(0));
    State(total, Num(0), seq(total, k => k == 0))
  }

  /** `goToSlide(k)`, called by the `k`-th dot. */
  function GoToSlide(s: State, k: nat): (s': State)
    requires k < s.total
    ensures s'.index == Num(k) && s'.total == s.total && |s'.dots| == s.total
    ensures CountActive(s'.dots) == 1 && s'.dots[k]
  {
    ExactlyOneActive(s.total, Num(k));
    State(s.total, Num(k), Dots(s.total, Num(k)))
  }

  /** The next button: forward one image, wrapping to the first, with only the new image's dot active. */
  function NextSlide(s: State): (s': State)
    ensures s'.total == s.total && |s'.dots| == s.total
    ensures InRange(s.total, s.index) ==>
              s'.index == Num(if s.index.n + 1 == s.total then 0 else s.index.n + 1)
              && CountActive(s'.dots) == 1 && s'.dots[s'.index.n]
    ensures s.total == 0 ==> s'.index == NaN && s'.dots == []
  {
    var j := Next(s.total, s.index);
    ExactlyOneActive(s.total, j);
    if InRange(s.total, s.index) then
      NextWraps(s.total, s.index);
      State(s.total, j, Dots(s.total, j))
    else
      State(s.total, j, Dots(s.total, j))
  }

  /** The prev button: back one image, wrapping to the last, with only the new image's dot active. */
  function PrevSlide(s: State): (s': State)
    ensures s'.total == s.total && |s'.dots| == s.total
    ensures InRange(s.total, s.index) ==>
              s'.index == Num(if s.index.n == 0 then s.total - 1 else s.index.n - 1)
              && CountActive(s'.dots) == 1 && s'.dots[s'.index.n]
    ensures s.total == 0 ==> s'.index == NaN && s'.dots == []
  {
    var j := Prev(s.total, s.index);
    ExactlyOneActive(s.total, j);
    if InRange(s.total, s.index) then
      PrevWraps(s.total, s.index);
      State(s.total, j, Dots(s.total, j))
    else
      State(s.total, j, Dots(s.total, j))
  }

  /** On a consistent carousel the prev button undoes the next button and the other way round. */
  lemma SlideButtonsInverse(s: State)
    requires InRange(s.total, s.index) && s.dots == Dots(s.total, s.index)
    ensures PrevSlide(NextSlide(s)) == s
    ensures NextSlide(PrevSlide(s)) == s
  {
    PrevNextInverse(s.total, s.index);
  }
}
