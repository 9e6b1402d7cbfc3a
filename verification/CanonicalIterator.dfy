/** Iterating over all combinations of pieces, `icu/common/caniter.cpp`. */
module CanonicalIterators {

  /** The digits before `n` stay below their limits. */
  ghost predicate Digits(digits: seq<nat>, limits: seq<nat>) {
    |digits| == |limits| && forall k :: 0 <= k < |digits| ==> digits[k] < limits[k]
  }

  /** How many combinations the first `n` pieces have. */
  ghost function Product(limits: seq<nat>, n: nat): nat
    requires n <= |limits|
  {
    if n == 0 then 1 else Product(limits, n - 1) * limits[n - 1]
  }

  /** The number of a combination of the first `n` pieces; the last one changes fastest. */
  ghost function Number(digits: seq<nat>, limits: seq<nat>, n: nat): nat
    requires n <= |limits| && n <= |digits|
  {
    if n == 0 then 0 else Number(digits, limits, n - 1) * limits[n - 1] + digits[n - 1]
  }

  /** Quotient and remainder. */
  ghost function Div(x: nat, m: nat): (q: nat)
    requires 0 < m
  {
    x / m
  }

  ghost function Mod(x: nat, m: nat): (r: nat)
    requires 0 < m
    ensures r < m && x == Div(x, m) * m + r
  {
    x % m
  }

  /** The digits with number `x`. */
  ghost function DigitsOf(x: nat, limits: seq<nat>, n: nat): (r: seq<nat>)
    requires n <= |limits| && Positive(limits)
    ensures |r| == n
    decreases n
  {
    if n == 0 then [] else DigitsOf(Div(x, limits[n - 1]), limits, n - 1) + [Mod(x, limits[n - 1])]
  }

  ghost predicate Positive(limits: seq<nat>) {
    forall k :: 0 <= k < |limits| ==> 0 < limits[k]
  }

  lemma AtLeast(a: int, b: int, m: nat)
    requires a <= b
    ensures a * m <= b * m
  {
  }

  lemma DivideBelow(x: nat, p: nat, m: nat)
    requires 0 < m && x < p * m
    ensures Div(x, m) < p
  {
    hide Div;
    var r := Mod(x, m);
    if Div(x, m) >= p {
      AtLeast(p, Div(x, m), m);
    }
  }

  lemma BelowProduct(a: nat, p: nat, d: nat, m: nat)
    requires a < p && d < m
    ensures a * m + d < p * m
  {
    assert (a + 1) * m <= p * m;
  }

  lemma DivideBack(a: nat, d: nat, m: nat)
    requires d < m
    ensures Div(a * m + d, m) == a && Mod(a * m + d, m) == d
  {
    hide Div, Mod;
    var x := a * m + d;
    var q, r := Div(x, m), Mod(x, m);
    if q < a {
      AtLeast(q + 1, a, m);
    } else if q > a {
      AtLeast(a + 1, q, m);
    }
  }

  /** Numbers and combinations correspond: every number below the product is that of exactly one combination. */
  lemma {:induction false} NumberOfDigits(x: nat, limits: seq<nat>, n: nat)
    requires n <= |limits| && Positive(limits) && x < Product(limits, n)
    ensures Number(DigitsOf(x, limits, n), limits, n) == x
    ensures forall k :: 0 <= k < n ==> DigitsOf(x, limits, n)[k] < limits[k]
    decreases n
  {
    hide Div, Mod;
    if n > 0 {
      var m := limits[n - 1];
      DivideBelow(x, Product(limits, n - 1), m);
      NumberOfDigits(Div(x, m), limits, n - 1);
      var d := DigitsOf(Div(x, m), limits, n - 1);
      SameNumber(d, d + [Mod(x, m)], limits, n - 1);
    }
  }

  lemma {:induction false} SameNumber(a: seq<nat>, b: seq<nat>, limits: seq<nat>, n: nat)
    requires n <= |limits| && n <= |a| && n <= |b| && a[..n] == b[..n]
    ensures Number(a, limits, n) == Number(b, limits, n)
  {
    if n > 0 {
      assert a[..n - 1] == a[..n][..n - 1] && b[..n - 1] == b[..n][..n - 1];
      assert a[n - 1] == a[..n][n - 1] && b[n - 1] == b[..n][n - 1];
      SameNumber(a, b, limits, n - 1);
    }
  }

  lemma {:induction false} DigitsOfNumber(digits: seq<nat>, limits: seq<nat>, n: nat)
    requires n <= |limits| && Positive(limits) && Digits(digits, limits)
    ensures Number(digits, limits, n) < Product(limits, n)
    ensures DigitsOf(Number(digits, limits, n), limits, n) == digits[..n]
  {
    hide Div, Mod;
    if n > 0 {
      DigitsOfNumber(digits, limits, n - 1);
      BelowProduct(Number(digits, limits, n - 1), Product(limits, n - 1), digits[n - 1], limits[n - 1]);
      DivideBack(Number(digits, limits, n - 1), digits[n - 1], limits[n - 1]);
      assert digits[..n] == digits[..n - 1] + [digits[n - 1]];
    }
  }

  /** Combinations are numbered in lexicographic order. */
  lemma {:induction false} NumbersAreLexicographic(a: seq<nat>, b: seq<nat>, limits: seq<nat>, k: nat, n: nat)
    requires k < n <= |limits| && Positive(limits) && Digits(a, limits) && Digits(b, limits)
    requires a[..k] == b[..k] && a[k] < b[k]
    ensures Number(a, limits, n) < Number(b, limits, n)
  {
    var m := limits[n - 1];
    if k == n - 1 {
      SameNumber(a, b, limits, k);
    } else {
      NumbersAreLexicographic(a, b, limits, k, n - 1);
      BelowProduct(Number(a, limits, n - 1), Number(b, limits, n - 1), a[n - 1], m);
    }
  }

  /** A carry: digits at their limits become zero, and the one before them is incremented. */
  lemma {:induction false} Carry(digits: seq<nat>, next: seq<nat>, limits: seq<nat>, i: nat, n: nat)
    requires i < n <= |limits| && Digits(digits, limits) && Digits(next, limits)
    requires digits[..i] == next[..i] && next[i] == digits[i] + 1
    requires forall k :: i < k < |limits| ==> digits[k] == limits[k] - 1 && next[k] == 0
    ensures Number(next, limits, n) == Number(digits, limits, n) + 1
  {
    if n - 1 == i {
      SameNumber(digits, next, limits, i);
    } else {
      Carry(digits, next, limits, i, n - 1);
      var a, m := Number(digits, limits, n - 1), limits[n - 1];
      assert (a + 1) * m == a * m + m;
    }
  }

  lemma {:induction false} Last(digits: seq<nat>, limits: seq<nat>, n: nat)
    requires n <= |limits| && Digits(digits, limits) && forall k :: 0 <= k < n ==> digits[k] == limits[k] - 1
    ensures Number(digits, limits, n) == Product(limits, n) - 1
  {
    if n > 0 {
      Last(digits, limits, n - 1);
      var p, m := Product(limits, n - 1), limits[n - 1];
      assert (p - 1) * m == p * m - m;
    }
  }

  lemma {:induction false} First(digits: seq<nat>, limits: seq<nat>, n: nat)
    requires n <= |limits| && |digits| == |limits| && forall k :: 0 <= k < n ==> digits[k] == 0
    ensures Number(digits, limits, n) == 0
  {
    if n > 0 {
      First(digits, limits, n - 1);
    }
  }

  lemma {:induction false} ProductPositive(limits: seq<nat>, n: nat)
    requires n <= |limits| && Positive(limits)
    ensures 0 < Product(limits, n)
  {
    if n > 0 {
      ProductPositive(limits, n - 1);
      BelowProduct(0, Product(limits, n - 1), 0, limits[n - 1]);
    }
  }

  /** The pieces of a combination, one after another. */
  ghost function Combined(pieces: seq<seq<seq<int>>>, digits: seq<nat>, n: nat): seq<int>
    requires n <= |pieces| && n <= |digits| && forall k :: 0 <= k < n ==> digits[k] < |pieces[k]|
  {
    if n == 0 then [] else Combined(pieces, digits, n - 1) + pieces[n - 1][digits[n - 1]]
  }

  /** Each digit chooses a piece. */
  ghost predicate Chosen(pieces: seq<seq<seq<int>>>, digits: seq<nat>) {
    |digits| == |pieces| && forall k :: 0 <= k < |pieces| ==> digits[k] < |pieces[k]|
  }

  /** How long the chosen pieces before `k` are together. */
  ghost function Offset(pieces: seq<seq<seq<int>>>, digits: seq<nat>, k: nat): nat
    requires Chosen(pieces, digits) && k <= |pieces|
  {
    if k == 0 then 0 else Offset(pieces, digits, k - 1) + |pieces[k - 1][digits[k - 1]]|
  }

  lemma {:induction false} OffsetMonotone(pieces: seq<seq<seq<int>>>, digits: seq<nat>, j: nat, k: nat)
    requires Chosen(pieces, digits) && j <= k <= |pieces|
    ensures Offset(pieces, digits, j) <= Offset(pieces, digits, k)
  {
    if j < k {
      OffsetMonotone(pieces, digits, j, k - 1);
    }
  }

  /** The text has the chosen pieces in their order, each behind the ones before it, and nothing else. */
  ghost predicate Joins(pieces: seq<seq<seq<int>>>, digits: seq<nat>, text: seq<int>) {
    Chosen(pieces, digits) && |text| == Offset(pieces, digits, |pieces|) &&
    forall k :: 0 <= k < |pieces| ==> PieceAt(pieces, digits, text, k)
  }

  ghost predicate PieceAt(pieces: seq<seq<seq<int>>>, digits: seq<nat>, text: seq<int>, k: nat)
    requires Chosen(pieces, digits) && k < |pieces|
  {
    Offset(pieces, digits, k + 1) <= |text| &&
    text[Offset(pieces, digits, k)..Offset(pieces, digits, k + 1)] == pieces[k][digits[k]]
  }

  /** The first `n` pieces of a combination are at their places. */
  lemma {:induction false} CombinedAt(pieces: seq<seq<seq<int>>>, digits: seq<nat>, n: nat)
    requires Chosen(pieces, digits) && n <= |pieces|
    ensures var text := Combined(pieces, digits, n);
            |text| == Offset(pieces, digits, n) && forall k :: 0 <= k < n ==> PieceAt(pieces, digits, text, k)
  {
    if n > 0 {
      CombinedAt(pieces, digits, n - 1);
      var before, text := Combined(pieces, digits, n - 1), Combined(pieces, digits, n);
      forall k | 0 <= k < n
        ensures PieceAt(pieces, digits, text, k)
      {
        if k < n - 1 {
          OffsetMonotone(pieces, digits, k + 1, n - 1);
          assert PieceAt(pieces, digits, before, k);
          var i, j := Offset(pieces, digits, k), Offset(pieces, digits, k + 1);
          assert text[i..j] == before[i..j];
        }
      }
    }
  }

  /** A combination joins its pieces. */
  lemma CombinedJoins(pieces: seq<seq<seq<int>>>, digits: seq<nat>)
    requires Chosen(pieces, digits)
    ensures Joins(pieces, digits, Combined(pieces, digits, |pieces|))
  {
    CombinedAt(pieces, digits, |pieces|);
  }

  /** No other text joins the same pieces. */
  lemma {:induction false} JoinsOnce(pieces: seq<seq<seq<int>>>, digits: seq<nat>, s: seq<int>, t: seq<int>, n: nat)
    requires Joins(pieces, digits, s) && Joins(pieces, digits, t) && n <= |pieces|
    ensures Offset(pieces, digits, n) <= |s| == |t|
    ensures s[..Offset(pieces, digits, n)] == t[..Offset(pieces, digits, n)]
  {
    OffsetMonotone(pieces, digits, n, |pieces|);
    if n > 0 {
      JoinsOnce(pieces, digits, s, t, n - 1);
      assert PieceAt(pieces, digits, s, n - 1) && PieceAt(pieces, digits, t, n - 1);
      var i, j := Offset(pieces, digits, n - 1), Offset(pieces, digits, n);
      assert s[..j] == s[..i] + s[i..j] && t[..j] == t[..i] + t[i..j];
    }
  }

  ghost function Lengths(pieces: seq<seq<seq<int>>>): (r: seq<nat>)
    ensures |r| == |pieces| && forall k :: 0 <= k < |r| ==> r[k] == |pieces[k]|
  {
    seq(|pieces|, k requires 0 <= k < |pieces| => |pieces[k]|)
  }

  class CanonicalIterator {
    // The strings that each piece of the source can be replaced with.
    const pieces: seq<seq<seq<int>>>
    var current: array<nat>
    var done: bool

    ghost predicate Valid()
      reads this, current
    {
      current.Length == |pieces| && Positive(Lengths(pieces)) && Digits(current[..], Lengths(pieces)) &&
      (done ==> forall k :: 0 <= k < current.Length ==> current[k] == 0)
    }

    /** How many combinations there are. */
    ghost function Total(): nat {
      Product(Lengths(pieces), |pieces|)
    }

    /** How many combinations were returned. */
    ghost function Returned(): nat
      reads this, current
      requires Valid()
    {
      if done then Total() else Number(current[..], Lengths(pieces), |pieces|)
    }

    /** The combination with a number, in lexicographic order. */
    ghost function Combination(x: nat): seq<int>
      requires Positive(Lengths(pieces)) && x < Total()
    {
      NumberOfDigits(x, Lengths(pieces), |pieces|);
      Combined(pieces, DigitsOf(x, Lengths(pieces), |pieces|), |pieces|)
    }

    /** Each choice of pieces has a number, and the combination with that number joins just them. */
    lemma EveryChoice(digits: seq<nat>)
      requires Chosen(pieces, digits) && Positive(Lengths(pieces))
      ensures var x := Number(digits, Lengths(pieces), |pieces|);
              x < Total() && Joins(pieces, digits, Combination(x))
    {
      DigitsOfNumber(digits, Lengths(pieces), |pieces|);
      assert digits[..|pieces|] == digits;
      CombinedJoins(pieces, digits);
    }

    /** The combination with a number joins the pieces that the digits of the number choose. */
    lemma CombinationJoins(x: nat)
      requires Positive(Lengths(pieces)) && x < Total()
      ensures Joins(pieces, DigitsOf(x, Lengths(pieces), |pieces|), Combination(x))
    {
      NumberOfDigits(x, Lengths(pieces), |pieces|);
      CombinedJoins(pieces, DigitsOf(x, Lengths(pieces), |pieces|));
    }

    constructor (pieces: seq<seq<seq<int>>>)
      requires Positive(Lengths(pieces))
      ensures Valid() && this.pieces == pieces && Returned() == 0 && fresh(current)
    {
      this.pieces := pieces;
      done := false;
      current := new nat[|pieces|](_ => 0);
      new;
      First(current[..], Lengths(pieces), |pieces|);
    }

    /** Returns to the first combination, and is ready to deliver it. */
    method Reset()
      requires Valid()
      modifies `done, current
      ensures Valid() && Returned() == 0
    {
      done := false;
      for i := 0 to current.Length
        invariant !done && forall k :: 0 <= k < i ==> current[k] == 0
      {
        current[i] := 0;
      }
      First(current[..], Lengths(pieces), |pieces|);
    }

    /** Returns the next combination; none after the last one. */
    method Next() returns (buffer: seq<int>, bogus: bool)
      requires Valid()
      modifies `done, current
      ensures Valid()
      ensures bogus == (old(Returned()) == Total())
      ensures bogus ==> Returned() == Total()
      ensures !bogus ==>
                old(Returned()) < Total() && buffer == Combination(old(Returned())) &&
                Returned() == old(Returned()) + 1 && Joins(pieces, old(current[..]), buffer)
    {
      ghost var limits := Lengths(pieces);
      ghost var digits := current[..];
      DigitsOfNumber(digits, limits, |pieces|);
      if done {
        return [], true;
      }
      buffer, bogus := [], false;
      for i := 0 to |pieces|
        invariant buffer == Combined(pieces, digits, i)
      {
        buffer := buffer + pieces[i][current[i]];
      }
      assert digits[..|pieces|] == digits;
      CombinedJoins(pieces, digits);
      Increment();
    }

    /** Counts the digits up by one, or notes that there is no further combination. */
    method Increment()
      requires Valid() && !done
      modifies `done, current
      ensures Valid() && Returned() == old(Returned()) + 1
    {
      ghost var limits := Lengths(pieces);
      ghost var digits := current[..];
      var i := current.Length - 1;
      while true
        invariant -1 <= i < current.Length && Digits(current[..], limits)
        invariant forall k :: 0 <= k <= i ==> current[k] == digits[k]
        invariant forall k :: i < k < |digits| ==> digits[k] == limits[k] - 1
        invariant forall k :: i < k < current.Length ==> current[k] == 0
        invariant !done
        decreases i
      {
        if i < 0 {
          done := true;
          Last(digits, limits, |pieces|);
          ProductPositive(limits, |pieces|);
          break;
        }
        current[i] := current[i] + 1;
        if current[i] < |pieces[i]| {
          assert digits[..i] == current[..][..i];
          Carry(digits, current[..], limits, i, |pieces|);
          break;
        }
        current[i] := 0;
        i := i - 1;
      }
    }
  }
}
