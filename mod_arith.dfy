/**
 * Integer arithmetic shared by every part of the model: the remainder operator of C++
 * (which truncates toward zero, unlike Dafny's Euclidean `%`), congruence modulo a
 * positive modulus, and finite sums, including the exchange of a double sum that the
 * zero-sum argument of the protocol rests on.
 */
module ModArith {

  /** Quotient and remainder are unique: a is m*t + r with 0 <= r < m in exactly one way. */
  lemma DivModUnique(a: int, m: int, t: int, r: int)
    requires m > 0 && 0 <= r < m && a == m * t + r
    ensures a % m == r && a / m == t
  {
    var t', r' := a / m, a % m;
    assert a == m * t' + r';
    var d := t - t';
    assert m * d == r' - r;
  }

  /** Adding a multiple of the modulus does not change the Euclidean remainder. */
  lemma ModAddMultiple(z: int, k: int, m: int)
    requires m > 0
    ensures (z + m * k) % m == z % m
  {
    assert z == m * (z / m) + z % m;
    assert z + m * k == m * (z / m + k) + z % m;
    DivModUnique(z + m * k, m, z / m + k, z % m);
  }

  /** The sum of two numbers split into quotients and remainders. */
  lemma DivAddMod(x: int, y: int, m: int)
    requires m > 0
    ensures x + y == (x % m + y % m) + m * (x / m + y / m)
  {
    assert x == m * (x / m) + x % m;
    assert y == m * (y / m) + y % m;
    assert m * (x / m) + m * (y / m) == m * (x / m + y / m);
  }

  /** x and y leave the same remainder modulo m. */
  predicate Cong(x: int, y: int, m: int)
    requires m > 0
  {
    x % m == y % m
  }

  lemma CongAdd(x: int, x': int, y: int, y': int, m: int)
    requires m > 0 && Cong(x, x', m) && Cong(y, y', m)
    ensures Cong(x + y, x' + y', m)
  {
    var s := x % m + y % m;
    var k, k' := x / m + y / m, x' / m + y' / m;
    DivAddMod(x, y, m);
    DivAddMod(x', y', m);
    ModAddMultiple(s, k, m);
    ModAddMultiple(s, k', m);
    assert (x + y) % m == s % m;
  }

  lemma CongNeg(x: int, x': int, m: int)
    requires m > 0 && Cong(x, x', m)
    ensures Cong(-x, -x', m)
  {
    var r := x % m;
    assert -x == -r + m * (-(x / m));
    assert -x' == -r + m * (-(x' / m));
    ModAddMultiple(-r, -(x / m), m);
    ModAddMultiple(-r, -(x' / m), m);
  }

  lemma CongSub(x: int, x': int, y: int, y': int, m: int)
    requires m > 0 && Cong(x, x', m) && Cong(y, y', m)
    ensures Cong(x - y, x' - y', m)
  {
    CongNeg(y, y', m);
    CongAdd(x, x', -y, -y', m);
  }

  lemma CongMul(c: int, x: int, x': int, m: int)
    requires m > 0 && Cong(x, x', m)
    ensures Cong(c * x, c * x', m)
  {
    var r := x % m;
    assert x == r + m * (x / m);
    assert x' == r + m * (x' / m);
    assert c * x == c * r + m * (c * (x / m));
    assert c * x' == c * r + m * (c * (x' / m));
    ModAddMultiple(c * r, c * (x / m), m);
    ModAddMultiple(c * r, c * (x' / m), m);
  }

  /** Adding a multiple of m keeps the residue. */
  lemma CongAddZero(p: int, e: int, s: int, m: int)
    requires m > 0 && s == p + e && Cong(p, 0, m)
    ensures Cong(s, e, m)
  {
    CongAdd(p, 0, e, e, m);
  }

  /** Shifting by the modulus itself keeps the residue. */
  lemma CongShift(x: int, m: int)
    requires m > 0
    ensures Cong(x + m, x, m)
  {
    ModAddMultiple(x, 1, m);
  }

  /**
   * `x % m` as C++ computes it for a positive divisor: the quotient is truncated toward
   * zero, so the remainder carries the sign of x. The result is the only value that is
   * congruent to x, lies strictly between -m and m, and has the sign of x.
   */
  function CRem(x: int, m: int): (r: int)
    requires m > 0
    ensures -m < r < m
    ensures x >= 0 ==> 0 <= r
    ensures x <= 0 ==> r <= 0
    ensures Cong(r, x, m)
    ensures x >= 0 ==> r == x % m
  {
    if x >= 0 then x % m
    else
      var y := -x;
      assert y == m * (y / m) + y % m;
      assert x == -(y % m) + m * (-(y / m));
      ModAddMultiple(-(y % m), -(y / m), m);
      -(y % m)
  }

  /** A C++ remainder is pinned down by residue, range and sign. */
  lemma CRemUnique(x: int, m: int, r: int)
    requires m > 0 && -m < r < m && Cong(r, x, m)
    requires x >= 0 ==> 0 <= r
    requires x <= 0 ==> r <= 0
    ensures r == CRem(x, m)
  {
    var c := CRem(x, m);
    if r >= 0 && c >= 0 {
      DivModUnique(r, m, 0, r);
      DivModUnique(c, m, 0, c);
    } else {
      assert r <= 0 && c <= 0;
      DivModUnique(-r, m, 0, -r);
      DivModUnique(-c, m, 0, -c);
      CongNeg(r, c, m);
    }
  }

  /** The sum of a sequence, accumulated from the front as the source's loops do. */
  function Sum(s: seq<int>): int
    decreases |s|
  {
    if |s| == 0 then 0 else Sum(s[..|s| - 1]) + s[|s| - 1]
  }

  lemma SumSnoc(s: seq<int>, v: int)
    ensures Sum(s + [v]) == Sum(s) + v
  {
    assert (s + [v])[..|s|] == s;
  }

  /** Overwriting one entry changes the sum by the difference. */
  lemma {:induction false} SumUpdate(s: seq<int>, i: int, v: int)
    requires 0 <= i < |s|
    ensures Sum(s[i := v]) == Sum(s) - s[i] + v
    decreases |s|
  {
    var n := |s| - 1;
    if i == n {
      assert s[i := v][..n] == s[..n];
    } else {
      assert s[i := v][..n] == s[..n][i := v];
      SumUpdate(s[..n], i, v);
    }
  }

  /** Entrywise congruent sequences have congruent sums. */
  lemma {:induction false} SumCong(s: seq<int>, t: seq<int>, m: int)
    requires m > 0 && |s| == |t|
    requires forall i :: 0 <= i < |s| ==> Cong(s[i], t[i], m)
    ensures Cong(Sum(s), Sum(t), m)
    decreases |s|
  {
    if |s| > 0 {
      var n := |s| - 1;
      SumCong(s[..n], t[..n], m);
      CongAdd(Sum(s[..n]), Sum(t[..n]), s[n], t[n], m);
    }
  }

  /** A sum of multiples of m is a multiple of m. */
  lemma {:induction false} SumCongZero(s: seq<int>, m: int)
    requires m > 0
    requires forall i :: 0 <= i < |s| ==> Cong(s[i], 0, m)
    ensures Cong(Sum(s), 0, m)
    decreases |s|
  {
    if |s| > 0 {
      var n := |s| - 1;
      SumCongZero(s[..n], m);
      CongAdd(Sum(s[..n]), 0, s[n], 0, m);
    }
  }

  /** The sum of an entrywise sum is the sum of the sums. */
  lemma {:induction false} SumPointwise(u: seq<int>, v: seq<int>, w: seq<int>)
    requires |u| == |v| == |w| && forall j :: 0 <= j < |w| ==> w[j] == u[j] + v[j]
    ensures Sum(w) == Sum(u) + Sum(v)
    decreases |u|
  {
    if |u| > 0 {
      var n := |u| - 1;
      SumPointwise(u[..n], v[..n], w[..n]);
    }
  }

  /** Each entry lies within [-b, b], so the sum lies within [-|s|*b, |s|*b]. */
  lemma {:induction false} SumBounded(s: seq<int>, b: int)
    requires forall i :: 0 <= i < |s| ==> -b <= s[i] <= b
    ensures -(|s| * b) <= Sum(s) <= |s| * b
    decreases |s|
  {
    if |s| > 0 {
      var n := |s| - 1;
      SumBounded(s[..n], b);
      assert |s| * b == n * b + b;
    }
  }

  /** A sum with one entry 0 and the others within [-b, b] lies within [-(|s|-1)*b, (|s|-1)*b]. */
  lemma {:induction false} SumBoundedButOne(s: seq<int>, v: int, b: int)
    requires 0 <= v < |s| && s[v] == 0
    requires forall i :: 0 <= i < |s| && i != v ==> -b <= s[i] <= b
    ensures -((|s| - 1) * b) <= Sum(s) <= (|s| - 1) * b
    decreases |s|
  {
    var n := |s| - 1;
    if v == n {
      SumBounded(s[..n], b);
    } else {
      SumBoundedButOne(s[..n], v, b);
      assert (|s| - 1) * b == (n - 1) * b + b;
    }
  }

  /** Magnitudes multiply: |x| <= A and |y| <= B give |x*y| <= A*B. */
  lemma MulBounded(x: int, y: int, A: int, B: int)
    requires -A <= x <= A && -B <= y <= B
    ensures -(A * B) <= x * y <= A * B
  {
    var ax, ay := if x < 0 then -x else x, if y < 0 then -y else y;
    assert x * y == ax * ay || x * y == -(ax * ay) by {
      if x < 0 && y < 0 {
        assert x * y == (-x) * (-y);
      } else if x < 0 {
        assert x * y == -((-x) * y);
      } else if y < 0 {
        assert x * y == -(x * (-y));
      }
    }
    MulMonotone(0, ax, ay);
    MulMonotone(ax, A, ay);
    MulMonotone(ay, B, A);
    assert ay * A == A * ay && B * A == A * B;
  }

  /** Multiplying by a non-negative c keeps the order of a <= b. */
  lemma MulMonotone(a: int, b: int, c: int)
    requires 0 <= a <= b && 0 <= c
    ensures a * c <= b * c
  {
    assert b * c - a * c == (b - a) * c;
  }

  /** Every row of M has exactly w entries. */
  predicate IsRect(M: seq<seq<int>>, w: nat)
  {
    forall i :: 0 <= i < |M| ==> |M[i]| == w
  }

  function ColumnOf(M: seq<seq<int>>, w: nat, j: int): (c: seq<int>)
    requires IsRect(M, w) && 0 <= j < w
    ensures |c| == |M| && forall i :: 0 <= i < |M| ==> c[i] == M[i][j]
  {
    seq(|M|, i requires 0 <= i < |M| => M[i][j])
  }

  function RowTotals(M: seq<seq<int>>): (r: seq<int>)
    ensures |r| == |M| && forall i :: 0 <= i < |M| ==> r[i] == Sum(M[i])
  {
    seq(|M|, i requires 0 <= i < |M| => Sum(M[i]))
  }

  function ColTotals(M: seq<seq<int>>, w: nat): (c: seq<int>)
    requires IsRect(M, w)
    ensures |c| == w && forall j :: 0 <= j < w ==> c[j] == Sum(ColumnOf(M, w, j))
  {
    seq(w, j requires 0 <= j < w => Sum(ColumnOf(M, w, j)))
  }

  lemma {:induction false} SumZeros(n: nat)
    ensures Sum(seq(n, _ => 0)) == 0
  {
    if n > 0 {
      assert seq(n, _ => 0)[..n - 1] == seq(n - 1, _ => 0);
      SumZeros(n - 1);
    }
  }

  /** Summing a rectangular table row by row or column by column gives the same total. */
  lemma {:induction false} SumExchange(M: seq<seq<int>>, w: nat)
    requires IsRect(M, w)
    ensures Sum(RowTotals(M)) == Sum(ColTotals(M, w))
    decreases |M|
  {
    if |M| == 0 {
      assert ColTotals(M, w) == seq(w, _ => 0);
      SumZeros(w);
    } else {
      var h := |M| - 1;
      var M', last := M[..h], M[h];
      assert RowTotals(M)[..h] == RowTotals(M');
      SumExchange(M', w);
      ColTotalsLast(M, w);
      SumPointwise(ColTotals(M', w), last, ColTotals(M, w));
    }
  }

  /** Each column total is the column total without the last row, plus the last row's entry. */
  lemma ColTotalsLast(M: seq<seq<int>>, w: nat)
    requires IsRect(M, w) && |M| > 0
    ensures forall j :: 0 <= j < w ==> ColTotals(M, w)[j] == ColTotals(M[..|M| - 1], w)[j] + M[|M| - 1][j]
  {
    var h := |M| - 1;
    forall j | 0 <= j < w
      ensures ColTotals(M, w)[j] == ColTotals(M[..h], w)[j] + M[h][j]
    {
      assert ColumnOf(M, w, j)[..h] == ColumnOf(M[..h], w, j);
    }
  }
}
