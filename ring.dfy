/**
 * Ring arithmetic of the anonymous veto protocol: polynomials with 64 integer
 * coefficients, added, subtracted and multiplied modulo q = 315521, where multiplication
 * reduces modulo x^64 + 1 (so x^64 stands for -1). Each operation is a method that
 * fills a fresh buffer with indexed loops, as the C++ does, and is proved against a
 * specification function; the laws of the ring are lemmas about those functions.
 */
module Ring {
  import opened ModArith

  /** poly_degree: the number of coefficients of every polynomial. */
  const D: int := 64
  /** The prime modulus q. */
  const Q: int := 315521

  /** A polynomial as the C++ `Poly` holds it: exactly poly_degree coefficients. */
  type Poly = p: seq<int> | |p| == D witness seq(64, _ => 0)

  /** The all-zero polynomial, `Poly(poly_degree, 0)`. */
  function Zero(): (z: Poly)
    ensures forall i :: 0 <= i < D ==> z[i] == 0
  {
    seq(D, _ => 0)
  }

  /** Every coefficient is a canonical residue in [0, q). */
  predicate InZq(p: Poly)
  {
    forall i :: 0 <= i < D ==> 0 <= p[i] < Q
  }

  /** Coefficient t of p, and 0 for every position outside [0, D). */
  function Coef(p: Poly, t: int): int
  {
    if 0 <= t < D then p[t] else 0
  }

  /** Coefficientwise congruence modulo q. */
  predicate PolyCong(p: Poly, r: Poly)
  {
    forall i :: 0 <= i < D ==> Cong(p[i], r[i], Q)
  }

  // ---------------------------------------------------------------- poly_add / poly_sub

  /** poly_add: coefficient i is `(a[i] + b[i]) % q` with the C++ remainder. */
  function Add(a: Poly, b: Poly): (r: Poly)
    ensures forall i :: 0 <= i < D ==> -Q < r[i] < Q && Cong(r[i], a[i] + b[i], Q)
  {
    seq(D, i requires 0 <= i < D => CRem(a[i] + b[i], Q))
  }

  /** poly_sub: coefficient i is `(a[i] - b[i] + q) % q` with the C++ remainder. */
  function Sub(a: Poly, b: Poly): (r: Poly)
    ensures forall i :: 0 <= i < D ==> -Q < r[i] < Q && Cong(r[i], a[i] - b[i], Q)
  {
    seq(D, i requires 0 <= i < D => SubCoeff(a[i], b[i]))
  }

  /** One coefficient of poly_sub. */
  function SubCoeff(x: int, y: int): (r: int)
    ensures -Q < r < Q && Cong(r, x - y, Q)
  {
    CongShift(x - y, Q);
    CRem(x - y + Q, Q)
  }

  method PolyAdd(a: Poly, b: Poly) returns (res: Poly)
    ensures res == Add(a, b)
  {
    var r := new int[D];
    for i := 0 to D
      invariant forall j :: 0 <= j < i ==> r[j] == CRem(a[j] + b[j], Q)
    {
      r[i] := CRem(a[i] + b[i], Q);
    }
    res := r[..];
  }

  method PolySub(a: Poly, b: Poly) returns (res: Poly)
    ensures res == Sub(a, b)
  {
    var r := new int[D];
    for i := 0 to D
      invariant forall j :: 0 <= j < i ==> r[j] == CRem(a[j] - b[j] + Q, Q)
    {
      r[i] := CRem(a[i] - b[i] + Q, Q);
    }
    res := r[..];
  }

  /** On canonical inputs poly_add is addition in Z_q: the Euclidean residue of the sum. */
  lemma AddCanonical(a: Poly, b: Poly)
    requires InZq(a) && InZq(b)
    ensures InZq(Add(a, b))
    ensures forall i :: 0 <= i < D ==> Add(a, b)[i] == (a[i] + b[i]) % Q
  {
  }

  /** On canonical inputs poly_sub is subtraction in Z_q. */
  lemma SubCanonical(a: Poly, b: Poly)
    requires InZq(a) && InZq(b)
    ensures InZq(Sub(a, b))
    ensures forall i :: 0 <= i < D ==> Sub(a, b)[i] == (a[i] - b[i]) % Q
  {
    forall i | 0 <= i < D
      ensures Sub(a, b)[i] == (a[i] - b[i]) % Q
    {
      ModAddMultiple(a[i] - b[i], 1, Q);
    }
  }

  /** Subtracting b undoes adding b, for canonical polynomials. */
  lemma SubAddRoundTrip(p: Poly, b: Poly)
    requires InZq(p) && InZq(b)
    ensures Sub(Add(p, b), b) == p
  {
    AddCanonical(p, b);
    SubCanonical(Add(p, b), b);
    forall i | 0 <= i < D
      ensures Sub(Add(p, b), b)[i] == p[i]
    {
      var s := Add(p, b)[i];
      CongSub(s, p[i] + b[i], b[i], b[i], Q);
      DivModUnique(p[i], Q, 0, p[i]);
    }
  }

  /** Adding b undoes subtracting b, for canonical polynomials. */
  lemma AddSubRoundTrip(p: Poly, b: Poly)
    requires InZq(p) && InZq(b)
    ensures Add(Sub(p, b), b) == p
  {
    SubCanonical(p, b);
    AddCanonical(Sub(p, b), b);
    forall i | 0 <= i < D
      ensures Add(Sub(p, b), b)[i] == p[i]
    {
      var s := Sub(p, b)[i];
      CongAdd(s, p[i] - b[i], b[i], b[i], Q);
      DivModUnique(p[i], Q, 0, p[i]);
    }
  }

  // ---------------------------------------------------------------- poly_mul

  /** Sum over t in [lo, hi) of a_t * b_(m-t): part of coefficient m of the plain product. */
  function ConvRange(a: Poly, b: Poly, m: int, lo: int, hi: int): int
    decreases hi - lo
  {
    if hi <= lo then 0 else ConvRange(a, b, m, lo, hi - 1) + Coef(a, hi - 1) * Coef(b, m - (hi - 1))
  }

  /** Coefficient m of the schoolbook product a*b: the sum of a_i * b_j over i + j == m. */
  function Conv(a: Poly, b: Poly, m: int): int
  {
    ConvRange(a, b, m, 0, |a|)
  }

  /**
   * Coefficient k of a*b reduced modulo x^D + 1: the terms of degree k, minus the terms
   * of degree k + D folded back because x^D == -1.
   */
  function NegacyclicCoeff(a: Poly, b: Poly, k: int): int
  {
    Conv(a, b, k) - Conv(a, b, k + D)
  }

  /** r is, coefficientwise modulo q, the negacyclic product of a and b. */
  predicate IsNegacyclicProduct(r: Poly, a: Poly, b: Poly)
  {
    forall k :: 0 <= k < D ==> Cong(r[k], NegacyclicCoeff(a, b, k), Q)
  }

  /** One step of the schoolbook loop: accumulating a_i * b_(m-i) extends the partial sum to i + 1. */
  lemma MulStep(a: Poly, b: Poly, m: int, i: int, x: int)
    requires 0 <= i < D && 0 <= m - i < D
    requires Cong(x, ConvRange(a, b, m, 0, i), Q)
    ensures Cong(CRem(x + a[i] * b[m - i], Q), ConvRange(a, b, m, 0, i + 1), Q)
  {
    CongAdd(x, ConvRange(a, b, m, 0, i), a[i] * b[m - i], a[i] * b[m - i], Q);
  }

  /** Row i contributes nothing to the degrees it cannot reach: those outside [i, i + D). */
  lemma MulRowOutside(a: Poly, b: Poly, i: int, m: int)
    requires 0 <= i && !(i <= m < i + D)
    ensures ConvRange(a, b, m, 0, i + 1) == ConvRange(a, b, m, 0, i)
  {
  }

  /** One step of the folding loop: `(res[k] - res[k + D] + q) % q`. */
  lemma FoldStep(x: int, y: int, cx: int, cy: int)
    requires Cong(x, cx, Q) && Cong(y, cy, Q)
    ensures Cong(CRem(x - y + Q, Q), cx - cy, Q)
  {
    CongShift(x - y, Q);
    CongSub(x, cx, y, cy, Q);
  }

  /** Every term of degree 2D - 1 or more is zero: the plain product has degree 2D - 2. */
  lemma {:induction false} ConvRangeHigh(a: Poly, b: Poly, m: int, hi: int)
    requires hi <= D && m >= 2 * D - 1
    ensures ConvRange(a, b, m, 0, hi) == 0
    decreases hi
  {
    if hi > 0 {
      ConvRangeHigh(a, b, m, hi - 1);
    }
  }

  /**
   * The second loop of poly_mul: the accumulator of degree k + D is subtracted from the
   * one of degree k, `(res[k] - res[k + D] + q) % q`, given that accumulator m holds c[m]
   * modulo q.
   */
  method FoldNegacyclic(res: array<int>, ghost c: seq<int>)
    requires res.Length == 2 * D - 1 && |c| == 2 * D - 1
    requires forall m :: 0 <= m < 2 * D - 1 ==> -Q < res[m] < Q && Cong(res[m], c[m], Q)
    modifies res
    ensures forall m :: 0 <= m < 2 * D - 1 ==> -Q < res[m] < Q
    ensures forall k :: 0 <= k < D - 1 ==> Cong(res[k], c[k] - c[k + D], Q)
    ensures forall m :: D - 1 <= m < 2 * D - 1 ==> res[m] == old(res[m])
  {
    for i := D to 2 * D - 1
      invariant forall m :: 0 <= m < 2 * D - 1 ==> -Q < res[m] < Q
      invariant forall k :: 0 <= k < i - D ==> Cong(res[k], c[k] - c[k + D], Q)
      invariant forall m :: i - D <= m < 2 * D - 1 ==> res[m] == old(res[m])
    {
      FoldStep(res[i - D], res[i], c[i - D], c[i]);
      res[i - D] := CRem(res[i - D] - res[i] + Q, Q);
    }
  }

  /**
   * poly_mul: schoolbook multiplication into 2D - 1 accumulators, each kept as a C++
   * remainder, then the upper half folded back with a minus sign.
   */
  method PolyMul(a: Poly, b: Poly) returns (r: Poly)
    ensures IsNegacyclicProduct(r, a, b)
    ensures forall k :: 0 <= k < D ==> -Q < r[k] < Q
  {
    var res := new int[2 * D - 1](_ => 0);
    for i := 0 to D
      invariant forall m :: 0 <= m < 2 * D - 1 ==>
        -Q < res[m] < Q && Cong(res[m], ConvRange(a, b, m, 0, i), Q)
    {
      MulRow(a, b, i, res);
    }
    ghost var c := seq(2 * D - 1, m requires 0 <= m < 2 * D - 1 => Conv(a, b, m));
    FoldNegacyclic(res, c);
    r := res[..D];
    FoldedIsNegacyclic(a, b, c, r);
  }

  /** One pass of the outer loop of poly_mul: `res[i + j] += a[i] * b[j]` for every j, each kept as a C++ remainder. */
  method MulRow(a: Poly, b: Poly, i: int, res: array<int>)
    requires 0 <= i < D && res.Length == 2 * D - 1
    requires forall m :: 0 <= m < 2 * D - 1 ==> -Q < res[m] < Q && Cong(res[m], ConvRange(a, b, m, 0, i), Q)
    modifies res
    ensures forall m :: 0 <= m < 2 * D - 1 ==> -Q < res[m] < Q && Cong(res[m], ConvRange(a, b, m, 0, i + 1), Q)
  {
    for j := 0 to D
      invariant forall m :: i <= m < i + j ==> -Q < res[m] < Q && Cong(res[m], ConvRange(a, b, m, 0, i + 1), Q)
      invariant forall m :: 0 <= m < 2 * D - 1 && !(i <= m < i + j) ==> res[m] == old(res[m])
    {
      MulStep(a, b, i + j, i, res[i + j]);
      res[i + j] := CRem(res[i + j] + a[i] * b[j], Q);
    }
    forall m | 0 <= m < 2 * D - 1 && !(i <= m < i + D)
      ensures ConvRange(a, b, m, 0, i + 1) == ConvRange(a, b, m, 0, i)
    {
      MulRowOutside(a, b, i, m);
    }
  }

  /** The folded accumulators are the negacyclic product: c[k] - c[k + D] below D - 1, and c[D - 1] alone. */
  lemma FoldedIsNegacyclic(a: Poly, b: Poly, c: seq<int>, r: Poly)
    requires |c| == 2 * D - 1 && forall m :: 0 <= m < 2 * D - 1 ==> c[m] == Conv(a, b, m)
    requires forall k :: 0 <= k < D - 1 ==> Cong(r[k], c[k] - c[k + D], Q)
    requires Cong(r[D - 1], c[D - 1], Q)
    ensures IsNegacyclicProduct(r, a, b)
  {
    forall k | 0 <= k < D
      ensures Cong(r[k], NegacyclicCoeff(a, b, k), Q)
    {
      if k == D - 1 {
        ConvRangeHigh(a, b, 2 * D - 1, |a|);
        assert NegacyclicCoeff(a, b, k) == c[k];
      } else {
        assert NegacyclicCoeff(a, b, k) == c[k] - c[k + D];
      }
    }
  }

  // ---------------------------------------------------------------- laws of the product

  /** The partial sum can also be split at its lower end. */
  lemma {:induction false} ConvRangeFront(a: Poly, b: Poly, m: int, lo: int, hi: int)
    requires lo < hi
    ensures ConvRange(a, b, m, lo, hi) == Coef(a, lo) * Coef(b, m - lo) + ConvRange(a, b, m, lo + 1, hi)
    decreases hi - lo
  {
    if lo + 1 < hi {
      ConvRangeFront(a, b, m, lo, hi - 1);
    }
  }

  /** Reading the terms of a partial sum backwards swaps the roles of a and b. */
  lemma {:induction false} ConvRangeReverse(a: Poly, b: Poly, m: int, lo: int, hi: int)
    ensures ConvRange(a, b, m, lo, hi) == ConvRange(b, a, m, m - hi + 1, m - lo + 1)
    decreases hi - lo
  {
    if lo < hi {
      ConvRangeFront(a, b, m, lo, hi);
      ConvRangeReverse(a, b, m, lo + 1, hi);
    }
  }

  /** Terms from position lo on vanish when lo is past a's degree or past m. */
  lemma {:induction false} ConvRangeTail(a: Poly, b: Poly, m: int, lo: int, hi: int)
    requires 0 <= lo <= hi && (lo >= D || lo > m)
    ensures ConvRange(a, b, m, 0, hi) == ConvRange(a, b, m, 0, lo)
    decreases hi - lo
  {
    if lo < hi {
      ConvRangeTail(a, b, m, lo, hi - 1);
    }
  }

  /** The schoolbook coefficient is the full sum over i + j == m. */
  lemma ConvIsFullSum(a: Poly, b: Poly, m: int)
    requires m >= 0
    ensures Conv(a, b, m) == ConvRange(a, b, m, 0, m + 1)
  {
    if m + 1 <= D {
      ConvRangeTail(a, b, m, m + 1, D);
    } else {
      ConvRangeTail(a, b, m, D, m + 1);
    }
  }

  /** The plain product is commutative, coefficient by coefficient. */
  lemma ConvCommutes(a: Poly, b: Poly, m: int)
    ensures Conv(a, b, m) == Conv(b, a, m)
  {
    if m >= 0 {
      ConvIsFullSum(a, b, m);
      ConvIsFullSum(b, a, m);
      ConvRangeReverse(a, b, m, 0, m + 1);
    } else {
      ConvRangeHighNeg(a, b, m, D);
      ConvRangeHighNeg(b, a, m, D);
    }
  }

  /** Coefficients of negative degree are zero. */
  lemma {:induction false} ConvRangeHighNeg(a: Poly, b: Poly, m: int, hi: int)
    requires m < 0 && hi >= 0
    ensures ConvRange(a, b, m, 0, hi) == 0
    decreases hi
  {
    if hi > 0 {
      ConvRangeHighNeg(a, b, m, hi - 1);
    }
  }

  /** Negacyclic multiplication is commutative. */
  lemma NegacyclicCommutes(a: Poly, b: Poly, k: int)
    ensures NegacyclicCoeff(a, b, k) == NegacyclicCoeff(b, a, k)
  {
    ConvCommutes(a, b, k);
    ConvCommutes(a, b, k + D);
  }

  /** Hence whatever poly_mul returns for (a, b) is also a product of (b, a). */
  lemma ProductCommutes(r: Poly, a: Poly, b: Poly)
    requires IsNegacyclicProduct(r, a, b)
    ensures IsNegacyclicProduct(r, b, a)
  {
    forall k | 0 <= k < D
      ensures Cong(r[k], NegacyclicCoeff(b, a, k), Q)
    {
      NegacyclicCommutes(a, b, k);
    }
  }

  /** The exact coefficientwise sum, with no reduction. */
  function Plus(b: Poly, c: Poly): (s: Poly)
    ensures forall i :: 0 <= i < D ==> s[i] == b[i] + c[i]
  {
    seq(D, i requires 0 <= i < D => b[i] + c[i])
  }

  lemma {:induction false} ConvRangeDistributes(a: Poly, b: Poly, c: Poly, m: int, hi: int)
    ensures ConvRange(a, Plus(b, c), m, 0, hi) == ConvRange(a, b, m, 0, hi) + ConvRange(a, c, m, 0, hi)
    decreases hi
  {
    if hi > 0 {
      ConvRangeDistributes(a, b, c, m, hi - 1);
      var x, y, z := Coef(a, hi - 1), Coef(b, m - (hi - 1)), Coef(c, m - (hi - 1));
      assert Coef(Plus(b, c), m - (hi - 1)) == y + z;
      assert x * (y + z) == x * y + x * z;
    }
  }

  /** Negacyclic multiplication distributes over exact addition. */
  lemma NegacyclicDistributes(a: Poly, b: Poly, c: Poly, k: int)
    ensures NegacyclicCoeff(a, Plus(b, c), k) == NegacyclicCoeff(a, b, k) + NegacyclicCoeff(a, c, k)
  {
    ConvRangeDistributes(a, b, c, k, D);
    ConvRangeDistributes(a, b, c, k + D, D);
  }

  /** A multiplier whose coefficients are all multiples of q gives a product that is one. */
  lemma {:induction false} ConvRangeCongZero(a: Poly, y: Poly, m: int, hi: int)
    requires PolyCong(y, Zero())
    ensures Cong(ConvRange(a, y, m, 0, hi), 0, Q)
    decreases hi
  {
    if hi > 0 {
      ConvRangeCongZero(a, y, m, hi - 1);
      var x, t := Coef(a, hi - 1), Coef(y, m - (hi - 1));
      CongMul(x, t, 0, Q);
      CongAdd(ConvRange(a, y, m, 0, hi - 1), 0, x * t, 0, Q);
    }
  }

  /** Multiplying by a polynomial congruent to zero gives a product congruent to zero. */
  lemma NegacyclicCongZero(a: Poly, y: Poly, k: int)
    requires PolyCong(y, Zero())
    ensures Cong(NegacyclicCoeff(a, y, k), 0, Q)
  {
    ConvRangeCongZero(a, y, k, D);
    ConvRangeCongZero(a, y, k + D, D);
    CongSub(Conv(a, y, k), 0, Conv(a, y, k + D), 0, Q);
  }

  lemma {:induction false} ConvRangeZero(a: Poly, m: int, hi: int)
    ensures ConvRange(a, Zero(), m, 0, hi) == 0
    decreases hi
  {
    if hi > 0 {
      ConvRangeZero(a, m, hi - 1);
    }
  }

  /** The product with the zero polynomial is zero in every coefficient. */
  lemma NegacyclicZero(a: Poly, k: int)
    ensures NegacyclicCoeff(a, Zero(), k) == 0
  {
    ConvRangeZero(a, k, D);
    ConvRangeZero(a, k + D, D);
  }

  /** Two congruent polynomials differ by a polynomial congruent to zero. */
  lemma CongruentDifference(x: Poly, y: Poly) returns (d: Poly)
    requires PolyCong(x, y)
    ensures Plus(y, d) == x && PolyCong(d, Zero())
  {
    d := seq(D, i requires 0 <= i < D => x[i] - y[i]);
    forall i | 0 <= i < D
      ensures Cong(d[i], Zero()[i], Q)
    {
      CongSub(x[i], y[i], y[i], y[i], Q);
    }
    assert Plus(y, d) == x by {
      forall i | 0 <= i < D
        ensures Plus(y, d)[i] == x[i]
      {
      }
    }
  }

  /** Congruent multipliers give congruent products. */
  lemma NegacyclicCong(a: Poly, x: Poly, y: Poly, k: int)
    requires PolyCong(x, y)
    ensures Cong(NegacyclicCoeff(a, x, k), NegacyclicCoeff(a, y, k), Q)
  {
    var d := CongruentDifference(x, y);
    NegacyclicDistributes(a, y, d, k);
    NegacyclicCongZero(a, d, k);
    CongAddZero(NegacyclicCoeff(a, d, k), NegacyclicCoeff(a, y, k), NegacyclicCoeff(a, x, k), Q);
  }

  /**
   * P for each t in [0, hi) with m - t in [0, D): a bound on ConvRange(_, _, m, 0, hi)
   * when every product of two coefficients is at most P in magnitude.
   */
  function TermsBound(m: int, hi: int, P: int): int
    decreases hi
  {
    if hi <= 0 then 0 else TermsBound(m, hi - 1, P) + (if 0 <= m - (hi - 1) < D then P else 0)
  }

  /** For k in [0, D), each t in [0, D) contributes to exactly one of the degrees k and k + D. */
  lemma {:induction false} TermsBoundSplit(k: int, h: int, P: int)
    requires 0 <= k < D && 0 <= h <= D
    ensures TermsBound(k, h, P) + TermsBound(k + D, h, P) == h * P
    decreases h
  {
    if h > 0 {
      TermsBoundSplit(k, h - 1, P);
      assert h * P == (h - 1) * P + P;
    }
  }

  /** Each non-zero term of a partial convolution is at most P == A*B in magnitude. */
  lemma {:induction false} ConvRangeBounded(a: Poly, y: Poly, m: int, hi: int, A: int, B: int, P: int)
    requires P == A * B
    requires forall t :: 0 <= t < D ==> -A <= a[t] <= A
    requires forall t :: 0 <= t < D ==> -B <= y[t] <= B
    ensures -TermsBound(m, hi, P) <= ConvRange(a, y, m, 0, hi) <= TermsBound(m, hi, P)
    decreases hi
  {
    assert -A <= a[0] <= A;
    if hi > 0 {
      ConvRangeBounded(a, y, m, hi - 1, A, B, P);
      if 0 <= m - (hi - 1) < D {
        if hi - 1 < D {
          MulBounded(a[hi - 1], y[m - (hi - 1)], A, B);
        } else {
          MulBounded(0, y[m - (hi - 1)], A, B);
        }
      }
    }
  }

  /**
   * Every coefficient of a*y is at most D*A*B in magnitude when the coefficients of a are
   * within [-A, A] and those of y within [-B, B].
   */
  lemma NegacyclicBounded(a: Poly, y: Poly, k: int, A: int, B: int)
    requires 0 <= k < D
    requires forall t :: 0 <= t < D ==> -A <= a[t] <= A
    requires forall t :: 0 <= t < D ==> -B <= y[t] <= B
    ensures -(D * (A * B)) <= NegacyclicCoeff(a, y, k) <= D * (A * B)
  {
    var P := A * B;
    ConvRangeBounded(a, y, k, D, A, B, P);
    ConvRangeBounded(a, y, k + D, D, A, B, P);
    TermsBoundSplit(k, D, P);
  }

  // ---------------------------------------------------------------- sums of polynomials

  /** Coefficient k of each polynomial of a list. */
  function CoeffsAt(ps: seq<Poly>, k: int): (c: seq<int>)
    requires 0 <= k < D
    ensures |c| == |ps| && forall i :: 0 <= i < |ps| ==> c[i] == ps[i][k]
  {
    seq(|ps|, i requires 0 <= i < |ps| => ps[i][k])
  }

  /** Coefficient k of the exact sum of a list of polynomials. */
  function SumAt(ps: seq<Poly>, k: int): int
    requires 0 <= k < D
  {
    Sum(CoeffsAt(ps, k))
  }

  lemma SumAtSnoc(ps: seq<Poly>, p: Poly, k: int)
    requires 0 <= k < D
    ensures SumAt(ps + [p], k) == SumAt(ps, k) + p[k]
  {
    assert CoeffsAt(ps + [p], k) == CoeffsAt(ps, k) + [p[k]];
    SumSnoc(CoeffsAt(ps, k), p[k]);
  }

  /** One step of a running sum: adding p to a sum of ps gives a sum of ps + [p]. */
  lemma AccumulateStep(ps: seq<Poly>, p: Poly, before: Poly, after: Poly)
    requires forall k :: 0 <= k < D ==> Cong(before[k], SumAt(ps, k), Q)
    requires forall k :: 0 <= k < D ==> Cong(after[k], before[k] + p[k], Q)
    ensures forall k :: 0 <= k < D ==> Cong(after[k], SumAt(ps + [p], k), Q)
  {
    forall k | 0 <= k < D
      ensures Cong(after[k], SumAt(ps + [p], k), Q)
    {
      SumAtSnoc(ps, p, k);
      CongAdd(before[k], SumAt(ps, k), p[k], p[k], Q);
    }
  }
}
