/**
 * Share exchange: each participant splits the zero polynomial into n additive shares,
 * one per recipient, and later adds up the n shares addressed to it into its secret x.
 * Publishing and reading shares through shared memory, and the barrier between the two
 * steps, are not modelled: the shares a participant reads are a parameter.
 */
module ShareExchange {
  import opened ModArith
  import opened Ring
  import opened Noise

  /**
   * Share generation of participant `id` among n: every share but its own is a fresh
   * small-noise polynomial (draws[i] holds the rand() values for share i), and its own
   * share is the negated running sum, `(-sum[k] + q) % q`. The shares sum to zero modulo q.
   */
  method GenerateShares(n: int, id: int, draws: seq<seq<nat>>) returns (shares: seq<Poly>)
    requires 0 <= id < n
    requires |draws| >= n && forall i :: 0 <= i < n ==> |draws[i]| >= D
    ensures |shares| == n
    ensures forall i :: 0 <= i < n && i != id ==> DrawnFrom(shares[i], draws[i])
    ensures InZq(shares[id])
    ensures forall k :: 0 <= k < D ==> Cong(SumAt(shares, k), 0, Q)
  {
    var sum;
    shares, sum := OtherShares(n, id, draws);
    ghost var others := shares;
    var own := NegatedSum(sum);
    shares := shares[id := own];
    NegatedSumCompletesZero(others, id, sum, shares);
  }

  /**
   * The first loop of share generation: the share for every recipient but `id` is drawn,
   * and the running poly_add of the drawn shares is kept; share `id` is still zero.
   */
  method OtherShares(n: int, id: int, draws: seq<seq<nat>>) returns (shares: seq<Poly>, sum: Poly)
    requires 0 <= id < n
    requires |draws| >= n && forall i :: 0 <= i < n ==> |draws[i]| >= D
    ensures |shares| == n && shares[id] == Zero()
    ensures forall i :: 0 <= i < n && i != id ==> DrawnFrom(shares[i], draws[i])
    ensures forall k :: 0 <= k < D ==> -Q < sum[k] < Q && Cong(sum[k], SumAt(shares, k), Q)
  {
    shares := [];
    sum := Zero();
    for i := 0 to n
      invariant |shares| == i && (id < i ==> shares[id] == Zero())
      invariant forall j :: 0 <= j < i && j != id ==> DrawnFrom(shares[j], draws[j])
      invariant forall k :: 0 <= k < D ==> -Q < sum[k] < Q && Cong(sum[k], SumAt(shares, k), Q)
    {
      var p := Zero();
      ghost var before := sum;
      if i != id {
        p := RandPoly(false, draws[i]);
        sum := PolyAdd(sum, p);
        assert DrawnFrom(p, draws[i]);
      }
      AccumulateStep(shares, p, before, sum);
      DrawnStep(shares, p, id, draws);
      shares := shares + [p];
    }
  }

  /** Appending share i keeps every drawn share drawn, and share `id` zero. */
  lemma DrawnStep(shares: seq<Poly>, p: Poly, id: int, draws: seq<seq<nat>>)
    requires 0 <= id && |shares| < |draws|
    requires id < |shares| ==> shares[id] == Zero()
    requires forall j :: 0 <= j < |shares| && j != id ==> DrawnFrom(shares[j], draws[j])
    requires |shares| == id ==> p == Zero()
    requires |shares| != id ==> DrawnFrom(p, draws[|shares|])
    ensures id < |shares| + 1 ==> (shares + [p])[id] == Zero()
    ensures forall j :: 0 <= j < |shares| + 1 && j != id ==> DrawnFrom((shares + [p])[j], draws[j])
  {
  }

  /** Every coefficient of p is the small noise of the matching rand() value. */
  predicate DrawnFrom(p: Poly, draws: seq<nat>)
  {
    |draws| >= D && forall k :: 0 <= k < D ==> p[k] == SmallNoise(draws[k])
  }

  /** The participant's own share, `(-sum[k] + q) % q` for every k: a residue that cancels the sum. */
  method NegatedSum(sum: Poly) returns (own: Poly)
    requires forall k :: 0 <= k < D ==> -Q < sum[k] < Q
    ensures InZq(own)
    ensures forall k :: 0 <= k < D ==> own[k] == CRem(-sum[k] + Q, Q) && Cong(own[k] + sum[k], 0, Q)
  {
    var a := new int[D];
    for k := 0 to D
      invariant forall k' :: 0 <= k' < k ==> a[k'] == CRem(-sum[k'] + Q, Q)
    {
      a[k] := CRem(-sum[k] + Q, Q);
    }
    own := a[..];
    forall k | 0 <= k < D
      ensures Cong(own[k] + sum[k], 0, Q)
    {
      CongShift(-sum[k], Q);
      CongAdd(own[k], -sum[k], sum[k], sum[k], Q);
    }
  }

  /**
   * Replacing the zero share `id` by the negated sum of the others, `(-sum[k] + q) % q`,
   * makes the whole row sum to zero modulo q.
   */
  lemma NegatedSumCompletesZero(others: seq<Poly>, id: int, sum: Poly, shares: seq<Poly>)
    requires 0 <= id < |others| == |shares| && others[id] == Zero()
    requires forall j :: 0 <= j < |others| && j != id ==> shares[j] == others[j]
    requires forall k :: 0 <= k < D ==> -Q < sum[k] < Q && Cong(sum[k], SumAt(others, k), Q)
    requires forall k :: 0 <= k < D ==> shares[id][k] == CRem(-sum[k] + Q, Q)
    ensures forall k :: 0 <= k < D ==> Cong(SumAt(shares, k), 0, Q)
  {
    forall k | 0 <= k < D
      ensures Cong(SumAt(shares, k), 0, Q)
    {
      assert CoeffsAt(shares, k) == CoeffsAt(others, k)[id := shares[id][k]];
      SumUpdate(CoeffsAt(others, k), id, shares[id][k]);
      CongShift(-sum[k], Q);
      CongAdd(SumAt(others, k), sum[k], shares[id][k], -sum[k], Q);
    }
  }

  /** Reconstruction: x is the running poly_add of the shares addressed to this participant. */
  method Reconstruct(inbox: seq<Poly>) returns (x: Poly)
    ensures forall k :: 0 <= k < D ==> -Q < x[k] < Q && Cong(x[k], SumAt(inbox, k), Q)
  {
    x := Zero();
    for j := 0 to |inbox|
      invariant forall k :: 0 <= k < D ==> -Q < x[k] < Q && Cong(x[k], SumAt(inbox[..j], k), Q)
    {
      ghost var before := x;
      x := PolyAdd(x, inbox[j]);
      assert inbox[..j + 1] == inbox[..j] + [inbox[j]];
      AccumulateStep(inbox[..j], inbox[j], before, x);
    }
    assert inbox[..|inbox|] == inbox;
  }

  /** The n x n table of all shares: S[i][j] is the share participant i sends to participant j. */
  predicate IsShareTable(S: seq<seq<Poly>>)
  {
    forall i :: 0 <= i < |S| ==> |S[i]| == |S|
  }

  /** The shares addressed to participant j, one from each contributor. */
  function Inbox(S: seq<seq<Poly>>, j: int): (col: seq<Poly>)
    requires IsShareTable(S) && 0 <= j < |S|
    ensures |col| == |S| && forall i :: 0 <= i < |S| ==> col[i] == S[i][j]
  {
    seq(|S|, i requires 0 <= i < |S| => S[i][j])
  }

  /**
   * If every contributor's row of shares sums to zero modulo q, the secrets the
   * participants reconstruct from their columns sum to zero modulo q as well.
   */
  lemma SecretsSumToZero(S: seq<seq<Poly>>, xs: seq<Poly>)
    requires IsShareTable(S) && |xs| == |S|
    requires forall i, k :: 0 <= i < |S| && 0 <= k < D ==> Cong(SumAt(S[i], k), 0, Q)
    requires forall j, k :: 0 <= j < |S| && 0 <= k < D ==> Cong(xs[j][k], SumAt(Inbox(S, j), k), Q)
    ensures forall k :: 0 <= k < D ==> Cong(SumAt(xs, k), 0, Q)
  {
    var n := |S|;
    forall k | 0 <= k < D
      ensures Cong(SumAt(xs, k), 0, Q)
    {
      var M := seq(n, i requires 0 <= i < n => CoeffsAt(S[i], k));
      assert IsRect(M, n);
      forall i | 0 <= i < n
        ensures Cong(RowTotals(M)[i], 0, Q)
      {
        assert RowTotals(M)[i] == SumAt(S[i], k);
      }
      SumCongZero(RowTotals(M), Q);
      SumExchange(M, n);
      forall j | 0 <= j < n
        ensures Cong(CoeffsAt(xs, k)[j], ColTotals(M, n)[j], Q)
      {
        assert ColumnOf(M, n, j) == CoeffsAt(Inbox(S, j), k);
      }
      SumCong(CoeffsAt(xs, k), ColTotals(M, n), Q);
    }
  }
}
