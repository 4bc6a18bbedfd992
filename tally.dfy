/**
 * The tally: the published ballots are added coefficientwise modulo q, every coefficient
 * of the total is centred into [-q/2, q/2], and the largest centred magnitude (the
 * infinity norm) is compared with q/4. Reading the ballots from shared memory is not
 * modelled: each ballot is a parameter that is either a polynomial or unreadable.
 */
module TallyDecoder {
  import opened ModArith
  import opened Ring
  import opened Noise

  /** `q / 2` and `-q / 2` in C++ integer division: the window is [-Half, Half]. */
  const Half: int := Q / 2
  /** The decision threshold `q / 4`. */
  const Quarter: int := Q / 4

  function Abs(x: int): (r: int)
    ensures r >= 0 && (r == x || r == -x)
  {
    if x < 0 then -x else x
  }

  /**
   * The centred representative of x modulo q, defined from the Euclidean residue:
   * residues above q/2 are shifted down by q. Because q is odd, [-Half, Half] holds
   * exactly q integers, and this is the one among them congruent to x.
   */
  function Centered(x: int): (c: int)
    ensures -Half <= c <= Half && Cong(c, x, Q)
  {
    var r := x % Q;
    DivModUnique(r, Q, 0, r);
    if r <= Half then r
    else
      DivModUnique(r - Q, Q, -1, r);
      r - Q
  }

  /** No other value in the window is congruent to x: the representative is unique. */
  lemma CenteredUnique(x: int, c: int)
    requires -Half <= c <= Half && Cong(c, x, Q)
    ensures c == Centered(x)
  {
    if c >= 0 {
      DivModUnique(c, Q, 0, c);
    } else {
      DivModUnique(c, Q, -1, c + Q);
    }
  }

  /**
   * mod_q_centered: the C++ remainder `x %= q` (in (-q, q), with the sign of x), then
   * `if (x > q/2) x -= q;` and `if (x < -q/2) x += q;` in that order. The result is the
   * centred representative of x.
   */
  method ModQCentered(x: int) returns (r: int)
    ensures r == Centered(x)
  {
    r := CRem(x, Q);
    if r > Half {
      CongShift(r - Q, Q);
      r := r - Q;
    }
    if r < -Half {
      CongShift(r, Q);
      r := r + Q;
    }
    CenteredUnique(x, r);
  }

  /** The centred value depends only on the residue of x modulo q. */
  lemma CenteredDependsOnResidue(x: int, y: int)
    requires Cong(x, y, Q)
    ensures Centered(x) == Centered(y)
  {
    CenteredUnique(y, Centered(x));
  }

  /** An all-zero total decodes as YES. */
  lemma ZeroTotalDecodesYes(total: seq<int>)
    requires forall k :: 0 <= k < |total| ==> total[k] == 0
    ensures AllWithinQuarter(total)
  {
    forall k | 0 <= k < |total|
      ensures Abs(Centered(total[k])) <= Quarter
    {
      CenteredOfResidue(0);
    }
  }

  /** For a canonical residue, the centred value is the residue itself or the residue minus q. */
  lemma CenteredOfResidue(x: int)
    requires 0 <= x < Q
    ensures Centered(x) == if x <= Half then x else x - Q
  {
    DivModUnique(x, Q, 0, x);
  }

  const YesVerdict: string := "ALL VOTED YES (0)"
  const VetoVerdict: string := "SOMEONE VETOED (1)"

  /** Every centred coefficient of the total lies within q/4 of zero. */
  predicate AllWithinQuarter(total: seq<int>)
  {
    forall k :: 0 <= k < |total| ==> Abs(Centered(total[k])) <= Quarter
  }

  /**
   * decode_vote: infNorm is the running maximum of |mod_q_centered(coeff)|, starting
   * from 0, and the verdict is YES exactly when it is at most q/4.
   */
  method DecodeVote(total: seq<int>) returns (verdict: string, infNorm: int)
    ensures 0 <= infNorm
    ensures forall k :: 0 <= k < |total| ==> Abs(Centered(total[k])) <= infNorm
    ensures infNorm == 0 || exists k :: 0 <= k < |total| && Abs(Centered(total[k])) == infNorm
    ensures verdict == (if infNorm <= Quarter then YesVerdict else VetoVerdict)
    ensures verdict == YesVerdict <==> AllWithinQuarter(total)
  {
    infNorm := 0;
    for i := 0 to |total|
      invariant 0 <= infNorm
      invariant forall k :: 0 <= k < i ==> Abs(Centered(total[k])) <= infNorm
      invariant infNorm == 0 || exists k :: 0 <= k < i && Abs(Centered(total[k])) == infNorm
    {
      var c := ModQCentered(total[i]);
      if Abs(c) > infNorm {
        infNorm := Abs(c);
      }
    }
    if infNorm <= Quarter {
      verdict := YesVerdict;
    } else {
      verdict := VetoVerdict;
      assert !AllWithinQuarter(total) by {
        var k :| 0 <= k < |total| && Abs(Centered(total[k])) == infNorm;
      }
    }
  }

  datatype Option<T> = None | Some(value: T)

  /** Every ballot could be read. */
  predicate AllReadable(ballots: seq<Option<Poly>>)
  {
    forall i :: 0 <= i < |ballots| ==> ballots[i].Some?
  }

  /** The ballots themselves, once every one of them could be read. */
  function Opened(ballots: seq<Option<Poly>>): (ps: seq<Poly>)
    requires AllReadable(ballots)
    ensures |ps| == |ballots| && forall i :: 0 <= i < |ballots| ==> ps[i] == ballots[i].value
  {
    seq(|ballots|, i requires 0 <= i < |ballots| => ballots[i].value)
  }

  /** The tally either decides, or stops at the first ballot it cannot read (exit status 1). */
  datatype TallyResult =
    | Decided(total: seq<int>, infNorm: int, verdict: string)
    | Unreadable(party: int)

  /**
   * The tally's main loop: `total[j] = (total[j] + data[j]) % q` for every ballot in
   * turn, then decode_vote on the total. An unreadable ballot ends the tally with the
   * index of its party and no verdict.
   */
  method Tally(ballots: seq<Option<Poly>>) returns (result: TallyResult)
    ensures !AllReadable(ballots) ==>
      && result.Unreadable?
      && 0 <= result.party < |ballots| && ballots[result.party].None?
      && forall i :: 0 <= i < result.party ==> ballots[i].Some?
    ensures AllReadable(ballots) ==>
      && result.Decided? && |result.total| == D
      && (forall k :: 0 <= k < D ==>
            -Q < result.total[k] < Q && Cong(result.total[k], SumAt(Opened(ballots), k), Q))
      && result.verdict == (if AllWithinQuarter(result.total) then YesVerdict else VetoVerdict)
      && 0 <= result.infNorm
      && (forall k :: 0 <= k < D ==> Abs(Centered(result.total[k])) <= result.infNorm)
      && (result.infNorm == 0 || exists k :: 0 <= k < D && Abs(Centered(result.total[k])) == result.infNorm)
  {
    var total := new int[D](_ => 0);
    for i := 0 to |ballots|
      invariant forall j :: 0 <= j < i ==> ballots[j].Some?
      invariant forall k :: 0 <= k < D ==>
        -Q < total[k] < Q && Cong(total[k], SumAt(Opened(ballots[..i]), k), Q)
    {
      if ballots[i].None? {
        return Unreadable(i);
      }
      ghost var before: Poly := total[..];
      AddBallot(total, ballots[i].value);
      OpenedStep(ballots, i, before, total[..]);
    }
    assert ballots[..|ballots|] == ballots;
    var verdict, infNorm := DecodeVote(total[..]);
    result := Decided(total[..], infNorm, verdict);
  }

  /** One pass of the tally's inner loop: `total[j] = (total[j] + data[j]) % q` for every j. */
  method AddBallot(total: array<int>, data: Poly)
    requires total.Length == D
    modifies total
    ensures forall k :: 0 <= k < D ==> total[k] == CRem(old(total[k]) + data[k], Q)
  {
    for j := 0 to D
      invariant forall k :: 0 <= k < j ==> total[k] == CRem(old(total[k]) + data[k], Q)
      invariant forall k :: j <= k < D ==> total[k] == old(total[k])
    {
      total[j] := CRem(total[j] + data[j], Q);
    }
  }

  /** Adding ballot i to a total of the ballots before it gives a total of the ballots up to i. */
  lemma OpenedStep(ballots: seq<Option<Poly>>, i: int, before: Poly, after: Poly)
    requires 0 <= i < |ballots| && forall j :: 0 <= j <= i ==> ballots[j].Some?
    requires forall k :: 0 <= k < D ==> Cong(before[k], SumAt(Opened(ballots[..i]), k), Q)
    requires forall k :: 0 <= k < D ==> after[k] == CRem(before[k] + ballots[i].value[k], Q)
    ensures forall k :: 0 <= k < D ==> Cong(after[k], SumAt(Opened(ballots[..i + 1]), k), Q)
  {
    assert Opened(ballots[..i + 1]) == Opened(ballots[..i]) + [ballots[i].value];
    AccumulateStep(Opened(ballots[..i]), ballots[i].value, before, after);
  }

  /** A decoy coefficient, on its own, centres to more than q/4 away from zero. */
  lemma HighNoiseExceedsQuarter(signDraw: nat, magDraw: nat)
    ensures Abs(Centered(HighNoiseCoeff(signDraw, magDraw))) > Quarter
  {
    CenteredOfResidue(HighNoiseCoeff(signDraw, magDraw));
  }

  /**
   * A decoy moved by less than q/3 - q/4 stays more than q/4 away from zero: the decoy's
   * distance to 0 modulo q is at least q/3.
   */
  lemma DecoyOutlastsNoise(signDraw: nat, magDraw: nat, p: int)
    requires -(LowMag - Quarter) < p < LowMag - Quarter
    ensures Abs(Centered(HighNoiseCoeff(signDraw, magDraw) + p)) > Quarter
  {
    var c := HighNoiseCoeff(signDraw, magDraw);
    assert Quarter < c + p < Q - Quarter;
    CenteredOfResidue(c + p);
  }

  /** A total whose coefficients are congruent to values within q/4 of zero decodes as YES. */
  lemma SmallTotalDecodesYes(total: seq<int>, exact: seq<int>)
    requires |total| == |exact|
    requires forall k :: 0 <= k < |total| ==> Cong(total[k], exact[k], Q) && Abs(exact[k]) <= Quarter
    ensures AllWithinQuarter(total)
  {
    forall k | 0 <= k < |total|
      ensures Abs(Centered(total[k])) <= Quarter
    {
      CenteredUnique(total[k], exact[k]);
    }
  }
}
