/**
 * One round of the protocol, end to end: every participant generates and publishes its
 * shares, reconstructs its secret from the shares addressed to it, encodes its vote, and
 * the tally decodes the ballots. Because the secrets sum to zero modulo q, the products
 * a*x_i cancel in the total and only the errors remain; when n times the error bound is
 * at most q/4 an all-allow round therefore decodes as YES.
 */
module Protocol {
  import opened ModArith
  import opened Ring
  import opened Noise
  import opened ShareExchange
  import opened VoteEncoder
  import opened TallyDecoder

  /** The exact (unreduced) coefficientwise sum of a list of polynomials. */
  function ExactSum(xs: seq<Poly>): (s: Poly)
    ensures forall k :: 0 <= k < D ==> s[k] == SumAt(xs, k)
  {
    seq(D, k requires 0 <= k < D => SumAt(xs, k))
  }

  /** Coefficient k of a*xs[j], for every j. */
  function ProductsAt(a: Poly, xs: seq<Poly>, k: int): (c: seq<int>)
    ensures |c| == |xs| && forall j :: 0 <= j < |xs| ==> c[j] == NegacyclicCoeff(a, xs[j], k)
  {
    seq(|xs|, j requires 0 <= j < |xs| => NegacyclicCoeff(a, xs[j], k))
  }

  /** The sum of the products splits off the product with the last polynomial. */
  lemma ProductsAtLast(a: Poly, xs: seq<Poly>, k: int)
    requires |xs| > 0
    ensures Sum(ProductsAt(a, xs, k)) == Sum(ProductsAt(a, xs[..|xs| - 1], k)) + NegacyclicCoeff(a, xs[|xs| - 1], k)
  {
    assert ProductsAt(a, xs, k)[..|xs| - 1] == ProductsAt(a, xs[..|xs| - 1], k);
  }

  /** The exact sum of a non-empty list is the exact sum of all but the last, plus the last. */
  lemma ExactSumLast(xs: seq<Poly>)
    requires |xs| > 0
    ensures ExactSum(xs) == Plus(ExactSum(xs[..|xs| - 1]), xs[|xs| - 1])
  {
    var h := |xs| - 1;
    assert xs[..h] + [xs[h]] == xs;
    forall t | 0 <= t < D
      ensures ExactSum(xs)[t] == Plus(ExactSum(xs[..h]), xs[h])[t]
    {
      SumAtSnoc(xs[..h], xs[h], t);
    }
  }

  /**
   * Multiplying by a distributes over a list: the products of a with each x_j add up to
   * the product of a with the sum of the x_j.
   */
  lemma {:induction false} ProductOfSum(a: Poly, xs: seq<Poly>, k: int)
    requires 0 <= k < D
    ensures Sum(ProductsAt(a, xs, k)) == NegacyclicCoeff(a, ExactSum(xs), k)
    decreases |xs|
  {
    if |xs| == 0 {
      assert ExactSum(xs) == Zero();
      NegacyclicZero(a, k);
    } else {
      var h := |xs| - 1;
      var prefix, last := xs[..h], xs[h];
      ProductsAtLast(a, xs, k);
      ExactSumLast(xs);
      ProductOfSum(a, prefix, k);
      NegacyclicDistributes(a, ExactSum(prefix), last, k);
    }
  }

  /** Secrets that sum to zero modulo q give products with a that sum to zero modulo q. */
  lemma ProductsCancel(a: Poly, xs: seq<Poly>, k: int)
    requires 0 <= k < D
    requires forall t :: 0 <= t < D ==> Cong(SumAt(xs, t), 0, Q)
    ensures Cong(Sum(ProductsAt(a, xs, k)), 0, Q)
  {
    ProductOfSum(a, xs, k);
    NegacyclicCongZero(a, ExactSum(xs), k);
  }

  /**
   * If every row of the share table sums to zero, each secret is congruent to the sum of
   * its inbox, each ballot is congruent to a*x_j + e_j with |e_j| <= bound, and
   * n*bound <= q/4, then any total congruent to the sum of the ballots decodes as YES.
   */
  lemma AllAllowDecodesYes(S: seq<seq<Poly>>, xs: seq<Poly>, a: Poly, es: seq<Poly>,
                           bound: int, ballots: seq<Poly>, total: seq<int>)
    requires IsShareTable(S) && |xs| == |S| && |es| == |S| && |ballots| == |S|
    requires forall i, k :: 0 <= i < |S| && 0 <= k < D ==> Cong(SumAt(S[i], k), 0, Q)
    requires forall j, k :: 0 <= j < |S| && 0 <= k < D ==> Cong(xs[j][k], SumAt(Inbox(S, j), k), Q)
    requires forall j, k :: 0 <= j < |S| && 0 <= k < D ==>
      Cong(ballots[j][k], NegacyclicCoeff(a, xs[j], k) + es[j][k], Q) && -bound <= es[j][k] <= bound
    requires |S| * bound <= Quarter
    requires |total| == D && forall k :: 0 <= k < D ==> Cong(total[k], SumAt(ballots, k), Q)
    ensures AllWithinQuarter(total)
  {
    SecretsSumToZero(S, xs);
    var exact := seq(D, k requires 0 <= k < D => SumAt(es, k));
    forall k | 0 <= k < D
      ensures Cong(total[k], exact[k], Q) && Abs(exact[k]) <= Quarter
    {
      OnlyErrorsRemain(xs, a, es, ballots, k);
      SumBounded(CoeffsAt(es, k), bound);
    }
    SmallTotalDecodesYes(total, exact);
  }

  /** In coefficient k, the products cancel from the sum of the ballots and the errors remain. */
  lemma OnlyErrorsRemain(xs: seq<Poly>, a: Poly, es: seq<Poly>, ballots: seq<Poly>, k: int)
    requires 0 <= k < D && |es| == |xs| && |ballots| == |xs|
    requires forall t :: 0 <= t < D ==> Cong(SumAt(xs, t), 0, Q)
    requires forall j :: 0 <= j < |xs| ==> Cong(ballots[j][k], NegacyclicCoeff(a, xs[j], k) + es[j][k], Q)
    ensures Cong(SumAt(ballots, k), SumAt(es, k), Q)
  {
    var prods := ProductsAt(a, xs, k);
    var errs := CoeffsAt(es, k);
    var both := seq(|prods|, j requires 0 <= j < |prods| => prods[j] + errs[j]);
    assert Cong(SumAt(ballots, k), Sum(both), Q) by {
      var bs := CoeffsAt(ballots, k);
      forall j | 0 <= j < |xs|
        ensures Cong(bs[j], both[j], Q)
      {
        assert bs[j] == ballots[j][k] && both[j] == NegacyclicCoeff(a, xs[j], k) + es[j][k];
      }
      SumCong(bs, both, Q);
    }
    SumPointwise(prods, errs, both);
    ProductsCancel(a, xs, k);
    CongAddZero(Sum(prods), Sum(errs), Sum(both), Q);
  }

  /**
   * A whole round with n participants: participant i generates its shares from
   * shareDraws[i], reconstructs its secret from the shares addressed to it, and encodes
   * votes[i] with the error, sign and magnitude draws errDraws[i], signDraws[i] and
   * magDraws[i]; then the tally reads every ballot. A bound of 2 or less stops every
   * participant with status 1 before any ballot is written.
   */
  method Round(n: nat, a: Poly, bound: int, votes: seq<int>, shareDraws: seq<seq<seq<nat>>>,
               errDraws: seq<seq<nat>>, signDraws: seq<seq<nat>>, magDraws: seq<seq<nat>>)
    returns (result: Outcome<TallyResult>)
    requires n >= 1 && |votes| == n && |shareDraws| == n
    requires |errDraws| == n && |signDraws| == n && |magDraws| == n
    requires forall i :: 0 <= i < n ==> |shareDraws[i]| >= n && forall j :: 0 <= j < n ==> |shareDraws[i][j]| >= D
    requires forall i :: 0 <= i < n ==> |errDraws[i]| >= D && |signDraws[i]| >= D && |magDraws[i]| >= D
    ensures bound <= 2 ==> result == Exited(1)
    ensures bound > 2 ==> result.Ok? && result.value.Decided?
    ensures bound > 2 && n * bound <= Quarter && (forall i :: 0 <= i < n ==> votes[i] == 0) ==>
      result.Ok? && result.value.verdict == YesVerdict
    ensures bound > 2 && n == 1 && votes[0] != 0 ==>
      result.Ok? && result.value.verdict == VetoVerdict
    ensures bound > 2 && VetoMargin(n, a, bound) && (exists v :: 0 <= v < n && SingleVeto(votes, v)) ==>
      result.Ok? && result.value.verdict == VetoVerdict
  {
    if bound <= 2 {
      return Exited(1);
    }
    var S := PublishShares(n, shareDraws);
    var xs := ReconstructAll(S);
    var ballots, es := EncodeAll(votes, a, xs, bound, errDraws, signDraws, magDraws);
    var tally := Tally(ballots);
    result := Ok(tally);
    if n * bound <= Quarter && forall i :: 0 <= i < n ==> votes[i] == 0 {
      AllAllowDecodesYes(S, xs, a, es, bound, Opened(ballots), tally.total);
    }
    if n == 1 && votes[0] != 0 {
      LoneVetoDecodesVeto(ballots, signDraws[0][0], magDraws[0][0], tally.total);
    }
    if VetoMargin(n, a, bound) && exists v :: 0 <= v < n && SingleVeto(votes, v) {
      SingleVetoDecodesVeto(S, xs, a, es, bound, votes, ballots, signDraws, magDraws, tally.total);
    }
  }

  /** Every participant i generates its row of shares; row i of S is what participant i sends. */
  method PublishShares(n: nat, shareDraws: seq<seq<seq<nat>>>) returns (S: seq<seq<Poly>>)
    requires |shareDraws| == n
    requires forall i :: 0 <= i < n ==> |shareDraws[i]| >= n && forall j :: 0 <= j < n ==> |shareDraws[i][j]| >= D
    ensures |S| == n && IsShareTable(S)
    ensures forall i, k :: 0 <= i < n && 0 <= k < D ==> Cong(SumAt(S[i], k), 0, Q)
    ensures OffDiagonalSmall(S)
  {
    S := [];
    for i := 0 to n
      invariant |S| == i && forall r :: 0 <= r < i ==> |S[r]| == n
      invariant forall r, k :: 0 <= r < i && 0 <= k < D ==> Cong(SumAt(S[r], k), 0, Q)
      invariant forall r, j, k :: 0 <= r < i && 0 <= j < n && j != r && 0 <= k < D ==> -3 <= S[r][j][k] <= 3
    {
      var row := GenerateShares(n, i, shareDraws[i]);
      SentSharesSmall(n, i, shareDraws[i], row);
      S := S + [row];
    }
  }

  /** Every share a participant sends to another is small noise, within [-3, 3]. */
  predicate OffDiagonalSmall(S: seq<seq<Poly>>)
    requires IsShareTable(S)
  {
    forall i, j, k :: 0 <= i < |S| && 0 <= j < |S| && i != j && 0 <= k < D ==> -3 <= S[i][j][k] <= 3
  }

  /** The shares drawn by small_noise lie within [-3, 3]. */
  lemma SentSharesSmall(n: int, id: int, draws: seq<seq<nat>>, row: seq<Poly>)
    requires |row| == n && |draws| >= n
    requires forall i :: 0 <= i < n && i != id ==> DrawnFrom(row[i], draws[i])
    ensures forall j, k :: 0 <= j < n && j != id && 0 <= k < D ==> -3 <= row[j][k] <= 3
  {
    forall j, k | 0 <= j < n && j != id && 0 <= k < D
      ensures -3 <= row[j][k] <= 3
    {
      assert DrawnFrom(row[j], draws[j]);
      assert row[j][k] == SmallNoise(draws[j][k]);
    }
  }

  /** Every participant j reconstructs its secret from the shares addressed to it. */
  method ReconstructAll(S: seq<seq<Poly>>) returns (xs: seq<Poly>)
    requires IsShareTable(S)
    ensures |xs| == |S|
    ensures forall j, k :: 0 <= j < |S| && 0 <= k < D ==> Cong(xs[j][k], SumAt(Inbox(S, j), k), Q)
  {
    xs := [];
    for j := 0 to |S|
      invariant |xs| == j
      invariant forall t, k :: 0 <= t < j && 0 <= k < D ==> Cong(xs[t][k], SumAt(Inbox(S, t), k), Q)
    {
      var x := Reconstruct(Inbox(S, j));
      xs := xs + [x];
    }
  }

  /**
   * What participant t's ballot b is, given its vote: congruent to a*x + e with the
   * error e within the bound for an allow vote, and the decoy from its draws otherwise.
   */
  predicate EncodedAs(vote: int, a: Poly, x: Poly, bound: int, e: Poly, b: Poly,
                      signDraws: seq<nat>, magDraws: seq<nat>)
    requires |signDraws| >= D && |magDraws| >= D
  {
    && (forall k :: 0 <= k < D ==> -bound <= e[k] <= bound)
    && (vote == 0 ==> forall k :: 0 <= k < D ==> Cong(b[k], NegacyclicCoeff(a, x, k) + e[k], Q))
    && (vote != 0 ==> forall k :: 0 <= k < D ==> b[k] == HighNoiseCoeff(signDraws[k], magDraws[k]))
  }

  /** The error polynomial rand_error_poly draws: one ErrorCoeff per coefficient. */
  function ErrorPoly(bound: int, draws: seq<nat>): (e: Poly)
    requires bound >= 0 && |draws| >= D
    ensures forall k :: 0 <= k < D ==> e[k] == ErrorCoeff(bound, draws[k]) && -bound <= e[k] <= bound
  {
    seq(D, k requires 0 <= k < D => ErrorCoeff(bound, draws[k]))
  }

  /** A ballot with the contract of encode_vote is encoded as its vote says, with its error polynomial. */
  lemma BallotEncodedAs(vote: int, a: Poly, x: Poly, bound: int,
                        errDraws: seq<nat>, signDraws: seq<nat>, magDraws: seq<nat>, b: Poly)
    requires bound > 2 && |errDraws| >= D && |signDraws| >= D && |magDraws| >= D
    requires vote == 0 ==> forall k :: 0 <= k < D ==>
      Cong(b[k], NegacyclicCoeff(a, x, k) + ErrorCoeff(bound, errDraws[k]), Q)
    requires vote != 0 ==> forall k :: 0 <= k < D ==> b[k] == HighNoiseCoeff(signDraws[k], magDraws[k])
    ensures EncodedAs(vote, a, x, bound, ErrorPoly(bound, errDraws), b, signDraws, magDraws)
  {
  }

  /**
   * Every participant j encodes votes[j]; the error polynomials are returned as ghost
   * values for the proofs.
   */
  method EncodeAll(votes: seq<int>, a: Poly, xs: seq<Poly>, bound: int,
                   errDraws: seq<seq<nat>>, signDraws: seq<seq<nat>>, magDraws: seq<seq<nat>>)
    returns (ballots: seq<Option<Poly>>, ghost es: seq<Poly>)
    requires bound > 2 && |votes| == |xs|
    requires |errDraws| == |xs| && |signDraws| == |xs| && |magDraws| == |xs|
    requires forall i :: 0 <= i < |xs| ==> |errDraws[i]| >= D && |signDraws[i]| >= D && |magDraws[i]| >= D
    ensures |ballots| == |xs| && |es| == |xs| && AllReadable(ballots)
    ensures forall t :: 0 <= t < |xs| ==>
      EncodedAs(votes[t], a, xs[t], bound, es[t], ballots[t].value, signDraws[t], magDraws[t])
  {
    ballots, es := [], [];
    for j := 0 to |xs|
      invariant |ballots| == j && |es| == j && AllReadable(ballots)
      invariant forall t :: 0 <= t < j ==>
        EncodedAs(votes[t], a, xs[t], bound, es[t], ballots[t].value, signDraws[t], magDraws[t])
    {
      var b := EncodeVote(votes[j], a, xs[j], bound, errDraws[j], signDraws[j], magDraws[j]);
      ghost var e := ErrorPoly(bound, errDraws[j]);
      BallotEncodedAs(votes[j], a, xs[j], bound, errDraws[j], signDraws[j], magDraws[j], b.value);
      EncodedStep(votes, a, xs, bound, signDraws, magDraws, ballots, es, b.value, e);
      ballots := ballots + [Some(b.value)];
      es := es + [e];
    }
  }

  /** Appending ballot j, encoded as its vote says, extends the encoded prefix by one. */
  lemma EncodedStep(votes: seq<int>, a: Poly, xs: seq<Poly>, bound: int,
                    signDraws: seq<seq<nat>>, magDraws: seq<seq<nat>>,
                    ballots: seq<Option<Poly>>, es: seq<Poly>, b: Poly, e: Poly)
    requires |votes| == |xs| == |signDraws| == |magDraws|
    requires forall i :: 0 <= i < |xs| ==> |signDraws[i]| >= D && |magDraws[i]| >= D
    requires |ballots| == |es| < |xs| && AllReadable(ballots)
    requires forall t :: 0 <= t < |ballots| ==>
      EncodedAs(votes[t], a, xs[t], bound, es[t], ballots[t].value, signDraws[t], magDraws[t])
    requires EncodedAs(votes[|ballots|], a, xs[|ballots|], bound, e, b, signDraws[|ballots|], magDraws[|ballots|])
    ensures AllReadable(ballots + [Some(b)])
    ensures forall t :: 0 <= t < |ballots| + 1 ==>
      EncodedAs(votes[t], a, xs[t], bound, (es + [e])[t], (ballots + [Some(b)])[t].value, signDraws[t], magDraws[t])
  {
  }

  /** With a single participant who vetoes, the first coefficient of the total is a decoy. */
  lemma LoneVetoDecodesVeto(ballots: seq<Option<Poly>>, signDraw: nat, magDraw: nat, total: seq<int>)
    requires |ballots| == 1 && ballots[0].Some?
    requires ballots[0].value[0] == HighNoiseCoeff(signDraw, magDraw)
    requires |total| == D && Cong(total[0], SumAt(Opened(ballots), 0), Q)
    ensures !AllWithinQuarter(total)
  {
    var c := HighNoiseCoeff(signDraw, magDraw);
    assert SumAt(Opened(ballots), 0) == c by {
      var cs := CoeffsAt(Opened(ballots), 0);
      assert |cs| == 1;
      assert cs[0] == c;
      assert cs[..0] == [];
      assert Sum(cs) == Sum(cs[..0]) + cs[0];
      assert Sum(cs) == c;
    }
    assert Centered(total[0]) == Centered(c);
    HighNoiseExceedsQuarter(signDraw, magDraw);
  }

  /**
   * The public a has coefficients in [-3, 3], as small_noise draws them, and the worst
   * perturbation of a decoy, (n-1)*(64*3*6 + bound), is below q/3 - q/4.
   */
  predicate VetoMargin(n: int, a: Poly, bound: int)
  {
    && (forall k :: 0 <= k < D ==> -3 <= a[k] <= 3)
    && (n - 1) * (1152 + bound) < LowMag - Quarter
  }

  /** Participant v vetoes and every other participant allows. */
  predicate SingleVeto(votes: seq<int>, v: int)
  {
    0 <= v < |votes| && votes[v] != 0 && forall j :: 0 <= j < |votes| && j != v ==> votes[j] == 0
  }

  /**
   * Coefficient k of participant v's secret up to a multiple of q: the shares the others
   * sent to v, minus the shares v sent to the others (v's own share is congruent to the
   * negated sum of the latter).
   */
  function SecretRepresentative(S: seq<seq<Poly>>, v: int, k: int): int
    requires IsShareTable(S) && 0 <= v < |S| && 0 <= k < D
  {
    Sum(CoeffsAt(Inbox(S, v), k)[v := 0]) - Sum(CoeffsAt(S[v], k)[v := 0])
  }

  /**
   * When row v sums to zero modulo q and the off-diagonal shares are small, v's secret is
   * congruent to a value within 6*(n-1) of zero.
   */
  lemma SmallSecretRepresentative(S: seq<seq<Poly>>, v: int, k: int)
    requires IsShareTable(S) && 0 <= v < |S| && 0 <= k < D
    requires Cong(SumAt(S[v], k), 0, Q) && OffDiagonalSmall(S)
    ensures Cong(SumAt(Inbox(S, v), k), SecretRepresentative(S, v, k), Q)
    ensures -(6 * (|S| - 1)) <= SecretRepresentative(S, v, k) <= 6 * (|S| - 1)
  {
    var col, row := CoeffsAt(Inbox(S, v), k), CoeffsAt(S[v], k);
    SumUpdate(col, v, 0);
    SumUpdate(row, v, 0);
    CongSub(Sum(col), Sum(col), Sum(row), 0, Q);
    SumBoundedButOne(col[v := 0], v, 3);
    SumBoundedButOne(row[v := 0], v, 3);
  }

  /**
   * A round in which exactly one participant vetoes decodes as VETO under VetoMargin: the
   * vetoer's first decoy coefficient survives in the total.
   */
  lemma SingleVetoDecodesVeto(S: seq<seq<Poly>>, xs: seq<Poly>, a: Poly, es: seq<Poly>, bound: int,
                              votes: seq<int>, ballots: seq<Option<Poly>>,
                              signDraws: seq<seq<nat>>, magDraws: seq<seq<nat>>, total: seq<int>)
    requires IsShareTable(S) && |xs| == |S| && |es| == |S| && |ballots| == |S| && |votes| == |S|
    requires |signDraws| == |S| && |magDraws| == |S|
    requires forall i :: 0 <= i < |S| ==> |signDraws[i]| >= D && |magDraws[i]| >= D
    requires forall i, t :: 0 <= i < |S| && 0 <= t < D ==> Cong(SumAt(S[i], t), 0, Q)
    requires OffDiagonalSmall(S)
    requires forall j, t :: 0 <= j < |S| && 0 <= t < D ==> Cong(xs[j][t], SumAt(Inbox(S, j), t), Q)
    requires AllReadable(ballots)
    requires forall t {:trigger EncodedAs(votes[t], a, xs[t], bound, es[t], ballots[t].value, signDraws[t], magDraws[t])} :: 0 <= t < |S| ==>
      EncodedAs(votes[t], a, xs[t], bound, es[t], ballots[t].value, signDraws[t], magDraws[t])
    requires VetoMargin(|S|, a, bound)
    requires exists v :: 0 <= v < |S| && SingleVeto(votes, v)
    requires |total| == D && forall t :: 0 <= t < D ==> Cong(total[t], SumAt(Opened(ballots), t), Q)
    ensures !AllWithinQuarter(total)
  {
    var v :| 0 <= v < |S| && SingleVeto(votes, v);
    OneVetoDecodesVeto(S, xs, a, es, bound, votes, ballots, signDraws, magDraws, v, 0, total);
  }

  /**
   * One veto among n participants is detected when the public a has coefficients in
   * [-3, 3] and (n-1)*(1152 + bound) < q/3 - q/4: coefficient k of the total is more than
   * q/4 from zero. The products cancel, so that coefficient is congruent to the decoy minus
   * a*x_v plus the others' errors; x_v is congruent to a polynomial with coefficients
   * within 6*(n-1), so a*x_v is at most 64*3*6*(n-1) = 1152*(n-1), and the decoy, at least
   * q/3 away from zero, stays more than q/4 away.
   */
  lemma OneVetoDecodesVeto(S: seq<seq<Poly>>, xs: seq<Poly>, a: Poly, es: seq<Poly>, bound: int,
                           votes: seq<int>, ballots: seq<Option<Poly>>,
                           signDraws: seq<seq<nat>>, magDraws: seq<seq<nat>>, v: int, k: int, total: seq<int>)
    requires IsShareTable(S) && |xs| == |S| && |es| == |S| && |ballots| == |S| && |votes| == |S|
    requires |signDraws| == |S| && |magDraws| == |S| && 0 <= k < D
    requires forall i :: 0 <= i < |S| ==> |signDraws[i]| >= D && |magDraws[i]| >= D
    requires forall i, t :: 0 <= i < |S| && 0 <= t < D ==> Cong(SumAt(S[i], t), 0, Q)
    requires OffDiagonalSmall(S)
    requires forall j, t :: 0 <= j < |S| && 0 <= t < D ==> Cong(xs[j][t], SumAt(Inbox(S, j), t), Q)
    requires AllReadable(ballots)
    requires forall t {:trigger EncodedAs(votes[t], a, xs[t], bound, es[t], ballots[t].value, signDraws[t], magDraws[t])} :: 0 <= t < |S| ==>
      EncodedAs(votes[t], a, xs[t], bound, es[t], ballots[t].value, signDraws[t], magDraws[t])
    requires VetoMargin(|S|, a, bound)
    requires 0 <= v < |S| && SingleVeto(votes, v)
    requires |total| == D && forall t :: 0 <= t < D ==> Cong(total[t], SumAt(Opened(ballots), t), Q)
    ensures Abs(Centered(total[k])) > Quarter
  {
    var bs := CoeffsAt(Opened(ballots), k);
    var prods, py := ProductsOfSecrets(S, xs, a, es, bound, votes, ballots, signDraws, magDraws, v, k);
    DecoyAndErrorsAt(a, xs, es, bound, votes, ballots, signDraws, magDraws, v, k);
    var errs := CoeffsAt(es, k);
    assert Cong(total[k], Sum(bs), Q);
    assert |errs| == |S|;
    DecoyDominates(bs, prods, errs, bound, v, signDraws[v][k], magDraws[v][k], py, total[k]);
  }

  /**
   * Coefficient k of the total, given the ballots', products' and errors' coefficients k:
   * the products cancel, leaving the decoy perturbed by the errors and the vetoer's product.
   */
  lemma DecoyDominates(bs: seq<int>, prods: seq<int>, errs: seq<int>, bound: int, v: int,
                       signDraw: nat, magDraw: nat, py: int, t: int)
    requires 0 <= v < |errs| && |bs| == |errs| && |prods| == |errs|
    requires Cong(Sum(prods), 0, Q)
    requires ProductPlusErrorBut(bs, prods, errs, v)
    requires bs[v] == HighNoiseCoeff(signDraw, magDraw)
    requires forall j :: 0 <= j < |errs| ==> -bound <= errs[j] <= bound
    requires (|errs| - 1) * (1152 + bound) < LowMag - Quarter
    requires Cong(prods[v], py, Q) && -(1152 * (|errs| - 1)) <= py <= 1152 * (|errs| - 1)
    requires Cong(t, Sum(bs), Q)
    ensures Abs(Centered(t)) > Quarter
  {
    BallotsLeaveDecoyAndErrors(bs, prods, errs, v, HighNoiseCoeff(signDraw, magDraw), t);
    PerturbedDecoyExceedsQuarter(signDraw, magDraw, bound, errs, v, prods[v], py, t);
  }

  /**
   * A value congruent to the decoy plus the errors of all participants but v (each within
   * the bound) minus a product congruent to py (at most 1152*(n-1)) is more than q/4 from
   * zero, when (n-1)*(1152 + bound) < q/3 - q/4.
   */
  lemma PerturbedDecoyExceedsQuarter(signDraw: nat, magDraw: nat, bound: int, errs: seq<int>,
                                     v: int, pv: int, py: int, t: int)
    requires 0 <= v < |errs|
    requires forall j :: 0 <= j < |errs| ==> -bound <= errs[j] <= bound
    requires (|errs| - 1) * (1152 + bound) < LowMag - Quarter
    requires -(1152 * (|errs| - 1)) <= py <= 1152 * (|errs| - 1)
    requires Cong(pv, py, Q)
    requires Cong(t, Sum(errs[v := 0]) + HighNoiseCoeff(signDraw, magDraw) - pv, Q)
    ensures Abs(Centered(t)) > Quarter
  {
    var n := |errs|;
    var c := HighNoiseCoeff(signDraw, magDraw);
    var others := errs[v := 0];
    SumBoundedButOne(others, v, bound);
    var p := Sum(others) - py;
    assert -(LowMag - Quarter) < p < LowMag - Quarter by {
      assert (n - 1) * (1152 + bound) == 1152 * (n - 1) + (n - 1) * bound;
    }
    CongSub(Sum(others) + c, Sum(others) + c, pv, py, Q);
    DecoyOutlastsNoise(signDraw, magDraw, p);
    CenteredDependsOnResidue(t, c + p);
  }

  /**
   * Coefficient k of the products a*x_j, as plain integers: they sum to zero modulo q,
   * every ballot but v's is its product plus its error, and v's product is congruent to a
   * value py within 1152*(n-1) of zero.
   */
  lemma ProductsOfSecrets(S: seq<seq<Poly>>, xs: seq<Poly>, a: Poly, es: seq<Poly>, bound: int,
                          votes: seq<int>, ballots: seq<Option<Poly>>,
                          signDraws: seq<seq<nat>>, magDraws: seq<seq<nat>>, v: int, k: int)
    returns (prods: seq<int>, py: int)
    requires IsShareTable(S) && |xs| == |S| && |es| == |S| && |ballots| == |S| && |votes| == |S|
    requires |signDraws| == |S| && |magDraws| == |S| && 0 <= k < D
    requires forall i :: 0 <= i < |S| ==> |signDraws[i]| >= D && |magDraws[i]| >= D
    requires forall i, t :: 0 <= i < |S| && 0 <= t < D ==> Cong(SumAt(S[i], t), 0, Q)
    requires OffDiagonalSmall(S)
    requires forall j, t :: 0 <= j < |S| && 0 <= t < D ==> Cong(xs[j][t], SumAt(Inbox(S, j), t), Q)
    requires forall t :: 0 <= t < D ==> -3 <= a[t] <= 3
    requires AllReadable(ballots)
    requires forall t {:trigger EncodedAs(votes[t], a, xs[t], bound, es[t], ballots[t].value, signDraws[t], magDraws[t])} :: 0 <= t < |S| ==>
      EncodedAs(votes[t], a, xs[t], bound, es[t], ballots[t].value, signDraws[t], magDraws[t])
    requires 0 <= v < |S| && SingleVeto(votes, v)
    ensures |prods| == |S| && Cong(Sum(prods), 0, Q)
    ensures ProductPlusErrorBut(CoeffsAt(Opened(ballots), k), prods, CoeffsAt(es, k), v)
    ensures Cong(prods[v], py, Q) && -(1152 * (|S| - 1)) <= py <= 1152 * (|S| - 1)
  {
    prods := ProductsAt(a, xs, k);
    AllowingBallotsAt(a, xs, es, bound, votes, ballots, signDraws, magDraws, v, k);
    SecretsSumToZero(S, xs);
    ProductsCancel(a, xs, k);
    py := VetoerProductSmall(S, xs, a, v, k);
  }

  /** Coefficient k of the vetoer's ballot is its decoy, and every error coefficient k is within the bound. */
  lemma DecoyAndErrorsAt(a: Poly, xs: seq<Poly>, es: seq<Poly>, bound: int,
                         votes: seq<int>, ballots: seq<Option<Poly>>,
                         signDraws: seq<seq<nat>>, magDraws: seq<seq<nat>>, v: int, k: int)
    requires |es| == |xs| && |ballots| == |xs| && |votes| == |xs| && 0 <= k < D
    requires |signDraws| == |xs| && |magDraws| == |xs|
    requires forall i :: 0 <= i < |xs| ==> |signDraws[i]| >= D && |magDraws[i]| >= D
    requires AllReadable(ballots)
    requires forall t {:trigger EncodedAs(votes[t], a, xs[t], bound, es[t], ballots[t].value, signDraws[t], magDraws[t])} :: 0 <= t < |xs| ==>
      EncodedAs(votes[t], a, xs[t], bound, es[t], ballots[t].value, signDraws[t], magDraws[t])
    requires 0 <= v < |xs| && SingleVeto(votes, v)
    ensures CoeffsAt(Opened(ballots), k)[v] == HighNoiseCoeff(signDraws[v][k], magDraws[v][k])
    ensures forall j :: 0 <= j < |es| ==> -bound <= CoeffsAt(es, k)[j] <= bound
  {
    assert EncodedAs(votes[v], a, xs[v], bound, es[v], ballots[v].value, signDraws[v], magDraws[v]);
    forall j | 0 <= j < |es|
      ensures -bound <= CoeffsAt(es, k)[j] <= bound
    {
      assert EncodedAs(votes[j], a, xs[j], bound, es[j], ballots[j].value, signDraws[j], magDraws[j]);
    }
  }

  /** Every entry of bs but the v-th is the matching product plus the matching error, modulo q. */
  predicate ProductPlusErrorBut(bs: seq<int>, prods: seq<int>, errs: seq<int>, v: int)
  {
    && |prods| == |bs| && |errs| == |bs|
    && forall j :: 0 <= j < |bs| && j != v ==> Cong(bs[j], prods[j] + errs[j], Q)
  }

  /** Coefficient k of every ballot but the vetoer's is its product a*x_j plus its error, modulo q. */
  lemma AllowingBallotsAt(a: Poly, xs: seq<Poly>, es: seq<Poly>, bound: int,
                          votes: seq<int>, ballots: seq<Option<Poly>>,
                          signDraws: seq<seq<nat>>, magDraws: seq<seq<nat>>, v: int, k: int)
    requires |es| == |xs| && |ballots| == |xs| && |votes| == |xs| && 0 <= k < D
    requires |signDraws| == |xs| && |magDraws| == |xs|
    requires forall i :: 0 <= i < |xs| ==> |signDraws[i]| >= D && |magDraws[i]| >= D
    requires AllReadable(ballots)
    requires forall t {:trigger EncodedAs(votes[t], a, xs[t], bound, es[t], ballots[t].value, signDraws[t], magDraws[t])} :: 0 <= t < |xs| ==>
      EncodedAs(votes[t], a, xs[t], bound, es[t], ballots[t].value, signDraws[t], magDraws[t])
    requires 0 <= v < |xs| && SingleVeto(votes, v)
    ensures ProductPlusErrorBut(CoeffsAt(Opened(ballots), k), ProductsAt(a, xs, k), CoeffsAt(es, k), v)
  {
    forall j | 0 <= j < |xs| && j != v
      ensures Cong(CoeffsAt(Opened(ballots), k)[j], ProductsAt(a, xs, k)[j] + CoeffsAt(es, k)[j], Q)
    {
      assert votes[j] == 0;
      assert EncodedAs(votes[j], a, xs[j], bound, es[j], ballots[j].value, signDraws[j], magDraws[j]);
      AllowingBallotCoeff(a, xs[j], bound, es[j], ballots[j].value, signDraws[j], magDraws[j], k,
                          CoeffsAt(Opened(ballots), k)[j], ProductsAt(a, xs, k)[j], CoeffsAt(es, k)[j]);
    }
  }

  /**
   * Coefficient k of an allowing ballot (bk) is the product a*x (pk) plus the error (ek),
   * modulo q.
   */
  lemma AllowingBallotCoeff(a: Poly, x: Poly, bound: int, e: Poly, b: Poly,
                            signDraws: seq<nat>, magDraws: seq<nat>, k: int, bk: int, pk: int, ek: int)
    requires |signDraws| >= D && |magDraws| >= D && 0 <= k < D
    requires EncodedAs(0, a, x, bound, e, b, signDraws, magDraws)
    requires bk == b[k] && pk == NegacyclicCoeff(a, x, k) && ek == e[k]
    ensures Cong(bk, pk + ek, Q)
  {
  }

  /**
   * The product of a with the vetoer's secret is congruent to a value within 1152*(n-1)
   * of zero: x_v is congruent to a polynomial with coefficients within 6*(n-1), and a has
   * coefficients within [-3, 3], so each of the 64 terms is at most 18*(n-1).
   */
  lemma VetoerProductSmall(S: seq<seq<Poly>>, xs: seq<Poly>, a: Poly, v: int, k: int) returns (py: int)
    requires IsShareTable(S) && |xs| == |S| && 0 <= v < |S| && 0 <= k < D
    requires forall t :: 0 <= t < D ==> Cong(SumAt(S[v], t), 0, Q)
    requires OffDiagonalSmall(S)
    requires forall t :: 0 <= t < D ==> Cong(xs[v][t], SumAt(Inbox(S, v), t), Q)
    requires forall t :: 0 <= t < D ==> -3 <= a[t] <= 3
    ensures Cong(NegacyclicCoeff(a, xs[v], k), py, Q)
    ensures -(1152 * (|S| - 1)) <= py <= 1152 * (|S| - 1)
  {
    var n := |S|;
    var y: Poly := seq(D, t requires 0 <= t < D => SecretRepresentative(S, v, t));
    forall t | 0 <= t < D
      ensures Cong(xs[v][t], y[t], Q) && -(6 * (n - 1)) <= y[t] <= 6 * (n - 1)
    {
      SmallSecretRepresentative(S, v, t);
    }
    NegacyclicCong(a, xs[v], y, k);
    py := NegacyclicCoeff(a, y, k);
    NegacyclicBounded(a, y, k, 3, 6 * (n - 1));
  }

  /**
   * With v's ballot coefficient a decoy c and every other one congruent to p_j + e_j,
   * where the p_j sum to zero modulo q, the sum of the ballots is congruent to the decoy
   * minus p_v plus the others' errors.
   */
  lemma BallotsLeaveDecoyAndErrors(bs: seq<int>, prods: seq<int>, errs: seq<int>, v: int, c: int, t: int)
    requires |prods| == |bs| && |errs| == |bs| && 0 <= v < |bs|
    requires Cong(Sum(prods), 0, Q)
    requires ProductPlusErrorBut(bs, prods, errs, v)
    requires bs[v] == c
    requires Cong(t, Sum(bs), Q)
    ensures Cong(t, Sum(errs[v := 0]) + c - prods[v], Q)
  {
    var g := errs[v := 0];
    var f := g[v := c - prods[v]];
    SumUpdate(g, v, c - prods[v]);
    assert Sum(f) == Sum(g) + c - prods[v];
    var u := seq(|bs|, j requires 0 <= j < |bs| => prods[j] + f[j]);
    forall j | 0 <= j < |bs|
      ensures Cong(bs[j], u[j], Q)
    {
      if j == v {
        assert u[j] == c;
      } else {
        assert u[j] == prods[j] + errs[j];
      }
    }
    SumCong(bs, u, Q);
    SumPointwise(prods, f, u);
    CongAddZero(Sum(prods), Sum(f), Sum(u), Q);
    assert t % Q == Sum(bs) % Q == Sum(u) % Q == Sum(f) % Q;
  }
}
