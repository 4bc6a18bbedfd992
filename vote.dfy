/**
 * Vote encoding of one participant: an allow vote (0) becomes `a*x + e`, the public
 * polynomial times the reconstructed secret plus bounded error; any other vote is
 * replaced by a decoy polynomial of high-magnitude noise that does not depend on a or x.
 * The error polynomial is drawn first, for either vote, so an unsafe bound ends the
 * process before any ballot exists.
 */
module VoteEncoder {
  import opened ModArith
  import opened Ring
  import opened Noise

  method EncodeVote(vote: int, a: Poly, x: Poly, bound: int,
                    errDraws: seq<nat>, signDraws: seq<nat>, magDraws: seq<nat>)
    returns (ballot: Outcome<Poly>)
    requires |errDraws| >= D && |signDraws| >= D && |magDraws| >= D
    ensures bound <= 2 ==> ballot == Exited(1)
    ensures bound > 2 && vote == 0 ==> ballot.Ok? && forall k :: 0 <= k < D ==>
      -Q < ballot.value[k] < Q &&
      Cong(ballot.value[k], NegacyclicCoeff(a, x, k) + ErrorCoeff(bound, errDraws[k]), Q)
    ensures bound > 2 && vote != 0 ==> ballot.Ok? && forall k :: 0 <= k < D ==>
      ballot.value[k] == HighNoiseCoeff(signDraws[k], magDraws[k])
  {
    var e := RandErrorPoly(bound, errDraws);
    if e.Exited? {
      return Exited(e.status);
    }
    if vote == 0 {
      var ax := PolyMul(a, x);
      var v := PolyAdd(ax, e.value);
      forall k | 0 <= k < D
        ensures Cong(v[k], NegacyclicCoeff(a, x, k) + ErrorCoeff(bound, errDraws[k]), Q)
      {
        CongAdd(ax[k], NegacyclicCoeff(a, x, k), e.value[k], e.value[k], Q);
      }
      ballot := Ok(v);
    } else {
      var v := RandHighNoisePoly(signDraws, magDraws);
      ballot := Ok(v);
    }
  }
}
