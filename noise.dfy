/**
 * The noise samplers of a participant. Every call to the C library's `rand()` is a
 * parameter here: a `draw` is the non-negative value `rand()` returned, and a sampler
 * that fills a polynomial takes one draw per coefficient.
 */
module Noise {
  import opened ModArith
  import opened Ring

  /** What a participant process ends with: a value, or a call to `exit(status)`. */
  datatype Outcome<T> = Ok(value: T) | Exited(status: int)

  /** get_rand() with its default modulus q: a residue in [0, q). */
  function GetRand(draw: nat): (r: int)
    ensures 0 <= r < Q && Cong(r, draw, Q)
  {
    CRem(draw, Q)
  }

  /** small_noise(): `rand() % 7 - 3`, a value in [-3, 3]. */
  function SmallNoise(draw: nat): (e: int)
    ensures -3 <= e <= 3
  {
    CRem(draw, 7) - 3
  }

  /** Each value of [-3, 3] is produced by some draw. */
  lemma SmallNoiseCoversRange(e: int)
    requires -3 <= e <= 3
    ensures SmallNoise((e + 3) as nat) == e
  {
  }

  /** rand_poly(large): D coefficients, each get_rand() when large and small_noise() otherwise. */
  method RandPoly(large: bool, draws: seq<nat>) returns (p: Poly)
    requires |draws| >= D
    ensures forall i :: 0 <= i < D ==> p[i] == if large then GetRand(draws[i]) else SmallNoise(draws[i])
    ensures large ==> InZq(p)
    ensures !large ==> forall i :: 0 <= i < D ==> -3 <= p[i] <= 3
  {
    var r := new int[D];
    for i := 0 to D
      invariant forall j :: 0 <= j < i ==> r[j] == if large then GetRand(draws[j]) else SmallNoise(draws[j])
    {
      r[i] := if large then GetRand(draws[i]) else SmallNoise(draws[i]);
    }
    p := r[..];
  }

  /** The decoy magnitude window [q/3, q/3 + q/4). */
  const LowMag: int := Q / 3
  const MagSpan: int := Q / 4

  /**
   * One coefficient of rand_high_noise_poly: an even sign draw gives +1 and an odd one -1,
   * the magnitude is `q/3 + rand() % (q/4)`, and the result is `(sign*mag + q) % q`.
   * It is a residue whose distance to 0 modulo q, min(c, q - c), exceeds q/4.
   */
  function HighNoiseCoeff(signDraw: nat, magDraw: nat): (c: int)
    ensures 0 <= c < Q
    ensures Q / 4 < c && Q / 4 < Q - c
    ensures signDraw % 2 == 0 ==> LowMag <= c < LowMag + MagSpan
    ensures signDraw % 2 != 0 ==> LowMag <= Q - c < LowMag + MagSpan
  {
    var mag := LowMag + CRem(magDraw, MagSpan);
    // sign * mag with sign = +1 or -1
    if CRem(signDraw, 2) == 0 then
      DivModUnique(mag + Q, Q, 1, mag);
      CRem(mag + Q, Q)
    else
      DivModUnique(-mag + Q, Q, 0, Q - mag);
      CRem(-mag + Q, Q)
  }

  /** rand_high_noise_poly(): D decoy coefficients, each from a sign draw and a magnitude draw. */
  method RandHighNoisePoly(signDraws: seq<nat>, magDraws: seq<nat>) returns (p: Poly)
    requires |signDraws| >= D && |magDraws| >= D
    ensures forall i :: 0 <= i < D ==> p[i] == HighNoiseCoeff(signDraws[i], magDraws[i])
    ensures InZq(p)
  {
    var r := new int[D];
    for i := 0 to D
      invariant forall j :: 0 <= j < i ==> r[j] == HighNoiseCoeff(signDraws[j], magDraws[j])
    {
      r[i] := HighNoiseCoeff(signDraws[i], magDraws[i]);
    }
    p := r[..];
  }

  /** One coefficient of rand_error_poly: `rand() % (2*bound + 1) - bound`, within [-bound, bound]. */
  function ErrorCoeff(bound: int, draw: nat): (e: int)
    requires bound >= 0
    ensures -bound <= e <= bound
  {
    CRem(draw, 2 * bound + 1) - bound
  }

  /** Each value of [-bound, bound] is produced by some draw. */
  lemma ErrorCoeffCoversRange(bound: int, e: int)
    requires 0 <= bound && -bound <= e <= bound
    ensures ErrorCoeff(bound, (e + bound) as nat) == e
  {
    DivModUnique(e + bound, 2 * bound + 1, 0, e + bound);
  }

  /**
   * rand_error_poly with the noise bound already computed: a bound of 2 or less ends the
   * process with status 1; otherwise D coefficients, each within [-bound, bound].
   */
  method RandErrorPoly(bound: int, draws: seq<nat>) returns (out: Outcome<Poly>)
    requires |draws| >= D
    ensures bound <= 2 ==> out == Exited(1)
    ensures bound > 2 ==> out.Ok? && forall i :: 0 <= i < D ==>
      out.value[i] == ErrorCoeff(bound, draws[i]) && -bound <= out.value[i] <= bound
  {
    if bound <= 2 {
      return Exited(1);
    }
    var r := new int[D];
    for i := 0 to D
      invariant forall j :: 0 <= j < i ==> r[j] == ErrorCoeff(bound, draws[j])
    {
      r[i] := CRem(draws[i], 2 * bound + 1) - bound;
    }
    out := Ok(r[..]);
  }
}
