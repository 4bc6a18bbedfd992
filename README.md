# Anonymous Veto Protocol — a Dafny model

This project models the arithmetic and decision logic of an n-party Anonymous Veto
Protocol (AVP). Every participant can veto a decision, and nobody learns who did.

**The lattice version** (`avpvote.cpp`, `avptally.cpp`):
- Each participant splits the zero polynomial into n additive shares and sends one to
  every participant.
- Each participant adds up the shares it receives into a secret `x_i`. The secrets of
  all participants sum to zero modulo q.
- An allow vote is published as `a·x_i + e_i`: the public polynomial `a` times the
  secret, plus a small error. A veto is published as a decoy polynomial of
  high-magnitude noise.
- The tally adds the ballots coefficientwise modulo q. It centres every coefficient
  into [−q/2, q/2] and answers "ALL VOTED YES (0)" exactly when the largest centred
  magnitude is at most q/4.

Polynomials have 64 coefficients modulo q = 315521. Multiplication is negacyclic:
x^64 counts as −1.

**The scalar prototype** (`avp.cpp`) runs the same idea over plain integers modulo
12289:
- it builds an n×n matrix of zero-sum shares;
- each participant's secret is its column sum;
- votes are encoded as `a[i]·x[i] + e[i]` or a random residue;
- the decoder flags every decoded value outside the range of the allow votes, widened
  by 25 on each side.

**How the model is built:**
- Every C++ loop that fills or updates a vector is a Dafny `method` with a loop and its
  invariants. Each method is proved against a specification function or an explicit
  contract.
- The algebra is proved about those functions:
  - the negacyclic product, the round trips of add and subtract, and commutativity;
  - centring, and the zero-sum property of the shares;
  - that a round where everybody allows decodes as YES;
  - that a round with exactly one vetoer decodes as VETOED, when the coefficients of `a`
    lie in [−3, 3] and (n − 1)·(1152 + bound) < q/3 − q/4.
- The C++ remainder `%` truncates toward zero. It is modelled by `ModArith.CRem`, and
  congruence modulo q is `ModArith.Cong`.
- Each value that `rand()` would return is a parameter, a non-negative `draw`.
- The globals `n`, `q` and `a` of `avp.cpp` are the fields of the class
  `ScalarAvp.Prototype`.

Modules:
- `ModArith` (mod_arith.dfy): the C++ remainder, congruences, sums, and exchanging the
  order of a double sum.
- `Ring` (ring.dfy): `poly_add`, `poly_sub`, `poly_mul` and their laws.
- `Noise` (noise.dfy): the samplers.
- `ShareExchange` (shares.dfy): share generation and reconstruction.
- `VoteEncoder` (vote.dfy): ballot encoding.
- `TallyDecoder` (tally.dfy): centring, the decision rule and the ballot loop.
- `Protocol` (protocol.dfy): a whole round of n participants and a tally.
- `ScalarAvp` (scalar_avp.dfy): the scalar prototype.

## Model

| member | source | states |
|---|---|---|
| ModArith.CRem | avpvote.cpp:86 | the C++ remainder `x % m` lies in (−m, m), has the sign of x, is congruent to x, and is the Euclidean residue when x ≥ 0 |
| ModArith.CRemUnique | avpvote.cpp:86 | the C++ remainder is the only value with the sign of x, within (−m, m) and congruent to x |
| Ring.Add | avpvote.cpp:83-88 | every coefficient of `poly_add` lies in (−q, q) and is congruent to a[i] + b[i] |
| Ring.PolyAdd | avpvote.cpp:83-88 | the loop fills exactly the 64 coefficients of `Add(a, b)` |
| Ring.Sub | avpvote.cpp:90-95 | every coefficient of `poly_sub` lies in (−q, q) and is congruent to a[i] − b[i] |
| Ring.PolySub | avpvote.cpp:90-95 | the loop fills exactly the 64 coefficients of `Sub(a, b)` |
| Ring.AddCanonical | avpvote.cpp:83-88 | on inputs in [0, q), `poly_add` stays in [0, q) and is (a[i] + b[i]) mod q |
| Ring.SubCanonical | avpvote.cpp:90-95 | on inputs in [0, q), `poly_sub` stays in [0, q) and is (a[i] − b[i]) mod q |
| Ring.SubAddRoundTrip | avpvote.cpp:83-95 | `poly_sub(poly_add(p, b), b) == p` for p and b in [0, q) |
| Ring.AddSubRoundTrip | avpvote.cpp:83-95 | `poly_add(poly_sub(p, b), b) == p` for p and b in [0, q) |
| Ring.MulStep | avpvote.cpp:101 | one step `(res[i+j] + a[i]*b[j]) % q` extends the partial convolution sum of degree i + j by the term of a_i |
| Ring.MulRow | avpvote.cpp:99-101 | after row i of the nested loop, every accumulator is in (−q, q) and congruent to the convolution sum over a_0 … a_i |
| Ring.FoldNegacyclic | avpvote.cpp:103-104 | the folding loop leaves accumulator k congruent to c[k] − c[k + 64] for k < 63, and the upper accumulators unchanged |
| Ring.FoldedIsNegacyclic | avpvote.cpp:103-108 | the folded low half is the negacyclic product: coefficient k is Σ_{i+j=k} a_i·b_j − Σ_{i+j=k+64} a_i·b_j mod q |
| Ring.PolyMul | avpvote.cpp:97-110 | every coefficient of `poly_mul(a, b)` is in (−q, q) and congruent to the negacyclic coefficient Σ_{i+j=k} a_i·b_j − Σ_{i+j=k+64} a_i·b_j |
| Ring.ConvCommutes | avpvote.cpp:99-101 | the plain convolution is symmetric in a and b |
| Ring.NegacyclicCommutes | avpvote.cpp:97-110 | the negacyclic coefficient is symmetric in a and b |
| Ring.ProductCommutes | avpvote.cpp:97-110 | whatever `poly_mul(a, b)` returns is also a valid `poly_mul(b, a)`: the product is commutative modulo q |
| Ring.NegacyclicDistributes | avpvote.cpp:97-110 | multiplication by a distributes over the exact sum of two polynomials |
| Ring.NegacyclicCongZero | avpvote.cpp:97-110 | multiplying by a polynomial whose coefficients are all ≡ 0 gives coefficients ≡ 0 |
| Ring.NegacyclicZero | avpvote.cpp:97-110 | multiplying by the zero polynomial gives 0 in every coefficient |
| Ring.NegacyclicCong | avpvote.cpp:97-110 | multiplying a by congruent polynomials gives congruent coefficients: the product depends only on the residues |
| Ring.NegacyclicBounded | avpvote.cpp:97-110 | when the coefficients of a are within A and those of y within B, every negacyclic coefficient of a·y is within 64·A·B |
| Ring.AccumulateStep | avpvote.cpp:167-168 | one `poly_add` onto a running sum of a list keeps it congruent to the sum of the list extended by the new polynomial |
| Noise.GetRand | avpvote.cpp:22-24 | `rand() % q` lies in [0, q) and is congruent to the draw |
| Noise.SmallNoise | avpvote.cpp:26-28 | `rand() % 7 − 3` lies in [−3, 3] |
| Noise.SmallNoiseCoversRange | avpvote.cpp:26-28 | every value of [−3, 3] is produced by some draw |
| Noise.RandPoly | avpvote.cpp:30-35 | coefficient i is `get_rand()` or `small_noise()` of draw i; large polynomials are in [0, q), small ones in [−3, 3] |
| Noise.HighNoiseCoeff | avpvote.cpp:39-42 | a decoy coefficient lies in [0, q); c or q − c (by the sign draw) lies in [q/3, q/3 + q/4); both c and q − c exceed q/4 |
| Noise.RandHighNoisePoly | avpvote.cpp:37-45 | every coefficient is the decoy of its sign and magnitude draws, in [0, q) |
| Noise.ErrorCoeff | avpvote.cpp:75-76 | `rand() % (2·bound + 1) − bound` lies in [−bound, bound] |
| Noise.ErrorCoeffCoversRange | avpvote.cpp:75-76 | every value of [−bound, bound] is produced by some draw |
| Noise.RandErrorPoly | avpvote.cpp:60-80 | a bound ≤ 2 exits with status 1; otherwise every coefficient is the error of its draw, in [−bound, bound] |
| ShareExchange.GenerateShares | avpvote.cpp:144-155 | every share but the participant's own is small noise of its draws, the own share is in [0, q), and the n shares sum to 0 mod q in every coefficient |
| ShareExchange.OtherShares | avpvote.cpp:144-151 | the first loop draws every share but share `id`, which stays zero, and keeps `sum` in (−q, q) congruent to the sum of the shares |
| ShareExchange.NegatedSum | avpvote.cpp:153-155 | the own share `(-sum[k] + q) % q` lies in [0, q) and adds to sum[k] to give 0 mod q |
| ShareExchange.NegatedSumCompletesZero | avpvote.cpp:153-155 | writing the negated sum over the zero share `id` makes the whole row sum to 0 mod q |
| ShareExchange.Reconstruct | avpvote.cpp:166-168 | `x_i` is in (−q, q) and congruent, coefficientwise, to the sum of the shares addressed to the participant |
| ShareExchange.Inbox | avpvote.cpp:167-168 | the shares addressed to participant j are column j of the share table |
| ShareExchange.SecretsSumToZero | avpvote.cpp:144-168 | if every row of shares sums to 0 mod q, the reconstructed secrets of all participants sum to 0 mod q |
| VoteEncoder.EncodeVote | avpvote.cpp:179-185 | a bound ≤ 2 exits with status 1; an allow vote gives a ballot congruent to a·x + e with e the drawn error; a veto gives the decoy from its own draws, independent of a and x |
| TallyDecoder.Centered | avptally.cpp:15-20 | the centred representative lies in [−q/2, q/2] and is congruent to x |
| TallyDecoder.CenteredUnique | avptally.cpp:15-20 | no other value of [−q/2, q/2] is congruent to x: the representative is unique |
| TallyDecoder.ModQCentered | avptally.cpp:15-20 | `mod_q_centered(x)` returns exactly the centred representative of x |
| TallyDecoder.CenteredDependsOnResidue | avptally.cpp:15-20 | the centred value depends only on x mod q |
| TallyDecoder.CenteredOfResidue | avptally.cpp:15-20 | for x in [0, q) the centred value is x when x ≤ q/2 and x − q otherwise |
| TallyDecoder.DecodeVote | avptally.cpp:22-37 | `inf_norm` bounds every centred magnitude and is 0 or equal to one of them; the verdict is YES exactly when inf_norm ≤ q/4, that is, exactly when every centred magnitude is at most q/4 |
| TallyDecoder.ZeroTotalDecodesYes | avptally.cpp:22-37 | an all-zero total decodes as YES |
| TallyDecoder.Tally | avptally.cpp:44-59 | the first unreadable ballot ends the tally naming its party; otherwise every total coefficient is in (−q, q) and congruent to the sum of the ballots, `inf_norm` bounds every centred magnitude of the total and is 0 or attained by one of them, and the verdict is YES exactly when every centred magnitude is at most q/4 |
| TallyDecoder.AddBallot | avptally.cpp:53-54 | every total coefficient becomes `(total[j] + data[j]) % q` |
| TallyDecoder.OpenedStep | avptally.cpp:46-54 | after reading ballot i, the total is congruent to the sum of ballots 0 … i |
| TallyDecoder.HighNoiseExceedsQuarter | avpvote.cpp:37-45 | a decoy coefficient centres to a magnitude above q/4 |
| TallyDecoder.DecoyOutlastsNoise | avpvote.cpp:39-42 | a decoy coefficient moved by less than q/3 − q/4 still centres to a magnitude above q/4 |
| TallyDecoder.SmallTotalDecodesYes | avptally.cpp:22-37 | a total congruent to values all within q/4 of zero decodes as YES |
| Protocol.ErrorPoly | avpvote.cpp:73-77 | the error polynomial has the error of draw k in coefficient k, within [−bound, bound] |
| Protocol.ProductOfSum | avpvote.cpp:183 | the products a·x_j summed over j equal a times the exact sum of the x_j |
| Protocol.ProductsCancel | avpvote.cpp:183 | secrets summing to 0 mod q give products with a that sum to 0 mod q |
| Protocol.OnlyErrorsRemain | avpvote.cpp:182-183 | in the sum of allow ballots the products cancel: the sum is congruent to the sum of the errors |
| Protocol.AllAllowDecodesYes | avptally.cpp:44-66 | with zero-sum share rows, reconstructed secrets, allow ballots a·x_j + e_j and n·bound ≤ q/4, the tallied total decodes as YES |
| Protocol.PublishShares | avpvote.cpp:144-159 | every participant's row of shares sums to 0 mod q, every share sent to another participant is within [−3, 3], and the table is n × n |
| Protocol.SentSharesSmall | avpvote.cpp:147-150 | every share a participant sends to another is `rand_poly()` small noise, within [−3, 3] |
| Protocol.ReconstructAll | avpvote.cpp:166-168 | every participant's secret is congruent to the sum of its inbox |
| Protocol.BallotEncodedAs | avpvote.cpp:179-185 | a ballot with the contract of the encoder is encoded as its vote says, with its error polynomial |
| Protocol.EncodeAll | avpvote.cpp:179-185 | every participant's ballot is readable and encoded as its vote says, with an error within the bound |
| Protocol.LoneVetoDecodesVeto | avpvote.cpp:182-185 | when n = 1 and that one participant vetoes, the total's first coefficient is a decoy and the verdict cannot be YES, whatever a is |
| Protocol.SmallSecretRepresentative | avpvote.cpp:144-168 | a secret is congruent to the shares it received from the others minus the shares it sent to them, a value within 6·(n − 1) of zero |
| Protocol.VetoerProductSmall | avpvote.cpp:167-183 | with a in [−3, 3], coefficient k of a·x_v is congruent to a value within 1152·(n − 1) = 64·3·6·(n − 1) of zero |
| Protocol.AllowingBallotsAt | avpvote.cpp:182-183 | with a single vetoer v, coefficient k of every other ballot is its product a·x_j plus its error, mod q |
| Protocol.DecoyAndErrorsAt | avpvote.cpp:179-185 | coefficient k of the vetoer's ballot is its decoy, and every error coefficient k is within the bound |
| Protocol.ProductsOfSecrets | avpvote.cpp:144-185 | the products a·x_j at coefficient k sum to 0 mod q, every ballot but the vetoer's is product plus error, and the vetoer's product is congruent to a value within 1152·(n − 1) |
| Protocol.BallotsLeaveDecoyAndErrors | avptally.cpp:53-54 | once the products cancel, the sum of the ballots at k is congruent to the decoy plus the others' errors minus the vetoer's product |
| Protocol.PerturbedDecoyExceedsQuarter | avptally.cpp:22-37 | the decoy plus the others' errors minus a product within 1152·(n − 1) centres above q/4 when (n − 1)·(1152 + bound) < q/3 − q/4 |
| Protocol.DecoyDominates | avptally.cpp:44-59 | a total coefficient congruent to the ballots' sum, with one decoy among product-plus-error ballots, centres above q/4 under the same margin |
| Protocol.OneVetoDecodesVeto | avptally.cpp:44-66 | with exactly one vetoer, a in [−3, 3] and (n − 1)·(1152 + bound) < q/3 − q/4, coefficient k of the total centres to a magnitude above q/4 |
| Protocol.SingleVetoDecodesVeto | avptally.cpp:44-66 | under the same conditions, some coefficient of the total exceeds q/4, so the round cannot decode as YES |
| Protocol.Round | avpvote.cpp:143-185 | a bound ≤ 2 exits with status 1; otherwise the tally decides; everybody allowing with n·bound ≤ q/4 gives YES; exactly one vetoer, with a in [−3, 3] and (n − 1)·(1152 + bound) < q/3 − q/4, gives VETOED; a veto with n = 1 gives VETOED for any a |
| ScalarAvp.SeqMin | avp.cpp:77 | `min_element`: an entry of the sequence no larger than any entry |
| ScalarAvp.SeqMax | avp.cpp:78 | `max_element`: an entry of the sequence no smaller than any entry |
| ScalarAvp.NormalizedRemainder | avp.cpp:54 | `((val % q) + q) % q` with C++ remainders is the Euclidean residue of val |
| ScalarAvp.RunningRemainder | avp.cpp:30 | a running remainder `(sum + v) % q` stays congruent to the running total |
| ScalarAvp.ShareStep | avp.cpp:28-30 | writing a draw over a zero entry moves both the row sum and its running remainder by the draw |
| ScalarAvp.ClosingShare | avp.cpp:33 | the diagonal entry `(q − sum) % q` brings the row sum to a multiple of q |
| ScalarAvp.DrawRow | avp.cpp:25-32 | off-diagonal entries are `rand() % q`, the diagonal is 0, and `sum` in [0, q) is congruent to the row sum |
| ScalarAvp.SecretsSumToZero | avp.cpp:22-47 | with every row summing to 0 mod q and x[i] congruent to column i's sum, Σ x[i] ≡ 0 mod q |
| ScalarAvp.Prototype.constructor | avp.cpp:9-11 | the globals start with n = 0, q = 12289 and an empty a |
| ScalarAvp.Prototype.Setup | avp.cpp:13-20 | n and q take the arguments, and a has exactly n entries, each `rand() % 10 + 1` in [1, 10] |
| ScalarAvp.Prototype.ShareRow | avp.cpp:24-35 | row i has n entries in [0, q), is `rand() % q` off the diagonal, and sums to 0 mod q |
| ScalarAvp.Prototype.GenerateSecretShares | avp.cpp:22-37 | an n × n matrix of residues in [0, q), drawn off the diagonal, every row summing to 0 mod q |
| ScalarAvp.Prototype.ColumnRemainder | avp.cpp:42-44 | the running remainder of column i is congruent to the column sum, and is the column sum mod q when no entry is negative |
| ScalarAvp.Prototype.ComputeX | avp.cpp:39-47 | x[i] is congruent to column i's sum, and equals it mod q when the matrix has no negative entry |
| ScalarAvp.Prototype.EncodeVote | avp.cpp:49-62 | an allow vote gives (a[i]·x[i] + e[i]) mod q, any other vote its draw mod q, all in [0, q) |
| ScalarAvp.Prototype.Legit | avp.cpp:70-75 | clean_decoded holds every allow vote's decoded value, and is non-empty exactly when there is an allow vote |
| ScalarAvp.Prototype.DecodedValues | avp.cpp:67-75 | decoded_values[i] is `DecodedValue(V, x, i)`, the residue (V[i] − a[i]·x[i]) mod q of avp.cpp:71, and clean_decoded is `Legit`, the allow votes' values in order |
| ScalarAvp.Prototype.Decode | avp.cpp:64-98 | the result is true exactly when some participant is `Flagged`, that is, its decoded value falls outside [min − 25, max + 25] of clean_decoded as tested at avp.cpp:88; no allow vote is flagged; everybody allowing gives false |
| ScalarAvp.Prototype.AllowersNotFlagged | avp.cpp:77-93 | an allow vote's decoded value is inside the widened range, so it is never flagged |
| ScalarAvp.Prototype.DecodeRecoversError | avp.cpp:53-71 | decoding an allow vote encoded with an error in [0, q) gives back exactly that error |
| ScalarAvp.Prototype.AllowersRecoverErrors | avp.cpp:49-75 | every allow vote encoded with an error in [0, q) decodes to its error |
| ScalarAvp.Prototype.Session | avp.cpp:134-161 | after setup with q = 12289, a[i] is `rand() % 10 + 1` of setup draw i, each allow vote decodes to its error `rand() % 10`, the flag is set exactly when someone is flagged, everybody allowing gives no flag, and the secrets x returned by compute_x sum to 0 mod q |

## Left out

- Shared-memory transport is not modelled. This covers `write_share` and `read_share`, the reads of `shared_poly_a`, the writes of `PartyVote_<id>` and the tally's reads. Shares, `a` and ballots are parameters, and an unreadable ballot is `None`.
- The process barrier in shared_sync.hpp is not modelled. It only orders the processes.
- avpinit.cpp and avpclean.cpp are not part of this model. They set up and remove the shared segments, including the unused `shared_poly_x`.
- `compute_max_zeta` is not modelled, because it uses double-precision `sqrt`. The integer error bound is a parameter of `rand_error_poly`.
- `rand()` and `srand()` are not modelled. Every draw is a non-negative parameter.
- Console input and output are not modelled: `cin`, `cout`, the printed centred vector and the `argc != 4` exit.
- The commented-out code of avp.cpp is not modelled.
- The Python scripts are not part of this model: find_max_m_powershell.py and plotgraph.py.
- The 32-bit `int` width is not modelled. Integers are unbounded. In the program's own calls every intermediate value fits in 32 bits:
  - residues are below q = 315521, so sums of two of them are below 2^31 − 1;
  - the one call `poly_mul(a, x_i)` at avpvote.cpp:183 has its first factor `a` drawn by `small_noise()` in avpinit.cpp, in [−3, 3]. So each product `a[i] * b[j]` at avpvote.cpp:101 has magnitude at most 3·(q − 1), and the accumulator stays below 4q;
  - in avp.cpp, `a[i] * x[i]` is at most 10·12288.
- Ring.PolyMul: for operands whose coefficient products exceed 2^31 − 1 (for example two canonical polynomials with coefficients near q − 1) the C++ multiplication at avpvote.cpp:101 overflows, which is undefined behaviour. The contract, and Ring.ProductCommutes and Ring.NegacyclicDistributes with it, describe the exact product modulo q instead.
- Ring.PolyMul: each coefficient is stated up to congruence modulo q within (−q, q). The contract does not say which of the two representatives the chain of C++ remainders produces. The decisions only depend on the residue.
- ShareExchange.Reconstruct: states `x_i` up to congruence within (−q, q), for the same reason.
- TallyDecoder.Tally: states the total up to congruence within (−q, q), for the same reason.
- VoteEncoder.EncodeVote: states an allow ballot up to congruence within (−q, q), for the same reason.
- Protocol.Round: proves a VETOED verdict only when exactly one participant vetoes, and then only when the coefficients of `a` lie in [−3, 3] and (n − 1)·(1152 + bound) < q/3 − q/4 = 26293 (or when n = 1). With several vetoers the decoys can cancel each other for some draws, and for larger n or bound the proof's worst-case bound on a·x_v no longer leaves the decoy above q/4; neither case is covered.
- ShareExchange.GenerateShares: requires 0 ≤ id < n. The program takes `id` from argv at avpvote.cpp:138 without a check, and an id outside [0, n) writes `shares[id]` out of bounds at avpvote.cpp:155, which is undefined behaviour.
- ScalarAvp.Prototype.Decode: requires at least one allow vote. With none, `clean_decoded` is empty, and `min_element` and `max_element` are dereferenced on an empty range.
- ScalarAvp.Prototype.Session: requires at least one allow vote, for the same reason as Decode.
- ScalarAvp.Prototype.EncodeVote: the vector `r` is taken and ignored, as in the program.
- ShareExchange.GenerateShares: the own share is built in a local buffer and then placed in the list. The program writes `shares[id][i]` in place, and the values are the same.
- ShareExchange.OtherShares: the list of shares is built by appending. The program writes into a pre-sized vector, and the values are the same.
