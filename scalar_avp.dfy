/**
 * The scalar prototype of the veto protocol: the same idea over plain integers modulo q.
 * Participant i holds a public multiplier a[i], the n participants split zero into an
 * n x n matrix of shares, each participant's secret x[i] is its column sum, an allow
 * vote is published as a[i]*x[i] + e[i] and a veto as a random residue, and the decoder
 * removes a[i]*x[i] again and flags every value outside the range spanned by the allow
 * votes, widened by a margin of 25.
 *
 * The program's globals n, q and a are the fields of a Prototype object; every call to
 * `rand()` is a parameter (a non-negative draw), and console output is left out.
 */
module ScalarAvp {
  import opened ModArith

  /** The widening of the range of legitimate decoded values on each side. */
  const Margin: int := 25
  /** The modulus the globals start with and the one the session passes to setup. */
  const DefaultQ: int := 12289

  /** The smallest entry of a non-empty sequence. */
  function SeqMin(s: seq<int>): (m: int)
    requires |s| > 0
    ensures m in s && forall y :: y in s ==> m <= y
  {
    if |s| == 1 then s[0]
    else
      var rest := SeqMin(s[1..]);
      assert forall y :: y in s ==> y == s[0] || y in s[1..];
      if s[0] <= rest then s[0] else rest
  }

  /** The largest entry of a non-empty sequence. */
  function SeqMax(s: seq<int>): (m: int)
    requires |s| > 0
    ensures m in s && forall y :: y in s ==> y <= m
  {
    if |s| == 1 then s[0]
    else
      var rest := SeqMax(s[1..]);
      assert forall y :: y in s ==> y == s[0] || y in s[1..];
      if s[0] >= rest then s[0] else rest
  }

  /**
   * `((val % q) + q) % q` with C++'s truncating remainder: the Euclidean residue of val,
   * whatever the sign of val.
   */
  lemma NormalizedRemainder(val: int, q: int)
    requires q > 0
    ensures CRem(CRem(val, q) + q, q) == val % q
  {
    var c := CRem(val, q);
    var r := CRem(c + q, q);
    CongShift(c, q);
    assert Cong(r, val, q);
    DivModUnique(r, q, 0, r);
    DivModUnique(val % q, q, 0, val % q);
  }

  /** A running remainder that tracks a sum keeps tracking it after one more addend. */
  lemma RunningRemainder(acc: int, total: int, v: int, q: int)
    requires q > 0 && Cong(acc, total, q)
    ensures Cong(CRem(acc + v, q), total + v, q)
  {
    CongAdd(acc, total, v, v, q);
  }

  /**
   * The secrets sum to a multiple of q: every row of the n x n share matrix does, so the
   * column sums together do, and each x[i] is congruent to its column sum.
   */
  lemma SecretsSumToZero(s: seq<seq<int>>, x: seq<int>, n: nat, q: int)
    requires q > 0 && |s| == n && IsRect(s, n) && |x| == n
    requires forall i :: 0 <= i < n ==> Sum(s[i]) % q == 0
    requires forall i :: 0 <= i < n ==> Cong(x[i], Sum(ColumnOf(s, n, i)), q)
    ensures Sum(x) % q == 0
  {
    var rows, cols := RowTotals(s), ColTotals(s, n);
    assert 0 % q == 0 by {
      DivModUnique(0, q, 0, 0);
    }
    assert Sum(rows) % q == 0 by {
      forall i | 0 <= i < n
        ensures Cong(rows[i], 0, q)
      {
      }
      SumCongZero(rows, q);
    }
    assert Sum(rows) == Sum(cols) by {
      SumExchange(s, n);
    }
    assert Sum(x) % q == Sum(cols) % q by {
      forall i | 0 <= i < n
        ensures Cong(x[i], cols[i], q)
      {
      }
      SumCong(x, cols, q);
    }
  }

  /** Writing v over a zero entry moves both the sum and its running remainder by v. */
  lemma ShareStep(before: seq<int>, j: int, v: int, sum: int, q: int)
    requires q > 0 && 0 <= j < |before| && before[j] == 0 && Cong(sum, Sum(before), q)
    ensures Cong(CRem(sum + v, q), Sum(before[j := v]), q)
  {
    SumUpdate(before, j, v);
    RunningRemainder(sum, Sum(before), v, q);
  }

  /** Writing `(q - sum) % q` over the zero diagonal entry brings the row sum to a multiple of q. */
  lemma ClosingShare(before: seq<int>, i: int, sum: int, q: int)
    requires q > 0 && 0 <= sum < q && 0 <= i < |before| && before[i] == 0 && Cong(sum, Sum(before), q)
    ensures Sum(before[i := CRem(q - sum, q)]) % q == 0
  {
    var c := CRem(q - sum, q);
    SumUpdate(before, i, c);
    CongAdd(c, q - sum, Sum(before), sum, q);
    ModAddMultiple(0, 1, q);
  }

  /**
   * The drawing loop of one row of generate_secret_shares: entry j (j != i) becomes
   * `rand() % q` and the running sum `(sum + entry) % q`; the diagonal entry stays 0.
   */
  method DrawRow(n: int, i: int, q: int, draws: seq<nat>) returns (r: array<int>, sum: int)
    requires q > 0 && 0 <= i < n && |draws| >= n
    ensures fresh(r) && r.Length == n
    ensures forall k :: 0 <= k < n ==> r[k] == if k != i then draws[k] % q else 0
    ensures 0 <= sum < q && Cong(sum, Sum(r[..]), q)
  {
    r := new int[n](_ => 0);
    sum := 0;
    assert r[..] == seq(n, _ => 0);
    SumZeros(n);
    for j := 0 to n
      invariant 0 <= sum < q
      invariant forall k :: 0 <= k < n ==> r[k] == if k < j && k != i then draws[k] % q else 0
      invariant Cong(sum, Sum(r[..]), q)
    {
      if i != j {
        ghost var before := r[..];
        r[j] := CRem(draws[j], q);
        assert r[..] == before[j := r[j]];
        ShareStep(before, j, r[j], sum, q);
        sum := CRem(sum + r[j], q);
      }
    }
  }

  class Prototype {
    var n: int
    var q: int
    var a: seq<int>

    /** The globals as the program starts: q is 12289, n is 0 and a is empty. */
    constructor ()
      ensures n == 0 && q == DefaultQ && a == []
    {
      n := 0;
      q := DefaultQ;
      a := [];
    }

    /**
     * setup: n and q take the arguments, a is resized to n entries and every entry is
     * overwritten with `rand() % 10 + 1`, a value in [1, 10].
     */
    method Setup(participants: int, qval: int, draws: seq<nat>)
      requires participants >= 0 && |draws| >= participants
      modifies this
      ensures n == participants && q == qval && |a| == participants
      ensures forall i :: 0 <= i < participants ==> a[i] == draws[i] % 10 + 1 && 1 <= a[i] <= 10
    {
      n := participants;
      q := qval;
      if |a| >= n {
        a := a[..n];
      } else {
        a := a + seq(n - |a|, _ => 0);
      }
      for i := 0 to n
        invariant n == participants && q == qval && |a| == n
        invariant forall j :: 0 <= j < i ==> a[j] == draws[j] % 10 + 1
      {
        a := a[i := CRem(draws[i], 10) + 1];
      }
    }

    /**
     * Row i of generate_secret_shares: every entry but the diagonal one is `rand() % q`,
     * the running sum is kept modulo q, and the diagonal entry is `(q - sum) % q`, so the
     * row sums to a multiple of q.
     */
    method ShareRow(i: int, draws: seq<nat>) returns (row: seq<int>)
      requires q > 0 && n >= 0 && 0 <= i < n && |draws| >= n
      ensures |row| == n
      ensures forall j :: 0 <= j < n && j != i ==> row[j] == draws[j] % q
      ensures forall j :: 0 <= j < n ==> 0 <= row[j] < q
      ensures Sum(row) % q == 0
    {
      var r, sum := DrawRow(n, i, q, draws);
      ghost var before := r[..];
      r[i] := CRem(q - sum, q);
      assert r[..] == before[i := r[i]];
      ClosingShare(before, i, sum, q);
      row := r[..];
    }

    /**
     * generate_secret_shares: an n x n matrix whose row i is participant i's split of
     * zero; every entry is a residue in [0, q) and every row sums to a multiple of q.
     */
    method GenerateSecretShares(draws: seq<seq<nat>>) returns (s: seq<seq<int>>)
      requires q > 0 && n >= 0
      requires |draws| >= n && forall i :: 0 <= i < n ==> |draws[i]| >= n
      ensures |s| == n && IsRect(s, n)
      ensures forall i, j :: 0 <= i < n && 0 <= j < n && i != j ==> s[i][j] == draws[i][j] % q
      ensures forall i, j :: 0 <= i < n && 0 <= j < n ==> 0 <= s[i][j] < q
      ensures forall i :: 0 <= i < n ==> Sum(s[i]) % q == 0
    {
      s := [];
      for i := 0 to n
        invariant |s| == i && IsRect(s, n)
        invariant forall r, j :: 0 <= r < i && 0 <= j < n && r != j ==> s[r][j] == draws[r][j] % q
        invariant forall r, j :: 0 <= r < i && 0 <= j < n ==> 0 <= s[r][j] < q
        invariant forall r :: 0 <= r < i ==> Sum(s[r]) % q == 0
      {
        var row := ShareRow(i, draws[i]);
        s := s + [row];
      }
    }

    /**
     * compute_x: x[i] is the running `(x[i] + s[j][i]) % q` over column i. It is congruent
     * to the column sum, and equal to the column sum modulo q when no entry is negative.
     */
    method ComputeX(s: seq<seq<int>>) returns (x: seq<int>)
      requires q > 0 && n >= 0 && |s| == n && IsRect(s, n)
      ensures |x| == n
      ensures forall i :: 0 <= i < n ==> -q < x[i] < q && Cong(x[i], Sum(ColumnOf(s, n, i)), q)
      ensures (forall i, j :: 0 <= i < n && 0 <= j < n ==> 0 <= s[i][j]) ==>
        forall i :: 0 <= i < n ==> x[i] == Sum(ColumnOf(s, n, i)) % q
    {
      var xs := new int[n](_ => 0);
      for i := 0 to n
        invariant forall k :: 0 <= k < i ==> -q < xs[k] < q && Cong(xs[k], Sum(ColumnOf(s, n, k)), q)
        invariant forall k :: 0 <= k < i && (forall j :: 0 <= j < n ==> 0 <= s[j][k]) ==>
          xs[k] == Sum(ColumnOf(s, n, k)) % q
      {
        xs[i] := ColumnRemainder(s, i);
      }
      x := xs[..];
    }

    /**
     * The inner loop of compute_x for column i: starting from 0, `(x + s[j][i]) % q` for
     * every row j. The result is congruent to the column sum, and is the column sum
     * modulo q when the column has no negative entry.
     */
    method ColumnRemainder(s: seq<seq<int>>, i: int) returns (acc: int)
      requires q > 0 && n >= 0 && |s| == n && IsRect(s, n) && 0 <= i < n
      ensures -q < acc < q && Cong(acc, Sum(ColumnOf(s, n, i)), q)
      ensures (forall j :: 0 <= j < n ==> 0 <= s[j][i]) ==> acc == Sum(ColumnOf(s, n, i)) % q
    {
      var col := ColumnOf(s, n, i);
      var nonNegative := forall j :: 0 <= j < n ==> 0 <= s[j][i];
      acc := 0;
      assert col[..0] == [];
      for j := 0 to n
        invariant -q < acc < q && Cong(acc, Sum(col[..j]), q)
        invariant nonNegative ==> 0 <= acc
      {
        assert col[..j + 1][..j] == col[..j];
        RunningRemainder(acc, Sum(col[..j]), s[j][i], q);
        acc := CRem(acc + s[j][i], q);
      }
      assert col[..n] == col;
      if nonNegative {
        DivModUnique(acc, q, 0, acc);
      }
    }

    /**
     * encode_vote: an allow vote (v[i] == 0) is published as `((a[i]*x[i] + e[i]) % q + q) % q`,
     * the residue of a[i]*x[i] + e[i]; any other vote is published as `rand() % q`. The
     * vector r is accepted and not used, as in the program.
     */
    method EncodeVote(x: seq<int>, r: seq<int>, e: seq<int>, v: seq<int>, draws: seq<nat>)
      returns (V: seq<int>)
      requires q > 0 && n >= 0 && |a| == n
      requires |x| >= n && |e| >= n && |v| >= n && |draws| >= n
      ensures |V| == n
      ensures forall i :: 0 <= i < n && v[i] == 0 ==> V[i] == (a[i] * x[i] + e[i]) % q
      ensures forall i :: 0 <= i < n && v[i] != 0 ==> V[i] == draws[i] % q
      ensures forall i :: 0 <= i < n ==> 0 <= V[i] < q
    {
      var out := new int[n];
      for i := 0 to n
        invariant forall k :: 0 <= k < i && v[k] == 0 ==> out[k] == (a[k] * x[k] + e[k]) % q
        invariant forall k :: 0 <= k < i && v[k] != 0 ==> out[k] == draws[k] % q
      {
        if v[i] == 0 {
          var val := a[i] * x[i] + e[i];
          NormalizedRemainder(val, q);
          out[i] := CRem(CRem(val, q) + q, q);
        } else {
          out[i] := CRem(draws[i], q);
        }
      }
      V := out[..];
    }

    /** decoded_values[i]: the residue of V[i] - a[i]*x[i]. */
    function DecodedValue(V: seq<int>, x: seq<int>, i: int): int
      reads this
      requires q > 0 && 0 <= i < |a| && i < |V| && i < |x|
    {
      (V[i] - a[i] * x[i]) % q
    }

    /** clean_decoded after the first k participants: the decoded values of the allow votes, in order. */
    function Legit(V: seq<int>, x: seq<int>, v: seq<int>, k: int): (c: seq<int>)
      reads this
      requires q > 0 && 0 <= k <= |a| && k <= |V| && k <= |x| && k <= |v|
      ensures forall i :: 0 <= i < k && v[i] == 0 ==> DecodedValue(V, x, i) in c
      ensures |c| > 0 <==> exists i :: 0 <= i < k && v[i] == 0
    {
      if k == 0 then []
      else
        var prev := Legit(V, x, v, k - 1);
        if v[k - 1] == 0 then prev + [DecodedValue(V, x, k - 1)] else prev
    }

    /** Participant i is flagged: its decoded value lies outside [min - 25, max + 25] of the allow votes. */
    predicate Flagged(V: seq<int>, x: seq<int>, v: seq<int>, i: int)
      reads this
      requires q > 0 && n == |a| && n <= |V| && n <= |x| && n <= |v| && 0 <= i < n
      requires exists j :: 0 <= j < n && v[j] == 0
    {
      var legit := Legit(V, x, v, n);
      DecodedValue(V, x, i) < SeqMin(legit) - Margin || DecodedValue(V, x, i) > SeqMax(legit) + Margin
    }

    /**
     * decode: collects the decoded values, takes the smallest and largest of those of the
     * allow votes (std::min_element and std::max_element, which need at least one allow
     * vote), widens them by the margin and flags every participant outside the range.
     * The result is true exactly when some participant is flagged, and no allow vote is
     * ever flagged.
     */
    method Decode(V: seq<int>, x: seq<int>, v: seq<int>) returns (flag: bool)
      requires q > 0 && n == |a| && n <= |V| && n <= |x| && n <= |v|
      requires exists j :: 0 <= j < n && v[j] == 0
      ensures flag <==> exists i :: 0 <= i < n && Flagged(V, x, v, i)
      ensures forall i :: 0 <= i < n && v[i] == 0 ==> !Flagged(V, x, v, i)
      ensures (forall i :: 0 <= i < n ==> v[i] == 0) ==> !flag
    {
      var decoded, clean := DecodedValues(V, x, v);
      var minLegit := SeqMin(clean);
      var maxLegit := SeqMax(clean);
      minLegit := minLegit - Margin;
      maxLegit := maxLegit + Margin;
      flag := false;
      for i := 0 to n
        invariant flag <==> exists k :: 0 <= k < i && Flagged(V, x, v, k)
      {
        assert Flagged(V, x, v, i) <==> decoded[i] < minLegit || decoded[i] > maxLegit;
        if decoded[i] < minLegit || decoded[i] > maxLegit {
          flag := true;
        }
      }
      AllowersNotFlagged(V, x, v);
    }

    /**
     * The first loop of decode: decoded_values[i] is `((V[i] - a[i]*x[i]) % q + q) % q`,
     * and the allow votes' values are pushed onto clean_decoded in order.
     */
    method DecodedValues(V: seq<int>, x: seq<int>, v: seq<int>) returns (decoded: seq<int>, clean: seq<int>)
      requires q > 0 && n == |a| && n <= |V| && n <= |x| && n <= |v|
      ensures |decoded| == n && forall k :: 0 <= k < n ==> decoded[k] == DecodedValue(V, x, k)
      ensures clean == Legit(V, x, v, n)
    {
      var values := new int[n];
      clean := [];
      for i := 0 to n
        invariant forall k :: 0 <= k < i ==> values[k] == DecodedValue(V, x, k)
        invariant clean == Legit(V, x, v, i)
      {
        var diff := V[i] - a[i] * x[i];
        NormalizedRemainder(diff, q);
        values[i] := CRem(CRem(diff, q) + q, q);
        if v[i] == 0 {
          clean := clean + [values[i]];
        }
      }
      decoded := values[..];
    }

    /** An allow vote's decoded value is one of the values the range is built from. */
    lemma AllowersNotFlagged(V: seq<int>, x: seq<int>, v: seq<int>)
      requires q > 0 && n == |a| && n <= |V| && n <= |x| && n <= |v|
      requires exists j :: 0 <= j < n && v[j] == 0
      ensures forall i :: 0 <= i < n && v[i] == 0 ==> !Flagged(V, x, v, i)
    {
      var legit := Legit(V, x, v, n);
      forall i | 0 <= i < n && v[i] == 0
        ensures !Flagged(V, x, v, i)
      {
        assert DecodedValue(V, x, i) in legit;
      }
    }

    /**
     * For an allow vote encoded by encode_vote with an error in [0, q), decoding removes
     * a[i]*x[i] exactly and gives back the error.
     */
    lemma DecodeRecoversError(V: seq<int>, x: seq<int>, e: seq<int>, i: int)
      requires q > 0 && 0 <= i < |a| && i < |V| && i < |x| && i < |e|
      requires V[i] == (a[i] * x[i] + e[i]) % q && 0 <= e[i] < q
      ensures DecodedValue(V, x, i) == e[i]
    {
      var p := a[i] * x[i];
      var t := (p + e[i]) / q;
      assert p + e[i] == q * t + V[i];
      assert V[i] - p == e[i] + q * (-t);
      ModAddMultiple(e[i], -t, q);
      DivModUnique(e[i], q, 0, e[i]);
    }

    /** Every allow vote encoded with an error in [0, q) decodes to its error. */
    lemma AllowersRecoverErrors(V: seq<int>, x: seq<int>, e: seq<int>, v: seq<int>)
      requires q > 0 && n == |a| && n <= |V| && n <= |x| && n <= |e| && n <= |v|
      requires forall i :: 0 <= i < n && v[i] == 0 ==> V[i] == (a[i] * x[i] + e[i]) % q && 0 <= e[i] < q
      ensures forall i :: 0 <= i < n && v[i] == 0 ==> DecodedValue(V, x, i) == e[i]
    {
      forall i | 0 <= i < n && v[i] == 0
        ensures DecodedValue(V, x, i) == e[i]
      {
        DecodeRecoversError(V, x, e, i);
      }
    }

    /**
     * The program's main flow after reading n and the votes: setup with q = 12289,
     * shares, secrets, `r[i] = (rand() % 1000 + q*3/4) % q` and `e[i] = rand() % 10`, then
     * encode_vote and decode. Each allow vote decodes to its error, and when every
     * participant allows, nobody is flagged.
     */
    method Session(participants: int, votes: seq<int>, setupDraws: seq<nat>,
                   shareDraws: seq<seq<nat>>, rDraws: seq<nat>, eDraws: seq<nat>, vetoDraws: seq<nat>)
      returns (x: seq<int>, e: seq<int>, V: seq<int>, flag: bool)
      requires participants >= 0 && |votes| == participants
      requires exists j :: 0 <= j < participants && votes[j] == 0
      requires |setupDraws| >= participants && |shareDraws| >= participants
      requires forall i :: 0 <= i < participants ==> |shareDraws[i]| >= participants
      requires |rDraws| >= participants && |eDraws| >= participants && |vetoDraws| >= participants
      modifies this
      ensures n == participants && q == DefaultQ && |a| == n && |x| == n && |e| == n && |V| == n
      ensures forall i :: 0 <= i < n ==> a[i] == setupDraws[i] % 10 + 1
      ensures forall i :: 0 <= i < n && votes[i] == 0 ==> DecodedValue(V, x, i) == e[i] == eDraws[i] % 10
      ensures flag <==> exists i :: 0 <= i < n && Flagged(V, x, votes, i)
      ensures (forall i :: 0 <= i < n ==> votes[i] == 0) ==> !flag
      ensures Sum(x) % q == 0
    {
      Setup(participants, DefaultQ, setupDraws);
      var s := GenerateSecretShares(shareDraws);
      x := ComputeX(s);
      assert Sum(x) % q == 0 by {
        SecretsSumToZero(s, x, n, q);
      }
      var count := n;
      var r := seq(count, i requires 0 <= i < count => CRem(CRem(rDraws[i], 1000) + DefaultQ * 3 / 4, DefaultQ));
      e := seq(count, i requires 0 <= i < count => CRem(eDraws[i], 10));
      V := EncodeVote(x, r, e, votes, vetoDraws);
      AllowersRecoverErrors(V, x, e, votes);
      flag := Decode(V, x, votes);
    }
  }
}
