/** The reputation program: a worker's share of completed jobs, in basis points. */
module Reputation {
  import opened Prelude
  import opened Ledger

  const U16_MAX: nat := 0xFFFF
  const FULL_SCORE: nat := 10000

  datatype Error = AccountExists | AccountMissing | Overflow

  datatype Profile = Profile(totalJobs: nat, completedJobs: nat, failedJobs: nat, totalStakeSlashed: nat, score: nat)

  /** `(completed as u128 * 10_000 / total as u128) as u16`, with the cast written out. */
  function Score(completed: nat, total: nat): nat
    requires total > 0
  {
    (completed * FULL_SCORE / total) % (U16_MAX + 1)
  }

  ghost predicate ProfileInvariant(p: Profile) {
    && p.totalJobs == p.completedJobs + p.failedJobs
    && p.totalJobs <= U64_MAX && p.totalStakeSlashed <= U64_MAX
    && p.score <= 10000
    && (p.totalJobs == 0 ==> p.score == 10000)
    && (p.totalJobs > 0 ==> p.score == p.completedJobs * 10000 / p.totalJobs)
  }

  lemma QuotientBounds(a: nat, n: nat, q: nat)
    requires n > 0
    ensures q <= a / n <==> q * n <= a
  {
    var d := a / n;
    assert d * n <= a < d * n + n;
    if q <= d {
      assert q * n <= d * n;
    } else {
      assert q * n >= (d + 1) * n;
      assert (d + 1) * n == d * n + n;
    }
  }

  /** The quotient fits: neither the product nor the narrowing to 16 bits loses anything. */
  lemma ScoreIsLossless(completed: nat, total: nat)
    requires 0 < total <= U64_MAX && completed <= total
    ensures completed * 10000 < 0x1_0000_0000_0000_0000_0000_0000_0000_0000
    ensures Score(completed, total) == completed * 10000 / total <= 10000
  {
    hide Score;
    QuotientFits(completed, total);
    assert Score(completed, total) == completed * 10000 / total by {
      CastKeeps(completed, total);
    }
  }

  lemma CastKeeps(completed: nat, total: nat)
    requires 0 < total && completed * 10000 / total <= 10000
    ensures Score(completed, total) == completed * 10000 / total
  {
  }

  lemma QuotientFits(completed: nat, total: nat)
    requires 0 < total && completed <= total
    ensures completed * 10000 / total <= 10000
  {
    QuotientBounds(completed * FULL_SCORE, total, FULL_SCORE + 1);
    assert completed * FULL_SCORE <= total * FULL_SCORE < (FULL_SCORE + 1) * total;
  }

  lemma CrossMultiply(q: nat, a: nat, n: nat, b: nat, m: nat)
    requires n > 0 && q * n <= a && a * m <= b * n
    ensures q * m <= b
  {
    assert q * n * m <= a * m;
    CancelFactor(q * m, b, n);
  }

  lemma CancelFactor(x: nat, y: nat, n: nat)
    requires n > 0 && x * n <= y * n
    ensures x <= y
  {
  }

  /** Comparing fractions compares their floors. */
  lemma FloorMonotone(a: nat, n: nat, b: nat, m: nat)
    requires n > 0 && m > 0 && a * m <= b * n
    ensures a / n <= b / m
  {
    var q := a / n;
    QuotientBounds(a, n, q);
    CrossMultiply(q, a, n, b, m);
    QuotientBounds(b, m, q);
  }

  lemma CompletionRaises(completed: nat, total: nat)
    requires 0 < total && completed <= total
    ensures completed * FULL_SCORE / total <= (completed + 1) * FULL_SCORE / (total + 1)
  {
    var c := completed * FULL_SCORE;
    assert c * (total + 1) == c * total + c;
    assert (completed + 1) * FULL_SCORE == c + FULL_SCORE;
    assert (c + FULL_SCORE) * total == c * total + FULL_SCORE * total;
    FloorMonotone(c, total, c + FULL_SCORE, total + 1);
  }

  lemma FailureLowers(completed: nat, total: nat)
    requires 0 < total
    ensures completed * FULL_SCORE / (total + 1) <= completed * FULL_SCORE / total
  {
    var c := completed * FULL_SCORE;
    assert c * total <= c * (total + 1);
    FloorMonotone(c, total + 1, c, total);
  }

  lemma FullRatio(n: nat)
    requires n > 0
    ensures n * FULL_SCORE / n == FULL_SCORE
  {
    QuotientBounds(n * FULL_SCORE, n, FULL_SCORE);
    QuotientBounds(n * FULL_SCORE, n, FULL_SCORE + 1);
  }

  class Program {
    var profiles: map<Id, Profile>

    ghost predicate Valid()
      reads this
    {
      forall w :: w in profiles ==> ProfileInvariant(profiles[w])
    }

    constructor ()
      ensures Valid() && profiles == map[]
    {
      profiles := map[];
    }

    method RegisterWorker(worker: Id) returns (r: Result<(), Error>)
      requires Valid()
      modifies this
      ensures Valid()
      ensures r == if worker in old(profiles) then Err(AccountExists) else Ok(())
      ensures profiles == if r.Ok? then old(profiles)[worker := Profile(0, 0, 0, 0, 10000)] else old(profiles)
    {
      if worker in profiles { return Err(AccountExists); }
      profiles := profiles[worker := Profile(0, 0, 0, 0, FULL_SCORE)];
      r := Ok(());
    }

    /** Counts one more completed job; the score does not fall. */
    method RecordCompletion(worker: Id) returns (r: Result<(), Error>)
      requires Valid()
      modifies this
      ensures Valid()
      ensures r.Err? ==> profiles == old(profiles)
      ensures r.Ok? <==> worker in old(profiles) && old(profiles)[worker].totalJobs < U64_MAX
      ensures r.Ok? ==>
                var was := old(profiles)[worker];
                && worker in profiles && profiles == old(profiles)[worker := profiles[worker]]
                && profiles[worker] == was.(totalJobs := was.totalJobs + 1, completedJobs := was.completedJobs + 1,
                                            score := profiles[worker].score)
                && profiles[worker].score >= was.score
    {
      if worker !in profiles { return Err(AccountMissing); }
      var p := profiles[worker];
      if p.totalJobs + 1 > U64_MAX { return Err(Overflow); }
      p := p.(totalJobs := p.totalJobs + 1);
      if p.completedJobs + 1 > U64_MAX { return Err(Overflow); }
      p := p.(completedJobs := p.completedJobs + 1);
      ScoreIsLossless(p.completedJobs, p.totalJobs);
      if p.totalJobs > 1 {
        CompletionRaises(p.completedJobs - 1, p.totalJobs - 1);
      } else {
        FullRatio(1);
      }
      p := p.(score := Score(p.completedJobs, p.totalJobs));
      profiles := profiles[worker := p];
      r := Ok(());
    }

    /** Counts one more failed job and the slashed stake; the score does not rise. */
    method RecordFailure(worker: Id, slashAmount: nat) returns (r: Result<(), Error>)
      requires Valid()
      modifies this
      ensures Valid()
      ensures r.Err? ==> profiles == old(profiles)
      ensures r.Ok? <==>
                && worker in old(profiles) && old(profiles)[worker].totalJobs < U64_MAX
                && old(profiles)[worker].totalStakeSlashed + slashAmount <= U64_MAX
      ensures r.Ok? ==>
                var was := old(profiles)[worker];
                && worker in profiles && profiles == old(profiles)[worker := profiles[worker]]
                && profiles[worker] == was.(totalJobs := was.totalJobs + 1, failedJobs := was.failedJobs + 1,
                                            totalStakeSlashed := was.totalStakeSlashed + slashAmount,
                                            score := profiles[worker].score)
                && profiles[worker].score <= was.score
    {
      if worker !in profiles { return Err(AccountMissing); }
      var p := profiles[worker];
      if p.totalJobs + 1 > U64_MAX { return Err(Overflow); }
      p := p.(totalJobs := p.totalJobs + 1);
      if p.failedJobs + 1 > U64_MAX { return Err(Overflow); }
      p := p.(failedJobs := p.failedJobs + 1);
      if p.totalStakeSlashed + slashAmount > U64_MAX { return Err(Overflow); }
      p := p.(totalStakeSlashed := p.totalStakeSlashed + slashAmount);
      ScoreIsLossless(p.completedJobs, p.totalJobs);
      if p.totalJobs > 1 {
        FailureLowers(p.completedJobs, p.totalJobs - 1);
      }
      p := p.(score := Score(p.completedJobs, p.totalJobs));
      profiles := profiles[worker := p];
      r := Ok(());
    }
  }
}
