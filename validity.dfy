/**
 * The partition validator: team strength (mean rating), the defensive quota,
 * the strength spread of a distribution, and the validity test that combines
 * a fixed team size, the quota and a spread of at most 1.
 */
module Validity {
  import opened Players

  type Team = seq<Player>

  /** Sum of the ratings of a team. */
  function RatingSum(team: Team): int
  {
    if |team| == 0 then 0 else RatingSum(team[..|team| - 1]) + team[|team| - 1].rating
  }

  /** `calculate_team_strength`: 0 for an empty team, otherwise the mean rating. */
  function Strength(team: Team): (s: real)
    ensures |team| > 0 ==> s * (|team| as real) == RatingSum(team) as real
  {
    if |team| == 0 then 0.0
    else
      var mean := (RatingSum(team) as real) / (|team| as real);
      DivTimes(mean, RatingSum(team) as real, |team| as real);
      mean
  }

  /** The ratings of a team, as reals. */
  function Ratings(team: Team): (rs: seq<real>)
    ensures |rs| == |team|
  {
    seq(|team|, i requires 0 <= i < |team| => team[i].rating as real)
  }

  /** `max(xs)`: the largest value of a non-empty sequence. */
  function MaxOf(xs: seq<real>): (m: real)
    requires |xs| > 0
    ensures forall i :: 0 <= i < |xs| ==> xs[i] <= m
  {
    if |xs| == 1 then xs[0]
    else
      var rest := MaxOf(xs[1..]);
      if xs[0] >= rest then xs[0] else rest
  }

  /** `min(xs)`: the smallest value of a non-empty sequence. */
  function MinOf(xs: seq<real>): (m: real)
    requires |xs| > 0
    ensures forall i :: 0 <= i < |xs| ==> m <= xs[i]
  {
    if |xs| == 1 then xs[0]
    else
      var rest := MinOf(xs[1..]);
      if xs[0] <= rest then xs[0] else rest
  }

  /** The maximum is one of the values. */
  lemma {:induction false} MaxOfAttained(xs: seq<real>) returns (i: nat)
    requires |xs| > 0
    ensures i < |xs| && xs[i] == MaxOf(xs)
  {
    if |xs| == 1 {
      i := 0;
    } else {
      var j := MaxOfAttained(xs[1..]);
      i := if xs[0] >= MaxOf(xs[1..]) then 0 else j + 1;
    }
  }

  /** The minimum is one of the values. */
  lemma {:induction false} MinOfAttained(xs: seq<real>) returns (i: nat)
    requires |xs| > 0
    ensures i < |xs| && xs[i] == MinOf(xs)
  {
    if |xs| == 1 {
      i := 0;
    } else {
      var j := MinOfAttained(xs[1..]);
      i := if xs[0] <= MinOf(xs[1..]) then 0 else j + 1;
    }
  }

  /** The rating sum lies between |team| times any lower and upper bound of the ratings. */
  lemma {:induction false} SumBetween(team: Team, lo: real, hi: real)
    requires forall i :: 0 <= i < |team| ==> lo <= team[i].rating as real <= hi
    ensures (|team| as real) * lo <= RatingSum(team) as real <= (|team| as real) * hi
  {
    if |team| > 0 {
      var init := team[..|team| - 1];
      assert forall i :: 0 <= i < |init| ==> init[i] == team[i];
      SumBetween(init, lo, hi);
    }
  }

  /** A team's strength lies within any bounds of its ratings. */
  lemma StrengthBetween(team: Team, lo: real, hi: real)
    requires |team| > 0
    requires forall i :: 0 <= i < |team| ==> lo <= team[i].rating as real <= hi
    ensures lo <= Strength(team) <= hi
  {
    SumBetween(team, lo, hi);
    MeanBetween(RatingSum(team), |team|, lo, hi);
  }

  /**
   * Team strength is 0 for an empty team and otherwise the mean: the rating
   * sum divided by the size, between the lowest and highest rating.
   */
  lemma StrengthIsMean(team: Team)
    ensures |team| == 0 ==> Strength(team) == 0.0
    ensures |team| > 0 ==> Strength(team) * (|team| as real) == RatingSum(team) as real
    ensures |team| > 0 ==> MinOf(Ratings(team)) <= Strength(team) <= MaxOf(Ratings(team))
  {
    if |team| > 0 {
      var rs := Ratings(team);
      var lo, hi := MinOf(rs), MaxOf(rs);
      assert forall i :: 0 <= i < |team| ==> lo <= team[i].rating as real <= hi by {
        forall i | 0 <= i < |team| ensures lo <= team[i].rating as real <= hi {
          assert rs[i] == team[i].rating as real;
        }
      }
      StrengthBetween(team, lo, hi);
    }
  }

  /** Dividing n * lo <= sum <= n * hi by a positive n. */
  lemma MeanBetween(sum: int, n: nat, lo: real, hi: real)
    requires n > 0 && (n as real) * lo <= sum as real <= (n as real) * hi
    ensures lo <= (sum as real) / (n as real) <= hi
  {
    DivBounds(sum as real, n as real, lo, hi);
  }

  /** Dividing bounds n * lo <= s <= n * hi by a positive n. */
  lemma DivBounds(s: real, n: real, lo: real, hi: real)
    requires n > 0.0 && n * lo <= s <= n * hi
    ensures lo <= s / n <= hi
  {
  }

  /** Dividing by a non-zero n and multiplying back gives the number again. */
  lemma DivTimes(q: real, s: real, n: real)
    requires n != 0.0 && q == s / n
    ensures q * n == s
  {
  }

  /** Number of DEFENSE or VERSATILE players of a team. */
  function DefensiveCount(team: Team): (c: nat)
    ensures c <= |team|
  {
    if |team| == 0 then 0
    else DefensiveCount(team[..|team| - 1]) + (if IsDefensive(team[|team| - 1]) then 1 else 0)
  }

  /** `has_required_defensive_players`: at least two defensive players. */
  predicate HasRequiredDefensive(team: Team): (h: bool)
    ensures h ==> |team| >= 2
  {
    DefensiveCount(team) >= 2
  }

  /** Counting defensive players distributes over concatenation. */
  lemma {:induction false} DefensiveCountAppend(a: Team, b: Team)
    ensures DefensiveCount(a + b) == DefensiveCount(a) + DefensiveCount(b)
  {
    if |b| > 0 {
      var b' := b[..|b| - 1];
      assert (a + b)[..|a + b| - 1] == a + b';
      DefensiveCountAppend(a, b');
    } else {
      assert a + b == a;
    }
  }

  /** The strengths of all teams of a distribution, in order. */
  function Strengths(teams: seq<Team>): (ss: seq<real>)
    ensures |ss| == |teams| && forall i :: 0 <= i < |teams| ==> ss[i] == Strength(teams[i])
  {
    if |teams| == 0 then [] else [Strength(teams[0])] + Strengths(teams[1..])
  }

  /** Strongest team's strength minus weakest team's strength. */
  function Spread(teams: seq<Team>): (sp: real)
    requires |teams| > 0
    ensures sp >= 0.0
  {
    var ss := Strengths(teams);
    assert MinOf(ss) <= ss[0] <= MaxOf(ss);
    MaxOf(ss) - MinOf(ss)
  }

  /** The spread is at most b exactly when no two teams differ in strength by more than b. */
  lemma SpreadAtMost(teams: seq<Team>, b: real)
    requires |teams| > 0
    ensures Spread(teams) <= b <==>
      forall i, j :: 0 <= i < |teams| && 0 <= j < |teams| ==> Strength(teams[i]) - Strength(teams[j]) <= b
  {
    var ss := Strengths(teams);
    var i := MaxOfAttained(ss);
    var j := MinOfAttained(ss);
    assert Strength(teams[i]) - Strength(teams[j]) == Spread(teams);
    assert forall a :: 0 <= a < |teams| ==> ss[a] == Strength(teams[a]);
  }

  /** `is_valid_distribution`: team size, defensive quota, then a spread of at most 1. */
  predicate IsValidDistribution(teams: seq<Team>, playersPerTeam: int): (v: bool)
    requires |teams| > 0
    ensures v ==> playersPerTeam >= 2 && Spread(teams) <= 1.0
  {
    if !(forall t :: 0 <= t < |teams| ==> |teams[t]| == playersPerTeam) then false
    else if !(forall t :: 0 <= t < |teams| ==> HasRequiredDefensive(teams[t])) then false
    else Spread(teams) <= 1.0
  }

  /**
   * A distribution is valid exactly when every team has the target size,
   * every team has two defensive players, and no two teams' strengths differ
   * by more than 1.
   */
  lemma ValidIff(teams: seq<Team>, playersPerTeam: int)
    requires |teams| > 0
    ensures IsValidDistribution(teams, playersPerTeam) <==>
      && (forall t :: 0 <= t < |teams| ==> |teams[t]| == playersPerTeam)
      && (forall t :: 0 <= t < |teams| ==> DefensiveCount(teams[t]) >= 2)
      && (forall i, j :: 0 <= i < |teams| && 0 <= j < |teams| ==> Strength(teams[i]) - Strength(teams[j]) <= 1.0)
  {
    SpreadAtMost(teams, 1.0);
  }
}
