/**
 * The generate-and-test search of `TeamBalancer.distribute_players`.
 *
 * Each attempt seeds every team with two shuffled defensive players, deals
 * the elite players round-robin, then fills the teams greedily from a
 * shuffled pool of medium and weak players; the search keeps the valid
 * attempt with the smallest strength spread and stops early at a spread of
 * 0.3 or less. Randomness comes from an `Rng.Random` passed in.
 *
 * The fill loop here stops as soon as no team has room. The source's loop
 * (`while remaining_players`) only stops when the pool is empty, which never
 * happens when the pool outnumbers the free slots; `Distribution` models that
 * loop and proves it does not exit.
 */
module Balancer {
  import opened Players
  import opened Validity
  import opened Distribution
  import opened Outcomes
  import Rng

  /** Teams that are all empty have no members. */
  lemma {:induction false} EmptyTeams(teams: seq<Team>)
    requires forall t :: 0 <= t < |teams| ==> teams[t] == []
    ensures Members(teams) == multiset{}
  {
    if |teams| > 0 {
      EmptyTeams(teams[1..]);
    }
  }

  /** Appending players never lowers a team's defensive count. */
  lemma DefensiveGrows(a: Team, b: Team)
    requires a <= b
    ensures DefensiveCount(a) <= DefensiveCount(b)
  {
    DefensiveCountAppend(a, b[|a|..]);
    assert b == a + b[|a|..];
  }

  /**
   * Two seeded players per team plus a round-robin share of the elite
   * players stay within the target size when all of them together fit.
   */
  lemma DealFits(seeded: seq<Team>, dealt: seq<Team>, elites: seq<Player>, n: nat, cap: nat)
    requires n > 0 && |seeded| == |dealt| == n
    requires forall t :: 0 <= t < n ==> |seeded[t]| == 2 && dealt[t] == seeded[t] + Share(elites, n, t)
    requires 2 * n + |elites| <= n * cap
    ensures forall t :: 0 <= t < n ==> |dealt[t]| <= cap
  {
    if cap < 2 {
      MulMono(n, cap, 1);
    }
    assert |elites| <= n * (cap - 2);
    forall t | 0 <= t < n ensures |dealt[t]| <= cap {
      ShareSize(elites, n, t);
      ShareFits(|elites|, n, cap - 2, t);
    }
  }

  /** Teams holding only players from a defensive list, two each, have two defensive players each. */
  lemma SeededDefensive(teams: seq<Team>, rest: seq<Player>, defensive: seq<Player>)
    requires forall i :: 0 <= i < |defensive| ==> IsDefensive(defensive[i])
    requires forall t :: 0 <= t < |teams| ==> |teams[t]| == 2
    requires Members(teams) + multiset(rest) == multiset(defensive)
    ensures forall t :: 0 <= t < |teams| ==> DefensiveCount(teams[t]) == 2
  {
    forall t | 0 <= t < |teams| ensures DefensiveCount(teams[t]) == 2 {
      forall i | 0 <= i < |teams[t]| ensures IsDefensive(teams[t][i]) {
        InMembers(teams, t, teams[t][i]);
        assert teams[t][i] in multiset(defensive);
      }
      AllDefensive(teams[t]);
    }
  }

  /** A player of one team is a member of the distribution. */
  lemma {:induction false} InMembers(teams: seq<Team>, t: nat, p: Player)
    requires t < |teams| && p in teams[t]
    ensures p in Members(teams)
  {
    if t > 0 {
      assert teams[1..][t - 1] == teams[t];
      InMembers(teams[1..], t - 1, p);
    }
  }

  /** Popping the pool's last player onto team t keeps everybody accounted for. */
  lemma PopOnto(teams: seq<Team>, t: nat, pool: seq<Player>)
    requires t < |teams| && |pool| > 0
    ensures Members(teams[t := teams[t] + [pool[|pool| - 1]]]) + multiset(pool[..|pool| - 1])
         == Members(teams) + multiset(pool)
  {
    var p := pool[|pool| - 1];
    assert pool == pool[..|pool| - 1] + [p];
    AppendToTeam(teams, t, p);
  }

  /** Moving a player from the pool onto team t keeps everybody accounted for. */
  lemma TakeFromPool(teams: seq<Team>, t: nat, pool: seq<Player>, p: Player, rest: seq<Player>)
    requires t < |teams| && p in pool && multiset(rest) == multiset(pool) - multiset{p}
    ensures Members(teams[t := teams[t] + [p]]) + multiset(rest) == Members(teams) + multiset(pool)
  {
    AppendToTeam(teams, t, p);
    assert multiset(pool) == multiset(rest) + multiset{p};
  }

  /**
   * The bookkeeping of one attempt: the defensive/other split, the seeding,
   * the elite/medium/weak split and the deal account for every player once.
   */
  lemma Accounted(all: multiset<Player>, defensive: multiset<Player>, others: multiset<Player>,
                  seeded: multiset<Player>, leftover: multiset<Player>,
                  elites: multiset<Player>, mediums: multiset<Player>, weaks: multiset<Player>)
    requires defensive + others == all && seeded + leftover == defensive
    requires elites + mediums + weaks == others + leftover
    ensures (seeded + elites) + (mediums + weaks) == all
  {
    forall q ensures ((seeded + elites) + (mediums + weaks))[q] == all[q] {
      assert (elites + mediums + weaks)[q] == (others + leftover)[q];
      assert (seeded + leftover)[q] == defensive[q];
      assert (defensive + others)[q] == all[q];
    }
  }

  /**
   * When the roster divides evenly, seeding and the deal leave no team above
   * the target size, and the placed players plus the pool make up exactly
   * the free and used slots of all teams.
   */
  lemma DivisibleFits(seeded: seq<Team>, dealt: seq<Team>, elites: seq<Player>, pool: seq<Player>,
                      players: seq<Player>, n: nat, cap: nat)
    requires n > 0 && cap == |players| / n && |players| % n == 0
    requires |seeded| == |dealt| == n
    requires forall t :: 0 <= t < n ==> |seeded[t]| == 2 && dealt[t] == seeded[t] + Share(elites, n, t)
    requires Members(dealt) == Members(seeded) + multiset(elites)
    requires Members(dealt) + multiset(pool) == multiset(players)
    ensures forall t :: 0 <= t < n ==> |dealt[t]| <= cap
    ensures |Members(dealt)| + |pool| == n * cap
  {
    MembersCount(seeded);
    SumAtCap(Sizes(seeded), 2);
    assert |Members(seeded)| == 2 * n;
    ExactDivision(|players|, n);
    assert |Members(dealt)| == 2 * n + |elites|;
    assert |Members(dealt) + multiset(pool)| == |multiset(players)|;
    DealFits(seeded, dealt, elites, n, cap);
  }

  /** A multiple of n is n times its quotient. */
  lemma ExactDivision(m: nat, n: nat)
    requires n > 0 && m % n == 0
    ensures m == n * (m / n)
  {
  }

  /** One round-robin step: player i joins team i % n, the other teams' shares are unchanged. */
  lemma DealStep(teams: seq<Team>, dealt: seq<Team>, elites: seq<Player>, n: nat, i: nat)
    requires n > 0 && |teams| == |dealt| == n && i < |elites|
    requires forall t :: 0 <= t < n ==> dealt[t] == teams[t] + Share(elites[..i], n, t)
    ensures forall t :: 0 <= t < n ==>
      dealt[i % n := dealt[i % n] + [elites[i]]][t] == teams[t] + Share(elites[..i + 1], n, t)
    ensures multiset(elites[..i + 1]) == multiset(elites[..i]) + multiset{elites[i]}
  {
    var s := elites[..i + 1];
    assert s[..|s| - 1] == elites[..i];
    assert s == elites[..i] + [elites[i]];
    forall t | 0 <= t < n
      ensures dealt[i % n := dealt[i % n] + [elites[i]]][t] == teams[t] + Share(s, n, t)
    {
      assert Share(s, n, t) == Share(elites[..i], n, t) + (if i % n == t then [elites[i]] else []);
    }
  }

  /** No attempt of the record was valid. */
  predicate NoneScored(scores: seq<Option<real>>)
  {
    forall a :: 0 <= a < |scores| ==> scores[a].None?
  }

  /**
   * Attempt `chosen` was valid, no valid attempt has a smaller spread, and
   * every valid attempt before it has a larger one.
   */
  predicate FirstBest(scores: seq<Option<real>>, chosen: nat)
  {
    && chosen < |scores| && scores[chosen].Some?
    && (forall a :: 0 <= a < |scores| && scores[a].Some? ==> scores[chosen].value <= scores[a].value)
    && (forall a :: 0 <= a < chosen && scores[a].Some? ==> scores[a].value > scores[chosen].value)
  }

  /** No valid attempt of the record had a spread of 0.3 or less. */
  predicate NoneWithin(scores: seq<Option<real>>)
  {
    forall a :: 0 <= a < |scores| && scores[a].Some? ==> scores[a].value > 0.3
  }

  /**
   * What the search knows after the attempts scored by `scores`: when
   * `found`, attempt `chosen` is the first of smallest spread and
   * `bestDiff` is that spread; otherwise no attempt was valid.
   */
  predicate Searched(scores: seq<Option<real>>, found: bool, chosen: nat, bestDiff: real)
  {
    && (!found ==> NoneScored(scores))
    && (found ==> FirstBest(scores, chosen) && scores[chosen] == Some(bestDiff))
  }

  /**
   * Scoring one more attempt: an invalid one changes nothing, a valid one
   * becomes the best when none was found yet or its spread is strictly
   * smaller, and otherwise the earlier best stays.
   */
  lemma SearchStep(scores: seq<Option<real>>, found: bool, chosen: nat, bestDiff: real, score: Option<real>)
    requires Searched(scores, found, chosen, bestDiff)
    ensures score.None? ==> Searched(scores + [score], found, chosen, bestDiff)
    ensures score.Some? && (!found || score.value < bestDiff) ==>
              Searched(scores + [score], true, |scores|, score.value)
    ensures score.Some? && found && !(score.value < bestDiff) ==>
              Searched(scores + [score], true, chosen, bestDiff)
    ensures NoneWithin(scores) && (score.None? || score.value > 0.3) ==> NoneWithin(scores + [score])
  {
    var s' := scores + [score];
    assert forall a :: 0 <= a < |scores| ==> s'[a] == scores[a];
  }

  class TeamBalancer {
    const players: seq<Player>
    const numTeams: nat
    const playersPerTeam: nat
    const maxAttempts: nat

    /** `TeamBalancer(players, num_teams)`. */
    constructor (players: seq<Player>, numTeams: nat)
      requires numTeams > 0
      ensures this.players == players && this.numTeams == numTeams
      ensures playersPerTeam == |players| / numTeams && maxAttempts == 100000
      ensures Ready()
    {
      this.players := players;
      this.numTeams := numTeams;
      playersPerTeam := |players| / numTeams;
      maxAttempts := 100000;
    }

    /** The fields as the constructor sets them. */
    predicate Ready()
    {
      numTeams > 0 && playersPerTeam == |players| / numTeams && maxAttempts == 100000
    }

    /** The roster divides evenly into the teams. */
    predicate Divisible()
      requires numTeams > 0
    {
      |players| % numTeams == 0
    }

    /**
     * The shape of what one attempt builds: numTeams teams, each with the
     * defensive quota, all of the target size when the roster divides evenly.
     */
    predicate IsAttempt(teams: seq<Team>)
      requires Ready()
    {
      && |teams| == numTeams
      && (forall t :: 0 <= t < numTeams ==> HasRequiredDefensive(teams[t]))
      && (Divisible() ==> forall t :: 0 <= t < numTeams ==> |teams[t]| == playersPerTeam)
    }

    /** Nobody is invented or placed twice; when the roster divides evenly, everybody is placed. */
    predicate DrawnFromRoster(teams: seq<Team>)
      requires Ready()
    {
      && Members(teams) <= multiset(players)
      && (Divisible() ==> Members(teams) == multiset(players))
    }

    /** What an attempt built is a valid distribution. */
    predicate Valid(o: Option<seq<Team>>)
      requires Ready()
    {
      o.Some? && |o.value| == numTeams && IsValidDistribution(o.value, playersPerTeam)
    }

    /**
     * Seeding: shuffle the defensive players, then pop two of them onto each
     * team in turn; what is left over is returned.
     */
    method SeedDefenders(rng: Rng.Random, defensive: seq<Player>) returns (teams: seq<Team>, rest: seq<Player>)
      requires Ready()
      requires |defensive| >= 2 * numTeams
      requires forall i :: 0 <= i < |defensive| ==> IsDefensive(defensive[i])
      modifies rng
      ensures |teams| == numTeams
      ensures forall t :: 0 <= t < numTeams ==> |teams[t]| == 2 && DefensiveCount(teams[t]) == 2
      ensures |rest| == |defensive| - 2 * numTeams
      ensures Members(teams) + multiset(rest) == multiset(defensive)
      ensures rng.state.seed == old(rng.state).seed
    {
      var pool := rng.Shuffle(defensive);
      teams := seq(numTeams, _ => []);
      EmptyTeams(teams);
      for t := 0 to numTeams
        invariant |teams| == numTeams
        invariant forall u :: 0 <= u < t ==> |teams[u]| == 2
        invariant forall u :: t <= u < numTeams ==> teams[u] == []
        invariant |pool| == |defensive| - 2 * t
        invariant Members(teams) + multiset(pool) == multiset(defensive)
        invariant rng.state.seed == old(rng.state).seed
      {
        teams, pool := PopTwo(teams, t, pool);
      }
      rest := pool;
      SeededDefensive(teams, rest, defensive);
    }

    /** `for _ in range(2): team.append(defensive_players.pop())` for team t. */
    static method PopTwo(teams: seq<Team>, t: nat, pool: seq<Player>) returns (teams': seq<Team>, pool': seq<Player>)
      requires t < |teams| && teams[t] == [] && |pool| >= 2
      ensures |teams'| == |teams| && |teams'[t]| == 2 && |pool'| == |pool| - 2
      ensures forall u :: 0 <= u < |teams| && u != t ==> teams'[u] == teams[u]
      ensures Members(teams') + multiset(pool') == Members(teams) + multiset(pool)
      ensures teams'[t] == [pool[|pool| - 1], pool[|pool| - 2]] && pool' == pool[..|pool| - 2]
    {
      teams', pool' := teams, pool;
      for k := 0 to 2
        invariant |teams'| == |teams| && |teams'[t]| == k && |pool'| == |pool| - k
        invariant forall u :: 0 <= u < |teams| && u != t ==> teams'[u] == teams[u]
        invariant Members(teams') + multiset(pool') == Members(teams) + multiset(pool)
        invariant pool' == pool[..|pool| - k]
        invariant forall m :: 0 <= m < k ==> teams'[t][m] == pool[|pool| - 1 - m]
      {
        if |pool'| > 0 {
          var p := pool'[|pool'| - 1];
          PopOnto(teams', t, pool');
          teams' := teams'[t := teams'[t] + [p]];
          pool' := pool'[..|pool'| - 1];
          assert pool' == pool[..|pool| - (k + 1)];
        }
      }
      assert teams'[t] == [teams'[t][0], teams'[t][1]];
    }

    /** Deal players round-robin: player i goes to team i % numTeams. */
    method DealElites(teams: seq<Team>, elites: seq<Player>) returns (dealt: seq<Team>)
      requires Ready() && |teams| == numTeams
      ensures |dealt| == numTeams
      ensures forall t :: 0 <= t < numTeams ==> dealt[t] == teams[t] + Share(elites, numTeams, t)
      ensures Members(dealt) == Members(teams) + multiset(elites)
    {
      dealt := teams;
      for i := 0 to |elites|
        invariant |dealt| == numTeams
        invariant forall t :: 0 <= t < numTeams ==> dealt[t] == teams[t] + Share(elites[..i], numTeams, t)
        invariant Members(dealt) == Members(teams) + multiset(elites[..i])
      {
        var t := i % numTeams;
        DealStep(teams, dealt, elites, numTeams, i);
        AppendToTeam(dealt, t, elites[i]);
        dealt := dealt[t := dealt[t] + [elites[i]]];
      }
      assert elites[..|elites|] == elites;
    }

    /**
     * One fill step for a team below its target size: sample up to three
     * pool players, take the first one that brings the team's strength
     * closest to 4.0, and remove it from the pool.
     */
    method FillStep(rng: Rng.Random, team: Team, pool: seq<Player>) returns (best: Player, rest: seq<Player>, ghost idx: seq<nat>)
      requires |pool| > 0
      modifies rng
      ensures |idx| == Min(3, |pool|) && Rng.Distinct(idx)
      ensures forall m :: 0 <= m < |idx| ==> idx[m] < |pool|
      ensures best == Candidates(pool, idx)[FirstClosest(team, Candidates(pool, idx))]
      ensures best in pool && rest == RemoveFirst(pool, best)
      ensures rng.state.seed == old(rng.state).seed
    {
      var count := Min(3, |pool|);
      var cands;
      cands, idx := rng.Sample(pool, count);
      assert cands == Candidates(pool, idx);
      best := cands[FirstClosest(team, cands)];
      rest := RemoveFirst(pool, best);
    }

    /** Team t takes the fill step's pick, which leaves the pool. */
    method Serve(rng: Rng.Random, teams: seq<Team>, t: nat, pool: seq<Player>)
      returns (teams': seq<Team>, pool': seq<Player>, best: Player, ghost idx: seq<nat>)
      requires t < |teams| && |pool| > 0
      modifies rng
      ensures |idx| == Min(3, |pool|) && Rng.Distinct(idx)
      ensures forall m :: 0 <= m < |idx| ==> idx[m] < |pool|
      ensures best == Candidates(pool, idx)[FirstClosest(teams[t], Candidates(pool, idx))]
      ensures teams' == teams[t := teams[t] + [best]] && pool' == RemoveFirst(pool, best)
      ensures |teams'| == |teams| && |pool'| == |pool| - 1
      ensures forall u :: 0 <= u < |teams| && u != t ==> teams'[u] == teams[u]
      ensures teams[t] <= teams'[t] && |teams'[t]| == |teams[t]| + 1
      ensures Members(teams') + multiset(pool') == Members(teams) + multiset(pool)
      ensures rng.state.seed == old(rng.state).seed
    {
      var rest;
      best, rest, idx := FillStep(rng, teams[t], pool);
      TakeFromPool(teams, t, pool, best, rest);
      teams' := teams[t := teams[t] + [best]];
      pool' := rest;
    }

    /** One pass of `for team in teams` in the fill loop. */
    method FillRound(rng: Rng.Random, teams: seq<Team>, pool: seq<Player>) returns (teams': seq<Team>, pool': seq<Player>)
      requires Ready() && |teams| == numTeams
      modifies rng
      ensures |teams'| == numTeams
      ensures Members(teams') + multiset(pool') == Members(teams) + multiset(pool)
      ensures forall t :: 0 <= t < numTeams ==> teams[t] <= teams'[t]
      ensures Fill(Sizes(teams'), |pool'|) == RoundSizes(Sizes(teams), playersPerTeam, |pool|)
      ensures rng.state.seed == old(rng.state).seed
    {
      teams', pool' := teams, pool;
      for t := 0 to numTeams
        invariant |teams'| == numTeams
        invariant Members(teams') + multiset(pool') == Members(teams) + multiset(pool)
        invariant forall u :: 0 <= u < numTeams ==> teams[u] <= teams'[u]
        invariant forall u :: t <= u < numTeams ==> teams'[u] == teams[u]
        invariant Fill(Sizes(teams')[..t], |pool'|) == RoundSizes(Sizes(teams)[..t], playersPerTeam, |pool|)
        invariant rng.state.seed == old(rng.state).seed
      {
        ghost var before, poolBefore := Sizes(teams'), |pool'|;
        if |teams'[t]| < playersPerTeam && |pool'| > 0 {
          var best;
          ghost var idx;
          teams', pool', best, idx := Serve(rng, teams', t, pool');
        }
        assert Sizes(teams')[..t] == before[..t];
        RoundStep(Sizes(teams), before, Sizes(teams'), t, playersPerTeam, |pool|, poolBefore, |pool'|);
      }
      assert Sizes(teams')[..numTeams] == Sizes(teams');
      assert Sizes(teams)[..numTeams] == Sizes(teams);
    }

    /**
     * The fill loop: repeat passes while the pool is non-empty and some team
     * has room. Players left when every team is full are not placed.
     */
    method FillTeams(rng: Rng.Random, teams: seq<Team>, pool: seq<Player>) returns (teams': seq<Team>, pool': seq<Player>)
      requires Ready() && |teams| == numTeams
      modifies rng
      ensures |teams'| == numTeams
      ensures Members(teams') + multiset(pool') == Members(teams) + multiset(pool)
      ensures forall t :: 0 <= t < numTeams ==> teams[t] <= teams'[t]
      ensures pool' == [] || !HasRoom(Sizes(teams'), playersPerTeam)
      ensures (forall t :: 0 <= t < numTeams ==> |teams[t]| <= playersPerTeam) ==>
                forall t :: 0 <= t < numTeams ==> |teams'[t]| <= playersPerTeam
      ensures (forall t :: 0 <= t < numTeams ==> |teams[t]| <= playersPerTeam) &&
              |Members(teams)| + |pool| == numTeams * playersPerTeam ==>
                pool' == [] && forall t :: 0 <= t < numTeams ==> |teams'[t]| == playersPerTeam
      ensures rng.state.seed == old(rng.state).seed
    {
      teams', pool' := teams, pool;
      ghost var capped := forall t :: 0 <= t < numTeams ==> |teams[t]| <= playersPerTeam;
      while |pool'| > 0 && HasRoom(Sizes(teams'), playersPerTeam)
        invariant |teams'| == numTeams
        invariant Members(teams') + multiset(pool') == Members(teams) + multiset(pool)
        invariant forall t :: 0 <= t < numTeams ==> teams[t] <= teams'[t]
        invariant capped ==> forall t :: 0 <= t < numTeams ==> |teams'[t]| <= playersPerTeam
        invariant rng.state.seed == old(rng.state).seed
        decreases |pool'|
      {
        ghost var sizes, n := Sizes(teams'), |pool'|;
        RoundProgress(sizes, playersPerTeam, n);
        RoundFillsRoom(sizes, playersPerTeam, n);
        var next, rest := FillRound(rng, teams', pool');
        forall t | 0 <= t < numTeams ensures teams[t] <= next[t] {
          assert teams'[t] <= next[t];
        }
        teams', pool' := next, rest;
      }
      if capped && |Members(teams)| + |pool| == numTeams * playersPerTeam {
        MembersCount(teams');
        var sizes := Sizes(teams');
        assert |Members(teams') + multiset(pool')| == |Members(teams) + multiset(pool)|;
        RoomBelowCap(sizes, playersPerTeam);
        RoomIffHasRoom(sizes, playersPerTeam);
        SumAtCap(sizes, playersPerTeam);
      }
    }

    /** One iteration of the search's attempt loop; None when it is skipped. */
    method Attempt(rng: Rng.Random) returns (r: Option<seq<Team>>)
      requires Ready()
      modifies rng
      ensures DefensiveCount(players) < 2 * numTeams ==> r.None? && rng.state == old(rng.state)
      ensures DefensiveCount(players) >= 2 * numTeams ==> r.Some? && IsAttempt(r.value)
      ensures r.Some? ==> DrawnFromRoster(r.value)
      ensures rng.state.seed == old(rng.state).seed
    {
      var available := players;
      var defensive := Filter(available, Defenders);
      var others := Filter(available, Outfield);
      DefensiveSplit(available);
      if |defensive| < numTeams * 2 {
        return None;
      }

      var teams, leftover := SeedDefenders(rng, defensive);
      others := others + leftover;

      var remaining := others;
      var elites := Filter(remaining, Elites);
      var mediums := Filter(remaining, Mediums);
      var weaks := Filter(remaining, Weaks);
      RatingSplit(remaining);
      elites := rng.Shuffle(elites);
      mediums := rng.Shuffle(mediums);
      weaks := rng.Shuffle(weaks);

      ghost var seeded := teams;
      teams := DealElites(teams, elites);

      remaining := mediums + weaks;
      remaining := rng.Shuffle(remaining);

      Accounted(multiset(players), multiset(defensive), multiset(Filter(available, Outfield)),
        Members(seeded), multiset(leftover), multiset(elites), multiset(mediums), multiset(weaks));
      ghost var dealt := teams;
      if Divisible() {
        DivisibleFits(seeded, dealt, elites, remaining, players, numTeams, playersPerTeam);
      }
      teams, remaining := FillTeams(rng, teams, remaining);

      forall t | 0 <= t < numTeams ensures HasRequiredDefensive(teams[t]) {
        DefensiveGrows(seeded[t], teams[t]);
      }
      assert Members(teams) <= multiset(players) by {
        assert Members(teams) + multiset(remaining) == multiset(players);
      }
      r := Some(teams);
    }

    /** The spread of what an attempt built when it is valid; None otherwise. */
    function Score(o: Option<seq<Team>>): (sc: Option<real>)
      requires Ready()
      ensures sc.Some? <==> Valid(o)
    {
      if Valid(o) then Some(Spread(o.value)) else None
    }

    /**
     * `distribute_players`: up to `maxAttempts` attempts; keeps the first
     * valid attempt of smallest spread, stops after a valid attempt of spread
     * at most 0.3, and fails when no attempt was valid. `attempts` records
     * what each attempt built and `chosen` which one was returned.
     */
    method DistributePlayers(rng: Rng.Random)
      returns (r: Result<seq<Team>>, ghost attempts: seq<Option<seq<Team>>>, ghost scores: seq<Option<real>>, ghost chosen: nat)
      requires Ready()
      modifies rng
      ensures 0 < |attempts| <= maxAttempts && Record(attempts, scores)
      ensures r.Err? <==> NoneScored(scores)
      ensures r.Err? ==> r.error == NoValidDistribution
      ensures r.Ok? ==> FirstBest(scores, chosen) && attempts[chosen] == Some(r.value)
      ensures r.Ok? ==> Valid(attempts[chosen]) && scores[chosen] == Some(Spread(r.value))
      ensures r.Ok? ==> IsAttempt(r.value) && DrawnFromRoster(r.value)
      ensures NoneWithin(scores[..|scores| - 1])
      ensures |scores| < maxAttempts ==> scores[|scores| - 1].Some? && scores[|scores| - 1].value <= 0.3
      ensures DefensiveCount(players) < 2 * numTeams ==> rng.state == old(rng.state)
      ensures rng.state.seed == old(rng.state).seed
    {
      var best: Option<seq<Team>> := None;
      var bestDiff: real := 0.0;
      attempts, scores, chosen := [], [], 0;
      var attempt := 0;
      while attempt < maxAttempts
        invariant 0 <= attempt <= maxAttempts && |attempts| == attempt
        invariant Record(attempts, scores) && NoneWithin(scores)
        invariant Searched(scores, best.Some?, chosen, bestDiff)
        invariant best.Some? ==> best == attempts[chosen] && IsAttempt(best.value) && DrawnFromRoster(best.value)
        invariant DefensiveCount(players) < 2 * numTeams ==> rng.state == old(rng.state)
        invariant rng.state.seed == old(rng.state).seed
      {
        ghost var before := scores;
        var teams, stop;
        teams, attempts, scores, best, bestDiff, chosen, stop := Iteration(rng, attempts, scores, best, bestDiff, chosen);
        attempt := attempt + 1;
        if stop {
          assert scores[..attempt - 1] == before;
          break;
        }
      }
      if best.None? {
        return Err(NoValidDistribution), attempts, scores, chosen;
      }
      r := Ok(best.value);
    }

    /**
     * The attempts made so far and their scores: attempt a was skipped
     * exactly when the roster lacks defensive players, otherwise it built
     * what `Attempt` promises, and scores[a] is its spread when it was valid.
     */
    predicate Record(attempts: seq<Option<seq<Team>>>, scores: seq<Option<real>>)
      requires Ready()
    {
      && |scores| == |attempts|
      && (forall a :: 0 <= a < |attempts| ==> (attempts[a].Some? <==> DefensiveCount(players) >= 2 * numTeams))
      && (forall a :: 0 <= a < |attempts| ==> scores[a] == Score(attempts[a]))
      && (forall a :: 0 <= a < |attempts| && attempts[a].Some? ==>
            IsAttempt(attempts[a].value) && DrawnFromRoster(attempts[a].value))
    }

    /**
     * One iteration of the attempt loop: build an attempt, and when it is
     * valid keep it if its spread beats the best so far; `stop` when its
     * spread is at most 0.3.
     */
    method Iteration(rng: Rng.Random, ghost attempts: seq<Option<seq<Team>>>, ghost scores: seq<Option<real>>,
                     best: Option<seq<Team>>, bestDiff: real, ghost chosen: nat)
      returns (teams: Option<seq<Team>>, ghost attempts': seq<Option<seq<Team>>>, ghost scores': seq<Option<real>>,
               best': Option<seq<Team>>, bestDiff': real, ghost chosen': nat, stop: bool)
      requires Ready() && Record(attempts, scores) && Searched(scores, best.Some?, chosen, bestDiff)
      requires best.Some? ==> best == attempts[chosen] && IsAttempt(best.value) && DrawnFromRoster(best.value)
      modifies rng
      ensures attempts' == attempts + [teams] && scores' == scores + [Score(teams)]
      ensures Record(attempts', scores') && Searched(scores', best'.Some?, chosen', bestDiff')
      ensures best'.Some? ==> best' == attempts'[chosen'] && IsAttempt(best'.value) && DrawnFromRoster(best'.value)
      ensures stop <==> Score(teams).Some? && Score(teams).value <= 0.3
      ensures DefensiveCount(players) < 2 * numTeams ==> rng.state == old(rng.state)
      ensures rng.state.seed == old(rng.state).seed
    {
      teams := Attempt(rng);
      ghost var score := Score(teams);
      SearchStep(scores, best.Some?, chosen, bestDiff, score);
      attempts', scores' := attempts + [teams], scores + [score];
      assert forall a :: 0 <= a < |attempts| ==> attempts'[a] == attempts[a] && scores'[a] == scores[a];
      best', bestDiff', chosen', stop := best, bestDiff, chosen, false;
      if Valid(teams) {
        var diff := Spread(teams.value);
        if best.None? || diff < bestDiff {
          best', bestDiff', chosen' := teams, diff, |attempts|;
        }
        stop := diff <= 0.3;
      }
    }
  }
}
