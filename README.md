# Team balancer: a verified model

This project models in Dafny the core of a pick-up football team balancer, and proves properties of that model. It has two parts.

- **`TeamBalancer`** (team_balancer.py) splits a roster of players into a given number of teams.
  - Each team gets the same number of players.
  - Each team gets at least two DEFENSE or VERSATILE players.
  - No two teams' mean ratings differ by more than 1.
  - It finds such a split by generate-and-test. Each attempt seeds the teams with shuffled defensive players, deals the elite players round-robin, and fills the teams greedily from samples of at most three players.
  - It keeps the valid attempt with the smallest strength spread.
- **`_build_balance_context`** (main.py) builds two alternative options for the web page.
  - It runs the balancer under up to 30 fixed seeds, keeping the distributions that differ as sets of teams, and stops early once 6 are kept.
  - It restores the random generator afterwards.
  - It picks the two kept candidates that share the fewest pairs of team-mates.

Modules, one file each:

| file | module | contents |
|---|---|---|
| players.dfy | `Players` | positions, tiers, `Player.category` |
| outcomes.dfy | `Outcomes` | `Option`, `Result` and the two error kinds (the two `ValueError`s) |
| rng.dfy | `Rng` | the process-wide random generator as an oracle: `seed`, `getstate`/`setstate`, `shuffle`, `sample` |
| validity.dfy | `Validity` | team strength, defensive quota, spread and `is_valid_distribution` |
| distribution.dfy | `Distribution` | multiset bookkeeping of teams and pool; the list comprehensions; the round-robin share; team sizes under the fill loop (as written and corrected); the greedy pick |
| balancer.dfy | `Balancer` | class `TeamBalancer` with `distribute_players` as imperative methods |
| ordering.dfy | `Ordering` | Python's lexicographic string/tuple order and `sorted` |
| context.dfy | `BalanceContext` | `canonical`, `pair_set`, the seeded dedup loop and the least-overlap pair selection |

How the model treats the source:

- The generator is `Rng.Random`. Its state is the last seed and the number of values drawn since; a fixed oracle `draw(seed, k)` gives the k-th raw value. `Shuffle` is the Fisher-Yates walk of `random.shuffle`. `Sample` draws distinct positions. Callers only use their contracts: a shuffle is a permutation, a sample comes from k distinct positions.
- Ratings are integers and strengths are exact reals, so the thresholds 1, 0.3 and 4.0 are exact.
- `distribute_players` is a class `TeamBalancer`. Its fields are the constructor's constants. Its loops are methods over sequence variables with loop invariants: `SeedDefenders`, `DealElites`, `FillTeams`/`FillRound`/`Serve`/`FillStep`, `Attempt`, `Iteration` and `DistributePlayers`.
- The search's ghost outputs are what each attempt built (`attempts`), each attempt's score and the index of the chosen attempt. The contract of `DistributePlayers` is stated over them.
- `_build_balance_context` up to the choice of the two options is `BalanceContext.BuildBalanceOptions`. Each seeded run is `Rng.Random.Seed` followed by `TeamBalancer.DistributePlayers`.

## Model

| member | source | states |
|---|---|---|
| Players.Player.Tier | team_balancer.py:24-33 | the category is ELITE iff rating >= 6, GOOD iff 5 <= rating < 6, REGULAR iff 3 <= rating < 5, BEGINNER iff rating < 3; exactly one holds |
| Players.TierMonotone | team_balancer.py:24-33 | a higher rating never gives a lower category |
| Players.BucketsAreTiers | team_balancer.py:135-137 | the elite/medium/weak buckets of an attempt are the ELITE tier, the GOOD and REGULAR tiers, and the BEGINNER tier |
| Validity.StrengthIsMean | team_balancer.py:79-82 | strength is 0 for an empty team; otherwise strength times size is the rating sum, and it lies between the team's lowest and highest rating |
| Validity.Strength | team_balancer.py:79-82 | `calculate_team_strength`: for a non-empty team, strength times size is the rating sum, i.e. the mean rating |
| Validity.StrengthBetween | team_balancer.py:79-82 | a non-empty team's strength lies within any bounds of its ratings |
| Validity.MaxOf | team_balancer.py:100 | `max` is at least every team strength |
| Validity.MinOf | team_balancer.py:100 | `min` is at most every team strength |
| Validity.MaxOfAttained | team_balancer.py:100 | `max` is one of the strengths |
| Validity.MinOfAttained | team_balancer.py:100 | `min` is one of the strengths |
| Validity.DefensiveCountAppend | team_balancer.py:84-87 | the defensive count of two concatenated teams is the sum of their counts |
| Validity.DefensiveCount | team_balancer.py:85-86 | the number of DEFENSE or VERSATILE players, never more than the team size |
| Validity.HasRequiredDefensive | team_balancer.py:84-87 | `has_required_defensive_players`: at least two defensive players, so only teams of two or more players qualify |
| Validity.Spread | team_balancer.py:99-100 | strongest minus weakest team strength; never negative |
| Validity.SpreadAtMost | team_balancer.py:99-101 | the spread is at most b iff no two teams' strengths differ by more than b |
| Validity.ValidIff | team_balancer.py:89-101 | a distribution is valid iff every team has the target size, every team has >= 2 defensive players, and no two strengths differ by more than 1 |
| Validity.IsValidDistribution | team_balancer.py:89-101 | `is_valid_distribution`: a valid distribution has a target size of at least two and a spread of at most 1 (the full characterisation is `Validity.ValidIff`) |
| Distribution.Filter | team_balancer.py:111-114 | a list comprehension keeps only players of its pool and is no longer than its input |
| Distribution.DefensiveSplit | team_balancer.py:111-114 | the defensive and other lists together hold exactly the roster; the defensive list has as many players as the roster's defensive count |
| Distribution.RatingSplit | team_balancer.py:135-137 | the elite, medium and weak lists together hold exactly the remaining players |
| Distribution.AppendToTeam | team_balancer.py:145 | appending a player to one team adds exactly that player to the members |
| Distribution.MembersCount | team_balancer.py:121-160 | the number of placed players is the sum of the team sizes |
| Distribution.ShareSize | team_balancer.py:144-145 | dealing round-robin gives team t exactly len/n players, plus one when t < len % n |
| Distribution.ShareFits | team_balancer.py:144-145 | when e players fit into n teams of c free slots, a round-robin share is at most c |
| Distribution.RoomIffHasRoom | team_balancer.py:154 | some free slot exists iff some team is below the target size |
| Distribution.SumAtCap | team_balancer.py:91 | teams no larger than the target hold n * target players iff every team has exactly the target size |
| Distribution.RoundProgress | team_balancer.py:152-160 | a pass over the teams while a team has room and the pool is non-empty takes at least one player from the pool |
| Distribution.RoundSizes | team_balancer.py:153-160 | one pass of `for team in teams` on team sizes: the number of teams is kept and the pool never grows |
| Distribution.RoundFillsRoom | team_balancer.py:153-160 | a pass grows each team by at most one, never past the target size, and every player it takes from the pool fills one free slot |
| Distribution.RoundFixpoint | team_balancer.py:152-160 | once no team has room, a pass changes nothing |
| Distribution.RoundSizesAppend | team_balancer.py:153-160 | a pass over teams a + b is a pass over a followed by a pass over b with the pool that is left |
| Distribution.AsWrittenFill | team_balancer.py:152-160 | the loop as written, after k passes or once the pool is empty: the number of teams is kept |
| Distribution.AsWrittenFillNeverExits | team_balancer.py:152-160 | when the pool holds more players than there are free slots, the loop as written still has a non-empty pool after any number of passes |
| Distribution.IndivisibleLeavesExcess | team_balancer.py:152-160 | when the roster size is not a multiple of the team count, no team is above the target size, and the team sizes plus the pool add up to the roster, the pool outnumbers the free slots |
| Distribution.FiveForTwoHangs | team_balancer.py:152-160 | five players in two teams: two full teams of two and one pooled player are a fixpoint of the loop as written |
| Distribution.FirstClosest | team_balancer.py:157-158 | the pick is a candidate minimising the distance of the new team mean from 4.0, and the first such candidate |
| Distribution.Distance | team_balancer.py:158 | the key of the greedy pick: how far the team's mean with p added is from 4.0, never negative |
| Distribution.RemoveFirst | team_balancer.py:160 | `remove` takes out exactly one copy of the player |
| Balancer.DealFits | team_balancer.py:125-145 | two seeded players plus a round-robin share stay within the target size when all of them fit |
| Balancer.DivisibleFits | team_balancer.py:121-160 | when the roster divides evenly, no team exceeds the target after the deal, and the placed players plus the pool fill every slot exactly |
| Balancer.DefensiveGrows | team_balancer.py:144-160 | appending players never lowers a team's defensive count |
| Balancer.SeededDefensive | team_balancer.py:121-128 | teams of two players taken only from the defensive list each hold two defensive players |
| Balancer.SearchStep | team_balancer.py:162-171 | scoring one more attempt keeps the best-so-far record: an invalid attempt changes nothing, a strictly smaller spread takes over, a tie keeps the earlier one |
| Balancer.TeamBalancer.constructor | team_balancer.py:73-77 | stores the roster and team count; players per team is len // num_teams; 100000 attempts |
| Balancer.TeamBalancer.SeedDefenders | team_balancer.py:121-131 | every team receives exactly two defensive players; the leftover has |defensive| - 2n players; teams plus leftover hold exactly the defensive players; the generator stays on its seed |
| Balancer.TeamBalancer.PopTwo | team_balancer.py:126-128 | two pops from the end of the defensive pool onto the empty team t: the team becomes the pool's last player followed by its second-to-last, the pool keeps everything before them, and no other team changes |
| Balancer.TeamBalancer.DealElites | team_balancer.py:144-145 | team t receives exactly the elite players at positions i with i % n == t, in order; members grow by exactly the elites |
| Balancer.TeamBalancer.FillStep | team_balancer.py:155-160 | samples min(3, |pool|) distinct positions, picks the first closest candidate, and removes exactly that player; the generator stays on its seed |
| Balancer.TeamBalancer.Serve | team_balancer.py:154-160 | team t is extended by exactly the greedy pick (the first candidate closest to 4.0 among min(3, |pool|) players from distinct pool positions), and exactly that player is removed from the pool; no other team changes and nobody is lost or duplicated; the generator stays on its seed |
| Balancer.TeamBalancer.FillRound | team_balancer.py:153-160 | one pass gives the team sizes `RoundSizes` predicts, only appends, and conserves teams plus pool; the generator stays on its seed |
| Balancer.TeamBalancer.FillTeams | team_balancer.py:152-160 | the corrected loop terminates with an empty pool or every team full, conserves teams plus pool, never overfills, and fills every team exactly when the players fit exactly; the generator stays on its seed |
| Balancer.TeamBalancer.Attempt | team_balancer.py:108-160 | skipped (and no randomness consumed) iff fewer than 2n defensive players; otherwise n teams, each with >= 2 defensive players, of the target size when the roster divides evenly, drawn from the roster without duplicates, and holding all of it when it divides evenly; the generator stays on its seed |
| Balancer.TeamBalancer.Score | team_balancer.py:162-164 | an attempt is scored iff it is a valid distribution |
| Balancer.TeamBalancer.Iteration | team_balancer.py:162-171 | records the attempt `Attempt` built (skipped iff too few defenders, otherwise n teams with two defenders each drawn from the roster) and its score, keeps the first best valid attempt, and stops iff the attempt is valid with spread <= 0.3; the generator stays on its seed |
| Balancer.TeamBalancer.DistributePlayers | team_balancer.py:103-176 | at most 100000 attempts, each recorded as `Attempt` built it (skipped iff too few defenders, otherwise n teams with two defenders each, drawn from the roster); fails with NoValidDistribution iff no attempt was valid; otherwise returns a valid distribution of least spread among the attempts, the first such, drawn from the roster; every attempt but the last had spread > 0.3, and fewer than 100000 attempts means the last one had spread <= 0.3; the generator stays on its seed |
| Rng.Random.Seed | main.py:39 | seeding restarts the stream at the seed |
| Rng.Random.GetState | main.py:35 | `getstate` returns the generator's current state |
| Rng.Random.SetState | main.py:48 | `setstate` puts back the saved state |
| Rng.Random.Shuffle | team_balancer.py:124 | the result is a permutation of the input |
| Rng.Random.Sample | team_balancer.py:156 | k elements from k distinct positions of the population; the generator stays on its seed |
| Ordering.LexOrder | main.py:22 | Python's sequence comparison over a total element order is total, antisymmetric and transitive |
| Ordering.SortSorted | main.py:22 | `sorted` returns an ordered permutation of its input |
| Ordering.SortedUnique | main.py:22 | two ordered permutations of the same elements are equal |
| Ordering.SortPermutation | main.py:22 | two inputs sort to the same tuple iff they are permutations of each other |
| BalanceContext.Names | main.py:25 | the names of a team, position by position |
| BalanceContext.KeyOrder | main.py:22 | the comparison of sorted name tuples is a total order |
| BalanceContext.TeamKeyIff | main.py:22 | two teams get the same inner key iff they hold the same names with the same multiplicities |
| BalanceContext.TeamKey | main.py:22 | the inner key `tuple(sorted(names))`: ordered, and holding exactly the team's names |
| BalanceContext.Canonical | main.py:21-22 | `canonical`: an ordered tuple holding exactly the teams' inner keys |
| BalanceContext.CanonicalIff | main.py:21-22 | two distributions get the same canonical key iff they hold the same teams up to team order and player order |
| BalanceContext.PairsOfIff | main.py:24-31 | a set is in the pair set iff it is the names at two different positions of one team |
| BalanceContext.PairsOf | main.py:24-31 | the pair set; it is empty exactly when no team has two players |
| BalanceContext.PairSet | main.py:24-31 | the nested loops compute exactly the pair set |
| BalanceContext.AddTeamPairs | main.py:28-30 | one team's loops add exactly that team's pairs |
| BalanceContext.PairsBeforeNext | main.py:30 | each inner step adds the pair of names i and j |
| BalanceContext.KeepDistinct | main.py:41-44 | the kept candidates are no more than the runs |
| BalanceContext.KeySetIff | main.py:42-44 | a key is in `seen` iff some kept candidate has it |
| BalanceContext.KeptKeysDistinct | main.py:41-44 | the kept candidates have pairwise different keys |
| BalanceContext.KeptFromRuns | main.py:40-43 | every kept candidate is a run's result, and the first run is always kept |
| BalanceContext.KeptCoversRuns | main.py:41-44 | every run's key is the key of some kept candidate |
| BalanceContext.CandidatesDiffer | main.py:41-44 | no two kept candidates hold the same teams up to team and player order |
| BalanceContext.Remember | main.py:41-44 | one dedup step keeps `candidates` and `seen` equal to the dedup of the runs so far |
| BalanceContext.SeededRun | main.py:39-40 | the generator ends the run still on the run's seed (every draw of the balancer keeps the seed); the run fails with NoValidDistribution whenever the roster has fewer than 2n defensive players, and on success returns a valid distribution made of the roster's players |
| BalanceContext.SeededStates | main.py:37-39 | one start state per run |
| BalanceContext.CollectOne | main.py:38-46 | one iteration of the dedup loop keeps the loop's invariant or fails, and it always fails when the roster has fewer than 2n defensive players |
| BalanceContext.ProgressStep | main.py:38-46 | a successful run keeps the dedup invariant: run k starts at seed 12345 + 97k, candidates are the dedup of the runs, at most 6 |
| BalanceContext.ProgressFail | main.py:38-40 | a failed run k records its start at seed 12345 + 97k |
| BalanceContext.DedupRuns | main.py:38-46 | at most 30 runs, run k seeded 12345 + 97k, every run valid; on success the candidates are the dedup of the runs and the loop stopped at 30 runs or 6 candidates, not earlier; with fewer than 2n defensive players the first run fails and no run is kept |
| BalanceContext.CollectCandidates | main.py:33-48 | the generator's state afterwards equals the state before, whether the runs finish or one fails; a failing run aborts with NoValidDistribution; success keeps at least one run; with fewer than 2n defensive players the result is an error |
| BalanceContext.LeastOverlap | main.py:57-66 | returns i < j with the smallest overlap over all pairs, the lexicographically first such pair |
| BalanceContext.Shared | main.py:62 | `len(pair_sets[i] & pair_sets[j])`: at most either set's size, and 0 exactly when the sets are disjoint |
| BalanceContext.ScanRow | main.py:61-65 | the inner loop extends the least-so-far pair over one more row |
| BalanceContext.ScanUpdate | main.py:63-65 | a strictly smaller overlap becomes the best pair |
| BalanceContext.ScanKeep | main.py:63 | a tie or larger overlap keeps the earlier pair |
| BalanceContext.SelectPair | main.py:57-66 | the chosen candidates are the first pair (i < j) whose pair sets share the fewest pairs |
| BalanceContext.ChooseOptions | main.py:53-66 | one candidate is returned twice; otherwise the least-overlap pair |
| BalanceContext.KeptValid | main.py:40-43 | every kept candidate is a valid distribution made of the roster's players |
| BalanceContext.BuildBalanceOptions | main.py:33-66 | the generator is restored; run k is seeded 12345 + 97k, at most 30 runs are made, every run is a valid distribution of the roster, and a successful build stopped at 30 runs or 6 kept candidates and not earlier; failure only as NoValidDistribution, and certain failure when fewer than 2 * num_teams players are DEFENSE or VERSATILE; success gives two valid distributions of the requested team count, each made of selected players without duplicates (all of them when their number divides evenly), the same one when one candidate was kept and otherwise the first least-overlap pair of the kept candidates |

## Left out

- Flask routes, request parsing and player persistence (main.py:105-249): web plumbing over a global list.
- The background job store, its lock and its daemon thread (main.py:10-12): concurrency.
- Rendering of the options and of the WhatsApp text (main.py:68-102), and `print_teams` (team_balancer.py:178-194): output formatting only.
- The hard-coded `real_players` roster (team_balancer.py:36-71): sample data.
- The `Intensity` player scheme and `save_players` (main.py:2, main.py:87): that code is not part of this model. The `Position` variant of `Player` (team_balancer.py:18-22) is modelled.
- Mersenne Twister internals: the raw values are an oracle `draw(seed, k)`. `random.sample`'s set-based branch for large populations is not modelled; both branches return k elements from distinct positions, and that is all the model uses.
- Floating point: ratings are integers and means are exact reals, so rounding at the 1.0 and 0.3 thresholds is not reproduced.
- Distribution.FirstClosest: distances are exact, so candidates at equal distance from 4.0 tie and the first one sampled is picked. In floats the source may prefer one of them by rounding: for team [4, 4] with candidates rated 3 and 5, Python computes 0.3333333333333335 and 0.33333333333333304 and always picks the 5.
- Balancer.TeamBalancer.Iteration: spreads are exact, so two attempts whose spreads are equal as reals tie and the earlier is kept; in floats `strength_diff < best_strength_diff` (team_balancer.py:166) may decide such a tie by rounding.
- Balancer.TeamBalancer.FillRound: states the team sizes and conservation of a pass, not the greedy choice of each step; that is stated per step by `Serve` and `FillStep`.
- Players.Player.Tier: ratings are whole numbers here, so a fractional rating such as 5.5 cannot be expressed.
- Team counts below 1 are excluded (`numTeams: nat` with `requires numTeams > 0`). With `num_teams == 0` the source raises `ZeroDivisionError` in the constructor. With a negative count it raises `IndexError` at team_balancer.py:145 when there are elite players, and otherwise loops forever at line 152 or raises `ValueError` from `max([])` at line 100.
- `sorted` uses Timsort in Python and insertion sort here. `Ordering.SortPermutation` and `Ordering.SortedUnique` show that every correct sort gives the same tuple.
- Balancer.TeamBalancer.FillTeams: models the corrected fill loop, which also stops once no team has room. The loop as written does not terminate in that case; see Findings. `Distribution.AsWrittenFill` models it on team sizes.
- BalanceContext.BuildBalanceOptions: the `if not candidates` error (main.py:50-51) is modelled as `Err(NoBalancedOptions)` on a branch that is proved unreachable; the contract only says that failures are `NoValidDistribution`.
- BalanceContext.CollectCandidates: Python's `finally` also restores the state when an exception escapes. Here the failing run returns an error value, and the state is restored before it is returned.
- Team values: a distribution is returned as sequences of player values, so the aliasing between `teams` and `best_distribution` is not modelled; the source copies the teams at line 168 anyway.

## Findings

| source | as written | input that shows it | evidently intended | confidence | as-written member | corrected member |
|---|---|---|---|---|---|---|
| team_balancer.py:152-160 | `while remaining_players:` repeats the pass over the teams until the pool is empty, but a pass only serves teams below `players_per_team`; once every team is full and players remain, no pass changes anything and the loop never exits | 2 teams and 5 players: 4 DEFENSE players and one ATTACK player rated below 6. `players_per_team` is 2, seeding fills both teams, and the fifth player stays in the pool forever. The same happens whenever the roster size is not a multiple of `num_teams` and no team is over the target size after the elite deal | stop when the pool is empty or no team has room, leaving the extra players out | high for the size argument; not executed | Distribution.AsWrittenFillNeverExits, Distribution.IndivisibleLeavesExcess, Distribution.FiveForTwoHangs | Balancer.TeamBalancer.FillTeams |
