/**
 * The option builder behind the web front end: it runs the balancer under
 * up to thirty fixed seeds, keeps up to six distributions that differ as partitions
 * (the canonical key ignores team order and the order of players inside a
 * team), restores the process-wide generator, and offers the two candidates
 * whose teams share the fewest pairs of team-mates.
 */
module BalanceContext {
  import opened Players
  import opened Validity
  import opened Outcomes
  import opened Ordering
  import Rng
  import opened Distribution
  import Balancer

  /** The seed of run k: the base seed 12345 plus 97 per run. */
  function RunSeed(k: nat): int
  {
    12345 + 97 * k
  }

  /** The generator's states at the start of runs 0 .. n-1. */
  function SeededStates(n: nat): (ss: seq<Rng.State>)
    ensures |ss| == n
  {
    if n == 0 then [] else SeededStates(n - 1) + [Rng.State(RunSeed(n - 1), 0)]
  }

  /** At most this many seeded runs of the balancer. */
  const Runs := 30
  /** Stop collecting once this many distinct candidates exist. */
  const MaxCandidates := 6

  // ---------------------------------------------------------------------
  // The canonical key of a distribution

  /** The players' names of a team, in team order. */
  function Names(team: Team): (ns: seq<string>)
    ensures |ns| == |team| && forall i :: 0 <= i < |team| ==> ns[i] == team[i].name
  {
    if |team| == 0 then [] else [team[0].name] + Names(team[1..])
  }

  /** Python's order on characters (code points). */
  function CharLe(a: char, b: char): bool
  {
    a <= b
  }

  /** Python's order on strings. */
  function NameLe(a: string, b: string): bool
  {
    LexLe(a, b, CharLe)
  }

  /** Python's order on tuples of strings. */
  function KeyLe(a: seq<string>, b: seq<string>): bool
  {
    LexLe(a, b, NameLe)
  }

  /** `tuple(sorted(p.name for p in team))`. */
  function TeamKey(team: Team): (k: seq<string>)
    ensures Sorted(k, NameLe) && multiset(k) == NameBag(team)
  {
    NameOrder();
    SortSorted(Names(team), NameLe);
    Sort(Names(team), NameLe)
  }

  /** `canonical(teams)`: the sorted tuple of the teams' sorted name tuples. */
  function Canonical(teams: seq<Team>): (c: seq<seq<string>>)
    ensures Sorted(c, KeyLe) && multiset(c) == multiset(MapSeq(teams, TeamKey))
  {
    KeyOrder();
    SortSorted(MapSeq(teams, TeamKey), KeyLe);
    Sort(MapSeq(teams, TeamKey), KeyLe)
  }

  /** A team as a bag of names, forgetting the order of its players. */
  function NameBag(team: Team): multiset<string>
  {
    multiset(Names(team))
  }

  /** A distribution as a bag of name bags, forgetting every order. */
  function Bags(teams: seq<Team>): multiset<multiset<string>>
  {
    multiset(MapSeq(teams, NameBag))
  }

  lemma CharOrder()
    ensures TotalOrder(CharLe)
  {
  }

  lemma NameOrder()
    ensures TotalOrder(NameLe)
  {
    CharOrder();
    LexOrder(CharLe);
  }

  lemma KeyOrder()
    ensures TotalOrder(KeyLe)
  {
    NameOrder();
    LexOrder(NameLe);
  }

  /** Two teams get the same key exactly when they hold the same names. */
  lemma TeamKeyIff(x: Team, y: Team)
    ensures TeamKey(x) == TeamKey(y) <==> NameBag(x) == NameBag(y)
  {
    NameOrder();
    SortPermutation(Names(x), Names(y), NameLe);
  }

  /**
   * Two distributions get the same canonical key exactly when they are the
   * same partition of names: they differ at most in the order of the teams
   * and in the order of the players inside each team.
   */
  lemma CanonicalIff(a: seq<Team>, b: seq<Team>)
    ensures Canonical(a) == Canonical(b) <==> Bags(a) == Bags(b)
  {
    KeyOrder();
    SortPermutation(MapSeq(a, TeamKey), MapSeq(b, TeamKey), KeyLe);
    forall x: Team, y: Team ensures TeamKey(x) == TeamKey(y) <==> NameBag(x) == NameBag(y) {
      TeamKeyIff(x, y);
    }
    if Bags(a) == Bags(b) {
      MapFactor(a, b, NameBag, TeamKey);
    }
    if Canonical(a) == Canonical(b) {
      MapFactor(a, b, TeamKey, NameBag);
    }
  }

  // ---------------------------------------------------------------------
  // Pairs of team-mates

  /** An unordered pair of names (a single name when both are equal), as `frozenset`. */
  type Pair = set<string>

  /** Position (u, a, b) comes before position (t, i, j) in the order the loops visit them. */
  predicate Earlier(u: int, a: int, b: int, t: int, i: int, j: int)
  {
    u < t || (u == t && (a < i || (a == i && b < j)))
  }

  /** The pairs of the positions a < b of one team that come before (t, i, j). */
  function PairsBefore(teams: seq<Team>, t: int, i: int, j: int): set<Pair>
  {
    set u, a, b | 0 <= u < |teams| && 0 <= a < b < |teams[u]| && Earlier(u, a, b, t, i, j)
      :: {teams[u][a].name, teams[u][b].name}
  }

  /** The pairs of team-mates of a distribution: there are none exactly when no team has two players. */
  function PairsOf(teams: seq<Team>): (ps: set<Pair>)
    ensures ps == {} <==> forall u :: 0 <= u < |teams| ==> |teams[u]| <= 1
  {
    var all := PairsBefore(teams, |teams|, 0, 0);
    if exists u :: 0 <= u < |teams| && |teams[u]| >= 2 then
      var u :| 0 <= u < |teams| && |teams[u]| >= 2;
      assert Earlier(u, 0, 1, |teams|, 0, 0);
      assert {teams[u][0].name, teams[u][1].name} in all;
      all
    else
      assert forall s :: s !in all;
      all
  }

  /**
   * `pair_set`: a pair belongs to the set exactly when it is made of the
   * names at two different positions of the same team.
   */
  lemma PairsOfIff(teams: seq<Team>, s: Pair)
    ensures s in PairsOf(teams) <==>
      exists u, a, b :: 0 <= u < |teams| && 0 <= a < |teams[u]| && 0 <= b < |teams[u]| && a != b
        && s == {teams[u][a].name, teams[u][b].name}
  {
    if exists u, a, b :: 0 <= u < |teams| && 0 <= a < |teams[u]| && 0 <= b < |teams[u]| && a != b
        && s == {teams[u][a].name, teams[u][b].name} {
      var u, a, b :| 0 <= u < |teams| && 0 <= a < |teams[u]| && 0 <= b < |teams[u]| && a != b
        && s == {teams[u][a].name, teams[u][b].name};
      if b < a {
        assert s == {teams[u][b].name, teams[u][a].name};
        assert Earlier(u, b, a, |teams|, 0, 0);
      } else {
        assert Earlier(u, a, b, |teams|, 0, 0);
      }
    }
  }

  /** Two cursors that have visited the same positions have collected the same pairs. */
  lemma PairsBeforeSame(teams: seq<Team>, t: int, i: int, j: int, t': int, i': int, j': int)
    requires forall u, a, b :: 0 <= u < |teams| && 0 <= a < b < |teams[u]| ==>
      (Earlier(u, a, b, t, i, j) <==> Earlier(u, a, b, t', i', j'))
    ensures PairsBefore(teams, t, i, j) == PairsBefore(teams, t', i', j')
  {
  }

  /** No position comes before the first one. */
  lemma NothingBefore(teams: seq<Team>)
    ensures PairsBefore(teams, 0, 0, 0) == {}
  {
  }

  /** Visiting position (t, i, j) adds the pair of the names at i and j of team t. */
  lemma PairsBeforeNext(teams: seq<Team>, t: nat, i: nat, j: nat)
    requires t < |teams| && i < j < |teams[t]|
    ensures PairsBefore(teams, t, i, j + 1) == PairsBefore(teams, t, i, j) + {{teams[t][i].name, teams[t][j].name}}
  {
    var added := {teams[t][i].name, teams[t][j].name};
    assert Earlier(t, i, j, t, i, j + 1);
    forall s | s in PairsBefore(teams, t, i, j + 1) ensures s in PairsBefore(teams, t, i, j) || s == added {
      var u, a, b :| 0 <= u < |teams| && 0 <= a < b < |teams[u]| && Earlier(u, a, b, t, i, j + 1)
        && s == {teams[u][a].name, teams[u][b].name};
      if !(u == t && a == i && b == j) {
        assert Earlier(u, a, b, t, i, j);
      }
    }
  }

  /** `pair_set(teams)`. */
  method PairSet(teams: seq<Team>) returns (pairs: set<Pair>)
    ensures pairs == PairsOf(teams)
  {
    var namesPerTeam := MapSeq(teams, Names);
    pairs := {};
    NothingBefore(teams);
    for t := 0 to |namesPerTeam|
      invariant pairs == PairsBefore(teams, t, 0, 0)
    {
      pairs := AddTeamPairs(teams, t, namesPerTeam[t], pairs);
    }
  }

  /** The two inner loops of `pair_set`: add the pairs of team t. */
  method AddTeamPairs(teams: seq<Team>, t: nat, names: seq<string>, pairs: set<Pair>) returns (pairs': set<Pair>)
    requires t < |teams| && names == Names(teams[t]) && pairs == PairsBefore(teams, t, 0, 0)
    ensures pairs' == PairsBefore(teams, t + 1, 0, 0)
  {
    pairs' := pairs;
    for i := 0 to |names|
      invariant pairs' == PairsBefore(teams, t, i, 0)
    {
      PairsBeforeSame(teams, t, i, 0, t, i, i + 1);
      for j := i + 1 to |names|
        invariant pairs' == PairsBefore(teams, t, i, j)
      {
        PairsBeforeNext(teams, t, i, j);
        pairs' := pairs' + {{names[i], names[j]}};
      }
      PairsBeforeSame(teams, t, i, |names|, t, i + 1, 0);
    }
    PairsBeforeSame(teams, t, |names|, 0, t + 1, 0, 0);
  }

  /** How many pairs of team-mates two pair sets share: none exactly when they are disjoint. */
  function Shared(p: set<Pair>, q: set<Pair>): (n: nat)
    ensures n <= |p| && n <= |q|
    ensures n == 0 <==> p !! q
  {
    var both := p * q;
    SubsetCard(both, p);
    SubsetCard(both, q);
    if |both| == 0 then
      assert forall x :: x in p ==> x !in both;
      0
    else
      var x :| x in both;
      |both|
  }

  /** A subset is no larger than its superset. */
  lemma SubsetCard<T>(a: set<T>, b: set<T>)
    requires a <= b
    ensures |a| <= |b|
  {
    assert b == a + (b - a);
  }

  // ---------------------------------------------------------------------
  // Choosing the two options

  /** Pair (a, b) comes before pair (i, j) in the scanning order of the nested loops. */
  predicate Before(a: nat, b: nat, i: nat, j: nat)
  {
    a < i || (a == i && b < j)
  }

  /**
   * Among the pairs of candidates scanned before (ci, cj), the pair (i, j)
   * has the least overlap, and every pair scanned before it has strictly more.
   */
  predicate LeastSoFar<T>(sets: seq<T>, overlap: (T, T) -> nat, ci: nat, cj: nat, i: nat, j: nat)
  {
    && i < j < |sets| && Before(i, j, ci, cj)
    && forall a, b :: 0 <= a < b < |sets| && Before(a, b, ci, cj) ==>
         && overlap(sets[i], sets[j]) <= overlap(sets[a], sets[b])
         && (Before(a, b, i, j) ==> overlap(sets[i], sets[j]) < overlap(sets[a], sets[b]))
  }

  /** (i, j) is the first pair, in scanning order, of least overlap. */
  predicate FirstLeast<T>(sets: seq<T>, overlap: (T, T) -> nat, i: nat, j: nat)
  {
    LeastSoFar(sets, overlap, |sets|, 0, i, j)
  }

  /**
   * The two-candidates-or-more branch: compute each candidate's pair set,
   * then pick the first pair of candidates of least overlap.
   */
  method SelectPair(cands: seq<seq<Team>>) returns (first: seq<Team>, second: seq<Team>, bi: nat, bj: nat)
    requires |cands| >= 2
    ensures FirstLeast(MapSeq(cands, PairsOf), Shared, bi, bj) && first == cands[bi] && second == cands[bj]
  {
    var pairSets := [];
    for k := 0 to |cands|
      invariant |pairSets| == k && forall m :: 0 <= m < k ==> pairSets[m] == PairsOf(cands[m])
    {
      var ps := PairSet(cands[k]);
      pairSets := pairSets + [ps];
    }
    assert pairSets == MapSeq(cands, PairsOf);
    var i, j := LeastOverlap(pairSets, Shared);
    first, second := cands[i], cands[j];
    bi, bj := i, j;
  }

  /**
   * Scan the pairs i < j in order and keep the first one of least overlap:
   * the comparison is strict, so a later pair of equal overlap does not
   * replace it.
   */
  method LeastOverlap<T>(sets: seq<T>, overlap: (T, T) -> nat) returns (bi: nat, bj: nat)
    requires |sets| >= 2
    ensures FirstLeast(sets, overlap, bi, bj)
  {
    bi, bj := 0, 1;
    var found := false;  // false while `best_overlap` is still infinite
    var best := 0;
    for i := 0 to |sets|
      invariant found <==> i > 0
      invariant found ==> LeastSoFar(sets, overlap, i, 0, bi, bj) && best == overlap(sets[bi], sets[bj])
    {
      found, best, bi, bj := ScanRow(sets, overlap, i, found, best, bi, bj);
    }
  }

  /** The inner loop: scan the pairs (i, j) for j > i, updating the best pair so far. */
  method ScanRow<T>(sets: seq<T>, overlap: (T, T) -> nat, i: nat, found: bool, best: nat, bi: nat, bj: nat)
    returns (found': bool, best': nat, bi': nat, bj': nat)
    requires i < |sets| && (found <==> i > 0)
    requires found ==> LeastSoFar(sets, overlap, i, 0, bi, bj) && best == overlap(sets[bi], sets[bj])
    ensures (found' <==> i + 1 < |sets| || i > 0)
    ensures found' ==> LeastSoFar(sets, overlap, i + 1, 0, bi', bj') && best' == overlap(sets[bi'], sets[bj'])
  {
    found', best', bi', bj' := found, best, bi, bj;
    if found {
      RowStart(sets, overlap, i, bi, bj);
    }
    for j := i + 1 to |sets|
      invariant found' <==> (i > 0 || j > i + 1)
      invariant found' ==> LeastSoFar(sets, overlap, i, j, bi', bj') && best' == overlap(sets[bi'], sets[bj'])
    {
      var o := overlap(sets[i], sets[j]);
      if !found' || o < best' {
        ScanUpdate(sets, overlap, i, j, bi', bj', found');
        found', best' := true, o;
        bi', bj' := i, j;
      } else {
        ScanKeep(sets, overlap, i, j, bi', bj');
      }
    }
    if found' {
      RowEnd(sets, overlap, i, bi', bj');
    }
  }

  /** Nothing is scanned between the start of row i and its first pair (i, i + 1). */
  lemma RowStart<T>(sets: seq<T>, overlap: (T, T) -> nat, i: nat, bi: nat, bj: nat)
    requires LeastSoFar(sets, overlap, i, 0, bi, bj)
    ensures LeastSoFar(sets, overlap, i, i + 1, bi, bj)
  {
    forall a, b | 0 <= a < b < |sets| && Before(a, b, i, i + 1)
      ensures Before(a, b, i, 0)
    {
    }
  }

  /** The end of row i is the start of row i + 1. */
  lemma RowEnd<T>(sets: seq<T>, overlap: (T, T) -> nat, i: nat, bi: nat, bj: nat)
    requires LeastSoFar(sets, overlap, i, |sets|, bi, bj)
    ensures LeastSoFar(sets, overlap, i + 1, 0, bi, bj)
  {
    forall a, b | 0 <= a < b < |sets| && Before(a, b, i + 1, 0)
      ensures Before(a, b, i, |sets|)
    {
    }
  }

  /** Scanning (i, j) when it beats the best so far, or is the very first pair. */
  lemma ScanUpdate<T>(sets: seq<T>, overlap: (T, T) -> nat, i: nat, j: nat, bi: nat, bj: nat, found: bool)
    requires i < j < |sets|
    requires found ==> LeastSoFar(sets, overlap, i, j, bi, bj) && overlap(sets[i], sets[j]) < overlap(sets[bi], sets[bj])
    requires !found ==> i == 0 && j == 1
    ensures LeastSoFar(sets, overlap, i, j + 1, i, j)
  {
  }

  /** Scanning (i, j) when it does not beat the best so far. */
  lemma ScanKeep<T>(sets: seq<T>, overlap: (T, T) -> nat, i: nat, j: nat, bi: nat, bj: nat)
    requires i < j < |sets| && LeastSoFar(sets, overlap, i, j, bi, bj)
    requires overlap(sets[bi], sets[bj]) <= overlap(sets[i], sets[j])
    ensures LeastSoFar(sets, overlap, i, j + 1, bi, bj)
  {
  }

  // ---------------------------------------------------------------------
  // Collecting distinct candidates

  /** The keys of a list of runs (`seen`). */
  function KeySet<T, K(==)>(xs: seq<T>, key: T -> K): set<K>
  {
    if |xs| == 0 then {} else KeySet(xs[..|xs| - 1], key) + {key(xs[|xs| - 1])}
  }

  /** What the dedup loop keeps of a sequence of runs: each run whose key is new. */
  function KeepDistinct<T, K(==)>(runs: seq<T>, key: T -> K): (kept: seq<T>)
    ensures |kept| <= |runs|
  {
    if |runs| == 0 then []
    else
      var kept := KeepDistinct(runs[..|runs| - 1], key);
      var run := runs[|runs| - 1];
      if key(run) in KeySet(kept, key) then kept else kept + [run]
  }

  /** One more run: its key joins the set, and it is kept when its key is new. */
  lemma KeepOneMore<T, K>(runs: seq<T>, run: T, key: T -> K)
    ensures var kept := KeepDistinct(runs, key);
      && KeySet(kept + [run], key) == KeySet(kept, key) + {key(run)}
      && KeepDistinct(runs + [run], key) == if key(run) in KeySet(kept, key) then kept else kept + [run]
  {
    var kept := KeepDistinct(runs, key);
    assert (kept + [run])[..|kept|] == kept;
    assert (runs + [run])[..|runs|] == runs;
  }

  lemma {:induction false} KeySetIff<T, K>(xs: seq<T>, key: T -> K, k: K)
    ensures k in KeySet(xs, key) <==> exists i :: 0 <= i < |xs| && key(xs[i]) == k
  {
    if |xs| > 0 {
      var init := xs[..|xs| - 1];
      KeySetIff(init, key, k);
      if exists i :: 0 <= i < |init| && key(init[i]) == k {
        var i :| 0 <= i < |init| && key(init[i]) == k;
        assert xs[i] == init[i];
      }
      if exists i :: 0 <= i < |xs| && key(xs[i]) == k {
        var i :| 0 <= i < |xs| && key(xs[i]) == k;
        if i < |init| {
          assert xs[i] == init[i];
        }
      }
    }
  }

  /** The kept runs have pairwise different keys. */
  lemma {:induction false} KeptKeysDistinct<T, K>(runs: seq<T>, key: T -> K)
    ensures forall i, j :: 0 <= i < j < |KeepDistinct(runs, key)| ==>
      key(KeepDistinct(runs, key)[i]) != key(KeepDistinct(runs, key)[j])
  {
    if |runs| > 0 {
      var init := runs[..|runs| - 1];
      KeptKeysDistinct(init, key);
      var prev := KeepDistinct(init, key);
      var run := runs[|runs| - 1];
      KeySetIff(prev, key, key(run));
      var kept := KeepDistinct(runs, key);
      if key(run) !in KeySet(prev, key) {
        assert kept == prev + [run];
        forall i, j | 0 <= i < j < |kept| ensures key(kept[i]) != key(kept[j]) {
          if j == |prev| {
            assert kept[i] == prev[i] && kept[j] == run;
          } else {
            assert kept[i] == prev[i] && kept[j] == prev[j];
          }
        }
      }
    }
  }

  /** Each kept run is one of the runs, and the first run is always kept. */
  lemma {:induction false} KeptFromRuns<T, K>(runs: seq<T>, key: T -> K)
    ensures var kept := KeepDistinct(runs, key);
      && (forall i :: 0 <= i < |kept| ==> kept[i] in runs)
      && (|runs| > 0 ==> |kept| > 0 && kept[0] == runs[0])
  {
    if |runs| > 0 {
      var init := runs[..|runs| - 1];
      var prev := KeepDistinct(init, key);
      var run := runs[|runs| - 1];
      KeptFromRuns(init, key);
      assert runs == init + [run];
      var kept := KeepDistinct(runs, key);
      forall i | 0 <= i < |kept| ensures kept[i] in runs {
        if i < |prev| {
          assert kept[i] == prev[i] && prev[i] in init;
        } else {
          assert kept[i] == run;
        }
      }
      if |init| > 0 {
        assert kept[0] == prev[0] == init[0] == runs[0];
      }
    }
  }

  /** The key of every run is the key of a kept run: nothing new is dropped. */
  lemma {:induction false} KeptCoversRuns<T, K>(runs: seq<T>, key: T -> K)
    ensures var kept := KeepDistinct(runs, key);
      forall k :: 0 <= k < |runs| ==> key(runs[k]) in KeySet(kept, key)
  {
    if |runs| > 0 {
      var init := runs[..|runs| - 1];
      var prev := KeepDistinct(init, key);
      var run := runs[|runs| - 1];
      KeptCoversRuns(init, key);
      var kept := KeepDistinct(runs, key);
      if key(run) !in KeySet(prev, key) {
        assert kept[..|kept| - 1] == prev;
      }
      forall k | 0 <= k < |runs| ensures key(runs[k]) in KeySet(kept, key) {
        if k < |init| {
          assert runs[k] == init[k];
        }
      }
    }
  }

  /** No two kept candidates are the same partition of names. */
  lemma CandidatesDiffer(runs: seq<seq<Team>>)
    ensures var kept := KeepDistinct(runs, Canonical);
      forall i, j :: 0 <= i < j < |kept| ==> Bags(kept[i]) != Bags(kept[j])
  {
    KeptKeysDistinct(runs, Canonical);
    var kept := KeepDistinct(runs, Canonical);
    forall i, j | 0 <= i < j < |kept| ensures Bags(kept[i]) != Bags(kept[j]) {
      CanonicalIff(kept[i], kept[j]);
    }
  }

  /** A distribution the balancer can return: valid, and made of its roster's players. */
  predicate Returnable(balancer: Balancer.TeamBalancer, dist: seq<Team>)
    requires balancer.Ready()
  {
    balancer.Valid(Some(dist)) && balancer.DrawnFromRoster(dist)
  }

  /** Every run is a distribution the balancer can return. */
  predicate AllValid(balancer: Balancer.TeamBalancer, runs: seq<seq<Team>>)
    requires balancer.Ready()
  {
    forall i :: 0 <= i < |runs| ==> Returnable(balancer, runs[i])
  }

  /** `key = canonical(dist)`, then keep the run when its key has not been seen. */
  method Remember<K(==)>(candidates: seq<seq<Team>>, seen: set<K>, dist: seq<Team>, ghost runs: seq<seq<Team>>, canonical: seq<Team> -> K)
    returns (candidates': seq<seq<Team>>, seen': set<K>)
    requires candidates == KeepDistinct(runs, canonical) && seen == KeySet(candidates, canonical)
    ensures candidates' == KeepDistinct(runs + [dist], canonical) && seen' == KeySet(candidates', canonical)
    ensures |candidates'| <= |candidates| + 1
  {
    KeepOneMore(runs, dist, canonical);
    candidates', seen' := candidates, seen;
    var key := canonical(dist);
    if key !in seen {
      candidates' := candidates + [dist];
      seen' := seen + {key};
    }
  }

  /** One seeded run: `random.seed(seed)`, then `balancer.distribute_players()`. */
  method SeededRun(balancer: Balancer.TeamBalancer, rng: Rng.Random, seed: int)
    returns (dist: Result<seq<Team>>, ghost start: Rng.State)
    requires balancer.Ready()
    modifies rng
    ensures start == Rng.State(seed, 0)
    ensures dist.Ok? ==> balancer.Valid(Some(dist.value)) && balancer.DrawnFromRoster(dist.value)
    ensures dist.Err? ==> dist.error == NoValidDistribution
    ensures DefensiveCount(balancer.players) < 2 * balancer.numTeams ==> dist.Err?
    ensures rng.state.seed == seed
  {
    rng.Seed(seed);
    start := rng.state;
    ghost var attempts, scores, chosen;
    dist, attempts, scores, chosen := balancer.DistributePlayers(rng);
  }

  /**
   * The seeded dedup loop: run k starts from the generator seeded with
   * 12345 + 97 * k; a failing run aborts the loop; the loop ends
   * after Runs runs or once MaxCandidates distinct candidates exist; the
   * generator's state is restored on every exit.
   */
  method CollectCandidates(balancer: Balancer.TeamBalancer, rng: Rng.Random)
    returns (r: Result<seq<seq<Team>>>, ghost runs: seq<seq<Team>>, ghost starts: seq<Rng.State>)
    requires balancer.Ready()
    modifies rng
    ensures rng.state == old(rng.state)
    ensures |starts| == (if r.Ok? then |runs| else |runs| + 1) <= Runs
    ensures starts == SeededStates(|starts|)
    ensures AllValid(balancer, runs)
    ensures r.Err? ==> r.error == NoValidDistribution
    ensures r.Ok? ==> r.value == KeepDistinct(runs, Canonical) && |runs| > 0
    ensures r.Ok? ==> |runs| == Runs || |r.value| == MaxCandidates
    ensures |runs| > 0 ==> |KeepDistinct(runs[..|runs| - 1], Canonical)| < MaxCandidates
    ensures DefensiveCount(balancer.players) < 2 * balancer.numTeams ==> r.Err? && runs == []
  {
    var state := rng.GetState();
    var failed, candidates;
    failed, candidates, runs, starts := DedupRuns(balancer, rng, Canonical);
    rng.SetState(state);
    r := if failed then Err(NoValidDistribution) else Ok(candidates);
  }

  /**
   * What the dedup loop knows after k successful runs (and one more that
   * failed, when `failed`): the kept candidates and their keys, the seeds
   * used, and the loop still going before the last run.
   */
  ghost predicate Progress<K>(canonical: seq<Team> -> K, failed: bool, k: nat,
                              candidates: seq<seq<Team>>, seen: set<K>, runs: seq<seq<Team>>, starts: seq<Rng.State>)
  {
    && k == |runs| <= Runs && |starts| == (if failed then k + 1 else k) <= Runs
    && candidates == KeepDistinct(runs, canonical) && seen == KeySet(candidates, canonical)
    && |candidates| <= MaxCandidates
    && starts == SeededStates(|starts|)
    && (|runs| > 0 ==> |KeepDistinct(runs[..|runs| - 1], canonical)| < MaxCandidates)
  }

  /**
   * The loop of the dedup: seeded runs 0, 1, ... until one fails, Runs runs
   * are done, or MaxCandidates distinct candidates are kept.
   */
  method DedupRuns<K(==)>(balancer: Balancer.TeamBalancer, rng: Rng.Random, canonical: seq<Team> -> K)
    returns (failed: bool, candidates: seq<seq<Team>>, ghost runs: seq<seq<Team>>, ghost starts: seq<Rng.State>)
    requires balancer.Ready()
    modifies rng
    ensures |starts| == (if failed then |runs| + 1 else |runs|) <= Runs
    ensures starts == SeededStates(|starts|)
    ensures AllValid(balancer, runs)
    ensures !failed ==> candidates == KeepDistinct(runs, canonical) && |runs| > 0
    ensures !failed ==> |runs| == Runs || |candidates| == MaxCandidates
    ensures |runs| > 0 ==> |KeepDistinct(runs[..|runs| - 1], canonical)| < MaxCandidates
    ensures DefensiveCount(balancer.players) < 2 * balancer.numTeams ==> failed && runs == []
  {
    candidates := [];
    var seen: set<K> := {};
    runs, starts := [], [];
    failed := false;
    var k := 0;
    while k < Runs && |candidates| < MaxCandidates && !failed
      invariant Progress(canonical, failed, k, candidates, seen, runs, starts)
      invariant AllValid(balancer, runs)
      invariant DefensiveCount(balancer.players) < 2 * balancer.numTeams ==> runs == []
      decreases Runs - k, if failed then 0 else 1
    {
      failed, k, candidates, seen, runs, starts := CollectOne(balancer, rng, k, candidates, seen, runs, starts, canonical);
    }
  }

  /** One pass of the dedup loop: seeded run k, then remember its result when it is new. */
  method CollectOne<K(==)>(balancer: Balancer.TeamBalancer, rng: Rng.Random, k: nat,
                           candidates: seq<seq<Team>>, seen: set<K>,
                           ghost runs: seq<seq<Team>>, ghost starts: seq<Rng.State>, canonical: seq<Team> -> K)
    returns (failed: bool, k': nat, candidates': seq<seq<Team>>, seen': set<K>,
             ghost runs': seq<seq<Team>>, ghost starts': seq<Rng.State>)
    requires balancer.Ready() && k < Runs && |candidates| < MaxCandidates
    requires Progress(canonical, false, k, candidates, seen, runs, starts) && AllValid(balancer, runs)
    modifies rng
    ensures k' == (if failed then k else k + 1)
    ensures Progress(canonical, failed, k', candidates', seen', runs', starts') && AllValid(balancer, runs')
    ensures DefensiveCount(balancer.players) < 2 * balancer.numTeams ==> failed && runs' == runs
  {
    var dist;
    ghost var start;
    dist, start := SeededRun(balancer, rng, RunSeed(k));
    starts' := starts + [start];
    failed, k', candidates', seen', runs' := dist.Err?, k, candidates, seen, runs;
    if failed {
      ProgressFail(canonical, k, candidates, seen, runs, starts);
    } else {
      candidates', seen' := Remember(candidates, seen, dist.value, runs, canonical);
      ProgressStep(canonical, k, candidates, seen, runs, starts, dist.value, candidates', seen');
      runs' := runs + [dist.value];
      assert runs'[..|runs|] == runs;
      k' := k + 1;
    }
  }

  /** A failing run adds its seed and nothing else. */
  lemma ProgressFail<K>(canonical: seq<Team> -> K, k: nat,
                        candidates: seq<seq<Team>>, seen: set<K>, runs: seq<seq<Team>>, starts: seq<Rng.State>)
    requires k < Runs
    requires Progress(canonical, false, k, candidates, seen, runs, starts)
    ensures Progress(canonical, true, k, candidates, seen, runs, starts + [Rng.State(RunSeed(k), 0)])
  {
    var starts' := starts + [Rng.State(RunSeed(k), 0)];
    assert |starts'| == k + 1 && starts' == SeededStates(k + 1);
  }

  /** A successful run adds its seed and its result, remembered when new. */
  lemma ProgressStep<K>(canonical: seq<Team> -> K, k: nat,
                        candidates: seq<seq<Team>>, seen: set<K>, runs: seq<seq<Team>>, starts: seq<Rng.State>,
                        dist: seq<Team>, candidates': seq<seq<Team>>, seen': set<K>)
    requires k < Runs && |candidates| < MaxCandidates
    requires Progress(canonical, false, k, candidates, seen, runs, starts)
    requires candidates' == KeepDistinct(runs + [dist], canonical) && seen' == KeySet(candidates', canonical)
    requires |candidates'| <= |candidates| + 1
    ensures Progress(canonical, false, k + 1, candidates', seen', runs + [dist], starts + [Rng.State(RunSeed(k), 0)])
  {
    assert (runs + [dist])[..|runs|] == runs;
  }

  /**
   * `_build_balance_context` up to the two chosen options: one candidate is
   * offered twice; with more, the first pair of least overlap is offered.
   * Every option is a valid distribution of the roster, and the generator's
   * state is as before.
   */
  method BuildBalanceOptions(players: seq<Player>, numTeams: nat, rng: Rng.Random)
    returns (r: Result<(seq<Team>, seq<Team>)>, ghost runs: seq<seq<Team>>, ghost starts: seq<Rng.State>,
             ghost bi: nat, ghost bj: nat)
    requires numTeams > 0
    modifies rng
    ensures rng.state == old(rng.state)
    ensures |starts| == (if r.Ok? then |runs| else |runs| + 1) <= Runs
    ensures starts == SeededStates(|starts|)
    ensures r.Ok? ==> |runs| == Runs || |KeepDistinct(runs, Canonical)| == MaxCandidates
    ensures |runs| > 0 ==> |KeepDistinct(runs[..|runs| - 1], Canonical)| < MaxCandidates
    ensures forall i :: 0 <= i < |runs| ==>
      && |runs[i]| == numTeams && IsValidDistribution(runs[i], |players| / numTeams)
      && Members(runs[i]) <= multiset(players)
      && (|players| % numTeams == 0 ==> Members(runs[i]) == multiset(players))
    ensures r.Err? ==> r.error == NoValidDistribution
    ensures DefensiveCount(players) < 2 * numTeams ==> r.Err?
    ensures r.Ok? ==> var cands := KeepDistinct(runs, Canonical);
      && 0 < |runs| <= Runs && bi < |cands| && bj < |cands|
      && r.value == (cands[bi], cands[bj])
      && (|cands| == 1 ==> bi == bj == 0)
      && (|cands| >= 2 ==> FirstLeast(MapSeq(cands, PairsOf), Shared, bi, bj))
    ensures r.Ok? ==>
      && |r.value.0| == numTeams && IsValidDistribution(r.value.0, |players| / numTeams)
      && |r.value.1| == numTeams && IsValidDistribution(r.value.1, |players| / numTeams)
    ensures r.Ok? ==> Members(r.value.0) <= multiset(players) && Members(r.value.1) <= multiset(players)
    ensures r.Ok? && |players| % numTeams == 0 ==>
      Members(r.value.0) == multiset(players) && Members(r.value.1) == multiset(players)
  {
    var balancer := new Balancer.TeamBalancer(players, numTeams);
    var collected;
    collected, runs, starts := CollectCandidates(balancer, rng);
    RunsOfRoster(balancer, runs);
    bi, bj := 0, 0;
    if collected.Err? {
      r := Err(collected.error);
      return;
    }
    var candidates := collected.value;
    KeptFromRuns(runs, Canonical);
    if |candidates| == 0 {
      r := Err(NoBalancedOptions);
      return;
    }
    var first, second;
    first, second, bi, bj := ChooseOptions(candidates);
    KeptValid(balancer, runs, bi);
    KeptValid(balancer, runs, bj);
    r := Ok((first, second));
  }

  /** Every run, valid for the balancer, is a valid distribution of its roster. */
  lemma RunsOfRoster(balancer: Balancer.TeamBalancer, runs: seq<seq<Team>>)
    requires balancer.Ready() && AllValid(balancer, runs)
    ensures forall i :: 0 <= i < |runs| ==>
      && |runs[i]| == balancer.numTeams && IsValidDistribution(runs[i], |balancer.players| / balancer.numTeams)
      && Members(runs[i]) <= multiset(balancer.players)
      && (|balancer.players| % balancer.numTeams == 0 ==> Members(runs[i]) == multiset(balancer.players))
  {
    forall i | 0 <= i < |runs|
      ensures |runs[i]| == balancer.numTeams && IsValidDistribution(runs[i], |balancer.players| / balancer.numTeams)
    {
      assert Returnable(balancer, runs[i]);
    }
  }

  /** One candidate is offered twice; with more, the first pair of least overlap. */
  method ChooseOptions(cands: seq<seq<Team>>) returns (first: seq<Team>, second: seq<Team>, bi: nat, bj: nat)
    requires |cands| > 0
    ensures bi < |cands| && bj < |cands| && first == cands[bi] && second == cands[bj]
    ensures |cands| == 1 ==> bi == bj == 0
    ensures |cands| >= 2 ==> FirstLeast(MapSeq(cands, PairsOf), Shared, bi, bj)
  {
    if |cands| == 1 {
      first, second, bi, bj := cands[0], cands[0], 0, 0;
    } else {
      first, second, bi, bj := SelectPair(cands);
    }
  }

  /** Every kept candidate is valid and drawn from the roster, since every run is. */
  lemma KeptValid(balancer: Balancer.TeamBalancer, runs: seq<seq<Team>>, c: nat)
    requires balancer.Ready() && AllValid(balancer, runs) && c < |KeepDistinct(runs, Canonical)|
    ensures Returnable(balancer, KeepDistinct(runs, Canonical)[c])
  {
    KeptFromRuns(runs, Canonical);
    var kept := KeepDistinct(runs, Canonical);
    var i :| 0 <= i < |runs| && runs[i] == kept[c];
  }
}
