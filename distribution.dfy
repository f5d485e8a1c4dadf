/**
 * Pure facts the search relies on: who is in a distribution, how rosters are
 * split into pools, how the round-robin deal spreads elite players, how one
 * pass of the greedy fill changes team sizes, and which candidate the fill
 * picks.
 */
module Distribution {
  import opened Players
  import opened Validity

  // ---------------------------------------------------------------------
  // Members and sizes

  /** Everybody placed in a distribution, counted with multiplicity. */
  function Members(teams: seq<Team>): multiset<Player>
  {
    if |teams| == 0 then multiset{} else multiset(teams[0]) + Members(teams[1..])
  }

  /** Replacing team t by x swaps its members for those of x. */
  lemma {:induction false} MembersUpdate(teams: seq<Team>, t: nat, x: Team)
    requires t < |teams|
    ensures Members(teams[t := x]) + multiset(teams[t]) == Members(teams) + multiset(x)
  {
    var u := teams[t := x];
    assert Members(u) == multiset(u[0]) + Members(u[1..]);
    assert Members(teams) == multiset(teams[0]) + Members(teams[1..]);
    if t > 0 {
      assert u[0] == teams[0];
      assert u[1..] == teams[1..][t - 1 := x];
      assert teams[1..][t - 1] == teams[t];
      MembersUpdate(teams[1..], t - 1, x);
      calc {
        Members(u) + multiset(teams[t]);
        multiset(teams[0]) + (Members(teams[1..][t - 1 := x]) + multiset(teams[t]));
        multiset(teams[0]) + (Members(teams[1..]) + multiset(x));
        Members(teams) + multiset(x);
      }
    } else {
      assert u[1..] == teams[1..];
    }
  }

  /** Appending p to team t adds exactly p to the members. */
  lemma AppendToTeam(teams: seq<Team>, t: nat, p: Player)
    requires t < |teams|
    ensures Members(teams[t := teams[t] + [p]]) == Members(teams) + multiset{p}
  {
    var u := teams[t := teams[t] + [p]];
    MembersUpdate(teams, t, teams[t] + [p]);
    assert multiset(teams[t] + [p]) == multiset(teams[t]) + multiset{p};
    assert Members(u) + multiset(teams[t]) == (Members(teams) + multiset{p}) + multiset(teams[t]);
    forall q ensures Members(u)[q] == (Members(teams) + multiset{p})[q] {
      assert (Members(u) + multiset(teams[t]))[q] == ((Members(teams) + multiset{p}) + multiset(teams[t]))[q];
    }
  }

  /** Team sizes, in order. */
  function Sizes(teams: seq<Team>): (s: seq<nat>)
    ensures |s| == |teams| && forall i :: 0 <= i < |teams| ==> s[i] == |teams[i]|
  {
    seq(|teams|, i requires 0 <= i < |teams| => |teams[i]|)
  }

  function Sum(xs: seq<nat>): nat
  {
    if |xs| == 0 then 0 else xs[0] + Sum(xs[1..])
  }

  /** The number of members is the sum of the team sizes. */
  lemma {:induction false} MembersCount(teams: seq<Team>)
    ensures |Members(teams)| == Sum(Sizes(teams))
  {
    if |teams| > 0 {
      MembersCount(teams[1..]);
      assert Sizes(teams)[1..] == Sizes(teams[1..]);
    }
  }

  /** Free slots left below the capacity `cap`, over all teams. */
  function Room(sizes: seq<nat>, cap: nat): nat
  {
    if |sizes| == 0 then 0
    else (if sizes[0] < cap then cap - sizes[0] else 0) + Room(sizes[1..], cap)
  }

  /** Some team is below the capacity. */
  predicate HasRoom(sizes: seq<nat>, cap: nat)
  {
    exists i :: 0 <= i < |sizes| && sizes[i] < cap
  }

  /** With no team over capacity, the free slots are the capacity left unused. */
  lemma {:induction false} RoomBelowCap(sizes: seq<nat>, cap: nat)
    requires forall i :: 0 <= i < |sizes| ==> sizes[i] <= cap
    ensures Room(sizes, cap) + Sum(sizes) == |sizes| * cap
  {
    if |sizes| > 0 {
      RoomBelowCap(sizes[1..], cap);
    }
  }

  /** Some free slot exists exactly when some team is below capacity. */
  lemma {:induction false} RoomIffHasRoom(sizes: seq<nat>, cap: nat)
    ensures Room(sizes, cap) > 0 <==> HasRoom(sizes, cap)
  {
    if |sizes| > 0 {
      var rest := sizes[1..];
      RoomIffHasRoom(rest, cap);
      if HasRoom(rest, cap) {
        var i :| 0 <= i < |rest| && rest[i] < cap;
        assert sizes[i + 1] < cap;
      }
      if HasRoom(sizes, cap) {
        var i :| 0 <= i < |sizes| && sizes[i] < cap;
        if i > 0 { assert rest[i - 1] < cap; }
      }
    }
  }

  /** Teams that are all at capacity and no more hold |sizes| * cap players. */
  lemma {:induction false} SumAtCap(sizes: seq<nat>, cap: nat)
    requires forall i :: 0 <= i < |sizes| ==> sizes[i] <= cap
    ensures Sum(sizes) == |sizes| * cap <==> forall i :: 0 <= i < |sizes| ==> sizes[i] == cap
  {
    RoomBelowCap(sizes, cap);
    RoomIffHasRoom(sizes, cap);
  }

  // ---------------------------------------------------------------------
  // Splitting the roster into pools

  /** The lists an attempt sorts players into. */
  datatype Pool = Defenders | Outfield | Elites | Mediums | Weaks

  /** Which players each list comprehension of an attempt keeps. */
  predicate InPool(p: Player, pool: Pool)
  {
    match pool
    case Defenders => IsDefensive(p)
    case Outfield => !IsDefensive(p)
    case Elites => p.rating >= 6
    case Mediums => 3 <= p.rating < 6
    case Weaks => p.rating < 3
  }

  /** The players of s that belong to `pool`, in their order in s. */
  function Filter(s: seq<Player>, pool: Pool): (r: seq<Player>)
    ensures forall i :: 0 <= i < |r| ==> InPool(r[i], pool)
    ensures |r| <= |s|
  {
    if |s| == 0 then []
    else Filter(s[..|s| - 1], pool) + (if InPool(s[|s| - 1], pool) then [s[|s| - 1]] else [])
  }

  /** Splitting into defensive and other players loses and duplicates nobody. */
  lemma {:induction false} DefensiveSplit(s: seq<Player>)
    ensures multiset(Filter(s, Defenders)) + multiset(Filter(s, Outfield)) == multiset(s)
    ensures |Filter(s, Defenders)| == DefensiveCount(s)
  {
    if |s| > 0 {
      DefensiveSplit(s[..|s| - 1]);
      FilterLast(s, Defenders);
      FilterLast(s, Outfield);
      LastOut(s);
    }
  }

  /** The elite, medium and weak pools split a list exactly. */
  lemma {:induction false} RatingSplit(s: seq<Player>)
    ensures multiset(Filter(s, Elites)) + multiset(Filter(s, Mediums)) + multiset(Filter(s, Weaks)) == multiset(s)
  {
    if |s| > 0 {
      RatingSplit(s[..|s| - 1]);
      FilterLast(s, Elites);
      FilterLast(s, Mediums);
      FilterLast(s, Weaks);
      LastOut(s);
    }
  }

  /** Filtering a non-empty list: filter its prefix, then keep or drop its last element. */
  lemma FilterLast(s: seq<Player>, pool: Pool)
    requires |s| > 0
    ensures multiset(Filter(s, pool)) ==
      multiset(Filter(s[..|s| - 1], pool)) + (if InPool(s[|s| - 1], pool) then multiset{s[|s| - 1]} else multiset{})
  {
  }

  /** A non-empty list is its prefix and its last element. */
  lemma LastOut(s: seq<Player>)
    requires |s| > 0
    ensures multiset(s) == multiset(s[..|s| - 1]) + multiset{s[|s| - 1]}
  {
    assert s == s[..|s| - 1] + [s[|s| - 1]];
  }

  /** A team made only of defensive players counts all of them. */
  lemma {:induction false} AllDefensive(team: Team)
    requires forall i :: 0 <= i < |team| ==> IsDefensive(team[i])
    ensures DefensiveCount(team) == |team|
  {
    if |team| > 0 {
      AllDefensive(team[..|team| - 1]);
    }
  }

  // ---------------------------------------------------------------------
  // Round-robin deal

  /** The players of s at positions i with i % n == t: what team t receives. */
  function Share(s: seq<Player>, n: nat, t: nat): seq<Player>
    requires n > 0
  {
    if |s| == 0 then []
    else Share(s[..|s| - 1], n, t) + (if (|s| - 1) % n == t then [s[|s| - 1]] else [])
  }

  /** Euclidean division of m + 1 from that of m. */
  lemma DivModNext(m: nat, n: nat)
    requires n > 0
    ensures m % n + 1 < n ==> (m + 1) % n == m % n + 1 && (m + 1) / n == m / n
    ensures m % n + 1 == n ==> (m + 1) % n == 0 && (m + 1) / n == m / n + 1
  {
    var q, r := m / n, m % n;
    assert m == n * q + r;
    if r + 1 < n {
      DivModUnique(m + 1, n, q, r + 1);
    } else {
      assert m + 1 == n * (q + 1) + 0;
      DivModUnique(m + 1, n, q + 1, 0);
    }
  }

  /** Quotient and remainder are determined by a == n * q + r with 0 <= r < n. */
  lemma DivModUnique(a: int, n: int, q: int, r: int)
    requires n > 0 && 0 <= r < n && a == n * q + r
    ensures a / n == q && a % n == r
  {
    var q', r' := a / n, a % n;
    assert n * (q - q') == r' - r;
    if q > q' {
      MulAtLeast(n, q - q');
    } else if q < q' {
      MulAtLeast(n, q' - q);
    }
  }

  lemma MulAtLeast(n: int, k: int)
    requires n > 0 && k >= 1
    ensures n * k >= n
  {
  }

  /** Team t of n receives |s| / n players, one more if t < |s| % n. */
  lemma {:induction false} ShareSize(s: seq<Player>, n: nat, t: nat)
    requires n > 0 && t < n
    ensures |Share(s, n, t)| == |s| / n + (if t < |s| % n then 1 else 0)
  {
    if |s| > 0 {
      var m := |s| - 1;
      ShareSize(s[..m], n, t);
      DivModNext(m, n);
    }
  }

  /** Dealing E <= n * c players round-robin gives no team of n more than c. */
  lemma ShareFits(e: nat, n: nat, c: nat, t: nat)
    requires n > 0 && t < n && e <= n * c
    ensures e / n + (if t < e % n then 1 else 0) <= c
  {
    var q, r := e / n, e % n;
    assert e == n * q + r;
    if q + (if t < r then 1 else 0) > c {
      if r > 0 {
        assert q >= c;
        MulMono(n, c, q);
      } else {
        assert q > c;
        MulMono(n, c + 1, q);
      }
    }
  }

  lemma MulMono(n: nat, a: int, b: int)
    requires a <= b
    ensures n * a <= n * b
  {
  }

  // ---------------------------------------------------------------------
  // One pass of the fill loop, on team sizes

  /** Team sizes and the size of the remaining pool. */
  datatype Fill = Fill(sizes: seq<nat>, pool: nat)

  /**
   * One pass of `for team in teams` in the fill loop: in order, every team
   * below `cap` takes one player while the pool lasts.
   */
  function RoundSizes(sizes: seq<nat>, cap: nat, pool: nat): (f: Fill)
    ensures |f.sizes| == |sizes| && f.pool <= pool
  {
    if |sizes| == 0 then Fill([], pool)
    else if sizes[0] < cap && pool > 0 then
      var r := RoundSizes(sizes[1..], cap, pool - 1);
      Fill([sizes[0] + 1] + r.sizes, r.pool)
    else
      var r := RoundSizes(sizes[1..], cap, pool);
      Fill([sizes[0]] + r.sizes, r.pool)
  }

  /** Processing a ++ b is processing a, then b with what is left of the pool. */
  lemma {:induction false} RoundSizesAppend(a: seq<nat>, b: seq<nat>, cap: nat, pool: nat)
    ensures RoundSizes(a + b, cap, pool) ==
      var ra := RoundSizes(a, cap, pool);
      var rb := RoundSizes(b, cap, ra.pool);
      Fill(ra.sizes + rb.sizes, rb.pool)
  {
    if |a| > 0 {
      assert (a + b)[1..] == a[1..] + b;
      var take := a[0] < cap && pool > 0;
      var p := if take then pool - 1 else pool;
      var x := if take then a[0] + 1 else a[0];
      RoundSizesAppend(a[1..], b, cap, p);
      var ra := RoundSizes(a[1..], cap, p);
      var rb := RoundSizes(b, cap, ra.pool);
      assert RoundSizes(a, cap, pool) == Fill([x] + ra.sizes, ra.pool);
      assert RoundSizes(a + b, cap, pool).sizes == [x] + (ra.sizes + rb.sizes);
      assert [x] + (ra.sizes + rb.sizes) == ([x] + ra.sizes) + rb.sizes;
    } else {
      assert a + b == b;
    }
  }

  /**
   * The pass after one more team: team t takes a player exactly when it is
   * below capacity and the pool is not empty.
   */
  lemma RoundStep(orig: seq<nat>, before: seq<nat>, after: seq<nat>, t: nat, cap: nat, pool: nat, p: nat, p': nat)
    requires t < |orig| && t < |before| && t < |after|
    requires Fill(before[..t], p) == RoundSizes(orig[..t], cap, pool)
    requires before[t] == orig[t] && after[..t] == before[..t]
    requires before[t] < cap && p > 0 ==> after[t] == before[t] + 1 && p' == p - 1
    requires !(before[t] < cap && p > 0) ==> after[t] == before[t] && p' == p
    ensures Fill(after[..t + 1], p') == RoundSizes(orig[..t + 1], cap, pool)
  {
    RoundSizesAppend(orig[..t], [orig[t]], cap, pool);
    assert orig[..t + 1] == orig[..t] + [orig[t]];
    assert after[..t + 1] == after[..t] + [after[t]];
    assert [orig[t]][1..] == [];
  }

  /**
   * A pass only gives players to teams below capacity, one each: every team
   * grows by at most one and never past the capacity, and every player taken
   * from the pool fills one free slot.
   */
  lemma {:induction false} RoundFillsRoom(sizes: seq<nat>, cap: nat, pool: nat)
    ensures var f := RoundSizes(sizes, cap, pool);
      && (forall i :: 0 <= i < |sizes| ==> sizes[i] <= f.sizes[i] <= sizes[i] + 1)
      && (forall i :: 0 <= i < |sizes| && f.sizes[i] > sizes[i] ==> f.sizes[i] <= cap)
      && pool - f.pool == Room(sizes, cap) - Room(f.sizes, cap)
      && Room(f.sizes, cap) <= Room(sizes, cap)
  {
    if |sizes| > 0 {
      var f := RoundSizes(sizes, cap, pool);
      if sizes[0] < cap && pool > 0 {
        RoundFillsRoom(sizes[1..], cap, pool - 1);
      } else {
        RoundFillsRoom(sizes[1..], cap, pool);
      }
      assert f.sizes[1..] == RoundSizes(sizes[1..], cap, if sizes[0] < cap && pool > 0 then pool - 1 else pool).sizes;
    }
  }

  /** A pass over teams of which one has room takes a player from a non-empty pool. */
  lemma {:induction false} RoundProgress(sizes: seq<nat>, cap: nat, pool: nat)
    requires HasRoom(sizes, cap) && pool > 0
    ensures RoundSizes(sizes, cap, pool).pool < pool
  {
    if !(sizes[0] < cap) {
      var i :| 0 <= i < |sizes| && sizes[i] < cap;
      assert sizes[1..][i - 1] < cap;
      RoundProgress(sizes[1..], cap, pool);
    }
  }

  /** A pass over teams that are all full changes nothing. */
  lemma {:induction false} RoundFixpoint(sizes: seq<nat>, cap: nat, pool: nat)
    requires !HasRoom(sizes, cap)
    ensures RoundSizes(sizes, cap, pool) == Fill(sizes, pool)
  {
    if |sizes| > 0 {
      assert !HasRoom(sizes[1..], cap) by {
        forall i | 0 <= i < |sizes| - 1 ensures sizes[1..][i] >= cap {
          assert sizes[i + 1] >= cap;
        }
      }
      RoundFixpoint(sizes[1..], cap, pool);
      assert [sizes[0]] + sizes[1..] == sizes;
    }
  }

  // ---------------------------------------------------------------------
  // The fill loop as written: `while remaining_players` around the pass

  /**
   * Team sizes and pool size after k iterations of the source's
   * `while remaining_players:` loop, or when it exits if that is sooner.
   */
  function AsWrittenFill(sizes: seq<nat>, cap: nat, pool: nat, k: nat): (f: Fill)
    ensures |f.sizes| == |sizes|
    decreases k
  {
    if k == 0 || pool == 0 then Fill(sizes, pool)
    else
      var r := RoundSizes(sizes, cap, pool);
      AsWrittenFill(r.sizes, cap, r.pool, k - 1)
  }

  /**
   * When the pool holds more players than there are free slots, the loop as
   * written never empties the pool, so `while remaining_players` never exits.
   */
  lemma {:induction false} AsWrittenFillNeverExits(sizes: seq<nat>, cap: nat, pool: nat, k: nat)
    requires pool > Room(sizes, cap)
    ensures AsWrittenFill(sizes, cap, pool, k).pool > 0
    decreases k
  {
    if k > 0 {
      var r := RoundSizes(sizes, cap, pool);
      RoundFillsRoom(sizes, cap, pool);
      AsWrittenFillNeverExits(r.sizes, cap, r.pool, k - 1);
    }
  }

  /**
   * After the defensive seeding and the elite deal, with no team above the
   * target size, a roster whose size is not a multiple of the team count
   * leaves more players in the pool than there are free slots.
   */
  lemma IndivisibleLeavesExcess(sizes: seq<nat>, cap: nat, pool: nat, n: nat)
    requires |sizes| > 0 && cap == n / |sizes| && n % |sizes| != 0
    requires forall i :: 0 <= i < |sizes| ==> sizes[i] <= cap
    requires Sum(sizes) + pool == n
    ensures pool > Room(sizes, cap)
  {
    RoomBelowCap(sizes, cap);
    assert n == |sizes| * cap + n % |sizes|;
  }

  /**
   * Five players (four defensive, one attacker) in two teams: after seeding,
   * both teams hold the 5 // 2 = 2 players they may take and one player is
   * left, and the loop as written spins forever without changing anything.
   */
  lemma FiveForTwoHangs(k: nat)
    ensures RoundSizes([2, 2], 2, 1) == Fill([2, 2], 1)
    ensures AsWrittenFill([2, 2], 2, 1, k) == Fill([2, 2], 1)
  {
    assert !HasRoom([2, 2], 2);
    RoundFixpoint([2, 2], 2, 1);
    if k > 0 {
      FiveForTwoHangs(k - 1);
    }
  }

  // ---------------------------------------------------------------------
  // The greedy pick

  function Abs(x: real): real { if x < 0.0 then -x else x }

  /** How far adding p would leave the team's strength from the target 4.0. */
  function Distance(team: Team, p: Player): (d: real)
    ensures d >= 0.0
  {
    Abs(Strength(team + [p]) - 4.0)
  }

  /**
   * `min(candidates, key=...)`: the position of the first candidate whose
   * distance is smallest.
   */
  function FirstClosest(team: Team, cands: seq<Player>): (k: nat)
    requires |cands| > 0
    ensures k < |cands|
    ensures forall j :: 0 <= j < |cands| ==> Distance(team, cands[k]) <= Distance(team, cands[j])
    ensures forall j :: 0 <= j < k ==> Distance(team, cands[j]) > Distance(team, cands[k])
  {
    if |cands| == 1 then 0
    else
      var k := FirstClosest(team, cands[..|cands| - 1]);
      if Distance(team, cands[|cands| - 1]) < Distance(team, cands[k]) then |cands| - 1 else k
  }

  /** `list.remove(x)`: drops the first occurrence of x. */
  function RemoveFirst(s: seq<Player>, x: Player): (r: seq<Player>)
    requires x in s
    ensures |r| == |s| - 1 && multiset(r) == multiset(s) - multiset{x}
  {
    assert s == [s[0]] + s[1..];
    if s[0] == x then s[1..] else [s[0]] + RemoveFirst(s[1..], x)
  }

  /** The candidates a sample of positions `idx` draws from the pool. */
  function Candidates(pool: seq<Player>, idx: seq<nat>): (c: seq<Player>)
    requires forall m :: 0 <= m < |idx| ==> idx[m] < |pool|
    ensures |c| == |idx|
  {
    seq(|idx|, m requires 0 <= m < |idx| => pool[idx[m]])
  }

  function Min(a: nat, b: nat): nat { if a <= b then a else b }
}
