/**
 * The participant model of the balancer: a player's position, the skill tier
 * derived from the rating, and the "defensive" test used by every fairness rule.
 */
module Players {

  /** Playing position; DEFENSE and VERSATILE count as defensive. */
  datatype Position = Attack | Midfield | Defense | Versatile

  /** Skill tier, from best to worst. */
  datatype Category = Elite | Good | Regular | Beginner

  /** A player: ratings are whole numbers (1 to 7 at the roster's boundary). */
  datatype Player = Player(name: string, rating: int, position: Position)
  {
    /** The tier of this player's rating: 6 and up, 5, 3 and 4, below 3. */
    function Tier(): (c: Category)
      ensures c == Elite <==> rating >= 6
      ensures c == Good <==> 5 <= rating < 6
      ensures c == Regular <==> 3 <= rating < 5
      ensures c == Beginner <==> rating < 3
    {
      if rating >= 6 then Elite
      else if rating >= 5 then Good
      else if rating >= 3 then Regular
      else Beginner
    }
  }

  /** 0 for the best tier, 3 for the worst. */
  function Rank(c: Category): nat
  {
    match c
    case Elite => 0
    case Good => 1
    case Regular => 2
    case Beginner => 3
  }

  /** A player who can fill one of a team's two defensive slots. */
  predicate IsDefensive(p: Player)
  {
    p.position == Defense || p.position == Versatile
  }

  /** A better rating never puts a player in a worse tier. */
  lemma TierMonotone(p: Player, q: Player)
    requires p.rating <= q.rating
    ensures Rank(q.Tier()) <= Rank(p.Tier())
  {
  }

  /**
   * The rating buckets used when dealing players (elite: 6 and up, medium:
   * from 3 to below 6, weak: below 3) are unions of tiers.
   */
  lemma BucketsAreTiers(p: Player)
    ensures p.rating >= 6 <==> p.Tier() == Elite
    ensures 3 <= p.rating < 6 <==> p.Tier() == Good || p.Tier() == Regular
    ensures p.rating < 3 <==> p.Tier() == Beginner
  {
  }
}
