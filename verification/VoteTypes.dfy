/** Vote types, the transition table of the change operation, and the retention class of a pair of votes. */
module VoteTypes {
  datatype VoteType = Empty | Yes | No | Crush | Compliment {
    predicate IsPositive() {
      Yes? || Crush? || Compliment?
    }

    predicate IsNegative() {
      No?
    }

    predicate IsEmpty() {
      Empty?
    }
  }

  const ALLOWED_VOTE_TRANSITIONS: map<VoteType, set<VoteType>> := map[
    Empty := {No, Yes, Crush, Compliment},
    No := {Yes, Crush, Compliment},
    Yes := {Crush, Compliment},
    Crush := {},
    Compliment := {}
  ]

  predicate IsChangeAllowed(from: VoteType, to: VoteType) {
    from in ALLOWED_VOTE_TRANSITIONS && to in ALLOWED_VOTE_TRANSITIONS[from]
  }

  // How far a vote has climbed. The table above is this order and nothing else.
  function Rank(vote: VoteType): nat {
    match vote
    case Empty => 0
    case No => 1
    case Yes => 2
    case Crush => 3
    case Compliment => 3
  }

  lemma TransitionsAreStrictClimbs()
    ensures forall from, to :: IsChangeAllowed(from, to) <==> Rank(from) < Rank(to)
  {
    forall from, to
      ensures IsChangeAllowed(from, to) <==> Rank(from) < Rank(to)
    {
      match to
      case Empty =>
      case Yes =>
      case No =>
      case Crush =>
      case Compliment =>
    }
  }

  const DAY_SECONDS := 86400
  const MUTUAL_TTL_SECONDS := 546 * DAY_SECONDS
  const NON_MUTUAL_TTL_SECONDS := 180 * DAY_SECONDS
  const DEAD_TTL_SECONDS := 90 * DAY_SECONDS

  function TtlSeconds(active: VoteType, peer: VoteType): int {
    if active.IsNegative() || peer.IsNegative() then DEAD_TTL_SECONDS
    else if active.IsPositive() && peer.IsPositive() then MUTUAL_TTL_SECONDS
    else NON_MUTUAL_TTL_SECONDS
  }

  // What retention two votes call for, in days: 90 if either is a no, 546 if both say yes in some way, else 180.
  predicate RetainsFor(one: VoteType, other: VoteType, seconds: int) {
    if one == No || other == No then seconds == 90 * 86400
    else if one != Empty && other != Empty then seconds == 546 * 86400
    else seconds == 180 * 86400
  }

  lemma TtlSecondsByKinds(active: VoteType, peer: VoteType)
    ensures RetainsFor(active, peer, TtlSeconds(active, peer))
    ensures TtlSeconds(active, peer) == TtlSeconds(peer, active)
  {
  }
}
