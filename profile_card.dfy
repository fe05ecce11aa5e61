/** The follow button of the profile card: whether the user follows, the follower count, the
    two updaters that change them (a click and the five-second tick) and the button text. */
module ProfileCard {

  /** `isFollowing` and `followersCount`. */
  datatype CardState = CardState(isFollowing: bool, followersCount: int)

  /** The state the card mounts with. */
  const InitialFollowers: int := 1234
  const Initial: CardState := CardState(false, InitialFollowers)

  /** `onToggleFollow`: flips `isFollowing`; following adds one follower, unfollowing takes
      one away; the result is never below zero. */
  function Toggle(s: CardState): (r: CardState)
    ensures r.isFollowing == !s.isFollowing
    ensures r.followersCount >= 0
    ensures r.isFollowing && s.followersCount >= -1 ==> r.followersCount == s.followersCount + 1
    ensures !r.isFollowing ==> r.followersCount == if s.followersCount >= 1 then s.followersCount - 1 else 0
  {
    var next := !s.isFollowing;
    var delta := if next then 1 else -1;
    var nextCount := s.followersCount + delta;
    CardState(next, if nextCount < 0 then 0 else nextCount)
  }

  /** The interval's updater: one more follower, nothing else. */
  function Tick(s: CardState): (r: CardState)
    ensures r.isFollowing == s.isFollowing && r.followersCount == s.followersCount + 1
  {
    s.(followersCount := s.followersCount + 1)
  }

  /** The button text. */
  function ButtonLabel(isFollowing: bool): (text: string)
    ensures text == "Following" <==> isFollowing
    ensures !isFollowing ==> text == "Follow"
  {
    if isFollowing then "Following" else "Follow"
  }

  datatype Event = Click | Interval

  function Apply(s: CardState, e: Event): CardState {
    match e
    case Click => Toggle(s)
    case Interval => Tick(s)
  }

  /** The state after the events, oldest first. */
  function Run(s: CardState, events: seq<Event>): CardState
    decreases |events|
  {
    if events == [] then s else Run(Apply(s, events[0]), events[1..])
  }

  function Count(events: seq<Event>, e: Event): nat {
    if events == [] then 0 else (if events[0] == e then 1 else 0) + Count(events[1..], e)
  }

  /** What every state has that the card can reach from one satisfying it: a follower
      count that is never negative and at least one while following. */
  predicate Sound(s: CardState) {
    s.followersCount >= 0 && (s.isFollowing ==> s.followersCount >= 1)
  }

  lemma ApplyKeepsSound(s: CardState, e: Event)
    requires Sound(s)
    ensures Sound(Apply(s, e))
  {
  }

  /** From the initial state, no sequence of clicks and ticks makes the count negative. */
  lemma {:induction false} RunKeepsSound(s: CardState, events: seq<Event>)
    requires Sound(s)
    ensures Sound(Run(s, events))
    decreases |events|
  {
    if events != [] {
      ApplyKeepsSound(s, events[0]);
      RunKeepsSound(Apply(s, events[0]), events[1..]);
    }
  }

  lemma InitialSound()
    ensures Sound(Initial)
  {
  }

  /** The floor at zero never takes effect on a reachable state: each click and each tick
      moves the count by exactly one. */
  lemma SoundToggleExact(s: CardState)
    requires Sound(s)
    ensures Toggle(s).followersCount == s.followersCount + (if s.isFollowing then -1 else 1)
  {
  }

  /** From the initial state the card follows exactly after an odd number of clicks, and
      the count is the initial one plus the ticks plus one while following. */
  lemma {:induction false} RunExact(s: CardState, events: seq<Event>)
    requires Sound(s)
    ensures Run(s, events).isFollowing == (s.isFollowing != (Count(events, Click) % 2 == 1))
    ensures Run(s, events).followersCount ==
      s.followersCount - (if s.isFollowing then 1 else 0) + Count(events, Interval)
      + (if Run(s, events).isFollowing then 1 else 0)
    decreases |events|
  {
    if events != [] {
      var next := Apply(s, events[0]);
      ApplyKeepsSound(s, events[0]);
      if events[0] == Click {
        SoundToggleExact(s);
      }
      RunExact(next, events[1..]);
    }
  }

  /** From the initial state: following after an odd number of clicks, with 1234 plus the
      ticks plus one while following. */
  lemma InitialRun(events: seq<Event>)
    ensures Sound(Run(Initial, events))
    ensures Run(Initial, events).isFollowing == (Count(events, Click) % 2 == 1)
    ensures Run(Initial, events).followersCount ==
      InitialFollowers + Count(events, Interval) + (if Run(Initial, events).isFollowing then 1 else 0)
  {
    RunKeepsSound(Initial, events);
    RunExact(Initial, events);
  }

  /** Two clicks cancel out on every reachable state; where the count is 0 while following,
      which no run from the initial state reaches, they do not. */
  lemma ToggleTwice(s: CardState)
    ensures Sound(s) ==> Toggle(Toggle(s)) == s
    ensures Toggle(Toggle(CardState(true, 0))) == CardState(true, 1)
  {
  }
}
