/**
 Club and event recommendations: read-only queries over the store.

 "The user's clubs" follows the `members` relation, which goes through
 every membership row whatever its status: a pending or rejected request
 already counts as belonging to the club, and counts towards its member
 count. Event recommendations do not look at the event's approval status.
 */
module Recommendations {
  import opened Types
  import opened Ranking
  import Clubs

  /** Both queries keep the first five rows. */
  const Limit: nat := 5

  /** Categories of the clubs the user has any row in. */
  function Interests(st: Store, u: UserId): set<Category> {
    set c | c in st.clubs && (u, c) in st.memberships :: st.clubs[c].category
  }

  /** Clubs the user has no row in. */
  function Unjoined(st: Store, u: UserId): set<ClubId> {
    set c | c in st.clubs && (u, c) !in st.memberships
  }

  /** Unjoined clubs in one of the user's categories. */
  function InterestMatches(st: Store, u: UserId): set<ClubId> {
    set c | c in Unjoined(st, u) && st.clubs[c].category in Interests(st, u)
  }

  /** Popularity of a club: its number of membership rows. */
  function ClubScore(st: Store): nat -> int {
    (c: nat) => MemberCount(st.memberships, c)
  }

  /** `Club.get_recommended_clubs`: the most popular unjoined clubs in the
      user's categories, or, when there are none, the most popular unjoined
      clubs of any category. */
  method RecommendedClubs(st: Store, u: UserId) returns (r: seq<ClubId>)
    ensures |r| <= Limit && Distinct(r)
    ensures forall i :: 0 <= i < |r| ==> r[i] in st.clubs && (u, r[i]) !in st.memberships
    ensures forall i, j :: 0 <= i < j < |r| ==>
      MemberCount(st.memberships, r[i]) >= MemberCount(st.memberships, r[j])
    ensures InterestMatches(st, u) != {} ==> TopOf(r, InterestMatches(st, u), ClubScore(st), Limit)
    ensures InterestMatches(st, u) == {} ==> TopOf(r, Unjoined(st, u), ClubScore(st), Limit)
  {
    r := TopByScore(InterestMatches(st, u), ClubScore(st), Limit);
    if |r| == 0 {
      r := TopByScore(Unjoined(st, u), ClubScore(st), Limit);
    }
  }

  /** Upcoming events (strictly after `now`) the user is not registered for. */
  function OpenEvents(st: Store, u: UserId, now: Time): set<EventId> {
    set e | e in st.events && st.events[e].date > now && (u, e) !in st.registrations
  }

  /** Those of them held by a club the user has a row in. */
  function ClubEvents(st: Store, u: UserId, now: Time): set<EventId> {
    set e | e in OpenEvents(st, u, now) && (u, st.events[e].club) in st.memberships
  }

  /** Earlier events rank higher. */
  function SoonestFirst(st: Store): nat -> int {
    (e: nat) => if e in st.events then -st.events[e].date else 0
  }

  /** Events with more registrations rank higher. */
  function MostRegistered(st: Store): nat -> int {
    (e: nat) => RegCount(st.registrations, e)
  }

  /** `Event.get_recommended_events`: the soonest open events of the user's
      clubs, or, when there are none, the open events with the most
      registrations. */
  method RecommendedEvents(st: Store, u: UserId, now: Time) returns (r: seq<EventId>)
    ensures |r| <= Limit && Distinct(r)
    ensures forall i :: 0 <= i < |r| ==>
      r[i] in st.events && st.events[r[i]].date > now && (u, r[i]) !in st.registrations
    ensures ClubEvents(st, u, now) != {} ==>
      && TopOf(r, ClubEvents(st, u, now), SoonestFirst(st), Limit)
      && (forall i, j :: 0 <= i < j < |r| ==> st.events[r[i]].date <= st.events[r[j]].date)
    ensures ClubEvents(st, u, now) == {} ==>
      TopOf(r, OpenEvents(st, u, now), MostRegistered(st), Limit)
  {
    r := TopByScore(ClubEvents(st, u, now), SoonestFirst(st), Limit);
    if |r| == 0 {
      r := TopByScore(OpenEvents(st, u, now), MostRegistered(st), Limit);
    } else {
      forall i, j | 0 <= i < j < |r|
        ensures st.events[r[i]].date <= st.events[r[j]].date
      {
        assert SoonestFirst(st)(r[i]) >= SoonestFirst(st)(r[j]);
      }
    }
  }

  /** A user in one technical club, with one other technical club and one
      more popular cultural club around, is recommended the technical club
      alone: a category match ranks above any more popular fallback. */
  lemma CategoryMatchScenario(st: Store, u: UserId, r: seq<ClubId>)
    requires st.clubs == map[1 := Club(Technical), 2 := Club(Cultural), 3 := Club(Technical)]
    requires (u, 1) in st.memberships && (u, 2) !in st.memberships && (u, 3) !in st.memberships
    requires InterestMatches(st, u) != {} ==> TopOf(r, InterestMatches(st, u), ClubScore(st), Limit)
    ensures r == [3]
  {
    assert Interests(st, u) == {Technical} by {
      assert 1 in st.clubs && (u, 1) in st.memberships;
    }
    assert InterestMatches(st, u) == {3} by {
      assert Unjoined(st, u) == {2, 3};
    }
    TopOfSingleton(r, 3, ClubScore(st), Limit);
  }

  /** A manager who moves club `c` into the category of another club the
      user belongs to makes `c` one of the user's category matches, unless
      the user already has a row in `c`. */
  lemma CategoryChangeCreatesMatch(st: Store, actor: UserId, c: ClubId, formOk: bool, k: Category, u: UserId, other: ClubId)
    requires Clubs.UpdateClub(st, actor, c, true, formOk, k).out == Ok
    requires (u, c) !in st.memberships
    requires other in st.clubs && other != c && (u, other) in st.memberships && st.clubs[other].category == k
    ensures c in InterestMatches(Clubs.UpdateClub(st, actor, c, true, formOk, k).st, u)
  {
  }
}
