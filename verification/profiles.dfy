/**
 `profile_view`: the one page that writes a user's profile. It fetches the
 caller's profile, creating it with the default role student when missing.
 The profile form's fields (bio, department, avatar) are not modelled.
 */
module Profiles {
  import opened Types
  import opened Permissions
  import Memberships

  /** `profile_view`: an existing profile keeps its role; a missing one is
      created as a student. No other part of the store changes. */
  function ProfileView(st: Store, u: UserId): (r: Step)
    ensures r.out == Ok
    ensures u in r.st.roles && r.st.roles[u] == (if u in st.roles then st.roles[u] else Student)
    ensures r.st.roles - {u} == st.roles - {u}
    ensures r.st.(roles := st.roles) == st
  {
    if u in st.roles then Step(st, Ok)
    else Step(st.(roles := st.roles[u := Student]), Ok)
  }

  /** Visiting the profile page twice is the same as visiting it once. */
  lemma ProfileViewIdempotent(st: Store, u: UserId)
    ensures ProfileView(ProfileView(st, u).st, u).st == ProfileView(st, u).st
  {
  }

  lemma ProfileViewPreservesValid(st: Store, u: UserId)
    requires st.Valid()
    ensures ProfileView(st, u).st.Valid()
  {
  }

  /** A freshly created profile grants only what the user's own rows grant:
      a student manages a club only as its approved leader, and deletes none. */
  lemma NewProfileGrantsOnlyLeadership(st: Store, u: UserId, c: ClubId)
    requires u !in st.roles
    ensures var st' := ProfileView(st, u).st;
      && (CanManageClub(st'.roles[u], st'.memberships, u, c) <==> IsClubLeader(st.memberships, u, c))
      && !CanDeleteClub(st'.roles[u], st'.memberships, u, c)
      && !CanCreateClub(st'.roles[u])
  {
  }

  /** Before the profile exists, a user who is no leader of the club makes
      `approve_member` raise; once the profile page has created it, the same
      request is a permission denial. */
  lemma ProfileTurnsCrashIntoDenial(st: Store, u: UserId, c: ClubId, target: UserId, now: Time)
    requires u !in st.roles && c in st.clubs && (target, c) in st.memberships
    requires !IsClubLeader(st.memberships, u, c)
    ensures Memberships.ApproveMember(st, u, c, target, now).out == Crash
    ensures Memberships.ApproveMember(ProfileView(st, u).st, u, c, target, now).out == Denied
  {
  }
}
