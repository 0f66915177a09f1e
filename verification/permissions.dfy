/**
 The permission evaluator of UserProfile: pure predicates over the user's
 role and the membership rows. Each is re-evaluated on every request.
 */
module Permissions {
  import opened Types

  /** `is_club_leader(club)`: an approved leader row for the club exists.
      The row is unique per (user, club), so existence is a single lookup. */
  predicate IsClubLeader(ms: Memberships, u: UserId, c: ClubId) {
    (u, c) in ms && ms[(u, c)].IsLeader()
  }

  /** `is_club_faculty_advisor(club)`: an approved faculty-advisor row exists.
      The user's own role is not consulted. */
  predicate IsClubFacultyAdvisor(ms: Memberships, u: UserId, c: ClubId) {
    (u, c) in ms && ms[(u, c)].IsFacultyAdvisor()
  }

  predicate CanManageClub(role: Role, ms: Memberships, u: UserId, c: ClubId) {
    if role == Admin then true
    else if role == Faculty && IsClubFacultyAdvisor(ms, u, c) then true
    else IsClubLeader(ms, u, c)
  }

  predicate CanApproveMembers(role: Role, ms: Memberships, u: UserId, c: ClubId) {
    CanManageClub(role, ms, u, c)
  }

  predicate CanManageEvents(role: Role, ms: Memberships, u: UserId, c: ClubId) {
    CanManageClub(role, ms, u, c)
  }

  predicate CanCreateClub(role: Role) {
    role == Admin || role == Faculty
  }

  predicate CanDeleteClub(role: Role, ms: Memberships, u: UserId, c: ClubId) {
    role == Admin || (role == Faculty && IsClubFacultyAdvisor(ms, u, c))
  }

  /** Reference reading of the ORM filter
      `ClubMembership.objects.filter(user=u, club=c, role=r, status='approved').exists()`:
      some row, among all rows, matches all four fields. */
  ghost predicate HasApprovedRow(ms: Memberships, u: UserId, c: ClubId, r: MemberRole) {
    exists k :: k in ms && k.0 == u && k.1 == c && ms[k].role == r && ms[k].status == Approved
  }

  lemma LeaderMatchesQuery(ms: Memberships, u: UserId, c: ClubId)
    ensures IsClubLeader(ms, u, c) <==> HasApprovedRow(ms, u, c, Leader)
  {
  }

  lemma AdvisorMatchesQuery(ms: Memberships, u: UserId, c: ClubId)
    ensures IsClubFacultyAdvisor(ms, u, c) <==> HasApprovedRow(ms, u, c, FacultyAdvisor)
  {
  }

  /** The three ways to manage a club, and no others. */
  lemma ManageClubCharacterized(role: Role, ms: Memberships, u: UserId, c: ClubId)
    ensures CanManageClub(role, ms, u, c) <==>
      || role == Admin
      || (role == Faculty && HasApprovedRow(ms, u, c, FacultyAdvisor))
      || HasApprovedRow(ms, u, c, Leader)
  {
  }

  /** Approving members and managing events are the same decision as
      managing the club. */
  lemma DelegatedPermissionsAgree(role: Role, ms: Memberships, u: UserId, c: ClubId)
    ensures CanApproveMembers(role, ms, u, c) == CanManageClub(role, ms, u, c)
    ensures CanManageEvents(role, ms, u, c) == CanManageClub(role, ms, u, c)
  {
  }

  lemma CreateClubCharacterized(role: Role)
    ensures CanCreateClub(role) <==> role != Student
  {
  }

  lemma DeleteClubCharacterized(role: Role, ms: Memberships, u: UserId, c: ClubId)
    ensures CanDeleteClub(role, ms, u, c) <==>
      role == Admin || (role == Faculty && HasApprovedRow(ms, u, c, FacultyAdvisor))
  {
  }

  /** Whoever may delete a club may also manage it. */
  lemma DeleteImpliesManage(role: Role, ms: Memberships, u: UserId, c: ClubId)
    ensures CanDeleteClub(role, ms, u, c) ==> CanManageClub(role, ms, u, c)
  {
  }

  /** An approved faculty-advisor row held by a student grants nothing: the
      row cannot also be a leader row, and the advisor branch needs the
      faculty role. */
  lemma StudentAdvisorRowGrantsNothing(ms: Memberships, u: UserId, c: ClubId)
    requires (u, c) in ms && ms[(u, c)].role == FacultyAdvisor
    ensures !CanManageClub(Student, ms, u, c)
    ensures !CanDeleteClub(Student, ms, u, c)
  {
  }

  /** Moving one row away from `approved` can only take permissions away,
      for every user and every club. */
  lemma DemotionOnlyRevokes(role: Role, ms: Memberships, k: (UserId, ClubId), s: Status, u: UserId, c: ClubId)
    requires k in ms && s != Approved
    ensures var ms' := ms[k := ms[k].(status := s)];
      && (CanManageClub(role, ms', u, c) ==> CanManageClub(role, ms, u, c))
      && (CanDeleteClub(role, ms', u, c) ==> CanDeleteClub(role, ms, u, c))
      && (IsClubLeader(ms', u, c) ==> IsClubLeader(ms, u, c))
      && (IsClubFacultyAdvisor(ms', u, c) ==> IsClubFacultyAdvisor(ms, u, c))
  {
  }

  /** Rows of a non-approved status never matter: only approved rows decide. */
  lemma OnlyApprovedRowsCount(role: Role, ms: Memberships, u: UserId, c: ClubId)
    requires (u, c) in ms && ms[(u, c)].status != Approved
    ensures CanManageClub(role, ms, u, c) <==> role == Admin
    ensures CanDeleteClub(role, ms, u, c) <==> role == Admin
  {
  }
}
