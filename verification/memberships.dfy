/**
 The membership lifecycle per (user, club): absent -> pending ->
 {approved, rejected}, rejected -> pending on a new request, and deletion
 by the user (leave) or by a manager (remove). Each view is a pure
 transition of the store.

 `make_leader` gates on `userprofile.is_faculty_advisor(club)`, a method
 UserProfile does not define (only ClubMembership has one; UserProfile
 has `is_club_faculty_advisor`). `MakeLeaderAsWritten` models the view as
 it stands, where that call raises; `MakeLeader` models the evident
 intent, gating on `IsClubFacultyAdvisor`.
 */
module Memberships {
  import opened Types
  import opened Permissions

  /** The row a fresh join request creates. */
  const NewRequest := Membership(Member, Pending, None, None)

  /** `join_club` */
  function JoinClub(st: Store, u: UserId, c: ClubId): (r: Step)
    // only the requester's own row can change
    ensures r.st.(memberships := st.memberships) == st
    ensures r.st.memberships - {(u, c)} == st.memberships - {(u, c)}
    ensures c !in st.clubs ==> r == Step(st, NotFound)
    ensures c in st.clubs ==> (u, c) in r.st.memberships
    // no row yet: a pending member request appears
    ensures c in st.clubs && (u, c) !in st.memberships ==>
      r.out == Ok && r.st.memberships[(u, c)] == NewRequest
    // a pending or approved row is left alone
    ensures (u, c) in st.memberships && st.memberships[(u, c)].status != Rejected ==>
      r.st == st && (c in st.clubs ==> r.out == Info)
    // a rejected row goes back to pending, keeping role and approver fields
    ensures c in st.clubs && (u, c) in st.memberships && st.memberships[(u, c)].status == Rejected ==>
      r.out == Ok && r.st.memberships[(u, c)] == st.memberships[(u, c)].(status := Pending)
    // a join never approves anybody
    ensures (u, c) in r.st.memberships && r.st.memberships[(u, c)].status == Approved ==>
      (u, c) in st.memberships && r.st.memberships[(u, c)] == st.memberships[(u, c)]
  {
    if c !in st.clubs then Step(st, NotFound)
    else if (u, c) in st.memberships then
      var m := st.memberships[(u, c)];
      if m.status != Rejected then Step(st, Info)
      else Step(st.(memberships := st.memberships[(u, c) := m.(status := Pending)]), Ok)
    else
      Step(st.(memberships := st.memberships[(u, c) := NewRequest]), Ok)
  }

  /** `leave_club`: deletes the caller's own row, whatever its role. */
  function LeaveClub(st: Store, u: UserId, c: ClubId, isPost: bool): (r: Step)
    ensures r.st.(memberships := st.memberships) == st
    ensures r.st.memberships == st.memberships - {(u, c)} || r.st == st
    ensures r.out == Ok <==> c in st.clubs && isPost && (u, c) in st.memberships
    ensures r.out == Ok ==> r.st.memberships == st.memberships - {(u, c)}
    ensures r.out != Ok ==> r.st == st
    ensures c in st.clubs && isPost && (u, c) !in st.memberships ==> r.out == Info
  {
    if c !in st.clubs then Step(st, NotFound)
    else if !isPost then Step(st, NoOp)
    else if (u, c) in st.memberships then
      Step(st.(memberships := st.memberships - {(u, c)}), Ok)
    else Step(st, Info)
  }

  /** The three guards every manager view applies before acting on a
      membership: the club exists, the row exists in that club, and the
      actor has a profile. */
  function ManagedRow(st: Store, actor: UserId, c: ClubId, target: UserId): (r: Outcome)
    ensures r in {Ok, NotFound, Crash}
    ensures r == Ok <==> c in st.clubs && (target, c) in st.memberships && actor in st.roles
  {
    if c !in st.clubs || (target, c) !in st.memberships then NotFound
    else if actor !in st.roles then Crash
    else Ok
  }

  /** `approve_member` */
  function ApproveMember(st: Store, actor: UserId, c: ClubId, target: UserId, now: Time): (r: Step)
    ensures r.st.(memberships := st.memberships) == st
    ensures r.st.memberships - {(target, c)} == st.memberships - {(target, c)}
    ensures r.out == Ok <==>
      ManagedRow(st, actor, c, target) == Ok && CanApproveMembers(st.roles[actor], st.memberships, actor, c)
    ensures ManagedRow(st, actor, c, target) != Ok ==> r.out == ManagedRow(st, actor, c, target)
    ensures ManagedRow(st, actor, c, target) == Ok && !CanApproveMembers(st.roles[actor], st.memberships, actor, c) ==>
      r.out == Denied
    ensures r.out != Ok ==> r.st == st
    ensures r.out == Ok ==> (target, c) in r.st.memberships
    ensures r.out == Ok ==>
      var m, m' := st.memberships[(target, c)], r.st.memberships[(target, c)];
      m'.status == Approved && m'.approvedBy == Some(actor) && m'.approvedDate == Some(now) && m'.role == m.role
  {
    var guard := ManagedRow(st, actor, c, target);
    if guard != Ok then Step(st, guard)
    else if !CanManageClub(st.roles[actor], st.memberships, actor, c) then Step(st, Denied)
    else
      var m := st.memberships[(target, c)];
      var m' := m.(status := Approved, approvedBy := Some(actor), approvedDate := Some(now));
      Step(st.(memberships := st.memberships[(target, c) := m']), Ok)
  }

  /** `reject_member`: sets the status only; an earlier approver and date
      stay on the row. */
  function RejectMember(st: Store, actor: UserId, c: ClubId, target: UserId): (r: Step)
    ensures r.st.(memberships := st.memberships) == st
    ensures r.st.memberships - {(target, c)} == st.memberships - {(target, c)}
    ensures r.out == Ok <==>
      ManagedRow(st, actor, c, target) == Ok && CanApproveMembers(st.roles[actor], st.memberships, actor, c)
    ensures ManagedRow(st, actor, c, target) != Ok ==> r.out == ManagedRow(st, actor, c, target)
    ensures ManagedRow(st, actor, c, target) == Ok && !CanApproveMembers(st.roles[actor], st.memberships, actor, c) ==>
      r.out == Denied
    ensures r.out != Ok ==> r.st == st
    ensures r.out == Ok ==> (target, c) in r.st.memberships
    ensures r.out == Ok ==>
      r.st.memberships[(target, c)] == st.memberships[(target, c)].(status := Rejected)
  {
    var guard := ManagedRow(st, actor, c, target);
    if guard != Ok then Step(st, guard)
    else if !CanManageClub(st.roles[actor], st.memberships, actor, c) then Step(st, Denied)
    else
      var m := st.memberships[(target, c)];
      Step(st.(memberships := st.memberships[(target, c) := m.(status := Rejected)]), Ok)
  }

  /** `make_leader` as written: once the club and row are found, the gate
      calls a method UserProfile lacks, so the view always raises. */
  function MakeLeaderAsWritten(st: Store, actor: UserId, c: ClubId, target: UserId): (r: Step)
    ensures r.st == st
    ensures r.out == NotFound <==> c !in st.clubs || (target, c) !in st.memberships
    ensures r.out != NotFound ==> r.out == Crash
  {
    if c !in st.clubs || (target, c) !in st.memberships then Step(st, NotFound)
    else Step(st, Crash)
  }

  /** `make_leader` with the gate read as `is_club_faculty_advisor(club)`:
      only an approved faculty advisor of the club may act (an admin without
      such a row may not), and only the role changes, whatever the status. */
  function MakeLeader(st: Store, actor: UserId, c: ClubId, target: UserId): (r: Step)
    ensures r.st.(memberships := st.memberships) == st
    ensures r.st.memberships - {(target, c)} == st.memberships - {(target, c)}
    ensures r.out == Ok <==>
      ManagedRow(st, actor, c, target) == Ok && IsClubFacultyAdvisor(st.memberships, actor, c)
    ensures ManagedRow(st, actor, c, target) != Ok ==> r.out == ManagedRow(st, actor, c, target)
    ensures ManagedRow(st, actor, c, target) == Ok && !IsClubFacultyAdvisor(st.memberships, actor, c) ==>
      r.out == Denied
    ensures r.out != Ok ==> r.st == st
    ensures r.out == Ok ==> (target, c) in r.st.memberships
    ensures r.out == Ok ==>
      r.st.memberships[(target, c)] == st.memberships[(target, c)].(role := Leader)
  {
    var guard := ManagedRow(st, actor, c, target);
    if guard != Ok then Step(st, guard)
    else if !IsClubFacultyAdvisor(st.memberships, actor, c) then Step(st, Denied)
    else
      var m := st.memberships[(target, c)];
      Step(st.(memberships := st.memberships[(target, c) := m.(role := Leader)]), Ok)
  }

  /** `remove_member`: a manager deletes exactly one row, but never a
      faculty advisor's. */
  function RemoveMember(st: Store, actor: UserId, c: ClubId, target: UserId): (r: Step)
    ensures r.st.(memberships := st.memberships) == st
    ensures r.out == Ok <==>
      && ManagedRow(st, actor, c, target) == Ok
      && CanManageClub(st.roles[actor], st.memberships, actor, c)
      && st.memberships[(target, c)].role != FacultyAdvisor
    ensures r.out == Ok ==> r.st.memberships == st.memberships - {(target, c)}
    ensures r.out != Ok ==> r.st == st
    ensures ManagedRow(st, actor, c, target) != Ok ==> r.out == ManagedRow(st, actor, c, target)
    ensures ManagedRow(st, actor, c, target) == Ok && !CanManageClub(st.roles[actor], st.memberships, actor, c) ==>
      r.out == Denied
    ensures (target, c) in st.memberships && st.memberships[(target, c)].role == FacultyAdvisor ==>
      r.st == st && (ManagedRow(st, actor, c, target) == Ok ==> r.out == Denied)
  {
    var guard := ManagedRow(st, actor, c, target);
    if guard != Ok then Step(st, guard)
    else if !CanManageClub(st.roles[actor], st.memberships, actor, c) then Step(st, Denied)
    else if st.memberships[(target, c)].role == FacultyAdvisor then Step(st, Denied)
    else Step(st.(memberships := st.memberships - {(target, c)}), Ok)
  }

  // ---------------------------------------------------------------------
  // Properties relating several calls

  /** Replacing or deleting membership rows of existing clubs keeps the
      store valid: memberships are not consulted by the other invariants. */
  lemma MembershipsOnlyChangeKeepsValid(st: Store, st': Store)
    requires st.Valid()
    requires st'.(memberships := st.memberships) == st
    requires forall k :: k in st'.memberships ==> k in st.memberships || k.1 in st.clubs
    ensures st'.Valid()
  {
  }

  /** Every membership transition keeps the store valid. */
  lemma MembershipStepsPreserveValid(st: Store, u: UserId, c: ClubId, target: UserId, isPost: bool, now: Time)
    requires st.Valid()
    ensures JoinClub(st, u, c).st.Valid()
    ensures LeaveClub(st, u, c, isPost).st.Valid()
    ensures ApproveMember(st, u, c, target, now).st.Valid()
    ensures RejectMember(st, u, c, target).st.Valid()
    ensures MakeLeader(st, u, c, target).st.Valid()
    ensures RemoveMember(st, u, c, target).st.Valid()
  {
    MembershipsOnlyChangeKeepsValid(st, JoinClub(st, u, c).st);
    MembershipsOnlyChangeKeepsValid(st, LeaveClub(st, u, c, isPost).st);
    MembershipsOnlyChangeKeepsValid(st, ApproveMember(st, u, c, target, now).st);
    MembershipsOnlyChangeKeepsValid(st, RejectMember(st, u, c, target).st);
    MembershipsOnlyChangeKeepsValid(st, MakeLeader(st, u, c, target).st);
    MembershipsOnlyChangeKeepsValid(st, RemoveMember(st, u, c, target).st);
  }

  /** Rejected, then asking again: the row is pending, never approved. */
  lemma RejectThenJoin(st: Store, actor: UserId, u: UserId, c: ClubId)
    requires RejectMember(st, actor, c, u).out == Ok
    ensures var st' := JoinClub(RejectMember(st, actor, c, u).st, u, c);
      st'.out == Ok && st'.st.memberships[(u, c)].status == Pending
  {
  }

  /** Join then approval by a leader: the scenario of a new member. */
  lemma JoinThenApprove(st: Store, u: UserId, leader: UserId, c: ClubId, now: Time)
    requires c in st.clubs && (u, c) !in st.memberships && u != leader
    requires leader in st.roles && IsClubLeader(st.memberships, leader, c)
    ensures var s1 := JoinClub(st, u, c).st;
      var s2 := ApproveMember(s1, leader, c, u, now);
      && s1.memberships[(u, c)] == NewRequest
      && s2.out == Ok
      && s2.st.memberships[(u, c)] == Membership(Member, Approved, Some(leader), Some(now))
  {
  }

  /** After approve then reject, the row is rejected yet still carries the
      approver and the approval date. */
  lemma RejectLeavesStaleApproval(st: Store, actor: UserId, c: ClubId, target: UserId, now: Time)
    requires ApproveMember(st, actor, c, target, now).out == Ok
    ensures var st' := RejectMember(ApproveMember(st, actor, c, target, now).st, actor, c, target);
      && st'.out == Ok
      && st'.st.memberships[(target, c)].status == Rejected
      && st'.st.memberships[(target, c)].approvedDate == Some(now)
  {
  }

  /** Neither approval nor rejection by a non-manager changes anything. */
  lemma NonManagerChangesNothing(st: Store, actor: UserId, c: ClubId, target: UserId, now: Time)
    requires actor in st.roles && !CanManageClub(st.roles[actor], st.memberships, actor, c)
    ensures ApproveMember(st, actor, c, target, now).st == st
    ensures RejectMember(st, actor, c, target).st == st
    ensures RemoveMember(st, actor, c, target).st == st
  {
  }

  /** A faculty advisor's row survives every remove request. */
  lemma AdvisorNeverRemoved(st: Store, actor: UserId, c: ClubId, target: UserId)
    requires (target, c) in st.memberships && st.memberships[(target, c)].role == FacultyAdvisor
    ensures (target, c) in RemoveMember(st, actor, c, target).st.memberships
  {
  }

  /** An admin who is not an approved advisor of the club cannot assign a
      leader, whatever other row the admin holds there. */
  lemma AdminAloneCannotMakeLeader(st: Store, actor: UserId, c: ClubId, target: UserId)
    requires actor in st.roles && st.roles[actor] == Admin && !IsClubFacultyAdvisor(st.memberships, actor, c)
    ensures MakeLeader(st, actor, c, target).st == st
    ensures MakeLeader(st, actor, c, target).out != Ok
  {
  }

  /** The gate as written turns away even an approved faculty advisor of
      the club, whom the intended gate admits. */
  lemma MakeLeaderDiscrepancy(st: Store, actor: UserId, c: ClubId, target: UserId)
    requires c in st.clubs && (target, c) in st.memberships && actor in st.roles
    requires IsClubFacultyAdvisor(st.memberships, actor, c)
    ensures MakeLeaderAsWritten(st, actor, c, target).out == Crash
    ensures MakeLeader(st, actor, c, target).out == Ok
  {
  }
}
