/**
 Changing and deleting a club. A manager may change the club's details,
 of which the category is the one the rules read. Deletion cascades
 through the foreign keys: the club's membership rows and events go with
 it, and each deleted event takes its registrations along.
 */
module Clubs {
  import opened Types
  import opened Permissions

  /** The store after `club.delete()`, with every cascade applied. */
  function DeleteCascade(st: Store, c: ClubId): (r: Store)
    ensures r.roles == st.roles && r.nextEvent == st.nextEvent
    ensures r.clubs == st.clubs - {c}
    // memberships: exactly the rows of other clubs survive, unchanged
    ensures forall k :: k in r.memberships <==> k in st.memberships && k.1 != c
    ensures forall k :: k in r.memberships ==> r.memberships[k] == st.memberships[k]
    // events: exactly the events of other clubs survive, unchanged
    ensures forall e :: e in r.events <==> e in st.events && st.events[e].club != c
    ensures forall e :: e in r.events ==> r.events[e] == st.events[e]
    // registrations: exactly those of surviving events survive
    ensures forall p :: p in r.registrations <==> p in st.registrations && p.1 in r.events
  {
    var memberships := map k | k in st.memberships && k.1 != c :: st.memberships[k];
    var events := map e | e in st.events && st.events[e].club != c :: st.events[e];
    var registrations := set p | p in st.registrations && p.1 in events;
    Store(st.roles, st.clubs - {c}, memberships, events, registrations, st.nextEvent)
  }

  /** `delete_club`: only an admin, or a faculty member who is an approved
      advisor of the club, may delete it, by posting the word DELETE. */
  function DeleteClub(st: Store, actor: UserId, c: ClubId, isPost: bool, confirm: string): (r: Step)
    ensures r.out == Ok <==>
      && c in st.clubs && actor in st.roles
      && CanDeleteClub(st.roles[actor], st.memberships, actor, c)
      && isPost && confirm == "DELETE"
    ensures r.out == Ok ==> r.st == DeleteCascade(st, c)
    ensures r.out != Ok ==> r.st == st
    ensures c in st.clubs && actor in st.roles && !CanDeleteClub(st.roles[actor], st.memberships, actor, c) ==>
      r.out == Denied
    ensures (c in st.clubs && actor in st.roles && CanDeleteClub(st.roles[actor], st.memberships, actor, c) &&
             isPost && confirm != "DELETE") ==> r.out == Invalid(ConfirmMismatch)
  {
    if c !in st.clubs then Step(st, NotFound)
    else if actor !in st.roles then Step(st, Crash)
    else if !CanDeleteClub(st.roles[actor], st.memberships, actor, c) then Step(st, Denied)
    else if !isPost then Step(st, NoOp)
    else if confirm != "DELETE" then Step(st, Invalid(ConfirmMismatch))
    else Step(DeleteCascade(st, c), Ok)
  }

  /** The cascade leaves nothing pointing at the deleted club or its events,
      and keeps the store valid. */
  lemma DeleteCascadePreservesValid(st: Store, c: ClubId)
    requires st.Valid()
    ensures var r := DeleteCascade(st, c);
      && r.Valid()
      && (forall k :: k in r.memberships ==> k.1 != c)
      && (forall e :: e in r.events ==> r.events[e].club != c)
  {
    var r := DeleteCascade(st, c);
    forall e | e in r.events && r.events[e].capacity > 0
      ensures RegCount(r.registrations, e) <= r.events[e].capacity
    {
      RegCountShrink(st.registrations, r.registrations, e);
    }
  }

  lemma DeleteClubPreservesValid(st: Store, actor: UserId, c: ClubId, isPost: bool, confirm: string)
    requires st.Valid()
    ensures DeleteClub(st, actor, c, isPost, confirm).st.Valid()
  {
    DeleteCascadePreservesValid(st, c);
  }

  /** Deleting is permitted exactly as `can_delete_club` says; in particular a
      leader who is not an admin or a faculty advisor cannot delete the club. */
  lemma LeaderCannotDelete(st: Store, actor: UserId, c: ClubId, isPost: bool, confirm: string)
    requires actor in st.roles && st.roles[actor] != Admin
    requires (actor, c) in st.memberships && st.memberships[(actor, c)].role == Leader
    ensures DeleteClub(st, actor, c, isPost, confirm).st == st
  {
  }

  /** `update_club`: a club manager's valid POST of the club form saves its
      fields. Of those, the model keeps the category, which the
      recommendations read; nothing else in the store changes. */
  function UpdateClub(st: Store, actor: UserId, c: ClubId, isPost: bool, formOk: bool, category: Category): (r: Step)
    ensures r.out == Ok <==>
      && c in st.clubs && actor in st.roles
      && CanManageClub(st.roles[actor], st.memberships, actor, c)
      && isPost && formOk
    ensures r.out == Ok ==> r.st == st.(clubs := st.clubs[c := st.clubs[c].(category := category)])
    ensures r.out != Ok ==> r.st == st
    ensures c in st.clubs && actor in st.roles && !CanManageClub(st.roles[actor], st.memberships, actor, c) ==>
      r.out == Denied
    ensures (c in st.clubs && actor in st.roles && CanManageClub(st.roles[actor], st.memberships, actor, c) &&
             isPost && !formOk) ==> r.out == Invalid(FormInvalid)
  {
    if c !in st.clubs then Step(st, NotFound)
    else if actor !in st.roles then Step(st, Crash)
    else if !CanManageClub(st.roles[actor], st.memberships, actor, c) then Step(st, Denied)
    else if !isPost then Step(st, NoOp)
    else if !formOk then Step(st, Invalid(FormInvalid))
    else Step(st.(clubs := st.clubs[c := st.clubs[c].(category := category)]), Ok)
  }

  /** Changing a club's details keeps the store valid: the club stays, so
      every row that pointed at it still does. */
  lemma UpdateClubPreservesValid(st: Store, actor: UserId, c: ClubId, isPost: bool, formOk: bool, category: Category)
    requires st.Valid()
    ensures UpdateClub(st, actor, c, isPost, formOk, category).st.Valid()
  {
  }
}
