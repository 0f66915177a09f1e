/**
 Event approval and event registration.

 Events are created pending by a club manager and approved or rejected by
 a faculty advisor of the owning club. Registration checks, in order: the
 event has passed, the deadline has passed, the event is full, the user is
 already registered.

 `approve_event` and `reject_event` gate on
 `userprofile.is_faculty_advisor(event.club)`, a method UserProfile does
 not define. The `...AsWritten` functions model the views as they stand,
 where that call raises; `ApproveEvent` and `RejectEvent` model the
 evident intent, gating on `IsClubFacultyAdvisor`.
 */
module Events {
  import opened Types
  import opened Permissions

  /** `Event.is_full`, given the current registration count. */
  predicate IsFull(ev: Event, count: nat) {
    ev.capacity > 0 && count >= ev.capacity
  }

  /** In a valid store an unlimited event is never full, and an event with
      a capacity is full exactly when its registrations reach the capacity. */
  lemma FullIffAtCapacity(st: Store, e: EventId)
    requires st.Valid() && e in st.events
    ensures st.events[e].capacity == 0 ==> !IsFull(st.events[e], RegCount(st.registrations, e))
    ensures st.events[e].capacity > 0 ==>
      (IsFull(st.events[e], RegCount(st.registrations, e)) <==> RegCount(st.registrations, e) == st.events[e].capacity)
  {
  }

  /** Whether registration is closed at time `now`, and why: the checks of
      `register_event` in their order. The comparisons are strict, so an
      event or a deadline at exactly `now` is still open. */
  function Closed(ev: Event, count: nat, now: Time): (r: Option<Violation>)
    ensures r == Some(EventPassed) <==> ev.date < now
    ensures r == Some(DeadlinePassed) <==> ev.date >= now && ev.deadline.Some? && ev.deadline.value < now
    ensures r == Some(EventFull) <==>
      ev.date >= now && !(ev.deadline.Some? && ev.deadline.value < now) && IsFull(ev, count)
    ensures r.None? || r.value in {EventPassed, DeadlinePassed, EventFull}
  {
    if ev.date < now then Some(EventPassed)
    else if ev.deadline.Some? && ev.deadline.value < now then Some(DeadlinePassed)
    else if IsFull(ev, count) then Some(EventFull)
    else None
  }

  /** `register_event` */
  function RegisterEvent(st: Store, u: UserId, e: EventId, now: Time, isPost: bool): (r: Step)
    ensures r.st.(registrations := st.registrations) == st
    ensures r.out == Ok <==>
      && e in st.events && isPost
      && Closed(st.events[e], RegCount(st.registrations, e), now).None?
      && (u, e) !in st.registrations
    ensures r.out == Ok ==> r.st.registrations == st.registrations + {(u, e)}
    ensures r.out != Ok ==> r.st == st
    ensures e in st.events && isPost && Closed(st.events[e], RegCount(st.registrations, e), now).Some? ==>
      r.out == Invalid(Closed(st.events[e], RegCount(st.registrations, e), now).value)
    ensures (e in st.events && isPost && (u, e) in st.registrations &&
             Closed(st.events[e], RegCount(st.registrations, e), now).None?) ==> r.out == Info
  {
    if e !in st.events then Step(st, NotFound)
    else if !isPost then Step(st, NoOp)
    else
      var ev := st.events[e];
      match Closed(ev, RegCount(st.registrations, e), now)
      case Some(why) => Step(st, Invalid(why))
      case None =>
        if (u, e) !in st.registrations then
          Step(st.(registrations := st.registrations + {(u, e)}), Ok)
        else Step(st, Info)
  }

  /** `cancel_event_registration`: deletes the caller's own registration. */
  function CancelRegistration(st: Store, u: UserId, e: EventId, isPost: bool): (r: Step)
    ensures r.st.(registrations := st.registrations) == st
    ensures r.out == Ok <==> e in st.events && isPost && (u, e) in st.registrations
    ensures r.out == Ok ==> r.st.registrations == st.registrations - {(u, e)}
    ensures r.out != Ok ==> r.st == st
    ensures e in st.events && isPost && (u, e) !in st.registrations ==> r.out == Info
  {
    if e !in st.events then Step(st, NotFound)
    else if !isPost then Step(st, NoOp)
    else if (u, e) in st.registrations then
      Step(st.(registrations := st.registrations - {(u, e)}), Ok)
    else Step(st, Info)
  }

  /** The fields of the event form. */
  datatype EventForm = EventForm(date: Time, deadline: Option<Time>, capacity: nat)

  /** `create_event`: a club manager adds a pending event under the next
      free id. `formOk` stands for a POST whose form validates; anything else
      gets the same error. The database's id sequence never hands out an id
      in use, which `nextEvent` stands for. */
  function CreateEvent(st: Store, actor: UserId, c: ClubId, form: EventForm, formOk: bool): (r: Step)
    requires st.nextEvent !in st.events
    ensures r.out == Ok <==>
      c in st.clubs && actor in st.roles && CanManageEvents(st.roles[actor], st.memberships, actor, c) && formOk
    ensures r.out != Ok ==> r.st == st
    ensures r.out == Ok ==>
      r.st == st.(events := st.events[st.nextEvent := Event(c, form.date, form.deadline, form.capacity, Pending, Some(actor), None, None)],
                  nextEvent := st.nextEvent + 1)
    ensures c in st.clubs && actor in st.roles && !CanManageEvents(st.roles[actor], st.memberships, actor, c) ==>
      r.out == Denied
  {
    if c !in st.clubs then Step(st, NotFound)
    else if actor !in st.roles then Step(st, Crash)
    else if !CanManageClub(st.roles[actor], st.memberships, actor, c) then Step(st, Denied)
    else if !formOk then Step(st, Invalid(FormInvalid))
    else
      var ev := Event(c, form.date, form.deadline, form.capacity, Pending, Some(actor), None, None);
      Step(st.(events := st.events[st.nextEvent := ev], nextEvent := st.nextEvent + 1), Ok)
  }

  /** The guards of the event approval views: the event exists and the actor
      has a profile. */
  function EventGuard(st: Store, actor: UserId, e: EventId): (r: Outcome)
    ensures r in {Ok, NotFound, Crash}
    ensures r == Ok <==> e in st.events && actor in st.roles
  {
    if e !in st.events then NotFound
    else if actor !in st.roles then Crash
    else Ok
  }

  /** `approve_event` as written: the gate raises once the event is found. */
  function ApproveEventAsWritten(st: Store, actor: UserId, e: EventId, now: Time): (r: Step)
    ensures r.st == st
    ensures r.out == (if e in st.events then Crash else NotFound)
  {
    if e !in st.events then Step(st, NotFound) else Step(st, Crash)
  }

  /** `reject_event` as written: the gate raises once the event is found. */
  function RejectEventAsWritten(st: Store, actor: UserId, e: EventId): (r: Step)
    ensures r.st == st
    ensures r.out == (if e in st.events then Crash else NotFound)
  {
    if e !in st.events then Step(st, NotFound) else Step(st, Crash)
  }

  /** `approve_event` with the intended gate: an approved faculty advisor of
      the event's club (admin role alone is not enough) approves, recording
      who and when. */
  function ApproveEvent(st: Store, actor: UserId, e: EventId, now: Time): (r: Step)
    ensures r.st.(events := st.events) == st
    ensures r.out == Ok <==>
      EventGuard(st, actor, e) == Ok && IsClubFacultyAdvisor(st.memberships, actor, st.events[e].club)
    ensures EventGuard(st, actor, e) != Ok ==> r.out == EventGuard(st, actor, e)
    ensures EventGuard(st, actor, e) == Ok && !IsClubFacultyAdvisor(st.memberships, actor, st.events[e].club) ==>
      r.out == Denied
    ensures r.out != Ok ==> r.st == st
    ensures r.out == Ok ==>
      r.st.events == st.events[e := st.events[e].(status := Approved, approvedBy := Some(actor), approvedDate := Some(now))]
  {
    var guard := EventGuard(st, actor, e);
    if guard != Ok then Step(st, guard)
    else
      var ev := st.events[e];
      if !IsClubFacultyAdvisor(st.memberships, actor, ev.club) then Step(st, Denied)
      else
        var ev' := ev.(status := Approved, approvedBy := Some(actor), approvedDate := Some(now));
        Step(st.(events := st.events[e := ev']), Ok)
  }

  /** `reject_event` with the intended gate: rejection also clears the
      approver and the approval date. */
  function RejectEvent(st: Store, actor: UserId, e: EventId): (r: Step)
    ensures r.st.(events := st.events) == st
    ensures r.out == Ok <==>
      EventGuard(st, actor, e) == Ok && IsClubFacultyAdvisor(st.memberships, actor, st.events[e].club)
    ensures EventGuard(st, actor, e) != Ok ==> r.out == EventGuard(st, actor, e)
    ensures EventGuard(st, actor, e) == Ok && !IsClubFacultyAdvisor(st.memberships, actor, st.events[e].club) ==>
      r.out == Denied
    ensures r.out != Ok ==> r.st == st
    ensures r.out == Ok ==>
      r.st.events == st.events[e := st.events[e].(status := Rejected, approvedBy := None, approvedDate := None)]
  {
    var guard := EventGuard(st, actor, e);
    if guard != Ok then Step(st, guard)
    else
      var ev := st.events[e];
      if !IsClubFacultyAdvisor(st.memberships, actor, ev.club) then Step(st, Denied)
      else
        var ev' := ev.(status := Rejected, approvedBy := None, approvedDate := None);
        Step(st.(events := st.events[e := ev']), Ok)
  }

  // ---------------------------------------------------------------------
  // Properties relating several calls

  /** A successful registration adds one to the count and still fits the
      capacity, so the store stays valid; failures leave it as it was. */
  lemma RegisterPreservesValid(st: Store, u: UserId, e: EventId, now: Time, isPost: bool)
    requires st.Valid()
    ensures RegisterEvent(st, u, e, now, isPost).st.Valid()
    ensures RegisterEvent(st, u, e, now, isPost).out == Ok ==>
      RegCount(RegisterEvent(st, u, e, now, isPost).st.registrations, e) == RegCount(st.registrations, e) + 1
  {
    var r := RegisterEvent(st, u, e, now, isPost);
    if r.out == Ok {
      var regs' := r.st.registrations;
      RegCountAdd(st.registrations, u, e);
      forall e' | e' in r.st.events && r.st.events[e'].capacity > 0
        ensures RegCount(regs', e') <= r.st.events[e'].capacity
      {
        if e' != e {
          RegCountOther(st.registrations, u, e', e);
        }
      }
    }
  }

  lemma CancelPreservesValid(st: Store, u: UserId, e: EventId, isPost: bool)
    requires st.Valid()
    ensures CancelRegistration(st, u, e, isPost).st.Valid()
  {
    var regs' := CancelRegistration(st, u, e, isPost).st.registrations;
    forall e' | e' in st.events
      ensures RegCount(regs', e') <= RegCount(st.registrations, e')
    {
      RegCountShrink(st.registrations, regs', e');
    }
  }

  /** A new event has no registrations yet, so it fits any capacity. */
  lemma CreatePreservesValid(st: Store, actor: UserId, c: ClubId, form: EventForm, formOk: bool)
    requires st.Valid() && st.nextEvent !in st.events
    ensures CreateEvent(st, actor, c, form, formOk).st.Valid()
  {
  }

  lemma ApprovalPreservesValid(st: Store, actor: UserId, e: EventId, now: Time)
    requires st.Valid()
    ensures ApproveEvent(st, actor, e, now).st.Valid()
    ensures RejectEvent(st, actor, e).st.Valid()
  {
  }

  /** Rejecting twice is the same as rejecting once. */
  lemma RejectEventIdempotent(st: Store, actor: UserId, e: EventId)
    ensures RejectEvent(RejectEvent(st, actor, e).st, actor, e).st == RejectEvent(st, actor, e).st
  {
  }

  /** Rejection overrides an approval and leaves no trace of it. */
  lemma RejectAfterApprove(st: Store, actor: UserId, e: EventId, now: Time)
    requires ApproveEvent(st, actor, e, now).out == Ok
    ensures RejectEvent(ApproveEvent(st, actor, e, now).st, actor, e).st == RejectEvent(st, actor, e).st
  {
  }

  /** An admin who is not an approved advisor of the event's club cannot
      approve or reject it, whatever other row the admin holds there. */
  lemma AdminAloneCannotJudgeEvents(st: Store, actor: UserId, e: EventId, now: Time)
    requires e in st.events && actor in st.roles && st.roles[actor] == Admin
    requires !IsClubFacultyAdvisor(st.memberships, actor, st.events[e].club)
    ensures ApproveEvent(st, actor, e, now) == Step(st, Denied)
    ensures RejectEvent(st, actor, e) == Step(st, Denied)
  {
  }

  /** Register then cancel restores the registrations. */
  lemma RegisterThenCancel(st: Store, u: UserId, e: EventId, now: Time)
    requires RegisterEvent(st, u, e, now, true).out == Ok
    ensures CancelRegistration(RegisterEvent(st, u, e, now, true).st, u, e, true) == Step(st, Ok)
  {
  }

  /** A full event turns a new registrant away: capacity 1 with one
      registration already present. */
  lemma FullEventScenario(st: Store, u: UserId, other: UserId, e: EventId, now: Time)
    requires e in st.events && st.events[e].capacity == 1
    requires st.events[e].date >= now && st.events[e].deadline.None?
    requires (other, e) in st.registrations
    ensures RegisterEvent(st, u, e, now, true) == Step(st, Invalid(EventFull))
  {
    assert (other, e) in RegistrationsOf(st.registrations, e);
  }

  /** The gates as written turn away even an approved faculty advisor of the
      event's club, whom the intended gate admits. */
  lemma EventGateDiscrepancy(st: Store, actor: UserId, e: EventId, now: Time)
    requires e in st.events && actor in st.roles
    requires IsClubFacultyAdvisor(st.memberships, actor, st.events[e].club)
    ensures ApproveEventAsWritten(st, actor, e, now).out.Crash?
    ensures RejectEventAsWritten(st, actor, e).out.Crash?
    ensures ApproveEvent(st, actor, e, now).out == Ok
    ensures RejectEvent(st, actor, e).out == Ok
  {
  }

  /** A registration request never adds a row to an event that is full. */
  lemma NoRegistrationWhenFull(st: Store, u: UserId, e: EventId, now: Time, isPost: bool)
    requires e in st.events && IsFull(st.events[e], RegCount(st.registrations, e))
    ensures RegisterEvent(st, u, e, now, isPost).st == st
    ensures RegisterEvent(st, u, e, now, isPost).out != Ok
  {
  }
}
