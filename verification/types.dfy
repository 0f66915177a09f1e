/**
 The abstract store behind the club and event application: user roles,
 clubs, membership rows keyed by (user, club), events, and event
 registrations as a set of (user, event) pairs.

 Keying memberships by (user, club) and holding registrations in a set
 turns the two database uniqueness constraints (`unique_together` on
 ClubMembership and EventRegistration) into facts of the types: there can
 be no second row for the same pair.
 */
module Types {

  type UserId = nat
  type ClubId = nat
  type EventId = nat

  /** Timestamps are plain integers; the clock is a parameter. */
  type Time = int

  datatype Option<T> = None | Some(value: T)

  /** UserProfile.role */
  datatype Role = Student | Faculty | Admin

  /** ClubMembership.role */
  datatype MemberRole = Member | Leader | FacultyAdvisor

  /** ClubMembership.status and Event.status share the same three values. */
  datatype Status = Pending | Approved | Rejected

  /** Club.category */
  datatype Category = Technical | Cultural | Sports | Academic | Social

  datatype Club = Club(category: Category)

  datatype Membership = Membership(
    role: MemberRole,
    status: Status,
    approvedBy: Option<UserId>,
    approvedDate: Option<Time>)
  {
    /** Leadership counts only once the row is approved. */
    predicate IsLeader() {
      role == Leader && status == Approved
    }

    /** Advisorship counts only once the row is approved. */
    predicate IsFacultyAdvisor() {
      role == FacultyAdvisor && status == Approved
    }
  }

  /** An event of one club. A capacity of 0 means unlimited. */
  datatype Event = Event(
    club: ClubId,
    date: Time,
    deadline: Option<Time>,
    capacity: nat,
    status: Status,
    createdBy: Option<UserId>,
    approvedBy: Option<UserId>,
    approvedDate: Option<Time>)

  type Memberships = map<(UserId, ClubId), Membership>
  type Registrations = set<(UserId, EventId)>

  datatype Store = Store(
    roles: map<UserId, Role>,
    clubs: map<ClubId, Club>,
    memberships: Memberships,
    events: map<EventId, Event>,
    registrations: Registrations,
    nextEvent: EventId)
  {
    /** Referential integrity: every row points at something that exists,
        and every event id is below the next id the store hands out. */
    predicate WellFormed() {
      && (forall k :: k in memberships ==> k.1 in clubs)
      && (forall e :: e in events ==> events[e].club in clubs && e < nextEvent)
      && (forall p :: p in registrations ==> p.1 in events)
    }

    /** No event with a capacity holds more registrations than it allows. */
    predicate WithinCapacity() {
      forall e :: e in events && events[e].capacity > 0 ==>
        RegCount(registrations, e) <= events[e].capacity
    }

    predicate Valid() {
      WellFormed() && WithinCapacity()
    }
  }

  /** The registration rows of event `e`. */
  function RegistrationsOf(regs: Registrations, e: EventId): set<(UserId, EventId)> {
    set p | p in regs && p.1 == e
  }

  /** `event.registered_users.count()` */
  function RegCount(regs: Registrations, e: EventId): nat {
    |RegistrationsOf(regs, e)|
  }

  /** The membership rows of club `c`, whatever their role or status. */
  function RowsOf(ms: Memberships, c: ClubId): set<(UserId, ClubId)> {
    set k | k in ms && k.1 == c
  }

  /** `Count('members')`: the through relation counts every row, pending and
      rejected ones included. */
  function MemberCount(ms: Memberships, c: ClubId): nat {
    |RowsOf(ms, c)|
  }

  /** Why a request was turned away by a business rule. */
  datatype Violation = EventPassed | DeadlinePassed | EventFull | FormInvalid | ConfirmMismatch

  /** The flash message a view leaves behind, as a tag.
      Ok = success, Info = informational or warning no-op, Denied = permission
      error, Invalid = business-rule error, NotFound = 404, Crash = an
      uncaught exception (500), NoOp = a request the view ignores (not POST). */
  datatype Outcome = Ok | Info | Denied | Invalid(why: Violation) | NotFound | Crash | NoOp

  /** The store after a view, and what the view reported. */
  datatype Step = Step(st: Store, out: Outcome)

  /** Adding a row that is not yet there raises the event's count by one. */
  lemma RegCountAdd(regs: Registrations, u: UserId, e: EventId)
    requires (u, e) !in regs
    ensures RegCount(regs + {(u, e)}, e) == RegCount(regs, e) + 1
  {
    assert RegistrationsOf(regs + {(u, e)}, e) == RegistrationsOf(regs, e) + {(u, e)};
  }

  /** Adding a row for another event leaves the count of `e` alone. */
  lemma RegCountOther(regs: Registrations, u: UserId, e: EventId, e': EventId)
    requires e != e'
    ensures RegCount(regs + {(u, e')}, e) == RegCount(regs, e)
  {
    assert RegistrationsOf(regs + {(u, e')}, e) == RegistrationsOf(regs, e);
  }

  /** Removing rows never raises a count. */
  lemma RegCountShrink(regs: Registrations, regs': Registrations, e: EventId)
    requires regs' <= regs
    ensures RegCount(regs', e) <= RegCount(regs, e)
  {
    var small, big := RegistrationsOf(regs', e), RegistrationsOf(regs, e);
    assert big == small + (big - small);
    assert |big| == |small| + |big - small|;
  }
}
