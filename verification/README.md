# College club and event hub: rule logic in Dafny

This project models the rule logic of a college club and event web
application. Users ask to join clubs. Club leaders and faculty advisors
approve members and events. Users register for events. The application
also recommends clubs and events.

The database becomes one immutable `Store`, defined in `types.dfy`. It holds:

- each user's role: student, faculty or admin;
- the clubs;
- membership rows, keyed by (user, club);
- events;
- registrations, as a set of (user, event) pairs;
- the next free event id.

Each Django view becomes a pure function from the store to a `Step`. A
`Step` pairs the new store with an outcome tag. The tag stands in for the
flash message:

- `Ok`, `Info`, `Denied`, `Invalid(why)` and `NotFound` stand for the
  flash messages and the 404;
- `Crash` stands for an uncaught exception;
- `NoOp` stands for a non-POST request that the view ignores.

The clock is the integer parameter `now`.

Keying memberships by (user, club) and holding registrations in a set
enforces the two `unique_together` constraints by construction.
`Store.Valid` adds the other invariants:

- every row refers to a club or event that exists;
- no event with a capacity holds more registrations than its capacity.

Every transition is proved to keep `Store.Valid`.

Modules:

- `Types` (types.dfy): the entities, the store and its invariant, and registration and member counts.
- `Permissions` (permissions.dfy): the permission predicates of `UserProfile`.
- `Memberships` (memberships.dfy): `join_club`, `leave_club`, `approve_member`, `reject_member`, `make_leader` and `remove_member`.
- `Events` (events.dfy): `Event.is_full`, `create_event`, `approve_event`, `reject_event`, `register_event` and `cancel_event_registration`.
- `Clubs` (clubs.dfy): `update_club`, `delete_club` and the foreign-key cascade.
- `Ranking` (ranking.dfy): top-k selection by score, standing in for `order_by(...)[:5]`.
- `Recommendations` (recommendations.dfy): `get_recommended_clubs` and `get_recommended_events`.
- `Profiles` (profiles.dfy): `profile_view`, which creates a missing profile as a student.
- `Calendar` (calendar.dfy): the previous and next month of `calendar_view`.

Behaviour the model keeps from the code:

- The `members` relation goes through every membership row, whatever its status. So "the user's clubs" in both recommendation queries includes pending and rejected requests. The member counts used for ranking count every row.
- `reject_member` changes only the status. So a rejected row can still carry an earlier approver and approval date.
- `make_leader` checks neither the target row's status nor the actor's role. Only the advisor row counts.
- `remove_member` deletes the row but keeps the user's event registrations.
- Event recommendations ignore the event's approval status.
- Python's `datetime` covers years 1 to 9999. Stepping back from January of year 1, or forward from December of year 9999, raises `ValueError`. `PrevMonth` and `NextMonth` return `None` for those two cases.

## Model

| member | source | states |
|---|---|---|
| Permissions.ManageClubCharacterized | clubs/models.py:224-232 | A user may manage a club exactly when the user is an admin, or is faculty with an approved faculty-advisor row for the club, or has an approved leader row for it. The statement is checked against an existence reading of the ORM filters. |
| Permissions.LeaderMatchesQuery | clubs/models.py:182-189 | The single-key leader check agrees with "some row matches user, club, role leader and status approved". |
| Permissions.AdvisorMatchesQuery | clubs/models.py:196-203 | The single-key advisor check agrees with "some row matches user, club, role faculty_advisor and status approved". |
| Permissions.DelegatedPermissionsAgree | clubs/models.py:234-238 | Approving members and managing events are always the same decision as managing the club. |
| Permissions.CreateClubCharacterized | clubs/models.py:240-241 | Only students may not create clubs. |
| Permissions.DeleteClubCharacterized | clubs/models.py:243-244 | A user may delete a club exactly when the user is an admin, or is faculty with an approved faculty-advisor row for that club. |
| Permissions.DeleteImpliesManage | clubs/models.py:224-244 | Whoever may delete a club may also manage it. |
| Permissions.StudentAdvisorRowGrantsNothing | clubs/models.py:224-232 | A student holding a faculty-advisor row for a club can neither manage nor delete that club. |
| Permissions.DemotionOnlyRevokes | clubs/models.py:81-85 | Changing one row's status to pending or rejected never grants anyone a management, deletion, leader or advisor permission they lacked. |
| Permissions.OnlyApprovedRowsCount | clubs/models.py:182-208 | With a non-approved row for the club, only the admin role can manage or delete it. |
| Memberships.JoinClub | clubs/views.py:211-238 | With no row, a pending member request with no approver appears. A pending or approved row is left alone with an informational result. A rejected row returns to pending and keeps its role and approver fields. No other row changes, and a join never produces an approval that was not already there. |
| Memberships.LeaveClub | clubs/views.py:243-252 | On a POST, exactly the caller's own row is deleted, whatever its role. With no row, nothing changes and the result is informational. |
| Memberships.ApproveMember | clubs/views.py:421-432 | The view succeeds exactly when the club and row exist and the actor may approve members. It then sets status approved, the approver to the actor and the date to now, keeping the role. A missing club, user or row passes its own outcome through, an actor without the permission is denied, and a refusal changes nothing. |
| Memberships.RejectMember | clubs/views.py:438-447 | The view succeeds under the same gate as approval. It changes only the row's status, to rejected. An actor without the permission is denied, and a refusal changes nothing. |
| Memberships.MakeLeaderAsWritten | clubs/views.py:453-459 | Once the club and row are found, the view always raises, whoever the actor, and changes nothing. |
| Memberships.MakeLeader | clubs/views.py:453-462 | With the intended advisor gate, the view succeeds exactly for an approved faculty advisor of the club, who need not be faculty. Anyone else is denied. Only the target row's role changes, to leader. |
| Memberships.RemoveMember | clubs/views.py:521-538 | The view succeeds exactly when the actor may manage the club and the row is not a faculty advisor's. It then removes that one row. A faculty advisor's row is never removed; a manager asking to remove it is denied. A missing club, row or profile passes its own outcome through, and a non-manager is denied. |
| Memberships.MembershipStepsPreserveValid | clubs/models.py:64-73 | Every membership transition keeps the store's referential integrity and capacity invariant. |
| Memberships.RejectThenJoin | clubs/views.py:220-229 | After a rejection, a new join request moves the row to pending, never to approved. |
| Memberships.JoinThenApprove | clubs/views.py:231-237 | A new request approved by an approved leader of the club becomes an approved member row whose approver is that leader. |
| Memberships.RejectLeavesStaleApproval | clubs/views.py:446-447 | Approval followed by rejection leaves a rejected row that still carries the approval date. |
| Memberships.NonManagerChangesNothing | clubs/views.py:425-427 | An actor who may not manage the club cannot change the store by approving, rejecting or removing. |
| Memberships.AdvisorNeverRemoved | clubs/views.py:530-532 | A faculty advisor's row is still present after any remove request. |
| Memberships.AdminAloneCannotMakeLeader | clubs/views.py:457-459 | An admin who is not an approved faculty advisor of the club cannot assign a leader, whatever other row the admin holds there. |
| Memberships.MakeLeaderDiscrepancy | clubs/views.py:457 | For an approved advisor of the club, the view as written raises where the intended gate succeeds. |
| Events.FullIffAtCapacity | clubs/models.py:110-112 | In a valid store, an event with capacity 0 is never full, and an event with a capacity is full exactly when its registrations have reached that capacity. |
| Events.NoRegistrationWhenFull | clubs/views.py:266-267 | A registration request for a full event never succeeds and leaves the store unchanged. |
| Events.Closed | clubs/views.py:262-267 | Registration is closed because the event has passed exactly when its date is strictly before now. It is closed for the deadline exactly when the event has not passed and a set deadline is strictly before now. It is closed as full only when neither earlier check applies. |
| Events.RegisterEvent | clubs/views.py:257-275 | A POST adds exactly the pair (user, event) when the event is open and the user is not registered. A closed event yields the first failing check's error, and a duplicate yields an informational result. Every failure leaves the store unchanged. |
| Events.CancelRegistration | clubs/views.py:286-295 | A POST removes exactly the caller's own registration. With none, nothing changes and the result is informational. |
| Events.CreateEvent | clubs/views.py:468-486 | A club manager with a valid form adds one pending event of that club, created by the actor, under a fresh id. A non-manager is denied. Nothing else changes. |
| Events.ApproveEventAsWritten | clubs/views.py:489-494 | Once the event is found, the view always raises and changes nothing. |
| Events.RejectEventAsWritten | clubs/views.py:505-510 | Once the event is found, the view always raises and changes nothing. |
| Events.ApproveEvent | clubs/views.py:489-499 | With the intended gate, only an approved faculty advisor of the event's club approves. Anyone else is denied. Approval sets status, approver and date on that event alone. |
| Events.RejectEvent | clubs/views.py:505-515 | With the intended gate, only an approved faculty advisor of the event's club rejects. Rejection sets the status to rejected and clears the approver and the date on that event alone. Anyone else is denied. |
| Events.RegisterPreservesValid | clubs/models.py:110-112 | A successful registration raises the event's count by exactly one and keeps every event within its capacity. |
| Events.CancelPreservesValid | clubs/views.py:290-292 | Cancelling keeps the store valid. |
| Events.CreatePreservesValid | clubs/views.py:477-481 | A newly created event has no registrations, so the store stays valid. |
| Events.ApprovalPreservesValid | clubs/views.py:496-515 | Approving or rejecting an event keeps the store valid. |
| Events.RejectEventIdempotent | clubs/views.py:512-515 | For every store and actor, rejecting an event twice gives the same store as rejecting it once. |
| Events.RejectAfterApprove | clubs/views.py:496-515 | A rejection after an approval leaves no trace of the approval. |
| Events.AdminAloneCannotJudgeEvents | clubs/views.py:492-494 | An admin who is not an approved faculty advisor of the event's club is denied both approval and rejection, whatever other row the admin holds there. |
| Events.RegisterThenCancel | clubs/views.py:268-292 | Registering and then cancelling restores the original store. |
| Events.FullEventScenario | clubs/views.py:266-267 | An open event with capacity 1 and one registration refuses a new registrant as full and creates no row. |
| Events.EventGateDiscrepancy | clubs/views.py:492-510 | For an approved advisor of the event's club, both views as written raise where the intended gate succeeds. |
| Clubs.UpdateClub | clubs/views.py:544-559 | The update succeeds exactly when the club exists and the actor may manage it and posts a valid form. It then sets the club's category and changes nothing else. A non-manager is denied, an invalid form is an error, and any other result leaves the store unchanged. |
| Clubs.UpdateClubPreservesValid | clubs/views.py:551-554 | Updating a club keeps the store valid. |
| Clubs.DeleteCascade | clubs/models.py:64-145 | Deleting a club leaves exactly the other clubs' membership rows (the cascade at line 65) and events (line 98), unchanged, and exactly the registrations of surviving events (line 145). |
| Clubs.DeleteClub | clubs/views.py:562-577 | The club is deleted with its cascade exactly when the actor may delete it and posts the word DELETE. A non-deleter is denied, and a wrong confirmation is an error. Nothing changes unless the club is deleted. |
| Clubs.DeleteCascadePreservesValid | clubs/models.py:143-145 | After the cascade, no row refers to the deleted club or to its events, and the store is valid. |
| Clubs.DeleteClubPreservesValid | clubs/views.py:569-573 | The delete view keeps the store valid. |
| Clubs.LeaderCannotDelete | clubs/models.py:243-244 | A non-admin club leader cannot delete the club, whatever they post. |
| Ranking.SelectBest | clubs/models.py:38-39 | The chosen id belongs to the set and no id in it scores higher. |
| Ranking.TopByScore | clubs/models.py:36-39 | The result holds min(k, pool size) distinct ids of the pool, in non-increasing score. No id left out scores higher than any id taken. |
| Ranking.TopEmptyIffPoolEmpty | clubs/models.py:41-42 | A top-5 list is empty exactly when its pool is, which is when the fallback query runs. |
| Recommendations.RecommendedClubs | clubs/models.py:30-46 | The result holds at most five distinct clubs, none with any row for the user, in non-increasing member count. They are the top of the unjoined clubs in the user's categories, or, only when that set is empty, the top of all unjoined clubs. |
| Recommendations.RecommendedEvents | clubs/models.py:114-138 | The result holds at most five distinct events dated strictly after now that the user is not registered for. When the user's clubs have such events, they are the soonest of them, in date order. Otherwise they are those with the most registrations. |
| Recommendations.CategoryChangeCreatesMatch | clubs/views.py:551-554 | After a manager moves a club into the category of another club the user belongs to, the moved club is one of the user's category matches, unless the user already has a row in it. |
| Recommendations.CategoryMatchScenario | clubs/models.py:33-39 | A user in one technical club is recommended only the other technical club, ahead of a more popular cultural one. |
| Profiles.ProfileView | clubs/views.py:152-156 | The caller always has a profile afterwards. An existing profile keeps its role, a missing one is created with role student, and nothing else in the store changes. |
| Profiles.ProfileViewIdempotent | clubs/views.py:156 | Visiting the profile page twice leaves the same store as visiting it once. |
| Profiles.ProfileViewPreservesValid | clubs/views.py:156 | Creating a profile keeps the store valid. |
| Profiles.NewProfileGrantsOnlyLeadership | clubs/models.py:165 | A newly created profile lets its user manage a club only as the club's approved leader, and delete or create none. |
| Profiles.ProfileTurnsCrashIntoDenial | clubs/views.py:156 | A non-leader without a profile makes the approve view raise; after the profile page has created the profile, the same request is denied. |
| Calendar.PrevMonth | clubs/views.py:318-321 | The previous month is one month earlier. January goes to December of the year before. The step fails only from January of year 1. |
| Calendar.NextMonth | clubs/views.py:323-326 | The next month is one month later. December goes to January of the year after. The step fails only from December of year 9999. |
| Calendar.PrevOfNext | clubs/views.py:317-326 | Going forward one month and back returns the same month. |
| Calendar.NextOfPrev | clubs/views.py:317-326 | Going back one month and forward returns the same month. |

## Left out

- Rendering, redirects, flash-message wording, `club_manage` context assembly (including its use of the same missing method at views.py:406), and `icontains` search: presentation and ORM text search.
- Read-only pages (`home`, `club_list`, `club_detail`, `event_list`, `event_detail`, `member_list`, `dashboard`, `public_profile_view`): rendering only.
- Filtering events by month and the calendar grid in `calendar_view`: only the month arithmetic is modelled. The current month comes from the request or the clock, as a parameter.
- `update_club`'s name, description and image fields: no rule reads them. Only the category is modelled, since recommendations group clubs by it.
- `profile_view`'s form save of bio, department and avatar, and its list of registered events: no rule reads them. Only the profile creation is modelled.
- Signup in `register`: session handling, the atomic block and user deletion on failure. This is plumbing around Django authentication.
- `is_club_leader` and `is_club_faculty_advisor` called without a club, `get_led_clubs` and `get_advised_clubs`: not used by the modelled views.
- Form validation: `CreateEvent` and `UpdateClub` take a `formOk` flag for a valid POST. `DeleteClub` takes the posted confirmation string.
- Events.CreateEvent: requires `nextEvent` not to be in use, because the database's id sequence guarantees a fresh id. The model does not generate ids.
- Recommendations.RecommendedClubs: does not fix the order among clubs with equal member counts, because the database does not.
- Recommendations.RecommendedEvents: does not fix the order among events with equal keys, because the database does not.
- Deleting users, with the `CASCADE` and `SET_NULL` effects on rows that refer to them: no modelled view deletes users.
- Timestamps the database fills in (`joined_date`, `created_at`, `registered_at`), images, and titles, descriptions and locations: no rule depends on them.
- Concurrency: uniqueness is a map-key invariant and capacity is a store invariant, not locking.
- Real datetimes and time zones: timestamps are integers.
- Authentication backend, forms, admin registration, URL routing, the front-end script and the sample-data commands: configuration, widgets and seeding I/O.

## Findings

| source | as written | input that shows it | evidently intended | confidence | as-written member | corrected member |
|---|---|---|---|---|---|---|
| clubs/views.py:457 | `make_leader` gates on `userprofile.is_faculty_advisor(club)`, which `UserProfile` does not define, so the call raises `AttributeError` | an approved faculty advisor of the club asks to make any existing member a leader | gate on `is_club_faculty_advisor(club)` | high; not executed | Memberships.MakeLeaderAsWritten | Memberships.MakeLeader |
| clubs/views.py:492 | `approve_event` gates on the same undefined method and raises | an approved faculty advisor of the event's club asks to approve the event | gate on `is_club_faculty_advisor(event.club)` | high; not executed | Events.ApproveEventAsWritten | Events.ApproveEvent |
| clubs/views.py:508 | `reject_event` gates on the same undefined method and raises | an approved faculty advisor of the event's club asks to reject the event | gate on `is_club_faculty_advisor(event.club)` | high; not executed | Events.RejectEventAsWritten | Events.RejectEvent |

The lemmas `Memberships.MakeLeaderDiscrepancy` and `Events.EventGateDiscrepancy` exhibit each discrepancy. In both, an approved advisor gets `Crash` from the view as written and `Ok` from the corrected view.
