# Golf club lifecycle and registration rules, in Dafny

This project models the decision logic of a golf-club management service: the
member lifecycle (creation under a duplicate e-mail/phone rule, profile
update, administrative status override, membership extension, lazy expiry)
and the tournament lifecycle (creation and update under date-window,
capacity and start-date rules, member registration and withdrawal, the
status state machine, the statistics fan-out on completion, and revenue).

The persisted state is a `Store.Club`: the member and tournament tables as
maps from id to record, plus the next id each identity column will hand out.
Every service operation is a pure function of a `Club` and its arguments.
An operation that can throw returns a `Result`: the two creating operations
return `Result<(Club, Id), Error>` (the new store and the id just
assigned), the others `Result<Club, Error>`. A thrown exception becomes an
`Error` constructor, one per distinct message. The two operations that
never throw and silently ignore an absent id (`MemberService.UpdateMemberStatus`,
`MemberService.CheckMembershipStatus`) return a plain `Club`, unchanged
for an absent id.

The registration link is held once, as the participant id set inside each
`Tournament` (the owning side of the many-to-many mapping). The member side
(`Member.getTournaments()`) is the derived `Store.TournamentsOf`, and the
relation as (member id, tournament id) pairs is the derived
`Store.Registrations`, so the two sides always agree.

`Store.Valid` is the invariant every operation is proved to keep: stored ids
lie below the next id to be assigned, every stored tournament has its end
date not before its start date and its minimum not above its maximum, and no
two members share an e-mail address.

Modules, leaves first:

- `Results`: `Option`, `Result` and `Outcome`.
- `JavaInt`: 32-bit `int` addition with wrap-around.
- `Calendar`: proleptic Gregorian dates, `isBefore`, and `plusMonths` with
  month-end clamping.
- `Identity`: ids and id-based entity equality.
- `Members` and `Tournaments`: the two entities and their business methods.
- `Store`: the club state, the error kinds and the invariant.
- `MemberService` and `TournamentService`: the two service classes.
- `Revenue`: the club-wide revenue report over completed tournaments.
- `Scenarios`: worked examples on small concrete stores.

Behaviour of the code that is easy to miss:

- Saving a member or a tournament stores the record as received. It does not
  force ACTIVE or SCHEDULED status or zero counters. Those values come from
  the constructors and field initialisers (`Members.NewMember`,
  `Tournaments.NewTournament`).
- Updating a member does not only re-check the new e-mail. Once the e-mail
  changes, the whole duplicate check runs. It also checks the incoming phone
  against every member, the member itself included. A phone-only change is
  never checked.
- Moving to IN_PROGRESS needs `size >= minimum`. So with a minimum of 2, two
  registered members are enough (`Scenarios.StartNeedsMinimumParticipants`).
- Registering the same member twice fails with "full" rather than "already
  registered" when the first registration took the last place. The capacity
  guard runs first (`TournamentService.SecondRegistrationFails`).

## Model

| member | source | states |
|---|---|---|
| JavaInt.Add | src/main/java/com/golfclub/service/MemberService.java:115 | Java `int` addition: exact when the sum fits in 32 bits, otherwise off by exactly 2^32 in the wrapping direction |
| Calendar.PlusMonths | src/main/java/com/golfclub/model/Member.java:173 | `plusMonths(n)` moves the month index by exactly `n` and keeps the day of month, clamped to the length of the month reached |
| Calendar.PlusMonthsIsMonotone | src/main/java/com/golfclub/model/Member.java:173 | adding more months never yields an earlier date, so a longer membership never ends earlier |
| Calendar.PlusMonthsNotBefore | src/main/java/com/golfclub/model/Member.java:173 | adding a non-negative number of months never moves a date back |
| Calendar.PlusMonthsClampsToMonthEnd | src/main/java/com/golfclub/model/Member.java:173 | 31 January plus one month is 29 February in a leap year and 28 February otherwise; 1 January 2024 plus twelve months is 1 January 2025 |
| Calendar.IsBeforeIsStrictTotalOrder | src/main/java/com/golfclub/service/TournamentService.java:32-40 | `isBefore` is irreflexive, transitive and total on distinct dates |
| Identity.SameEntityIsIdEquality | src/main/java/com/golfclub/model/Tournament.java:201-207 | two saved entities are equal iff their ids are equal; an entity with a null id equals no other; equality is symmetric |
| Identity.SameEntityIsTransitive | src/main/java/com/golfclub/model/Member.java:184-190 | id-based equality is transitive |
| Identity.SavedEntitiesAreTheirIds | src/main/java/com/golfclub/model/Tournament.java:192-194 | for saved entities, `contains` under id-based `equals` is membership of the id, and the set has exactly as many elements as ids |
| Members.NewMember | src/main/java/com/golfclub/model/Member.java:68-78 | a newly constructed member is ACTIVE with zero tournaments played and zero winnings, and keeps the six given profile fields |
| Members.IsActive | src/main/java/com/golfclub/model/Member.java:168-170 | holds iff the status is ACTIVE |
| Members.IsMembershipExpired | src/main/java/com/golfclub/model/Member.java:172-174 | holds iff today is strictly after the start date plus the duration in months (see `Members.ExpiryStartsAfterEndDate`) |
| Members.ExpiryStartsAfterEndDate | src/main/java/com/golfclub/model/Member.java:172-174 | expired iff the start date plus the duration in months is strictly before today; not expired on that end date itself |
| Members.ExpiryIsPermanent | src/main/java/com/golfclub/model/Member.java:172-174 | a membership expired on some day is expired on every later day |
| Members.LongerDurationDefersExpiry | src/main/java/com/golfclub/model/Member.java:172-174 | with a duration at least as long, a membership that was not expired is still not expired |
| Members.IncrementTournamentsPlayed | src/main/java/com/golfclub/model/Member.java:176-178 | the count rises by exactly 1 (wrapping to the `int` minimum at the maximum) and no other field changes |
| Members.AddWinnings | src/main/java/com/golfclub/model/Member.java:180-182 | winnings rise by exactly `amount` and no other field changes |
| Tournaments.NewTournament | src/main/java/com/golfclub/model/Tournament.java:46-80 | a new tournament is SCHEDULED, takes 2 to 100 players, has no participants and keeps the five given fields |
| Tournaments.ParticipantIdsMatchEntities | src/main/java/com/golfclub/model/Tournament.java:188-194 | `isMemberRegistered` and the participant count give the same answers on the entity set compared by id as on the id set the model keeps |
| Tournaments.IsRegistrationOpen | src/main/java/com/golfclub/model/Tournament.java:182-186 | holds iff SCHEDULED, fewer participants than the maximum, and today strictly before the start date |
| Tournaments.HasMinimumParticipants | src/main/java/com/golfclub/model/Tournament.java:188-190 | holds iff the participant count is at least the minimum |
| Tournaments.IsMemberRegistered | src/main/java/com/golfclub/model/Tournament.java:192-194 | holds iff the member id is in the participant set |
| Tournaments.AddMember | src/main/java/com/golfclub/model/Tournament.java:172-175 | afterwards the member is registered, every other member is registered exactly as before, and no other field changes |
| Tournaments.RemoveMember | src/main/java/com/golfclub/model/Tournament.java:177-180 | afterwards the member is not registered, every other member is registered exactly as before, and no other field changes |
| Tournaments.AddRemoveChangeSizeByOne | src/main/java/com/golfclub/model/Tournament.java:172-180 | adding an unregistered member grows the participant count by one and re-adding changes nothing; removing a registered member shrinks it by one and removing an unregistered one changes nothing |
| Tournaments.RemoveUndoesAdd | src/main/java/com/golfclub/model/Tournament.java:172-180 | removing a member just added gives back the original tournament |
| Tournaments.CalculateTotalRevenue | src/main/java/com/golfclub/model/Tournament.java:196-198 | revenue is 0 with no participants and never negative for a non-negative fee |
| Tournaments.RevenueFollowsRegistrations | src/main/java/com/golfclub/model/Tournament.java:196-198 | adding a new participant raises revenue by exactly one entry fee, removing one lowers it by one entry fee |
| Store.EmptyIsValid | src/main/java/com/golfclub/model/Member.java:16-17 | a database with no rows, whose identity columns start at 1, satisfies the store invariant, has no duplicate phone and holds no registration |
| Store.LinkIsBidirectional | src/main/java/com/golfclub/model/Member.java:44-46 | a tournament is in a member's tournament list iff the member is in that tournament's participant set iff the pair is in the registration relation |
| MemberService.ValidateMember | src/main/java/com/golfclub/service/MemberService.java:27-36 | fails with "email exists" iff a non-null email is held by a stored member; otherwise with "phone exists" iff a non-null phone is held; null fields are not checked |
| MemberService.SaveMember | src/main/java/com/golfclub/service/MemberService.java:22-25 | fails iff the duplicate check fails, with its error; otherwise stores the member as given under a fresh id and changes nothing else |
| MemberService.SaveMemberKeepsContactsUnique | src/main/java/com/golfclub/service/MemberService.java:22-36 | creating a member keeps emails unique, keeps phones unique, and keeps the store valid |
| MemberService.UpdateMember | src/main/java/com/golfclub/service/MemberService.java:52-67 | absent id fails with not-found; unchanged email never fails; a changed email fails iff the incoming email or phone is held by any member, the member itself included; on success exactly the six profile fields are overwritten and status and counters are kept |
| MemberService.ChangingEmailKeepingOwnPhoneFails | src/main/java/com/golfclub/service/MemberService.java:55-57 | changing the email while keeping one's own phone fails with "phone exists" |
| MemberService.UpdateMemberKeepsStoreValid | src/main/java/com/golfclub/service/MemberService.java:52-67 | a successful update keeps emails unique and the store valid |
| MemberService.PhoneOnlyUpdateCanDuplicatePhone | src/main/java/com/golfclub/service/MemberService.java:55-61 | a phone-only change to another member's phone succeeds and leaves two members with the same phone |
| MemberService.UpdateMemberStatus | src/main/java/com/golfclub/service/MemberService.java:89-95 | absent id is a no-op; otherwise the status becomes the given one, whatever it was, and nothing else changes |
| MemberService.UpdateMemberStatusKeepsStoreValid | src/main/java/com/golfclub/service/MemberService.java:89-95 | the status override keeps the store valid and phones unique |
| MemberService.UpdateMembershipDuration | src/main/java/com/golfclub/service/MemberService.java:112-119 | fails iff the id is absent (not-found); otherwise the duration becomes the `int` sum of old and additional months and nothing else changes |
| MemberService.ExtensionIsAdditive | src/main/java/com/golfclub/service/MemberService.java:112-119 | without overflow the new duration is exactly old plus additional, and a non-negative extension never expires a membership that was not expired |
| MemberService.UpdateMembershipDurationKeepsStoreValid | src/main/java/com/golfclub/service/MemberService.java:112-119 | extending a membership keeps the store valid and phones unique |
| MemberService.CheckMembershipStatus | src/main/java/com/golfclub/service/MemberService.java:121-128 | absent id or unexpired membership is a no-op; an expired membership becomes EXPIRED whatever its status; only that status can change |
| MemberService.CheckMembershipStatusOnlyExpires | src/main/java/com/golfclub/service/MemberService.java:121-128 | the check leaves the status as it was or sets EXPIRED, never anything else, and is idempotent |
| MemberService.CheckMembershipStatusKeepsStoreValid | src/main/java/com/golfclub/service/MemberService.java:121-128 | the expiry check keeps the store valid |
| TournamentService.ValidateTournament | src/main/java/com/golfclub/service/TournamentService.java:31-41 | end-before-start, then minimum-above-maximum, then start-in-the-past, the first failing check wins; passes iff the tournament is well formed and does not start before today |
| TournamentService.SaveTournament | src/main/java/com/golfclub/service/TournamentService.java:26-29 | fails iff validation fails, with its error; otherwise stores the tournament as given under a fresh id, well formed, and changes nothing else |
| TournamentService.SaveTournamentKeepsStoreValid | src/main/java/com/golfclub/service/TournamentService.java:26-41 | creating a tournament keeps every stored tournament well formed and the store valid |
| TournamentService.UpdateTournament | src/main/java/com/golfclub/service/TournamentService.java:57-71 | absent id fails with not-found before validation; otherwise fails iff the incoming data fails validation; on success exactly dates, location, fee, prize, minimum and maximum are overwritten, status and participants kept |
| TournamentService.UpdateTournamentKeepsStoreValid | src/main/java/com/golfclub/service/TournamentService.java:57-71 | a successful update keeps the store valid |
| TournamentService.UpdateCanLeaveTournamentOverfull | src/main/java/com/golfclub/service/TournamentService.java:57-71 | an update may set the maximum below the current participant count, and succeeds |
| TournamentService.ValidateMemberRegistration | src/main/java/com/golfclub/service/TournamentService.java:84-97 | full, then member not ACTIVE, then tournament not SCHEDULED, then already registered, first failure wins; passes iff none applies |
| TournamentService.AddMemberToTournament | src/main/java/com/golfclub/service/TournamentService.java:73-82 | tournament missing, then member missing, then the registration guards in order; on success exactly that member is added, the count rises by 1 and stays within the maximum, nothing else changes |
| TournamentService.RegistrationAddsExactlyOnePair | src/main/java/com/golfclub/service/TournamentService.java:79-81 | a successful registration adds exactly one new (member, tournament) pair, seen from both sides |
| TournamentService.SecondRegistrationFails | src/main/java/com/golfclub/service/TournamentService.java:84-97 | registering the same member again fails: "full" if the first registration filled the tournament, else "already registered" |
| TournamentService.OpenTournamentAdmitsActiveMember | src/main/java/com/golfclub/model/Tournament.java:182-186 | a tournament open for registration admits every active, not yet registered member |
| TournamentService.RegistrationIgnoresStartDate | src/main/java/com/golfclub/service/TournamentService.java:84-97 | a SCHEDULED tournament with room admits members on or after its start date although it is not open for registration then |
| TournamentService.AddMemberToTournamentKeepsStoreValid | src/main/java/com/golfclub/service/TournamentService.java:73-82 | registration keeps the store valid |
| TournamentService.RemoveMemberFromTournament | src/main/java/com/golfclub/service/TournamentService.java:99-111 | tournament missing, then member missing, then not registered; succeeds iff registered, whatever the status, and removes exactly that member |
| TournamentService.WithdrawalRemovesExactlyOnePair | src/main/java/com/golfclub/service/TournamentService.java:105-110 | a successful withdrawal removes exactly one existing (member, tournament) pair, seen from both sides |
| TournamentService.WithdrawalUndoesRegistration | src/main/java/com/golfclub/service/TournamentService.java:73-111 | withdrawing right after a successful registration restores the store exactly |
| TournamentService.RemoveMemberFromTournamentKeepsStoreValid | src/main/java/com/golfclub/service/TournamentService.java:99-111 | withdrawal keeps the store valid |
| TournamentService.ValidateStatusTransition | src/main/java/com/golfclub/service/TournamentService.java:140-148 | fails from COMPLETED whatever the target; else fails iff the target is IN_PROGRESS without the minimum; passes otherwise |
| TournamentService.UpdateMemberStats | src/main/java/com/golfclub/service/TournamentService.java:150-155 | every stored participant gets one more tournament played; every other member is unchanged |
| TournamentService.UpdateTournamentStatus | src/main/java/com/golfclub/service/TournamentService.java:128-138 | absent id is a no-op; fails iff the transition guard fails, with its error; on success only the status changes, and members change only by the fan-out, only when the target is COMPLETED |
| TournamentService.CompletionCountsEachParticipantOnce | src/main/java/com/golfclub/service/TournamentService.java:128-155 | on completion each participant has played exactly one more tournament, non-participants are unchanged, and winnings and all other fields are untouched |
| TournamentService.CompletedIsTerminal | src/main/java/com/golfclub/service/TournamentService.java:141-143 | after completion every status change, to COMPLETED too, fails |
| TournamentService.UnguardedTransitionsSucceed | src/main/java/com/golfclub/service/TournamentService.java:140-148 | from any status but COMPLETED every target except IN_PROGRESS is accepted, e.g. CANCELLED to SCHEDULED |
| TournamentService.UpdateTournamentStatusKeepsStoreValid | src/main/java/com/golfclub/service/TournamentService.java:128-138 | a status change keeps the store valid |
| TournamentService.CalculateTournamentRevenue | src/main/java/com/golfclub/service/TournamentService.java:162-167 | zero for an absent id, otherwise the tournament revenue (fee times participant count) |
| TournamentService.RevenueTracksRegistrations | src/main/java/com/golfclub/service/TournamentService.java:162-167 | registration raises the tournament's revenue by one entry fee and withdrawal lowers it by one |
| Revenue.TotalRevenue | src/main/java/com/golfclub/repository/TournamentRepo.java:23 | null iff no tournament is COMPLETED, otherwise the sum over COMPLETED tournaments of fee times participant count |
| Revenue.RegistrationKeepsTotalRevenue | src/main/java/com/golfclub/repository/TournamentRepo.java:23 | registration never changes the total revenue report |
| Revenue.CompletionAddsTournamentRevenue | src/main/java/com/golfclub/repository/TournamentRepo.java:23 | completing a tournament adds exactly its revenue to the report, which is then not null |
| Revenue.WithdrawalFromCompletedLowersRevenue | src/main/java/com/golfclub/service/TournamentService.java:99-111 | withdrawal from a COMPLETED tournament succeeds and lowers the report by one entry fee, members' counts untouched |
| Scenarios.FirstSavesAreNumberedFromOne | src/main/java/com/golfclub/service/TournamentService.java:26-29 | on an empty database the first saved member and the first saved tournament both get id 1, the tournament save leaves the members alone, and the store stays valid |
| Scenarios.MembershipExpiresAfterTwelveMonths | src/main/java/com/golfclub/service/MemberService.java:121-128 | a 12-month membership from 2024-01-01 is set EXPIRED on 2025-02-01 and left ACTIVE on 2025-01-01 |
| Scenarios.StartNeedsMinimumParticipants | src/main/java/com/golfclub/service/TournamentService.java:144-147 | with one of two required players IN_PROGRESS fails; after a second registration it succeeds |
| Scenarios.FullTournamentRejectsRegistration | src/main/java/com/golfclub/service/TournamentService.java:85-87 | the third registration into a 3-place tournament succeeds, a fourth fails with "full" |
| Scenarios.CompletionCreditsPlayersThenFreezes | src/main/java/com/golfclub/service/TournamentService.java:128-155 | completion credits exactly the three players, and a later CANCELLED fails |

## Left out

- Controllers, the application bootstrap, and the Jackson annotations, `hashCode` and `toString`. These only map exceptions to HTTP status codes and shape JSON.
- `deleteMember` and `deleteTournament`. They are a bare `deleteById`, and its behaviour on an absent id depends on the Spring Data version.
- The read-only queries other than the revenue report (by name, phone, status, date range, location, available, upcoming, current, top participants). They are repository declarations with no service logic.
- Optimistic locking (`@Version`) and transactions. Each operation is modelled as one atomic step.
- The database's own unique constraints on e-mail and phone columns. The model shows what the service layer lets through (`MemberService.PhoneOnlyUpdateCanDuplicatePhone`), not what the database would then reject.
- Bean Validation annotations (name and phone patterns, `@Email`, `@NotBlank`, `@Min`/`@Max`, `@FutureOrPresent`, `@PastOrPresent`). They are checked on the request body of the `@Valid` controller endpoints and, under JPA's default validation mode (which nothing in the code changes), again every time an entity is inserted or updated. The model checks neither. Save-time validation would reject changes that the model accepts:
  - a member whose duration goes above 60 after an extension (`@Max(60)`, Member.java:41);
  - a tournament whose start or end date has passed, because `@FutureOrPresent` on both dates (Tournament.java:17-25) would be re-checked on every save of that tournament. This would roll back a status change once either date is in the past, such as marking it COMPLETED after its end date (TournamentService.java:132-136), as well as a registration (80-81) or a withdrawal (109-110). `TournamentService.UpdateTournamentStatus`, `TournamentService.AddMemberToTournament`, `TournamentService.RemoveMemberFromTournament` and the scenarios that use them have no clock and so do not show this rejection.
- An id supplied in the body of a create request. Saving always inserts a new record under the next identity value.
- The database's foreign keys. Participants supplied in the body of a create request are stored as given, and the model does not check that they name stored members.
- Money is held in whole cents as `int`, not as `Double`. Floating-point rounding of fees, prizes, winnings and revenue is not modelled.
- `LocalDate.now()` becomes an explicit `today` parameter. The registration guards never read the clock.
- `plusMonths` year-range overflow (`DateTimeException` beyond year 999,999,999) is not modelled.
- Null values in fields and arguments other than the member's e-mail and phone: null dates, names and `additionalMonths`; a null member `duration` or `totalTournamentsPlayed` (both are nullable `Integer` columns without `@NotNull`); and a null tournament `entryFee`, `minimumParticipants` or `maximumParticipants` (`@Positive`, `@Min` and `@Max` accept null). These fields are plain integers in the model, so the `NullPointerException`s such values cause are not modelled: in `plusMonths(duration)` during the expiry check, in the duration extension, in `totalTournamentsPlayed++` during the completion fan-out (which would roll back the whole status change), in the capacity and minimum comparisons, and in the revenue product.
- MemberService.UpdateMembershipDuration: promises success for every stored member, because a stored null duration (which would throw) cannot occur in the model; see the null-value line above.
- MemberService.CheckMembershipStatus: never fails, for the same reason (a null duration would throw inside `plusMonths`).
- TournamentService.UpdateTournamentStatus: the completion fan-out never fails, because a null tournaments-played count cannot occur in the model.
- TournamentService.RegistrationIgnoresStartDate: this is how the service-level guards behave. With save-time validation on, the program agrees with it only when `today` is the start date itself. Once the start date is in the past, saving the tournament violates `@FutureOrPresent`, so the registration is rolled back.
- Revenue.TotalRevenue: sums over the ids below the next tournament id rather than over the table's rows. In a store satisfying `Store.Valid` these are the same tournaments.
