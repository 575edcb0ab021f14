/** The tournament service: creating and updating tournaments under the
    window/capacity/start-date rules, registering and withdrawing members,
    the status state machine with its statistics fan-out on completion, and
    revenue. */
module TournamentService {
  import opened Results
  import opened JavaInt
  import opened Calendar
  import opened Identity
  import opened Members
  import opened Tournaments
  import opened Store

  /** The tournament store changed at most at `id`: the members, the id
      counters, the set of tournament ids and every other tournament are as
      before. */
  predicate OnlyTournamentChanged(c: Club, r: Club, id: Id) {
    && r.members == c.members
    && r.nextMemberId == c.nextMemberId
    && r.nextTournamentId == c.nextTournamentId
    && r.tournaments.Keys == c.tournaments.Keys
    && (forall other :: other in c.tournaments && other != id ==> r.tournaments[other] == c.tournaments[other])
  }

  /** The tournament rules, checked in this order and the first failure
      wins: the end date is not before the start date, the minimum does not
      exceed the maximum, and the start date is not before `today`. */
  function ValidateTournament(t: Tournament, today: LocalDate): (r: Outcome<Error>)
    ensures r == Fail(EndBeforeStart) <==> IsBefore(t.endDate, t.startDate)
    ensures r == Fail(MinimumExceedsMaximum) <==>
              !IsBefore(t.endDate, t.startDate) && t.minimumParticipants > t.maximumParticipants
    ensures r == Fail(StartInPast) <==> WellFormed(t) && IsBefore(t.startDate, today)
    ensures r.Pass? <==> WellFormed(t) && !IsBefore(t.startDate, today)
  {
    if IsBefore(t.endDate, t.startDate) then Fail(EndBeforeStart)
    else if t.minimumParticipants > t.maximumParticipants then Fail(MinimumExceedsMaximum)
    else if IsBefore(t.startDate, today) then Fail(StartInPast)
    else Pass
  }

  /** Creates a tournament, stored as given under the next identity value,
      only once it has passed validation. */
  function SaveTournament(c: Club, t: Tournament, today: LocalDate): (r: Result<(Club, Id), Error>)
    ensures r.Err? <==> !WellFormed(t) || IsBefore(t.startDate, today)
    ensures r.Err? ==> ValidateTournament(t, today) == Fail(r.error)
    ensures r.Ok? ==> var (c', id) := r.value;
              && id == c.nextTournamentId
              && c'.tournaments.Keys == c.tournaments.Keys + {id}
              && c'.tournaments[id] == t && WellFormed(c'.tournaments[id])
              && (forall other :: other in c.tournaments && other != id ==> c'.tournaments[other] == c.tournaments[other])
              && c'.members == c.members
              && c'.nextTournamentId == id + 1 && c'.nextMemberId == c.nextMemberId
  {
    match ValidateTournament(t, today)
    case Fail(e) => Err(e)
    case Pass =>
      var id := c.nextTournamentId;
      Ok((c.(tournaments := c.tournaments[id := t], nextTournamentId := id + 1), id))
  }

  /** Creating a tournament keeps the store valid. */
  lemma SaveTournamentKeepsStoreValid(c: Club, t: Tournament, today: LocalDate)
    requires Valid(c)
    ensures SaveTournament(c, t, today).Ok? ==> Valid(SaveTournament(c, t, today).value.0)
  {
  }

  /** The seven fields an update overwrites. */
  function WithDetails(existing: Tournament, details: Tournament): Tournament {
    existing.(startDate := details.startDate, endDate := details.endDate, location := details.location,
              entryFee := details.entryFee, cashPrizeAmount := details.cashPrizeAmount,
              minimumParticipants := details.minimumParticipants,
              maximumParticipants := details.maximumParticipants)
  }

  /** Updates a tournament: not found first, then the incoming data is
      validated, then the dates, location, fee, prize and capacity bounds are
      overwritten. Status and registrations are kept. */
  function UpdateTournament(c: Club, id: Id, details: Tournament, today: LocalDate): (r: Result<Club, Error>)
    ensures id !in c.tournaments ==> r == Err(TournamentNotFound)
    ensures id in c.tournaments ==>
              && (r.Err? <==> !WellFormed(details) || IsBefore(details.startDate, today))
              && (r.Err? ==> ValidateTournament(details, today) == Fail(r.error))
    ensures r.Ok? ==> id in c.tournaments && OnlyTournamentChanged(c, r.value, id)
    ensures r.Ok? ==> var t, t' := c.tournaments[id], r.value.tournaments[id];
              && t'.startDate == details.startDate && t'.endDate == details.endDate
              && t'.location == details.location && t'.entryFee == details.entryFee
              && t'.cashPrizeAmount == details.cashPrizeAmount
              && t'.minimumParticipants == details.minimumParticipants
              && t'.maximumParticipants == details.maximumParticipants
              && t'.status == t.status && t'.participants == t.participants
  {
    if id !in c.tournaments then Err(TournamentNotFound)
    else match ValidateTournament(details, today)
      case Fail(e) => Err(e)
      case Pass => Ok(c.(tournaments := c.tournaments[id := WithDetails(c.tournaments[id], details)]))
  }

  /** Updating a tournament keeps the store valid. */
  lemma UpdateTournamentKeepsStoreValid(c: Club, id: Id, details: Tournament, today: LocalDate)
    requires Valid(c)
    ensures UpdateTournament(c, id, details, today).Ok? ==> Valid(UpdateTournament(c, id, details, today).value)
  {
  }

  /** The update does not compare the new maximum with the members already
      registered, so it can leave a tournament holding more members than its
      maximum. */
  lemma UpdateCanLeaveTournamentOverfull(c: Club, id: Id, details: Tournament, today: LocalDate)
    requires id in c.tournaments
    requires WellFormed(details) && !IsBefore(details.startDate, today)
    requires details.maximumParticipants < Size(c.tournaments[id])
    ensures UpdateTournament(c, id, details, today).Ok?
    ensures var t' := UpdateTournament(c, id, details, today).value.tournaments[id];
              Size(t') > t'.maximumParticipants
  {
  }

  /** The registration guards, in this order: the tournament is not full,
      the member is ACTIVE, the tournament is SCHEDULED, and the member is not
      already registered. */
  function ValidateMemberRegistration(t: Tournament, m: Member, memberId: Id): (r: Outcome<Error>)
    ensures r == Fail(TournamentFull) <==> Size(t) >= t.maximumParticipants
    ensures r == Fail(MemberNotActive) <==> Size(t) < t.maximumParticipants && !IsActive(m)
    ensures r == Fail(RegistrationClosed) <==>
              Size(t) < t.maximumParticipants && IsActive(m) && t.status != Scheduled
    ensures r == Fail(AlreadyRegistered) <==>
              Size(t) < t.maximumParticipants && IsActive(m) && t.status == Scheduled && IsMemberRegistered(t, memberId)
    ensures r.Pass? <==>
              Size(t) < t.maximumParticipants && IsActive(m) && t.status == Scheduled && !IsMemberRegistered(t, memberId)
  {
    if Size(t) >= t.maximumParticipants then Fail(TournamentFull)
    else if m.status != Active then Fail(MemberNotActive)
    else if t.status != Scheduled then Fail(RegistrationClosed)
    else if IsMemberRegistered(t, memberId) then Fail(AlreadyRegistered)
    else Pass
  }

  /** Registers a member for a tournament: the tournament must exist, then
      the member, then the registration guards must pass. */
  function AddMemberToTournament(c: Club, tournamentId: Id, memberId: Id): (r: Result<Club, Error>)
    ensures tournamentId !in c.tournaments ==> r == Err(TournamentNotFound)
    ensures tournamentId in c.tournaments && memberId !in c.members ==> r == Err(MemberNotFound)
    ensures tournamentId in c.tournaments && memberId in c.members ==>
              var v := ValidateMemberRegistration(c.tournaments[tournamentId], c.members[memberId], memberId);
              && (r.Err? <==> v.Fail?)
              && (r.Err? ==> v == Fail(r.error))
    ensures r.Ok? ==> tournamentId in c.tournaments && OnlyTournamentChanged(c, r.value, tournamentId)
    ensures r.Ok? ==> var t, t' := c.tournaments[tournamentId], r.value.tournaments[tournamentId];
              && !IsMemberRegistered(t, memberId) && IsMemberRegistered(t', memberId)
              && t'.participants == t.participants + {memberId}
              && t'.(participants := t.participants) == t
              && Size(t') == Size(t) + 1 <= t'.maximumParticipants
  {
    if tournamentId !in c.tournaments then Err(TournamentNotFound)
    else if memberId !in c.members then Err(MemberNotFound)
    else
      var t := c.tournaments[tournamentId];
      match ValidateMemberRegistration(t, c.members[memberId], memberId)
      case Fail(e) => Err(e)
      case Pass =>
        AddRemoveChangeSizeByOne(t, memberId);
        Ok(c.(tournaments := c.tournaments[tournamentId := AddMember(t, memberId)]))
  }

  /** A successful registration adds exactly one (member, tournament) pair,
      seen from both sides of the link. */
  lemma RegistrationAddsExactlyOnePair(c: Club, tournamentId: Id, memberId: Id)
    requires AddMemberToTournament(c, tournamentId, memberId).Ok?
    ensures (memberId, tournamentId) !in Registrations(c)
    ensures Registrations(AddMemberToTournament(c, tournamentId, memberId).value)
              == Registrations(c) + {(memberId, tournamentId)}
    ensures TournamentsOf(AddMemberToTournament(c, tournamentId, memberId).value, memberId)
              == TournamentsOf(c, memberId) + {tournamentId}
  {
    var c' := AddMemberToTournament(c, tournamentId, memberId).value;
    assert Registrations(c') == Registrations(c) + {(memberId, tournamentId)} by {
      forall p | p in Registrations(c')
        ensures p in Registrations(c) + {(memberId, tournamentId)}
      {
        var (mid, tid) := p;
        assert tid in c.tournaments;
        if tid != tournamentId || mid != memberId {
          assert mid in c.tournaments[tid].participants;
        }
      }
      forall p | p in Registrations(c)
        ensures p in Registrations(c')
      {
        var (mid, tid) := p;
        assert mid in c'.tournaments[tid].participants;
      }
    }
  }

  /** Registering the same member twice fails: with "full" when the first
      registration took the last place (capacity is checked first), and with
      "already registered" otherwise. */
  lemma SecondRegistrationFails(c: Club, tournamentId: Id, memberId: Id)
    requires AddMemberToTournament(c, tournamentId, memberId).Ok?
    ensures var c' := AddMemberToTournament(c, tournamentId, memberId).value;
            var t' := c'.tournaments[tournamentId];
            AddMemberToTournament(c', tournamentId, memberId)
              == if Size(t') >= t'.maximumParticipants then Err(TournamentFull) else Err(AlreadyRegistered)
  {
  }

  /** A tournament open for registration admits every active member not yet
      registered for it. */
  lemma OpenTournamentAdmitsActiveMember(c: Club, tournamentId: Id, memberId: Id, today: LocalDate)
    requires tournamentId in c.tournaments && memberId in c.members
    requires IsRegistrationOpen(c.tournaments[tournamentId], today)
    requires IsActive(c.members[memberId])
    requires !IsMemberRegistered(c.tournaments[tournamentId], memberId)
    ensures AddMemberToTournament(c, tournamentId, memberId).Ok?
  {
  }

  /** Registration does not look at the calendar: a SCHEDULED tournament with
      room left still admits members on or after its start date, although it
      is then not "open for registration". */
  lemma RegistrationIgnoresStartDate(c: Club, tournamentId: Id, memberId: Id, today: LocalDate)
    requires tournamentId in c.tournaments && memberId in c.members
    requires c.tournaments[tournamentId].status == Scheduled
    requires Size(c.tournaments[tournamentId]) < c.tournaments[tournamentId].maximumParticipants
    requires IsActive(c.members[memberId]) && !IsMemberRegistered(c.tournaments[tournamentId], memberId)
    requires !IsBefore(today, c.tournaments[tournamentId].startDate)
    ensures !IsRegistrationOpen(c.tournaments[tournamentId], today)
    ensures AddMemberToTournament(c, tournamentId, memberId).Ok?
  {
  }

  /** Registration keeps the store valid. */
  lemma AddMemberToTournamentKeepsStoreValid(c: Club, tournamentId: Id, memberId: Id)
    requires Valid(c)
    ensures AddMemberToTournament(c, tournamentId, memberId).Ok? ==>
              Valid(AddMemberToTournament(c, tournamentId, memberId).value)
  {
  }

  /** Withdraws a member: the tournament must exist, then the member, then
      the member must be registered. The tournament's status is not
      consulted. */
  function RemoveMemberFromTournament(c: Club, tournamentId: Id, memberId: Id): (r: Result<Club, Error>)
    ensures tournamentId !in c.tournaments ==> r == Err(TournamentNotFound)
    ensures tournamentId in c.tournaments && memberId !in c.members ==> r == Err(MemberNotFound)
    ensures tournamentId in c.tournaments && memberId in c.members ==>
              (r == Err(NotRegistered) <==> !IsMemberRegistered(c.tournaments[tournamentId], memberId))
    ensures r.Ok? <==> tournamentId in c.tournaments && memberId in c.members
                       && IsMemberRegistered(c.tournaments[tournamentId], memberId)
    ensures r.Ok? ==> OnlyTournamentChanged(c, r.value, tournamentId)
    ensures r.Ok? ==> var t, t' := c.tournaments[tournamentId], r.value.tournaments[tournamentId];
              && !IsMemberRegistered(t', memberId)
              && t'.participants == t.participants - {memberId}
              && t'.(participants := t.participants) == t
              && Size(t') + 1 == Size(t)
  {
    if tournamentId !in c.tournaments then Err(TournamentNotFound)
    else if memberId !in c.members then Err(MemberNotFound)
    else
      var t := c.tournaments[tournamentId];
      if !IsMemberRegistered(t, memberId) then Err(NotRegistered)
      else
        AddRemoveChangeSizeByOne(t, memberId);
        Ok(c.(tournaments := c.tournaments[tournamentId := RemoveMember(t, memberId)]))
  }

  /** A successful withdrawal removes exactly one (member, tournament) pair,
      seen from both sides of the link. */
  lemma WithdrawalRemovesExactlyOnePair(c: Club, tournamentId: Id, memberId: Id)
    requires RemoveMemberFromTournament(c, tournamentId, memberId).Ok?
    ensures (memberId, tournamentId) in Registrations(c)
    ensures Registrations(RemoveMemberFromTournament(c, tournamentId, memberId).value)
              == Registrations(c) - {(memberId, tournamentId)}
    ensures TournamentsOf(RemoveMemberFromTournament(c, tournamentId, memberId).value, memberId)
              == TournamentsOf(c, memberId) - {tournamentId}
  {
    var c' := RemoveMemberFromTournament(c, tournamentId, memberId).value;
    assert Registrations(c') == Registrations(c) - {(memberId, tournamentId)} by {
      forall p | p in Registrations(c)
        ensures p in Registrations(c') + {(memberId, tournamentId)}
      {
        var (mid, tid) := p;
        if tid != tournamentId || mid != memberId {
          assert mid in c'.tournaments[tid].participants;
        }
      }
    }
  }

  /** Withdrawing right after registering restores the store exactly. */
  lemma WithdrawalUndoesRegistration(c: Club, tournamentId: Id, memberId: Id)
    requires AddMemberToTournament(c, tournamentId, memberId).Ok?
    ensures RemoveMemberFromTournament(AddMemberToTournament(c, tournamentId, memberId).value, tournamentId, memberId)
              == Ok(c)
  {
    var t := c.tournaments[tournamentId];
    RemoveUndoesAdd(t, memberId);
    var c' := AddMemberToTournament(c, tournamentId, memberId).value;
    var c'' := RemoveMemberFromTournament(c', tournamentId, memberId).value;
    assert c''.tournaments == c.tournaments;
  }

  /** Withdrawal keeps the store valid. */
  lemma RemoveMemberFromTournamentKeepsStoreValid(c: Club, tournamentId: Id, memberId: Id)
    requires Valid(c)
    ensures RemoveMemberFromTournament(c, tournamentId, memberId).Ok? ==>
              Valid(RemoveMemberFromTournament(c, tournamentId, memberId).value)
  {
  }

  /** The status guard: nothing leaves COMPLETED (not even to COMPLETED), and
      a move to IN_PROGRESS needs the minimum number of participants. Every
      other move is allowed. */
  function ValidateStatusTransition(t: Tournament, target: TournamentStatus): (r: Outcome<Error>)
    ensures r == Fail(CompletedIsFinal) <==> t.status == Completed
    ensures r == Fail(InsufficientParticipants) <==>
              t.status != Completed && target == InProgress && !HasMinimumParticipants(t)
    ensures r.Pass? <==> t.status != Completed && (target == InProgress ==> HasMinimumParticipants(t))
  {
    if t.status == Completed then Fail(CompletedIsFinal)
    else if target == InProgress && !HasMinimumParticipants(t) then Fail(InsufficientParticipants)
    else Pass
  }

  /** The completion fan-out: every registered member has played one more
      tournament; nobody else changes. */
  function UpdateMemberStats(members: map<Id, Member>, participants: set<Id>): (r: map<Id, Member>)
    ensures r.Keys == members.Keys
    ensures forall id :: id in members && id in participants ==>
              r[id] == IncrementTournamentsPlayed(members[id])
    ensures forall id :: id in members && id !in participants ==> r[id] == members[id]
  {
    map id | id in members :: if id in participants then IncrementTournamentsPlayed(members[id]) else members[id]
  }

  /** Changes a tournament's status through the guard; moving to COMPLETED
      also fans the statistics out to its participants. An absent id is
      silently ignored. */
  function UpdateTournamentStatus(c: Club, tournamentId: Id, target: TournamentStatus): (r: Result<Club, Error>)
    ensures tournamentId !in c.tournaments ==> r == Ok(c)
    ensures tournamentId in c.tournaments ==>
              var v := ValidateStatusTransition(c.tournaments[tournamentId], target);
              && (r.Err? <==> v.Fail?)
              && (r.Err? ==> v == Fail(r.error))
    ensures r.Ok? ==> r.value.tournaments.Keys == c.tournaments.Keys
    ensures r.Ok? && tournamentId in c.tournaments ==>
              var t, t' := c.tournaments[tournamentId], r.value.tournaments[tournamentId];
              && (forall other :: other in c.tournaments && other != tournamentId ==>
                    r.value.tournaments[other] == c.tournaments[other])
              && r.value.nextMemberId == c.nextMemberId && r.value.nextTournamentId == c.nextTournamentId
              && t'.status == target && t'.(status := t.status) == t
              && r.value.members == (if target == Completed then UpdateMemberStats(c.members, t.participants) else c.members)
  {
    if tournamentId !in c.tournaments then Ok(c)
    else
      var t := c.tournaments[tournamentId];
      match ValidateStatusTransition(t, target)
      case Fail(e) => Err(e)
      case Pass =>
        var members := if target == Completed then UpdateMemberStats(c.members, t.participants) else c.members;
        Ok(c.(tournaments := c.tournaments[tournamentId := t.(status := target)], members := members))
  }

  /** Completing a tournament counts one more tournament played for each of
      its participants, exactly once, and touches nothing else of any member:
      in particular winnings are not paid out. */
  lemma CompletionCountsEachParticipantOnce(c: Club, tournamentId: Id, memberId: Id)
    requires tournamentId in c.tournaments && memberId in c.members
    requires UpdateTournamentStatus(c, tournamentId, Completed).Ok?
    ensures var m, m' := c.members[memberId], UpdateTournamentStatus(c, tournamentId, Completed).value.members[memberId];
            && (memberId in c.tournaments[tournamentId].participants && m.totalTournamentsPlayed < INT_MAX ==>
                  m'.totalTournamentsPlayed == m.totalTournamentsPlayed + 1)
            && (memberId !in c.tournaments[tournamentId].participants ==> m' == m)
            && m'.(totalTournamentsPlayed := m.totalTournamentsPlayed) == m
  {
  }

  /** A completed tournament rejects every further status change. */
  lemma CompletedIsTerminal(c: Club, tournamentId: Id, target: TournamentStatus)
    requires tournamentId in c.tournaments
    requires UpdateTournamentStatus(c, tournamentId, Completed).Ok?
    ensures UpdateTournamentStatus(UpdateTournamentStatus(c, tournamentId, Completed).value, tournamentId, target)
              == Err(CompletedIsFinal)
  {
  }

  /** Apart from the two guarded cases every transition goes through, for
      instance CANCELLED back to SCHEDULED, or SCHEDULED straight to
      COMPLETED. */
  lemma UnguardedTransitionsSucceed(c: Club, tournamentId: Id, target: TournamentStatus)
    requires tournamentId in c.tournaments
    requires c.tournaments[tournamentId].status != Completed && target != InProgress
    ensures UpdateTournamentStatus(c, tournamentId, target).Ok?
    ensures UpdateTournamentStatus(c, tournamentId, target).value.tournaments[tournamentId].status == target
  {
  }

  /** A status change keeps the store valid. */
  lemma UpdateTournamentStatusKeepsStoreValid(c: Club, tournamentId: Id, target: TournamentStatus)
    requires Valid(c)
    ensures UpdateTournamentStatus(c, tournamentId, target).Ok? ==>
              Valid(UpdateTournamentStatus(c, tournamentId, target).value)
  {
    if tournamentId in c.tournaments && UpdateTournamentStatus(c, tournamentId, target).Ok? {
      var c' := UpdateTournamentStatus(c, tournamentId, target).value;
      assert forall id :: id in c'.members ==> c'.members[id].email == c.members[id].email;
    }
  }

  /** One tournament's revenue; zero for an absent id. */
  function CalculateTournamentRevenue(c: Club, tournamentId: Id): (r: int)
    ensures tournamentId !in c.tournaments ==> r == 0
    ensures tournamentId in c.tournaments ==> r == CalculateTotalRevenue(c.tournaments[tournamentId])
  {
    if tournamentId in c.tournaments then CalculateTotalRevenue(c.tournaments[tournamentId]) else 0
  }

  /** Registration raises a tournament's revenue by one entry fee and
      withdrawal lowers it by one. */
  lemma RevenueTracksRegistrations(c: Club, tournamentId: Id, memberId: Id)
    ensures AddMemberToTournament(c, tournamentId, memberId).Ok? ==>
              CalculateTournamentRevenue(AddMemberToTournament(c, tournamentId, memberId).value, tournamentId)
              == CalculateTournamentRevenue(c, tournamentId) + c.tournaments[tournamentId].entryFee
    ensures RemoveMemberFromTournament(c, tournamentId, memberId).Ok? ==>
              CalculateTournamentRevenue(RemoveMemberFromTournament(c, tournamentId, memberId).value, tournamentId)
              == CalculateTournamentRevenue(c, tournamentId) - c.tournaments[tournamentId].entryFee
  {
    if tournamentId in c.tournaments {
      RevenueFollowsRegistrations(c.tournaments[tournamentId], memberId);
    }
  }
}
