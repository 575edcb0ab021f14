/** The `Tournament` entity: its date window, fees, capacity, status and the
    set of registered members, with the entity's own business methods. */
module Tournaments {
  import opened Results
  import opened JavaInt
  import opened Calendar
  import opened Identity

  datatype TournamentStatus = Scheduled | InProgress | Completed | Cancelled

  /** Money is held in whole cents. `participants` is the owning side of the
      registration link: the ids of the registered members (members compare
      by id, see `Identity.SameEntity`). */
  datatype Tournament = Tournament(
    startDate: LocalDate,
    endDate: LocalDate,
    location: string,
    entryFee: int,
    cashPrizeAmount: int,
    participants: set<Id>,
    status: TournamentStatus,
    minimumParticipants: Int32,
    maximumParticipants: Int32)

  const DEFAULT_MINIMUM_PARTICIPANTS: Int32 := 2
  const DEFAULT_MAXIMUM_PARTICIPANTS: Int32 := 100

  /** The five-argument constructor together with the field initialisers: a
      new tournament is SCHEDULED, takes 2 to 100 players and has nobody
      registered. */
  function NewTournament(startDate: LocalDate, endDate: LocalDate, location: string,
                         entryFee: int, cashPrizeAmount: int): (t: Tournament)
    ensures t.status == Scheduled
    ensures t.minimumParticipants == 2 && t.maximumParticipants == 100
    ensures t.participants == {} && Size(t) == 0
    ensures t.startDate == startDate && t.endDate == endDate && t.location == location
    ensures t.entryFee == entryFee && t.cashPrizeAmount == cashPrizeAmount
  {
    Tournament(startDate, endDate, location, entryFee, cashPrizeAmount, {}, Scheduled,
               DEFAULT_MINIMUM_PARTICIPANTS, DEFAULT_MAXIMUM_PARTICIPANTS)
  }

  /** The number of registered members. */
  function Size(t: Tournament): nat {
    |t.participants|
  }

  /** The date window and capacity bounds are consistent: the tournament does
      not end before it starts and its minimum does not exceed its maximum. */
  predicate WellFormed(t: Tournament) {
    !IsBefore(t.endDate, t.startDate) && t.minimumParticipants <= t.maximumParticipants
  }

  predicate IsMemberRegistered(t: Tournament, member: Id) {
    member in t.participants
  }

  /** The participant set as the source holds it: member entities, all
      saved, compared by id. */
  function ParticipantEntities(t: Tournament): set<Option<Id>> {
    set id | id in t.participants :: Some(id)
  }

  /** `isMemberRegistered` and the participant count read the same on the
      entity set as on the id set the model keeps. */
  lemma ParticipantIdsMatchEntities(t: Tournament, member: Id)
    ensures IsMemberRegistered(t, member) <==> ContainsEntity(ParticipantEntities(t), Some(member))
    ensures Size(t) == |ParticipantEntities(t)|
  {
    var es := ParticipantEntities(t);
    SavedEntitiesAreTheirIds(es, Some(member));
    assert IdsOf(es) == t.participants by {
      forall id | id in t.participants ensures id in IdsOf(es) {
        assert Some(id) in es;
      }
    }
  }

  /** Links a member to the tournament (the member's own list is derived). */
  function AddMember(t: Tournament, member: Id): (r: Tournament)
    ensures IsMemberRegistered(r, member)
    ensures forall other :: other != member ==> (IsMemberRegistered(r, other) <==> IsMemberRegistered(t, other))
    ensures r.(participants := t.participants) == t
  {
    t.(participants := t.participants + {member})
  }

  /** Unlinks a member from the tournament. */
  function RemoveMember(t: Tournament, member: Id): (r: Tournament)
    ensures !IsMemberRegistered(r, member)
    ensures forall other :: other != member ==> (IsMemberRegistered(r, other) <==> IsMemberRegistered(t, other))
    ensures r.(participants := t.participants) == t
  {
    t.(participants := t.participants - {member})
  }

  /** Adding a member who was not registered grows the tournament by exactly
      one; removing a registered member shrinks it by exactly one. */
  lemma AddRemoveChangeSizeByOne(t: Tournament, member: Id)
    ensures !IsMemberRegistered(t, member) ==> Size(AddMember(t, member)) == Size(t) + 1
    ensures IsMemberRegistered(t, member) ==> Size(AddMember(t, member)) == Size(t)
    ensures IsMemberRegistered(t, member) ==> Size(RemoveMember(t, member)) + 1 == Size(t)
    ensures !IsMemberRegistered(t, member) ==> RemoveMember(t, member) == t
  {
    assert !IsMemberRegistered(t, member) ==> t.participants - {member} == t.participants;
    assert IsMemberRegistered(t, member) ==> t.participants + {member} == t.participants;
  }

  /** Removing a member just added gives back the original tournament. */
  lemma RemoveUndoesAdd(t: Tournament, member: Id)
    requires !IsMemberRegistered(t, member)
    ensures RemoveMember(AddMember(t, member), member) == t
  {
    assert t.participants + {member} - {member} == t.participants;
  }

  /** Open for registration: SCHEDULED, not full, and `today` strictly before
      the start date. */
  predicate IsRegistrationOpen(t: Tournament, today: LocalDate) {
    t.status == Scheduled && Size(t) < t.maximumParticipants && IsBefore(today, t.startDate)
  }

  predicate HasMinimumParticipants(t: Tournament) {
    Size(t) >= t.minimumParticipants
  }

  /** Entry fee times the number of registered members. */
  function CalculateTotalRevenue(t: Tournament): (r: int)
    ensures t.participants == {} ==> r == 0
    ensures t.entryFee >= 0 ==> r >= 0
  {
    t.entryFee * Size(t)
  }

  /** Each registration brings in exactly one entry fee, and each withdrawal
      gives one back. */
  lemma RevenueFollowsRegistrations(t: Tournament, member: Id)
    ensures !IsMemberRegistered(t, member) ==>
              CalculateTotalRevenue(AddMember(t, member)) == CalculateTotalRevenue(t) + t.entryFee
    ensures IsMemberRegistered(t, member) ==>
              CalculateTotalRevenue(RemoveMember(t, member)) == CalculateTotalRevenue(t) - t.entryFee
  {
    AddRemoveChangeSizeByOne(t, member);
  }
}
