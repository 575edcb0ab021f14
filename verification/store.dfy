/** The persisted state both services work on: the member and tournament
    tables keyed by id, the identity counters the database uses to assign ids
    on insert, and the error kinds the services throw. */
module Store {
  import opened Results
  import opened Identity
  import opened Members
  import opened Tournaments

  /** One constructor per distinct exception the services throw, in the words
      of its message. */
  datatype Error =
    | TournamentNotFound
    | MemberNotFound
    | EmailAlreadyExists
    | PhoneAlreadyExists
    | EndBeforeStart
    | MinimumExceedsMaximum
    | StartInPast
    | TournamentFull
    | MemberNotActive
    | RegistrationClosed
    | AlreadyRegistered
    | NotRegistered
    | CompletedIsFinal
    | InsufficientParticipants
    | NullEmail

  datatype Club = Club(
    members: map<Id, Member>,
    tournaments: map<Id, Tournament>,
    nextMemberId: Id,
    nextTournamentId: Id)

  /** A database with no rows; identity columns start at 1. */
  const EMPTY: Club := Club(map[], map[], 1, 1)

  /** The registration relation as (member id, tournament id) pairs, read
      from the owning side. */
  function Registrations(c: Club): set<(Id, Id)> {
    set tid, mid | tid in c.tournaments && mid in c.tournaments[tid].participants :: (mid, tid)
  }

  /** The inverse side of the link: the tournaments a member is registered
      for (`Member.getTournaments()`). */
  function TournamentsOf(c: Club, member: Id): set<Id> {
    set tid | tid in c.tournaments && member in c.tournaments[tid].participants
  }

  /** Some stored member has this e-mail address (`findByMemberEmail`). */
  predicate EmailInUse(c: Club, email: string) {
    exists id :: id in c.members && c.members[id].email == Some(email)
  }

  /** Some stored member has this phone number (`findByMemberPhone`). */
  predicate PhoneInUse(c: Club, phone: string) {
    exists id :: id in c.members && c.members[id].phone == Some(phone)
  }

  /** No two members share a non-null e-mail address. */
  predicate EmailsUnique(c: Club) {
    forall a, b :: a in c.members && b in c.members && a != b && c.members[a].email.Some? ==>
      c.members[a].email != c.members[b].email
  }

  /** No two members share a non-null phone number. */
  predicate PhonesUnique(c: Club) {
    forall a, b :: a in c.members && b in c.members && a != b && c.members[a].phone.Some? ==>
      c.members[a].phone != c.members[b].phone
  }

  /** What every operation keeps: stored ids lie below the next id to be
      assigned, every stored tournament is well formed, and e-mail addresses
      are unique. */
  predicate Valid(c: Club) {
    && 1 <= c.nextMemberId && 1 <= c.nextTournamentId
    && (forall id :: id in c.members ==> 1 <= id < c.nextMemberId)
    && (forall id :: id in c.tournaments ==> 1 <= id < c.nextTournamentId)
    && (forall id :: id in c.tournaments ==> WellFormed(c.tournaments[id]))
    && EmailsUnique(c)
  }

  /** A fresh database satisfies the invariant, has no duplicate phone and
      holds no registration. */
  lemma EmptyIsValid()
    ensures Valid(EMPTY) && PhonesUnique(EMPTY)
    ensures Registrations(EMPTY) == {}
  {
  }

  /** The two sides of the link always agree, and they agree with the pair
      relation. */
  lemma LinkIsBidirectional(c: Club, member: Id, tournament: Id)
    ensures tournament in TournamentsOf(c, member) <==>
              (tournament in c.tournaments && IsMemberRegistered(c.tournaments[tournament], member))
    ensures (member, tournament) in Registrations(c) <==> tournament in TournamentsOf(c, member)
  {
  }
}
