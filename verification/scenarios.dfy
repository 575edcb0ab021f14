/** Worked examples of the lifecycle rules on small concrete stores. */
module Scenarios {
  import opened Results
  import opened Calendar
  import opened Identity
  import opened Members
  import opened Tournaments
  import opened Store
  import opened MemberService
  import opened TournamentService

  const TODAY: LocalDate := Date(2025, 2, 1)

  function Player(email: string, phone: string): Member {
    NewMember("Player", "Main Street", Some(email), Some(phone), Date(2024, 1, 1), 12)
  }

  /** Four active members with ids 1 to 4 and one tournament (id 1) that
      takes 2 to 3 players and has the given participants. */
  function ClubWith(participants: set<Id>): Club {
    var t := NewTournament(Date(2025, 3, 1), Date(2025, 3, 2), "Links", 5000, 100000);
    Club(map[1 := Player("a@x.com", "111-222-3333"), 2 := Player("b@x.com", "111-222-3334"),
             3 := Player("c@x.com", "111-222-3335"), 4 := Player("d@x.com", "111-222-3336")],
         map[1 := t.(participants := participants, maximumParticipants := 3)],
         5, 2)
  }

  /** Starting from an empty database, the first member and the first
      tournament are both stored under id 1, and the store stays valid. */
  lemma FirstSavesAreNumberedFromOne()
    ensures var r := SaveMember(EMPTY, Player("a@x.com", "111-222-3333"));
            && r.Ok? && r.value.1 == 1 && Valid(r.value.0)
            && var t := NewTournament(Date(2025, 3, 1), Date(2025, 3, 2), "Links", 5000, 100000);
               var r' := SaveTournament(r.value.0, t, TODAY);
               r'.Ok? && r'.value.1 == 1 && r'.value.0.members == r.value.0.members && Valid(r'.value.0)
  {
    EmptyIsValid();
    var m := Player("a@x.com", "111-222-3333");
    SaveMemberKeepsContactsUnique(EMPTY, m);
    var c := SaveMember(EMPTY, m).value.0;
    SaveTournamentKeepsStoreValid(c, NewTournament(Date(2025, 3, 1), Date(2025, 3, 2), "Links", 5000, 100000), TODAY);
  }

  /** A twelve-month membership that began on 1 January 2024 ran until
      1 January 2025 and is marked EXPIRED by the check on 1 February 2025,
      but not by a check on its last day. */
  lemma MembershipExpiresAfterTwelveMonths()
    ensures CheckMembershipStatus(ClubWith({}), 1, TODAY).members[1].status == Expired
    ensures CheckMembershipStatus(ClubWith({}), 1, Date(2025, 1, 1)).members[1].status == Active
  {
    PlusMonthsClampsToMonthEnd();
  }

  /** Starting needs the minimum of two players: with one registered the
      move to IN_PROGRESS fails, after a second registration it succeeds. */
  lemma StartNeedsMinimumParticipants()
    ensures UpdateTournamentStatus(ClubWith({1}), 1, InProgress) == Err(InsufficientParticipants)
    ensures AddMemberToTournament(ClubWith({1}), 1, 2) == Ok(ClubWith({1, 2}))
    ensures UpdateTournamentStatus(ClubWith({1, 2}), 1, InProgress).Ok?
  {
    assert |{1}| == 1;
    assert {1} + {2} == {1, 2};
    assert |{1, 2}| == 2;
    var r := AddMemberToTournament(ClubWith({1}), 1, 2);
    assert r.Ok?;
    assert r.value.tournaments[1] == ClubWith({1, 2}).tournaments[1];
    assert r.value.tournaments == ClubWith({1, 2}).tournaments;
  }

  /** With three of three places taken a fourth member is turned away. */
  lemma FullTournamentRejectsRegistration()
    ensures AddMemberToTournament(ClubWith({1, 2}), 1, 3) == Ok(ClubWith({1, 2, 3}))
    ensures AddMemberToTournament(ClubWith({1, 2, 3}), 1, 4) == Err(TournamentFull)
  {
    assert |{1, 2}| == 2;
    assert {1, 2} + {3} == {1, 2, 3};
    assert |{1, 2, 3}| == 3;
    var r := AddMemberToTournament(ClubWith({1, 2}), 1, 3);
    assert r.Ok?;
    assert r.value.tournaments[1] == ClubWith({1, 2, 3}).tournaments[1];
    assert r.value.tournaments == ClubWith({1, 2, 3}).tournaments;
  }

  /** Completing the tournament credits each of its three players with one
      tournament played, leaves the fourth member alone, and any later status
      change fails. */
  lemma CompletionCreditsPlayersThenFreezes()
    ensures UpdateTournamentStatus(ClubWith({1, 2, 3}), 1, Completed).Ok?
    ensures var c' := UpdateTournamentStatus(ClubWith({1, 2, 3}), 1, Completed).value;
            && c'.members[1].totalTournamentsPlayed == 1
            && c'.members[2].totalTournamentsPlayed == 1
            && c'.members[3].totalTournamentsPlayed == 1
            && c'.members[4].totalTournamentsPlayed == 0
            && UpdateTournamentStatus(c', 1, Cancelled) == Err(CompletedIsFinal)
  {
  }
}
