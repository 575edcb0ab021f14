/** The club-wide revenue report: the sum of entry fee times participant
    count over the COMPLETED tournaments, or null when there is no completed
    tournament (an SQL `SUM` over no rows). */
module Revenue {
  import opened Results
  import opened Identity
  import opened Tournaments
  import opened Store
  import opened TournamentService

  predicate IsCompletedAt(ts: map<Id, Tournament>, id: Id) {
    id in ts && ts[id].status == Completed
  }

  /** What the tournament stored under `id` adds to the report. */
  function Contribution(ts: map<Id, Tournament>, id: Id): int {
    if IsCompletedAt(ts, id) then CalculateTotalRevenue(ts[id]) else 0
  }

  /** The reference sum: completed-tournament revenue over the ids below `n`.
      In a valid store every tournament id is below `nextTournamentId`. */
  function CompletedRevenueBelow(ts: map<Id, Tournament>, n: int): int
    decreases n
  {
    if n <= 0 then 0 else CompletedRevenueBelow(ts, n - 1) + Contribution(ts, n - 1)
  }

  predicate AnyCompletedBelow(ts: map<Id, Tournament>, n: int) {
    exists id :: 0 <= id < n && IsCompletedAt(ts, id)
  }

  /** `calculateTotalRevenue()`: walks the tournament ids in order and sums
      the completed ones. */
  method TotalRevenue(c: Club) returns (r: Option<int>)
    ensures r.None? <==> !AnyCompletedBelow(c.tournaments, c.nextTournamentId)
    ensures r.Some? ==> r.value == CompletedRevenueBelow(c.tournaments, c.nextTournamentId)
  {
    var sum := 0;
    var found := false;
    var i := 0;
    while i < c.nextTournamentId
      invariant 0 <= i && (i <= c.nextTournamentId || i == 0)
      invariant sum == CompletedRevenueBelow(c.tournaments, i)
      invariant found <==> AnyCompletedBelow(c.tournaments, i)
    {
      if IsCompletedAt(c.tournaments, i) {
        found := true;
      }
      sum := sum + Contribution(c.tournaments, i);
      i := i + 1;
    }
    r := if found then Some(sum) else None;
  }

  /** Replacing one tournament changes the sum by the change in that
      tournament's contribution, and only when its id is counted. */
  lemma {:induction false} RevenueBelowPointUpdate(ts: map<Id, Tournament>, id: Id, t: Tournament, n: int)
    requires 0 <= id
    ensures CompletedRevenueBelow(ts[id := t], n) ==
              CompletedRevenueBelow(ts, n) + (if id < n then Contribution(ts[id := t], id) - Contribution(ts, id) else 0)
  {
    if n > 0 {
      RevenueBelowPointUpdate(ts, id, t, n - 1);
    }
  }

  /** Registering a member never changes the revenue report: registration
      needs a SCHEDULED tournament, which the report does not count. */
  lemma RegistrationKeepsTotalRevenue(c: Club, tournamentId: Id, memberId: Id, n: int)
    requires Valid(c)
    requires AddMemberToTournament(c, tournamentId, memberId).Ok?
    ensures var ts' := AddMemberToTournament(c, tournamentId, memberId).value.tournaments;
            && CompletedRevenueBelow(ts', n) == CompletedRevenueBelow(c.tournaments, n)
            && (AnyCompletedBelow(ts', n) <==> AnyCompletedBelow(c.tournaments, n))
  {
    var ts' := AddMemberToTournament(c, tournamentId, memberId).value.tournaments;
    assert ts' == c.tournaments[tournamentId := ts'[tournamentId]];
    RevenueBelowPointUpdate(c.tournaments, tournamentId, ts'[tournamentId], n);
    assert forall id :: IsCompletedAt(ts', id) <==> IsCompletedAt(c.tournaments, id);
  }

  /** Completing a tournament adds exactly its revenue to the report, which is
      then no longer null. */
  lemma CompletionAddsTournamentRevenue(c: Club, tournamentId: Id)
    requires Valid(c)
    requires tournamentId in c.tournaments && c.tournaments[tournamentId].status != Completed
    requires UpdateTournamentStatus(c, tournamentId, Completed).Ok?
    ensures var ts' := UpdateTournamentStatus(c, tournamentId, Completed).value.tournaments;
            && CompletedRevenueBelow(ts', c.nextTournamentId)
                 == CompletedRevenueBelow(c.tournaments, c.nextTournamentId)
                    + CalculateTotalRevenue(c.tournaments[tournamentId])
            && AnyCompletedBelow(ts', c.nextTournamentId)
  {
    var ts' := UpdateTournamentStatus(c, tournamentId, Completed).value.tournaments;
    assert ts' == c.tournaments[tournamentId := ts'[tournamentId]];
    RevenueBelowPointUpdate(c.tournaments, tournamentId, ts'[tournamentId], c.nextTournamentId);
    assert IsCompletedAt(ts', tournamentId);
  }

  /** Withdrawal is allowed from a COMPLETED tournament, and then lowers the
      revenue report by one entry fee, although the member's count of
      tournaments played keeps it. */
  lemma WithdrawalFromCompletedLowersRevenue(c: Club, tournamentId: Id, memberId: Id)
    requires Valid(c)
    requires tournamentId in c.tournaments && c.tournaments[tournamentId].status == Completed
    requires RemoveMemberFromTournament(c, tournamentId, memberId).Ok?
    ensures var c' := RemoveMemberFromTournament(c, tournamentId, memberId).value;
            && CompletedRevenueBelow(c'.tournaments, c.nextTournamentId)
                 == CompletedRevenueBelow(c.tournaments, c.nextTournamentId) - c.tournaments[tournamentId].entryFee
            && c'.members == c.members
  {
    var t := c.tournaments[tournamentId];
    var ts' := RemoveMemberFromTournament(c, tournamentId, memberId).value.tournaments;
    assert ts' == c.tournaments[tournamentId := ts'[tournamentId]];
    RevenueBelowPointUpdate(c.tournaments, tournamentId, ts'[tournamentId], c.nextTournamentId);
    RevenueFollowsRegistrations(t, memberId);
  }
}
