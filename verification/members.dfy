/** The `Member` entity: a club member's profile, membership window, status
    and play statistics, with the entity's own business methods. */
module Members {
  import opened Results
  import opened JavaInt
  import opened Calendar

  datatype MembershipStatus = Active | Expired | Suspended | Pending

  /** Money is held in whole cents rather than as a `Double`. The list of
      tournaments a member is in is not stored here: it is the inverse side of
      `Tournament.participants` and is derived by `Store.TournamentsOf`. */
  datatype Member = Member(
    name: string,
    address: string,
    email: Option<string>,
    phone: Option<string>,
    startDate: LocalDate,
    duration: Int32,
    status: MembershipStatus,
    totalTournamentsPlayed: Int32,
    totalWinnings: int)

  /** The six-argument constructor: a new member is ACTIVE and has neither
      played nor won anything yet. */
  function NewMember(name: string, address: string, email: Option<string>, phone: Option<string>,
                     startDate: LocalDate, duration: Int32): (m: Member)
    ensures m.status == Active && IsActive(m)
    ensures m.totalTournamentsPlayed == 0 && m.totalWinnings == 0
    ensures m.name == name && m.address == address && m.email == email && m.phone == phone
    ensures m.startDate == startDate && m.duration == duration
  {
    Member(name, address, email, phone, startDate, duration, Active, 0, 0)
  }

  predicate IsActive(m: Member) {
    m.status == Active
  }

  /** The last day the membership covers: start date plus the duration in
      months. */
  function EndDate(m: Member): LocalDate {
    PlusMonths(m.startDate, m.duration)
  }

  /** `today` is strictly after the start date plus the duration in months. */
  predicate IsMembershipExpired(m: Member, today: LocalDate) {
    IsAfter(today, EndDate(m))
  }

  /** A membership is still valid on its end date itself, and expired on every
      later date. */
  lemma ExpiryStartsAfterEndDate(m: Member, today: LocalDate)
    ensures IsMembershipExpired(m, today) <==> IsBefore(EndDate(m), today)
    ensures !IsMembershipExpired(m, EndDate(m))
  {
  }

  /** Once expired, a membership stays expired as time goes on. */
  lemma ExpiryIsPermanent(m: Member, today: LocalDate, later: LocalDate)
    requires IsMembershipExpired(m, today)
    requires !IsBefore(later, today)
    ensures IsMembershipExpired(m, later)
  {
    IsBeforeIsStrictTotalOrder(EndDate(m), today, later);
  }

  /** A longer duration never makes an unexpired membership expired. */
  lemma LongerDurationDefersExpiry(m: Member, longer: Int32, today: LocalDate)
    requires m.duration <= longer
    requires !IsMembershipExpired(m, today)
    ensures !IsMembershipExpired(m.(duration := longer), today)
  {
    PlusMonthsIsMonotone(m.startDate, m.duration, longer);
    IsBeforeIsStrictTotalOrder(PlusMonths(m.startDate, m.duration), PlusMonths(m.startDate, longer), today);
  }

  /** `totalTournamentsPlayed++` on a Java `Integer`. */
  function IncrementTournamentsPlayed(m: Member): (r: Member)
    ensures m.totalTournamentsPlayed < INT_MAX ==> r.totalTournamentsPlayed == m.totalTournamentsPlayed + 1
    ensures m.totalTournamentsPlayed == INT_MAX ==> r.totalTournamentsPlayed == INT_MIN
    ensures r.(totalTournamentsPlayed := m.totalTournamentsPlayed) == m
  {
    m.(totalTournamentsPlayed := Add(m.totalTournamentsPlayed, 1))
  }

  /** `totalWinnings += amount`. */
  function AddWinnings(m: Member, amount: int): (r: Member)
    ensures r.totalWinnings - m.totalWinnings == amount
    ensures r.(totalWinnings := m.totalWinnings) == m
  {
    m.(totalWinnings := m.totalWinnings + amount)
  }
}
