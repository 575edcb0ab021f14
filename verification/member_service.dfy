/** The member service: creating and updating members under the duplicate
    e-mail/phone rule, the administrative status override, extending a
    membership, and the lazy expiry check. */
module MemberService {
  import opened Results
  import opened JavaInt
  import opened Calendar
  import opened Identity
  import opened Members
  import opened Store

  /** The member store changed at most at `id`: the tournaments, the id
      counters, the set of member ids and every other member are as before. */
  predicate OnlyMemberChanged(c: Club, r: Club, id: Id) {
    && r.tournaments == c.tournaments
    && r.nextMemberId == c.nextMemberId
    && r.nextTournamentId == c.nextTournamentId
    && r.members.Keys == c.members.Keys
    && (forall other :: other in c.members && other != id ==> r.members[other] == c.members[other])
  }

  /** The duplicate-contact check: a non-null e-mail address already held by
      any stored member fails first; otherwise a non-null phone number already
      held by any stored member fails. Null fields are not checked. */
  function ValidateMember(c: Club, m: Member): (r: Outcome<Error>)
    ensures r == Fail(EmailAlreadyExists) <==> m.email.Some? && EmailInUse(c, m.email.value)
    ensures r == Fail(PhoneAlreadyExists) <==>
              !(m.email.Some? && EmailInUse(c, m.email.value)) && m.phone.Some? && PhoneInUse(c, m.phone.value)
    ensures r.Fail? ==> r.error == EmailAlreadyExists || r.error == PhoneAlreadyExists
  {
    if m.email.Some? && EmailInUse(c, m.email.value) then Fail(EmailAlreadyExists)
    else if m.phone.Some? && PhoneInUse(c, m.phone.value) then Fail(PhoneAlreadyExists)
    else Pass
  }

  /** Creates a member: stored, as given, under the next identity value, but
      only once the duplicate-contact check has passed. */
  function SaveMember(c: Club, m: Member): (r: Result<(Club, Id), Error>)
    ensures r.Err? <==> (m.email.Some? && EmailInUse(c, m.email.value)) || (m.phone.Some? && PhoneInUse(c, m.phone.value))
    ensures r.Err? ==> ValidateMember(c, m) == Fail(r.error)
    ensures r.Ok? ==> var (c', id) := r.value;
              && id == c.nextMemberId
              && c'.members.Keys == c.members.Keys + {id}
              && c'.members[id] == m
              && (forall other :: other in c.members && other != id ==> c'.members[other] == c.members[other])
              && c'.tournaments == c.tournaments
              && c'.nextMemberId == id + 1 && c'.nextTournamentId == c.nextTournamentId
  {
    match ValidateMember(c, m)
    case Fail(e) => Err(e)
    case Pass =>
      var id := c.nextMemberId;
      Ok((c.(members := c.members[id := m], nextMemberId := id + 1), id))
  }

  /** Creating a member keeps the store valid and never introduces a second
      holder of an e-mail address or a phone number. */
  lemma SaveMemberKeepsContactsUnique(c: Club, m: Member)
    requires Valid(c)
    ensures SaveMember(c, m).Ok? ==> Valid(SaveMember(c, m).value.0)
    ensures SaveMember(c, m).Ok? && PhonesUnique(c) ==> PhonesUnique(SaveMember(c, m).value.0)
  {
    if SaveMember(c, m).Ok? {
      var (c', id) := SaveMember(c, m).value;
      assert id !in c.members;
      forall a, b | a in c'.members && b in c'.members && a != b && c'.members[a].email.Some?
        ensures c'.members[a].email != c'.members[b].email
      {
        if a == id {
          assert !EmailInUse(c, m.email.value);
        }
      }
      if PhonesUnique(c) {
        forall a, b | a in c'.members && b in c'.members && a != b && c'.members[a].phone.Some?
          ensures c'.members[a].phone != c'.members[b].phone
        {
          if a == id {
            assert !PhoneInUse(c, m.phone.value);
          }
        }
      }
    }
  }

  /** The profile fields an update overwrites. */
  function WithProfile(existing: Member, incoming: Member): Member {
    existing.(name := incoming.name, address := incoming.address, email := incoming.email,
              phone := incoming.phone, startDate := incoming.startDate, duration := incoming.duration)
  }

  /** Updates a member's profile. The duplicate-contact check runs only when
      the e-mail address changes, and then checks the incoming phone against
      every member, the updated member included. A stored null e-mail makes
      the comparison throw. */
  function UpdateMember(c: Club, id: Id, incoming: Member): (r: Result<Club, Error>)
    ensures id !in c.members ==> r == Err(MemberNotFound)
    ensures id in c.members && c.members[id].email.None? ==> r == Err(NullEmail)
    ensures id in c.members && c.members[id].email.Some? && c.members[id].email == incoming.email ==> r.Ok?
    ensures id in c.members && c.members[id].email.Some? && c.members[id].email != incoming.email ==>
              (r.Err? <==> (incoming.email.Some? && EmailInUse(c, incoming.email.value))
                           || (incoming.phone.Some? && PhoneInUse(c, incoming.phone.value)))
              && (r.Err? ==> ValidateMember(c, incoming) == Fail(r.error))
    ensures r.Ok? ==> id in c.members && OnlyMemberChanged(c, r.value, id)
    ensures r.Ok? ==> var m, m' := c.members[id], r.value.members[id];
              && m'.name == incoming.name && m'.address == incoming.address
              && m'.email == incoming.email && m'.phone == incoming.phone
              && m'.startDate == incoming.startDate && m'.duration == incoming.duration
              && m'.status == m.status
              && m'.totalTournamentsPlayed == m.totalTournamentsPlayed
              && m'.totalWinnings == m.totalWinnings
  {
    if id !in c.members then Err(MemberNotFound)
    else
      var existing := c.members[id];
      if existing.email.None? then Err(NullEmail)
      else if existing.email != incoming.email && ValidateMember(c, incoming).Fail? then
        Err(ValidateMember(c, incoming).error)
      else
        Ok(c.(members := c.members[id := WithProfile(existing, incoming)]))
  }

  /** Changing only the e-mail address while keeping one's own phone number
      is rejected: the phone check finds the member's own record. */
  lemma ChangingEmailKeepingOwnPhoneFails(c: Club, id: Id, incoming: Member)
    requires id in c.members && c.members[id].email.Some?
    requires incoming.email != c.members[id].email
    requires !(incoming.email.Some? && EmailInUse(c, incoming.email.value))
    requires incoming.phone.Some? && incoming.phone == c.members[id].phone
    ensures UpdateMember(c, id, incoming) == Err(PhoneAlreadyExists)
  {
    assert PhoneInUse(c, incoming.phone.value) by {
      assert c.members[id].phone == Some(incoming.phone.value);
    }
  }

  /** Updating a member keeps the store valid: e-mail addresses stay unique. */
  lemma UpdateMemberKeepsStoreValid(c: Club, id: Id, incoming: Member)
    requires Valid(c)
    ensures UpdateMember(c, id, incoming).Ok? ==> Valid(UpdateMember(c, id, incoming).value)
  {
    if UpdateMember(c, id, incoming).Ok? {
      var c' := UpdateMember(c, id, incoming).value;
      var changed := c.members[id].email != incoming.email;
      forall a, b | a in c'.members && b in c'.members && a != b && c'.members[a].email.Some?
        ensures c'.members[a].email != c'.members[b].email
      {
        if changed && a == id {
          assert !EmailInUse(c, incoming.email.value);
        } else if changed && b == id && c'.members[a].email == incoming.email {
          assert c.members[a].email == Some(incoming.email.value);
          assert EmailInUse(c, incoming.email.value);
        }
      }
    }
  }

  /** A change of phone number alone is never checked, so two members can
      end up with the same phone number. */
  lemma PhoneOnlyUpdateCanDuplicatePhone(c: Club, id: Id, incoming: Member)
    requires id in c.members && c.members[id].email.Some?
    requires incoming.email == c.members[id].email
    requires incoming.phone.Some? && PhoneInUse(c, incoming.phone.value)
    requires incoming.phone != c.members[id].phone
    ensures UpdateMember(c, id, incoming).Ok?
    ensures !PhonesUnique(UpdateMember(c, id, incoming).value)
  {
    var other :| other in c.members && c.members[other].phone == incoming.phone;
    var c' := UpdateMember(c, id, incoming).value;
    assert other != id;
    assert c'.members[id].phone == c'.members[other].phone;
  }

  /** The administrative override: any status from any status. An absent id
      is silently ignored. */
  function UpdateMemberStatus(c: Club, id: Id, status: MembershipStatus): (r: Club)
    ensures id !in c.members ==> r == c
    ensures id in c.members ==>
              && OnlyMemberChanged(c, r, id)
              && r.members[id].status == status
              && r.members[id].(status := c.members[id].status) == c.members[id]
  {
    if id in c.members then c.(members := c.members[id := c.members[id].(status := status)])
    else c
  }

  /** The override keeps the store valid. */
  lemma UpdateMemberStatusKeepsStoreValid(c: Club, id: Id, status: MembershipStatus)
    requires Valid(c)
    ensures Valid(UpdateMemberStatus(c, id, status))
    ensures PhonesUnique(c) ==> PhonesUnique(UpdateMemberStatus(c, id, status))
  {
  }

  /** Extends a membership by `additionalMonths` (Java `int` addition). */
  function UpdateMembershipDuration(c: Club, id: Id, additionalMonths: Int32): (r: Result<Club, Error>)
    ensures r.Err? <==> id !in c.members
    ensures r.Err? ==> r.error == MemberNotFound
    ensures r.Ok? ==> OnlyMemberChanged(c, r.value, id)
    ensures r.Ok? ==> var m, m' := c.members[id], r.value.members[id];
              && m'.duration == Add(m.duration, additionalMonths)
              && m'.(duration := m.duration) == m
  {
    if id !in c.members then Err(MemberNotFound)
    else
      var m := c.members[id];
      Ok(c.(members := c.members[id := m.(duration := Add(m.duration, additionalMonths))]))
  }

  /** Without overflow the new duration is the old one plus the extension,
      and a non-negative extension never expires a membership that was not
      expired. */
  lemma ExtensionIsAdditive(c: Club, id: Id, additionalMonths: Int32, today: LocalDate)
    requires id in c.members
    requires c.members[id].duration + additionalMonths <= INT_MAX
    requires 0 <= additionalMonths
    requires !IsMembershipExpired(c.members[id], today)
    ensures UpdateMembershipDuration(c, id, additionalMonths).Ok?
    ensures UpdateMembershipDuration(c, id, additionalMonths).value.members[id].duration
              == c.members[id].duration + additionalMonths
    ensures !IsMembershipExpired(UpdateMembershipDuration(c, id, additionalMonths).value.members[id], today)
  {
    var m := c.members[id];
    LongerDurationDefersExpiry(m, m.duration + additionalMonths, today);
  }

  /** Extending a membership keeps the store valid and phones unique. */
  lemma UpdateMembershipDurationKeepsStoreValid(c: Club, id: Id, additionalMonths: Int32)
    requires Valid(c)
    ensures UpdateMembershipDuration(c, id, additionalMonths).Ok? ==>
              Valid(UpdateMembershipDuration(c, id, additionalMonths).value)
    ensures UpdateMembershipDuration(c, id, additionalMonths).Ok? && PhonesUnique(c) ==>
              PhonesUnique(UpdateMembershipDuration(c, id, additionalMonths).value)
  {
  }

  /** Lazy expiry: marks the member EXPIRED when the membership has run out,
      whatever its status was; otherwise, or for an absent id, does nothing. */
  function CheckMembershipStatus(c: Club, id: Id, today: LocalDate): (r: Club)
    ensures id !in c.members ==> r == c
    ensures id in c.members && !IsMembershipExpired(c.members[id], today) ==> r == c
    ensures id in c.members ==>
              && OnlyMemberChanged(c, r, id)
              && r.members[id].(status := c.members[id].status) == c.members[id]
              && (IsMembershipExpired(c.members[id], today) ==> r.members[id].status == Expired)
  {
    if id in c.members && IsMembershipExpired(c.members[id], today) then
      c.(members := c.members[id := c.members[id].(status := Expired)])
    else c
  }

  /** The expiry check only ever moves a member to EXPIRED (never back to
      ACTIVE, never anywhere else), and running it twice is running it once. */
  lemma CheckMembershipStatusOnlyExpires(c: Club, id: Id, today: LocalDate)
    requires id in c.members
    ensures var m' := CheckMembershipStatus(c, id, today).members[id];
              m'.status == c.members[id].status || m'.status == Expired
    ensures CheckMembershipStatus(CheckMembershipStatus(c, id, today), id, today)
              == CheckMembershipStatus(c, id, today)
  {
  }

  /** The expiry check keeps the store valid. */
  lemma CheckMembershipStatusKeepsStoreValid(c: Club, id: Id, today: LocalDate)
    requires Valid(c)
    ensures Valid(CheckMembershipStatus(c, id, today))
  {
  }
}
