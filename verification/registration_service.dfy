/** The registration service (services/registration_service.py): a user
    cancelling their registration, the organizer moving a registration
    through its statuses, and the organizer's views of registrations joined
    with the registered users. */
module RegistrationServices {
  import opened Wrappers
  import opened Ids
  import opened Store
  import opened Domain
  import opened Events
  import opened Registrations
  import opened Users

  /** A registration joined with its user (`RegistrationWithUser`). */
  datatype RegistrationWithUser = RegistrationWithUser(
    id: Id, eventId: string, userId: string, userName: string, userEmail: string,
    userCity: string, status: RegistrationStatus, registeredAt: Time, paidAt: Option<Time>)

  function WithUser(g: Registration, u: User): (row: RegistrationWithUser)
    ensures row.id == g.id && row.eventId == g.eventId && row.userId == g.userId
    ensures row.status == g.status && row.paidAt == g.paidAt && row.userEmail == u.email
  {
    RegistrationWithUser(g.id, g.eventId, g.userId, u.name, u.email, u.city,
                         g.status, g.registeredAt, g.paidAt)
  }

  /** A row the organizer views may show: an active registration whose
      `usuario_id` names a stored user, joined with that user. */
  predicate IsRowOf(row: RegistrationWithUser, regDocs: map<Id, Registration>, userDocs: map<Id, User>) {
    row.id in regDocs && IsActive(regDocs[row.id].status) &&
    Find(userDocs, regDocs[row.id].userId).Some? &&
    row == WithUser(regDocs[row.id], Find(userDocs, regDocs[row.id].userId).value)
  }

  /** Row ids are registration ids, so rows of distinct registrations are distinct. */
  predicate DistinctRows(rows: seq<RegistrationWithUser>) {
    forall i, j :: 0 <= i < j < |rows| ==> rows[i].id != rows[j].id
  }

  /** The loop shared by both organizer views: each registration whose user
      exists becomes a row; the others are skipped. */
  method AttachUsers(users: UserRepository, regs: seq<Registration>) returns (rows: seq<RegistrationWithUser>)
    requires users.Valid()
    requires forall i, j :: 0 <= i < j < |regs| ==> regs[i].id != regs[j].id
    ensures |rows| <= |regs| && DistinctRows(rows)
    ensures forall row :: row in rows <==>
      exists i :: 0 <= i < |regs| && Find(users.docs, regs[i].userId).Some? &&
                  row == WithUser(regs[i], Find(users.docs, regs[i].userId).value)
  {
    rows := [];
    for i := 0 to |regs|
      invariant |rows| <= i && DistinctRows(rows)
      invariant forall a :: 0 <= a < |rows| ==> exists j :: 0 <= j < i && rows[a].id == regs[j].id
      invariant forall row :: row in rows <==>
        exists j :: 0 <= j < i && Find(users.docs, regs[j].userId).Some? &&
                    row == WithUser(regs[j], Find(users.docs, regs[j].userId).value)
    {
      var reg := regs[i];
      var user := users.GetUserById(reg.userId);
      if user.Some? {
        rows := rows + [RegistrationWithUser(reg.id, reg.eventId, reg.userId, user.value.name,
                                             user.value.email, user.value.city, reg.status,
                                             reg.registeredAt, reg.paidAt)];
      }
    }
  }

  /** The rows built from a listing of the active registrations that pass
      `keep` are exactly the rows of those registrations whose user exists. */
  lemma RowsOfListing(regDocs: map<Id, Registration>, userDocs: map<Id, User>, keep: Registration -> bool,
                      regs: seq<Registration>, rows: seq<RegistrationWithUser>)
    requires forall k :: k in regDocs ==> regDocs[k].id == k
    requires forall g :: g in regs <==> g.id in regDocs && regDocs[g.id] == g && IsActive(g.status) && keep(g)
    requires forall row :: row in rows <==>
      exists i :: 0 <= i < |regs| && Find(userDocs, regs[i].userId).Some? &&
                  row == WithUser(regs[i], Find(userDocs, regs[i].userId).value)
    ensures forall row :: row in rows <==> IsRowOf(row, regDocs, userDocs) && keep(regDocs[row.id])
  {
    forall row | row in rows ensures IsRowOf(row, regDocs, userDocs) && keep(regDocs[row.id]) {
      var i :| 0 <= i < |regs| && Find(userDocs, regs[i].userId).Some? &&
               row == WithUser(regs[i], Find(userDocs, regs[i].userId).value);
      assert regs[i] in regs;
    }
    forall row: RegistrationWithUser | IsRowOf(row, regDocs, userDocs) && keep(regDocs[row.id]) ensures row in rows {
      var g := regDocs[row.id];
      assert g in regs;
      var i :| 0 <= i < |regs| && regs[i] == g;
    }
  }

  /** The rows of one more event keep the organizer view free of
      duplicates: a row belongs to the event its registration names, and the
      events listed are distinct. */
  lemma AppendRows(out: seq<RegistrationWithUser>, rows: seq<RegistrationWithUser>,
                   regDocs: map<Id, Registration>, es: seq<Event>, i: nat)
    requires i < |es| && forall a, b :: 0 <= a < b < |es| ==> es[a].id != es[b].id
    requires DistinctRows(out) && DistinctRows(rows)
    requires forall row :: row in out ==> row.id in regDocs && exists j :: 0 <= j < i && regDocs[row.id].eventId == es[j].id
    requires forall row :: row in rows ==> row.id in regDocs && regDocs[row.id].eventId == es[i].id
    ensures DistinctRows(out + rows)
  {
    var all := out + rows;
    forall a, b | 0 <= a < b < |all| ensures all[a].id != all[b].id {
      if a < |out| && b >= |out| {
        assert all[a] in out && all[b] in rows;
        var j :| 0 <= j < i && regDocs[all[a].id].eventId == es[j].id;
        assert es[j].id != es[i].id;
      }
    }
  }

  /** A registration is listed under one of the organizer's events exactly
      when the event it names is stored and organized by the organizer. */
  lemma OrganizerRows(out: seq<RegistrationWithUser>, es: seq<Event>, regDocs: map<Id, Registration>,
                      userDocs: map<Id, User>, eventDocs: map<Id, Event>, organizerId: string)
    requires forall k :: k in eventDocs ==> eventDocs[k].id == k
    requires forall e :: e in es <==> e.id in eventDocs && eventDocs[e.id] == e && e.organizerId == organizerId
    requires forall row :: row in out <==>
      IsRowOf(row, regDocs, userDocs) && exists j :: 0 <= j < |es| && regDocs[row.id].eventId == es[j].id
    ensures forall row :: row in out <==>
      IsRowOf(row, regDocs, userDocs) && regDocs[row.id].eventId in eventDocs &&
      eventDocs[regDocs[row.id].eventId].organizerId == organizerId
  {
    forall row | row in out
      ensures regDocs[row.id].eventId in eventDocs && eventDocs[regDocs[row.id].eventId].organizerId == organizerId
    {
      var j :| 0 <= j < |es| && regDocs[row.id].eventId == es[j].id;
      assert es[j] in es;
    }
    forall row: RegistrationWithUser | IsRowOf(row, regDocs, userDocs) && regDocs[row.id].eventId in eventDocs &&
        eventDocs[regDocs[row.id].eventId].organizerId == organizerId
      ensures row in out
    {
      var e := eventDocs[regDocs[row.id].eventId];
      assert e in es;
      var j :| 0 <= j < |es| && es[j] == e;
    }
  }

  class RegistrationService {
    const users: UserRepository
    const events: EventRepository
    const registrations: RegistrationRepository

    constructor (users: UserRepository, events: EventRepository, registrations: RegistrationRepository)
      ensures this.users == users && this.events == events && this.registrations == registrations
    {
      this.users := users;
      this.events := events;
      this.registrations := registrations;
    }

    ghost predicate Valid()
      reads users, events, registrations
    {
      users.Valid() && events.Valid() && registrations.Valid()
    }

    /** `cancel_registration`. Errors, in order and without writes:
        RegistrationNotFound, Forbidden when the caller does not own the
        registration, CannotCancel unless it is awaiting payment or approved.
        Otherwise the registration becomes CANCELADA and the caller leaves
        the participants of the event it names (reopening a FULL event). */
    method CancelRegistration(registrationId: string, userId: string) returns (r: Result<(), Error>)
      requires Valid()
      modifies events, registrations
      ensures Valid()
      ensures Find(old(registrations.docs), registrationId).None? ==> r == Err(RegistrationNotFound)
      ensures Find(old(registrations.docs), registrationId).Some? ==>
        var g := Find(old(registrations.docs), registrationId).value;
        && (g.userId != userId ==> r == Err(Forbidden))
        && (g.userId == userId && !Cancellable(g.status) ==> r == Err(CannotCancel))
        && (g.userId == userId && Cancellable(g.status) ==> r == Ok(()))
      ensures r.Err? ==> registrations.docs == old(registrations.docs) && events.docs == old(events.docs)
      ensures r.Ok? ==>
        var g := Find(old(registrations.docs), registrationId).value;
        && registrations.docs == old(registrations.docs)[g.id := g.(status := Cancelada)]
        && (Find(old(events.docs), g.eventId).None? ==> events.docs == old(events.docs))
        && (Find(old(events.docs), g.eventId).Some? ==>
              var e := Find(old(events.docs), g.eventId).value;
              events.docs == old(events.docs)[e.id := Left(e, userId)] &&
              userId !in events.docs[e.id].registeredUsers)
      ensures UniqueActive(old(registrations.docs)) ==> UniqueActive(registrations.docs)
    {
      var registration := registrations.GetRegistrationById(registrationId);
      if registration.None? {
        return Err(RegistrationNotFound);
      }
      var g := registration.value;
      if g.userId != userId {
        return Err(Forbidden);
      }
      if !(g.status == AguardandoPagamento || g.status == Aprovada) {
        return Err(CannotCancel);
      }
      ghost var before := registrations.docs;
      var _ := registrations.CancelRegistration(registrationId);
      if UniqueActive(before) {
        CancelKeepsUnique(before, g.id);
      }
      var _ := events.RemoveParticipant(g.eventId, userId);
      r := Ok(());
    }

    /** `update_registration_status`. Errors, in order and without writes:
        RegistrationNotFound, EventNotFound for the event the registration
        names, Forbidden unless the caller organizes that event. Otherwise the
        status is stored as given (any status, active or not); approving a
        registration of an event with a positive price also stamps the
        payment time, and approving one of an event stored without a price
        fails with PriceNotComparable after the status is written. */
    method UpdateRegistrationStatus(registrationId: string, newStatus: RegistrationStatus, userId: string, now: Time)
      returns (r: Result<(), Error>)
      requires Valid()
      modifies registrations
      ensures Valid()
      ensures Find(old(registrations.docs), registrationId).None? ==> r == Err(RegistrationNotFound)
      ensures Find(old(registrations.docs), registrationId).Some? ==>
        var g := Find(old(registrations.docs), registrationId).value;
        && (Find(events.docs, g.eventId).None? ==> r == Err(EventNotFound))
        && ((Find(events.docs, g.eventId).Some? && Find(events.docs, g.eventId).value.organizerId != userId)
            ==> r == Err(Forbidden))
        && ((Find(events.docs, g.eventId).Some? && Find(events.docs, g.eventId).value.organizerId == userId)
            ==> r == (if newStatus == Aprovada && Find(events.docs, g.eventId).value.price.None?
                      then Err(PriceNotComparable) else Ok(())))
      ensures r.Err? && r.error != PriceNotComparable ==> registrations.docs == old(registrations.docs)
      ensures r.Ok? || r == Err(PriceNotComparable) ==>
        var g := Find(old(registrations.docs), registrationId).value;
        var e := Find(events.docs, g.eventId).value;
        && e.organizerId == userId
        && (r == Err(PriceNotComparable) <==> newStatus == Aprovada && e.price.None?)
        && registrations.docs == old(registrations.docs)[g.id := g.(
             status := newStatus,
             paidAt := if newStatus == Aprovada && e.price.Some? && e.price.value > 0 then Some(now) else g.paidAt)]
    {
      var registration := registrations.GetRegistrationById(registrationId);
      if registration.None? {
        return Err(RegistrationNotFound);
      }
      var g := registration.value;
      var event := events.GetEventById(g.eventId);
      if event.None? {
        return Err(EventNotFound);
      }
      var e := event.value;
      if e.organizerId != userId {
        return Err(Forbidden);
      }
      ghost var before := registrations.docs;
      ghost var g1 := g.(status := newStatus);
      var _ := registrations.UpdateRegistrationStatus(registrationId, newStatus);
      assert registrations.docs == before[g.id := g1];
      r := Ok(());
      if newStatus == Aprovada {
        if e.price.None? {
          // `event.get("price", 0) > 0` compares None with 0.
          return Err(PriceNotComparable);
        }
        if e.price.value > 0 {
          assert Find(registrations.docs, registrationId) == Some(g1);
          var _ := registrations.UpdatePaymentTimestamp(registrationId, now);
          OverwriteTwice(before, g.id, g1, g1.(paidAt := Some(now)));
        }
      }
    }

    /** `get_event_registrations`: EventNotFound, then Forbidden unless the
        caller organizes the event; otherwise one row per active registration
        whose `evento_id` is the string given and whose user exists. */
    method GetEventRegistrations(eventId: string, userId: string) returns (r: Result<seq<RegistrationWithUser>, Error>)
      requires Valid()
      ensures Find(events.docs, eventId).None? ==> r == Err(EventNotFound)
      ensures Find(events.docs, eventId).Some? && Find(events.docs, eventId).value.organizerId != userId
        ==> r == Err(Forbidden)
      ensures Find(events.docs, eventId).Some? && Find(events.docs, eventId).value.organizerId == userId
        ==> r.Ok?
      ensures r.Ok? ==> DistinctRows(r.value)
      ensures r.Ok? ==> forall row :: row in r.value <==>
        IsRowOf(row, registrations.docs, users.docs) && registrations.docs[row.id].eventId == eventId
    {
      var event := events.GetEventById(eventId);
      if event.None? {
        return Err(EventNotFound);
      }
      if event.value.organizerId != userId {
        return Err(Forbidden);
      }
      var regs := registrations.GetEventRegistrations(eventId);
      KeyedDistinct(registrations.docs, (g: Registration) => g.id, regs);
      var rows := AttachUsers(users, regs);
      RowsOfListing(registrations.docs, users.docs, (g: Registration) => g.eventId == eventId, regs, rows);
      r := Ok(rows);
    }

    /** `get_organizer_registrations`: for each event the organizer owns, the
        rows of its active registrations, matched by the event's own id. A
        registration whose `evento_id` is not written exactly as that id is
        not shown. */
    method GetOrganizerRegistrations(organizerId: string) returns (out: seq<RegistrationWithUser>)
      requires Valid()
      ensures DistinctRows(out)
      ensures forall row :: row in out <==>
        IsRowOf(row, registrations.docs, users.docs) &&
        registrations.docs[row.id].eventId in events.docs &&
        events.docs[registrations.docs[row.id].eventId].organizerId == organizerId
    {
      var es := events.GetEventsByOrganizer(organizerId);
      KeyedDistinct(events.docs, (e: Event) => e.id, es);
      out := [];
      for i := 0 to |es|
        invariant DistinctRows(out)
        invariant forall row :: row in out <==>
          IsRowOf(row, registrations.docs, users.docs) &&
          exists j :: 0 <= j < i && registrations.docs[row.id].eventId == es[j].id
      {
        var regs := registrations.GetEventRegistrations(es[i].id);
        KeyedDistinct(registrations.docs, (g: Registration) => g.id, regs);
        var rows := AttachUsers(users, regs);
        RowsOfListing(registrations.docs, users.docs, (g: Registration) => g.eventId == es[i].id, regs, rows);
        AppendRows(out, rows, registrations.docs, es, i);
        out := out + rows;
      }
      OrganizerRows(out, es, registrations.docs, users.docs, events.docs, organizerId);
    }
  }
}
