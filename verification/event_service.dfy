/** The event service (services/event_service.py): listings with live
    remaining-seat counts, the event detail page, a user's registrations, the
    registration flow, and the organizer's updates. */
module EventServices {
  import opened Wrappers
  import opened Ids
  import opened Store
  import opened Domain
  import opened Events
  import opened Registrations
  import opened Users
  import opened Friendships

  /** An entry of the event listings (`Event` in the event schema). */
  datatype EventSummary = EventSummary(
    id: Id, title: string, banner: string, date: string, price: Option<int>,
    remainingSeats: int, organizerId: string, organizerName: string,
    category: string)

  /** A participant on the detail page. */
  datatype ParticipantInfo = ParticipantInfo(id: Id, name: string, city: string, isFriend: bool)

  /** The detail page of an event (`EventDetail`). */
  datatype EventDetail = EventDetail(
    id: Id, title: string, banner: string, date: string, time: string,
    price: Option<int>, remainingSeats: int, capacity: int, organizerId: string,
    organizerName: string, category: string, description: string,
    location: string, rules: seq<string>, status: EventStatus,
    participants: seq<ParticipantInfo>)

  /** One of a user's registrations, with its event (`RegistrationResponse`). */
  datatype RegistrationResponse = RegistrationResponse(
    id: Id, eventId: string, eventName: string, eventDate: string,
    eventBanner: string, status: RegistrationStatus, registeredAt: Time,
    paidAt: Option<Time>, canCancel: bool)

  /** A listing entry: remaining seats are recomputed from the stored event. */
  function Summarize(e: Event): (s: EventSummary)
    ensures s.id == e.id && s.remainingSeats == RemainingSeats(e)
  {
    EventSummary(e.id, e.title, e.banner, e.date, e.price, RemainingSeats(e),
                 e.organizerId, e.organizerName, e.category)
  }

  /** A user's registration as listed to them: `canCancel` is exactly the
      status test that `cancel_registration` applies. */
  function Respond(g: Registration, e: Event): (x: RegistrationResponse)
    ensures x.id == g.id && x.eventId == g.eventId && x.status == g.status && x.paidAt == g.paidAt
    ensures x.canCancel <==> Cancellable(g.status)
  {
    RegistrationResponse(g.id, g.eventId, e.title, e.date, e.banner, g.status,
                         g.registeredAt, g.paidAt,
                         g.status == AguardandoPagamento || g.status == Aprovada)
  }

  /** Whether a viewer is present: Python tests the optional user id for
      truth, so an empty id counts as no viewer. */
  predicate HasViewer(viewer: Option<string>) {
    viewer.Some? && viewer.value != ""
  }

  function Participant(u: User, isFriend: bool): ParticipantInfo {
    ParticipantInfo(u.id, u.name, u.city, isFriend)
  }

  /** What the detail page shows of a participant: the viewer's friendship
      with them, and never a friendship when there is no viewer. */
  predicate ShowsParticipant(p: ParticipantInfo, viewer: Option<string>,
                             userDocs: map<Id, User>, friendDocs: map<Id, Friendship>) {
    p.id in userDocs &&
    p == Participant(userDocs[p.id], HasViewer(viewer) && Friends(friendDocs, viewer.value, p.id))
  }

  /** The listing loop of `get_all_events` and `get_organized_events`. */
  method Summaries(es: seq<Event>) returns (out: seq<EventSummary>)
    ensures |out| == |es|
    ensures forall i :: 0 <= i < |es| ==> out[i] == Summarize(es[i])
  {
    out := [];
    for i := 0 to |es|
      invariant |out| == i
      invariant forall j :: 0 <= j < i ==> out[j] == Summarize(es[j])
    {
      var remaining := es[i].capacity - |es[i].registeredUsers|;
      out := out + [EventSummary(es[i].id, es[i].title, es[i].banner, es[i].date,
                                 es[i].price, remaining, es[i].organizerId,
                                 es[i].organizerName, es[i].category)];
    }
  }

  /** A listing of the events that pass `keep` yields one entry per such event,
      each carrying its live remaining-seat count. */
  lemma ListingSummaries(docs: map<Id, Event>, keep: Event -> bool, es: seq<Event>, out: seq<EventSummary>)
    requires forall k :: k in docs ==> docs[k].id == k
    requires NoDup(es)
    requires forall e :: e in es <==> e.id in docs && docs[e.id] == e && keep(e)
    requires |out| == |es| && forall i :: 0 <= i < |es| ==> out[i] == Summarize(es[i])
    ensures forall i, j :: 0 <= i < j < |out| ==> out[i].id != out[j].id
    ensures forall s :: s in out <==> s.id in docs && keep(docs[s.id]) && s == Summarize(docs[s.id])
  {
    KeyedDistinct(docs, (e: Event) => e.id, es);
    forall s | s in out ensures s.id in docs && keep(docs[s.id]) && s == Summarize(docs[s.id]) {
      var i :| 0 <= i < |out| && out[i] == s;
      assert es[i] in es;
    }
    forall s: EventSummary | s.id in docs && keep(docs[s.id]) && s == Summarize(docs[s.id]) ensures s in out {
      var e := docs[s.id];
      assert e in es;
      var i :| 0 <= i < |es| && es[i] == e;
      assert out[i] == s;
    }
  }

  class EventService {
    const users: UserRepository
    const events: EventRepository
    const registrations: RegistrationRepository
    const friendships: FriendshipRepository

    constructor (users: UserRepository, events: EventRepository,
                 registrations: RegistrationRepository, friendships: FriendshipRepository)
      ensures this.users == users && this.events == events
      ensures this.registrations == registrations && this.friendships == friendships
    {
      this.users := users;
      this.events := events;
      this.registrations := registrations;
      this.friendships := friendships;
    }

    ghost predicate Valid()
      reads users, events, registrations, friendships
    {
      users.Valid() && events.Valid() && registrations.Valid() && friendships.Valid()
    }

    /** `get_all_events`: one entry per stored event, with remaining seats
        recomputed from that event (capacity minus participants, unclamped). */
    method GetAllEvents() returns (summaries: seq<EventSummary>)
      requires Valid()
      ensures forall i, j :: 0 <= i < j < |summaries| ==> summaries[i].id != summaries[j].id
      ensures forall s :: s in summaries <==> s.id in events.docs && s == Summarize(events.docs[s.id])
    {
      var all := events.GetAllEvents();
      summaries := Summaries(all);
      ListingSummaries(events.docs, (e: Event) => true, all, summaries);
    }

    /** `get_organized_events`: the same, restricted to one organizer's events. */
    method GetOrganizedEvents(organizerId: string) returns (summaries: seq<EventSummary>)
      requires Valid()
      ensures forall i, j :: 0 <= i < j < |summaries| ==> summaries[i].id != summaries[j].id
      ensures forall s :: s in summaries <==>
        s.id in events.docs && events.docs[s.id].organizerId == organizerId &&
        s == Summarize(events.docs[s.id])
    {
      var mine := events.GetEventsByOrganizer(organizerId);
      summaries := Summaries(mine);
      ListingSummaries(events.docs, (e: Event) => e.organizerId == organizerId, mine, summaries);
    }

    /** `get_event_detail`: EventNotFound for a missing event; otherwise the
        event with its live remaining seats and one entry per existing user
        among its participants, flagged as the viewer's friend or not. */
    method GetEventDetail(eventId: string, viewer: Option<string>) returns (r: Result<EventDetail, Error>)
      requires Valid()
      ensures Find(events.docs, eventId).None? ==> r == Err(EventNotFound)
      ensures Find(events.docs, eventId).Some? ==> r.Ok?
      ensures r.Ok? ==>
        var e := Find(events.docs, eventId).value;
        var d := r.value;
        d == EventDetail(e.id, e.title, e.banner, e.date, e.time, e.price, RemainingSeats(e),
                         e.capacity, e.organizerId, e.organizerName, e.category,
                         e.description, e.location, e.rules, e.status, d.participants) &&
        (forall i, j :: 0 <= i < j < |d.participants| ==> d.participants[i].id != d.participants[j].id) &&
        (forall p :: p in d.participants <==>
          Mentions(e.registeredUsers, p.id) && ShowsParticipant(p, viewer, users.docs, friendships.docs))
      ensures r.Ok? && !HasViewer(viewer) ==> forall p :: p in r.value.participants ==> !p.isFriend
    {
      var found := events.GetEventById(eventId);
      if found.None? {
        return Err(EventNotFound);
      }
      var e := found.value;
      var us: seq<User> := [];
      if e.registeredUsers != [] {
        us := users.GetUsersByIds(e.registeredUsers);
      }
      assert forall u :: u in us <==> u.id in users.docs && users.docs[u.id] == u && Mentions(e.registeredUsers, u.id) by {
        if e.registeredUsers == [] {
          assert forall k :: !Mentions(e.registeredUsers, k);
        }
      }
      var participants := Participants(friendships, us, viewer);
      ParticipantsShown(users.docs, friendships.docs, e.registeredUsers, us, participants, viewer);
      var remaining := e.capacity - |e.registeredUsers|;
      r := Ok(EventDetail(e.id, e.title, e.banner, e.date, e.time, e.price, remaining,
                          e.capacity, e.organizerId, e.organizerName, e.category,
                          e.description, e.location, e.rules, e.status, participants));
    }

    /** `get_user_events`: every registration of the user, in any status, whose
        `evento_id` is the id of a stored event, paired with that event;
        registrations whose event is missing are skipped. */
    method GetUserEvents(userId: string) returns (out: seq<RegistrationResponse>)
      requires Valid()
      ensures forall i, j :: 0 <= i < j < |out| ==> out[i].id != out[j].id
      ensures forall x :: x in out <==>
        x.id in registrations.docs && registrations.docs[x.id].userId == userId &&
        registrations.docs[x.id].eventId in events.docs &&
        x == Respond(registrations.docs[x.id], events.docs[registrations.docs[x.id].eventId])
      ensures forall x :: x in out ==> (x.canCancel <==> Cancellable(x.status))
    {
      var regs := registrations.GetUserRegistrations(userId);
      KeyedDistinct(registrations.docs, (g: Registration) => g.id, regs);
      if regs == [] {
        return [];
      }
      var eventIds := seq(|regs|, i requires 0 <= i < |regs| => regs[i].eventId);
      var evs := events.GetEventsByIds(eventIds);
      var eventMap := IndexById(evs);
      // A registration finds its event in the map exactly when its `evento_id`
      // is, character for character, the id of a stored event.
      forall j | 0 <= j < |regs|
        ensures regs[j].eventId in eventMap <==> regs[j].eventId in events.docs
        ensures regs[j].eventId in eventMap ==> eventMap[regs[j].eventId] == events.docs[regs[j].eventId]
      {
        var k := regs[j].eventId;
        if k in events.docs {
          assert eventIds[j] == k;
          assert Mentions(eventIds, k);
          assert events.docs[k] in evs;
        }
      }
      out := RespondAll(regs, eventMap);
      forall x | x in out ensures
        x.id in registrations.docs && registrations.docs[x.id].userId == userId &&
        registrations.docs[x.id].eventId in events.docs &&
        x == Respond(registrations.docs[x.id], events.docs[registrations.docs[x.id].eventId])
      {
        var j :| 0 <= j < |regs| && regs[j].eventId in eventMap && x == Respond(regs[j], eventMap[regs[j].eventId]);
        assert regs[j] in regs;
      }
      forall x: RegistrationResponse | x.id in registrations.docs && registrations.docs[x.id].userId == userId &&
                 registrations.docs[x.id].eventId in events.docs &&
                 x == Respond(registrations.docs[x.id], events.docs[registrations.docs[x.id].eventId])
        ensures x in out
      {
        var g := registrations.docs[x.id];
        assert g in regs;
        var j :| 0 <= j < |regs| && regs[j] == g;
      }
    }

    /** `register_for_event`. Errors come in this order, and none of them
        writes anything: EventNotFound; EventFull when the stored status is
        FULL or no seat is left (whatever the status, so a CLOSED event with
        seats is not refused); AlreadyRegistered when the user holds an active
        registration for this event id. On success three writes follow, in
        order: the registration (approved iff the event is free), the user
        added to the participants (which may mark the event FULL), and, for an
        approved registration, the payment time. `now` and `paidNow` are the
        two clock readings, at the insert and at the payment stamp. */
    method RegisterForEvent(eventId: string, userId: string, now: Time, paidNow: Time, newId: Id)
      returns (r: Result<Id, Error>)
      requires Valid()
      requires IsCanonical(newId) && newId !in registrations.docs
      modifies events, registrations
      ensures Valid()
      ensures Find(old(events.docs), eventId).None? ==> r == Err(EventNotFound)
      ensures Find(old(events.docs), eventId).Some? ==>
        var e := Find(old(events.docs), eventId).value;
        && (e.status == Full || RemainingSeats(e) <= 0 ==> r == Err(EventFull))
        && ((e.status != Full && RemainingSeats(e) > 0 && HasActive(old(registrations.docs), userId, eventId))
            ==> r == Err(AlreadyRegistered))
        && ((e.status != Full && RemainingSeats(e) > 0 && !HasActive(old(registrations.docs), userId, eventId))
            ==> r == Ok(newId))
      ensures r.Err? ==> events.docs == old(events.docs) && registrations.docs == old(registrations.docs)
      ensures r.Ok? ==>
        var e := Find(old(events.docs), eventId).value;
        var status := InitialStatus(e.price);
        && registrations.docs == old(registrations.docs)[newId :=
             Registration(newId, userId, eventId, status, now, if status == Aprovada then Some(paidNow) else None)]
        && events.docs == old(events.docs)[e.id := Joined(e, userId)]
        && userId in events.docs[e.id].registeredUsers
      ensures UniqueActive(old(registrations.docs)) ==> UniqueActive(registrations.docs)
    {
      var found := events.GetEventById(eventId);
      if found.None? {
        return Err(EventNotFound);
      }
      var e := found.value;
      if e.status == Full {
        return Err(EventFull);
      }
      var remaining := e.capacity - |e.registeredUsers|;
      if remaining <= 0 {
        return Err(EventFull);
      }
      var existing := registrations.GetRegistrationByUserAndEvent(userId, eventId);
      if existing.Some? {
        return Err(AlreadyRegistered);
      }
      var id := Enroll(events, registrations, e, eventId, userId, now, paidNow, newId);
      r := Ok(id);
    }

    /** `create_event`: the organizer is the caller; the new event is OPEN with
        no participants, so its remaining seats equal its capacity. */
    method CreateEvent(data: EventData, organizerId: string, now: Time, newId: Id) returns (eventId: Id)
      requires Valid() && IsCanonical(newId) && newId !in events.docs && data.capacity > 0
      modifies events
      ensures Valid()
      ensures eventId == newId
      ensures events.docs == old(events.docs)[newId := NewEvent(newId, data.(organizerId := organizerId), now)]
      ensures Find(events.docs, eventId).Some?
      ensures RemainingSeats(events.docs[newId]) == data.capacity && events.docs[newId].registeredUsers == []
    {
      eventId := events.CreateEvent(data.(organizerId := organizerId), now, newId);
    }

    /** `update_event`. Errors, in order and without writes: EventNotFound,
        NotEventOrganizer. A price of 0 is turned into None, which the
        repository then drops, so it leaves the stored price as it was. The
        result says whether anything changed. The capacity may change without
        the status being recomputed. */
    method UpdateEvent(eventId: string, u: EventUpdate, userId: string) returns (r: Result<bool, Error>)
      requires Valid()
      requires u.capacity.Some? ==> u.capacity.value > 0
      modifies events
      ensures Valid()
      ensures Find(old(events.docs), eventId).None? ==> r == Err(EventNotFound)
      ensures Find(old(events.docs), eventId).Some? && Find(old(events.docs), eventId).value.organizerId != userId
        ==> r == Err(NotEventOrganizer)
      ensures Find(old(events.docs), eventId).Some? && Find(old(events.docs), eventId).value.organizerId == userId
        ==> r.Ok?
      ensures r.Err? ==> events.docs == old(events.docs)
      ensures r.Ok? ==>
        var e := Find(old(events.docs), eventId).value;
        var n := NormalisePrice(u);
        && e.organizerId == userId
        && events.docs == old(events.docs)[e.id := Apply(e, n)]
        && r.value == (Apply(e, n) != e)
        && (u.price == Some(0) ==> events.docs[e.id].price == e.price)
        && events.docs[e.id].status == e.status
    {
      var found := events.GetEventById(eventId);
      if found.None? {
        return Err(EventNotFound);
      }
      if found.value.organizerId != userId {
        return Err(NotEventOrganizer);
      }
      var update := u;
      if update.price == Some(0) {
        update := update.(price := None);
      }
      var success := events.UpdateEvent(eventId, update);
      r := Ok(success);
    }

    /** `update_event_status`: EventNotFound, then NotEventOrganizer, without
        writes; otherwise the organizer's status is stored as given, whatever
        the participant count. */
    method UpdateEventStatus(eventId: string, newStatus: EventStatus, userId: string) returns (r: Result<(), Error>)
      requires Valid()
      modifies events
      ensures Valid()
      ensures Find(old(events.docs), eventId).None? ==> r == Err(EventNotFound)
      ensures Find(old(events.docs), eventId).Some? && Find(old(events.docs), eventId).value.organizerId != userId
        ==> r == Err(NotEventOrganizer)
      ensures Find(old(events.docs), eventId).Some? && Find(old(events.docs), eventId).value.organizerId == userId
        ==> r == Ok(())
      ensures r.Err? ==> events.docs == old(events.docs)
      ensures r.Ok? ==>
        var e := Find(old(events.docs), eventId).value;
        e.organizerId == userId && events.docs == old(events.docs)[e.id := e.(status := newStatus)]
    {
      var found := events.GetEventById(eventId);
      if found.None? {
        return Err(EventNotFound);
      }
      if found.value.organizerId != userId {
        return Err(NotEventOrganizer);
      }
      var _ := events.UpdateEventStatus(eventId, newStatus);
      r := Ok(());
    }
  }

  /** The writes of a successful registration, in the order
      `register_for_event` makes them: the registration, the participant,
      and for an approved registration the payment time. */
  method Enroll(events: EventRepository, registrations: RegistrationRepository, e: Event,
                eventId: string, userId: string, now: Time, paidNow: Time, newId: Id) returns (id: Id)
    requires events.Valid() && registrations.Valid()
    requires Find(events.docs, eventId) == Some(e)
    requires IsCanonical(newId) && newId !in registrations.docs
    requires !HasActive(registrations.docs, userId, eventId)
    modifies events, registrations
    ensures events.Valid() && registrations.Valid()
    ensures id == newId
    ensures var status := InitialStatus(e.price);
      registrations.docs == old(registrations.docs)[newId :=
        Registration(newId, userId, eventId, status, now, if status == Aprovada then Some(paidNow) else None)]
    ensures events.docs == old(events.docs)[e.id := Joined(e, userId)]
    ensures UniqueActive(old(registrations.docs)) ==> UniqueActive(registrations.docs)
  {
    var status := InitialStatus(e.price);
    ghost var before := registrations.docs;
    ghost var g := Registration(newId, userId, eventId, status, now, None);
    id := registrations.CreateRegistration(userId, eventId, now, newId, status);
    if UniqueActive(before) {
      InsertKeepsUnique(before, g);
    }
    var _ := events.AddParticipant(eventId, userId);
    if status == Aprovada {
      ghost var created := registrations.docs;
      assert Find(created, id) == Some(g);
      var _ := registrations.UpdatePaymentTimestamp(id, paidNow);
      OverwriteTwice(before, newId, g, g.(paidAt := Some(paidNow)));
      if UniqueActive(created) {
        PaymentKeepsUnique(created, id, paidNow);
      }
    }
  }

  /** The participant loop of `get_event_detail`: the friendship check is
      made only when there is a viewer. */
  method Participants(friendships: FriendshipRepository, us: seq<User>, viewer: Option<string>)
    returns (ps: seq<ParticipantInfo>)
    requires friendships.Valid()
    ensures |ps| == |us|
    ensures forall j :: 0 <= j < |us| ==>
      ps[j] == Participant(us[j], HasViewer(viewer) && Friends(friendships.docs, viewer.value, us[j].id))
  {
    ps := [];
    for i := 0 to |us|
      invariant |ps| == i
      invariant forall j :: 0 <= j < i ==>
        ps[j] == Participant(us[j], HasViewer(viewer) && Friends(friendships.docs, viewer.value, us[j].id))
    {
      var isFriend := false;
      if viewer.Some? && viewer.value != "" {
        isFriend := friendships.CheckFriendship(viewer.value, us[i].id);
      }
      ps := ps + [ParticipantInfo(us[i].id, us[i].name, us[i].city, isFriend)];
    }
  }

  /** The participants built from the users a participant list names are
      exactly those users, once each, as the detail page shows them. */
  lemma ParticipantsShown(userDocs: map<Id, User>, friendDocs: map<Id, Friendship>, ids: seq<string>,
                          us: seq<User>, ps: seq<ParticipantInfo>, viewer: Option<string>)
    requires forall k :: k in userDocs ==> userDocs[k].id == k
    requires NoDup(us)
    requires forall u :: u in us <==> u.id in userDocs && userDocs[u.id] == u && Mentions(ids, u.id)
    requires |ps| == |us|
    requires forall j :: 0 <= j < |us| ==>
      ps[j] == Participant(us[j], HasViewer(viewer) && Friends(friendDocs, viewer.value, us[j].id))
    ensures forall i, j :: 0 <= i < j < |ps| ==> ps[i].id != ps[j].id
    ensures forall p :: p in ps <==> Mentions(ids, p.id) && ShowsParticipant(p, viewer, userDocs, friendDocs)
  {
    KeyedDistinct(userDocs, (u: User) => u.id, us);
    forall p | p in ps ensures Mentions(ids, p.id) && ShowsParticipant(p, viewer, userDocs, friendDocs) {
      var i :| 0 <= i < |ps| && ps[i] == p;
      assert us[i] in us;
    }
    forall p: ParticipantInfo | Mentions(ids, p.id) && ShowsParticipant(p, viewer, userDocs, friendDocs)
      ensures p in ps
    {
      var u := userDocs[p.id];
      assert u in us;
      var i :| 0 <= i < |us| && us[i] == u;
      assert ps[i] == p;
    }
  }

  /** The `events_map` of `get_user_events`: the fetched events keyed by id. */
  method IndexById(evs: seq<Event>) returns (m: map<string, Event>)
    ensures forall e :: e in evs ==> e.id in m
    ensures forall k :: k in m ==> m[k] in evs && m[k].id == k
  {
    m := map[];
    for i := 0 to |evs|
      invariant forall j :: 0 <= j < i ==> evs[j].id in m
      invariant forall k :: k in m ==> m[k] in evs && m[k].id == k
    {
      m := m[evs[i].id := evs[i]];
    }
  }

  /** The response loop of `get_user_events`: a registration whose event id is
      not in the map is skipped, every other one is answered with its event. */
  method RespondAll(regs: seq<Registration>, m: map<string, Event>) returns (out: seq<RegistrationResponse>)
    requires forall i, j :: 0 <= i < j < |regs| ==> regs[i].id != regs[j].id
    ensures forall i, j :: 0 <= i < j < |out| ==> out[i].id != out[j].id
    ensures forall x :: x in out <==>
      exists j :: 0 <= j < |regs| && regs[j].eventId in m && x == Respond(regs[j], m[regs[j].eventId])
  {
    out := [];
    for i := 0 to |regs|
      invariant forall a, b :: 0 <= a < b < |out| ==> out[a].id != out[b].id
      invariant forall a :: 0 <= a < |out| ==> exists j :: 0 <= j < i && out[a].id == regs[j].id
      invariant forall x :: x in out <==>
        exists j :: 0 <= j < i && regs[j].eventId in m && x == Respond(regs[j], m[regs[j].eventId])
    {
      var reg := regs[i];
      if reg.eventId in m {
        var event := m[reg.eventId];
        var canCancel := reg.status == AguardandoPagamento || reg.status == Aprovada;
        out := out + [RegistrationResponse(reg.id, reg.eventId, event.title, event.date,
                                           event.banner, reg.status, reg.registeredAt,
                                           reg.paidAt, canCancel)];
      }
    }
  }

  /** The service's price normalisation: a price of 0 becomes None (which the
      repository then treats as "not given"); every other update is unchanged. */
  function NormalisePrice(u: EventUpdate): (n: EventUpdate)
    ensures n.price.Some? ==> n.price.value != 0
    ensures u.price != Some(0) ==> n == u
    ensures n == u.(price := n.price)
  {
    if u.price == Some(0) then u.(price := None) else u
  }
}
