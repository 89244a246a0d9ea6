/** The `events` collection and its repository (repositories/event_repository.py). */
module Events {
  import opened Wrappers
  import opened Ids
  import opened Store
  import opened Domain

  /** What `EventService.create_event` hands to the repository: the request
      body (with its `capacity > 0` already checked) plus the organizer's id. */
  datatype EventData = EventData(
    title: string, banner: string, date: string, time: string,
    price: Option<int>, capacity: int, category: string, description: string,
    location: string, rules: seq<string>, organizerId: string,
    organizerName: string)

  /** A partial update of the editable fields. `None` stands both for a field
      the request left out and for one whose value is `None`. */
  datatype EventUpdate = EventUpdate(
    title: Option<string>, banner: Option<string>, date: Option<string>,
    time: Option<string>, price: Option<int>, capacity: Option<int>,
    category: Option<string>, description: Option<string>,
    location: Option<string>, rules: Option<seq<string>>)

  /** The document `create_event` inserts: no participants, status OPEN. */
  function NewEvent(id: Id, data: EventData, now: Time): (e: Event)
    ensures e.id == id && e.registeredUsers == [] && e.status == Open && e.createdAt == now
    ensures e.organizerId == data.organizerId && e.capacity == data.capacity && e.price == data.price
    ensures RemainingSeats(e) == data.capacity
  {
    Event(id, data.title, data.banner, data.date, data.time, data.price,
          data.capacity, data.category, data.description, data.location,
          data.rules, data.organizerId, data.organizerName, Open, [], now)
  }

  /** An update in which every field is None-valued: nothing to `$set`. */
  predicate IsEmptyUpdate(u: EventUpdate) {
    u.title.None? && u.banner.None? && u.date.None? && u.time.None? &&
    u.price.None? && u.capacity.None? && u.category.None? &&
    u.description.None? && u.location.None? && u.rules.None?
  }

  function Pick<T>(o: Option<T>, old_: T): T {
    if o.Some? then o.value else old_
  }

  /** The `$set` of the fields an update names; every other field, the status
      and the participants among them, is left as it was. */
  function Apply(e: Event, u: EventUpdate): (e': Event)
    ensures e'.id == e.id && e'.organizerId == e.organizerId && e'.organizerName == e.organizerName
    ensures e'.status == e.status && e'.registeredUsers == e.registeredUsers && e'.createdAt == e.createdAt
    ensures u.price.None? ==> e'.price == e.price
    ensures u.price.Some? ==> e'.price == u.price
    ensures e'.capacity == Pick(u.capacity, e.capacity)
    ensures IsEmptyUpdate(u) ==> e' == e
  {
    e.(title := Pick(u.title, e.title), banner := Pick(u.banner, e.banner),
       date := Pick(u.date, e.date), time := Pick(u.time, e.time),
       price := if u.price.Some? then u.price else e.price,
       capacity := Pick(u.capacity, e.capacity),
       category := Pick(u.category, e.category),
       description := Pick(u.description, e.description),
       location := Pick(u.location, e.location), rules := Pick(u.rules, e.rules))
  }

  /** Applying the same update twice changes nothing the first did not. */
  lemma ApplyIdempotent(e: Event, u: EventUpdate)
    ensures Apply(Apply(e, u), u) == Apply(e, u)
  {
  }

  /** `$pull`: every occurrence of `x` removed, the rest kept in order. */
  function Without(s: seq<string>, x: string): (r: seq<string>)
    ensures x !in r
    ensures forall y :: y != x ==> (y in r <==> y in s)
    ensures |r| <= |s| && (x in s <==> |r| < |s|)
    ensures NoDup(s) ==> NoDup(r)
    ensures NoDup(s) && x in s ==> |r| == |s| - 1
    ensures x !in s ==> r == s
  {
    if s == [] then []
    else
      var rest := Without(s[1..], x);
      if s[0] == x then
        rest
      else
        assert NoDup(s) ==> NoDup(s[1..]) by {
          if NoDup(s) {
            forall i, j | 0 <= i < j < |s[1..]| ensures s[1..][i] != s[1..][j] {
              assert s[i + 1] != s[j + 1];
            }
            forall j | 0 <= j < |s[1..]| ensures s[1..][j] != s[0] {
              assert s[j + 1] != s[0];
            }
          }
        }
        assert NoDup(s) ==> NoDup([s[0]] + rest) by {
          if NoDup(s) { NoDupCons(s[0], rest); }
        }
        assert s == [s[0]] + s[1..];
        [s[0]] + rest
  }

  /** `add_participant` on an existing event: `$addToSet` of the user, then the
      re-read of the document marks it FULL when no seat is left. */
  function Joined(e: Event, userId: string): (e': Event)
    ensures userId in e'.registeredUsers
    ensures forall x :: x in e'.registeredUsers <==> x in e.registeredUsers || x == userId
    ensures |e.registeredUsers| <= |e'.registeredUsers| && e'.registeredUsers[..|e.registeredUsers|] == e.registeredUsers
    ensures userId in e.registeredUsers ==> e'.registeredUsers == e.registeredUsers
    ensures NoDup(e.registeredUsers) ==> NoDup(e'.registeredUsers)
    ensures RemainingSeats(e') <= 0 ==> e'.status == Full
    ensures RemainingSeats(e') > 0 ==> e'.status == e.status
    ensures e'.status == Open ==> e.status == Open
    ensures e' == e.(registeredUsers := e'.registeredUsers, status := e'.status)
  {
    var users := if userId in e.registeredUsers then e.registeredUsers else e.registeredUsers + [userId];
    var e1 := e.(registeredUsers := users);
    if RemainingSeats(e1) <= 0 then e1.(status := Full) else e1
  }

  /** `remove_participant` on an existing event: `$pull` of the user, then a
      FULL event is reopened, whatever the count; OPEN and CLOSED stay. */
  function Left(e: Event, userId: string): (e': Event)
    ensures userId !in e'.registeredUsers
    ensures forall x :: x != userId ==> (x in e'.registeredUsers <==> x in e.registeredUsers)
    ensures NoDup(e.registeredUsers) ==> NoDup(e'.registeredUsers)
    ensures NoDup(e.registeredUsers) && userId in e.registeredUsers ==> RemainingSeats(e') == RemainingSeats(e) + 1
    ensures e.status == Full ==> e'.status == Open
    ensures e.status != Full ==> e'.status == e.status
    ensures e' == e.(registeredUsers := e'.registeredUsers, status := e'.status)
  {
    e.(registeredUsers := Without(e.registeredUsers, userId),
       status := if e.status == Full then Open else e.status)
  }

  /** Removing an element appended to a list that did not hold it gives the
      list back. */
  lemma {:induction false} WithoutAppended(s: seq<string>, x: string)
    requires x !in s
    ensures Without(s + [x], x) == s
  {
    if s == [] {
      assert [] + [x] == [x];
      assert Without([x][1..], x) == [];
    } else {
      assert (s + [x])[1..] == s[1..] + [x];
      WithoutAppended(s[1..], x);
      assert s == [s[0]] + s[1..];
    }
  }

  /** Joining and then leaving gives back the participant list: a user who was
      not registered leaves no trace after registering and cancelling. */
  lemma JoinThenLeave(e: Event, userId: string)
    requires userId !in e.registeredUsers
    ensures Left(Joined(e, userId), userId).registeredUsers == e.registeredUsers
  {
    WithoutAppended(e.registeredUsers, userId);
  }

  /** The last-seat scenario: on an open capacity-1 event, one registration
      fills it, and that participant's cancellation reopens it empty. */
  lemma LastSeat(e: Event, userId: string)
    requires e.capacity == 1 && e.registeredUsers == [] && e.status == Open
    ensures Joined(e, userId).status == Full
    ensures Left(Joined(e, userId), userId).status == Open
    ensures Left(Joined(e, userId), userId).registeredUsers == []
  {
    JoinThenLeave(e, userId);
  }

  class EventRepository {
    var docs: map<Id, Event>

    /** Every key is a canonical id and is the id of its document; capacities
        are positive (the schemas reject anything else) and no user appears
        twice in a participant array (`$addToSet` never duplicates). */
    ghost predicate Valid()
      reads this
    {
      forall k :: k in docs ==>
        IsCanonical(k) && docs[k].id == k && docs[k].capacity > 0 &&
        NoDup(docs[k].registeredUsers)
    }

    constructor ()
      ensures Valid() && docs == map[]
    {
      docs := map[];
    }

    /** `create_event`: stamp the creation time, start with no participants and
        status OPEN, and return the new document's id. */
    method CreateEvent(data: EventData, now: Time, newId: Id) returns (id: Id)
      requires Valid() && IsCanonical(newId) && newId !in docs && data.capacity > 0
      modifies this
      ensures Valid()
      ensures id == newId && docs == old(docs)[newId := NewEvent(newId, data, now)]
    {
      docs := docs[newId := NewEvent(newId, data, now)];
      id := newId;
    }

    /** `get_event_by_id`: the document, or None when the id is malformed or unknown. */
    method GetEventById(eventId: string) returns (r: Option<Event>)
      requires Valid()
      ensures r.Some? <==> IsObjectId(eventId) && ParseObjectId(eventId).value in docs
      ensures r.Some? ==> r.value.id == ParseObjectId(eventId).value && r.value == docs[r.value.id]
      ensures r == Find(docs, eventId)
    {
      r := Find(docs, eventId);
    }

    /** `get_all_events`: every event, each once. */
    method GetAllEvents() returns (events: seq<Event>)
      requires Valid()
      ensures NoDup(events)
      ensures forall e :: e in events <==> e.id in docs && docs[e.id] == e
    {
      events := Select(docs, (e: Event) => e.id, (e: Event) => true);
    }

    /** `get_events_by_organizer`: the events whose organizer is exactly `organizerId`. */
    method GetEventsByOrganizer(organizerId: string) returns (events: seq<Event>)
      requires Valid()
      ensures NoDup(events)
      ensures forall e :: e in events <==> e.id in docs && docs[e.id] == e && e.organizerId == organizerId
    {
      events := Select(docs, (e: Event) => e.id, (e: Event) => e.organizerId == organizerId);
    }

    /** `get_events_by_ids`: malformed ids are skipped and unknown ones find
        nothing; the result holds each named event once, in store order. */
    method GetEventsByIds(eventIds: seq<string>) returns (events: seq<Event>)
      requires Valid()
      ensures NoDup(events)
      ensures forall e :: e in events <==> e.id in docs && docs[e.id] == e && Mentions(eventIds, e.id)
    {
      var objectIds := ParseAll(eventIds);
      events := Select(docs, (e: Event) => e.id, (e: Event) => e.id in objectIds);
    }

    /** `update_event_status`: a single-field `$set`; the result says whether
        the stored document changed. */
    method UpdateEventStatus(eventId: string, status: EventStatus) returns (changed: bool)
      requires Valid()
      modifies this
      ensures Valid()
      ensures Find(old(docs), eventId).None? ==> docs == old(docs) && !changed
      ensures Find(old(docs), eventId).Some? ==>
        var e := Find(old(docs), eventId).value;
        docs == old(docs)[e.id := e.(status := status)] && changed == (e.status != status)
    {
      match ParseObjectId(eventId) {
        case None =>
          changed := false;
        case Some(k) =>
          if k in docs {
            changed := docs[k].status != status;
            docs := docs[k := docs[k].(status := status)];
          } else {
            changed := false;
          }
      }
    }

    /** `add_participant`: `$addToSet`, re-read, mark FULL when no seat is left.
        Returns whether the user was newly added. */
    method AddParticipant(eventId: string, userId: string) returns (added: bool)
      requires Valid()
      modifies this
      ensures Valid()
      ensures Find(old(docs), eventId).None? ==> docs == old(docs) && !added
      ensures Find(old(docs), eventId).Some? ==>
        var e := Find(old(docs), eventId).value;
        docs == old(docs)[e.id := Joined(e, userId)] && added == (userId !in e.registeredUsers)
    {
      match ParseObjectId(eventId) {
        case None =>
          added := false;
        case Some(k) =>
          if k !in docs {
            added := false;
            return;
          }
          var e := docs[k];
          added := userId !in e.registeredUsers;
          var users := if added then e.registeredUsers + [userId] else e.registeredUsers;
          assert users == Joined(e, userId).registeredUsers;
          ghost var before := docs;
          var e1 := e.(registeredUsers := users);
          assert Find(before, eventId) == Some(e) && e.id == k;
          docs := docs[k := e1];
          var reread := GetEventById(eventId);
          if reread.Some? && RemainingSeats(reread.value) <= 0 {
            assert Find(docs, eventId) == Some(e1);
            var _ := UpdateEventStatus(eventId, Full);
            OverwriteTwice(before, k, e1, e1.(status := Full));
          } else {
            assert e1 == Joined(e, userId);
          }
      }
    }

    /** `remove_participant`: `$pull`, re-read, reopen a FULL event. Returns
        whether the user was in the participant array. */
    method RemoveParticipant(eventId: string, userId: string) returns (removed: bool)
      requires Valid()
      modifies this
      ensures Valid()
      ensures Find(old(docs), eventId).None? ==> docs == old(docs) && !removed
      ensures Find(old(docs), eventId).Some? ==>
        var e := Find(old(docs), eventId).value;
        docs == old(docs)[e.id := Left(e, userId)] && removed == (userId in e.registeredUsers)
    {
      match ParseObjectId(eventId) {
        case None =>
          removed := false;
        case Some(k) =>
          if k !in docs {
            removed := false;
            return;
          }
          var e := docs[k];
          removed := userId in e.registeredUsers;
          ghost var before := docs;
          var e1 := e.(registeredUsers := Without(e.registeredUsers, userId));
          assert Find(before, eventId) == Some(e) && e.id == k;
          docs := docs[k := e1];
          var reread := GetEventById(eventId);
          if reread.Some? && reread.value.status == Full {
            assert Find(docs, eventId) == Some(e1);
            var _ := UpdateEventStatus(eventId, Open);
            OverwriteTwice(before, k, e1, e1.(status := Open));
          } else {
            assert e1 == Left(e, userId);
          }
      }
    }

    /** `get_remaining_seats`: capacity minus participants, or 0 for a missing
        or malformed id. */
    method GetRemainingSeats(eventId: string) returns (n: int)
      requires Valid()
      ensures Find(docs, eventId).None? ==> n == 0
      ensures Find(docs, eventId).Some? ==>
        n == Find(docs, eventId).value.capacity - |Find(docs, eventId).value.registeredUsers|
    {
      var event := GetEventById(eventId);
      if event.Some? {
        n := event.value.capacity - |event.value.registeredUsers|;
      } else {
        n := 0;
      }
    }

    /** `update_event`: drop the None-valued fields; with nothing left return
        false without touching the store (even for a malformed id); otherwise
        `$set` exactly the named fields and report whether the document changed. */
    method UpdateEvent(eventId: string, u: EventUpdate) returns (changed: bool)
      requires Valid()
      requires u.capacity.Some? ==> u.capacity.value > 0
      modifies this
      ensures Valid()
      ensures IsEmptyUpdate(u) ==> docs == old(docs) && !changed
      ensures Find(old(docs), eventId).None? ==> docs == old(docs) && !changed
      ensures !IsEmptyUpdate(u) && Find(old(docs), eventId).Some? ==>
        var e := Find(old(docs), eventId).value;
        docs == old(docs)[e.id := Apply(e, u)] && changed == (Apply(e, u) != e)
    {
      if IsEmptyUpdate(u) {
        changed := false;
        return;
      }
      match ParseObjectId(eventId) {
        case None =>
          changed := false;
        case Some(k) =>
          if k in docs {
            var e := docs[k];
            changed := Apply(e, u) != e;
            docs := docs[k := Apply(e, u)];
          } else {
            changed := false;
          }
      }
    }
  }
}
