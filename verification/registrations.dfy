/** The `registrations` collection and its repository
    (repositories/registration_repository.py). */
module Registrations {
  import opened Wrappers
  import opened Ids
  import opened Store
  import opened Domain

  /** A registration that blocks a new one for the same user and event: the
      same `usuario_id` and `evento_id` strings, and an active status. */
  predicate ActiveFor(g: Registration, userId: string, eventId: string) {
    g.userId == userId && g.eventId == eventId && IsActive(g.status)
  }

  /** Whether the collection holds an active registration of `userId` for `eventId`. */
  predicate HasActive(docs: map<Id, Registration>, userId: string, eventId: string) {
    exists k :: k in docs && ActiveFor(docs[k], userId, eventId)
  }

  /** At most one active registration per (user, event) pair. */
  predicate UniqueActive(docs: map<Id, Registration>) {
    forall k1, k2 ::
      k1 in docs && k2 in docs && IsActive(docs[k1].status) &&
      ActiveFor(docs[k2], docs[k1].userId, docs[k1].eventId)
      ==> k1 == k2
  }

  /** Inserting a registration for a pair that holds no active one keeps the
      pairs unique. */
  lemma InsertKeepsUnique(docs: map<Id, Registration>, g: Registration)
    requires UniqueActive(docs) && g.id !in docs && !HasActive(docs, g.userId, g.eventId)
    ensures UniqueActive(docs[g.id := g])
  {
  }

  /** Stamping a payment time changes no status, so it keeps the pairs unique. */
  lemma PaymentKeepsUnique(docs: map<Id, Registration>, k: Id, t: Time)
    requires UniqueActive(docs) && k in docs
    ensures UniqueActive(docs[k := docs[k].(paidAt := Some(t))])
  {
    var d := docs[k := docs[k].(paidAt := Some(t))];
    forall k1, k2 | k1 in d && k2 in d && IsActive(d[k1].status) && ActiveFor(d[k2], d[k1].userId, d[k1].eventId)
      ensures k1 == k2
    {
      assert IsActive(docs[k1].status) && ActiveFor(docs[k2], docs[k1].userId, docs[k1].eventId);
    }
  }

  /** Cancelling a registration keeps the pairs unique. */
  lemma CancelKeepsUnique(docs: map<Id, Registration>, k: Id)
    requires UniqueActive(docs) && k in docs
    ensures UniqueActive(docs[k := docs[k].(status := Cancelada)])
  {
    var d := docs[k := docs[k].(status := Cancelada)];
    forall k1, k2 | k1 in d && k2 in d && IsActive(d[k1].status) && ActiveFor(d[k2], d[k1].userId, d[k1].eventId)
      ensures k1 == k2
    {
      assert IsActive(docs[k1].status) && ActiveFor(docs[k2], docs[k1].userId, docs[k1].eventId);
    }
  }

  /** The organizer's status update does not keep the pairs unique: giving a
      cancelled registration an active status again, while the user has since
      registered anew, leaves two active registrations for one pair. */
  lemma ReactivationBreaksUnique(a: Id, b: Id, userId: string, eventId: string, t: Time)
    requires a != b
    ensures var docs := map[a := Registration(a, userId, eventId, Cancelada, t, None),
                            b := Registration(b, userId, eventId, Aprovada, t, Some(t))];
            UniqueActive(docs) && !UniqueActive(docs[a := docs[a].(status := Aprovada)])
  {
    var docs := map[a := Registration(a, userId, eventId, Cancelada, t, None),
                    b := Registration(b, userId, eventId, Aprovada, t, Some(t))];
    var d := docs[a := docs[a].(status := Aprovada)];
    assert IsActive(d[a].status) && ActiveFor(d[b], d[a].userId, d[a].eventId);
  }

  /** An id written with upper-case hexadecimal letters. */
  function UpperSpelling(k: Id): (u: string)
    ensures |u| == |k|
    ensures forall i :: 0 <= i < |k| && 'a' <= k[i] <= 'f' ==> u[i] != k[i]
    ensures forall i :: 0 <= i < |k| ==> LowerHex(u[i]) == LowerHex(k[i])
    ensures IsObjectId(k) ==> IsObjectId(u)
  {
    seq(|k|, i requires 0 <= i < |k| => if 'a' <= k[i] <= 'f' then (k[i] as int - 32) as char else k[i])
  }

  /** At most one active registration per user and event document, whatever
      spelling of the event id each registration stores. */
  predicate UniquePerDocument(docs: map<Id, Registration>) {
    forall k1, k2 ::
      k1 in docs && k2 in docs && IsActive(docs[k1].status) && IsActive(docs[k2].status) &&
      docs[k1].userId == docs[k2].userId && ParseObjectId(docs[k1].eventId).Some? &&
      ParseObjectId(docs[k1].eventId) == ParseObjectId(docs[k2].eventId)
      ==> k1 == k2
  }

  /** The duplicate check compares `evento_id` strings, not documents. A user
      with an active registration under the lower-case id of an event has none
      under its upper-case spelling, which finds the same event; registering
      through it keeps the pairs of strings unique but gives the user two active
      registrations for one event document. */
  lemma SpellingEvadesDuplicateCheck(events: map<Id, Event>, a: Id, b: Id, userId: string, k: Id, t: Time)
    requires IsCanonical(k) && 'a' <= k[0] <= 'f' && a != b
    ensures var u := UpperSpelling(k);
      var before := map[a := Registration(a, userId, k, Aprovada, t, Some(t))];
      var after := before[b := Registration(b, userId, u, Aprovada, t, Some(t))];
      && u != k && Find(events, u) == Find(events, k)
      && HasActive(before, userId, k) && !HasActive(before, userId, u)
      && UniqueActive(after) && !UniquePerDocument(after)
  {
    var u := UpperSpelling(k);
    assert u[0] != k[0];
    SameDocument(u, k);
    assert ParseObjectId(u) == Some(k);
    var before := map[a := Registration(a, userId, k, Aprovada, t, Some(t))];
    var after := before[b := Registration(b, userId, u, Aprovada, t, Some(t))];
    assert ActiveFor(before[a], userId, k);
    assert ParseObjectId(after[a].eventId) == ParseObjectId(after[b].eventId);
  }

  class RegistrationRepository {
    var docs: map<Id, Registration>

    ghost predicate Valid()
      reads this
    {
      forall k :: k in docs ==> IsCanonical(k) && docs[k].id == k
    }

    constructor ()
      ensures Valid() && docs == map[]
    {
      docs := map[];
    }

    /** `create_registration`: a new document with the given user, event and
        status (awaiting payment unless told otherwise), stamped with the time
        of registration and with no payment time. */
    method CreateRegistration(userId: string, eventId: string, now: Time, newId: Id,
                              status: RegistrationStatus := AguardandoPagamento)
      returns (id: Id)
      requires Valid() && IsCanonical(newId) && newId !in docs
      modifies this
      ensures Valid()
      ensures id == newId
      ensures docs == old(docs)[newId := Registration(newId, userId, eventId, status, now, None)]
    {
      docs := docs[newId := Registration(newId, userId, eventId, status, now, None)];
      id := newId;
    }

    /** `get_registration_by_id`: None for a malformed or unknown id. */
    method GetRegistrationById(registrationId: string) returns (r: Option<Registration>)
      requires Valid()
      ensures r.Some? <==> IsObjectId(registrationId) && ParseObjectId(registrationId).value in docs
      ensures r.Some? ==> r.value.id == ParseObjectId(registrationId).value && r.value == docs[r.value.id]
      ensures r == Find(docs, registrationId)
    {
      r := Find(docs, registrationId);
    }

    /** `get_user_registrations`: every registration of the user, whatever its status. */
    method GetUserRegistrations(userId: string) returns (rs: seq<Registration>)
      requires Valid()
      ensures NoDup(rs)
      ensures forall g :: g in rs <==> g.id in docs && docs[g.id] == g && g.userId == userId
    {
      rs := Select(docs, (g: Registration) => g.id, (g: Registration) => g.userId == userId);
    }

    /** `get_registration_by_user_and_event`: some active registration of the
        user for the event, if there is one (the store picks which). */
    method GetRegistrationByUserAndEvent(userId: string, eventId: string) returns (r: Option<Registration>)
      requires Valid()
      ensures r.None? <==> !HasActive(docs, userId, eventId)
      ensures r.Some? ==> r.value.id in docs && docs[r.value.id] == r.value && ActiveFor(r.value, userId, eventId)
    {
      if k :| k in docs && ActiveFor(docs[k], userId, eventId) {
        r := Some(docs[k]);
      } else {
        r := None;
      }
    }

    /** `get_event_registrations`: the event's active registrations. */
    method GetEventRegistrations(eventId: string) returns (rs: seq<Registration>)
      requires Valid()
      ensures NoDup(rs)
      ensures forall g :: g in rs <==> g.id in docs && docs[g.id] == g && g.eventId == eventId && IsActive(g.status)
    {
      rs := Select(docs, (g: Registration) => g.id,
                   (g: Registration) => g.eventId == eventId && IsActive(g.status));
    }

    /** `cancel_registration`: status CANCELADA, nothing else; the result says
        whether the document changed. */
    method CancelRegistration(registrationId: string) returns (changed: bool)
      requires Valid()
      modifies this
      ensures Valid()
      ensures Find(old(docs), registrationId).None? ==> docs == old(docs) && !changed
      ensures Find(old(docs), registrationId).Some? ==>
        var g := Find(old(docs), registrationId).value;
        docs == old(docs)[g.id := g.(status := Cancelada)] && changed == (g.status != Cancelada)
    {
      changed := UpdateRegistrationStatus(registrationId, Cancelada);
    }

    /** `update_registration_status`: sets the status, nothing else. */
    method UpdateRegistrationStatus(registrationId: string, status: RegistrationStatus) returns (changed: bool)
      requires Valid()
      modifies this
      ensures Valid()
      ensures Find(old(docs), registrationId).None? ==> docs == old(docs) && !changed
      ensures Find(old(docs), registrationId).Some? ==>
        var g := Find(old(docs), registrationId).value;
        docs == old(docs)[g.id := g.(status := status)] && changed == (g.status != status)
    {
      match ParseObjectId(registrationId) {
        case None =>
          changed := false;
        case Some(k) =>
          if k in docs {
            changed := docs[k].status != status;
            docs := docs[k := docs[k].(status := status)];
          } else {
            changed := false;
          }
      }
    }

    /** `update_payment_timestamp`: sets the payment time to now, nothing else. */
    method UpdatePaymentTimestamp(registrationId: string, now: Time) returns (changed: bool)
      requires Valid()
      modifies this
      ensures Valid()
      ensures Find(old(docs), registrationId).None? ==> docs == old(docs) && !changed
      ensures Find(old(docs), registrationId).Some? ==>
        var g := Find(old(docs), registrationId).value;
        docs == old(docs)[g.id := g.(paidAt := Some(now))] && changed == (g.paidAt != Some(now))
    {
      match ParseObjectId(registrationId) {
        case None =>
          changed := false;
        case Some(k) =>
          if k in docs {
            changed := docs[k].paidAt != Some(now);
            docs := docs[k := docs[k].(paidAt := Some(now))];
          } else {
            changed := false;
          }
      }
    }
  }
}
