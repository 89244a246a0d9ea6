/** The documents of the four collections, their status enumerations and the
    errors the services raise. */
module Domain {
  import opened Wrappers
  import opened Ids

  /** Event status (`EventStatus` in the event schema). */
  datatype EventStatus = Open | Closed | Full

  /** Registration status (`RegistrationStatus`); the Portuguese names are the
      stored values: awaiting payment, approved, refused, cancelled, finished. */
  datatype RegistrationStatus = AguardandoPagamento | Aprovada | Recusada | Cancelada | Finalizada

  datatype FriendshipStatus = Pending | Accepted

  /** A document of the `users` collection. */
  datatype User = User(
    id: Id, name: string, email: string, passwordHash: string, city: string,
    createdAt: Time)

  /** A document of the `events` collection. `price` is absent (None), zero or
      positive in practice; `registeredUsers` is the participant array, holding
      user ids exactly as the callers passed them; `organizerId` likewise. */
  datatype Event = Event(
    id: Id, title: string, banner: string, date: string, time: string,
    price: Option<int>, capacity: int, category: string, description: string,
    location: string, rules: seq<string>, organizerId: string,
    organizerName: string, status: EventStatus, registeredUsers: seq<string>,
    createdAt: Time)

  /** A document of the `registrations` collection (`usuario_id`, `evento_id`,
      `timestamp_inscricao`, `timestamp_pagamento`). */
  datatype Registration = Registration(
    id: Id, userId: string, eventId: string, status: RegistrationStatus,
    registeredAt: Time, paidAt: Option<Time>)

  /** A document of the `friendships` collection: a request from
      `requesterId` (`solicitante_id`) to `recipientId` (`destinatario_id`). */
  datatype Friendship = Friendship(
    id: Id, requesterId: string, recipientId: string, status: FriendshipStatus,
    createdAt: Time)

  /** The exceptions of the API, one per HTTP error the services raise.
      `PriceNotComparable` is the `TypeError` Python raises when it compares a
      stored `None` price with 0. */
  datatype Error =
    | Unauthorized | UserNotFound | EventNotFound | EventFull
    | AlreadyRegistered | RegistrationNotFound | Forbidden | CannotCancel
    | NotEventOrganizer | PriceNotComparable

  /** An active registration is neither cancelled nor refused; only active ones
      block a new registration and appear in an event's registration list. */
  predicate IsActive(s: RegistrationStatus): (active: bool)
    ensures active <==> Cancellable(s) || s == Finalizada
  {
    s != Cancelada && s != Recusada
  }

  /** The statuses from which the owner may cancel: none of the refused,
      cancelled or finished ones. */
  predicate Cancellable(s: RegistrationStatus): (c: bool)
    ensures c <==> s !in {Recusada, Cancelada, Finalizada}
  {
    s == AguardandoPagamento || s == Aprovada
  }

  /** Seats left, computed live from the participant array and never clamped:
      it is negative when the capacity was lowered below the participant count. */
  function RemainingSeats(e: Event): (n: int)
    ensures n <= e.capacity
    ensures n > 0 <==> |e.registeredUsers| < e.capacity
    ensures n == 0 ==> |e.registeredUsers| == e.capacity
  {
    e.capacity - |e.registeredUsers|
  }

  /** A free event: no price, or a price of zero. */
  predicate IsFree(price: Option<int>) {
    price.None? || price.value == 0
  }

  /** The status a new registration starts in: free events are approved at
      once, every other price (even a negative one) awaits payment. */
  function InitialStatus(price: Option<int>): (s: RegistrationStatus)
    ensures s == Aprovada <==> IsFree(price)
    ensures s == AguardandoPagamento <==> !IsFree(price)
  {
    if price.None? || price.value == 0 then Aprovada else AguardandoPagamento
  }

  /** Whatever a registration starts in can be cancelled by its owner. */
  lemma InitialStatusCancellable(price: Option<int>)
    ensures Cancellable(InitialStatus(price)) && IsActive(InitialStatus(price))
  {
  }
}
