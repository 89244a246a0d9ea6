# EventSync registration and capacity engine, in Dafny

This project models the back end of EventSync, an event platform. Organizers
publish events with a capacity and an optional price. Users register for
events, cancel their registrations and befriend each other. The model covers
these parts of the system:

- **The four MongoDB collections**: `users`, `events`, `registrations` and
  `friendships`. Each repository is a class holding a map from document id to
  record, and each repository method reads or reassigns that map.
- **The services on top of them**:
  - the event service: listings with live remaining-seat counts, the detail
    page, "my events", registration, and the organizer's edits;
  - the registration service: cancelling, status changes by the organizer,
    and the organizer's views;
  - the user service: friend requests and profiles.
- **Two pure routines**:
  - extracting the bearer token from an `Authorization` header;
  - the CORS origin list read from the settings.

The source is Python, and some of its effects are modelled as follows:

- **Ids.** A document id must be a valid BSON ObjectId: 24 hexadecimal
  digits. `Ids.ParseObjectId` accepts digits of either case and returns the
  lower-case form. Store keys are always lower-case. Fields that hold
  another document's id keep exactly the string the caller passed, as the
  Python code does.
- **Generated ids and clock readings.** New ids from `insert_one` and
  readings of `datetime.utcnow()` are parameters of the operations.
- **Errors.** A raised exception is an `Err` of `Domain.Error`. Every error
  path is stated, and so is the order in which the checks happen.
- **Query results.** `find` results come back in an unspecified order. They
  are specified by membership and by having no duplicates.
- **Capacity.** The model does not claim that FULL holds exactly when no
  seat is left, because the code does not keep that invariant. Instead, each
  operation's effect on the participant list and the status is stated
  through `Events.Joined` and `Events.Left`.
- **Active registrations.** "At most one active registration per user and
  `evento_id` string" (`Registrations.UniqueActive`) is preserved by
  registering and by cancelling. It is not a per-event guarantee: the
  duplicate check compares the id string the caller passed, while the event
  lookup accepts the id in either letter case.
  `Registrations.SpellingEvadesDuplicateCheck` shows a user holding two
  active registrations for one event document, one per spelling
  (`Registrations.UniquePerDocument` fails).
  `Registrations.ReactivationBreaksUnique` shows that the organizer's status
  update does not preserve even the per-string property.

## Model

| member | source | states |
|---|---|---|
| Ids.ParseObjectId | repositories/event_repository.py:40-52 | an id is accepted exactly when it has 24 hexadecimal digits, and it then names the document under its lower-case form; canonical ids map to themselves |
| Ids.SameDocument | repositories/event_repository.py:40-52 | two id strings reach the same document iff they agree character by character up to letter case of the hex digits |
| Store.Find | repositories/registration_repository.py:31-43 | `find_one({"_id": ObjectId(id)})` with its exception path: a document exactly when the id is well formed and stored, never an error |
| Store.ParseAll | repositories/event_repository.py:58-64 | the loop that builds `object_ids`: malformed ids are skipped, and the keys are exactly the well-formed ids given |
| Store.Select | repositories/event_repository.py:27-38 | a `find(filter)` cursor loop: no duplicates, and a record is returned iff it is stored and passes the filter |
| Store.KeyedDistinct | repositories/event_repository.py:27-38 | distinct stored records returned by a query have distinct ids |
| Domain.IsActive | repositories/registration_repository.py:65 | the `$nin` filter: a registration is active iff its owner could cancel it or it is finished |
| Domain.Cancellable | services/registration_service.py:41 | the owner may cancel iff the status is neither refused, cancelled nor finished |
| Domain.RemainingSeats | services/event_service.py:201 | capacity minus participants, unclamped: positive iff fewer participants than seats, and never above the capacity |
| Domain.InitialStatus | services/event_service.py:214-218 | a registration starts APROVADA iff the price is absent or 0, and AGUARDANDO_PAGAMENTO otherwise |
| Events.NewEvent | repositories/event_repository.py:13-25 | a created event has no participants, status OPEN, the creation time, and as many remaining seats as its capacity |
| Events.Apply | repositories/event_repository.py:162-180 | an update changes only the fields it gives; id, organizer, status, participants and creation time are kept; an empty update changes nothing |
| Events.Without | repositories/event_repository.py:116-119 | `$pull`: the user is gone, every other member is kept, a duplicate-free list loses exactly one entry when the user was present, and nothing changes otherwise |
| Events.Joined | repositories/event_repository.py:87-109 | `$addToSet` then FULL: the user is present once, the old list is a prefix, re-adding keeps the participant list, status is FULL when no seat is left and unchanged otherwise, never newly OPEN |
| Events.Left | repositories/event_repository.py:111-131 | `$pull` then reopen: the user is removed, others kept, one seat freed when the user was a participant (and none otherwise), FULL becomes OPEN, OPEN and CLOSED stay |
| Events.WithoutAppended | repositories/event_repository.py:92-119 | pulling a user just appended gives back the list as it was |
| Events.JoinThenLeave | repositories/event_repository.py:87-131 | a user who joins and then leaves restores the participant list |
| Events.LastSeat | repositories/event_repository.py:98-124 | on a one-seat event, joining makes it FULL, and leaving again reopens it empty |
| Events.EventRepository.CreateEvent | repositories/event_repository.py:13-25 | the store gains exactly the new OPEN, empty event under the new id |
| Events.EventRepository.GetEventById | repositories/event_repository.py:40-52 | None for a malformed or unknown id, the stored event otherwise |
| Events.EventRepository.GetAllEvents | repositories/event_repository.py:27-38 | every stored event once |
| Events.EventRepository.GetEventsByOrganizer | repositories/event_repository.py:74-85 | exactly the events whose organizer id is the string given |
| Events.EventRepository.GetEventsByIds | repositories/event_repository.py:54-72 | malformed ids skipped; exactly the stored events named by a well-formed id of the input |
| Events.EventRepository.UpdateEventStatus | repositories/event_repository.py:133-147 | sets only the status; no write for a bad id; result says whether the document changed |
| Events.EventRepository.AddParticipant | repositories/event_repository.py:87-109 | the event becomes `Joined(e, user)`; the result is true iff the user was not yet a participant; nothing changes for a bad id |
| Events.EventRepository.RemoveParticipant | repositories/event_repository.py:111-131 | the event becomes `Left(e, user)`; the result is true iff the user was a participant; nothing changes for a bad id |
| Events.EventRepository.GetRemainingSeats | repositories/event_repository.py:149-160 | capacity minus participants, unclamped, for a stored event; 0 for a missing one |
| Events.EventRepository.UpdateEvent | repositories/event_repository.py:162-183 | an update with no field set returns false with no write; otherwise the event becomes `Apply(e, u)` and the result says whether it changed |
| Registrations.InsertKeepsUnique | services/event_service.py:206-221 | inserting a registration for a (user, `evento_id` string) pair that has no active one keeps one active registration per such pair |
| Registrations.PaymentKeepsUnique | services/event_service.py:227-228 | stamping the payment time keeps one active registration per pair |
| Registrations.CancelKeepsUnique | services/registration_service.py:46 | cancelling keeps one active registration per pair |
| Registrations.SpellingEvadesDuplicateCheck | services/event_service.py:207-221 | an upper-case spelling of an event id finds the same event but not the user's active registration under the lower-case id, so a second active registration for that event keeps the string pairs unique yet not the per-document ones |
| Registrations.ReactivationBreaksUnique | services/registration_service.py:76-77 | the organizer reactivating a cancelled registration can leave two active registrations for one pair |
| Registrations.RegistrationRepository.CreateRegistration | repositories/registration_repository.py:13-29 | the store gains exactly the given user, event and status, timed now, with no payment time |
| Registrations.RegistrationRepository.GetRegistrationById | repositories/registration_repository.py:31-43 | None for a malformed or unknown id, the stored registration otherwise |
| Registrations.RegistrationRepository.GetUserRegistrations | repositories/registration_repository.py:45-56 | all of the user's registrations, in every status |
| Registrations.RegistrationRepository.GetRegistrationByUserAndEvent | repositories/registration_repository.py:58-71 | a record exactly when an active registration of that user for that event id exists, and then one of them |
| Registrations.RegistrationRepository.GetEventRegistrations | repositories/registration_repository.py:125-139 | exactly the event's registrations whose status is neither CANCELADA nor RECUSADA |
| Registrations.RegistrationRepository.CancelRegistration | repositories/registration_repository.py:73-91 | the status becomes CANCELADA and nothing else changes |
| Registrations.RegistrationRepository.UpdateRegistrationStatus | repositories/registration_repository.py:93-107 | only the status changes; no write for a bad id |
| Registrations.RegistrationRepository.UpdatePaymentTimestamp | repositories/registration_repository.py:109-123 | only the payment time changes, to now; no write for a bad id |
| Users.UserRepository.CreateUser | repositories/user_repository.py:13-23 | the store gains exactly the given user, timed now, under the new id |
| Users.UserRepository.GetUserByEmail | repositories/user_repository.py:25-34 | a user exactly when one has that exact email, and then one with that email |
| Users.UserRepository.GetUserById | repositories/user_repository.py:36-48 | None for a malformed or unknown id, the stored user otherwise |
| Users.UserRepository.GetUsersByIds | repositories/user_repository.py:50-68 | malformed ids skipped; exactly the stored users named by a well-formed id of the input |
| Friendships.Symmetric | repositories/friendship_repository.py:29-44 | friendship, and the existence of any record, do not depend on the order of the two users |
| Friendships.Other | repositories/friendship_repository.py:104-109 | the other endpoint of a record involving the user is the one it connects the user to |
| Friendships.OtherUnique | repositories/friendship_repository.py:104-109 | that endpoint is unique |
| Store.IdsOfCount | repositories/friendship_repository.py:104-111 | documents with distinct ids have as many ids as documents |
| Friendships.AcceptedIds | repositories/friendship_repository.py:97-102 | the `find` of accepted records involving the user lists exactly their keys |
| Friendships.InsertKeepsPairUnique | services/user_service.py:33-43 | a new record for an unrelated pair keeps one record per pair |
| Friendships.FriendshipRepository.CreateFriendshipRequest | repositories/friendship_repository.py:12-27 | the store gains exactly a pending record from the requester to the recipient |
| Friendships.FriendshipRepository.GetFriendshipByUsers | repositories/friendship_repository.py:29-44 | a record exactly when one connects the two users in either direction, whatever its status |
| Friendships.FriendshipRepository.AcceptFriendshipRequest | repositories/friendship_repository.py:46-60 | only the status changes, to accepted; no write for a bad id |
| Friendships.FriendshipRepository.CheckFriendship | repositories/friendship_repository.py:62-75 | true iff an accepted record connects the users in either direction, so the answer is symmetric |
| Friendships.FriendshipRepository.GetPendingRequestsReceived | repositories/friendship_repository.py:77-92 | exactly the pending records whose recipient is the user |
| Friendships.FriendshipRepository.GetAllFriends | repositories/friendship_repository.py:94-114 | someone is listed iff an accepted record connects them to the user; one entry per accepted record involving the user; no repeats when each pair has one record |
| EventServices.Summarize | services/event_service.py:37-53 | a listing entry carries the event's id and capacity minus participants, unclamped |
| EventServices.Respond | services/event_service.py:166-180 | canCancel holds iff the status is AGUARDANDO_PAGAMENTO or APROVADA, the same test cancelling applies |
| EventServices.Summaries | services/event_service.py:36-54 | one entry per event, in order |
| EventServices.ListingSummaries | services/event_service.py:30-86 | a listing holds one entry per selected event, each with its live remaining seats |
| EventServices.IndexById | services/event_service.py:158-159 | the map keys the fetched events by their ids |
| EventServices.RespondAll | services/event_service.py:161-181 | registrations whose event id is not in the map are skipped, the rest answered with their event |
| EventServices.Enroll | services/event_service.py:220-228 | the three writes in order: the registration, the participant, and the payment time exactly when approved |
| EventServices.NormalisePrice | services/event_service.py:269-271 | a price of 0 becomes absent, every other update is kept |
| EventServices.Participants | services/event_service.py:104-115 | one entry per fetched user, in order, flagged as a friend iff there is a viewer and an accepted friendship joins them |
| EventServices.ParticipantsShown | services/event_service.py:101-115 | the entries are exactly the existing users the participant list names, once each, with the viewer's friendship flag |
| EventServices.EventService.GetAllEvents | services/event_service.py:30-57 | one entry per stored event, with distinct ids and live remaining seats |
| EventServices.EventService.GetOrganizedEvents | services/event_service.py:59-86 | the same for the organizer's events only |
| EventServices.EventService.GetEventDetail | services/event_service.py:88-142 | EventNotFound, or every field of the stored event copied, with live remaining seats and exactly its existing participants, each flagged as the viewer's friend, none when there is no viewer |
| EventServices.EventService.GetUserEvents | services/event_service.py:144-184 | every registration of the user whose event exists, in any status, with canCancel as cancelling decides |
| EventServices.EventService.RegisterForEvent | services/event_service.py:186-235 | EventNotFound, EventFull (FULL, or no seat whatever the status), AlreadyRegistered, in that order, with no writes; on success one new registration timed at the first clock reading, the user a participant, payment time (a second clock reading) iff approved, and one active registration per (user, `evento_id` string) pair preserved |
| EventServices.EventService.CreateEvent | services/event_service.py:237-252 | the caller becomes the organizer of a new OPEN event with every seat free |
| EventServices.EventService.UpdateEvent | services/event_service.py:254-282 | EventNotFound, NotEventOrganizer, with no writes; for the organizer of a stored event always Ok, the given fields change, a price of 0 leaves the stored price alone, and the status is not recomputed |
| EventServices.EventService.UpdateEventStatus | services/event_service.py:284-304 | EventNotFound, NotEventOrganizer, with no writes; for the organizer of a stored event always Ok(()), with the status stored as given |
| RegistrationServices.WithUser | services/registration_service.py:110-120 | a row carries the registration's fields and the user's |
| RegistrationServices.AttachUsers | services/registration_service.py:106-121 | a row for each registration whose user exists, none for the others, with distinct ids |
| RegistrationServices.RowsOfListing | services/registration_service.py:103-121 | rows built from a listing of active registrations are exactly the rows of those registrations whose user exists |
| RegistrationServices.AppendRows | services/registration_service.py:134-152 | rows of different events never repeat a registration |
| RegistrationServices.OrganizerRows | services/registration_service.py:126-155 | a registration is listed under the organizer's events iff the event it names is stored and organized by them |
| RegistrationServices.RegistrationService.CancelRegistration | services/registration_service.py:25-53 | RegistrationNotFound, Forbidden (not the owner), CannotCancel, in that order, with no writes; otherwise CANCELADA and the owner no longer a participant |
| RegistrationServices.RegistrationService.UpdateRegistrationStatus | services/registration_service.py:55-85 | RegistrationNotFound, EventNotFound, Forbidden (not the organizer), with no writes; for the organizer exactly Ok(()), or PriceNotComparable when approving on an event without a price, with any status stored from any status, payment time stamped iff APROVADA on a priced event, and an error after the write when the event has no price |
| RegistrationServices.RegistrationService.GetEventRegistrations | services/registration_service.py:87-124 | EventNotFound, then Forbidden; otherwise exactly the event's active registrations whose user exists |
| RegistrationServices.RegistrationService.GetOrganizerRegistrations | services/registration_service.py:126-155 | exactly the active registrations, with an existing user, of events the organizer owns, each once |
| UserServices.UserService.SendFriendRequest | services/user_service.py:22-51 | UserNotFound for a missing recipient; an existing record in either direction gives "already friends" or "already sent" and no write; otherwise exactly one pending record, keeping one record per pair |
| UserServices.UserService.GetUserInfo | services/user_service.py:53-70 | UserNotFound, or only id, name, email and city |
| PyStrings.Strip | config/settings.py:26 | `str.strip()`: no whitespace is left at either end |
| PyStrings.StripSlice | config/settings.py:26 | `strip` keeps a slice of the input and removes only whitespace in front of it |
| PyStrings.StripTrailing | config/settings.py:26 | what `strip` removes behind the kept slice is whitespace too |
| PyStrings.StripIdempotent | config/settings.py:26 | stripping twice equals stripping once |
| PyStrings.Split | middlewares/auth_middleware.py:18 | `str.split()`: the words are non-empty and free of whitespace |
| PyStrings.SplitKeepsText | middlewares/auth_middleware.py:18 | the words run together are the input with its whitespace removed: no other character is lost or reordered |
| PyStrings.SplitSpaced | middlewares/auth_middleware.py:18 | splitting undoes joining non-empty words with spaces |
| PyStrings.SplitOn | config/settings.py:26 | `str.split(",")`: at least one piece, none containing the separator |
| PyStrings.SplitOnCount | config/settings.py:26 | `str.split(sep)` gives one piece more than there are separators |
| PyStrings.JoinSplitOn | config/settings.py:26 | joining the pieces with the separator gives back the input |
| PyStrings.SplitJoinOn | config/settings.py:26 | splitting undoes joining separator-free pieces |
| AuthMiddleware.IsBearer | middlewares/auth_middleware.py:19 | `scheme.lower() == "bearer"`: a matching scheme is a non-empty word, and "bearer", "Bearer" and "BEARER" match |
| AuthMiddleware.BearerToken | middlewares/auth_middleware.py:17-24 | a token exactly when the header splits into two words and the first is "bearer" in any case; the token is the second word |
| AuthMiddleware.CurrentUserId | middlewares/auth_middleware.py:10-32 | Unauthorized for a missing, empty, malformed or non-bearer header, or one whose token does not decode to a non-empty id; that id otherwise |
| AuthMiddleware.OptionalUserId | middlewares/auth_middleware.py:35-48 | None on each header failure, otherwise the decoder's result unchanged |
| AuthMiddleware.RequiredAndOptionalAgree | middlewares/auth_middleware.py:10-48 | the two variants accept the same headers, with the same user id |
| AuthMiddleware.BearerRoundTrip | middlewares/auth_middleware.py:18-19 | "Bearer token", with the scheme in any case, yields the token |
| AuthMiddleware.ThirdWordRejected | middlewares/auth_middleware.py:18-24 | a header with three words is rejected |
| AuthMiddleware.BasicRejected | middlewares/auth_middleware.py:19-21 | a header with another scheme is rejected |
| Settings.CorsOrigins | config/settings.py:24-26 | one origin per comma-separated piece, so one more than there are commas, each the piece stripped, in order |
| Settings.CorsOriginsOfList | config/settings.py:24-26 | comma-joined unpadded origins come back as listed |
| Settings.DefaultOrigins | config/settings.py:22-26 | the default setting allows exactly `http://localhost:3000` |
| Settings.SpaceAfterComma | config/settings.py:26 | a space after a comma is dropped |
| Settings.EmptyPieceKept | config/settings.py:26 | an empty piece stays as an empty origin |

## Left out

- Routers, `main.py`, `config/database.py`, dependency injection and the HTTP
  mapping of `utils/exceptions.py`: framework wiring and I/O. The exceptions
  appear only as `Domain.Error`.
- `services/auth_service.py` and `utils/auth.py`: password hashing and JWT
  encoding are foreign code. `utils/auth.py` is not part of this model, so
  `decode_access_token` is a function parameter.
- `utils/debug.py`: it only prints.
- Concurrency: every operation runs atomically. The race between the
  duplicate check and the insert in `register_for_event` is not modelled.
- Floating point:
  - the organizer rating is not modelled;
  - prices are integers, so only "absent", "0" and "positive" can be told
    apart;
  - a price given as an empty string cannot be represented.
- `pydantic` validation: it appears as types (the status enums) and as
  requirements (capacity > 0).
- `EventServices.EventService.UpdateEventStatus`: the status is an
  `EventStatus` value. A string outside the enum, which the Python signature
  would accept, cannot be passed.
- `UserServices.UserService.SendFriendRequest`:
  - the "Failed to send friend request" branch is not modelled, because an
    inserted id is never empty;
  - "already friends" is tied to an accepted record only when each pair has
    one record. With several records per pair, `find_one` may report either.
- `bson.ObjectId` also accepts a 12-byte `bytes` value as an id. Only
  strings are modelled.
- The event and registration repositories held by the user service are
  never used by it, so the model gives it only the user and friendship
  repositories.
- Record order: query results are specified by membership and absence of
  duplicates, and `get_all_friends` by membership and one entry per
  accepted record, not by MongoDB's natural order.
