/** The `users` collection and its repository (repositories/user_repository.py). */
module Users {
  import opened Wrappers
  import opened Ids
  import opened Store
  import opened Domain

  /** The fields the sign-up path stores: name, e-mail, password hash, city. */
  datatype UserData = UserData(name: string, email: string, passwordHash: string, city: string)

  class UserRepository {
    var docs: map<Id, User>

    ghost predicate Valid()
      reads this
    {
      forall k :: k in docs ==> IsCanonical(k) && docs[k].id == k
    }

    constructor ()
      ensures Valid() && docs == map[]
    {
      docs := map[];
    }

    /** `create_user`: stores the record with its creation time and returns the new id. */
    method CreateUser(data: UserData, now: Time, newId: Id) returns (id: Id)
      requires Valid() && IsCanonical(newId) && newId !in docs
      modifies this
      ensures Valid()
      ensures id == newId
      ensures docs == old(docs)[newId := User(newId, data.name, data.email, data.passwordHash, data.city, now)]
    {
      docs := docs[newId := User(newId, data.name, data.email, data.passwordHash, data.city, now)];
      id := newId;
    }

    /** `get_user_by_email`: some user whose e-mail is exactly `email`, or None
        when there is none (the store picks which if several match). */
    method GetUserByEmail(email: string) returns (r: Option<User>)
      requires Valid()
      ensures r.None? <==> forall k :: k in docs ==> docs[k].email != email
      ensures r.Some? ==> r.value.id in docs && docs[r.value.id] == r.value && r.value.email == email
    {
      if k :| k in docs && docs[k].email == email {
        r := Some(docs[k]);
      } else {
        r := None;
      }
    }

    /** `get_user_by_id`: None for a malformed or unknown id. */
    method GetUserById(userId: string) returns (r: Option<User>)
      requires Valid()
      ensures r.Some? <==> IsObjectId(userId) && ParseObjectId(userId).value in docs
      ensures r.Some? ==> r.value.id == ParseObjectId(userId).value && r.value == docs[r.value.id]
      ensures r == Find(docs, userId)
    {
      r := Find(docs, userId);
    }

    /** `get_users_by_ids`: malformed ids are skipped; each named user is
        returned once, in store order, and nobody else. */
    method GetUsersByIds(userIds: seq<string>) returns (users: seq<User>)
      requires Valid()
      ensures NoDup(users)
      ensures forall u :: u in users <==> u.id in docs && docs[u.id] == u && Mentions(userIds, u.id)
    {
      var objectIds := ParseAll(userIds);
      users := Select(docs, (u: User) => u.id, (u: User) => u.id in objectIds);
    }
  }
}
