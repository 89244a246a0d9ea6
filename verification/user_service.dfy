/** The user service (services/user_service.py): friend requests and the
    public profile of a user. */
module UserServices {
  import opened Wrappers
  import opened Ids
  import opened Store
  import opened Domain
  import opened Users
  import opened Friendships

  /** The three messages `send_friend_request` can answer with. */
  datatype FriendRequestOutcome = AlreadyFriends | AlreadySent | Sent

  /** The public profile of a user (`UserInfo`): no password hash. */
  datatype UserInfo = UserInfo(id: Id, name: string, email: string, city: string)

  class UserService {
    const users: UserRepository
    const friendships: FriendshipRepository

    constructor (users: UserRepository, friendships: FriendshipRepository)
      ensures this.users == users && this.friendships == friendships
    {
      this.users := users;
      this.friendships := friendships;
    }

    ghost predicate Valid()
      reads users, friendships
    {
      users.Valid() && friendships.Valid()
    }

    /** `send_friend_request`. UserNotFound when the recipient does not
        exist (the sender is not looked up). When some record already
        connects the two users, in either direction, nothing is written and
        the answer reports that record: accepted means already friends,
        pending means already sent. Otherwise a pending record from the
        sender to the recipient is added, which keeps one record per pair. */
    method SendFriendRequest(fromUserId: string, toUserId: string, now: Time, newId: Id)
      returns (r: Result<FriendRequestOutcome, Error>)
      requires Valid() && IsCanonical(newId) && newId !in friendships.docs
      modifies friendships
      ensures Valid()
      ensures Find(users.docs, toUserId).None? ==> r == Err(UserNotFound)
      ensures Find(users.docs, toUserId).Some? ==> r.Ok?
      ensures r.Ok? && Related(old(friendships.docs), fromUserId, toUserId) ==>
        r.value != Sent && friendships.docs == old(friendships.docs)
      ensures r == Ok(AlreadyFriends) ==> Friends(old(friendships.docs), fromUserId, toUserId)
      ensures r == Ok(AlreadySent) ==> PendingBetween(old(friendships.docs), fromUserId, toUserId)
      ensures r.Ok? && PairUnique(old(friendships.docs)) ==>
        (r.value == AlreadyFriends <==> Friends(old(friendships.docs), fromUserId, toUserId))
      ensures r.Ok? && !Related(old(friendships.docs), fromUserId, toUserId) ==>
        r.value == Sent &&
        friendships.docs == old(friendships.docs)[newId := Friendship(newId, fromUserId, toUserId, Pending, now)]
      ensures r.Err? ==> friendships.docs == old(friendships.docs)
      ensures PairUnique(old(friendships.docs)) ==> PairUnique(friendships.docs)
    {
      var target := users.GetUserById(toUserId);
      if target.None? {
        return Err(UserNotFound);
      }
      var existing := friendships.GetFriendshipByUsers(fromUserId, toUserId);
      if existing.Some? {
        if existing.value.status == Accepted {
          r := Ok(AlreadyFriends);
        } else {
          r := Ok(AlreadySent);
        }
        return;
      }
      ghost var before := friendships.docs;
      var _ := friendships.CreateFriendshipRequest(fromUserId, toUserId, now, newId);
      if PairUnique(before) {
        InsertKeepsPairUnique(before, Friendship(newId, fromUserId, toUserId, Pending, now));
      }
      r := Ok(Sent);
    }

    /** `get_user_info`: UserNotFound, or the user's public fields. */
    method GetUserInfo(userId: string) returns (r: Result<UserInfo, Error>)
      requires Valid()
      ensures Find(users.docs, userId).None? <==> r == Err(UserNotFound)
      ensures r.Ok? ==>
        var u := Find(users.docs, userId).value;
        r.value == UserInfo(u.id, u.name, u.email, u.city) && r.value.id in users.docs
    {
      var user := users.GetUserById(userId);
      if user.None? {
        return Err(UserNotFound);
      }
      var u := user.value;
      r := Ok(UserInfo(u.id, u.name, u.email, u.city));
    }
  }
}
