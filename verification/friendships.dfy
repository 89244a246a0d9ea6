/** The `friendships` collection and its repository
    (repositories/friendship_repository.py). */
module Friendships {
  import opened Wrappers
  import opened Ids
  import opened Store
  import opened Domain

  /** A record connects `a` and `b`, in either direction. */
  predicate Between(f: Friendship, a: string, b: string) {
    (f.requesterId == a && f.recipientId == b) || (f.requesterId == b && f.recipientId == a)
  }

  /** Some record, in any status, connects the two users. */
  predicate Related(docs: map<Id, Friendship>, a: string, b: string) {
    exists k :: k in docs && Between(docs[k], a, b)
  }

  /** Some accepted record connects the two users: they are friends. */
  predicate Friends(docs: map<Id, Friendship>, a: string, b: string) {
    exists k :: k in docs && Between(docs[k], a, b) && docs[k].status == Accepted
  }

  /** Some pending record connects the two users. */
  predicate PendingBetween(docs: map<Id, Friendship>, a: string, b: string) {
    exists k :: k in docs && Between(docs[k], a, b) && docs[k].status == Pending
  }

  /** At most one record per unordered pair of users. */
  predicate PairUnique(docs: map<Id, Friendship>) {
    forall k1, k2 ::
      k1 in docs && k2 in docs && Between(docs[k1], docs[k2].requesterId, docs[k2].recipientId)
      ==> k1 == k2
  }

  /** Friendship, and the existence of a relationship, do not depend on the
      order in which the two users are named. */
  lemma Symmetric(docs: map<Id, Friendship>, a: string, b: string)
    ensures Friends(docs, a, b) <==> Friends(docs, b, a)
    ensures Related(docs, a, b) <==> Related(docs, b, a)
  {
  }

  /** The endpoint of a record that is not `userId` (the recipient when the
      user sent the request, the requester otherwise). */
  function Other(f: Friendship, userId: string): (x: string)
    ensures f.requesterId == userId || f.recipientId == userId ==> Between(f, userId, x)
  {
    if f.requesterId == userId then f.recipientId else f.requesterId
  }

  /** A record names exactly one other endpoint: whoever it connects the user
      to is that endpoint. */
  lemma OtherUnique(f: Friendship, userId: string, x: string)
    requires Between(f, userId, x)
    ensures Other(f, userId) == x
  {
  }

  /** A new record for a pair with no record keeps one record per pair. */
  lemma InsertKeepsPairUnique(docs: map<Id, Friendship>, f: Friendship)
    requires PairUnique(docs) && f.id !in docs && !Related(docs, f.requesterId, f.recipientId)
    ensures PairUnique(docs[f.id := f])
  {
    var d := docs[f.id := f];
    forall k1, k2 | k1 in d && k2 in d && Between(d[k1], d[k2].requesterId, d[k2].recipientId)
      ensures k1 == k2
    {
      if k1 == f.id && k2 != f.id {
        assert Between(docs[k2], f.requesterId, f.recipientId);
      }
    }
  }

  /** The keys of the accepted records that involve the user. */
  ghost function AcceptedWith(docs: map<Id, Friendship>, userId: string): set<Id> {
    set k | k in docs && (docs[k].requesterId == userId || docs[k].recipientId == userId) && docs[k].status == Accepted
  }

  /** A listing of exactly the accepted records involving the user holds
      exactly their keys. */
  lemma AcceptedIds(docs: map<Id, Friendship>, userId: string, accepted: seq<Friendship>)
    requires forall k :: k in docs ==> docs[k].id == k
    requires forall f :: f in accepted <==>
      f.id in docs && docs[f.id] == f && (f.requesterId == userId || f.recipientId == userId) && f.status == Accepted
    ensures IdsOf(accepted, (f: Friendship) => f.id) == AcceptedWith(docs, userId)
  {
    var idOf := (f: Friendship) => f.id;
    forall k | k in AcceptedWith(docs, userId) ensures k in IdsOf(accepted, idOf) {
      assert docs[k] in accepted;
      var j :| 0 <= j < |accepted| && accepted[j] == docs[k];
      assert idOf(accepted[j]) == k;
    }
    forall k | k in IdsOf(accepted, idOf) ensures k in AcceptedWith(docs, userId) {
      var j :| 0 <= j < |accepted| && idOf(accepted[j]) == k;
      assert accepted[j] in accepted;
    }
  }

  class FriendshipRepository {
    var docs: map<Id, Friendship>

    ghost predicate Valid()
      reads this
    {
      forall k :: k in docs ==> IsCanonical(k) && docs[k].id == k
    }

    constructor ()
      ensures Valid() && docs == map[]
    {
      docs := map[];
    }

    /** `create_friendship_request`: a pending record from `fromUserId` to `toUserId`. */
    method CreateFriendshipRequest(fromUserId: string, toUserId: string, now: Time, newId: Id)
      returns (id: Id)
      requires Valid() && IsCanonical(newId) && newId !in docs
      modifies this
      ensures Valid()
      ensures id == newId
      ensures docs == old(docs)[newId := Friendship(newId, fromUserId, toUserId, Pending, now)]
    {
      docs := docs[newId := Friendship(newId, fromUserId, toUserId, Pending, now)];
      id := newId;
    }

    /** `get_friendship_by_users`: some record connecting the two users in
        either direction and in any status, or None if they are unrelated. */
    method GetFriendshipByUsers(a: string, b: string) returns (r: Option<Friendship>)
      requires Valid()
      ensures r.None? <==> !Related(docs, a, b)
      ensures r.Some? ==> r.value.id in docs && docs[r.value.id] == r.value && Between(r.value, a, b)
    {
      if k :| k in docs && Between(docs[k], a, b) {
        r := Some(docs[k]);
      } else {
        r := None;
      }
    }

    /** `accept_friendship_request`: status accepted, nothing else. */
    method AcceptFriendshipRequest(friendshipId: string) returns (changed: bool)
      requires Valid()
      modifies this
      ensures Valid()
      ensures Find(old(docs), friendshipId).None? ==> docs == old(docs) && !changed
      ensures Find(old(docs), friendshipId).Some? ==>
        var f := Find(old(docs), friendshipId).value;
        docs == old(docs)[f.id := f.(status := Accepted)] && changed == (f.status != Accepted)
    {
      match ParseObjectId(friendshipId) {
        case None =>
          changed := false;
        case Some(k) =>
          if k in docs {
            changed := docs[k].status != Accepted;
            docs := docs[k := docs[k].(status := Accepted)];
          } else {
            changed := false;
          }
      }
    }

    /** `check_friendship`: whether an accepted record connects the two users. */
    method CheckFriendship(a: string, b: string) returns (friends: bool)
      requires Valid()
      ensures friends <==> Friends(docs, a, b)
      ensures friends <==> Friends(docs, b, a)
    {
      friends := exists k :: k in docs && Between(docs[k], a, b) && docs[k].status == Accepted;
    }

    /** `get_pending_requests_received`: the pending records addressed to the user. */
    method GetPendingRequestsReceived(userId: string) returns (rs: seq<Friendship>)
      requires Valid()
      ensures NoDup(rs)
      ensures forall f :: f in rs <==> f.id in docs && docs[f.id] == f && f.recipientId == userId && f.status == Pending
    {
      rs := Select(docs, (f: Friendship) => f.id,
                   (f: Friendship) => f.recipientId == userId && f.status == Pending);
    }

    /** `get_all_friends`: the other endpoint of every accepted record that
        involves the user, one entry per record; so exactly the users it is
        friends with, each once when every pair has one record. */
    method GetAllFriends(userId: string) returns (friendIds: seq<string>)
      requires Valid()
      ensures forall x :: x in friendIds <==> Friends(docs, userId, x)
      ensures |friendIds| == |AcceptedWith(docs, userId)|
      ensures PairUnique(docs) ==> NoDup(friendIds)
    {
      var idOf := (f: Friendship) => f.id;
      var accepted := Select(docs, idOf,
        (f: Friendship) => (f.requesterId == userId || f.recipientId == userId) && f.status == Accepted);
      friendIds := [];
      for i := 0 to |accepted|
        invariant |friendIds| == i
        invariant forall j :: 0 <= j < i ==> friendIds[j] == Other(accepted[j], userId)
      {
        var f := accepted[i];
        if f.requesterId == userId {
          friendIds := friendIds + [f.recipientId];
        } else {
          friendIds := friendIds + [f.requesterId];
        }
      }
      forall x | x in friendIds ensures Friends(docs, userId, x) {
        var j :| 0 <= j < |friendIds| && friendIds[j] == x;
        assert accepted[j] in accepted;
        assert docs[accepted[j].id] == accepted[j];
      }
      forall x | Friends(docs, userId, x) ensures x in friendIds {
        var k :| k in docs && Between(docs[k], userId, x) && docs[k].status == Accepted;
        var f := docs[k];
        assert f in accepted;
        var j :| 0 <= j < |accepted| && accepted[j] == f;
        OtherUnique(f, userId, x);
        assert friendIds[j] == x;
      }
      KeyedDistinct(docs, idOf, accepted);
      AcceptedIds(docs, userId, accepted);
      IdsOfCount(accepted, idOf);
      if PairUnique(docs) {
        forall i, j | 0 <= i < j < |friendIds| ensures friendIds[i] != friendIds[j] {
          assert accepted[i] in accepted && accepted[j] in accepted;
          if friendIds[i] == friendIds[j] {
            var a, b := accepted[i], accepted[j];
            assert Between(a, userId, friendIds[i]) && Between(b, userId, friendIds[i]);
            assert Between(docs[a.id], docs[b.id].requesterId, docs[b.id].recipientId);
          }
        }
      }
    }
  }
}
