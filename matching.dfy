/** The like / unlike / match engine of dating.controllers.ts and the profile
    view that exposes only derived booleans about the viewer. */
module Matching {
  import opened Schemas
  import opened Sockets
  import opened Store
  import opened ObjectIds

  /** Why a like, unlike or profile request is rejected. */
  datatype DatingError = InvalidUserId | CannotLikeSelf | CannotUnlikeSelf | UserNotFound | AlreadyLiked | NotLiked
  {
    function Status(): HttpStatus
    {
      if this == UserNotFound then NotFound404 else BadRequest400
    }
  }

  /** The relation sets of all users agree with each other: every like is
      recorded on both sides, every id refers to a stored user, and two users
      are matched exactly when each likes the other (so matches are symmetric). */
  ghost predicate Consistent(users: map<UserId, User>)
  {
    && (forall x, y | x in users && y in users[x].likes :: y in users)
    && (forall x, y | x in users && y in users[x].likedBy :: y in users)
    && (forall x, y | x in users && y in users[x].matches :: y in users)
    && (forall x, y | x in users && y in users :: y in users[x].likes <==> x in users[y].likedBy)
    && (forall x, y | x in users && y in users ::
          y in users[x].matches <==> y in users[x].likes && x in users[y].likes)
  }

  /** Consistency depends only on the ids and the three relation sets, so an
      update that keeps those keeps it. */
  lemma SameRelationsConsistent(users: map<UserId, User>, users': map<UserId, User>)
    requires Consistent(users) && users'.Keys == users.Keys
    requires forall x | x in users :: && users'[x].likes == users[x].likes
                                       && users'[x].likedBy == users[x].likedBy
                                       && users'[x].matches == users[x].matches
    ensures Consistent(users')
  {
  }

  /** Matches are symmetric in a consistent store. */
  lemma MatchesSymmetric(users: map<UserId, User>, x: UserId, y: UserId)
    requires Consistent(users) && x in users && y in users[x].matches
    ensures y in users && x in users[y].matches
  {
  }

  // ─── like ───────────────────────────────────────────────────────────

  /** The checks of `likeUserController`, in the order it makes them. */
  function LikeGuard(users: map<UserId, User>, myId: UserId, targetId: UserId, isValidId: UserId -> bool): Option<DatingError>
  {
    if !isValidId(targetId) then Some(InvalidUserId)
    else if myId == targetId then Some(CannotLikeSelf)
    else if myId !in users || targetId !in users then Some(UserNotFound)
    else if targetId in users[myId].likes then Some(AlreadyLiked)
    else None
  }

  /** Whether a like from `myId` completes a match: the target already liked
      `myId` (read from `myId`'s own record as loaded before the update). */
  function CompletesMatch(users: map<UserId, User>, myId: UserId, targetId: UserId): bool
    requires myId in users
  {
    targetId in users[myId].likedBy
  }

  /** The users after a successful like: the like is recorded on both sides,
      and when it completes a match, each side records the other as a match. */
  function Liked(users: map<UserId, User>, myId: UserId, targetId: UserId): map<UserId, User>
    requires myId in users && targetId in users && myId != targetId
  {
    var isMatch := CompletesMatch(users, myId, targetId);
    var me := users[myId];
    var target := users[targetId];
    users[myId := me.(likes := me.likes + {targetId}, matches := if isMatch then me.matches + {targetId} else me.matches)]
         [targetId := target.(likedBy := target.likedBy + {myId}, matches := if isMatch then target.matches + {myId} else target.matches)]
  }

  /** The notifications a successful like stores: two `match` notices, one per
      side with the other side as sender, or one `like` notice to the target. */
  function LikeNotifications(myId: UserId, targetId: UserId, isMatch: bool): seq<Notification>
  {
    if isMatch then [Notification(targetId, myId, MatchNotice, false), Notification(myId, targetId, MatchNotice, false)]
    else [Notification(myId, targetId, LikeNotice, false)]
  }

  function ViewOf(u: User): SenderView
  {
    SenderView(u.name, u.avatar)
  }

  /** The socket emissions of a successful like, given the registry state. */
  function LikePushes(users: map<UserId, User>, ioReady: bool, entries: seq<Entry>, myId: UserId, targetId: UserId, isMatch: bool): seq<Emission<Payload>>
    requires myId in users && targetId in users
  {
    var notices := LikeNotifications(myId, targetId, isMatch);
    if isMatch then
      PushFor(ioReady, entries, myId, ReceiveNotification, NotificationEvent(notices[0], ViewOf(users[targetId])))
      + PushFor(ioReady, entries, targetId, ReceiveNotification, NotificationEvent(notices[1], ViewOf(users[myId])))
    else
      PushFor(ioReady, entries, targetId, ReceiveNotification, NotificationEvent(notices[0], ViewOf(users[myId])))
  }

  /** `likeUserController`. `isValidId` is `mongoose.Types.ObjectId.isValid`. */
  method Like(db: Database, sockets: SocketRegistry<Payload>, myId: UserId, targetId: UserId, isValidId: UserId -> bool)
    returns (r: Result<bool, DatingError>)
    modifies db`users, db`notifications, sockets`emitted
    ensures r.Err? <==> LikeGuard(old(db.users), myId, targetId, isValidId).Some?
    ensures r.Err? ==> && r.error == LikeGuard(old(db.users), myId, targetId, isValidId).value
                       && db.users == old(db.users)
                       && db.notifications == old(db.notifications)
                       && sockets.emitted == old(sockets.emitted)
    ensures r.Ok? ==> && r.value == CompletesMatch(old(db.users), myId, targetId)
                      && db.users == Liked(old(db.users), myId, targetId)
                      && db.notifications == old(db.notifications) + LikeNotifications(myId, targetId, r.value)
                      && sockets.emitted == old(sockets.emitted)
                           + LikePushes(old(db.users), sockets.ioReady, sockets.entries, myId, targetId, r.value)
  {
    if !isValidId(targetId) {
      return Err(InvalidUserId);
    }
    if myId == targetId {
      return Err(CannotLikeSelf);
    }
    if myId !in db.users || targetId !in db.users {
      return Err(UserNotFound);
    }
    var me, target := db.users[myId], db.users[targetId];
    if targetId in me.likes {
      return Err(AlreadyLiked);
    }

    // $addToSet on both sides
    var isMatch := targetId in me.likedBy;
    var newMe, newTarget := me.(likes := me.likes + {targetId}), target.(likedBy := target.likedBy + {myId});
    db.users := db.users[myId := newMe][targetId := newTarget];

    if isMatch {
      newMe, newTarget := newMe.(matches := newMe.matches + {targetId}), newTarget.(matches := newTarget.matches + {myId});
      db.users := db.users[myId := newMe][targetId := newTarget];
      assert db.users == old(db.users)[myId := newMe][targetId := newTarget];
      assert db.users == Liked(old(db.users), myId, targetId);

      var notiForMe := Notification(targetId, myId, MatchNotice, false);
      var notiForTarget := Notification(myId, targetId, MatchNotice, false);
      db.notifications := db.notifications + [notiForMe];
      db.notifications := db.notifications + [notiForTarget];

      sockets.SendNotification(myId, ReceiveNotification, NotificationEvent(notiForMe, ViewOf(target)));
      sockets.SendNotification(targetId, ReceiveNotification, NotificationEvent(notiForTarget, ViewOf(me)));
      return Ok(true);
    }

    assert db.users == Liked(old(db.users), myId, targetId);
    var notiLike := Notification(myId, targetId, LikeNotice, false);
    db.notifications := db.notifications + [notiLike];
    sockets.SendNotification(targetId, ReceiveNotification, NotificationEvent(notiLike, ViewOf(me)));
    return Ok(false);
  }

  // ─── unlike ─────────────────────────────────────────────────────────

  /** The checks of `unlikeUserController`, in the order it makes them; only
      the caller's record is loaded. */
  function UnlikeGuard(users: map<UserId, User>, myId: UserId, targetId: UserId, isValidId: UserId -> bool): Option<DatingError>
  {
    if !isValidId(targetId) then Some(InvalidUserId)
    else if myId == targetId then Some(CannotUnlikeSelf)
    else if myId !in users then Some(UserNotFound)
    else if targetId !in users[myId].likes then Some(NotLiked)
    else None
  }

  /** The users after a successful unlike: the like is pulled from both sides,
      and, when the caller's record held the match, the match on both sides.
      An update addressed to a missing target changes nothing. */
  function Unliked(users: map<UserId, User>, myId: UserId, targetId: UserId): map<UserId, User>
    requires myId in users && myId != targetId
  {
    var wasMatched := targetId in users[myId].matches;
    var me := users[myId];
    var afterMe := users[myId := me.(likes := me.likes - {targetId}, matches := if wasMatched then me.matches - {targetId} else me.matches)];
    if targetId !in users then afterMe
    else
      var target := users[targetId];
      afterMe[targetId := target.(likedBy := target.likedBy - {myId}, matches := if wasMatched then target.matches - {myId} else target.matches)]
  }

  /** `unlikeUserController`: returns `matchRemoved`; stores and pushes nothing. */
  method Unlike(db: Database, myId: UserId, targetId: UserId, isValidId: UserId -> bool)
    returns (r: Result<bool, DatingError>)
    modifies db`users
    ensures r.Err? <==> UnlikeGuard(old(db.users), myId, targetId, isValidId).Some?
    ensures r.Err? ==> r.error == UnlikeGuard(old(db.users), myId, targetId, isValidId).value && db.users == old(db.users)
    ensures r.Ok? ==> && r.value == (targetId in old(db.users)[myId].matches)
                      && db.users == Unliked(old(db.users), myId, targetId)
  {
    if !isValidId(targetId) {
      return Err(InvalidUserId);
    }
    if myId == targetId {
      return Err(CannotUnlikeSelf);
    }
    if myId !in db.users {
      return Err(UserNotFound);
    }
    var me := db.users[myId];
    if targetId !in me.likes {
      return Err(NotLiked);
    }
    var wasMatched := targetId in me.matches;

    // The $pull updates run together under Promise.all and touch distinct
    // fields, so each record takes all of its pulls at once.
    var newMe := me.(likes := me.likes - {targetId},
                     matches := if wasMatched then me.matches - {targetId} else me.matches);
    db.users := db.users[myId := newMe];
    if targetId in db.users {
      var target := db.users[targetId];
      db.users := db.users[targetId := target.(likedBy := target.likedBy - {myId},
                                               matches := if wasMatched then target.matches - {myId} else target.matches)];
    }
    return Ok(wasMatched);
  }

  // ─── profile view ───────────────────────────────────────────────────

  /** What `getProfileController` returns: public fields of the target and
      three booleans relative to the viewer, never the raw relation sets. */
  datatype ProfileView = ProfileView(
    name: string, age: int, gender: Gender, bio: string, avatar: string,
    isLikedByMe: bool, hasLikedMe: bool, isMatch: bool)

  /** `getProfileController`. A missing viewer record gives three `false`s. */
  function GetProfile(users: map<UserId, User>, myId: UserId, targetId: UserId, isValidId: UserId -> bool): (r: Result<ProfileView, DatingError>)
    ensures r.Err? <==> !isValidId(targetId) || targetId !in users || !users[targetId].isActive
    ensures r.Err? ==> r.error == if !isValidId(targetId) then InvalidUserId else UserNotFound
    ensures r.Ok? ==> var t := users[targetId];
      && r.value.name == t.name && r.value.age == t.age && r.value.gender == t.gender
      && r.value.bio == t.bio && r.value.avatar == t.avatar
    ensures r.Ok? && myId !in users ==> !r.value.isLikedByMe && !r.value.hasLikedMe && !r.value.isMatch
  {
    if !isValidId(targetId) then Err(InvalidUserId)
    else if targetId !in users || !users[targetId].isActive then Err(UserNotFound)
    else
      var t := users[targetId];
      var known := myId in users;
      Ok(ProfileView(t.name, t.age, t.gender, t.bio, t.avatar,
        known && targetId in users[myId].likes,
        known && targetId in users[myId].likedBy,
        known && targetId in users[myId].matches))
  }

  // ─── properties ─────────────────────────────────────────────────────

  /** A like keeps the store consistent: both sides of the like are recorded,
      and a match is recorded on both sides exactly when the like is mutual. */
  lemma LikePreservesConsistency(users: map<UserId, User>, myId: UserId, targetId: UserId)
    requires Consistent(users) && myId in users && targetId in users && myId != targetId
    requires targetId !in users[myId].likes
    ensures Consistent(Liked(users, myId, targetId))
  {
    LikeKeepsIdsKnown(users, myId, targetId);
    LikeKeepsMirror(users, myId, targetId);
    LikeKeepsMatchRule(users, myId, targetId);
  }

  /** A like only adds the two users' own ids, so every id in a relation set
      stays a key. */
  lemma LikeKeepsIdsKnown(users: map<UserId, User>, myId: UserId, targetId: UserId)
    requires Consistent(users) && myId in users && targetId in users && myId != targetId
    ensures var after := Liked(users, myId, targetId);
      && (forall x, y | x in after && y in after[x].likes :: y in after)
      && (forall x, y | x in after && y in after[x].likedBy :: y in after)
      && (forall x, y | x in after && y in after[x].matches :: y in after)
  {
    var after := Liked(users, myId, targetId);
    assert forall z :: z in after <==> z in users;
    assert forall x | x in after :: after[x].likes <= users[x].likes + {targetId}
                                   && after[x].likedBy <= users[x].likedBy + {myId}
                                   && after[x].matches <= users[x].matches + {myId, targetId};
  }

  /** A like is recorded on both sides, so likes stay mirrored. */
  lemma LikeKeepsMirror(users: map<UserId, User>, myId: UserId, targetId: UserId)
    requires Consistent(users) && myId in users && targetId in users && myId != targetId
    ensures var after := Liked(users, myId, targetId);
      forall x, y | x in after && y in after :: y in after[x].likes <==> x in after[y].likedBy
  {
    var after := Liked(users, myId, targetId);
    assert forall z :: z in after <==> z in users;
    forall x, y | x in after && y in after
      ensures y in after[x].likes <==> x in after[y].likedBy
    {
      assert after[x].likes == if x == myId then users[x].likes + {targetId} else users[x].likes;
      assert after[y].likedBy == if y == targetId then users[y].likedBy + {myId} else users[y].likedBy;
    }
  }

  /** A like records a match on both sides exactly when it completes a mutual
      like, so a match still means a mutual like. */
  lemma LikeKeepsMatchRule(users: map<UserId, User>, myId: UserId, targetId: UserId)
    requires Consistent(users) && myId in users && targetId in users && myId != targetId
    requires targetId !in users[myId].likes
    ensures var after := Liked(users, myId, targetId);
      forall x, y | x in after && y in after :: y in after[x].matches <==> y in after[x].likes && x in after[y].likes
  {
    var after := Liked(users, myId, targetId);
    var isMatch := CompletesMatch(users, myId, targetId);
    assert isMatch <==> myId in users[targetId].likes;
    assert forall z :: z in after <==> z in users;
    forall x, y | x in after && y in after
      ensures y in after[x].matches <==> y in after[x].likes && x in after[y].likes
    {
      assert after[x].likes == if x == myId then users[x].likes + {targetId} else users[x].likes;
      assert after[y].likes == if y == myId then users[y].likes + {targetId} else users[y].likes;
      assert after[x].matches == if x == myId && isMatch then users[x].matches + {targetId}
                                 else if x == targetId && isMatch then users[x].matches + {myId}
                                 else users[x].matches;
    }
  }

  /** An unlike keeps the store consistent; in particular a match recorded on
      the caller's side is removed on both sides. */
  lemma UnlikePreservesConsistency(users: map<UserId, User>, myId: UserId, targetId: UserId)
    requires Consistent(users) && myId in users && myId != targetId
    requires targetId in users[myId].likes
    ensures Consistent(Unliked(users, myId, targetId))
  {
    UnlikeKeepsIdsKnown(users, myId, targetId);
    UnlikeKeepsMirror(users, myId, targetId);
    UnlikeKeepsMatchRule(users, myId, targetId);
  }

  /** An unlike only removes ids, so every id in a relation set stays a key. */
  lemma UnlikeKeepsIdsKnown(users: map<UserId, User>, myId: UserId, targetId: UserId)
    requires Consistent(users) && myId in users && myId != targetId
    ensures var after := Unliked(users, myId, targetId);
      && (forall x, y | x in after && y in after[x].likes :: y in after)
      && (forall x, y | x in after && y in after[x].likedBy :: y in after)
      && (forall x, y | x in after && y in after[x].matches :: y in after)
  {
    var after := Unliked(users, myId, targetId);
    assert forall z :: z in after <==> z in users;
    assert forall x | x in after :: after[x].likes <= users[x].likes && after[x].likedBy <= users[x].likedBy
                                   && after[x].matches <= users[x].matches;
  }

  /** An unlike removes the like on both sides, so likes stay mirrored. */
  lemma UnlikeKeepsMirror(users: map<UserId, User>, myId: UserId, targetId: UserId)
    requires Consistent(users) && myId in users && myId != targetId
    requires targetId in users[myId].likes
    ensures var after := Unliked(users, myId, targetId);
      forall x, y | x in after && y in after :: y in after[x].likes <==> x in after[y].likedBy
  {
    var after := Unliked(users, myId, targetId);
    assert forall z :: z in after <==> z in users;
    forall x, y | x in after && y in after
      ensures y in after[x].likes <==> x in after[y].likedBy
    {
      assert after[x].likes == if x == myId then users[x].likes - {targetId} else users[x].likes;
      assert after[y].likedBy == if y == targetId then users[y].likedBy - {myId} else users[y].likedBy;
    }
  }

  /** An unlike removes a match on both sides exactly when it breaks one, so a
      match still means a mutual like. */
  lemma UnlikeKeepsMatchRule(users: map<UserId, User>, myId: UserId, targetId: UserId)
    requires Consistent(users) && myId in users && myId != targetId
    requires targetId in users[myId].likes
    ensures var after := Unliked(users, myId, targetId);
      forall x, y | x in after && y in after :: y in after[x].matches <==> y in after[x].likes && x in after[y].likes
  {
    var after := Unliked(users, myId, targetId);
    var wasMatched := targetId in users[myId].matches;
    assert forall z :: z in after <==> z in users;
    forall x, y | x in after && y in after
      ensures y in after[x].matches <==> y in after[x].likes && x in after[y].likes
    {
      assert after[x].likes == if x == myId then users[x].likes - {targetId} else users[x].likes;
      assert after[y].likes == if y == myId then users[y].likes - {targetId} else users[y].likes;
      assert after[x].matches == if x == myId && wasMatched then users[x].matches - {targetId}
                                 else if x == targetId && wasMatched then users[x].matches - {myId}
                                 else users[x].matches;
    }
  }

  /** In a consistent store, a like completes a match exactly when the target
      already likes the caller, and then both sides list each other as matches. */
  lemma LikeMatchesExactlyWhenMutual(users: map<UserId, User>, myId: UserId, targetId: UserId)
    requires Consistent(users) && myId in users && targetId in users && myId != targetId
    requires targetId !in users[myId].likes
    ensures CompletesMatch(users, myId, targetId) <==> myId in users[targetId].likes
    ensures var after := Liked(users, myId, targetId);
      && targetId in after[myId].likes && myId in after[targetId].likedBy
      && (targetId in after[myId].matches <==> CompletesMatch(users, myId, targetId))
      && (myId in after[targetId].matches <==> CompletesMatch(users, myId, targetId))
      && forall u :: u in users && u != myId && u != targetId ==> after[u] == users[u]
  {
  }

  /** A second like of the same user, without an unlike in between, is
      rejected as already liked. */
  lemma LikeTwiceRejected(users: map<UserId, User>, myId: UserId, targetId: UserId, isValidId: UserId -> bool)
    requires LikeGuard(users, myId, targetId, isValidId).None?
    ensures LikeGuard(Liked(users, myId, targetId), myId, targetId, isValidId) == Some(AlreadyLiked)
  {
  }

  /** Two users who like each other end up matched whichever likes first, and
      the store is the same in both orders. */
  lemma MatchIsOrderIndependent(users: map<UserId, User>, a: UserId, b: UserId)
    requires Consistent(users) && a in users && b in users && a != b
    requires b !in users[a].likes && a !in users[b].likes
    ensures !CompletesMatch(users, a, b) && !CompletesMatch(users, b, a)
    ensures CompletesMatch(Liked(users, a, b), b, a) && CompletesMatch(Liked(users, b, a), a, b)
    ensures Liked(Liked(users, a, b), b, a) == Liked(Liked(users, b, a), a, b)
    ensures var after := Liked(Liked(users, a, b), b, a);
      b in after[a].matches && a in after[b].matches
  {
    LikeBothWays(users, a, b);
    LikeBothWays(users, b, a);
    var ua, ub := users[a], users[b];
    var ua2 := ua.(likes := ua.likes + {b}, likedBy := ua.likedBy + {b}, matches := ua.matches + {b});
    var ub2 := ub.(likes := ub.likes + {a}, likedBy := ub.likedBy + {a}, matches := ub.matches + {a});
    UpdatesCommute(users, a, b, ua2, ub2);
  }

  /** Updates of two different keys can be applied in either order. */
  lemma UpdatesCommute<K, V>(m: map<K, V>, a: K, b: K, va: V, vb: V)
    requires a != b
    ensures m[a := va][b := vb] == m[b := vb][a := va]
  {
  }

  /** Two likes between users with no like between them yet: the second one
      completes a match, and each record gains the other in all three sets. */
  lemma LikeBothWays(users: map<UserId, User>, a: UserId, b: UserId)
    requires a in users && b in users && a != b
    requires b !in users[a].likedBy && b !in users[a].likes && a !in users[b].likes
    ensures !CompletesMatch(users, a, b) && CompletesMatch(Liked(users, a, b), b, a)
    ensures var ua, ub := users[a], users[b];
      Liked(Liked(users, a, b), b, a)
        == users[a := ua.(likes := ua.likes + {b}, likedBy := ua.likedBy + {b}, matches := ua.matches + {b})]
                [b := ub.(likes := ub.likes + {a}, likedBy := ub.likedBy + {a}, matches := ub.matches + {a})]
  {
    var ua, ub := users[a], users[b];
    var first := Liked(users, a, b);
    assert first[a] == ua.(likes := ua.likes + {b}) && first[b] == ub.(likedBy := ub.likedBy + {a});
  }

  /** Unliking a match removes the like of the caller and the match on both
      sides; the other side's own like survives. */
  lemma UnlikeAfterMatch(users: map<UserId, User>, a: UserId, b: UserId)
    requires Consistent(users) && a in users && b in users && a != b
    requires b in users[a].matches
    ensures var after := Unliked(users, a, b);
      && b !in after[a].likes && a !in after[b].likedBy
      && b !in after[a].matches && a !in after[b].matches
      && a in after[b].likes && b in after[a].likedBy
  {
  }

  /** The profile view reflects a like at once: the liker sees `isLikedByMe`,
      the target sees `hasLikedMe`, and a completed match shows on both sides. */
  lemma ProfileAfterLike(users: map<UserId, User>, myId: UserId, targetId: UserId, isValidId: UserId -> bool)
    requires Consistent(users) && LikeGuard(users, myId, targetId, isValidId).None?
    requires users[targetId].isActive && users[myId].isActive && isValidId(myId)
    ensures var after := Liked(users, myId, targetId);
      && GetProfile(after, myId, targetId, isValidId).Ok?
      && GetProfile(after, myId, targetId, isValidId).value.isLikedByMe
      && GetProfile(after, targetId, myId, isValidId).Ok?
      && GetProfile(after, targetId, myId, isValidId).value.hasLikedMe
      && (GetProfile(after, myId, targetId, isValidId).value.isMatch <==> CompletesMatch(users, myId, targetId))
      && (GetProfile(after, targetId, myId, isValidId).value.isMatch <==> CompletesMatch(users, myId, targetId))
  {
  }

  /** In a consistent store a match shown in a profile is always a mutual like. */
  lemma ProfileMatchImpliesMutual(users: map<UserId, User>, myId: UserId, targetId: UserId, isValidId: UserId -> bool)
    requires Consistent(users)
    requires GetProfile(users, myId, targetId, isValidId).Ok? && GetProfile(users, myId, targetId, isValidId).value.isMatch
    ensures GetProfile(users, myId, targetId, isValidId).value.isLikedByMe
    ensures GetProfile(users, myId, targetId, isValidId).value.hasLikedMe
  {
  }

  // ─── id spelling ────────────────────────────────────────────────────

  /** The checks of `likeUserController` as written: the self and
      already-liked checks compare the raw text of the target id, while the
      lookup casts it. */
  function LikeGuardAsWritten(users: map<UserId, User>, myId: UserId, targetId: string, isValidId: string -> bool): Option<DatingError>
  {
    if !isValidId(targetId) then Some(InvalidUserId)
    else if myId == targetId then Some(CannotLikeSelf)
    else if myId !in users || Canon(targetId) !in users then Some(UserNotFound)
    else if targetId in users[myId].likes then Some(AlreadyLiked)
    else None
  }

  /** The users after the like as written: the updates go to the cast id,
      one record after the other, and `isMatch` compares the raw text. */
  function LikedAsWritten(users: map<UserId, User>, myId: UserId, targetId: string): map<UserId, User>
    requires myId in users && Canon(targetId) in users
  {
    var t := Canon(targetId);
    var isMatch := targetId in users[myId].likedBy;
    var liked := users[myId := users[myId].(likes := users[myId].likes + {t})];
    var both := liked[t := liked[t].(likedBy := liked[t].likedBy + {myId})];
    if !isMatch then both
    else
      var mine := both[myId := both[myId].(matches := both[myId].matches + {t})];
      mine[t := mine[t].(matches := mine[t].matches + {myId})]
  }

  /** On a canonical spelling of a different user's id the handler as
      written is the model's like. */
  lemma AsWrittenAgreesOnCanonicalIds(users: map<UserId, User>, myId: UserId, targetId: UserId, isValidId: string -> bool)
    requires IsCanonical(targetId)
    ensures LikeGuardAsWritten(users, myId, targetId, isValidId) == LikeGuard(users, myId, targetId, isValidId)
    ensures LikeGuard(users, myId, targetId, isValidId).None? ==> LikedAsWritten(users, myId, targetId) == Liked(users, myId, targetId)
  {
    CanonOfCanonical(targetId);
  }

  /** Casting a canonical text followed by one more character lower-cases
      only that character. */
  lemma CanonLastChar(prefix: string, c: char)
    requires IsCanonical(prefix)
    ensures Canon(prefix + [c]) == prefix + [LowerHex(c)]
  {
    var r := Canon(prefix + [c]);
    assert forall i :: 0 <= i < |prefix| ==> r[i] == prefix[i];
  }

  /** Two ids that share a canonical prefix and end in 'a' and 'b' (with 23
      zeros in front they are ObjectId texts): the spellings ending in 'A'
      and 'B' name the same ids, yet differ from them as text. */
  lemma SpellingsResolve(prefix: string)
    requires IsCanonical(prefix)
    ensures Canon(prefix + ['A']) == prefix + ['a'] && Canon(prefix + ['B']) == prefix + ['b']
    ensures prefix + ['A'] != prefix + ['a'] && prefix + ['B'] != prefix + ['b'] && prefix + ['a'] != prefix + ['b']
    ensures prefix + ['B'] != prefix + ['a'] && prefix + ['A'] != prefix + ['b']
  {
    CanonLastChar(prefix, 'A');
    CanonLastChar(prefix, 'B');
    var n := |prefix|;
    assert (prefix + ['A'])[n] == 'A' && (prefix + ['B'])[n] == 'B';
    assert (prefix + ['a'])[n] == 'a' && (prefix + ['b'])[n] == 'b';
  }

  /** A user with no likes, likes received or matches. */
  function Loner(email: string): User
  {
    User(email, "hash", true, true, "name", 20, Other, "", DefaultAvatar, {}, {}, {}, {})
  }

  /** As written, liking a spelling of one's own id that is not the stored
      spelling passes every check and leaves the user liking itself without a
      match, so a consistent store stops being consistent. */
  lemma SelfLikeBreaksConsistency(users: map<UserId, User>, myId: UserId, spelling: string, isValidId: string -> bool)
    requires Consistent(users) && myId in users && myId !in users[myId].likes
    requires isValidId(spelling) && spelling !in users && Canon(spelling) == myId
    ensures LikeGuardAsWritten(users, myId, spelling, isValidId).None?
    ensures myId in LikedAsWritten(users, myId, spelling)[myId].likes
    ensures myId !in LikedAsWritten(users, myId, spelling)[myId].matches
    ensures !Consistent(LikedAsWritten(users, myId, spelling))
  {
    assert spelling != myId;
    assert spelling !in users[myId].likes && spelling !in users[myId].likedBy;
    var after := LikedAsWritten(users, myId, spelling);
    assert after[myId].likes == users[myId].likes + {myId};
    assert after[myId].matches == users[myId].matches;
    UnmatchedPairInconsistent(after, myId, myId);
  }

  /** As written, answering a like through a spelling of the liker's id that
      is not the stored spelling passes every check but makes no match, so
      the two users like each other unmatched and the store stops being
      consistent. */
  lemma MutualLikeBreaksConsistency(users: map<UserId, User>, myId: UserId, otherId: UserId, spelling: string, isValidId: string -> bool)
    requires Consistent(users) && myId in users
    requires otherId in users[myId].likedBy && otherId !in users[myId].likes
    requires isValidId(spelling) && spelling !in users && Canon(spelling) == otherId
    ensures LikeGuardAsWritten(users, myId, spelling, isValidId).None?
    ensures otherId in LikedAsWritten(users, myId, spelling)[myId].likes
    ensures myId in LikedAsWritten(users, myId, spelling)[otherId].likes
    ensures otherId !in LikedAsWritten(users, myId, spelling)[myId].matches
    ensures !Consistent(LikedAsWritten(users, myId, spelling))
  {
    assert otherId in users && myId in users[otherId].likes;
    assert otherId != myId;
    assert spelling != myId;
    assert spelling !in users[myId].likes && spelling !in users[myId].likedBy;
    var after := LikedAsWritten(users, myId, spelling);
    assert after[myId].likes == users[myId].likes + {otherId};
    assert after[myId].matches == users[myId].matches;
    assert after[otherId].likes == users[otherId].likes;
    UnmatchedPairInconsistent(after, myId, otherId);
  }

  /** Two stored users who like each other without a match break the
      matching rule. */
  lemma UnmatchedPairInconsistent(users: map<UserId, User>, x: UserId, y: UserId)
    requires x in users && y in users
    requires y in users[x].likes && x in users[y].likes && y !in users[x].matches
    ensures !Consistent(users)
  {
  }

  /** A store of one user who has no relations yet. */
  function LonerStore(x: UserId): map<UserId, User>
  {
    map[x := Loner("a@x")]
  }

  /** `y` has liked `x`, and nothing else has happened. */
  function LikedByStore(x: UserId, y: UserId): map<UserId, User>
  {
    map[x := Loner("a@x").(likedBy := {y}), y := Loner("b@x").(likes := {x})]
  }

  lemma ExampleStoresConsistent(x: UserId, y: UserId)
    requires x != y
    ensures Consistent(LonerStore(x)) && LonerStore(x).Keys == {x}
    ensures Consistent(LikedByStore(x, y)) && LikedByStore(x, y).Keys == {x, y}
  {
    var users := LikedByStore(x, y);
    assert users[x].likes == {} && users[x].likedBy == {y} && users[x].matches == {};
    assert users[y].likes == {x} && users[y].likedBy == {} && users[y].matches == {};
  }

  /** The self-like as written on a concrete store: the user with id
      "…a" liking "…A" ends up liking itself without a match. */
  lemma SelfLikeAsWritten(prefix: string, isValidId: string -> bool)
    requires IsCanonical(prefix) && isValidId(prefix + ['A'])
    ensures Consistent(LonerStore(prefix + ['a']))
    ensures LikeGuardAsWritten(LonerStore(prefix + ['a']), prefix + ['a'], prefix + ['A'], isValidId).None?
    ensures var after := LikedAsWritten(LonerStore(prefix + ['a']), prefix + ['a'], prefix + ['A']);
      && prefix + ['a'] in after[prefix + ['a']].likes
      && prefix + ['a'] !in after[prefix + ['a']].matches
      && !Consistent(after)
  {
    var me, spelling := prefix + ['a'], prefix + ['A'];
    SpellingsResolve(prefix);
    ExampleStoresConsistent(me, prefix + ['b']);
    SelfLikeBreaksConsistency(LonerStore(me), me, spelling, isValidId);
  }

  /** The mutual like as written on a concrete store: the user "…a",
      liked by "…b", answers through "…B" and no match is made. */
  lemma MutualLikeWithoutMatchAsWritten(prefix: string, isValidId: string -> bool)
    requires IsCanonical(prefix) && isValidId(prefix + ['B'])
    ensures Consistent(LikedByStore(prefix + ['a'], prefix + ['b']))
    ensures LikeGuardAsWritten(LikedByStore(prefix + ['a'], prefix + ['b']), prefix + ['a'], prefix + ['B'], isValidId).None?
    ensures var after := LikedAsWritten(LikedByStore(prefix + ['a'], prefix + ['b']), prefix + ['a'], prefix + ['B']);
      && prefix + ['b'] in after[prefix + ['a']].likes
      && prefix + ['a'] in after[prefix + ['b']].likes
      && prefix + ['b'] !in after[prefix + ['a']].matches
      && !Consistent(after)
  {
    var me, other, spelling := prefix + ['a'], prefix + ['b'], prefix + ['B'];
    SpellingsResolve(prefix);
    ExampleStoresConsistent(me, other);
    MutualLikeBreaksConsistency(LikedByStore(me, other), me, other, spelling, isValidId);
  }

  /** The intended handler compares ids after the cast, which is the model's
      like on `Canon(targetId)`: whatever the spelling, a self-like is
      refused, a match is made exactly when the like is mutual, and the store
      stays consistent. */
  lemma CanonicalLikeKeepsConsistency(users: map<UserId, User>, myId: UserId, spelling: string, isValidId: string -> bool)
    requires Consistent(users)
    requires LikeGuard(users, myId, Canon(spelling), isValidId).None?
    ensures Canon(spelling) != myId
    ensures CompletesMatch(users, myId, Canon(spelling)) <==> myId in users[Canon(spelling)].likes
    ensures Consistent(Liked(users, myId, Canon(spelling)))
  {
    LikePreservesConsistency(users, myId, Canon(spelling));
    LikeMatchesExactlyWhenMutual(users, myId, Canon(spelling));
  }
}
