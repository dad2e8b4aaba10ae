/** Posts and the home feed of dating.controllers.ts: creating a post, the
    feed of unseen posts by other users (newest first, twenty at most) and
    marking a post as seen. */
module Feed {
  import opened Schemas
  import opened Store
  import opened Sorting

  /** `.limit(20)` of the feed query. */
  const FeedLimit: nat := 20

  datatype FeedError = EmptyPost | InvalidPostId | UserNotFound

  /** JavaScript truthiness of an optional string: present and non-empty. */
  predicate Truthy(s: Option<string>)
  {
    s.Some? && s.value != ""
  }

  /** `createPostController`: a post needs text or an image; missing text is
      stored as '' and an empty image as no image. */
  method CreatePost(db: Database, userId: UserId, content: Option<string>, image: Option<string>, newId: PostId, now: int)
    returns (r: Result<Post, FeedError>)
    modifies db`posts
    ensures r.Err? <==> !Truthy(content) && !Truthy(image)
    ensures r.Err? ==> r.error == EmptyPost && db.posts == old(db.posts)
    ensures r.Ok? ==> && r.value == Post(newId, userId, if Truthy(content) then content.value else "",
                                         if Truthy(image) then image else None, now)
                      && db.posts == old(db.posts) + [r.value]
  {
    if !Truthy(content) && !Truthy(image) {
      return Err(EmptyPost);
    }
    var post := Post(newId, userId, if Truthy(content) then content.value else "", if Truthy(image) then image else None, now);
    db.posts := db.posts + [post];
    return Ok(post);
  }

  /** A post the feed may show to `me`: not seen, and not `me`'s own. */
  predicate Eligible(p: Post, me: UserId, seen: set<PostId>)
  {
    p.id !in seen && p.user != me
  }

  /** The feed query's filter, in stored order. */
  function EligiblePosts(posts: seq<Post>, me: UserId, seen: set<PostId>): (r: seq<Post>)
    ensures forall p :: p in r <==> p in posts && Eligible(p, me, seen)
  {
    if posts == [] then []
    else
      var rest := EligiblePosts(posts[1..], me, seen);
      assert forall p :: p in posts <==> p == posts[0] || p in posts[1..];
      if Eligible(posts[0], me, seen) then [posts[0]] + rest else rest
  }

  /** `.sort({ createdAt: -1 })`. */
  predicate NewerFirst(x: Post, y: Post)
  {
    x.createdAt >= y.createdAt
  }

  function Take<T>(s: seq<T>, n: nat): seq<T>
  {
    if |s| <= n then s else s[..n]
  }

  /** `getFeedController`: 404 without a caller record, otherwise at most
      twenty stored posts, none of them the caller's own or already seen. */
  function GetFeed(users: map<UserId, User>, posts: seq<Post>, me: UserId): (r: Result<seq<Post>, FeedError>)
    ensures r.Err? <==> me !in users
    ensures r.Err? ==> r.error == UserNotFound
    ensures r.Ok? ==> |r.value| <= FeedLimit
                      && forall p :: p in r.value ==> p in posts && Eligible(p, me, users[me].seenPosts)
  {
    if me !in users then Err(UserNotFound)
    else
      var eligible := EligiblePosts(posts, me, users[me].seenPosts);
      var sorted := SortBy(NewerFirst, eligible);
      var feed := Take(sorted, FeedLimit);
      assert forall p :: p in feed ==> p in sorted;
      assert forall p :: p in sorted ==> p in multiset(sorted);
      assert forall p :: p in multiset(eligible) ==> p in eligible;
      Ok(feed)
  }

  lemma NewerFirstTotalPreorder()
    ensures TotalPreorder(NewerFirst)
  {
  }

  /** The feed holds only unseen posts by others, newest first, as many as
      there are up to twenty, and no left-out eligible post is newer than a
      post it shows. */
  lemma FeedCorrect(users: map<UserId, User>, posts: seq<Post>, me: UserId)
    requires me in users
    ensures var eligible := EligiblePosts(posts, me, users[me].seenPosts);
      var feed := GetFeed(users, posts, me).value;
      && GetFeed(users, posts, me).Ok?
      && (forall p :: p in feed ==> p in posts && p.id !in users[me].seenPosts && p.user != me)
      && |feed| == (if |eligible| < FeedLimit then |eligible| else FeedLimit)
      && (forall i, j :: 0 <= i < j < |feed| ==> feed[i].createdAt >= feed[j].createdAt)
      && (forall p, q :: p in eligible && p !in feed && q in feed ==> q.createdAt >= p.createdAt)
  {
    var seen := users[me].seenPosts;
    var eligible := EligiblePosts(posts, me, seen);
    var sorted := SortBy(NewerFirst, eligible);
    var feed := Take(sorted, FeedLimit);
    assert GetFeed(users, posts, me) == Ok(feed);
    NewerFirstTotalPreorder();
    SortBySorted(NewerFirst, eligible);
    SameElements(sorted, eligible);
    TakeSortedPrefix(sorted, FeedLimit);
    assert |sorted| == |multiset(sorted)| == |multiset(eligible)| == |eligible|;
    assert forall p :: p in feed ==> p in eligible;
  }

  /** Two sequences with the same multiset hold the same elements. */
  lemma SameElements(s: seq<Post>, t: seq<Post>)
    requires multiset(s) == multiset(t)
    ensures forall p :: p in s <==> p in t
  {
    forall p ensures p in s <==> p in t {
      assert p in s <==> p in multiset(s);
      assert p in t <==> p in multiset(t);
    }
  }

  /** The first n posts of a newest-first sequence are newest first, and none
      of the posts after them is newer than one of them. */
  lemma TakeSortedPrefix(sorted: seq<Post>, n: nat)
    requires SortedBy(NewerFirst, sorted)
    ensures var feed := Take(sorted, n);
      && |feed| == (if |sorted| < n then |sorted| else n)
      && (forall p :: p in feed ==> p in sorted)
      && (forall i, j :: 0 <= i < j < |feed| ==> feed[i].createdAt >= feed[j].createdAt)
      && (forall p, q :: p in sorted && p !in feed && q in feed ==> q.createdAt >= p.createdAt)
  {
    var feed := Take(sorted, n);
    assert forall i :: 0 <= i < |feed| ==> feed[i] == sorted[i];
    forall p, q | p in sorted && p !in feed && q in feed
      ensures q.createdAt >= p.createdAt
    {
      var k :| 0 <= k < |sorted| && sorted[k] == p;
      var i :| 0 <= i < |feed| && feed[i] == q;
      assert k >= |feed|;
    }
  }

  /** `markPostAsSeenController`: add the post to the caller's seen set; a
      missing caller record is left as it is (the update matches nothing). */
  method MarkSeen(db: Database, me: UserId, postId: PostId, isValidId: string -> bool) returns (r: Result<(), FeedError>)
    modifies db`users
    ensures !isValidId(postId) ==> r == Err(InvalidPostId) && db.users == old(db.users)
    ensures isValidId(postId) ==> && r == Ok(())
                                  && db.users == MarkedSeen(old(db.users), me, postId)
  {
    if !isValidId(postId) {
      return Err(InvalidPostId);
    }
    if me in db.users {
      db.users := db.users[me := db.users[me].(seenPosts := db.users[me].seenPosts + {postId})];
    }
    return Ok(());
  }

  function MarkedSeen(users: map<UserId, User>, me: UserId, postId: PostId): map<UserId, User>
  {
    if me in users then users[me := users[me].(seenPosts := users[me].seenPosts + {postId})] else users
  }

  /** Marking a post seen twice is marking it once. */
  lemma MarkSeenIdempotent(users: map<UserId, User>, me: UserId, postId: PostId)
    ensures MarkedSeen(MarkedSeen(users, me, postId), me, postId) == MarkedSeen(users, me, postId)
  {
    if me in users {
      var u := users[me];
      assert u.seenPosts + {postId} + {postId} == u.seenPosts + {postId};
    }
  }

  /** A post marked seen never shows in the caller's feed again, while other
      users' feeds are unaffected. */
  lemma SeenPostLeavesFeed(users: map<UserId, User>, posts: seq<Post>, me: UserId, postId: PostId, other: UserId)
    requires me in users
    ensures var after := MarkedSeen(users, me, postId);
      && GetFeed(after, posts, me).Ok?
      && (forall p :: p in GetFeed(after, posts, me).value ==> p.id != postId)
      && (other != me ==> GetFeed(after, posts, other) == GetFeed(users, posts, other))
  {
    var after := MarkedSeen(users, me, postId);
    FeedCorrect(after, posts, me);
    if other != me {
      assert other in after <==> other in users;
      if other in users {
        assert after[other] == users[other];
      }
    }
  }
}
