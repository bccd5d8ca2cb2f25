/** Posts, likes and comments (`Post` in database/models.py): creating a
    post, counting a user's posts, the viewer-relative feed and profile
    listings, the like toggle, and comments. */
module Posts {
  import opened Wrappers
  import opened Schema
  import opened Query
  import Users

  function AuthorOf(p: Post): nat { p.author }
  function CommentAuthor(c: Comment): nat { c.author }

  // ---------------------------------------------------------------------
  // Creating and counting posts

  /** `Post.create`: inserts a post whose stored `likes_count` takes its
      DEFAULT 0. A NULL content breaks the NOT NULL column. */
  function Create(db: Db, author: nat, content: Option<string>, image: Option<string>,
                  now: nat): (r: Step<Result<nat>>)
    ensures r.out.IntegrityError? <==> content.None?
    ensures r.out.IntegrityError? ==> r.db == db
    ensures r.out.Ok? ==>
      && r.db.posts == db.posts + [Post(r.out.value, author, content.value, image, 0, now)]
      && r.db == db.(posts := r.db.posts, postSeq := r.out.value)
    ensures Valid(db) && r.out.Ok? ==> forall p :: p in db.posts ==> p.id < r.out.value
    ensures Valid(db) ==> Valid(r.db)
  {
    if content.None? then Step(db, IntegrityError)
    else
      var id := db.postSeq + 1;
      var row := Post(id, author, content.value, image, 0, now);
      AppendKeepsIdsAscending(db.posts, PostId, db.postSeq, row);
      Step(db.(posts := db.posts + [row], postSeq := id), Ok(id))
  }

  /** The posts whose author is `user`, in rowid order. */
  function PostsBy(posts: seq<Post>, user: nat): (r: seq<Post>)
    ensures forall p :: p in r <==> p in posts && p.author == user
    ensures Distinct(posts) ==> Distinct(r)
    ensures |r| <= |posts|
  {
    if |posts| == 0 then []
    else
      assert Distinct(posts) ==> Distinct(posts[1..]) && posts[0] !in posts[1..] by {
        if Distinct(posts) { DistinctTail(posts); }
      }
      if posts[0].author == user then [posts[0]] + PostsBy(posts[1..], user)
      else PostsBy(posts[1..], user)
  }

  lemma {:induction false} PostsByAppend(posts: seq<Post>, p: Post, user: nat)
    ensures PostsBy(posts + [p], user) == PostsBy(posts, user) + (if p.author == user then [p] else [])
  {
    if |posts| == 0 {
    } else {
      assert (posts + [p])[1..] == posts[1..] + [p];
      PostsByAppend(posts[1..], p, user);
    }
  }

  /** `Post.count_by_user`: `COUNT(*)` of the user's posts (no join). */
  function CountByUser(db: Db, user: nat): (n: nat)
    ensures n <= |db.posts|
    ensures n == 0 <==> forall p :: p in db.posts ==> p.author != user
    ensures Valid(db) ==> n == |set p | p in db.posts && p.author == user|
  {
    var mine := PostsBy(db.posts, user);
    assert |mine| == 0 <== forall p :: p in db.posts ==> p.author != user by {
      if |mine| > 0 { assert mine[0] in mine; }
    }
    assert Valid(db) ==> |mine| == |set p | p in db.posts && p.author == user| by {
      if Valid(db) {
        IdsAscendingDistinct(db.posts, PostId, db.postSeq);
        DistinctCard(mine);
        assert (set p | p in mine) == (set p | p in db.posts && p.author == user);
      }
    }
    |mine|
  }

  /** Creating a post adds one to its author's post count and to no one
      else's. */
  lemma CreateCountsOnce(db: Db, author: nat, content: Option<string>, image: Option<string>,
                         now: nat, user: nat)
    requires content.Some?
    ensures var r := Create(db, author, content, image, now);
      CountByUser(r.db, user) == CountByUser(db, user) + (if user == author then 1 else 0)
  {
    var r := Create(db, author, content, image, now);
    PostsByAppend(db.posts, r.db.posts[|db.posts|], user);
    assert r.db.posts == db.posts + [r.db.posts[|db.posts|]];
  }

  // ---------------------------------------------------------------------
  // Counting likes and comments

  /** `SELECT COUNT(*) FROM likes WHERE post_id = post`. */
  function LikeCount(likes: seq<Like>, post: nat): nat {
    if |likes| == 0 then 0
    else (if likes[0].postId == post then 1 else 0) + LikeCount(likes[1..], post)
  }

  /** `SELECT COUNT(*) FROM comments WHERE post_id = post`. */
  function CommentCount(comments: seq<Comment>, post: nat): nat {
    if |comments| == 0 then 0
    else (if comments[0].postId == post then 1 else 0) + CommentCount(comments[1..], post)
  }

  lemma {:induction false} LikeCountAppend(likes: seq<Like>, l: Like, post: nat)
    ensures LikeCount(likes + [l], post) == LikeCount(likes, post) + (if l.postId == post then 1 else 0)
  {
    if |likes| == 0 {
    } else {
      assert (likes + [l])[1..] == likes[1..] + [l];
      LikeCountAppend(likes[1..], l, post);
    }
  }

  /** A post no like row names has no likes. */
  lemma {:induction false} NoRowsNoLikes(likes: seq<Like>, post: nat)
    requires forall l :: l in likes ==> l.postId != post
    ensures LikeCount(likes, post) == 0
    ensures forall u :: !HasLike(likes, post, u)
  {
    if |likes| > 0 {
      assert likes[0] in likes;
      NoRowsNoLikes(likes[1..], post);
    }
  }

  lemma {:induction false} CommentCountAppend(comments: seq<Comment>, c: Comment, post: nat)
    ensures CommentCount(comments + [c], post) == CommentCount(comments, post) + (if c.postId == post then 1 else 0)
  {
    if |comments| == 0 {
    } else {
      assert (comments + [c])[1..] == comments[1..] + [c];
      CommentCountAppend(comments[1..], c, post);
    }
  }

  // ---------------------------------------------------------------------
  // The like toggle

  /** `DELETE FROM likes WHERE post_id = post AND user_id = user`. */
  function WithoutPair(likes: seq<Like>, post: nat, user: nat): (r: seq<Like>)
    ensures forall l :: l in r <==> l in likes && !(l.postId == post && l.userId == user)
  {
    if |likes| == 0 then []
    else if likes[0].postId == post && likes[0].userId == user then WithoutPair(likes[1..], post, user)
    else [likes[0]] + WithoutPair(likes[1..], post, user)
  }

  /** Deleting the pair's rows removes exactly one like from its post when
      the pair is liked (UNIQUE allows only one row) and none from any
      other post. */
  lemma {:induction false} LikeCountWithout(likes: seq<Like>, post: nat, user: nat, q: nat)
    requires UniquePairs(likes)
    ensures LikeCount(WithoutPair(likes, post, user), q) + (if q == post && HasLike(likes, post, user) then 1 else 0)
            == LikeCount(likes, q)
  {
    if |likes| == 0 {
    } else {
      LikeCountWithout(likes[1..], post, user, q);
      assert likes[0] in likes;
      if likes[0].postId == post && likes[0].userId == user {
        assert !HasLike(likes[1..], post, user);
      } else {
        assert [likes[0]] + WithoutPair(likes[1..], post, user) == WithoutPair(likes, post, user);
        assert HasLike(likes, post, user) ==> HasLike(likes[1..], post, user) by {
          if HasLike(likes, post, user) {
            var l :| l in likes && l.postId == post && l.userId == user;
            assert l != likes[0];
            assert l in likes[1..];
          }
        }
      }
    }
  }

  lemma {:induction false} WithoutPairKeepsUnique(likes: seq<Like>, post: nat, user: nat)
    requires UniquePairs(likes)
    ensures UniquePairs(WithoutPair(likes, post, user))
  {
    if |likes| == 0 {
    } else {
      WithoutPairKeepsUnique(likes[1..], post, user);
      var rest := WithoutPair(likes[1..], post, user);
      if !(likes[0].postId == post && likes[0].userId == user) {
        var r := [likes[0]] + rest;
        assert r[1..] == rest;
        assert !HasLike(rest, likes[0].postId, likes[0].userId);
      }
    }
  }

  /** The DELETE keeps the surviving rows in rowid order, so their ids stay
      ascending. */
  lemma {:induction false} WithoutPairKeepsIds(likes: seq<Like>, post: nat, user: nat, last: nat)
    requires IdsAscending(likes, LikeId, last)
    ensures IdsAscending(WithoutPair(likes, post, user), LikeId, last)
  {
    if |likes| > 0 {
      IdsAscendingTail(likes, LikeId, last);
      WithoutPairKeepsIds(likes[1..], post, user, last);
      if !(likes[0].postId == post && likes[0].userId == user) {
        assert likes[0] in likes;
        ConsKeepsIdsAscending(likes[0], WithoutPair(likes[1..], post, user), LikeId, last);
      }
    }
  }

  lemma {:induction false} WithoutAbsentPair(likes: seq<Like>, post: nat, user: nat)
    requires !HasLike(likes, post, user)
    ensures WithoutPair(likes, post, user) == likes
  {
    if |likes| == 0 {
    } else {
      assert likes[0] in likes;
      assert !HasLike(likes[1..], post, user);
      WithoutAbsentPair(likes[1..], post, user);
      assert likes == [likes[0]] + likes[1..];
    }
  }

  lemma {:induction false} WithoutPairAppend(likes: seq<Like>, l: Like)
    ensures WithoutPair(likes + [l], l.postId, l.userId) == WithoutPair(likes, l.postId, l.userId)
  {
    if |likes| == 0 {
    } else {
      assert (likes + [l])[1..] == likes[1..] + [l];
      WithoutPairAppend(likes[1..], l);
    }
  }

  lemma {:induction false} AppendKeepsUnique(likes: seq<Like>, l: Like)
    requires UniquePairs(likes)
    requires !HasLike(likes, l.postId, l.userId)
    ensures UniquePairs(likes + [l])
  {
    if |likes| == 0 {
      assert (likes + [l])[1..] == [];
    } else {
      var s := likes + [l];
      assert s[1..] == likes[1..] + [l];
      assert likes[0] in likes;
      assert !HasLike(likes[1..], l.postId, l.userId);
      AppendKeepsUnique(likes[1..], l);
      assert !HasLike(s[1..], likes[0].postId, likes[0].userId);
    }
  }

  /** Which way `toggle_like` went. */
  datatype LikeAction = Liked | Unliked

  /** What `toggle_like` returns: `{'action': …, 'count': …}`. */
  datatype Toggled = Toggled(action: LikeAction, count: nat)

  /** `Post.toggle_like`: deletes the `(post, user)` like if there is one,
      inserts it otherwise, then counts the post's like rows afresh. No
      notification is created and the stored `likes_count` is left alone. */
  function ToggleLike(db: Db, post: nat, user: nat, now: nat): (r: Step<Toggled>)
    ensures r.out.action == (if HasLike(db.likes, post, user) then Unliked else Liked)
    ensures HasLike(r.db.likes, post, user) <==> r.out.action == Liked
    ensures forall l: Like :: l.postId != post || l.userId != user ==> (l in r.db.likes <==> l in db.likes)
    ensures r.out.count == LikeCount(r.db.likes, post)
    ensures r.out.action == Liked ==> r.out.count == LikeCount(db.likes, post) + 1
    ensures UniquePairs(db.likes) && r.out.action == Unliked ==> r.out.count + 1 == LikeCount(db.likes, post)
    ensures r.db == db.(likes := r.db.likes, likeSeq := r.db.likeSeq)
    ensures Valid(db) ==> Valid(r.db)
  {
    if HasLike(db.likes, post, user) then
      var likes := WithoutPair(db.likes, post, user);
      assert UniquePairs(db.likes) ==>
          LikeCount(likes, post) + 1 == LikeCount(db.likes, post) && UniquePairs(likes) by {
        if UniquePairs(db.likes) {
          LikeCountWithout(db.likes, post, user, post);
          WithoutPairKeepsUnique(db.likes, post, user);
        }
      }
      assert IdsAscending(db.likes, LikeId, db.likeSeq) ==> IdsAscending(likes, LikeId, db.likeSeq) by {
        if IdsAscending(db.likes, LikeId, db.likeSeq) { WithoutPairKeepsIds(db.likes, post, user, db.likeSeq); }
      }
      Step(db.(likes := likes), Toggled(Unliked, LikeCount(likes, post)))
    else
      var row := Like(db.likeSeq + 1, post, user, now);
      var likes := db.likes + [row];
      LikeCountAppend(db.likes, row, post);
      AppendKeepsIdsAscending(db.likes, LikeId, db.likeSeq, row);
      assert UniquePairs(db.likes) ==> UniquePairs(likes) by {
        if UniquePairs(db.likes) { AppendKeepsUnique(db.likes, row); }
      }
      assert row in likes;
      Step(db.(likes := likes, likeSeq := db.likeSeq + 1), Toggled(Liked, LikeCount(likes, post)))
  }

  /** Toggling the same pair twice flips the action and restores which
      pairs are liked. */
  lemma ToggleTwiceRestoresPairs(db: Db, post: nat, user: nat, t1: nat, t2: nat)
    ensures var s1 := ToggleLike(db, post, user, t1);
      var s2 := ToggleLike(s1.db, post, user, t2);
      && s2.out.action != s1.out.action
      && (forall p, u :: HasLike(s2.db.likes, p, u) <==> HasLike(db.likes, p, u))
  {
    var s1 := ToggleLike(db, post, user, t1);
    var s2 := ToggleLike(s1.db, post, user, t2);
    forall p, u ensures HasLike(s2.db.likes, p, u) <==> HasLike(db.likes, p, u) {
      if HasLike(db.likes, p, u) {
        var l :| l in db.likes && l.postId == p && l.userId == u;
        if !(p == post && u == user) {
          assert l in s2.db.likes;
        }
      }
      if HasLike(s2.db.likes, p, u) {
        var l :| l in s2.db.likes && l.postId == p && l.userId == u;
        if !(p == post && u == user) {
          assert l in db.likes;
        }
      }
    }
  }

  /** Under the UNIQUE constraint, toggling the same pair twice restores
      every post's like count, and the second toggle reports the original
      count. */
  lemma ToggleTwiceRestoresCounts(db: Db, post: nat, user: nat, t1: nat, t2: nat)
    requires UniquePairs(db.likes)
    ensures var s1 := ToggleLike(db, post, user, t1);
      var s2 := ToggleLike(s1.db, post, user, t2);
      && (forall q :: LikeCount(s2.db.likes, q) == LikeCount(db.likes, q))
      && s2.out.count == LikeCount(db.likes, post)
  {
    var s1 := ToggleLike(db, post, user, t1);
    var s2 := ToggleLike(s1.db, post, user, t2);
    if HasLike(db.likes, post, user) {
      var row := Like(s1.db.likeSeq + 1, post, user, t2);
      assert s2.db.likes == s1.db.likes + [row];
      forall q ensures LikeCount(s2.db.likes, q) == LikeCount(db.likes, q) {
        LikeCountAppend(s1.db.likes, row, q);
        LikeCountWithout(db.likes, post, user, q);
      }
    } else {
      ToggleTwiceRestoresRows(db, post, user, t1, t2);
    }
  }

  /** Liking and then unliking a pair gives back exactly the like rows the
      store started with. */
  lemma ToggleTwiceRestoresRows(db: Db, post: nat, user: nat, t1: nat, t2: nat)
    requires !HasLike(db.likes, post, user)
    ensures var s1 := ToggleLike(db, post, user, t1);
      ToggleLike(s1.db, post, user, t2).db.likes == db.likes
  {
    var s1 := ToggleLike(db, post, user, t1);
    var row := Like(db.likeSeq + 1, post, user, t1);
    assert s1.db.likes == db.likes + [row];
    assert row in s1.db.likes;
    assert ToggleLike(s1.db, post, user, t2).db.likes == WithoutPair(s1.db.likes, post, user);
    WithoutPairAppend(db.likes, row);
    WithoutAbsentPair(db.likes, post, user);
  }

  // ---------------------------------------------------------------------
  // Feed and profile listings

  /** One row of `get_feed` / `get_by_user`: the post, its author's users
      row (for `username`, `full_name`, `profile_pic`) and the three derived
      columns. */
  datatype FeedItem = FeedItem(post: Post, author: User, likesCount: nat, commentsCount: nat, userLiked: bool)

  /** The derived columns of an item are the live counts at read time and
      whether `liker` has a like row on the post. */
  predicate Live(db: Db, liker: nat, it: FeedItem) {
    && it.likesCount == LikeCount(db.likes, it.post.id)
    && it.commentsCount == CommentCount(db.comments, it.post.id)
    && (it.userLiked <==> HasLike(db.likes, it.post.id, liker))
  }

  /** The item for a joined post, its counts computed by the subqueries. */
  function Item(db: Db, liker: nat, j: Joined<Post>): FeedItem {
    FeedItem(j.row, j.author, LikeCount(db.likes, j.row.id), CommentCount(db.comments, j.row.id),
             HasLike(db.likes, j.row.id, liker))
  }

  function Items(db: Db, liker: nat, js: seq<Joined<Post>>): (r: seq<FeedItem>)
    ensures |r| == |js|
    ensures forall i :: 0 <= i < |js| ==> r[i] == Item(db, liker, js[i])
  {
    seq(|js|, i requires 0 <= i < |js| => Item(db, liker, js[i]))
  }

  /** `ORDER BY created_at DESC` as an ascending sort key. */
  function NewestFirst(it: FeedItem): int { Descending(it.post.createdAt) }

  /** The posts of `rows` that survive the join with `users`. */
  function Joinable(db: Db, rows: seq<Post>): seq<Joined<Post>> {
    Join(rows, db.users, AuthorOf)
  }

  /** The query shared by the feed and the profile listing: `rows` joined
      with their authors, annotated relative to `liker`, newest first, cut
      to `limit`. */
  function Listing(db: Db, rows: seq<Post>, liker: nat, limit: int): (r: seq<FeedItem>)
    ensures |r| == LimitCount(limit, |Joinable(db, rows)|)
    ensures forall it :: it in r ==> it.post in rows && FindUser(db.users, it.post.author) == Some(it.author)
    ensures forall it :: it in r ==> Live(db, liker, it)
    ensures forall i, j :: 0 <= i < j < |r| ==> r[i].post.createdAt >= r[j].post.createdAt
    ensures forall p, it :: (p in rows && FindUser(db.users, p.author).Some? && it in r &&
                             p.createdAt > it.post.createdAt) ==>
              Item(db, liker, Joined(p, FindUser(db.users, p.author).value)) in r
    ensures LimitCount(limit, |Joinable(db, rows)|) == |Joinable(db, rows)| ==>
              forall p :: p in rows && FindUser(db.users, p.author).Some? ==>
                Item(db, liker, Joined(p, FindUser(db.users, p.author).value)) in r
    ensures Distinct(rows) ==> forall i, j :: 0 <= i < j < |r| ==> r[i].post != r[j].post
  {
    var js := Joinable(db, rows);
    var items := Items(db, liker, js);
    ItemsOfJoin(db, rows, liker, items);
    var r := TopBy(items, NewestFirst, limit);
    TopOnce(db, rows, liker, items, r);
    NewestFirstOrder(r);
    TopKeepsNewer(db, rows, liker, items, r);
    if |r| == |items| then
      AllKept(items, r);
      r
    else r
  }

  /** The items built from a join are the live items of joinable posts, and
      every joinable post has one. */
  lemma ItemsOfJoin(db: Db, rows: seq<Post>, liker: nat, items: seq<FeedItem>)
    requires items == Items(db, liker, Joinable(db, rows))
    ensures forall it :: it in items ==>
      it.post in rows && FindUser(db.users, it.post.author) == Some(it.author) && Live(db, liker, it)
    ensures forall p :: p in rows && FindUser(db.users, p.author).Some? ==>
      Item(db, liker, Joined(p, FindUser(db.users, p.author).value)) in items
  {
    var js := Joinable(db, rows);
    forall p | p in rows && FindUser(db.users, p.author).Some?
      ensures Item(db, liker, Joined(p, FindUser(db.users, p.author).value)) in items
    {
      var j := Joined(p, FindUser(db.users, p.author).value);
      assert j in js;
      var k :| 0 <= k < |js| && js[k] == j;
      assert items[k] == Item(db, liker, j);
    }
    forall it | it in items
      ensures it.post in rows && FindUser(db.users, it.post.author) == Some(it.author) && Live(db, liker, it)
    {
      var k :| 0 <= k < |items| && items[k] == it;
      assert js[k] in js;
    }
  }

  lemma NewestFirstOrder(r: seq<FeedItem>)
    requires SortedBy(r, NewestFirst)
    ensures forall i, j :: 0 <= i < j < |r| ==> r[i].post.createdAt >= r[j].post.createdAt
  {
    forall i, j | 0 <= i < j < |r|
      ensures r[i].post.createdAt >= r[j].post.createdAt
    {
      assert NewestFirst(r[i]) <= NewestFirst(r[j]);
    }
  }

  function PostOf(it: FeedItem): Post { it.post }

  /** A cut of the items of distinct rows holds each post at most once. */
  lemma TopOnce(db: Db, rows: seq<Post>, liker: nat, items: seq<FeedItem>, r: seq<FeedItem>)
    requires items == Items(db, liker, Joinable(db, rows))
    requires multiset(r) <= multiset(items)
    ensures Distinct(rows) ==> forall i, j :: 0 <= i < j < |r| ==> r[i].post != r[j].post
  {
    if Distinct(rows) {
      var js := Joinable(db, rows);
      forall i, j | 0 <= i < j < |items| ensures PostOf(items[i]) != PostOf(items[j]) && items[i] != items[j] {
        assert items[i].post == js[i].row && items[j].post == js[j].row;
      }
      DistinctSub(items, r);
      forall x | x in r ensures x in items {
        assert x in multiset(r);
      }
      ProjectionDistinct(items, r, PostOf);
    }
  }

  function ItemId(it: FeedItem): nat { it.post.id }

  /** Over a valid store, a listing of stored rows shows each post id at
      most once. */
  lemma ListingOnce(db: Db, rows: seq<Post>, liker: nat, limit: int)
    requires forall p :: p in rows ==> p in db.posts
    requires Distinct(db.posts) ==> Distinct(rows)
    ensures Valid(db) ==> IdsDistinct(Listing(db, rows, liker, limit), ItemId)
  {
    if Valid(db) {
      IdsAscendingDistinct(db.posts, PostId, db.postSeq);
      var r := Listing(db, rows, liker, limit);
      forall i, j | 0 <= i < j < |r| ensures ItemId(r[i]) != ItemId(r[j]) {
        assert r[i] in r && r[j] in r;
        assert PostId(r[i].post) != PostId(r[j].post);
      }
    }
  }

  /** A joinable post newer than something the listing returned is itself
      returned: LIMIT cuts off only the oldest. */
  lemma TopKeepsNewer(db: Db, rows: seq<Post>, liker: nat, items: seq<FeedItem>, r: seq<FeedItem>)
    requires forall p :: p in rows && FindUser(db.users, p.author).Some? ==>
      Item(db, liker, Joined(p, FindUser(db.users, p.author).value)) in items
    requires forall x, y :: x in multiset(items) - multiset(r) && y in r ==> NewestFirst(y) <= NewestFirst(x)
    ensures forall p, it :: (p in rows && FindUser(db.users, p.author).Some? && it in r &&
                             p.createdAt > it.post.createdAt) ==>
              Item(db, liker, Joined(p, FindUser(db.users, p.author).value)) in r
  {
    forall p, it | p in rows && FindUser(db.users, p.author).Some? && it in r && p.createdAt > it.post.createdAt
      ensures Item(db, liker, Joined(p, FindUser(db.users, p.author).value)) in r
    {
      var x := Item(db, liker, Joined(p, FindUser(db.users, p.author).value));
      assert x in multiset(items);
      assert NewestFirst(it) > NewestFirst(x);
    }
  }

  /** `Post.get_feed(user_id, limit)`: every post whose author row exists
      (no friendship filter), annotated for `viewer`. */
  function GetFeed(db: Db, viewer: nat, limit: int): (r: seq<FeedItem>)
    ensures |r| == LimitCount(limit, |Joinable(db, db.posts)|)
    ensures forall it :: it in r ==> it.post in db.posts && FindUser(db.users, it.post.author) == Some(it.author)
    ensures forall it :: it in r ==> Live(db, viewer, it)
    ensures forall i, j :: 0 <= i < j < |r| ==> r[i].post.createdAt >= r[j].post.createdAt
    ensures forall p, it :: (p in db.posts && FindUser(db.users, p.author).Some? && it in r &&
                             p.createdAt > it.post.createdAt) ==>
              Item(db, viewer, Joined(p, FindUser(db.users, p.author).value)) in r
    ensures LimitCount(limit, |Joinable(db, db.posts)|) == |Joinable(db, db.posts)| ==>
              forall p :: p in db.posts && FindUser(db.users, p.author).Some? ==>
                Item(db, viewer, Joined(p, FindUser(db.users, p.author).value)) in r
    ensures Valid(db) ==> IdsDistinct(r, ItemId)
  {
    ListingOnce(db, db.posts, viewer, limit);
    Listing(db, db.posts, viewer, limit)
  }

  /** `Post.get_by_user(user_id, limit)`: that user's posts. `user_liked`
      is computed against the author's own id, since the query has no
      viewer. */
  function GetByUser(db: Db, user: nat, limit: int): (r: seq<FeedItem>)
    ensures |r| == LimitCount(limit, |Joinable(db, PostsBy(db.posts, user))|)
    ensures forall it :: it in r ==> it.post in db.posts && it.post.author == user
                                     && FindUser(db.users, user) == Some(it.author)
    ensures forall it :: it in r ==> Live(db, user, it)
    ensures forall i, j :: 0 <= i < j < |r| ==> r[i].post.createdAt >= r[j].post.createdAt
    ensures FindUser(db.users, user).None? ==> r == []
    ensures forall p, it :: (p in db.posts && p.author == user && it in r &&
                             p.createdAt > it.post.createdAt) ==>
              Item(db, user, Joined(p, it.author)) in r
    ensures LimitCount(limit, |Joinable(db, PostsBy(db.posts, user))|) == |Joinable(db, PostsBy(db.posts, user))| ==>
              forall p :: p in db.posts && p.author == user && FindUser(db.users, user).Some? ==>
                Item(db, user, Joined(p, FindUser(db.users, user).value)) in r
    ensures Valid(db) ==> IdsDistinct(r, ItemId)
  {
    ListingOnce(db, PostsBy(db.posts, user), user, limit);
    Listing(db, PostsBy(db.posts, user), user, limit)
  }

  /** After a toggle, the feed shows every viewer the count the toggle
      returned, and shows the toggling user the new liked state. */
  lemma FeedAgreesWithToggle(db: Db, post: nat, user: nat, now: nat, viewer: nat, limit: int)
    ensures var s := ToggleLike(db, post, user, now);
      forall it :: it in GetFeed(s.db, viewer, limit) && it.post.id == post ==>
        && it.likesCount == s.out.count
        && (viewer == user ==> (it.userLiked <==> s.out.action == Liked))
  {
  }

  // ---------------------------------------------------------------------
  // The feed as written

  /** The feed row as the Python code builds it. `SELECT p.*, …,
      (SELECT COUNT(*) …) as likes_count` yields two columns named
      `likes_count`; `dict(row)` looks each key up by name, and
      `sqlite3.Row` returns the FIRST column of that name, which is the
      stored `p.likes_count`. */
  function ItemAsWritten(db: Db, liker: nat, j: Joined<Post>): FeedItem {
    FeedItem(j.row, j.author, j.row.likesCount, CommentCount(db.comments, j.row.id),
             HasLike(db.likes, j.row.id, liker))
  }

  function ItemsAsWritten(db: Db, liker: nat, js: seq<Joined<Post>>): (r: seq<FeedItem>)
    ensures |r| == |js|
    ensures forall i :: 0 <= i < |js| ==> r[i] == ItemAsWritten(db, liker, js[i])
  {
    seq(|js|, i requires 0 <= i < |js| => ItemAsWritten(db, liker, js[i]))
  }

  /** A listed item as the source reports it: the stored `likes_count`
      column in place of the live count. */
  function StoredCount(it: FeedItem): FeedItem {
    it.(likesCount := it.post.likesCount)
  }

  /** `Listing` as written: the same rows in the same order, with the
      stored `likes_count` in place of the live count. */
  function ListingAsWritten(db: Db, rows: seq<Post>, liker: nat, limit: int): (r: seq<FeedItem>)
    ensures |r| == LimitCount(limit, |Joinable(db, rows)|)
    ensures forall it :: it in r ==> it.post in rows && it.likesCount == it.post.likesCount
    ensures forall i :: 0 <= i < |r| ==> r[i] == StoredCount(Listing(db, rows, liker, limit)[i])
  {
    AsWrittenIsListing(db, rows, liker, limit);
    TopBy(ItemsAsWritten(db, liker, Joinable(db, rows)), NewestFirst, limit)
  }

  /** The as-written listing is the corrected one with every item's count
      replaced by the stored column: storing the count keeps the
      `created_at` order key, so ORDER BY and LIMIT pick the same rows. */
  lemma AsWrittenIsListing(db: Db, rows: seq<Post>, liker: nat, limit: int)
    ensures var a := TopBy(ItemsAsWritten(db, liker, Joinable(db, rows)), NewestFirst, limit);
            var l := Listing(db, rows, liker, limit);
            |a| == |l| && forall i :: 0 <= i < |l| ==> a[i] == l[i].(likesCount := l[i].post.likesCount)
  {
    var js := Joinable(db, rows);
    var items := Items(db, liker, js);
    assert ItemsAsWritten(db, liker, js) == Map(items, StoredCount);
    assert KeepsKey(StoredCount, NewestFirst);
    TopMap(items, NewestFirst, limit, StoredCount);
  }

  /** `Post.get_feed` as written: the corrected feed, row for row, with the
      stored count. */
  function GetFeedAsWritten(db: Db, viewer: nat, limit: int): (r: seq<FeedItem>)
    ensures |r| == LimitCount(limit, |Joinable(db, db.posts)|)
    ensures forall it :: it in r ==> it.post in db.posts && it.likesCount == it.post.likesCount
    ensures forall i :: 0 <= i < |r| ==> r[i] == StoredCount(GetFeed(db, viewer, limit)[i])
  {
    ListingAsWritten(db, db.posts, viewer, limit)
  }

  /** `Post.get_by_user` as written: the corrected profile listing, row for
      row, with the stored count. */
  function GetByUserAsWritten(db: Db, user: nat, limit: int): (r: seq<FeedItem>)
    ensures |r| == LimitCount(limit, |Joinable(db, PostsBy(db.posts, user))|)
    ensures forall it :: it in r ==> it.post in db.posts && it.post.author == user
                                     && it.likesCount == it.post.likesCount
    ensures forall i :: 0 <= i < |r| ==> r[i] == StoredCount(GetByUser(db, user, limit)[i])
  {
    ListingAsWritten(db, PostsBy(db.posts, user), user, limit)
  }

  /** In every store the operations can build, both listings as written
      report 0 likes on every post, whatever the likes table holds. */
  lemma AsWrittenReportsZero(db: Db, viewer: nat, limit: int)
    requires Valid(db)
    ensures forall it :: it in GetFeedAsWritten(db, viewer, limit) ==> it.likesCount == 0
    ensures forall it :: it in GetByUserAsWritten(db, viewer, limit) ==> it.likesCount == 0
  {
  }

  /** The counterexample store: user 1 registers on an empty store, posts,
      and likes the post. */
  function Registered(): Step<Option<nat>> {
    Users.Create(Empty, "ann", "ann@example.org", "h", "Ann", 0)
  }

  function Posted(): Step<Result<nat>> {
    Create(Registered().db, 1, Some("hello"), None, 10)
  }

  function LikedOwnPost(): Step<Toggled> {
    ToggleLike(Posted().db, 1, 1, 20)
  }

  lemma RegisteredFacts()
    ensures Registered().db == Empty.(users := [User(1, "ann", "ann@example.org", "h", "Ann", None, "default.jpg", 0)], userSeq := 1)
  {
    assert !Users.Taken(Empty.users, "ann", "ann@example.org");
  }

  lemma PostedFacts()
    ensures Posted().db.posts == [Post(1, 1, "hello", None, 0, 10)]
    ensures Posted().db.likes == []
    ensures Posted().db.users == Registered().db.users
  {
    RegisteredFacts();
  }

  lemma LikedOwnPostFacts()
    ensures LikedOwnPost().out == Toggled(Liked, 1)
    ensures LikedOwnPost().db.posts == [Post(1, 1, "hello", None, 0, 10)]
    ensures FindUser(LikedOwnPost().db.users, 1).Some?
    ensures |Joinable(LikedOwnPost().db, LikedOwnPost().db.posts)| == 1
    ensures PostsBy(LikedOwnPost().db.posts, 1) == LikedOwnPost().db.posts
  {
    RegisteredFacts();
    PostedFacts();
    var db := LikedOwnPost().db;
    var u := User(1, "ann", "ann@example.org", "h", "Ann", None, "default.jpg", 0);
    var post := Post(1, 1, "hello", None, 0, 10);
    assert db.users == [u];
    assert FindUser(db.users, 1) == Some(u);
    assert Joined(post, u) in Joinable(db, db.posts);
  }

  /** On that store the toggle answers count 1 and the corrected listings
      show 1 like, while both listings as written show 0. */
  lemma AsWrittenMissesLike()
    ensures var db := LikedOwnPost().db;
      && LikedOwnPost().out.count == 1
      && |GetFeed(db, 1, 50)| == 1 && GetFeed(db, 1, 50)[0].likesCount == 1
      && |GetByUser(db, 1, 50)| == 1 && GetByUser(db, 1, 50)[0].likesCount == 1
      && |GetFeedAsWritten(db, 1, 50)| == 1 && GetFeedAsWritten(db, 1, 50)[0].likesCount == 0
      && |GetByUserAsWritten(db, 1, 50)| == 1 && GetByUserAsWritten(db, 1, 50)[0].likesCount == 0
  {
    LikedOwnPostFacts();
    var db := LikedOwnPost().db;
    var f := GetFeed(db, 1, 50);
    assert f[0] in f;
    var b := GetByUser(db, 1, 50);
    assert b[0] in b;
    var g := GetFeedAsWritten(db, 1, 50);
    assert g[0] in g;
    var h := GetByUserAsWritten(db, 1, 50);
    assert h[0] in h;
  }

  // ---------------------------------------------------------------------
  // Comments

  /** `Post.add_comment`: inserts a comment; a NULL content breaks the
      NOT NULL column. Nothing checks that the post exists. */
  function AddComment(db: Db, post: nat, user: nat, content: Option<string>, now: nat): (r: Step<Result<nat>>)
    ensures r.out.IntegrityError? <==> content.None?
    ensures r.out.IntegrityError? ==> r.db == db
    ensures r.out.Ok? ==>
      && r.db.comments == db.comments + [Comment(r.out.value, post, user, content.value, now)]
      && r.db == db.(comments := r.db.comments, commentSeq := r.out.value)
    ensures r.out.Ok? ==> forall q :: CommentCount(r.db.comments, q) == CommentCount(db.comments, q) + (if q == post then 1 else 0)
    ensures Valid(db) && r.out.Ok? ==> forall c :: c in db.comments ==> c.id < r.out.value
    ensures Valid(db) ==> Valid(r.db)
  {
    if content.None? then Step(db, IntegrityError)
    else
      var id := db.commentSeq + 1;
      var row := Comment(id, post, user, content.value, now);
      AppendKeepsIdsAscending(db.comments, CommentId, db.commentSeq, row);
      assert forall q :: CommentCount(db.comments + [row], q) == CommentCount(db.comments, q) + (if q == post then 1 else 0) by {
        forall q ensures CommentCount(db.comments + [row], q) == CommentCount(db.comments, q) + (if q == post then 1 else 0) {
          CommentCountAppend(db.comments, row, q);
        }
      }
      Step(db.(comments := db.comments + [row], commentSeq := id), Ok(id))
  }

  /** The comments on `post`, in rowid order. */
  function CommentsOn(comments: seq<Comment>, post: nat): (r: seq<Comment>)
    ensures forall c :: c in r <==> c in comments && c.postId == post
    ensures Distinct(comments) ==> Distinct(r)
  {
    if |comments| == 0 then []
    else
      assert Distinct(comments) ==> Distinct(comments[1..]) && comments[0] !in comments[1..] by {
        if Distinct(comments) { DistinctTail(comments); }
      }
      if comments[0].postId == post then [comments[0]] + CommentsOn(comments[1..], post)
      else CommentsOn(comments[1..], post)
  }

  /** `ORDER BY created_at ASC`. */
  function OldestFirst(j: Joined<Comment>): int { j.row.createdAt }

  /** `r` lists the comments on `post`: exactly those whose author exists,
      each with its author row, oldest first, and in a valid store no
      comment id twice. */
  predicate CommentListing(db: Db, post: nat, r: seq<Joined<Comment>>) {
    && (forall j :: j in r ==>
          j.row in db.comments && j.row.postId == post && FindUser(db.users, j.row.author) == Some(j.author))
    && (forall c :: c in db.comments && c.postId == post && FindUser(db.users, c.author).Some? ==>
          Joined(c, FindUser(db.users, c.author).value) in r)
    && (forall i, j :: 0 <= i < j < |r| ==> r[i].row.createdAt <= r[j].row.createdAt)
    && (Valid(db) ==> JoinedIdsDistinct(r, CommentId))
  }

  /** `Post.get_comments`: the post's comments joined with their authors,
      oldest first, with no limit. */
  function GetComments(db: Db, post: nat): (r: seq<Joined<Comment>>)
    ensures CommentListing(db, post, r)
  {
    var r := SortBy(Join(CommentsOn(db.comments, post), db.users, CommentAuthor), OldestFirst);
    CommentsListed(db, post);
    r
  }

  /** A comment added by an existing user shows up in its post's comment
      list. */
  lemma AddCommentListed(db: Db, post: nat, user: nat, content: string, now: nat)
    requires FindUser(db.users, user).Some?
    ensures var r := AddComment(db, post, user, Some(content), now);
      Joined(Comment(r.out.value, post, user, content, now), FindUser(db.users, user).value)
        in GetComments(r.db, post)
  {
    var r := AddComment(db, post, user, Some(content), now);
    assert Comment(r.out.value, post, user, content, now) in r.db.comments;
  }

  /** Adding a comment to one post leaves every other post's comment list
      unchanged. */
  lemma AddCommentKeepsOthers(db: Db, post: nat, user: nat, content: string, now: nat, other: nat)
    requires other != post
    ensures var r := AddComment(db, post, user, Some(content), now);
      GetComments(r.db, other) == GetComments(db, other)
  {
    var r := AddComment(db, post, user, Some(content), now);
    CommentsOnAppend(db.comments, Comment(r.out.value, post, user, content, now), other);
  }

  lemma {:induction false} CommentsOnAppend(comments: seq<Comment>, c: Comment, post: nat)
    requires c.postId != post
    ensures CommentsOn(comments + [c], post) == CommentsOn(comments, post)
  {
    if |comments| == 0 {
    } else {
      assert (comments + [c])[1..] == comments[1..] + [c];
      CommentsOnAppend(comments[1..], c, post);
    }
  }

  /** The facts `GetComments` promises, for a post's comment listing as it computes it. */
  lemma CommentsListed(db: Db, post: nat)
    ensures CommentListing(db, post, SortBy(Join(CommentsOn(db.comments, post), db.users, CommentAuthor), OldestFirst))
  {
    var r := SortBy(Join(CommentsOn(db.comments, post), db.users, CommentAuthor), OldestFirst);
    forall i, j | 0 <= i < j < |r| ensures r[i].row.createdAt <= r[j].row.createdAt {
      assert OldestFirst(r[i]) <= OldestFirst(r[j]);
    }
    CommentsListedOnce(db, post);
  }

  /** In a valid store the listing never shows a row twice. */
  lemma CommentsListedOnce(db: Db, post: nat)
    ensures Valid(db) ==>
              JoinedIdsDistinct(SortBy(Join(CommentsOn(db.comments, post), db.users, CommentAuthor), OldestFirst), CommentId)
  {
    var r := SortBy(Join(CommentsOn(db.comments, post), db.users, CommentAuthor), OldestFirst);
    if Valid(db) {
      IdsAscendingDistinct(db.comments, CommentId, db.commentSeq);
      SortedJoinDistinct(CommentsOn(db.comments, post), db.users, CommentAuthor, r);
      forall i, j | 0 <= i < j < |r| ensures CommentId(r[i].row) != CommentId(r[j].row) {
        assert r[i] in multiset(r) && r[j] in multiset(r);
        assert r[i].row in db.comments && r[j].row in db.comments;
      }
    }
  }
}
