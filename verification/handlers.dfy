/** The three JSON endpoints of app.py that write to the ledger:
    `create_post`, `like_post` and `comment_post`. The session, the form
    and JSON fields, and the uploaded file arrive as parameters; saving the
    file and building its safe name (`secure_filename` of the user id, a
    timestamp and the client's filename) happen outside the model, which
    receives the resulting name as `savedName`. */
module Handlers {
  import opened Wrappers
  import opened Schema
  import Posts
  import Upload

  /** The Flask session: `user_id` is present once the user logged in. */
  datatype Session = Session(userId: Option<nat>)

  /** The `image` part of `request.files`, by its client-side filename. */
  datatype FileField = FileField(filename: string)

  /** What an endpoint answers. `ServerError` is the uncaught
      `sqlite3.IntegrityError` that Flask turns into a 500. */
  datatype Response =
    | NotAuthenticated
    | PostCreated(postId: nat)
    | LikeToggled(result: Posts.Toggled)
    | CommentCreated(commentId: nat)
    | ServerError

  /** The image reference `create_post` stores: `posts/<saved name>` when
      a file came with an allowed extension, otherwise NULL. A FileStorage
      with an empty filename is falsy, and `allowed_file("")` is false
      anyway, so one test covers both. */
  function ImageFor(file: Option<FileField>, savedName: string): (image: Option<string>)
    ensures image.Some? <==> file.Some? && Upload.AllowedFile(file.value.filename)
    ensures image.Some? ==> image.value == "posts/" + savedName
  {
    if file.Some? && Upload.AllowedFile(file.value.filename) then Some("posts/" + savedName) else None
  }

  /** `create_post`: 401 without a session; otherwise `Post.create` with
      the session's user, the form's `content` (None when absent) and the
      image reference. */
  function CreatePost(db: Db, session: Session, content: Option<string>, file: Option<FileField>,
                      savedName: string, now: nat): (r: Step<Response>)
    ensures session.userId.None? ==> r == Step(db, NotAuthenticated)
    ensures session.userId.Some? && content.None? ==> r == Step(db, ServerError)
    ensures session.userId.Some? && content.Some? ==>
      && r.out.PostCreated?
      && r.db.posts == db.posts + [Post(r.out.postId, session.userId.value, content.value,
                                        ImageFor(file, savedName), 0, now)]
      && r.db == db.(posts := r.db.posts, postSeq := r.out.postId)
    ensures Valid(db) ==> Valid(r.db)
  {
    if session.userId.None? then Step(db, NotAuthenticated)
    else
      var s := Posts.Create(db, session.userId.value, content, ImageFor(file, savedName), now);
      match s.out
      case Ok(id) => Step(s.db, PostCreated(id))
      case IntegrityError => Step(s.db, ServerError)
  }

  /** `like_post`: 401 without a session; otherwise the toggle's result. */
  function LikePost(db: Db, session: Session, postId: nat, now: nat): (r: Step<Response>)
    ensures session.userId.None? ==> r == Step(db, NotAuthenticated)
    ensures session.userId.Some? ==>
      && r.out.LikeToggled?
      && r.out.result.action == (if HasLike(db.likes, postId, session.userId.value) then Posts.Unliked else Posts.Liked)
      && (HasLike(r.db.likes, postId, session.userId.value) <==> r.out.result.action == Posts.Liked)
      && (forall l: Like :: l.postId != postId || l.userId != session.userId.value ==>
            (l in r.db.likes <==> l in db.likes))
      && r.out.result.count == Posts.LikeCount(r.db.likes, postId)
      && (r.out.result.action == Posts.Liked ==> r.out.result.count == Posts.LikeCount(db.likes, postId) + 1)
      && (UniquePairs(db.likes) && r.out.result.action == Posts.Unliked ==>
            r.out.result.count + 1 == Posts.LikeCount(db.likes, postId))
      && r.db == db.(likes := r.db.likes, likeSeq := r.db.likeSeq)
    ensures Valid(db) ==> Valid(r.db)
  {
    if session.userId.None? then Step(db, NotAuthenticated)
    else
      var s := Posts.ToggleLike(db, postId, session.userId.value, now);
      Step(s.db, LikeToggled(s.out))
  }

  /** `comment_post`: 401 without a session; otherwise `Post.add_comment`
      with the JSON body's `content` (None when absent). */
  function CommentPost(db: Db, session: Session, postId: nat, content: Option<string>, now: nat): (r: Step<Response>)
    ensures session.userId.None? ==> r == Step(db, NotAuthenticated)
    ensures session.userId.Some? && content.None? ==> r == Step(db, ServerError)
    ensures session.userId.Some? && content.Some? ==>
      && r.out.CommentCreated?
      && r.db.comments == db.comments + [Comment(r.out.commentId, postId, session.userId.value, content.value, now)]
      && r.db == db.(comments := r.db.comments, commentSeq := r.out.commentId)
    ensures Valid(db) ==> Valid(r.db)
  {
    if session.userId.None? then Step(db, NotAuthenticated)
    else
      var s := Posts.AddComment(db, postId, session.userId.value, content, now);
      match s.out
      case Ok(id) => Step(s.db, CommentCreated(id))
      case IntegrityError => Step(s.db, ServerError)
  }

  /** A post created with an upload named `<anything>.<allowed ext>` carries
      an image; one named with any other extension carries none. */
  lemma UploadDecidesImage(db: Db, user: nat, content: string, base: string, ext: string,
                           savedName: string, now: nat)
    requires '.' !in ext
    ensures var r := CreatePost(db, Session(Some(user)), Some(content),
                                Some(FileField(base + "." + ext)), savedName, now);
      r.db.posts[|db.posts|].image ==
        (if Upload.LowerStr(ext) in Upload.AllowedExtensions then Some("posts/" + savedName) else None)
  {
    Upload.AllowedFileOfJoin(base, ext);
  }

  /** The end-to-end like scenario: a second user likes a fresh post and
      gets `liked` with count 1, then likes it again and gets `unliked`
      with count 0. The scenario needs that no like row already names the
      new post's id: nothing stops a like on an id no post has yet. */
  lemma LikeScenario(db: Db, author: nat, liker: nat, t0: nat, t1: nat, t2: nat)
    requires Valid(db)
    requires forall l :: l in db.likes ==> l.postId <= db.postSeq
    ensures var c := CreatePost(db, Session(Some(author)), Some("hello"), None, "", t0);
      var l1 := LikePost(c.db, Session(Some(liker)), c.out.postId, t1);
      var l2 := LikePost(l1.db, Session(Some(liker)), c.out.postId, t2);
      && l1.out == LikeToggled(Posts.Toggled(Posts.Liked, 1))
      && l2.out == LikeToggled(Posts.Toggled(Posts.Unliked, 0))
  {
    var c := CreatePost(db, Session(Some(author)), Some("hello"), None, "", t0);
    var post := c.out.postId;
    assert post == db.postSeq + 1;
    Posts.NoRowsNoLikes(c.db.likes, post);
    var l1 := LikePost(c.db, Session(Some(liker)), post, t1);
    assert l1.db.likes == c.db.likes + [Like(c.db.likeSeq + 1, post, liker, t1)];
  }

  /** A like on a post id that no post has yet is stored, and the post that
      later receives that id starts with it: the foreign key on
      `likes.post_id` is declared but never enforced. */
  lemma LikeBeforePost(db: Db, author: nat, liker: nat, t0: nat, t1: nat)
    requires Valid(db)
    requires forall l :: l in db.likes ==> l.postId <= db.postSeq
    ensures var l := LikePost(db, Session(Some(liker)), db.postSeq + 1, t0);
      var c := CreatePost(l.db, Session(Some(author)), Some("hello"), None, "", t1);
      && c.out.postId == db.postSeq + 1
      && l.out.result == Posts.Toggled(Posts.Liked, 1)
      && Posts.LikeCount(c.db.likes, c.out.postId) == 1
  {
    var post := db.postSeq + 1;
    Posts.NoRowsNoLikes(db.likes, post);
    var l := LikePost(db, Session(Some(liker)), post, t0);
    assert l.out.result == Posts.Toggled(Posts.Liked, 1);
    var c := CreatePost(l.db, Session(Some(author)), Some("hello"), None, "", t1);
    assert c.db.likes == l.db.likes && c.out.postId == post;
  }
}
