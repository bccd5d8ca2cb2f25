/** The social ledger's relations (database/models.py), one sequence of rows
    per table in insertion (rowid) order, each with the AUTOINCREMENT
    counter SQLite keeps for it. Timestamps are seconds on the store's
    clock; a column that may hold NULL is an `Option`. */
module Schema {
  import opened Wrappers
  import opened Query

  /** A row of `users`. */
  datatype User = User(
    id: nat, username: string, email: string, passwordHash: string,
    fullName: string, bio: Option<string>, profilePic: string, createdAt: nat)

  /** A row of `posts`. `likesCount` is the stored column, which only its
      DEFAULT ever writes. */
  datatype Post = Post(
    id: nat, author: nat, content: string, image: Option<string>,
    likesCount: nat, createdAt: nat)

  /** A row of `comments`. */
  datatype Comment = Comment(id: nat, postId: nat, author: nat, content: string, createdAt: nat)

  /** A row of `likes`; `(postId, userId)` is UNIQUE. */
  datatype Like = Like(id: nat, postId: nat, userId: nat, createdAt: nat)

  /** A row of `admin_users`. */
  datatype Admin = Admin(
    id: nat, username: string, email: string, passwordHash: string,
    fullName: string, role: string, permissions: string, createdAt: nat)

  /** A row of `support_tickets`. */
  datatype Ticket = Ticket(
    id: nat, owner: nat, subject: string, description: string, status: string,
    priority: string, assignedTo: Option<nat>, createdAt: nat, updatedAt: nat)

  /** A row of `stories`. */
  datatype Story = Story(
    id: nat, owner: nat, content: Option<string>, image: Option<string>,
    video: Option<string>, expiresAt: nat, createdAt: nat)

  /** A row of `notifications`; `data` is the already-serialised JSON text. */
  datatype Notification = Notification(
    id: nat, owner: nat, kind: string, title: string, message: string,
    read: bool, data: Option<string>, createdAt: nat)

  /** The whole store. Each `*Seq` is the largest id the table ever handed
      out (SQLite's `sqlite_sequence`); the next insert gets that plus one. */
  datatype Db = Db(
    users: seq<User>, userSeq: nat,
    posts: seq<Post>, postSeq: nat,
    comments: seq<Comment>, commentSeq: nat,
    likes: seq<Like>, likeSeq: nat,
    admins: seq<Admin>, adminSeq: nat,
    tickets: seq<Ticket>, ticketSeq: nat,
    stories: seq<Story>, storySeq: nat,
    notifications: seq<Notification>, notificationSeq: nat)

  /** A freshly initialised store: every table empty. */
  const Empty := Db([], 0, [], 0, [], 0, [], 0, [], 0, [], 0, [], 0, [], 0)

  /** The result of an operation that writes: the new store and what the
      Python function returns. */
  datatype Step<T> = Step(db: Db, out: T)

  /** The ids of an append-only AUTOINCREMENT table: positive, strictly
      increasing in rowid order, and never above the table's counter. */
  predicate IdsAscending<R>(rows: seq<R>, id: R -> nat, last: nat) {
    && (forall i :: 0 <= i < |rows| ==> 1 <= id(rows[i]) <= last)
    && (forall i, j :: 0 <= i < j < |rows| ==> id(rows[i]) < id(rows[j]))
  }

  function UserId(u: User): nat { u.id }
  function PostId(p: Post): nat { p.id }
  function CommentId(c: Comment): nat { c.id }
  function LikeId(l: Like): nat { l.id }
  function AdminId(a: Admin): nat { a.id }
  function TicketId(t: Ticket): nat { t.id }
  function StoryId(s: Story): nat { s.id }
  function NotificationId(n: Notification): nat { n.id }

  /** No two users share a username or an email (the UNIQUE columns). */
  predicate UsersUnique(users: seq<User>) {
    forall i, j :: 0 <= i < j < |users| ==>
      users[i].username != users[j].username && users[i].email != users[j].email
  }

  /** No two admins share a username or an email. */
  predicate AdminsUnique(admins: seq<Admin>) {
    forall i, j :: 0 <= i < j < |admins| ==>
      admins[i].username != admins[j].username && admins[i].email != admins[j].email
  }

  /** Some row of `likes` records that `user` likes `post`. */
  predicate HasLike(likes: seq<Like>, post: nat, user: nat) {
    exists l :: l in likes && l.postId == post && l.userId == user
  }

  /** The UNIQUE(post_id, user_id) constraint of `likes`. */
  predicate UniquePairs(likes: seq<Like>) {
    |likes| == 0 ||
    (!HasLike(likes[1..], likes[0].postId, likes[0].userId) && UniquePairs(likes[1..]))
  }

  /** The constraints the schema declares and the code relies on, plus the
      fact that nothing ever writes the stored `posts.likes_count`. */
  predicate Valid(db: Db) {
    && IdsAscending(db.users, UserId, db.userSeq)
    && UsersUnique(db.users)
    && IdsAscending(db.posts, PostId, db.postSeq)
    && (forall p :: p in db.posts ==> p.likesCount == 0)
    && IdsAscending(db.comments, CommentId, db.commentSeq)
    && IdsAscending(db.likes, LikeId, db.likeSeq)
    && UniquePairs(db.likes)
    && IdsAscending(db.admins, AdminId, db.adminSeq)
    && AdminsUnique(db.admins)
    && IdsAscending(db.tickets, TicketId, db.ticketSeq)
    && IdsAscending(db.stories, StoryId, db.storySeq)
    && IdsAscending(db.notifications, NotificationId, db.notificationSeq)
  }

  lemma EmptyIsValid()
    ensures Valid(Empty)
  {
  }

  /** Ascending ids make the rows pairwise different, and two different
      rows of the table never share an id. */
  lemma IdsAscendingDistinct<R>(rows: seq<R>, id: R -> nat, last: nat)
    requires IdsAscending(rows, id, last)
    ensures Distinct(rows)
    ensures forall x, y :: x in rows && y in rows && x != y ==> id(x) != id(y)
  {
    forall x, y | x in rows && y in rows && x != y ensures id(x) != id(y) {
      var a :| 0 <= a < |rows| && rows[a] == x;
      var b :| 0 <= b < |rows| && rows[b] == y;
      assert a != b;
    }
  }

  /** Appending a row whose id is the counter plus one keeps ids ascending. */
  lemma AppendKeepsIdsAscending<R>(rows: seq<R>, id: R -> nat, last: nat, row: R)
    requires id(row) == last + 1
    ensures IdsAscending(rows, id, last) ==> IdsAscending(rows + [row], id, last + 1)
  {
  }

  /** The rows after the first keep ascending ids, all above the first's. */
  lemma IdsAscendingTail<R>(rows: seq<R>, id: R -> nat, last: nat)
    requires IdsAscending(rows, id, last) && |rows| > 0
    ensures IdsAscending(rows[1..], id, last)
    ensures forall x :: x in rows[1..] ==> id(rows[0]) < id(x)
  {
    var tail := rows[1..];
    forall i, j | 0 <= i < j < |tail| ensures id(tail[i]) < id(tail[j]) {
      assert tail[i] == rows[i + 1] && tail[j] == rows[j + 1];
    }
    forall x | x in tail ensures id(rows[0]) < id(x) {
      var k :| 0 <= k < |tail| && tail[k] == x;
      assert rows[k + 1] == x;
    }
  }

  /** A row with an id below every id of an ascending table can go in front. */
  lemma ConsKeepsIdsAscending<R>(row: R, rows: seq<R>, id: R -> nat, last: nat)
    requires IdsAscending(rows, id, last) && 1 <= id(row) <= last
    requires forall x :: x in rows ==> id(row) < id(x)
    ensures IdsAscending([row] + rows, id, last)
  {
    var r := [row] + rows;
    forall i, j | 0 <= i < j < |r| ensures id(r[i]) < id(r[j]) {
      assert r[j] == rows[j - 1];
      if i > 0 {
        assert r[i] == rows[i - 1];
      } else {
        assert r[j] in rows;
      }
    }
    forall i | 0 <= i < |r| ensures 1 <= id(r[i]) <= last {
      if i > 0 {
        assert r[i] == rows[i - 1];
      }
    }
  }

  /** The first user row with id `id`: the row `JOIN users u ON … = u.id`
      matches (ids are a primary key, so there is at most one). */
  function FindUser(users: seq<User>, id: nat): (r: Option<User>)
    ensures r.Some? ==> r.value in users && r.value.id == id
    ensures r.None? <==> forall u :: u in users ==> u.id != id
  {
    if |users| == 0 then None
    else if users[0].id == id then Some(users[0])
    else FindUser(users[1..], id)
  }

  /** A row paired with the users row of its owner. */
  datatype Joined<R> = Joined(row: R, author: User)

  function RowOf<R>(j: Joined<R>): R { j.row }

  /** No two entries of a listing carry the same row id. */
  predicate JoinedIdsDistinct<R>(r: seq<Joined<R>>, id: R -> nat) {
    forall i, j :: 0 <= i < j < |r| ==> id(r[i].row) != id(r[j].row)
  }

  /** No two rows of a listing carry the same id. */
  predicate IdsDistinct<R>(r: seq<R>, id: R -> nat) {
    forall i, j :: 0 <= i < j < |r| ==> id(r[i]) != id(r[j])
  }

  /** Sorting a join of rows without repeats never lists a row twice. */
  lemma SortedJoinDistinct<R(!new)>(rows: seq<R>, users: seq<User>, owner: R -> nat, r: seq<Joined<R>>)
    requires Distinct(rows)
    requires multiset(r) == multiset(Join(rows, users, owner))
    ensures forall i, j :: 0 <= i < j < |r| ==> r[i].row != r[j].row
  {
    var js := Join(rows, users, owner);
    assert forall i, j :: 0 <= i < j < |js| ==> RowOf(js[i]) != RowOf(js[j]);
    DistinctSub(js, r);
    forall x | x in r ensures x in js {
      assert x in multiset(r);
    }
    ProjectionDistinct(js, r, RowOf);
  }

  /** `rows JOIN users ON owner(row) = users.id`: rows whose owner has no
      users row drop out, since foreign keys are never enforced. */
  function Join<R(!new)>(rows: seq<R>, users: seq<User>, owner: R -> nat): (r: seq<Joined<R>>)
    ensures |r| <= |rows|
    ensures forall j :: j in r ==> j.row in rows && FindUser(users, owner(j.row)) == Some(j.author)
    ensures forall x :: x in rows && FindUser(users, owner(x)).Some? ==>
              Joined(x, FindUser(users, owner(x)).value) in r
    ensures Distinct(rows) ==> forall i, j :: 0 <= i < j < |r| ==> r[i].row != r[j].row
  {
    if |rows| == 0 then []
    else
      var rest := Join(rows[1..], users, owner);
      assert Distinct(rows) ==> Distinct(rows[1..]) && rows[0] !in rows[1..] by {
        if Distinct(rows) { DistinctTail(rows); }
      }
      match FindUser(users, owner(rows[0]))
      case None => rest
      case Some(u) => [Joined(rows[0], u)] + rest
  }
}
