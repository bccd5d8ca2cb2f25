/** Per-user notifications (`Notification` in database/models.py). The
    `data` payload is stored as the text `json.dumps` produced, which this
    model takes as given. */
module Notifications {
  import opened Wrappers
  import opened Schema
  import opened Query

  /** `Notification.create`: appends an unread notification for `user`. */
  function Create(db: Db, user: nat, kind: string, title: string, message: string,
                  data: Option<string>, now: nat): (r: Step<nat>)
    ensures r.db.notifications == db.notifications + [Notification(r.out, user, kind, title, message, false, data, now)]
    ensures r.db == db.(notifications := r.db.notifications, notificationSeq := r.out)
    ensures Valid(db) ==> forall n :: n in db.notifications ==> n.id < r.out
    ensures Valid(db) ==> Valid(r.db)
  {
    var id := db.notificationSeq + 1;
    var row := Notification(id, user, kind, title, message, false, data, now);
    AppendKeepsIdsAscending(db.notifications, NotificationId, db.notificationSeq, row);
    Step(db.(notifications := db.notifications + [row], notificationSeq := id), id)
  }

  /** The notifications addressed to `user`, in rowid order. */
  function OwnedBy(ns: seq<Notification>, user: nat): (r: seq<Notification>)
    ensures forall n :: n in r <==> n in ns && n.owner == user
    ensures Distinct(ns) ==> Distinct(r)
  {
    if |ns| == 0 then []
    else
      assert Distinct(ns) ==> Distinct(ns[1..]) && ns[0] !in ns[1..] by {
        if Distinct(ns) { DistinctTail(ns); }
      }
      if ns[0].owner == user then [ns[0]] + OwnedBy(ns[1..], user)
      else OwnedBy(ns[1..], user)
  }

  /** `ORDER BY created_at DESC` as an ascending sort key. */
  function Newest(n: Notification): int { Descending(n.createdAt) }

  /** `r` lists `user`'s notifications under `limit`: only theirs, newest
      first, as many as LIMIT lets through, none newer than a listed one
      left out (none at all when the limit admits all), and in a valid
      store no notification id twice. */
  predicate Listing(db: Db, user: nat, limit: int, r: seq<Notification>) {
    && (|r| == LimitCount(limit, |OwnedBy(db.notifications, user)|))
    && (forall n :: n in r ==> n in db.notifications && n.owner == user)
    && (forall i, j :: 0 <= i < j < |r| ==> r[i].createdAt >= r[j].createdAt)
    && (forall n, m :: (n in db.notifications && n.owner == user && m in r && n.createdAt > m.createdAt) ==> n in r)
    && (|r| == |OwnedBy(db.notifications, user)| ==>
          forall n :: n in db.notifications && n.owner == user ==> n in r)
    && (Valid(db) ==> IdsDistinct(r, NotificationId))
  }

  /** `Notification.get_by_user(user_id, limit)`: the user's notifications,
      newest first, at most `limit` of them (no join with users). */
  function GetByUser(db: Db, user: nat, limit: int): (r: seq<Notification>)
    ensures Listing(db, user, limit, r)
  {
    var r := TopBy(OwnedBy(db.notifications, user), Newest, limit);
    Listed(db, user, limit);
    r
  }

  /** The facts `GetByUser` promises, for the cut it computes. */
  lemma Listed(db: Db, user: nat, limit: int)
    ensures Listing(db, user, limit, TopBy(OwnedBy(db.notifications, user), Newest, limit))
  {
    var r := TopBy(OwnedBy(db.notifications, user), Newest, limit);
    var mine := OwnedBy(db.notifications, user);
    forall n, m | n in db.notifications && n.owner == user && m in r && n.createdAt > m.createdAt
      ensures n in r
    {
      TopByKeepsSmaller(mine, Newest, limit);
      assert n in mine && Newest(n) < Newest(m);
    }
    forall i, j | 0 <= i < j < |r| ensures r[i].createdAt >= r[j].createdAt {
      assert Newest(r[i]) <= Newest(r[j]);
    }
    if |r| == |mine| {
      AllKept(mine, r);
    }
    ListedOnce(db, user, limit);
  }

  /** `Notification.mark_as_read(id)`: sets `read` on the row with that id
      and on no other; it returns True whether or not such a row exists. */
  function MarkAsRead(db: Db, id: nat): (r: Step<bool>)
    ensures r.out
    ensures |r.db.notifications| == |db.notifications|
    ensures forall i :: 0 <= i < |db.notifications| ==>
      && r.db.notifications[i] == db.notifications[i].(read := r.db.notifications[i].read)
      && (db.notifications[i].id == id ==> r.db.notifications[i].read)
      && (db.notifications[i].id != id ==> r.db.notifications[i] == db.notifications[i])
    ensures r.db == db.(notifications := r.db.notifications)
    ensures Valid(db) ==> Valid(r.db)
  {
    var ns := db.notifications;
    var marked := seq(|ns|, i requires 0 <= i < |ns| => if ns[i].id == id then ns[i].(read := true) else ns[i]);
    Step(db.(notifications := marked), true)
  }

  /** In a valid store at most one row changes, and marking twice is the
      same as marking once. */
  lemma MarkAsReadTouchesOneRow(db: Db, id: nat)
    requires Valid(db)
    ensures var ns := db.notifications; var ms := MarkAsRead(db, id).db.notifications;
      forall i, j :: 0 <= i < j < |ns| ==> ms[i] == ns[i] || ms[j] == ns[j]
    ensures MarkAsRead(MarkAsRead(db, id).db, id) == MarkAsRead(db, id)
  {
    var ns := db.notifications;
    assert forall i, j :: 0 <= i < j < |ns| ==> NotificationId(ns[i]) < NotificationId(ns[j]);
  }

  /** A notification created for a user is listed for that user when the
      limit admits all of them, and starts unread. */
  lemma CreateThenList(db: Db, user: nat, kind: string, title: string, message: string,
                       data: Option<string>, now: nat)
    ensures var r := Create(db, user, kind, title, message, data, now);
      Notification(r.out, user, kind, title, message, false, data, now) in GetByUser(r.db, user, -1)
  {
    var r := Create(db, user, kind, title, message, data, now);
    var row := Notification(r.out, user, kind, title, message, false, data, now);
    assert row in r.db.notifications;
  }

  /** In a valid store the listing never shows a row twice. */
  lemma ListedOnce(db: Db, user: nat, limit: int)
    ensures Valid(db) ==> IdsDistinct(TopBy(OwnedBy(db.notifications, user), Newest, limit), NotificationId)
  {
    var mine := OwnedBy(db.notifications, user);
    var r := TopBy(mine, Newest, limit);
    if Valid(db) {
      IdsAscendingDistinct(db.notifications, NotificationId, db.notificationSeq);
      DistinctSub(mine, r);
      forall i, j | 0 <= i < j < |r| ensures NotificationId(r[i]) != NotificationId(r[j]) {
        assert r[i] in multiset(mine) && r[j] in multiset(mine);
        assert r[i] in db.notifications && r[j] in db.notifications;
      }
    }
  }
}
