/** Ephemeral stories (`Story` in database/models.py). The clock is a
    parameter: `now` stands for both `datetime.now()` at creation and
    SQLite's `datetime('now')` at read time. */
module Stories {
  import opened Wrappers
  import opened Schema
  import opened Query

  /** Seconds in one hour: `timedelta(hours=1)`. */
  const HourSeconds: nat := 3600

  function StoryOwner(s: Story): nat { s.owner }

  /** `Story.create`: appends a story that expires `expiresHours` hours
      after `now` (24 by default in the source). */
  function Create(db: Db, user: nat, content: Option<string>, image: Option<string>,
                  video: Option<string>, expiresHours: nat, now: nat): (r: Step<nat>)
    ensures r.db.stories == db.stories + [Story(r.out, user, content, image, video, now + expiresHours * HourSeconds, now)]
    ensures r.db == db.(stories := r.db.stories, storySeq := r.out)
    ensures Valid(db) ==> forall s :: s in db.stories ==> s.id < r.out
    ensures Valid(db) ==> Valid(r.db)
  {
    var id := db.storySeq + 1;
    var row := Story(id, user, content, image, video, now + expiresHours * HourSeconds, now);
    AppendKeepsIdsAscending(db.stories, StoryId, db.storySeq, row);
    Step(db.(stories := db.stories + [row], storySeq := id), id)
  }

  /** `WHERE s.expires_at > now`. */
  function Unexpired(stories: seq<Story>, now: nat): (r: seq<Story>)
    ensures forall s :: s in r <==> s in stories && s.expiresAt > now
    ensures Distinct(stories) ==> Distinct(r)
  {
    if |stories| == 0 then []
    else
      assert Distinct(stories) ==> Distinct(stories[1..]) && stories[0] !in stories[1..] by {
        if Distinct(stories) { DistinctTail(stories); }
      }
      if stories[0].expiresAt > now then [stories[0]] + Unexpired(stories[1..], now)
      else Unexpired(stories[1..], now)
  }

  /** `ORDER BY s.created_at DESC` as an ascending sort key. */
  function Newest(j: Joined<Story>): int { Descending(j.row.createdAt) }

  /** `r` lists the stories active at `now`: exactly the unexpired ones
      whose owner exists, each with its owner row, newest first, and in a
      valid store no story id twice. */
  predicate Listing(db: Db, now: nat, r: seq<Joined<Story>>) {
    && (forall j :: j in r ==>
          j.row in db.stories && j.row.expiresAt > now && FindUser(db.users, j.row.owner) == Some(j.author))
    && (forall s :: s in db.stories && s.expiresAt > now && FindUser(db.users, s.owner).Some? ==>
          Joined(s, FindUser(db.users, s.owner).value) in r)
    && (forall i, j :: 0 <= i < j < |r| ==> r[i].row.createdAt >= r[j].row.createdAt)
    && (Valid(db) ==> JoinedIdsDistinct(r, StoryId))
  }

  /** `Story.get_active_stories()`: every unexpired story whose owner has a
      users row, newest first, with no limit. */
  function GetActive(db: Db, now: nat): (r: seq<Joined<Story>>)
    ensures Listing(db, now, r)
  {
    var r := SortBy(Join(Unexpired(db.stories, now), db.users, StoryOwner), Newest);
    Listed(db, now);
    r
  }

  /** A story is listed from its creation until just before its expiry and
      never after it. */
  lemma ActiveWindow(db: Db, user: nat, content: Option<string>, image: Option<string>,
                     video: Option<string>, expiresHours: nat, now: nat, t: nat)
    requires FindUser(db.users, user).Some?
    ensures var r := Create(db, user, content, image, video, expiresHours, now);
      var s := Story(r.out, user, content, image, video, now + expiresHours * HourSeconds, now);
      Joined(s, FindUser(db.users, user).value) in GetActive(r.db, t) <==> t < now + expiresHours * HourSeconds
  {
    var r := Create(db, user, content, image, video, expiresHours, now);
    var s := Story(r.out, user, content, image, video, now + expiresHours * HourSeconds, now);
    assert s in r.db.stories;
  }

  /** The facts `GetActive` promises, for the active-story listing as it computes it. */
  lemma Listed(db: Db, now: nat)
    ensures Listing(db, now, SortBy(Join(Unexpired(db.stories, now), db.users, StoryOwner), Newest))
  {
    var r := SortBy(Join(Unexpired(db.stories, now), db.users, StoryOwner), Newest);
    forall i, j | 0 <= i < j < |r| ensures r[i].row.createdAt >= r[j].row.createdAt {
      assert Newest(r[i]) <= Newest(r[j]);
    }
    ListedOnce(db, now);
  }

  /** In a valid store the listing never shows a row twice. */
  lemma ListedOnce(db: Db, now: nat)
    ensures Valid(db) ==>
              JoinedIdsDistinct(SortBy(Join(Unexpired(db.stories, now), db.users, StoryOwner), Newest), StoryId)
  {
    var r := SortBy(Join(Unexpired(db.stories, now), db.users, StoryOwner), Newest);
    if Valid(db) {
      IdsAscendingDistinct(db.stories, StoryId, db.storySeq);
      SortedJoinDistinct(Unexpired(db.stories, now), db.users, StoryOwner, r);
      forall i, j | 0 <= i < j < |r| ensures StoryId(r[i].row) != StoryId(r[j].row) {
        assert r[i] in multiset(r) && r[j] in multiset(r);
        assert r[i].row in db.stories && r[j].row in db.stories;
      }
    }
  }
}
