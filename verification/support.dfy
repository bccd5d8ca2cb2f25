/** Support tickets (`SupportTicket` in database/models.py). */
module Support {
  import opened Wrappers
  import opened Schema
  import opened Query

  function TicketOwner(t: Ticket): nat { t.owner }

  /** `SupportTicket.create`: appends an `open`, unassigned ticket whose
      `created_at` and `updated_at` both take the current time. */
  function Create(db: Db, user: nat, subject: string, description: string, priority: string,
                  now: nat): (r: Step<nat>)
    ensures r.db.tickets == db.tickets + [Ticket(r.out, user, subject, description, "open", priority, None, now, now)]
    ensures r.db == db.(tickets := r.db.tickets, ticketSeq := r.out)
    ensures Valid(db) ==> forall t :: t in db.tickets ==> t.id < r.out
    ensures Valid(db) ==> Valid(r.db)
  {
    var id := db.ticketSeq + 1;
    var row := Ticket(id, user, subject, description, "open", priority, None, now, now);
    AppendKeepsIdsAscending(db.tickets, TicketId, db.ticketSeq, row);
    Step(db.(tickets := db.tickets + [row], ticketSeq := id), id)
  }

  /** The tickets opened by `user`, in rowid order. */
  function OpenedBy(tickets: seq<Ticket>, user: nat): (r: seq<Ticket>)
    ensures forall t :: t in r <==> t in tickets && t.owner == user
    ensures Distinct(tickets) ==> Distinct(r)
  {
    if |tickets| == 0 then []
    else
      assert Distinct(tickets) ==> Distinct(tickets[1..]) && tickets[0] !in tickets[1..] by {
        if Distinct(tickets) { DistinctTail(tickets); }
      }
      if tickets[0].owner == user then [tickets[0]] + OpenedBy(tickets[1..], user)
      else OpenedBy(tickets[1..], user)
  }

  /** `ORDER BY st.created_at DESC` as an ascending sort key. */
  function Newest(j: Joined<Ticket>): int { Descending(j.row.createdAt) }

  /** `r` lists the tickets `user` opened: exactly those, provided the user
      exists, each with the user row, newest first, and in a valid store no
      ticket id twice. */
  predicate Listing(db: Db, user: nat, r: seq<Joined<Ticket>>) {
    && (forall j :: j in r ==>
          j.row in db.tickets && j.row.owner == user && FindUser(db.users, user) == Some(j.author))
    && (FindUser(db.users, user).Some? ==> forall t :: t in db.tickets && t.owner == user ==>
          Joined(t, FindUser(db.users, user).value) in r)
    && (forall i, j :: 0 <= i < j < |r| ==> r[i].row.createdAt >= r[j].row.createdAt)
    && (Valid(db) ==> JoinedIdsDistinct(r, TicketId))
  }

  /** `SupportTicket.get_by_user(user_id)`: the user's tickets joined with
      the user's row (`username`, `full_name`), newest first, no limit. */
  function GetByUser(db: Db, user: nat): (r: seq<Joined<Ticket>>)
    ensures Listing(db, user, r)
  {
    var r := SortBy(Join(OpenedBy(db.tickets, user), db.users, TicketOwner), Newest);
    Listed(db, user);
    r
  }

  /** `SupportTicket.update_status(ticket_id, status, assigned_to=None)`:
      on the row with that id, overwrites `status` and `assigned_to` (an
      omitted assignee clears the assignment) and stamps `updated_at`;
      every other row and column is left alone. Returns True regardless. */
  function UpdateStatus(db: Db, id: nat, status: string, assignedTo: Option<nat>, now: nat): (r: Step<bool>)
    ensures r.out
    ensures |r.db.tickets| == |db.tickets|
    ensures forall i :: 0 <= i < |db.tickets| ==>
      var t := db.tickets[i];
      var u := r.db.tickets[i];
      && (t.id == id ==> u == t.(status := status, assignedTo := assignedTo, updatedAt := now))
      && (t.id != id ==> u == t)
    ensures r.db == db.(tickets := r.db.tickets)
    ensures Valid(db) ==> Valid(r.db)
  {
    var ts := db.tickets;
    var updated := seq(|ts|, i requires 0 <= i < |ts| =>
      if ts[i].id == id then ts[i].(status := status, assignedTo := assignedTo, updatedAt := now) else ts[i]);
    Step(db.(tickets := updated), true)
  }

  /** In a valid store an update touches at most one ticket, and repeating
      it changes nothing further. */
  lemma UpdateTouchesOneRow(db: Db, id: nat, status: string, assignedTo: Option<nat>, now: nat)
    requires Valid(db)
    ensures var ts := db.tickets; var us := UpdateStatus(db, id, status, assignedTo, now).db.tickets;
      forall i, j :: 0 <= i < j < |ts| ==> us[i] == ts[i] || us[j] == ts[j]
    ensures var once := UpdateStatus(db, id, status, assignedTo, now).db;
      UpdateStatus(once, id, status, assignedTo, now).db == once
  {
    var ts := db.tickets;
    assert forall i, j :: 0 <= i < j < |ts| ==> TicketId(ts[i]) < TicketId(ts[j]);
  }

  /** After an update the owner's ticket list shows the new status and
      assignee on that ticket. */
  lemma UpdateThenList(db: Db, id: nat, status: string, assignedTo: Option<nat>, now: nat, user: nat)
    ensures var after := UpdateStatus(db, id, status, assignedTo, now).db;
      forall j :: j in GetByUser(after, user) && j.row.id == id ==>
        j.row.status == status && j.row.assignedTo == assignedTo && j.row.updatedAt == now
  {
    var after := UpdateStatus(db, id, status, assignedTo, now).db;
    forall j | j in GetByUser(after, user) && j.row.id == id
      ensures j.row.status == status && j.row.assignedTo == assignedTo && j.row.updatedAt == now
    {
      var k :| 0 <= k < |after.tickets| && after.tickets[k] == j.row;
    }
  }

  /** The facts `GetByUser` promises, for a user's ticket listing as it computes it. */
  lemma Listed(db: Db, user: nat)
    ensures Listing(db, user, SortBy(Join(OpenedBy(db.tickets, user), db.users, TicketOwner), Newest))
  {
    var r := SortBy(Join(OpenedBy(db.tickets, user), db.users, TicketOwner), Newest);
    forall i, j | 0 <= i < j < |r| ensures r[i].row.createdAt >= r[j].row.createdAt {
      assert Newest(r[i]) <= Newest(r[j]);
    }
    ListedOnce(db, user);
  }

  /** In a valid store the listing never shows a row twice. */
  lemma ListedOnce(db: Db, user: nat)
    ensures Valid(db) ==>
              JoinedIdsDistinct(SortBy(Join(OpenedBy(db.tickets, user), db.users, TicketOwner), Newest), TicketId)
  {
    var r := SortBy(Join(OpenedBy(db.tickets, user), db.users, TicketOwner), Newest);
    if Valid(db) {
      IdsAscendingDistinct(db.tickets, TicketId, db.ticketSeq);
      SortedJoinDistinct(OpenedBy(db.tickets, user), db.users, TicketOwner, r);
      forall i, j | 0 <= i < j < |r| ensures TicketId(r[i].row) != TicketId(r[j].row) {
        assert r[i] in multiset(r) && r[j] in multiset(r);
        assert r[i].row in db.tickets && r[j].row in db.tickets;
      }
    }
  }
}
