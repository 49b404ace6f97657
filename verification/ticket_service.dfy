/** The ticket service: booking through the repository's transaction,
    the lookups with their response projection, and the status update. */
module TicketService {
  import opened Base
  import opened Entity
  import opened Store
  import opened TicketRepository

  /** The status every booking is created with, whatever the request says. */
  const BookedStatus := "Dibeli"

  /** The ticket the service hands to the repository for a request. */
  function NewTicket(req: CreateTicketReq): (t: Ticket)
    ensures t.Id == 0 && t.EventID == req.EventID && t.UserID == req.UserID && t.Status == BookedStatus
    ensures t.CreatedAt == ZeroTime && t.UpdatedAt == ZeroTime
  {
    Ticket(0, req.EventID, req.UserID, BookedStatus, ZeroTime, ZeroTime)
  }

  /** CreateTicket: books a seat for the request's event and user with the
      status "Dibeli" (the request's own status is ignored), and returns the
      view of the ticket together with the repository's error; the view is
      returned on failure too: with id 0 and zero timestamps when the insert
      was never issued, with id 0 and the current time when the database
      refused the insert (an unknown user id, say), and with the new id when
      only the commit failed. */
  method CreateTicket(db: Database, req: CreateTicketReq, now: Instant, fmt: Instant -> string, fault: Option<TxStep>)
    returns (res: TicketRes, err: Option<Error>)
    requires db.Valid()
    modifies db`events, db`tickets, db`nextTicketId
    ensures db.Valid()
    ensures res.EventID == req.EventID && res.UserID == req.UserID && res.Status == BookedStatus
    ensures err == BookingError(old(db.events), req.EventID, fault)
    ensures err.None? <==> Commits(old(db.events), req.EventID, fault)
    ensures res.Id != 0 <==> Inserted(old(db.events), req.EventID, fault)
    ensures !InsertRan(old(db.events), req.EventID, fault) ==> res == TicketToRes(NewTicket(req), fmt)
    ensures InsertRan(old(db.events), req.EventID, fault) && !Inserted(old(db.events), req.EventID, fault) ==>
              res == TicketRes(0, req.EventID, req.UserID, BookedStatus, fmt(now), fmt(now))
    ensures Inserted(old(db.events), req.EventID, fault) ==>
              res == TicketRes(old(db.nextTicketId), req.EventID, req.UserID, BookedStatus, fmt(now), fmt(now))
    ensures err.Some? ==> db.events == old(db.events) && db.tickets == old(db.tickets)
                          && db.nextTicketId == old(db.nextTicketId)
    ensures err.None? ==>
              && db.tickets == old(db.tickets) + [Ticket(res.Id, req.EventID, req.UserID, BookedStatus, now, now)]
              && db.events == old(db.events)[req.EventID := Reserve(old(db.events)[req.EventID], now)]
              && db.nextTicketId == old(db.nextTicketId) + 1
    ensures BookingConsistent(old(db.events), old(db.tickets)) ==> BookingConsistent(db.events, db.tickets)
  {
    var ticket := NewTicket(req);
    var stored;
    stored, err := TicketRepository.CreateTicket(db, ticket, now, fault);
    res := TicketToRes(stored, fmt);
  }

  /** FindTicketByID: the view of the ticket with the id, or the lookup
      error. */
  function FindTicketByID(ts: seq<Ticket>, id: int, fmt: Instant -> string): (r: Result<TicketRes>)
    ensures r.Err? <==> forall j :: 0 <= j < |ts| ==> ts[j].Id != id
    ensures r.Err? ==> r.error == RecordNotFound
    ensures r.Ok? ==> r.value.Id == id && exists t :: t in ts && r.value == TicketToRes(t, fmt)
  {
    match TicketRepository.FindTicketByID(ts, id)
    case Err(e) => Err(e)
    case Ok(t) => Ok(TicketToRes(t, fmt))
  }

  /** The view of every ticket of a list, in order: the loop FindAllTickets
      and FindAllTicketsByUserID share. */
  method ProjectTickets(ts: seq<Ticket>, fmt: Instant -> string) returns (rs: seq<TicketRes>)
    ensures |rs| == |ts|
    ensures forall i :: 0 <= i < |ts| ==> rs[i] == TicketToRes(ts[i], fmt)
  {
    rs := [];
    for i := 0 to |ts|
      invariant |rs| == i
      invariant forall j :: 0 <= j < i ==> rs[j] == TicketToRes(ts[j], fmt)
    {
      rs := rs + [TicketToRes(ts[i], fmt)];
    }
  }

  /** FindAllTickets: the view of every ticket, in table order. */
  method FindAllTickets(db: Database, fmt: Instant -> string) returns (rs: seq<TicketRes>)
    requires db.Valid()
    ensures |rs| == |db.tickets|
    ensures forall i :: 0 <= i < |rs| ==> rs[i] == TicketToRes(db.tickets[i], fmt)
    ensures forall i, j :: 0 <= i < j < |rs| ==> rs[i].Id < rs[j].Id
  {
    rs := ProjectTickets(db.tickets, fmt);
  }

  /** FindAllTicketsByUserID: the views of exactly the user's tickets, in
      table order. */
  method FindAllTicketsByUserID(db: Database, userId: int, fmt: Instant -> string) returns (rs: seq<TicketRes>)
    requires db.Valid()
    ensures |rs| <= |db.tickets|
    ensures forall r :: r in rs ==> r.UserID == userId && exists t :: t in db.tickets && r == TicketToRes(t, fmt)
    ensures forall t :: t in db.tickets && t.UserID == userId ==> TicketToRes(t, fmt) in rs
    ensures forall i, j :: 0 <= i < j < |rs| ==> rs[i].Id < rs[j].Id
  {
    var mine := TicketRepository.FindAllTicketsByUserID(db.tickets, userId);
    rs := ProjectTickets(mine, fmt);
    forall t | t in db.tickets && t.UserID == userId
      ensures TicketToRes(t, fmt) in rs
    {
      var k :| 0 <= k < |mine| && mine[k] == t;
      assert rs[k] == TicketToRes(t, fmt);
    }
  }

  /** The status UpdateTicket keeps: the request's when it is non-empty,
      otherwise the stored one. */
  function MergeTicketStatus(current: string, requested: string): (s: string)
    ensures requested != "" ==> s == requested
    ensures requested == "" ==> s == current
  {
    if requested != "" && requested != current then requested else current
  }

  /** UpdateTicket: an unknown id returns the lookup error and changes
      nothing; otherwise the ticket takes the merged status and a new
      updated_at, and no seat count moves. */
  method UpdateTicket(db: Database, id: int, req: UpdateTicketReq, now: Instant) returns (err: Option<Error>)
    requires db.Valid()
    modifies db`tickets
    ensures db.Valid()
    ensures err.Some? <==> forall j :: 0 <= j < |old(db.tickets)| ==> old(db.tickets)[j].Id != id
    ensures err.Some? ==> err == Some(RecordNotFound) && db.tickets == old(db.tickets)
    ensures err.None? ==>
              var i := FindTicketIndex(old(db.tickets), id).value;
              db.tickets == old(db.tickets)[i := old(db.tickets)[i].(Status := MergeTicketStatus(old(db.tickets)[i].Status, req.Status), UpdatedAt := now)]
    ensures BookingConsistent(db.events, old(db.tickets)) ==> BookingConsistent(db.events, db.tickets)
  {
    var existing := TicketRepository.FindTicketByID(db.tickets, id);
    if existing.Err? {
      return Some(existing.error);
    }
    var ticket := existing.value;
    if req.Status != "" && req.Status != ticket.Status {
      ticket := ticket.(Status := req.Status);
    }
    ghost var i := FindTicketIndex(db.tickets, id).value;
    assert db.tickets[i] == existing.value;
    TicketRepository.UpdateTicket(db, id, ticket, now);
    assert db.tickets[i] == old(db.tickets)[i].(Status := MergeTicketStatus(old(db.tickets)[i].Status, req.Status), UpdatedAt := now);
    if BookingConsistent(db.events, old(db.tickets)) {
      TicketUpdatePreservesConsistency(db.events, old(db.tickets), i, db.tickets[i]);
    }
    err := None;
  }

  /** A status change is bookkeeping only: the ticket keeps counting against
      its event, so a ticket set to any status (a cancellation too) does not
      give its seat back. */
  lemma StatusChangeKeepsSeat(ts: seq<Ticket>, i: nat, status: string, now: Instant, eventId: int)
    requires i < |ts|
    ensures TicketsFor(ts[i := ts[i].(Status := status, UpdatedAt := now)], eventId) == TicketsFor(ts, eventId)
  {
    TicketsForUpdate(ts, i, ts[i].(Status := status, UpdatedAt := now), eventId);
  }
}
