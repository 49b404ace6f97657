/** The ticket repository's writes and row lookups: the booking transaction
    that takes one seat from an event and inserts the ticket, the invariant
    that transaction keeps between seats and tickets, and the plain ticket
    queries and updates. */
module TicketRepository {
  import opened Base
  import opened Entity
  import opened Store

  /** The status the transaction writes when the last seat goes. */
  const SoldOutStatus := "Habis"

  /** The store statements of the booking transaction, in order; a booking
      is given the one that fails, if any. */
  datatype TxStep = ReadEvent | WriteAvailable | WriteStatus | InsertTicket | Commit

  /** The event row after one committed booking: one seat fewer, and the
      sold-out status exactly when no seat is left. */
  function Reserve(e: Event, now: Instant): (r: Event)
    ensures r.AvailableTickets == e.AvailableTickets - 1
    ensures r.Status == (if r.AvailableTickets == 0 then SoldOutStatus else e.Status)
    ensures r == e.(AvailableTickets := r.AvailableTickets, Status := r.Status, UpdatedAt := now)
  {
    var left := e.AvailableTickets - 1;
    e.(AvailableTickets := left,
       Status := if left == 0 then SoldOutStatus else e.Status,
       UpdatedAt := now)
  }

  /** When the transaction commits: the event is read, has a seat, and no
      store statement that runs fails. The status write only runs for the
      last seat, so a fault planned there is harmless otherwise. The event's
      status is not consulted. */
  predicate Commits(events: map<int, Event>, eventId: int, fault: Option<TxStep>)
    ensures Commits(events, eventId, fault) ==>
              && eventId in events && events[eventId].AvailableTickets >= 1
              && fault !in {Some(ReadEvent), Some(WriteAvailable), Some(InsertTicket), Some(Commit)}
    ensures eventId in events && events[eventId].AvailableTickets >= 2 && fault == Some(WriteStatus)
            ==> Commits(events, eventId, fault)
  {
    && fault != Some(ReadEvent)
    && eventId in events
    && events[eventId].AvailableTickets > 0
    && (fault.None? || (fault == Some(WriteStatus) && events[eventId].AvailableTickets != 1))
  }

  /** When the ticket insert itself runs and succeeds, so that the caller's
      ticket receives its id and timestamps: on every committed booking, and
      also when only the commit fails afterwards. */
  predicate Inserted(events: map<int, Event>, eventId: int, fault: Option<TxStep>)
    ensures Inserted(events, eventId, fault) ==>
              && eventId in events && events[eventId].AvailableTickets >= 1
              && fault !in {Some(ReadEvent), Some(WriteAvailable), Some(InsertTicket)}
    ensures Inserted(events, eventId, fault) && fault != Some(Commit) ==> Commits(events, eventId, fault)
  {
    Commits(events, eventId, fault)
    || (eventId in events && events[eventId].AvailableTickets > 0 && fault == Some(Commit))
  }

  /** The error the booking transaction returns: the failed read, the
      missing event, the sold-out event, or the failing write or commit;
      none exactly when it commits. */
  function BookingError(events: map<int, Event>, eventId: int, fault: Option<TxStep>): (r: Option<Error>)
    ensures r.None? <==> Commits(events, eventId, fault)
    ensures fault == Some(ReadEvent) ==> r == Some(StoreFailure)
    ensures fault != Some(ReadEvent) && eventId !in events ==> r == Some(RecordNotFound)
    ensures fault != Some(ReadEvent) && eventId in events && events[eventId].AvailableTickets <= 0
            ==> r == Some(NoAvailableTickets)
    ensures fault != Some(ReadEvent) && eventId in events && events[eventId].AvailableTickets > 0 && r.Some?
            ==> r == Some(StoreFailure)
  {
    if fault == Some(ReadEvent) then Some(StoreFailure)
    else if eventId !in events then Some(RecordNotFound)
    else if events[eventId].AvailableTickets <= 0 then Some(NoAvailableTickets)
    else if Commits(events, eventId, fault) then None
    else Some(StoreFailure)
  }

  /** When the ticket insert is issued at all: the event was read, has a
      seat, and the seat write and, for the last seat, the status write did
      not fail. gorm fills the ticket's unset timestamps while it builds the
      statement, before the database can refuse it (for instance because the
      user id names no user). */
  predicate InsertRan(events: map<int, Event>, eventId: int, fault: Option<TxStep>)
  {
    && eventId in events
    && events[eventId].AvailableTickets > 0
    && fault != Some(ReadEvent) && fault != Some(WriteAvailable)
    && !(fault == Some(WriteStatus) && events[eventId].AvailableTickets == 1)
  }

  /** Every successful insert was issued, and an issued insert that is not
      the failing statement succeeds. */
  lemma InsertRanThenInserted(events: map<int, Event>, eventId: int, fault: Option<TxStep>)
    ensures Inserted(events, eventId, fault) ==> InsertRan(events, eventId, fault)
    ensures InsertRan(events, eventId, fault) && fault != Some(InsertTicket) ==> Inserted(events, eventId, fault)
  {
    match fault
    case None =>
    case Some(step) =>
      match step
      case ReadEvent =>
      case WriteAvailable =>
      case WriteStatus =>
      case InsertTicket =>
      case Commit =>
  }

  /** The ticket as the caller sees it after the transaction: stamped with
      the new id when the insert went through, stamped with the time only
      when the insert was issued and refused, untouched otherwise. */
  function AfterBooking(events: map<int, Event>, ticket: Ticket, fault: Option<TxStep>, nextId: int, now: Instant): (r: Ticket)
    ensures Inserted(events, ticket.EventID, fault) ==> r.Id == nextId
    ensures !Inserted(events, ticket.EventID, fault) ==> r.Id == ticket.Id
    ensures InsertRan(events, ticket.EventID, fault) ==>
              && r.CreatedAt == (if ticket.CreatedAt == ZeroTime then now else ticket.CreatedAt)
              && r.UpdatedAt == (if ticket.UpdatedAt == ZeroTime then now else ticket.UpdatedAt)
              && r.Status == WithTicketDefaults(ticket).Status
    ensures !InsertRan(events, ticket.EventID, fault) ==> r == ticket
    ensures r.EventID == ticket.EventID && r.UserID == ticket.UserID
  {
    InsertRanThenInserted(events, ticket.EventID, fault);
    if Inserted(events, ticket.EventID, fault) then StampTicket(WithTicketDefaults(ticket), nextId, now)
    else if InsertRan(events, ticket.EventID, fault) then StampTicket(WithTicketDefaults(ticket), ticket.Id, now)
    else ticket
  }

  /** The id and timestamps gorm's insert fills in. */
  function StampTicket(t: Ticket, id: int, now: Instant): (r: Ticket)
    ensures r.Id == id && r.EventID == t.EventID && r.UserID == t.UserID && r.Status == t.Status
    ensures r.CreatedAt == (if t.CreatedAt == ZeroTime then now else t.CreatedAt)
    ensures r.UpdatedAt == (if t.UpdatedAt == ZeroTime then now else t.UpdatedAt)
  {
    t.(Id := id,
       CreatedAt := if t.CreatedAt == ZeroTime then now else t.CreatedAt,
       UpdatedAt := if t.UpdatedAt == ZeroTime then now else t.UpdatedAt)
  }

  // ------------------------------------------- the seat/ticket invariant

  /** The number of tickets, of any status, issued for an event. */
  function TicketsFor(ts: seq<Ticket>, eventId: int): nat
  {
    if ts == [] then 0
    else TicketsFor(Init(ts), eventId) + (if Last(ts).EventID == eventId then 1 else 0)
  }

  /** Seats never go negative, and the seats left plus the tickets issued
      make up the capacity. An event created with AvailableTickets equal to
      its capacity and touched only by bookings keeps this. */
  predicate BookingConsistent(events: map<int, Event>, ts: seq<Ticket>)
  {
    forall id :: id in events ==>
      0 <= events[id].AvailableTickets
      && events[id].AvailableTickets + TicketsFor(ts, id) == events[id].Capacity
  }

  lemma TicketsForAppend(ts: seq<Ticket>, t: Ticket, eventId: int)
    ensures TicketsFor(ts + [t], eventId) == TicketsFor(ts, eventId) + (if t.EventID == eventId then 1 else 0)
  {
    assert Init(ts + [t]) == ts;
  }

  /** Committing a booking keeps the invariant: the seat taken from the event
      is the ticket added for it, and no other event is touched. */
  lemma ReservePreservesConsistency(events: map<int, Event>, ts: seq<Ticket>, t: Ticket, now: Instant)
    requires BookingConsistent(events, ts)
    requires t.EventID in events && events[t.EventID].AvailableTickets > 0
    ensures BookingConsistent(events[t.EventID := Reserve(events[t.EventID], now)], ts + [t])
  {
    var events' := events[t.EventID := Reserve(events[t.EventID], now)];
    forall id | id in events'
      ensures 0 <= events'[id].AvailableTickets
      ensures events'[id].AvailableTickets + TicketsFor(ts + [t], id) == events'[id].Capacity
    {
      TicketsForAppend(ts, t, id);
    }
  }

  /** Rewriting one ticket without moving it to another event leaves every
      event's ticket count as it was. */
  lemma {:induction false} TicketsForUpdate(ts: seq<Ticket>, i: nat, t: Ticket, eventId: int)
    requires i < |ts| && t.EventID == ts[i].EventID
    ensures TicketsFor(ts[i := t], eventId) == TicketsFor(ts, eventId)
  {
    if i < |ts| - 1 {
      assert Init(ts[i := t]) == Init(ts)[i := t];
      TicketsForUpdate(Init(ts), i, t, eventId);
    } else {
      assert Init(ts[i := t]) == Init(ts);
    }
  }

  /** Hence an update of a ticket's own columns keeps the invariant. */
  lemma TicketUpdatePreservesConsistency(events: map<int, Event>, ts: seq<Ticket>, i: nat, t: Ticket)
    requires BookingConsistent(events, ts)
    requires i < |ts| && t.EventID == ts[i].EventID
    ensures BookingConsistent(events, ts[i := t])
  {
    forall id | id in events
      ensures events[id].AvailableTickets + TicketsFor(ts[i := t], id) == events[id].Capacity
    {
      TicketsForUpdate(ts, i, t, id);
    }
  }

  // ------------------------------------------------- the booking itself

  /** ticket_repository.go CreateTicket: one transaction that reads the
      event, refuses when no seat is left, then writes the seat and the
      ticket (WriteBooking) and commits; every failure rolls back all that
      was written. The new row always takes the next autoincrement id: the
      service's one call passes a ticket with id 0, and a non-zero id given
      by a caller, which gorm would insert as it is, is not modelled. */
  method CreateTicket(db: Database, ticket: Ticket, now: Instant, fault: Option<TxStep>)
    returns (stored: Ticket, err: Option<Error>)
    requires db.Valid()
    modifies db`events, db`tickets, db`nextTicketId
    ensures db.Valid()
    ensures err == BookingError(old(db.events), ticket.EventID, fault)
    ensures err.None? <==> Commits(old(db.events), ticket.EventID, fault)
    ensures fault == Some(ReadEvent) ==> err == Some(StoreFailure)
    ensures fault != Some(ReadEvent) && ticket.EventID !in old(db.events) ==> err == Some(RecordNotFound)
    ensures (fault != Some(ReadEvent) && ticket.EventID in old(db.events)
             && old(db.events)[ticket.EventID].AvailableTickets <= 0) ==> err == Some(NoAvailableTickets)
    ensures (fault != Some(ReadEvent) && ticket.EventID in old(db.events)
             && old(db.events)[ticket.EventID].AvailableTickets > 0 && err.Some?) ==> err == Some(StoreFailure)
    // all or nothing
    ensures err.Some? ==> db.events == old(db.events) && db.tickets == old(db.tickets)
                          && db.nextTicketId == old(db.nextTicketId)
    // the caller's ticket is filled in by the insert, even when the database then refuses it
    ensures stored == AfterBooking(old(db.events), ticket, fault, old(db.nextTicketId), now)
    ensures err.None? ==>
              && db.events == old(db.events)[ticket.EventID := Reserve(old(db.events)[ticket.EventID], now)]
              && db.tickets == old(db.tickets) + [stored]
              && db.nextTicketId == old(db.nextTicketId) + 1
    ensures BookingConsistent(old(db.events), old(db.tickets)) ==> BookingConsistent(db.events, db.tickets)
  {
    stored := ticket;
    if fault == Some(ReadEvent) {
      err := Some(StoreFailure);
      return;
    }
    if ticket.EventID !in db.events {
      err := Some(RecordNotFound);
      return;
    }
    if db.events[ticket.EventID].AvailableTickets <= 0 {
      err := Some(NoAvailableTickets);
      return;
    }
    stored, err := WriteBooking(db, ticket, now, fault);
  }

  /** The writing half of the transaction, for an event that was read and
      has a seat: the decremented count, the sold-out status for the last
      seat, the ticket insert and the commit, each of which may fail and
      roll back everything written so far. */
  method WriteBooking(db: Database, ticket: Ticket, now: Instant, fault: Option<TxStep>)
    returns (stored: Ticket, err: Option<Error>)
    requires db.Valid()
    requires fault != Some(ReadEvent)
    requires ticket.EventID in db.events && db.events[ticket.EventID].AvailableTickets > 0
    modifies db`events, db`tickets, db`nextTicketId
    ensures db.Valid()
    ensures err.None? <==> Commits(old(db.events), ticket.EventID, fault)
    ensures err.Some? ==> err == Some(StoreFailure)
                          && db.events == old(db.events) && db.tickets == old(db.tickets)
                          && db.nextTicketId == old(db.nextTicketId)
    ensures stored == AfterBooking(old(db.events), ticket, fault, old(db.nextTicketId), now)
    ensures err.None? ==>
              && db.events == old(db.events)[ticket.EventID := Reserve(old(db.events)[ticket.EventID], now)]
              && db.tickets == old(db.tickets) + [stored]
              && db.nextTicketId == old(db.nextTicketId) + 1
    ensures BookingConsistent(old(db.events), old(db.tickets)) ==> BookingConsistent(db.events, db.tickets)
  {
    // What a rollback restores.
    var savedEvents, savedTickets, savedNext := db.events, db.tickets, db.nextTicketId;
    stored := ticket;
    var event := db.events[ticket.EventID];
    var newAvailable := event.AvailableTickets - 1;
    if fault == Some(WriteAvailable) {
      err := Some(StoreFailure);
      return;
    }
    db.events := db.events[ticket.EventID := event.(AvailableTickets := newAvailable, UpdatedAt := now)];

    if newAvailable == 0 {
      if fault == Some(WriteStatus) {
        db.events, db.tickets, db.nextTicketId := savedEvents, savedTickets, savedNext;
        err := Some(StoreFailure);
        return;
      }
      db.events := db.events[ticket.EventID := db.events[ticket.EventID].(Status := SoldOutStatus, UpdatedAt := now)];
    }
    assert db.events == savedEvents[ticket.EventID := Reserve(event, now)];

    if fault == Some(InsertTicket) {
      db.events, db.tickets, db.nextTicketId := savedEvents, savedTickets, savedNext;
      stored, err := StampTicket(WithTicketDefaults(ticket), ticket.Id, now), Some(StoreFailure);
      return;
    }
    var created := StampTicket(WithTicketDefaults(ticket), db.nextTicketId, now);
    db.tickets := db.tickets + [created];
    db.nextTicketId := db.nextTicketId + 1;

    if fault == Some(Commit) {
      db.events, db.tickets, db.nextTicketId := savedEvents, savedTickets, savedNext;
      stored, err := created, Some(StoreFailure);
      return;
    }
    stored, err := created, None;
    assert fault.Some? ==> fault.value.ReadEvent? || fault.value.WriteAvailable? || fault.value.WriteStatus?
                           || fault.value.InsertTicket? || fault.value.Commit?;
    if BookingConsistent(savedEvents, savedTickets) {
      ReservePreservesConsistency(savedEvents, savedTickets, created, now);
    }
  }

  // ------------------------------------- bookings one after another

  /** n bookings against one event, one after the other, none failing in
      the store: the event afterwards and the number that committed. */
  function BookRepeatedly(e: Event, n: nat, now: Instant): (r: (Event, nat))
    ensures r.1 <= n && r.0.Capacity == e.Capacity
    ensures e.AvailableTickets >= 0 ==> r.1 <= e.AvailableTickets
    decreases n
  {
    if n == 0 then (e, 0)
    else if e.AvailableTickets <= 0 then (e, 0)
    else
      var (final, won) := BookRepeatedly(Reserve(e, now), n - 1, now);
      (final, won + 1)
  }

  /** With k seats left, n bookings in a row succeed exactly min(n, k) times,
      never take the count below zero, and leave the event sold out exactly
      when they used up a positive number of seats. */
  lemma {:induction false} SequentialBookings(e: Event, n: nat, now: Instant)
    requires e.AvailableTickets >= 0
    ensures var (final, won) := BookRepeatedly(e, n, now);
            && won == (if n < e.AvailableTickets then n else e.AvailableTickets)
            && final.AvailableTickets == e.AvailableTickets - won >= 0
            && final.Capacity == e.Capacity
            && final.Status == (if 0 < e.AvailableTickets <= n then SoldOutStatus else e.Status)
    decreases n
  {
    if n > 0 && e.AvailableTickets > 0 {
      SequentialBookings(Reserve(e, now), n - 1, now);
    }
  }

  /** Booking looks only at the seat count: two events that differ in
      status alone are booked alike, cancelled or not. */
  lemma BookingIgnoresStatus(events: map<int, Event>, eventId: int, fault: Option<TxStep>, status: string)
    requires eventId in events
    ensures Commits(events, eventId, fault)
            == Commits(events[eventId := events[eventId].(Status := status)], eventId, fault)
  {
  }

  // ----------------------------------------------- plain row operations

  /** FindTicketByID: the row with the id, or gorm's not-found error. */
  function FindTicketByID(ts: seq<Ticket>, id: int): (r: Result<Ticket>)
    ensures r.Ok? <==> exists j :: 0 <= j < |ts| && ts[j].Id == id
    ensures r.Ok? ==> r.value.Id == id && r.value in ts
    ensures r.Err? ==> r.error == RecordNotFound
  {
    match FindTicketIndex(ts, id)
    case Some(i) => Ok(ts[i])
    case None => Err(RecordNotFound)
  }

  /** FindAllTicketsByUserID: the user's tickets, in table order. */
  function FindAllTicketsByUserID(ts: seq<Ticket>, userId: int): (r: seq<Ticket>)
    ensures forall t :: t in r <==> t in ts && t.UserID == userId
    ensures |r| <= |ts|
    ensures TicketIdsAscending(ts) ==> TicketIdsAscending(r)
  {
    if ts == [] then []
    else if ts[0].UserID == userId then [ts[0]] + FindAllTicketsByUserID(ts[1..], userId)
    else FindAllTicketsByUserID(ts[1..], userId)
  }

  /** gorm's Updates with a struct: the non-zero columns of t overwrite the
      row, updated_at is set, and the primary key stays. */
  function ApplyTicketUpdates(row: Ticket, t: Ticket, now: Instant): (r: Ticket)
    ensures r.Id == row.Id && r.UpdatedAt == now
    ensures r.EventID == (if t.EventID != 0 then t.EventID else row.EventID)
    ensures r.UserID == (if t.UserID != 0 then t.UserID else row.UserID)
    ensures r.Status == (if t.Status != "" then t.Status else row.Status)
    ensures r.CreatedAt == (if t.CreatedAt != ZeroTime then t.CreatedAt else row.CreatedAt)
  {
    row.(EventID := if t.EventID != 0 then t.EventID else row.EventID,
         UserID := if t.UserID != 0 then t.UserID else row.UserID,
         Status := if t.Status != "" then t.Status else row.Status,
         CreatedAt := if t.CreatedAt != ZeroTime then t.CreatedAt else row.CreatedAt,
         UpdatedAt := now)
  }

  /** UpdateTicket: the row with the id receives the updates; no row with
      that id is not an error. */
  method UpdateTicket(db: Database, id: int, t: Ticket, now: Instant)
    requires db.Valid()
    requires t.Id == 0 || t.Id == id
    requires t.EventID == 0 || t.EventID < db.nextEventId
    modifies db`tickets
    ensures db.Valid()
    ensures FindTicketIndex(old(db.tickets), id).None? ==> db.tickets == old(db.tickets)
    ensures FindTicketIndex(old(db.tickets), id).Some? ==>
              var i := FindTicketIndex(old(db.tickets), id).value;
              db.tickets == old(db.tickets)[i := ApplyTicketUpdates(old(db.tickets)[i], t, now)]
  {
    var found := FindTicketIndex(db.tickets, id);
    if found.Some? {
      var i := found.value;
      db.tickets := db.tickets[i := ApplyTicketUpdates(db.tickets[i], t, now)];
    }
  }

  /** UpdateTicketStatus: writes the status, even an empty one, into the row
      with the id; no other column but updated_at changes, and a missing id
      is not an error. */
  method UpdateTicketStatus(db: Database, id: int, status: string, now: Instant)
    requires db.Valid()
    modifies db`tickets
    ensures db.Valid()
    ensures |db.tickets| == |old(db.tickets)|
    ensures forall j :: 0 <= j < |db.tickets| ==>
              db.tickets[j] == if old(db.tickets)[j].Id == id
                               then old(db.tickets)[j].(Status := status, UpdatedAt := now)
                               else old(db.tickets)[j]
    ensures BookingConsistent(db.events, old(db.tickets)) ==> BookingConsistent(db.events, db.tickets)
  {
    var found := FindTicketIndex(db.tickets, id);
    if found.Some? {
      var i := found.value;
      var updated := db.tickets[i].(Status := status, UpdatedAt := now);
      if BookingConsistent(db.events, db.tickets) {
        TicketUpdatePreservesConsistency(db.events, db.tickets, i, updated);
      }
      db.tickets := db.tickets[i := updated];
    }
  }
}
