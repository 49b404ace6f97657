/** The event service: creating an event, the field-wise update merge, the
    four-row status report and the guard in front of the cancel cascade.
    Store queries that the shown repositories do not define (whether a name
    is taken, the event totals and per-status figures, the cascade itself)
    are supplied by the caller as their outcomes. */
module EventService {
  import opened Base
  import opened Dates
  import opened Entity
  import opened Store
  import TicketRepository

  /** The status and availability label a new event starts with. */
  const ActiveStatus := "Aktif"
  const AvailableLabel := "Tersedia"

  /** The statuses of the event report, in report order. */
  const ReportStatuses: seq<string> := ["Aktif", "Berlangsung", "Selesai", "Dibatalkan"]

  /** The event CreateEvent inserts for a request whose date parsed. */
  function NewEvent(req: CreateEventReq, date: CivilDate): (e: Event)
    ensures e.Status == ActiveStatus && e.TicketAvailability == AvailableLabel
    ensures e.AvailableTickets == e.Capacity == req.Capacity
    ensures e.Name == req.Name && e.Description == req.Description && e.Location == req.Location
    ensures e.Category == req.Category && e.Price == req.Price && e.Date == date
  {
    Event(0, req.Name, req.Description, req.Location, date, req.Category, req.Capacity, req.Price,
          ActiveStatus, req.Capacity, AvailableLabel, ZeroTime, ZeroTime)
  }

  /** CreateEvent: the date must parse as YYYY-MM-DD before the store is
      asked anything; a failed or positive name lookup stops it; otherwise
      the new event is inserted with all its seats available. */
  method CreateEvent(db: Database, req: CreateEventReq, nameTaken: Result<bool>, now: Instant)
    returns (r: Result<Event>)
    requires db.Valid()
    modifies db`events, db`nextEventId
    ensures db.Valid()
    ensures ParseDate(req.Date).None? ==> r == Err(InvalidDateFormat)
    ensures ParseDate(req.Date).Some? && nameTaken.Err? ==> r == Err(nameTaken.error)
    ensures ParseDate(req.Date).Some? && nameTaken == Ok(true) ==> r == Err(EventNameExists)
    ensures r.Err? ==> db.events == old(db.events) && db.nextEventId == old(db.nextEventId)
    ensures r.Ok? <==> ParseDate(req.Date).Some? && nameTaken == Ok(false)
    ensures r.Ok? ==>
              && r.value == StampEvent(NewEvent(req, ParseDate(req.Date).value), old(db.nextEventId), now)
              && r.value.Id !in old(db.events)
              && db.events == old(db.events)[r.value.Id := r.value]
              && db.nextEventId == old(db.nextEventId) + 1
    ensures TicketRepository.BookingConsistent(old(db.events), old(db.tickets)) && req.Capacity >= 0
            ==> TicketRepository.BookingConsistent(db.events, db.tickets)
    ensures r.Ok? ==> CancelEvent(db.events, r.value.Id) == Refuse(EventNotCancellable)
                      && CancelEventCorrected(db.events, r.value.Id) == RunCascade(r.value.Id)
  {
    var date := ParseDate(req.Date);
    if date.None? {
      return Err(InvalidDateFormat);
    }
    if nameTaken.Err? {
      return Err(nameTaken.error);
    }
    if nameTaken.value {
      return Err(EventNameExists);
    }
    ghost var before := db.events;
    var stored := db.InsertEvent(NewEvent(req, date.value), now);
    r := Ok(stored);
    if TicketRepository.BookingConsistent(before, db.tickets) && req.Capacity >= 0 {
      NoTicketsForFreshId(db.tickets, stored.Id, old(db.nextEventId));
    }
  }

  /** No ticket is issued for an id that has not been handed out yet. */
  lemma {:induction false} NoTicketsForFreshId(ts: seq<Ticket>, id: int, next: int)
    requires forall i :: 0 <= i < |ts| ==> ts[i].EventID < next
    requires id >= next
    ensures TicketRepository.TicketsFor(ts, id) == 0
  {
    if ts != [] {
      NoTicketsForFreshId(Init(ts), id, next);
    }
  }

  /** The merge UpdateEvent applies: each field the request gives a
      non-empty or non-zero value replaces the stored one; Date and the
      identity and creation columns never change. */
  function MergeEventUpdate(e: Event, req: UpdateEventReq): (r: Event)
    ensures r.Id == e.Id && r.Date == e.Date && r.CreatedAt == e.CreatedAt && r.UpdatedAt == e.UpdatedAt
    ensures r.Name == (if req.Name != "" then req.Name else e.Name)
    ensures r.Description == (if req.Description != "" then req.Description else e.Description)
    ensures r.Location == (if req.Location != "" then req.Location else e.Location)
    ensures r.Category == (if req.Category != "" then req.Category else e.Category)
    ensures r.Capacity == (if req.Capacity != 0 then req.Capacity else e.Capacity)
    ensures r.Price == (if req.Price != 0 then req.Price else e.Price)
    ensures r.Status == (if req.Status != "" then req.Status else e.Status)
    ensures r.AvailableTickets == (if req.AvailableTickets != 0 then req.AvailableTickets else e.AvailableTickets)
    ensures r.TicketAvailability == (if req.TicketAvailability != "" then req.TicketAvailability else e.TicketAvailability)
  {
    e.(Name := if req.Name != "" then req.Name else e.Name,
       Description := if req.Description != "" then req.Description else e.Description,
       Location := if req.Location != "" then req.Location else e.Location,
       Category := if req.Category != "" then req.Category else e.Category,
       Capacity := if req.Capacity != 0 then req.Capacity else e.Capacity,
       Price := if req.Price != 0 then req.Price else e.Price,
       Status := if req.Status != "" then req.Status else e.Status,
       AvailableTickets := if req.AvailableTickets != 0 then req.AvailableTickets else e.AvailableTickets,
       TicketAvailability := if req.TicketAvailability != "" then req.TicketAvailability else e.TicketAvailability)
  }

  /** Applying the same update twice changes nothing more than applying it
      once, and an all-empty request changes nothing. */
  lemma MergeEventUpdateIdempotent(e: Event, req: UpdateEventReq)
    ensures MergeEventUpdate(MergeEventUpdate(e, req), req) == MergeEventUpdate(e, req)
    ensures req == UpdateEventReq("", "", "", req.Date, "", 0, 0, "", 0, "") ==> MergeEventUpdate(e, req) == e
  {
  }

  /** Because 0 means "keep", the update can never bring the seat count to
      0, while any other count, above the capacity too, goes through. */
  lemma MergeEventUpdateSeats(e: Event, req: UpdateEventReq)
    ensures MergeEventUpdate(e, req).AvailableTickets == 0 ==> e.AvailableTickets == 0
    ensures req.AvailableTickets != 0 ==> MergeEventUpdate(e, req).AvailableTickets == req.AvailableTickets
  {
  }

  /** UpdateEvent: an unknown id returns the lookup error and writes
      nothing; otherwise the merged row is saved, and no ticket is touched. */
  method UpdateEvent(db: Database, id: int, req: UpdateEventReq, now: Instant) returns (err: Option<Error>)
    requires db.Valid()
    modifies db`events
    ensures db.Valid()
    ensures id !in old(db.events) ==> err == Some(RecordNotFound) && db.events == old(db.events)
    ensures id in old(db.events) ==>
              err.None? && db.events == old(db.events)[id := MergeEventUpdate(old(db.events)[id], req).(UpdatedAt := now)]
  {
    var existing := FindEventByID(db.events, id);
    if existing.Err? {
      return Some(existing.error);
    }
    db.SaveEvent(MergeEventUpdate(existing.value, req), now);
    err := None;
  }

  /** GetEventReport: the event total first, then one distribution row per
      status of ReportStatuses, in order, each labelled with its status; the
      first failing query aborts the whole report. No row is for sold-out
      ("Habis") events. */
  method GetEventReport(totalEvents: Result<int>, distribution: string -> Result<EventStatusDistribution>)
    returns (r: Result<EventReport>)
    ensures totalEvents.Err? ==> r == Err(totalEvents.error)
    ensures r.Ok? <==> totalEvents.Ok? && forall i :: 0 <= i < |ReportStatuses| ==> distribution(ReportStatuses[i]).Ok?
    ensures r.Err? && totalEvents.Ok? ==>
              exists i :: 0 <= i < |ReportStatuses| && distribution(ReportStatuses[i]) == Err(r.error)
                          && forall j :: 0 <= j < i ==> distribution(ReportStatuses[j]).Ok?
    ensures r.Ok? ==>
              && r.value.TotalEvent == totalEvents.value
              && |r.value.EventStatusDistribution| == |ReportStatuses|
              && forall i :: 0 <= i < |ReportStatuses| ==>
                   r.value.EventStatusDistribution[i]
                   == distribution(ReportStatuses[i]).value.(EventStatus := ReportStatuses[i])
    ensures r.Ok? ==> forall row :: row in r.value.EventStatusDistribution ==> row.EventStatus != TicketRepository.SoldOutStatus
  {
    if totalEvents.Err? {
      return Err(totalEvents.error);
    }
    var rows: seq<EventStatusDistribution> := [];
    for i := 0 to |ReportStatuses|
      invariant |rows| == i
      invariant forall j :: 0 <= j < i ==> distribution(ReportStatuses[j]).Ok?
      invariant forall j :: 0 <= j < i ==>
                  rows[j] == distribution(ReportStatuses[j]).value.(EventStatus := ReportStatuses[j])
    {
      var status := ReportStatuses[i];
      var d := distribution(status);
      if d.Err? {
        return Err(d.error);
      }
      rows := rows + [d.value.(EventStatus := status)];
    }
    r := Ok(EventReport(totalEvents.value, rows));
  }

  /** What CancelEvent decides before the store's cascade runs. */
  datatype CancelDecision = RunCascade(eventId: int) | Refuse(error: Error)

  /** The cancel guard passes only for the literal statuses "active" and
      "upcoming". */
  predicate Cancellable(status: string)
  {
    status == "active" || status == "upcoming"
  }

  /** CancelEvent: an unknown id returns the lookup error; a status other
      than exactly "active" or "upcoming" is refused; otherwise the cascade
      of the store is invoked for the event. */
  function CancelEvent(events: map<int, Event>, id: int): (d: CancelDecision)
    ensures id !in events ==> d == Refuse(RecordNotFound)
    ensures id in events ==> (d == RunCascade(id) <==> Cancellable(events[id].Status))
    ensures id in events && !Cancellable(events[id].Status) ==> d == Refuse(EventNotCancellable)
  {
    match FindEventByID(events, id)
    case Err(e) => Refuse(e)
    case Ok(event) => if Cancellable(event.Status) then RunCascade(id) else Refuse(EventNotCancellable)
  }

  /** An event in the status CreateEvent stores ("Aktif") is refused by the
      guard, as is one a booking sold out ("Habis"); the row CreateEvent
      inserts has that status whatever the request, its id and the creation
      time. Only an update that writes one of the two literals makes an event
      cancellable. */
  lemma CreatedEventsAreNotCancellable(events: map<int, Event>, id: int, req: CreateEventReq, date: CivilDate,
                                       next: int, now: Instant, u: UpdateEventReq)
    requires id in events
    ensures StampEvent(WithEventDefaults(NewEvent(req, date)), next, now).Status == ActiveStatus
    ensures events[id].Status == ActiveStatus ==> CancelEvent(events, id) == Refuse(EventNotCancellable)
    ensures events[id].Status == TicketRepository.SoldOutStatus ==> CancelEvent(events, id) == Refuse(EventNotCancellable)
    ensures Cancellable(MergeEventUpdate(events[id], u).Status) ==> Cancellable(u.Status) || Cancellable(events[id].Status)
  {
  }

  /** The guard with the active status the service itself stores ("Aktif")
      accepted alongside the two literals; every other status is refused as
      before. */
  predicate CancellableCorrected(status: string)
  {
    Cancellable(status) || status == ActiveStatus
  }

  /** CancelEvent with the corrected guard; it decides as CancelEvent does
      for every status but "Aktif". */
  function CancelEventCorrected(events: map<int, Event>, id: int): (d: CancelDecision)
    ensures id !in events ==> d == Refuse(RecordNotFound)
    ensures id in events ==> (d == RunCascade(id) <==> CancellableCorrected(events[id].Status))
    ensures id in events && !CancellableCorrected(events[id].Status) ==> d == Refuse(EventNotCancellable)
    ensures id in events && events[id].Status != ActiveStatus ==> d == CancelEvent(events, id)
  {
    match FindEventByID(events, id)
    case Err(e) => Refuse(e)
    case Ok(event) => if CancellableCorrected(event.Status) then RunCascade(id) else Refuse(EventNotCancellable)
  }

  /** Under the corrected guard an event in the status CreateEvent stores
      can be cancelled, and a sold-out one still cannot. */
  lemma CreatedEventsAreCancellable(events: map<int, Event>, id: int)
    requires id in events
    ensures events[id].Status == ActiveStatus ==> CancelEventCorrected(events, id) == RunCascade(id)
    ensures events[id].Status == TicketRepository.SoldOutStatus ==> CancelEventCorrected(events, id) == Refuse(EventNotCancellable)
  {
  }
}
