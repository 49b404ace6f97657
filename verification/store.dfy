/** The relational store the repositories share, as one in-memory object:
    the events, tickets and users tables and their autoincrement counters,
    with the thin lookups and writes of the event and user repositories. */
module Store {
  import opened Base
  import opened Entity

  /** Rows are kept in id order, so ids are unique and gorm's First (lowest
      primary key) is the first match. */
  predicate TicketIdsAscending(ts: seq<Ticket>)
  {
    forall i, j :: 0 <= i < j < |ts| ==> ts[i].Id < ts[j].Id
  }

  predicate UserIdsAscending(us: seq<User>)
  {
    forall i, j :: 0 <= i < j < |us| ==> us[i].Id < us[j].Id
  }

  class Database {
    var events: map<int, Event>
    var tickets: seq<Ticket>
    var users: seq<User>
    var nextEventId: int
    var nextTicketId: int
    var nextUserId: int

    /** Every row carries the key it is stored under, keys lie below the next
        autoincrement value, and every ticket names an event id that has been
        handed out. */
    ghost predicate Valid()
      reads this
    {
      && 1 <= nextEventId && 1 <= nextTicketId && 1 <= nextUserId
      && (forall id :: id in events ==> events[id].Id == id && 1 <= id < nextEventId)
      && TicketIdsAscending(tickets)
      && (forall i :: 0 <= i < |tickets| ==> 1 <= tickets[i].Id < nextTicketId)
      && (forall i :: 0 <= i < |tickets| ==> tickets[i].EventID < nextEventId)
      && UserIdsAscending(users)
      && (forall i :: 0 <= i < |users| ==> 1 <= users[i].Id < nextUserId)
    }

    constructor ()
      ensures Valid()
      ensures events == map[] && tickets == [] && users == []
    {
      events, tickets, users := map[], [], [];
      nextEventId, nextTicketId, nextUserId := 1, 1, 1;
    }

    /** event_repository.go CreateEvent: insert with the next id, the column
        defaults, and gorm's creation timestamps when they are unset. */
    method InsertEvent(e: Event, now: Instant) returns (stored: Event)
      requires Valid()
      modifies this`events, this`nextEventId
      ensures Valid()
      ensures stored == StampEvent(WithEventDefaults(e), old(nextEventId), now)
      ensures events == old(events)[stored.Id := stored] && stored.Id !in old(events)
      ensures nextEventId == old(nextEventId) + 1
    {
      stored := StampEvent(WithEventDefaults(e), nextEventId, now);
      events := events[stored.Id := stored];
      nextEventId := nextEventId + 1;
    }

    /** gorm's Save of an event that exists: the whole row is replaced and
        updated_at is set. */
    method SaveEvent(e: Event, now: Instant)
      requires Valid()
      requires e.Id in events
      modifies this`events
      ensures Valid()
      ensures events == old(events)[e.Id := e.(UpdatedAt := now)]
    {
      events := events[e.Id := e.(UpdatedAt := now)];
    }

    /** user_repository.go CreateUser. */
    method InsertUser(u: User, now: Instant) returns (stored: User)
      requires Valid()
      modifies this`users, this`nextUserId
      ensures Valid()
      ensures stored == u.(Id := old(nextUserId),
                           CreatedAt := if u.CreatedAt == ZeroTime then now else u.CreatedAt,
                           UpdatedAt := if u.UpdatedAt == ZeroTime then now else u.UpdatedAt)
      ensures users == old(users) + [stored]
      ensures nextUserId == old(nextUserId) + 1
    {
      stored := u.(Id := nextUserId,
                   CreatedAt := if u.CreatedAt == ZeroTime then now else u.CreatedAt,
                   UpdatedAt := if u.UpdatedAt == ZeroTime then now else u.UpdatedAt);
      users := users + [stored];
      nextUserId := nextUserId + 1;
    }

    /** user_repository.go UpdateUser (gorm Save) of the row at index i. */
    method SaveUser(i: nat, u: User, now: Instant)
      requires Valid()
      requires i < |users| && u.Id == users[i].Id
      modifies this`users
      ensures Valid()
      ensures users == old(users)[i := u.(UpdatedAt := now)]
    {
      users := users[i := u.(UpdatedAt := now)];
    }
  }

  /** The id and creation timestamps gorm fills in on insert; a timestamp
      already set is kept. */
  function StampEvent(e: Event, id: int, now: Instant): (r: Event)
    ensures r.Id == id
    ensures r.CreatedAt == (if e.CreatedAt == ZeroTime then now else e.CreatedAt)
    ensures r.UpdatedAt == (if e.UpdatedAt == ZeroTime then now else e.UpdatedAt)
    ensures r == e.(Id := id, CreatedAt := r.CreatedAt, UpdatedAt := r.UpdatedAt)
  {
    e.(Id := id,
       CreatedAt := if e.CreatedAt == ZeroTime then now else e.CreatedAt,
       UpdatedAt := if e.UpdatedAt == ZeroTime then now else e.UpdatedAt)
  }

  /** event_repository.go FindEventByID. */
  function FindEventByID(events: map<int, Event>, id: int): (r: Result<Event>)
    ensures r.Ok? <==> id in events
    ensures r.Ok? ==> r.value == events[id]
    ensures r.Err? ==> r.error == RecordNotFound
  {
    if id in events then Ok(events[id]) else Err(RecordNotFound)
  }

  /** The position of the first ticket with the given id. */
  function FindTicketIndex(ts: seq<Ticket>, id: int): (r: Option<nat>)
    ensures r.Some? ==> r.value < |ts| && ts[r.value].Id == id
    ensures r.Some? ==> forall j :: 0 <= j < r.value ==> ts[j].Id != id
    ensures r.None? ==> forall j :: 0 <= j < |ts| ==> ts[j].Id != id
  {
    if ts == [] then None
    else if ts[0].Id == id then Some(0)
    else match FindTicketIndex(ts[1..], id)
      case None => None
      case Some(k) => Some(k + 1)
  }

  /** The position of the first user with the given id. */
  function FindUserIndex(us: seq<User>, id: int): (r: Option<nat>)
    ensures r.Some? ==> r.value < |us| && us[r.value].Id == id
    ensures r.None? ==> forall j :: 0 <= j < |us| ==> us[j].Id != id
  {
    if us == [] then None
    else if us[0].Id == id then Some(0)
    else match FindUserIndex(us[1..], id)
      case None => None
      case Some(k) => Some(k + 1)
  }

  /** user_repository.go FindUserByEmail: the lowest-id user with the email. */
  function FindUserByEmail(us: seq<User>, email: string): (r: Option<nat>)
    ensures r.Some? ==> r.value < |us| && us[r.value].Email == email
    ensures r.Some? ==> forall j :: 0 <= j < r.value ==> us[j].Email != email
    ensures r.None? ==> forall j :: 0 <= j < |us| ==> us[j].Email != email
  {
    if us == [] then None
    else if us[0].Email == email then Some(0)
    else match FindUserByEmail(us[1..], email)
      case None => None
      case Some(k) => Some(k + 1)
  }

  /** user_repository.go IsEmailExists: a count of matching rows above 0;
      the query's own error is dropped, so it never fails. */
  predicate IsEmailExists(us: seq<User>, email: string)
    ensures IsEmailExists(us, email) <==> FindUserByEmail(us, email).Some?
  {
    exists j :: 0 <= j < |us| && us[j].Email == email
  }
}
