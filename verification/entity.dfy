/** The records of the booking system: stored rows (Event, Ticket, User), the
    request bodies with their validation tags, and the response projections.
    Go's `int` fields are unbounded integers here. */
module Entity {
  import opened Base
  import opened Dates

  // ---------------------------------------------------------------- events

  datatype Event = Event(
    Id: int,
    Name: string,
    Description: string,
    Location: string,
    Date: CivilDate,
    Category: string,
    Capacity: int,
    Price: int,
    Status: string,
    AvailableTickets: int,
    TicketAvailability: string,
    CreatedAt: Instant,
    UpdatedAt: Instant)

  /** The column default of events.status, used when a row is inserted with
      an empty status. */
  const DefaultEventStatus := "active"

  datatype CreateEventReq = CreateEventReq(
    Name: string,
    Description: string,
    Location: string,
    Date: string,
    Category: string,
    Capacity: int,
    Price: int)

  /** Zero and empty values mean "keep the stored value" to the service;
      Date is accepted but never used. */
  datatype UpdateEventReq = UpdateEventReq(
    Name: string,
    Description: string,
    Location: string,
    Date: string,
    Category: string,
    Capacity: int,
    Price: int,
    Status: string,
    AvailableTickets: int,
    TicketAvailability: string)

  datatype EventRes = EventRes(
    Id: int,
    Name: string,
    Description: string,
    Location: string,
    Date: string,
    Category: string,
    Capacity: int,
    Price: int,
    Status: string,
    AvailableTickets: int,
    TicketAvailability: string,
    CreatedAt: string,
    UpdatedAt: string)

  // --------------------------------------------------------------- tickets

  datatype Ticket = Ticket(
    Id: int,
    EventID: int,
    UserID: int,
    Status: string,
    CreatedAt: Instant,
    UpdatedAt: Instant)

  /** The column default of tickets.status. */
  const DefaultTicketStatus := "Dibeli"

  datatype CreateTicketReq = CreateTicketReq(EventID: int, UserID: int, Status: string)

  datatype UpdateTicketReq = UpdateTicketReq(Status: string)

  datatype TicketRes = TicketRes(
    Id: int,
    EventID: int,
    UserID: int,
    Status: string,
    CreatedAt: string,
    UpdatedAt: string)

  // ----------------------------------------------------------------- users

  /** Role is a free string; Password holds the bcrypt hash. */
  datatype User = User(
    Id: int,
    Name: string,
    Email: string,
    Password: string,
    Role: string,
    CreatedAt: Instant,
    UpdatedAt: Instant)

  datatype RegisterReq = RegisterReq(Name: string, Email: string, Password: string)

  datatype LoginReq = LoginReq(Email: string, Password: string)

  datatype UpdateUserReq = UpdateUserReq(Id: int, Name: string, Email: string, Password: string, Role: string)

  /** No password field: a projection never carries the hash. */
  datatype UserRes = UserRes(
    Id: int,
    Name: string,
    Email: string,
    Role: string,
    CreatedAt: Instant,
    UpdatedAt: Instant)

  // --------------------------------------------------------- report rows

  datatype TicketsSoldPerEvent = TicketsSoldPerEvent(
    EventID: int,
    EventName: string,
    TotalTickets: int,
    TotalRevenue: int)

  /** One row of the event report: the status label the service writes, and
      the numeric columns exactly as the store's distribution query fills
      them. */
  datatype EventStatusDistribution = EventStatusDistribution(EventStatus: string, Figures: seq<int>)

  datatype EventReport = EventReport(TotalEvent: int, EventStatusDistribution: seq<EventStatusDistribution>)

  datatype UserRoleDistribution = UserRoleDistribution(Role: string, TotalUser: int)

  datatype UserReport = UserReport(TotalUser: int, UserRoleDistribution: seq<UserRoleDistribution>)

  // ------------------------------------------------------------ validation

  /** The validator's `required` tag: the field is not the zero value of its
      type (the empty string, or 0 for an int). */
  predicate Present(s: string)
  {
    s != ""
  }

  predicate PresentInt(n: int)
  {
    n != 0
  }

  /** Every field `required`; Capacity and Price also `gte=0`. Because
      `required` rejects 0, a valid request has a capacity and a price of at
      least 1. The create-event handler checks this before the service runs;
      it is the only request validation the model keeps. */
  predicate ValidCreateEventReq(r: CreateEventReq)
    ensures ValidCreateEventReq(r) ==> r.Capacity >= 1 && r.Price >= 1
  {
    && Present(r.Name) && Present(r.Description) && Present(r.Location)
    && Present(r.Date) && Present(r.Category)
    && PresentInt(r.Capacity) && r.Capacity >= 0
    && PresentInt(r.Price) && r.Price >= 0
  }

  // ------------------------------------------------------ store defaults

  /** What an insert stores for an event: the column default replaces an
      empty status, every other value is kept. */
  function WithEventDefaults(e: Event): (r: Event)
    ensures r.Status != ""
    ensures e.Status != "" ==> r == e
    ensures r == e.(Status := r.Status)
  {
    if e.Status == "" then e.(Status := DefaultEventStatus) else e
  }

  function WithTicketDefaults(t: Ticket): (r: Ticket)
    ensures r.Status != ""
    ensures t.Status != "" ==> r == t
    ensures r == t.(Status := r.Status)
  {
    if t.Status == "" then t.(Status := DefaultTicketStatus) else t
  }

  // ---------------------------------------------------------- projections

  /** The response view of an event: every scalar column, dates as text, no
      ticket list. */
  function EventToRes(e: Event, fmt: Instant -> string): (r: EventRes)
    requires ValidDate(e.Date)
    ensures r.Id == e.Id && r.Name == e.Name && r.Description == e.Description && r.Location == e.Location
    ensures r.Category == e.Category && r.Capacity == e.Capacity && r.Price == e.Price && r.Status == e.Status
    ensures r.AvailableTickets == e.AvailableTickets && r.TicketAvailability == e.TicketAvailability
    ensures |r.Date| == 19 && r.Date[..10] == FormatDate(e.Date)
    ensures r.CreatedAt == fmt(e.CreatedAt) && r.UpdatedAt == fmt(e.UpdatedAt)
  {
    EventRes(e.Id, e.Name, e.Description, e.Location, FormatDateTime(e.Date), e.Category,
             e.Capacity, e.Price, e.Status, e.AvailableTickets, e.TicketAvailability,
             fmt(e.CreatedAt), fmt(e.UpdatedAt))
  }

  /** The response view of a ticket: its own columns, timestamps as text,
      without the nested event and user. */
  function TicketToRes(t: Ticket, fmt: Instant -> string): (r: TicketRes)
    ensures r.Id == t.Id && r.EventID == t.EventID && r.UserID == t.UserID && r.Status == t.Status
    ensures r.CreatedAt == fmt(t.CreatedAt) && r.UpdatedAt == fmt(t.UpdatedAt)
  {
    TicketRes(t.Id, t.EventID, t.UserID, t.Status, fmt(t.CreatedAt), fmt(t.UpdatedAt))
  }

  /** The response view of a user: everything but the password hash. */
  function UserToRes(u: User): (r: UserRes)
    ensures r.Id == u.Id && r.Name == u.Name && r.Email == u.Email && r.Role == u.Role
    ensures r.CreatedAt == u.CreatedAt && r.UpdatedAt == u.UpdatedAt
  {
    UserRes(u.Id, u.Name, u.Email, u.Role, u.CreatedAt, u.UpdatedAt)
  }

  /** The event view loses nothing but the precision of its formatting: two
      events with the same view under an injective timestamp formatter are
      the same event. */
  lemma EventResDeterminesEvent(a: Event, b: Event, fmt: Instant -> string)
    requires ValidDate(a.Date) && ValidDate(b.Date)
    requires forall x, y :: fmt(x) == fmt(y) ==> x == y
    requires EventToRes(a, fmt) == EventToRes(b, fmt)
    ensures a == b
  {
    ParseFormat(a.Date);
    ParseFormat(b.Date);
    assert FormatDateTime(a.Date)[..10] == FormatDateTime(b.Date)[..10];
  }

  /** The same for tickets: id, event, user and status are carried as they
      are, so equal views mean equal tickets. */
  lemma TicketResDeterminesTicket(a: Ticket, b: Ticket, fmt: Instant -> string)
    requires forall x, y :: fmt(x) == fmt(y) ==> x == y
    requires TicketToRes(a, fmt) == TicketToRes(b, fmt)
    ensures a == b
  {
  }

  /** The user view never depends on the stored password hash, and it tells
      apart any two users that differ elsewhere. */
  lemma UserResHidesPassword(u: User, v: User)
    ensures UserToRes(u) == UserToRes(v) <==> u.(Password := v.Password) == v
  {
  }
}
