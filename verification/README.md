# Event ticketing core, modelled in Dafny

This project models the core of a Go service for booking event tickets.
The service keeps events with a fixed capacity and a count of available
seats. Users book tickets against those events. Reports aggregate tickets,
events and users. The model is sequential and keeps the store in memory.

- **The store.** `Store.Database` is a class holding the tables the
  repositories share: an events table keyed by id, plus tickets and users
  kept in id order. Each table has its own autoincrement counter.
  `Valid()` says that:
  - every row sits under its own key;
  - ids are unique and ascending;
  - every ticket refers to an event id that has been handed out.
- **Booking** (`TicketRepository.CreateTicket`). Booking is the
  repository's transaction, written as an imperative method.
  - It reads the event, then refuses if no seat is left.
  - It writes the decremented count, and also the sold-out status "Habis"
    for the last seat.
  - It inserts the ticket and commits.
  - A `fault` parameter names the store statement that fails, if one does.
    Any failure rolls back every write. A failing insert also stands for
    a ticket whose user id names no user, which the foreign key on
    tickets.user_id refuses.
  - gorm fills the caller's ticket as the insert is built: its unset
    timestamps get the current time even when the database then refuses
    the row, and its id once the row is in, even when the commit fails.
  - The invariant it preserves is `BookingConsistent`: for every event,
    the available count is not negative, and available seats plus tickets
    issued equals the capacity.
- **Reports** (`TicketReports`). These are pure functions over the tickets
  table: totals, revenue joined to the event price, per-status counts, and
  the per-event "Dibeli" groups. Each takes an optional `created_at` window
  whose bounds are inclusive; a zero bound means "no bound".
- **Services.** They cover:
  - event creation, the field-wise event update, the four-row event report
    and the cancel guard;
  - ticket booking, lookup, listing and status update;
  - user registration with a unique email and a fixed role, login, the
    user update and the two-row role report.
- **Helpers.** The list pagination helper and the role gate of the
  protected routes.

Some collaborators are supplied from outside:

- The password hash, the hash check, the login token and the timestamp
  formatter are function parameters.
- Some store queries the services call do not appear in the repository
  files, so their outcomes are parameters too. On the event side these are
  the name-taken check and the event totals and per-status figures. On the
  user side they are the user totals and the per-role counts.

In two places the code does not agree with itself. The model follows what
each statement does:

- The cancel guard compares against the literals "active" and "upcoming"
  while the service stores "Aktif". The model keeps these literals exactly
  as written; see Findings.
- The services call `UpdateEvent(id, event)` and `UpdateUser(id, user)`,
  but the repositories declare one-argument versions. `LoginUser` also
  fills a `Token` field that `UserRes` does not declare. The model saves
  the merged row, and it returns the login view and the token side by side
  (`UserService.LoginRes`).

## Model

| member | source | states |
|---|---|---|
| Dates.ParseDate | service/event_service.go:32-35 | a date text is accepted only as exactly four digits, '-', two digits, '-', two digits, naming a month 1..12 and a day that exists in that month and year |
| Dates.ParseFormat | service/event_service.go:32 | parsing the "2006-01-02" rendering of any valid date gives that date back |
| Dates.FormatParse | service/event_service.go:32 | any accepted date text is exactly the canonical rendering of the date it denotes |
| Dates.FormatDateTime | service/event_service.go:133 | the "2006-01-02 15:04:05" rendering of a parsed date is 19 characters, and its first 10 are the date |
| Entity.ValidCreateEventReq | entity/event.go:22-30 | all fields are required; because `required` rejects 0, a valid request has capacity and price of at least 1 |
| Entity.WithEventDefaults | entity/event.go:14 | an insert stores the column default "active" in place of an empty status and keeps every other value |
| Entity.WithTicketDefaults | entity/ticket.go:9 | an insert stores the default "Dibeli" in place of an empty ticket status and keeps every other value |
| Entity.EventResDeterminesEvent | entity/event.go:45-59 | the event view carries every scalar column, so under an injective timestamp format two events with equal views are equal |
| Entity.TicketResDeterminesTicket | entity/ticket.go:26-33 | the ticket view carries id, event, user, status and both timestamps, so equal views mean equal tickets |
| Entity.EventToRes | service/event_service.go:128-142 | the event view copies every scalar column, renders the date as its "YYYY-MM-DD" text followed by the time (19 characters), and formats both timestamps |
| Entity.TicketToRes | service/ticket_service.go:34-41 | the ticket view copies id, event, user and status and formats both timestamps |
| Entity.UserToRes | service/user_service.go:61-68 | the user view copies id, name, email, role and timestamps, and has no password |
| Entity.UserResHidesPassword | entity/user.go:35-42 | two users have the same view exactly when they differ at most in the password hash |
| Store.Database.InsertEvent | repository/event_repository.go:24-26 | an insert gives the next id and gorm's creation timestamps, applies the column defaults, adds exactly that row and keeps the store valid |
| Store.Database.SaveEvent | repository/event_repository.go:40-42 | a save replaces the row with that id and sets updated_at |
| Store.Database.InsertUser | repository/user_repository.go:26-28 | a user insert appends the row with the next id and timestamps |
| Store.Database.SaveUser | repository/user_repository.go:48-50 | a user save replaces that row and sets updated_at; the store stays valid |
| Store.FindEventByID | repository/event_repository.go:28-32 | a lookup finds the event with the id, or fails with "record not found" exactly when there is none |
| Store.FindTicketIndex | repository/ticket_repository.go:77-81 | the lookup returns the first ticket with the id, or reports that none has it |
| Store.FindUserIndex | repository/user_repository.go:36-40 | a user with the id, or none exists |
| Store.IsEmailExists | repository/user_repository.go:56-59 | an email counts as registered exactly when the email lookup finds a user; the query never fails |
| Store.FindUserByEmail | repository/user_repository.go:30-34 | the lookup returns the first (lowest-id) user with the email, or reports that none has it |
| TicketRepository.Commits | repository/ticket_repository.go:34-74 | a committed booking read an existing event with at least one seat, and no statement that ran failed; a status-write fault with two or more seats left is harmless, since that write never runs |
| TicketRepository.InsertRanThenInserted | repository/ticket_repository.go:50-74 | the insert (InsertRan) is issued only after the event was read with a seat and the seat and status writes succeeded; every successful insert was issued, and an issued insert that is not itself the failing statement succeeds |
| TicketRepository.BookingError | repository/ticket_repository.go:34-74 | the transaction's error: the read failure, "record not found" for a missing event, "no available tickets" for a sold-out one, a store failure for a failing write or commit, and none exactly when it commits |
| TicketRepository.AfterBooking | repository/ticket_repository.go:67-74 | the caller's ticket gets the new id exactly when the insert succeeded, gets the current time for unset timestamps and the default status whenever the insert was issued, and is untouched when it was not |
| TicketRepository.Inserted | repository/ticket_repository.go:67-74 | the ticket insert ran and succeeded only if the event had a seat and the read, the seat write and the insert did not fail; apart from a failing commit, this is exactly a committed booking |
| TicketRepository.BookRepeatedly | repository/ticket_repository.go:45-65 | n bookings in a row succeed at most n times and at most once per available seat, and never change the capacity |
| TicketRepository.Reserve | repository/ticket_repository.go:50-65 | a committed booking leaves one seat fewer, sets status "Habis" exactly when the new count is 0, and changes nothing else |
| TicketRepository.CreateTicket | repository/ticket_repository.go:34-75 | the transaction commits exactly when the event exists, has a seat, and no statement fails; each error case is named; on error the store is unchanged; on success the event is reserved and the stamped ticket appended; the caller's ticket comes back as AfterBooking describes; BookingConsistent is preserved |
| TicketRepository.WriteBooking | repository/ticket_repository.go:50-74 | the write half: a fault at any statement rolls back every earlier write; otherwise the seat is written, the status too for the last seat, and the ticket is inserted; the caller's ticket comes back as AfterBooking describes |
| TicketRepository.StampTicket | repository/ticket_repository.go:67-71 | an insert gives the ticket its id and fills an unset timestamp with the current time |
| TicketRepository.TicketsForAppend | repository/ticket_repository.go:67-71 | inserting a ticket raises its own event's ticket count by one and leaves every other event's count as it was |
| TicketRepository.ReservePreservesConsistency | repository/ticket_repository.go:45-71 | a booking on an event with a seat keeps seats + tickets = capacity and seats >= 0 for every event |
| TicketRepository.SequentialBookings | repository/ticket_repository.go:45-65 | n bookings against k seats succeed min(n, k) times; the count never goes below 0, the capacity stays, and the status becomes "Habis" exactly when 0 < k <= n |
| TicketRepository.BookingIgnoresStatus | repository/ticket_repository.go:39-48 | whether a booking commits does not depend on the event's status (a cancelled event can still be booked) |
| TicketRepository.FindTicketByID | repository/ticket_repository.go:77-81 | a lookup finds a ticket with the id, or fails with "record not found" exactly when there is none |
| TicketRepository.FindAllTicketsByUserID | repository/ticket_repository.go:101-105 | the user's tickets are exactly the table's tickets with that user id, in the model's id order |
| TicketRepository.ApplyTicketUpdates | repository/ticket_repository.go:89-95 | a struct update overwrites only the non-zero columns, keeps the id and sets updated_at |
| TicketRepository.UpdateTicket | repository/ticket_repository.go:89-95 | the first row with the id takes the updates; a missing id changes nothing and is not an error |
| TicketRepository.TicketsForUpdate | repository/ticket_repository.go:209-212 | rewriting a ticket without changing its event leaves every event's ticket count as it was |
| TicketRepository.TicketUpdatePreservesConsistency | repository/ticket_repository.go:209-212 | such a rewrite keeps BookingConsistent |
| TicketRepository.UpdateTicketStatus | repository/ticket_repository.go:209-212 | only the status and updated_at of the ticket with the id change, even to an empty status; BookingConsistent is kept |
| TicketReports.TotalTicketsUnbounded | repository/ticket_repository.go:107-121 | with no bound, the ticket total is the size of the table, whatever the status and whether or not the event still exists |
| TicketReports.WiderWindowCountsMore | repository/ticket_repository.go:111-117 | a window admitting more instants never counts fewer tickets |
| TicketReports.GetTotalTickets | repository/ticket_repository.go:107-121 | the ticket total of a window never exceeds the size of the table |
| TicketReports.GetTotalRevenue | repository/ticket_repository.go:123-147 | with non-negative prices, the revenue total is not negative |
| TicketReports.StatusCount | repository/ticket_repository.go:149-178 | one status never counts more tickets than the ticket total of the same window |
| TicketReports.StatusRevenue | repository/ticket_repository.go:149-178 | with non-negative prices, one status's revenue lies between 0 and the revenue total of the same window |
| TicketReports.GetTicketStatusDistribution | repository/ticket_repository.go:149-178 | the status row's count lies between 0 and the ticket total, and, with non-negative prices, its revenue between 0 and the revenue total |
| TicketReports.TwoStatusesAddUp | repository/ticket_repository.go:123-178 | when every ticket joins and has one of two statuses, the two status rows add up to the ticket total and the revenue total |
| TicketReports.SoldEventIds | repository/ticket_repository.go:180-198 | the groups are distinct event ids; an id is a group exactly when a purchased, joined ticket of the window (and of the filter event, if non-zero) names it |
| TicketReports.GetTicketsSoldPerEvent | repository/ticket_repository.go:180-207 | one row per group, in group order |
| TicketReports.GroupRevenueIsCountTimesPrice | repository/ticket_repository.go:200 | a group's SUM(price) is its COUNT times its event's price |
| TicketReports.GroupsAreJoined | repository/ticket_repository.go:182-198 | a group exists only for an existing event, and only the filter event when the filter is non-zero |
| TicketReports.SoldPerEventRows | repository/ticket_repository.go:180-207 | the rows name distinct existing events with their names; each has at least one ticket, and revenue = count × price; every event with a sold ticket has its row |
| TicketReports.GroupsPartitionSold | repository/ticket_repository.go:185-200 | summing a row measure over all groups gives that measure over all sold tickets |
| TicketReports.SoldIsPurchasedStatus | repository/ticket_repository.go:149-198 | with no event filter, the sold tickets are exactly the "Dibeli" tickets of the status distribution |
| TicketReports.SoldPerEventMatchesDistribution | repository/ticket_repository.go:149-207 | the per-event rows add up to the "Dibeli" row of the status distribution, in tickets and in revenue |
| EventService.NewEvent | service/event_service.go:46-57 | a new event is "Aktif" and "Tersedia", has every seat available, and copies its fields from the request |
| EventService.CreateEvent | service/event_service.go:30-61 | a bad date is refused before the name check; a failed or positive name check is refused; nothing is stored on refusal; otherwise exactly the new event is inserted and BookingConsistent is kept; only the events table and its counter change; the stored event is refused by CancelEvent and accepted by CancelEventCorrected |
| EventService.MergeEventUpdate | service/event_service.go:77-111 | each non-empty or non-zero request field replaces the stored one; date, id and timestamps never change |
| EventService.MergeEventUpdateIdempotent | service/event_service.go:77-111 | applying an update twice equals applying it once, and an all-empty update changes nothing |
| EventService.MergeEventUpdateSeats | service/event_service.go:105-107 | the update cannot set the available count to 0, and sets any non-zero count, above capacity too |
| EventService.UpdateEvent | service/event_service.go:71-114 | an unknown id fails with the lookup error and writes nothing; otherwise the merged row is saved |
| EventService.GetEventReport | service/event_service.go:148-175 | on success there are exactly four rows in the fixed status order, each labelled and holding its figures, and none is for "Habis"; a failed total or status query aborts with the first error |
| EventService.CancelEvent | service/event_service.go:177-191 | an unknown id fails with the lookup error; the cascade runs exactly when the status is literally "active" or "upcoming"; otherwise the request is refused |
| EventService.CreatedEventsAreNotCancellable | service/event_service.go:185 | the row CreateEvent inserts is "Aktif" for every request, id and time; an event in that status, or one sold out ("Habis"), is always refused |
| EventService.CancelEventCorrected | service/event_service.go:185 | the corrected guard also accepts "Aktif", and otherwise decides as the original does |
| EventService.CreatedEventsAreCancellable | service/event_service.go:185 | under the corrected guard an event in the status CreateEvent stores ("Aktif") can be cancelled, and a sold-out one still cannot |
| TicketService.NewTicket | service/ticket_service.go:26-30 | a new ticket takes the request's event and user, with status "Dibeli" |
| TicketService.CreateTicket | service/ticket_service.go:25-44 | a booking has status "Dibeli" whatever the request says; the view is returned on failure too: id 0 and unset timestamps when the insert was never issued, id 0 and the current time when the insert was refused, the new id when only the commit failed; the repository's error is returned as it is (BookingError); on error the store and the ticket counter are unchanged; on success the tickets grow by exactly that ticket and the counter by one |
| TicketService.FindTicketByID | service/ticket_service.go:46-62 | the lookup fails exactly when no ticket has the id; otherwise it returns the view of a stored ticket with that id |
| TicketService.ProjectTickets | service/ticket_service.go:70-80 | the projection loop keeps length and order, and element i is the view of ticket i |
| TicketService.FindAllTickets | service/ticket_service.go:64-83 | every ticket's view is returned, one for one, in the model's id order |
| TicketService.FindAllTicketsByUserID | service/ticket_service.go:102-121 | the result holds exactly the views of the user's tickets, in the model's id order |
| TicketService.MergeTicketStatus | service/ticket_service.go:91-93 | a non-empty requested status replaces the current one; an empty one keeps it |
| TicketService.UpdateTicket | service/ticket_service.go:85-96 | an unknown id fails and writes nothing; otherwise only status and updated_at change, and BookingConsistent is kept |
| TicketService.StatusChangeKeepsSeat | service/ticket_service.go:91-95 | a status change of any kind, cancellation included, leaves every event's ticket count as it was, so no seat is returned |
| UserService.Register | service/user_service.go:32-71 | a known email is refused; a failed hash is refused; nothing is stored on refusal; otherwise a user with the hash as password is appended; unique emails stay unique |
| UserService.RegisterUser | service/user_service.go:32-71 | as Register with the role "user" whatever the input: a known email or a failed hash stores nothing; otherwise the hashed user is appended and its full view returned; only the users table and its counter change; unique emails stay unique |
| UserService.RegisterAsAdmin | service/user_service.go:176-214 | the same as RegisterUser with the role "admin" |
| UserService.LoginUser | service/user_service.go:73-101 | the lowest-id user with the email is the one checked: an unknown email fails with not-found, a mismatching password with the mismatch, a failed token with the token error; login succeeds exactly when the password matches and a token is issued, and then returns that user's view and token |
| UserService.LoginAfterRegister | service/user_service.go:73-101 | after registering with a new email, logging in with the same email and password returns the registered user's view and token |
| UserService.MergeUserUpdate | service/user_service.go:148-166 | a non-empty name, email or role replaces the stored one; a non-empty password is replaced by its hash; a hash failure is an error; the id never changes |
| UserService.MergeUserUpdateKeeps | service/user_service.go:148-166 | an all-empty update keeps the user, and a new password is stored in plain text only if the hash returns it unchanged |
| UserService.UpdateUser | service/user_service.go:142-170 | an unknown id and a hash failure fail without writing; otherwise the merged user replaces the row |
| UserService.UpdateUserCanDuplicateEmail | service/user_service.go:152-154 | the update can give two users one email, after which login by that email reaches only the lower id |
| UserService.GetUserReport | service/user_service.go:216-245 | on success there are exactly two rows, "admin" then "user", each with its count; a failed query aborts with the first error |
| Pagination.TotalPages | helper/pagination.go:32 | the page count is the ceiling of items over limit |
| Pagination.ClampPage | helper/pagination.go:35-37 | the served page is the requested one, lowered to the last page |
| Pagination.EndIndex | helper/pagination.go:40-43 | the end of the slice is the smaller of one page on and the list end |
| Pagination.StartInRange | helper/pagination.go:39-46 | with a positive limit, the slice starts inside the list exactly when the list is not empty and the page is at least 1 |
| Pagination.Paginate | helper/pagination.go:15-54 | a non-list gives an empty page, 0 pages and 0 items, and echoes the page; a list gives its size, the ceiling page count, and the clamped page's items, between 1 and limit of them |
| Pagination.PageSlice | helper/pagination.go:39-46 | page k is the slice from (k-1) × limit to k × limit, cut at the end of the list |
| Pagination.FullPagesEndInside | helper/pagination.go:32-43 | every page before the last ends inside the list |
| Pagination.PagesUpToPrefix | helper/pagination.go:39-46 | the first k pages hold exactly the first k × limit items |
| Pagination.PagesCover | helper/pagination.go:39-46 | walking all pages yields every item exactly once, in order |
| Pagination.PastTheEndIsLastPage | helper/pagination.go:35-37 | any page past the last is served as the last page |
| Pagination.EmptyListStartsBeforeTheList | helper/pagination.go:31-46 | for an empty list the page is lowered to 0 and the slice starts at -limit |
| Pagination.PaginateOrEmpty | helper/pagination.go:35-46 | the corrected helper gives an empty first page for an empty list; a page below 1 is served as page 1; otherwise it agrees with Paginate |
| Role.RoleAuth | middleware/role.go:9-29 | no role gives 401; a role in the allowed list passes; any other role, and every role when the list is empty, gives 403 |

## Left out

- Concurrency: the booking reads the event without a row lock, so parallel bookings can oversell. The model is sequential.
- Store failures of plain reads and single writes (FindAll, First, Create, Save, Count, the report scans) are not modelled. Only the booking transaction has failure injection. `GetTicketStatusDistribution` returns its counts together with the scan error; the model has no such error.
- The order of the GROUP BY rows is unspecified in SQL; the model lists the groups in order of first sale.
- TicketRepository.CreateTicket: the new row always takes the next autoincrement id. A non-zero id given by the caller, which gorm would insert as given, is not modelled; the service always passes id 0.
- An autoincrement value consumed by a rolled-back insert is not skipped; the model restores the counter.
- Integer width: Go `int`/`int64` overflow in counts, sums and the ceiling division is not modelled; integers are unbounded.
- Time: instants are integers. Time zones are not modelled. The timestamp formatter is a parameter. The event date is a calendar date at midnight.
- Not in the shown repositories, and so supplied as parameters: the event name check, the event total and per-status figures, the user total and per-role counts. The cancel cascade and the event search query are not part of this model; `EventService.CancelEvent` returns only the decision to run the cascade.
- Controllers, routes, configuration and main, including query parsing, pagination defaults and response envelopes. Request validation runs in the controllers; only the create-event rules are kept, as `Entity.ValidCreateEventReq`, for what they imply about capacity and price.
- Row order of the list queries: `Find` on the tickets table (repository/ticket_repository.go:85 and :103) has no ORDER BY, so the database may return rows in any order. The model keeps tickets in ascending id order and returns them in that order.
- Store.FindUserByEmail: matches the email exactly. The SQL `email = ?` follows the column's collation, which under the MySQL default ignores case and trailing spaces, so "A@x.com" also finds "a@x.com" there.
- Store.IsEmailExists: exact matching as well, so registration refuses fewer emails than the database would (a case variant of a registered email is accepted by the model).
- TicketReports.StatusCount: compares statuses exactly, where `tickets.status = ?` under the default collation also counts case and trailing-space variants (a ticket updated to "dibeli" counts in the "Dibeli" row there); StatusRevenue and GetTicketStatusDistribution follow it.
- TicketReports.SoldEventIds: matches "Dibeli" exactly, with the same collation difference for the per-event groups.
- Delete operations (`DeleteTicket`, `DeleteEvent`, `DeleteUser`), `FindEventByID`/`FindAllEvents` on the event service, and `FindUserByID`/`FindAllUsers` on the user service. They are single store calls with no logic of their own.
- The nested `Event`/`User` of a ticket and `Tickets` of events and users (foreign-key associations) are not modelled; the repository's update is modelled on the ticket's own columns.
- A Go nil slice (an empty list result, rendered as JSON null) and an empty slice are both the empty sequence.
- Role.RoleAuth: the role in the request context is taken to be a string; a role of another dynamic type, which never equals an allowed role, is not modelled.
- bcrypt and JWT signing are function parameters. Their outcomes are modelled, but the error texts they produce are not; each failure is a named `Error` case. `UserService.LoginAfterRegister` assumes the hash check accepts the password that was hashed.

## Findings

| source | as written | input that shows it | evidently intended | confidence | as-written member | corrected member |
|---|---|---|---|---|---|---|
| helper/pagination.go:35-46 | the page is lowered to the page count, which is 0 for an empty list, and the slice starts at (page-1)×limit | an empty list with page 1 and limit 10: the slice starts at -10, which panics in Go (the list endpoints on an empty table) | an empty list gives an empty first page | high, not executed | Pagination.EmptyListStartsBeforeTheList | Pagination.PaginateOrEmpty |
| service/event_service.go:185 | the guard passes only the literals "active" and "upcoming", but the service stores "Aktif" on creation and "Habis" when sold out | an event just made by CreateEvent: CancelEvent on its id is refused with "not in 'active' or 'upcoming' status" | an event in the active state the service itself stores can be cancelled | medium, not executed | EventService.CreatedEventsAreNotCancellable | EventService.CancelEventCorrected |
