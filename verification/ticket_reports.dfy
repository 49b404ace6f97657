/** The read-only report queries of the ticket repository: counts and sums
    over the tickets table, joined to the event's price where the query
    joins, filtered by an optional created_at window. A SUM over no rows
    (SQL NULL) reads as 0. */
module TicketReports {
  import opened Base
  import opened Entity

  const PurchasedStatus := "Dibeli"

  /** GetTotalTickets: the tickets of every status created in the window;
      no join, so a ticket whose event is gone still counts. */
  function GetTotalTickets(ts: seq<Ticket>, w: Window): (n: nat)
    ensures n <= |ts|
  {
    if ts == [] then 0
    else GetTotalTickets(Init(ts), w) + (if InWindow(w, Last(ts).CreatedAt) then 1 else 0)
  }

  /** The inner join tickets.event_id = events.id keeps a ticket only when
      its event row exists. */
  predicate Joins(events: map<int, Event>, t: Ticket)
  {
    t.EventID in events
  }

  /** The price a joined ticket contributes to SUM(events.price). */
  function PriceOf(events: map<int, Event>, t: Ticket): int
  {
    if t.EventID in events then events[t.EventID].Price else 0
  }

  /** GetTotalRevenue: the sum of the event price over every joined ticket in
      the window, of every status. */
  function GetTotalRevenue(ts: seq<Ticket>, events: map<int, Event>, w: Window): (r: int)
    ensures (forall id :: id in events ==> events[id].Price >= 0) ==> r >= 0
  {
    if ts == [] then 0
    else
      var t := Last(ts);
      GetTotalRevenue(Init(ts), events, w) + (if InWindow(w, t.CreatedAt) && Joins(events, t) then PriceOf(events, t) else 0)
  }

  /** Whether a ticket is counted by GetTicketStatusDistribution(status). */
  predicate InStatus(events: map<int, Event>, status: string, w: Window, t: Ticket)
  {
    t.Status == status && InWindow(w, t.CreatedAt) && Joins(events, t)
  }

  /** COUNT(tickets.id) of GetTicketStatusDistribution: never more than the
      ticket total of the same window. */
  function StatusCount(ts: seq<Ticket>, events: map<int, Event>, status: string, w: Window): (c: nat)
    ensures c <= GetTotalTickets(ts, w)
  {
    if ts == [] then 0
    else StatusCount(Init(ts), events, status, w) + (if InStatus(events, status, w, Last(ts)) then 1 else 0)
  }

  /** SUM(events.price) of GetTicketStatusDistribution: with non-negative
      prices, between 0 and the revenue total of the same window. */
  function StatusRevenue(ts: seq<Ticket>, events: map<int, Event>, status: string, w: Window): (r: int)
    ensures (forall id :: id in events ==> events[id].Price >= 0) ==> 0 <= r <= GetTotalRevenue(ts, events, w)
  {
    if ts == [] then 0
    else StatusRevenue(Init(ts), events, status, w) + (if InStatus(events, status, w, Last(ts)) then PriceOf(events, Last(ts)) else 0)
  }

  /** GetTicketStatusDistribution: the count and the revenue of the joined
      tickets of one status in the window. */
  function GetTicketStatusDistribution(ts: seq<Ticket>, events: map<int, Event>, status: string, w: Window): (r: (int, int))
    ensures 0 <= r.0 <= GetTotalTickets(ts, w)
    ensures (forall id :: id in events ==> events[id].Price >= 0) ==> 0 <= r.1 <= GetTotalRevenue(ts, events, w)
  {
    (StatusCount(ts, events, status, w), StatusRevenue(ts, events, status, w))
  }

  /** With no bound, GetTotalTickets counts every row of the table. */
  lemma {:induction false} TotalTicketsUnbounded(ts: seq<Ticket>)
    ensures GetTotalTickets(ts, Unbounded) == |ts|
  {
    if ts != [] {
      TotalTicketsUnbounded(Init(ts));
    }
  }

  /** A window that admits every instant another one admits counts at least
      as many tickets. */
  lemma {:induction false} WiderWindowCountsMore(ts: seq<Ticket>, narrow: Window, wide: Window)
    requires forall t :: InWindow(narrow, t) ==> InWindow(wide, t)
    ensures GetTotalTickets(ts, narrow) <= GetTotalTickets(ts, wide)
  {
    if ts != [] {
      WiderWindowCountsMore(Init(ts), narrow, wide);
    }
  }

  /** When every ticket in the table is in one of two statuses and joins its
      event, the two status rows of the report add up to the totals. */
  lemma {:induction false} TwoStatusesAddUp(ts: seq<Ticket>, events: map<int, Event>, s1: string, s2: string, w: Window)
    requires s1 != s2
    requires forall i :: 0 <= i < |ts| ==> (ts[i].Status == s1 || ts[i].Status == s2) && Joins(events, ts[i])
    ensures StatusCount(ts, events, s1, w) + StatusCount(ts, events, s2, w) == GetTotalTickets(ts, w)
    ensures StatusRevenue(ts, events, s1, w) + StatusRevenue(ts, events, s2, w) == GetTotalRevenue(ts, events, w)
  {
    if ts != [] {
      assert forall i :: 0 <= i < |Init(ts)| ==> Init(ts)[i] == ts[i];
      TwoStatusesAddUp(Init(ts), events, s1, s2, w);
    }
  }

  // ---------------------------------------------- GetTicketsSoldPerEvent

  /** Whether a ticket enters GetTicketsSoldPerEvent: purchased, created in
      the window, joined to its event, and of the requested event when
      eventId is not 0. */
  predicate Sold(events: map<int, Event>, w: Window, eventId: int, t: Ticket)
  {
    t.Status == PurchasedStatus && InWindow(w, t.CreatedAt) && Joins(events, t)
    && (eventId == 0 || t.EventID == eventId)
  }

  /** What a group sums: COUNT(tickets.id) or SUM(events.price). */
  datatype Measure = TicketCount | Revenue

  function Weight(m: Measure, events: map<int, Event>, t: Ticket): int
  {
    match m
    case TicketCount => 1
    case Revenue => PriceOf(events, t)
  }

  /** The measure summed over the sold tickets of event x (one GROUP BY
      events.id group). */
  function GroupTotal(ts: seq<Ticket>, events: map<int, Event>, w: Window, eventId: int, m: Measure, x: int): int
  {
    if ts == [] then 0
    else
      var t := Last(ts);
      GroupTotal(Init(ts), events, w, eventId, m, x) + (if Sold(events, w, eventId, t) && t.EventID == x then Weight(m, events, t) else 0)
  }

  /** The measure summed over every sold ticket, whatever its group. */
  function SoldTotal(ts: seq<Ticket>, events: map<int, Event>, w: Window, eventId: int, m: Measure): int
  {
    if ts == [] then 0
    else
      var t := Last(ts);
      SoldTotal(Init(ts), events, w, eventId, m) + (if Sold(events, w, eventId, t) then Weight(m, events, t) else 0)
  }

  lemma {:induction false} GroupCountNonNegative(ts: seq<Ticket>, events: map<int, Event>, w: Window, eventId: int, x: int)
    ensures GroupTotal(ts, events, w, eventId, TicketCount, x) >= 0
  {
    if ts != [] {
      GroupCountNonNegative(Init(ts), events, w, eventId, x);
    }
  }

  predicate Distinct(xs: seq<int>)
  {
    forall i, j :: 0 <= i < j < |xs| ==> xs[i] != xs[j]
  }

  /** The groups of the query: the ids of the events with a sold ticket,
      each once, in the order their first sold ticket appears. */
  function SoldEventIds(ts: seq<Ticket>, events: map<int, Event>, w: Window, eventId: int): (ids: seq<int>)
    ensures Distinct(ids)
    ensures forall x :: x in ids <==> GroupTotal(ts, events, w, eventId, TicketCount, x) > 0
  {
    if ts == [] then []
    else
      var prev := SoldEventIds(Init(ts), events, w, eventId);
      var t := Last(ts);
      forall x ensures GroupTotal(Init(ts), events, w, eventId, TicketCount, x) >= 0 {
        GroupCountNonNegative(Init(ts), events, w, eventId, x);
      }
      if Sold(events, w, eventId, t) && t.EventID !in prev then prev + [t.EventID] else prev
  }

  /** GetTicketsSoldPerEvent: one row per group with the event's name, the
      group's ticket count and the group's SUM(events.price). The store
      returns the groups in an unspecified order; the model lists them by
      first sale. */
  function GetTicketsSoldPerEvent(ts: seq<Ticket>, events: map<int, Event>, w: Window, eventId: int): (rows: seq<TicketsSoldPerEvent>)
    ensures var ids := SoldEventIds(ts, events, w, eventId);
            && |rows| == |ids|
            && forall i :: 0 <= i < |rows| ==> rows[i].EventID == ids[i]
  {
    var ids := SoldEventIds(ts, events, w, eventId);
    seq(|ids|, i requires 0 <= i < |ids| =>
      var x := ids[i];
      TicketsSoldPerEvent(
        x,
        if x in events then events[x].Name else "",
        GroupTotal(ts, events, w, eventId, TicketCount, x),
        GroupTotal(ts, events, w, eventId, Revenue, x)))
  }

  /** Every ticket of a group is of that group's event, so the group's
      revenue is its ticket count times the event's price. */
  lemma {:induction false} GroupRevenueIsCountTimesPrice(ts: seq<Ticket>, events: map<int, Event>, w: Window, eventId: int, x: int)
    requires x in events
    ensures GroupTotal(ts, events, w, eventId, Revenue, x)
            == GroupTotal(ts, events, w, eventId, TicketCount, x) * events[x].Price
  {
    if ts != [] {
      GroupRevenueIsCountTimesPrice(Init(ts), events, w, eventId, x);
    }
  }

  /** A group exists only for an event that still exists; this is what the
      join guarantees. */
  lemma {:induction false} GroupsAreJoined(ts: seq<Ticket>, events: map<int, Event>, w: Window, eventId: int, x: int)
    requires GroupTotal(ts, events, w, eventId, TicketCount, x) > 0
    ensures x in events
    ensures eventId == 0 || x == eventId
  {
    if ts != [] {
      if GroupTotal(Init(ts), events, w, eventId, TicketCount, x) > 0 {
        GroupsAreJoined(Init(ts), events, w, eventId, x);
      }
    }
  }

  /** The rows of GetTicketsSoldPerEvent: distinct existing events (only the
      requested one when eventId is not 0), each with at least one ticket,
      its name, and revenue equal to count times price; and every event with
      a sold ticket in the window has its row. */
  lemma SoldPerEventRows(ts: seq<Ticket>, events: map<int, Event>, w: Window, eventId: int)
    ensures var rows := GetTicketsSoldPerEvent(ts, events, w, eventId);
            && (forall i, j :: 0 <= i < j < |rows| ==> rows[i].EventID != rows[j].EventID)
            && (forall i :: 0 <= i < |rows| ==>
                  && rows[i].EventID in events
                  && (eventId == 0 || rows[i].EventID == eventId)
                  && rows[i].EventName == events[rows[i].EventID].Name
                  && rows[i].TotalTickets == GroupTotal(ts, events, w, eventId, TicketCount, rows[i].EventID) >= 1
                  && rows[i].TotalRevenue == rows[i].TotalTickets * events[rows[i].EventID].Price)
            && (forall x :: GroupTotal(ts, events, w, eventId, TicketCount, x) > 0 ==>
                  exists i :: 0 <= i < |rows| && rows[i].EventID == x)
  {
    var rows := GetTicketsSoldPerEvent(ts, events, w, eventId);
    var ids := SoldEventIds(ts, events, w, eventId);
    forall i | 0 <= i < |rows|
      ensures rows[i].EventID in events && (eventId == 0 || rows[i].EventID == eventId)
      ensures rows[i].TotalRevenue == rows[i].TotalTickets * events[rows[i].EventID].Price
    {
      assert ids[i] in ids;
      GroupsAreJoined(ts, events, w, eventId, ids[i]);
      GroupRevenueIsCountTimesPrice(ts, events, w, eventId, ids[i]);
    }
    forall x | GroupTotal(ts, events, w, eventId, TicketCount, x) > 0
      ensures exists i :: 0 <= i < |rows| && rows[i].EventID == x
    {
      assert x in ids;
      var i :| 0 <= i < |ids| && ids[i] == x;
      assert rows[i].EventID == x;
    }
  }

  // --------------- the per-event rows agree with the status distribution

  /** The measure summed over the groups listed in xs. */
  function SumGroups(xs: seq<int>, ts: seq<Ticket>, events: map<int, Event>, w: Window, eventId: int, m: Measure): int
  {
    if xs == [] then 0
    else SumGroups(Init(xs), ts, events, w, eventId, m) + GroupTotal(ts, events, w, eventId, m, Last(xs))
  }

  /** Adding one ticket to the table adds its weight to the sum over the
      groups when, and only when, its group is among them. */
  lemma {:induction false} SumGroupsAppend(xs: seq<int>, ts: seq<Ticket>, t: Ticket, events: map<int, Event>, w: Window, eventId: int, m: Measure)
    requires Distinct(xs)
    ensures SumGroups(xs, ts + [t], events, w, eventId, m)
            == SumGroups(xs, ts, events, w, eventId, m)
               + (if Sold(events, w, eventId, t) && t.EventID in xs then Weight(m, events, t) else 0)
  {
    assert Init(ts + [t]) == ts;
    if xs != [] {
      assert Distinct(Init(xs)) by {
        var ys := Init(xs);
        assert forall i :: 0 <= i < |ys| ==> ys[i] == xs[i];
      }
      SumGroupsAppend(Init(xs), ts, t, events, w, eventId, m);
      assert t.EventID in xs <==> t.EventID in Init(xs) || t.EventID == Last(xs) by {
        assert xs == Init(xs) + [Last(xs)];
      }
    }
  }

  /** The groups partition the sold tickets: summing any measure over the
      rows gives the measure over all sold tickets. */
  lemma {:induction false} GroupsPartitionSold(ts: seq<Ticket>, events: map<int, Event>, w: Window, eventId: int, m: Measure)
    ensures SumGroups(SoldEventIds(ts, events, w, eventId), ts, events, w, eventId, m)
            == SoldTotal(ts, events, w, eventId, m)
  {
    if ts != [] {
      var ts' := Init(ts);
      var t := Last(ts);
      assert ts == ts' + [t];
      var prev := SoldEventIds(ts', events, w, eventId);
      GroupsPartitionSold(ts', events, w, eventId, m);
      SumGroupsAppend(prev, ts', t, events, w, eventId, m);
      if Sold(events, w, eventId, t) && t.EventID !in prev {
        var ids := prev + [t.EventID];
        assert Init(ids) == prev && Last(ids) == t.EventID;
        // the new group had no sold ticket before t
        assert GroupTotal(ts', events, w, eventId, TicketCount, t.EventID) <= 0;
        GroupRevenueZero(ts', events, w, eventId, t.EventID);
      }
    }
  }

  /** A group with no sold ticket sums to 0 under either measure. */
  lemma {:induction false} GroupRevenueZero(ts: seq<Ticket>, events: map<int, Event>, w: Window, eventId: int, x: int)
    requires GroupTotal(ts, events, w, eventId, TicketCount, x) <= 0
    ensures GroupTotal(ts, events, w, eventId, TicketCount, x) == 0
    ensures GroupTotal(ts, events, w, eventId, Revenue, x) == 0
  {
    if ts != [] {
      GroupCountNonNegative(Init(ts), events, w, eventId, x);
      GroupRevenueZero(Init(ts), events, w, eventId, x);
    }
  }

  /** Without an event filter, the sold tickets are exactly the purchased
      tickets counted by the status distribution. */
  lemma {:induction false} SoldIsPurchasedStatus(ts: seq<Ticket>, events: map<int, Event>, w: Window)
    ensures SoldTotal(ts, events, w, 0, TicketCount) == StatusCount(ts, events, PurchasedStatus, w)
    ensures SoldTotal(ts, events, w, 0, Revenue) == StatusRevenue(ts, events, PurchasedStatus, w)
  {
    if ts != [] {
      SoldIsPurchasedStatus(Init(ts), events, w);
    }
  }

  /** The per-event report and the "Dibeli" row of the status distribution
      agree: over all events, the rows' ticket counts and revenues add up to
      that row's count and revenue. */
  lemma SoldPerEventMatchesDistribution(ts: seq<Ticket>, events: map<int, Event>, w: Window)
    ensures var ids := SoldEventIds(ts, events, w, 0);
            && SumGroups(ids, ts, events, w, 0, TicketCount) == StatusCount(ts, events, PurchasedStatus, w)
            && SumGroups(ids, ts, events, w, 0, Revenue) == StatusRevenue(ts, events, PurchasedStatus, w)
  {
    GroupsPartitionSold(ts, events, w, 0, TicketCount);
    GroupsPartitionSold(ts, events, w, 0, Revenue);
    SoldIsPurchasedStatus(ts, events, w);
  }
}
