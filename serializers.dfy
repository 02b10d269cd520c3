/** Input checking and order creation: the route serializer's `validate`, the
    validation of a ticket list's `trip` references, and `OrderSerializer.create`,
    which writes one order and its tickets in a single transaction. */
module Serializers {
  import opened Common
  import opened Models

  // ---------------------------------------------------------------------
  // Route validation
  // ---------------------------------------------------------------------

  /** The validated fields of a route submitted for creation. */
  datatype RouteData = RouteData(source: Station, destination: Station, distance: int)

  /** The two errors route validation raises. */
  datatype RouteError = SameStations | NonPositiveDistance

  /** The message each route error carries. */
  function RouteErrorMessage(e: RouteError): string
  {
    match e
    case SameStations => "Source and destination stations cannot be the same."
    case NonPositiveDistance => "Distance must be a positive value."
  }

  /** The route the data describes, under a given id. */
  function RouteOf(data: RouteData, id: nat): Route
  {
    Route(id, data.source, data.destination, data.distance)
  }

  /** Route validation: the same station at both ends is refused first, then a
      distance that is not positive; data that passes both is returned unchanged. */
  function ValidateRoute(data: RouteData): (r: Result<RouteData, RouteError>)
    ensures forall id: nat :: r.Ok? <==> WellFormed(RouteOf(data, id))
    ensures r.Ok? ==> r.value == data
    ensures data.source.id == data.destination.id ==> r == Err(SameStations)
    ensures data.source.id != data.destination.id && data.distance <= 0 ==> r == Err(NonPositiveDistance)
  {
    if data.source.id == data.destination.id then Err(SameStations)
    else if data.distance <= 0 then Err(NonPositiveDistance)
    else Ok(data)
  }

  /** A distance of zero is refused, with the distance message, just as a negative one. */
  lemma ZeroDistanceRefused(source: Station, destination: Station)
    requires source.id != destination.id
    ensures ValidateRoute(RouteData(source, destination, 0)) == Err(NonPositiveDistance)
    ensures RouteErrorMessage(ValidateRoute(RouteData(source, destination, 0)).error)
            == "Distance must be a positive value."
  {
  }

  // ---------------------------------------------------------------------
  // Ticket requests
  // ---------------------------------------------------------------------

  /** One ticket as submitted: `trip` is None when the client sent null. */
  datatype TicketInput = TicketInput(cargo: int, seat: int, trip: Option<nat>)

  /** One ticket request after validation: its trip is a known trip's id. */
  datatype TicketRequest = TicketRequest(cargo: int, seat: int, trip: nat)

  /** Why a `trip` reference was refused. */
  datatype TripRefError = NullTrip | UnknownTrip(pk: nat)

  /** An error keyed by the ticket's position and field name: `tickets[index].field`. */
  datatype FieldError = FieldError(index: nat, field: string, reason: TripRefError)

  /** The ticket's trip reference names an existing trip. */
  predicate TripResolves(t: TicketInput, tripIds: set<nat>)
  {
    t.trip.Some? && t.trip.value in tripIds
  }

  /** Why a trip reference that does not resolve is refused: null, or an unknown key. */
  function ReasonOf(t: TicketInput): TripRefError
  {
    match t.trip
    case None => NullTrip
    case Some(pk) => UnknownTrip(pk)
  }

  /** The error for one ticket's trip reference, if it has one. */
  function TripError(t: TicketInput, index: nat, tripIds: set<nat>): Option<FieldError>
  {
    match t.trip
    case None => Some(FieldError(index, "trip", NullTrip))
    case Some(pk) => if pk in tripIds then None else Some(FieldError(index, "trip", UnknownTrip(pk)))
  }

  /** The errors of a ticket list, one per ticket whose trip does not resolve, by position. */
  function TripErrors(inputs: seq<TicketInput>, tripIds: set<nat>): (errors: seq<FieldError>)
    ensures forall k :: 0 <= k < |errors| ==>
      errors[k].index < |inputs| && errors[k].field == "trip" && !TripResolves(inputs[errors[k].index], tripIds)
    ensures forall k :: 0 <= k < |errors| ==> errors[k].reason == ReasonOf(inputs[errors[k].index])
    ensures forall k, l :: 0 <= k < l < |errors| ==> errors[k].index < errors[l].index
  {
    if |inputs| == 0 then []
    else
      var n := |inputs| - 1;
      var before := TripErrors(inputs[..n], tripIds);
      match TripError(inputs[n], n, tripIds)
      case None => before
      case Some(e) => before + [e]
  }

  /** Every ticket whose trip does not resolve has its error in the list. */
  lemma {:induction false} TripErrorsComplete(inputs: seq<TicketInput>, tripIds: set<nat>, i: nat)
    requires i < |inputs| && !TripResolves(inputs[i], tripIds)
    ensures exists k :: 0 <= k < |TripErrors(inputs, tripIds)| && TripErrors(inputs, tripIds)[k].index == i
  {
    var n := |inputs| - 1;
    var before := TripErrors(inputs[..n], tripIds);
    if i < n {
      assert inputs[..n][i] == inputs[i];
      TripErrorsComplete(inputs[..n], tripIds, i);
      var k :| 0 <= k < |before| && before[k].index == i;
      assert TripErrors(inputs, tripIds)[k] == before[k];
    } else {
      assert TripErrors(inputs, tripIds)[|before|].index == i;
    }
  }

  /** Validation of a ticket list: every ticket whose trip does not resolve is
      reported; with none, the requests are the inputs with their trips resolved. */
  function ValidateTickets(inputs: seq<TicketInput>, tripIds: set<nat>): (r: Result<seq<TicketRequest>, seq<FieldError>>)
    ensures r.Ok? <==> forall i :: 0 <= i < |inputs| ==> TripResolves(inputs[i], tripIds)
    ensures r.Ok? ==> |r.value| == |inputs| && forall i :: 0 <= i < |inputs| ==>
      r.value[i] == TicketRequest(inputs[i].cargo, inputs[i].seat, inputs[i].trip.value)
    ensures r.Err? ==> r.error == TripErrors(inputs, tripIds) && |r.error| > 0
  {
    var errors := TripErrors(inputs, tripIds);
    if errors == [] then
      assert forall i :: 0 <= i < |inputs| ==> TripResolves(inputs[i], tripIds) by {
        forall i | 0 <= i < |inputs| ensures TripResolves(inputs[i], tripIds) {
          if !TripResolves(inputs[i], tripIds) {
            TripErrorsComplete(inputs, tripIds, i);
          }
        }
      }
      Ok(seq(|inputs|, i requires 0 <= i < |inputs| && inputs[i].trip.Some? =>
        TicketRequest(inputs[i].cargo, inputs[i].seat, inputs[i].trip.value)))
    else
      assert !TripResolves(inputs[errors[0].index], tripIds);
      Err(errors)
  }

  /** A list whose first ticket has a null trip is refused with an error at `tickets[0].trip`. */
  lemma NullTripReported(inputs: seq<TicketInput>, tripIds: set<nat>)
    requires |inputs| > 0 && inputs[0].trip.None?
    ensures ValidateTickets(inputs, tripIds).Err?
    ensures var errors := ValidateTickets(inputs, tripIds).error;
      errors[0] == FieldError(0, "trip", NullTrip)
  {
    NullTripIsFirst(inputs, tripIds, |inputs|);
    assert inputs[..|inputs|] == inputs;
  }

  /** The first error reported for a list whose first trip is null is that one. */
  lemma {:induction false} NullTripIsFirst(inputs: seq<TicketInput>, tripIds: set<nat>, n: nat)
    requires 0 < n <= |inputs| && inputs[0].trip.None?
    ensures var errors := TripErrors(inputs[..n], tripIds);
      |errors| > 0 && errors[0] == FieldError(0, "trip", NullTrip)
  {
    if n == 1 {
      assert inputs[..1][..0] == [];
    } else {
      NullTripIsFirst(inputs, tripIds, n - 1);
      assert inputs[..n][..n - 1] == inputs[..n - 1];
    }
  }

  // ---------------------------------------------------------------------
  // The ticket list as the order serializer declares it
  // ---------------------------------------------------------------------

  /** A ticket as the order serializer's nested ticket field validates it. That
      field redeclares `trip` read-only, so a posted trip is dropped and only the
      cargo and the seat remain. */
  datatype TicketData = TicketData(cargo: int, seat: int)

  /** A row an order's ticket insert hands to the storage; `trip` is None when the
      insert names no trip. */
  datatype TicketInsert = TicketInsert(order: nat, cargo: int, seat: int, trip: Option<nat>)

  /** Ticket-list validation as the order serializer declares it: no `trip` is read. */
  function ValidateTicketsAsWritten(inputs: seq<TicketInput>): Result<seq<TicketData>, seq<FieldError>>
  {
    Ok(seq(|inputs|, i requires 0 <= i < |inputs| => TicketData(inputs[i].cargo, inputs[i].seat)))
  }

  /** The inserts `create` issues for tickets validated as written: order, cargo and
      seat, and no trip. */
  function InsertsAsWritten(orderId: nat, data: seq<TicketData>): seq<TicketInsert>
  {
    seq(|data|, i requires 0 <= i < |data| => TicketInsert(orderId, data[i].cargo, data[i].seat, None))
  }

  /** As written, a list whose first trip is null passes validation, where the
      writable trip field refuses it. */
  lemma NullTripAcceptedAsWritten(inputs: seq<TicketInput>, tripIds: set<nat>)
    requires |inputs| > 0 && inputs[0].trip.None?
    ensures ValidateTicketsAsWritten(inputs).Ok?
    ensures ValidateTickets(inputs, tripIds).Err?
  {
    NullTripReported(inputs, tripIds);
  }

  /** As written, the trips posted make no difference: two lists that agree on cargo
      and seat validate to the same data, and every insert issued for them names no
      trip, whereas the corrected requests carry each posted trip. */
  lemma TripDroppedAsWritten(a: seq<TicketInput>, b: seq<TicketInput>, orderId: nat, tripIds: set<nat>)
    requires |a| == |b| && forall i :: 0 <= i < |a| ==> a[i].cargo == b[i].cargo && a[i].seat == b[i].seat
    ensures ValidateTicketsAsWritten(a) == ValidateTicketsAsWritten(b)
    ensures var rows := InsertsAsWritten(orderId, ValidateTicketsAsWritten(a).value);
      |rows| == |a| && forall i :: 0 <= i < |rows| ==> rows[i].trip.None?
    ensures ValidateTickets(a, tripIds).Ok? ==>
      forall i :: 0 <= i < |a| ==> Some(ValidateTickets(a, tripIds).value[i].trip) == a[i].trip
  {
    var da, db := ValidateTicketsAsWritten(a).value, ValidateTicketsAsWritten(b).value;
    assert |da| == |db|;
    forall i | 0 <= i < |da| ensures da[i] == db[i] {
      assert da[i] == TicketData(a[i].cargo, a[i].seat);
    }
    assert da == db;
  }

  // ---------------------------------------------------------------------
  // Orders and their tickets
  // ---------------------------------------------------------------------

  /** The tickets an order gets for its requests: one per request, in request order,
      numbered on from `firstId`, each pointing at the order. */
  function NewTickets(orderId: nat, firstId: nat, requests: seq<TicketRequest>): seq<Ticket>
  {
    seq(|requests|, i requires 0 <= i < |requests| =>
      Ticket(firstId + i, requests[i].cargo, requests[i].seat, requests[i].trip, orderId))
  }

  /** What each ticket was requested as. */
  function RequestOf(t: Ticket): TicketRequest
  {
    TicketRequest(t.cargo, t.seat, t.trip)
  }

  /** The requests a run of tickets answers, in order. */
  function RequestsOf(tickets: seq<Ticket>): seq<TicketRequest>
  {
    seq(|tickets|, i requires 0 <= i < |tickets| => RequestOf(tickets[i]))
  }

  /** The tickets that point at order `orderId`, in storage order (`order.tickets`). */
  function TicketsOf(tickets: seq<Ticket>, orderId: nat): seq<Ticket>
  {
    if |tickets| == 0 then []
    else TicketsOf(tickets[..|tickets| - 1], orderId)
         + (if tickets[|tickets| - 1].order == orderId then [tickets[|tickets| - 1]] else [])
  }

  /** How many requests name trip `trip`. */
  function RequestCount(requests: seq<TicketRequest>, trip: nat): nat
  {
    if |requests| == 0 then 0
    else RequestCount(requests[..|requests| - 1], trip) + (if requests[|requests| - 1].trip == trip then 1 else 0)
  }

  /** The new tickets give back exactly the requests they were made from: one ticket
      per request, the requested cargo, seat and trip, in request order. */
  lemma NewTicketsAnswerRequests(orderId: nat, firstId: nat, requests: seq<TicketRequest>)
    ensures RequestsOf(NewTickets(orderId, firstId, requests)) == requests
    ensures forall t :: t in NewTickets(orderId, firstId, requests) ==> t.order == orderId
  {
  }

  /** The tickets of a new order are exactly the ones created for it, in request
      order, when no stored ticket pointed at its id before. */
  lemma {:induction false} TicketsOfNewOrder(stored: seq<Ticket>, orderId: nat, firstId: nat, requests: seq<TicketRequest>)
    requires forall i :: 0 <= i < |stored| ==> stored[i].order != orderId
    ensures TicketsOf(stored + NewTickets(orderId, firstId, requests), orderId) == NewTickets(orderId, firstId, requests)
  {
    TicketsOfAppend(stored, NewTickets(orderId, firstId, requests), orderId);
    TicketsOfNone(stored, orderId);
    TicketsOfAll(NewTickets(orderId, firstId, requests), orderId);
  }

  lemma {:induction false} TicketsOfAppend(a: seq<Ticket>, b: seq<Ticket>, orderId: nat)
    ensures TicketsOf(a + b, orderId) == TicketsOf(a, orderId) + TicketsOf(b, orderId)
    decreases |b|
  {
    if |b| > 0 {
      var n := |b| - 1;
      assert (a + b)[..|a + b| - 1] == a + b[..n];
      TicketsOfAppend(a, b[..n], orderId);
    } else {
      assert a + b == a;
    }
  }

  lemma {:induction false} TicketsOfNone(tickets: seq<Ticket>, orderId: nat)
    requires forall i :: 0 <= i < |tickets| ==> tickets[i].order != orderId
    ensures TicketsOf(tickets, orderId) == []
  {
    if |tickets| > 0 {
      TicketsOfNone(tickets[..|tickets| - 1], orderId);
    }
  }

  lemma {:induction false} TicketsOfAll(tickets: seq<Ticket>, orderId: nat)
    requires forall i :: 0 <= i < |tickets| ==> tickets[i].order == orderId
    ensures TicketsOf(tickets, orderId) == tickets
  {
    if |tickets| > 0 {
      var n := |tickets| - 1;
      TicketsOfAll(tickets[..n], orderId);
      assert tickets == tickets[..n] + [tickets[n]];
    }
  }

  /** For every trip, the new tickets number exactly the requests that name it. */
  lemma {:induction false} NewTicketsPerTrip(orderId: nat, firstId: nat, requests: seq<TicketRequest>, trip: nat)
    ensures TicketCount(NewTickets(orderId, firstId, requests), trip) == RequestCount(requests, trip)
  {
    if |requests| > 0 {
      var n := |requests| - 1;
      NewTicketsPerTrip(orderId, firstId, requests[..n], trip);
      assert NewTickets(orderId, firstId, requests)[..n] == NewTickets(orderId, firstId, requests[..n]);
    }
  }

  /** Creating an order raises every trip's ticket count by the number of requests naming it. */
  lemma CountAfterCreate(stored: seq<Ticket>, orderId: nat, firstId: nat, requests: seq<TicketRequest>, trip: nat)
    ensures TicketCount(stored + NewTickets(orderId, firstId, requests), trip)
            == TicketCount(stored, trip) + RequestCount(requests, trip)
  {
    TicketCountAppend(stored, NewTickets(orderId, firstId, requests), trip);
    NewTicketsPerTrip(orderId, firstId, requests, trip);
  }

  /** The storage accepts every new ticket, each inserted after the ones before it. */
  predicate AllInserted(stored: seq<Ticket>, added: seq<Ticket>, insertOk: (Ticket, seq<Ticket>) -> bool)
  {
    forall i :: 0 <= i < |added| ==> insertOk(added[i], stored + added[..i])
  }

  /** The storage refused the insert of the ticket for request `index`; the ones
      before it had been inserted. */
  datatype InsertFailure = InsertFailure(index: nat)

  /** The ids of the stored orders. */
  function OrderIds(orders: seq<Order>): set<nat>
  {
    set i | 0 <= i < |orders| :: orders[i].id
  }

  /** The order and ticket tables, with the ids the next rows get. */
  class OrderStore {
    var orders: seq<Order>
    var tickets: seq<Ticket>
    var nextOrderId: nat
    var nextTicketId: nat

    /** Ids handed out so far are below the next ones, and every ticket points at a stored order. */
    ghost predicate Valid()
      reads this
    {
      (forall i :: 0 <= i < |orders| ==> orders[i].id < nextOrderId)
      && (forall i :: 0 <= i < |tickets| ==> tickets[i].id < nextTicketId)
      && (forall i :: 0 <= i < |tickets| ==> tickets[i].order in OrderIds(orders))
    }

    constructor ()
      ensures Valid() && orders == [] && tickets == [] && nextOrderId == 1 && nextTicketId == 1
    {
      orders, tickets := [], [];
      nextOrderId, nextTicketId := 1, 1;
    }

    /** No stored ticket points at the id the next order gets. */
    lemma NextOrderHasNoTickets()
      requires Valid()
      ensures forall i :: 0 <= i < |tickets| ==> tickets[i].order != nextOrderId
    {
    }

    /** Creates an order for `user` at time `now` and one ticket per request, inside
        one transaction. `insertOk` is the storage's verdict on inserting a ticket
        into the tickets present at that moment. Either everything is written, or
        nothing is: the first refused insert rolls the order and its tickets back. */
    method CreateOrder(user: nat, now: int, requests: seq<TicketRequest>, insertOk: (Ticket, seq<Ticket>) -> bool)
      returns (r: Result<Order, InsertFailure>)
      requires Valid()
      modifies this
      ensures Valid()
      ensures r.Ok? <==> AllInserted(old(tickets), NewTickets(old(nextOrderId), old(nextTicketId), requests), insertOk)
      ensures r.Ok? ==>
        r.value == Order(old(nextOrderId), now, user)
        && orders == old(orders) + [r.value]
        && tickets == old(tickets) + NewTickets(r.value.id, old(nextTicketId), requests)
        && nextOrderId == old(nextOrderId) + 1 && nextTicketId == old(nextTicketId) + |requests|
      ensures r.Err? ==>
        var added := NewTickets(old(nextOrderId), old(nextTicketId), requests);
        r.error.index < |requests|
        && AllInserted(old(tickets), added[..r.error.index], insertOk)
        && !insertOk(added[r.error.index], old(tickets) + added[..r.error.index])
        && orders == old(orders) && tickets == old(tickets)
        && nextOrderId == old(nextOrderId) && nextTicketId == old(nextTicketId)
    {
      // transaction.atomic(): the state to return to if any insert fails
      var savedOrders, savedTickets, savedNextOrder, savedNextTicket := orders, tickets, nextOrderId, nextTicketId;
      ghost var added := NewTickets(nextOrderId, nextTicketId, requests);
      var order := Order(nextOrderId, now, user);
      orders := orders + [order];
      nextOrderId := nextOrderId + 1;
      assert OrderIds(savedOrders) <= OrderIds(orders) by {
        forall k | 0 <= k < |savedOrders| ensures savedOrders[k].id in OrderIds(orders) {
          assert orders[k] == savedOrders[k];
        }
      }
      var i := 0;
      while i < |requests|
        invariant 0 <= i <= |requests|
        invariant orders == savedOrders + [order] && nextOrderId == order.id + 1
        invariant tickets == savedTickets + added[..i]
        invariant nextTicketId == savedNextTicket + i
        invariant AllInserted(savedTickets, added[..i], insertOk)
        invariant Valid()
      {
        var ticket := Ticket(nextTicketId, requests[i].cargo, requests[i].seat, requests[i].trip, order.id);
        assert ticket == added[i];
        if !insertOk(ticket, tickets) {
          orders, tickets, nextOrderId, nextTicketId := savedOrders, savedTickets, savedNextOrder, savedNextTicket;
          return Err(InsertFailure(i));
        }
        assert order.id in OrderIds(orders) by {
          assert orders[|orders| - 1] == order;
        }
        tickets := tickets + [ticket];
        nextTicketId := nextTicketId + 1;
        i := i + 1;
        assert added[..i] == added[..i - 1] + [ticket];
        assert AllInserted(savedTickets, added[..i], insertOk) by {
          forall j | 0 <= j < i
            ensures insertOk(added[..i][j], savedTickets + added[..i][..j])
          {
            assert added[..i][..j] == added[..j];
            if j < i - 1 {
              assert added[..i - 1][j] == added[j];
              assert added[..i - 1][..j] == added[..j];
            }
          }
        }
        assert forall k :: 0 <= k < |savedOrders| ==> savedOrders[k] == orders[k];
      }
      assert added[..i] == added;
      return Ok(order);
    }
  }
}
