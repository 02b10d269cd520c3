/** The view sets: the trip list with its `tickets_available` annotation and its
    query-parameter filters, the serializer each action uses, who may call what,
    and the create and list flows of routes and orders. */
module Views {
  import opened Common
  import opened Text
  import opened Dates
  import opened Queries
  import opened Models
  import opened Serializers

  // ---------------------------------------------------------------------
  // The trip list and its annotation
  // ---------------------------------------------------------------------

  /** A trip row of the trip queryset, with its annotated `tickets_available`. */
  datatype TripRow = TripRow(trip: Trip, ticketsAvailable: int)

  /** The seats of a trip not yet taken: the train's capacity less the tickets issued
      on the trip. Nothing clamps it at zero. */
  function TicketsAvailable(trip: Trip, tickets: seq<Ticket>): int
  {
    Capacity(trip.train) - TicketCount(tickets, trip.id)
  }

  /** The trip queryset: every trip, annotated with its available tickets. */
  function Annotate(trips: seq<Trip>, tickets: seq<Ticket>): seq<TripRow>
  {
    seq(|trips|, i requires 0 <= i < |trips| => TripRow(trips[i], TicketsAvailable(trips[i], tickets)))
  }

  /** After an order is created, every trip has exactly as many fewer tickets
      available as the order requested on it. */
  lemma AvailabilityAfterCreate(trip: Trip, stored: seq<Ticket>, orderId: nat, firstId: nat, requests: seq<TicketRequest>)
    ensures TicketsAvailable(trip, stored + NewTickets(orderId, firstId, requests))
            == TicketsAvailable(trip, stored) - RequestCount(requests, trip.id)
  {
    CountAfterCreate(stored, orderId, firstId, requests, trip.id);
  }

  /** Availability is not clamped: two tickets on a one-seat train leave -1 available. */
  lemma AvailabilityNotClamped(trip: Trip, a: Ticket, b: Ticket)
    requires trip.train.cargoNum == 1 && trip.train.placesInCargo == 1
    requires a.trip == trip.id && b.trip == trip.id
    ensures TicketsAvailable(trip, [a, b]) == -1
  {
    assert [a, b][..1] == [a];
    assert [a][..0] == [];
    assert TicketCount([a], trip.id) == 1;
    assert TicketCount([a, b], trip.id) == 2;
    assert Capacity(trip.train) == 1;
  }

  // ---------------------------------------------------------------------
  // Filtering the trip list
  // ---------------------------------------------------------------------

  /** The query parameters the trip list reads; None when a parameter is absent. */
  datatype QueryParams = QueryParams(
    train: Option<string>,
    source: Option<string>,
    destination: Option<string>,
    departure: Option<string>,
    arrival: Option<string>)

  /** A parameter narrows the list only when it is present and not empty. */
  predicate Given(p: Option<string>)
  {
    p.Some? && p.value != ""
  }

  /** The name fields a text parameter searches. */
  datatype NameField = TrainName | SourceName | DestinationName

  /** The timestamps whose calendar date a date parameter pins. */
  datatype DateField = DepartureDate | ArrivalDate

  /** One narrowing of the trip list. */
  datatype Criterion = NameContains(nameField: NameField, text: string) | OnDate(dateField: DateField, date: Date)

  /** A date parameter that is not of the form YYYY-MM-DD. */
  datatype QueryError = InvalidDate(param: string, value: string)

  function NameOf(t: Trip, f: NameField): string
  {
    match f
    case TrainName => t.train.name
    case SourceName => t.route.source.name
    case DestinationName => t.route.destination.name
  }

  function DateOf(t: Trip, f: DateField): Date
  {
    match f
    case DepartureDate => t.departure.date
    case ArrivalDate => t.arrival.date
  }

  /** Whether a trip passes one narrowing: a case-insensitive substring test on a
      name, or equality of a calendar date. */
  predicate Holds(t: Trip, c: Criterion)
  {
    match c
    case NameContains(f, text) => ContainsIgnoringCase(NameOf(t, f), text)
    case OnDate(f, date) => DateOf(t, f) == date
  }

  predicate MatchesAll(t: Trip, cs: seq<Criterion>)
  {
    forall i :: 0 <= i < |cs| ==> Holds(t, cs[i])
  }

  function KeepIf(c: Criterion): TripRow -> bool
  {
    (row: TripRow) => Holds(row.trip, c)
  }

  function KeepAll(cs: seq<Criterion>): TripRow -> bool
  {
    (row: TripRow) => MatchesAll(row.trip, cs)
  }

  /** The narrowing a text parameter asks for, if it is given. */
  function TextCriterion(p: Option<string>, f: NameField): seq<Criterion>
  {
    if Given(p) then [NameContains(f, p.value)] else []
  }

  /** The narrowing a date parameter asks for, if it is given; its text must parse. */
  function DateCriterion(p: Option<string>, f: DateField): seq<Criterion>
    requires Given(p) ==> ParseDate(p.value).Some?
  {
    if Given(p) then [OnDate(f, ParseDate(p.value).value)] else []
  }

  /** The narrowings the parameters ask for, or the first date that does not parse
      (the departure date is read before the arrival date). */
  function CriteriaOf(p: QueryParams): Result<seq<Criterion>, QueryError>
  {
    if Given(p.departure) && ParseDate(p.departure.value).None? then Err(InvalidDate("departure", p.departure.value))
    else if Given(p.arrival) && ParseDate(p.arrival.value).None? then Err(InvalidDate("arrival", p.arrival.value))
    else Ok(TextCriterion(p.train, TrainName) + TextCriterion(p.source, SourceName)
            + TextCriterion(p.destination, DestinationName)
            + DateCriterion(p.departure, DepartureDate) + DateCriterion(p.arrival, ArrivalDate))
  }

  /** The trip list for the parameters, as one filter by all the narrowings they ask
      for, followed by de-duplication. */
  function SelectTrips(rows: seq<TripRow>, p: QueryParams): Result<seq<TripRow>, QueryError>
  {
    match CriteriaOf(p)
    case Err(e) => Err(e)
    case Ok(cs) => Ok(Distinct(Filter(rows, KeepAll(cs))))
  }

  /** What a trip must satisfy to be listed, read straight off the parameters. */
  predicate Wanted(t: Trip, p: QueryParams)
  {
    (Given(p.train) ==> ContainsIgnoringCase(t.train.name, p.train.value))
    && (Given(p.source) ==> ContainsIgnoringCase(t.route.source.name, p.source.value))
    && (Given(p.destination) ==> ContainsIgnoringCase(t.route.destination.name, p.destination.value))
    && (Given(p.departure) ==> ParseDate(p.departure.value) == Some(t.departure.date))
    && (Given(p.arrival) ==> ParseDate(p.arrival.value) == Some(t.arrival.date))
  }

  /** Narrowing a filtered list once more is filtering by one more criterion. */
  lemma NarrowStep(rows: seq<TripRow>, cs: seq<Criterion>, c: Criterion)
    ensures Filter(Filter(rows, KeepAll(cs)), KeepIf(c)) == Filter(rows, KeepAll(cs + [c]))
  {
    forall row ensures KeepAll(cs + [c])(row) <==> KeepAll(cs)(row) && KeepIf(c)(row) {
      if KeepAll(cs)(row) && KeepIf(c)(row) {
        forall i | 0 <= i < |cs + [c]| ensures Holds(row.trip, (cs + [c])[i]) {
          if i < |cs| { assert (cs + [c])[i] == cs[i]; }
        }
      }
      if KeepAll(cs + [c])(row) {
        forall i | 0 <= i < |cs| ensures Holds(row.trip, cs[i]) {
          assert (cs + [c])[i] == cs[i];
        }
        assert (cs + [c])[|cs|] == c;
      }
    }
    FilterChain(rows, KeepAll(cs), KeepIf(c), KeepAll(cs + [c]));
  }

  /** `get_queryset`: narrows the annotated trips by each given parameter in turn,
      train, source, destination, departure date, arrival date, then drops repeated
      rows. A date parameter that does not parse is an error. */
  method GetQueryset(rows: seq<TripRow>, p: QueryParams) returns (r: Result<seq<TripRow>, QueryError>)
    ensures r == SelectTrips(rows, p)
  {
    var queryset := rows;
    ghost var applied: seq<Criterion> := [];
    FilterKeepsAll(rows, KeepAll([]));

    if Given(p.train) {
      var c := NameContains(TrainName, p.train.value);
      NarrowStep(rows, applied, c);
      queryset := Filter(queryset, KeepIf(c));
      applied := applied + [c];
    }
    if Given(p.source) {
      var c := NameContains(SourceName, p.source.value);
      NarrowStep(rows, applied, c);
      queryset := Filter(queryset, KeepIf(c));
      applied := applied + [c];
    }
    if Given(p.destination) {
      var c := NameContains(DestinationName, p.destination.value);
      NarrowStep(rows, applied, c);
      queryset := Filter(queryset, KeepIf(c));
      applied := applied + [c];
    }
    assert applied == TextCriterion(p.train, TrainName) + TextCriterion(p.source, SourceName)
                      + TextCriterion(p.destination, DestinationName);
    if Given(p.departure) {
      var date := ParseDate(p.departure.value);
      if date.None? {
        return Err(InvalidDate("departure", p.departure.value));
      }
      var c := OnDate(DepartureDate, date.value);
      NarrowStep(rows, applied, c);
      queryset := Filter(queryset, KeepIf(c));
      applied := applied + [c];
    }
    assert applied == TextCriterion(p.train, TrainName) + TextCriterion(p.source, SourceName)
                      + TextCriterion(p.destination, DestinationName) + DateCriterion(p.departure, DepartureDate);
    if Given(p.arrival) {
      var date := ParseDate(p.arrival.value);
      if date.None? {
        return Err(InvalidDate("arrival", p.arrival.value));
      }
      var c := OnDate(ArrivalDate, date.value);
      NarrowStep(rows, applied, c);
      queryset := Filter(queryset, KeepIf(c));
      applied := applied + [c];
    }
    assert applied == TextCriterion(p.train, TrainName) + TextCriterion(p.source, SourceName)
                      + TextCriterion(p.destination, DestinationName) + DateCriterion(p.departure, DepartureDate)
                      + DateCriterion(p.arrival, ArrivalDate);
    assert CriteriaOf(p) == Ok(applied);
    r := Ok(Distinct(queryset));
  }

  lemma MatchesAllAppend(t: Trip, a: seq<Criterion>, b: seq<Criterion>)
    ensures MatchesAll(t, a + b) <==> MatchesAll(t, a) && MatchesAll(t, b)
  {
    if MatchesAll(t, a) && MatchesAll(t, b) {
      forall i | 0 <= i < |a + b| ensures Holds(t, (a + b)[i]) {
        if i < |a| { assert (a + b)[i] == a[i]; } else { assert (a + b)[i] == b[i - |a|]; }
      }
    }
    if MatchesAll(t, a + b) {
      forall i | 0 <= i < |a| ensures Holds(t, a[i]) { assert (a + b)[i] == a[i]; }
      forall i | 0 <= i < |b| ensures Holds(t, b[i]) { assert (a + b)[|a| + i] == b[i]; }
    }
  }

  lemma TextCriterionMeaning(t: Trip, p: Option<string>, f: NameField)
    ensures MatchesAll(t, TextCriterion(p, f)) <==> (Given(p) ==> ContainsIgnoringCase(NameOf(t, f), p.value))
  {
    if Given(p) {
      assert TextCriterion(p, f)[0] == NameContains(f, p.value);
    }
  }

  lemma DateCriterionMeaning(t: Trip, p: Option<string>, f: DateField)
    requires Given(p) ==> ParseDate(p.value).Some?
    ensures MatchesAll(t, DateCriterion(p, f)) <==> (Given(p) ==> ParseDate(p.value) == Some(DateOf(t, f)))
  {
    if Given(p) {
      assert DateCriterion(p, f)[0] == OnDate(f, ParseDate(p.value).value);
    }
  }

  /** The narrowings the parameters ask for are exactly what `Wanted` reads off them. */
  lemma CriteriaMeaning(t: Trip, p: QueryParams)
    requires CriteriaOf(p).Ok?
    ensures MatchesAll(t, CriteriaOf(p).value) <==> Wanted(t, p)
  {
    var a := TextCriterion(p.train, TrainName);
    var b := TextCriterion(p.source, SourceName);
    var c := TextCriterion(p.destination, DestinationName);
    var d := DateCriterion(p.departure, DepartureDate);
    var e := DateCriterion(p.arrival, ArrivalDate);
    TextCriterionMeaning(t, p.train, TrainName);
    TextCriterionMeaning(t, p.source, SourceName);
    TextCriterionMeaning(t, p.destination, DestinationName);
    DateCriterionMeaning(t, p.departure, DepartureDate);
    DateCriterionMeaning(t, p.arrival, ArrivalDate);
    MatchesAllAppend(t, a, b);
    MatchesAllAppend(t, a + b, c);
    MatchesAllAppend(t, a + b + c, d);
    MatchesAllAppend(t, a + b + c + d, e);
  }

  /** A trip is listed exactly when it is among the trips and passes every given
      parameter: the train name, the source name and the destination name contain the
      parameter ignoring case, and the departure and arrival dates equal the parsed
      parameter. */
  lemma SelectTripsExactly(rows: seq<TripRow>, p: QueryParams, row: TripRow)
    requires SelectTrips(rows, p).Ok?
    ensures row in SelectTrips(rows, p).value <==> row in rows && Wanted(row.trip, p)
  {
    var cs := CriteriaOf(p).value;
    DistinctMembers(Filter(rows, KeepAll(cs)), row);
    FilterMembers(rows, KeepAll(cs), row);
    CriteriaMeaning(row.trip, p);
  }

  /** The list holds each row at most once and no more rows than the trips. */
  lemma SelectTripsDistinct(rows: seq<TripRow>, p: QueryParams)
    requires SelectTrips(rows, p).Ok?
    ensures NoDuplicates(SelectTrips(rows, p).value)
    ensures forall row :: row in SelectTrips(rows, p).value ==> row in rows
  {
    var cs := CriteriaOf(p).value;
    DistinctNoDuplicates(Filter(rows, KeepAll(cs)));
    forall row | row in SelectTrips(rows, p).value ensures row in rows {
      SelectTripsExactly(rows, p, row);
    }
  }

  /** Without any given parameter every trip is listed, each once; rows that were
      distinct already come back as they were. */
  lemma SelectTripsUnfiltered(rows: seq<TripRow>, p: QueryParams)
    requires !Given(p.train) && !Given(p.source) && !Given(p.destination)
    requires !Given(p.departure) && !Given(p.arrival)
    ensures SelectTrips(rows, p).Ok?
    ensures forall row :: row in SelectTrips(rows, p).value <==> row in rows
    ensures NoDuplicates(rows) ==> SelectTrips(rows, p) == Ok(rows)
  {
    assert TextCriterion(p.train, TrainName) == [] && TextCriterion(p.source, SourceName) == [];
    assert TextCriterion(p.destination, DestinationName) == [];
    assert DateCriterion(p.departure, DepartureDate) == [] && DateCriterion(p.arrival, ArrivalDate) == [];
    assert CriteriaOf(p).Ok? && CriteriaOf(p).value == [];
    FilterKeepsAll(rows, KeepAll([]));
    forall row ensures row in SelectTrips(rows, p).value <==> row in rows {
      DistinctMembers(rows, row);
    }
    if NoDuplicates(rows) {
      DistinctOfNoDuplicates(rows);
    }
  }

  /** The list fails exactly when a given date parameter is not of the form
      YYYY-MM-DD; a bad departure date is the one reported when both are bad. */
  lemma SelectTripsFails(rows: seq<TripRow>, p: QueryParams)
    ensures SelectTrips(rows, p).Err? <==>
      (Given(p.departure) && ParseDate(p.departure.value).None?)
      || (Given(p.arrival) && ParseDate(p.arrival.value).None?)
    ensures Given(p.departure) && ParseDate(p.departure.value).None? ==>
      SelectTrips(rows, p) == Err(InvalidDate("departure", p.departure.value))
  {
  }

  /** Applying two narrowings in either order lists the same rows. */
  lemma NarrowingOrderIrrelevant(rows: seq<TripRow>, c1: Criterion, c2: Criterion)
    ensures Filter(Filter(rows, KeepIf(c1)), KeepIf(c2)) == Filter(Filter(rows, KeepIf(c2)), KeepIf(c1))
  {
    FilterCommutes(rows, KeepIf(c1), KeepIf(c2));
  }

  /** Every listed trip carries, as its available tickets, its train's capacity less
      the tickets issued on it. */
  lemma ListedAvailability(trips: seq<Trip>, tickets: seq<Ticket>, p: QueryParams, row: TripRow)
    requires SelectTrips(Annotate(trips, tickets), p).Ok?
    requires row in SelectTrips(Annotate(trips, tickets), p).value
    ensures row.trip in trips
    ensures row.ticketsAvailable == Capacity(row.trip.train) - TicketCount(tickets, row.trip.id)
  {
    SelectTripsExactly(Annotate(trips, tickets), p, row);
  }

  // ---------------------------------------------------------------------
  // Serializer choice per action
  // ---------------------------------------------------------------------

  /** The view set actions; `Custom` stands for any other action name. */
  datatype Action = List | Retrieve | Create | Update | PartialUpdate | Destroy | Custom(name: string)

  datatype ViewSet = CrewViewSet | TrainViewSet | StationViewSet | RouteViewSet | TripViewSet | OrderViewSet

  datatype SerializerClass =
    | CrewSerializer | CrewListSerializer
    | TrainSerializer
    | StationSerializer
    | RouteSerializer | RouteListSerializer | RouteDetailSerializer
    | TripSerializer | TripListSerializer | TripDetailSerializer
    | OrderSerializer | OrderListSerializer

  /** How a serializer shows its object: the writable base form, the compact list
      form, or the nested detail form. */
  datatype Shape = Base | Compact | Detailed

  function ShapeOf(s: SerializerClass): Shape
  {
    match s
    case CrewListSerializer => Compact
    case RouteListSerializer => Compact
    case TripListSerializer => Compact
    case OrderListSerializer => Compact
    case RouteDetailSerializer => Detailed
    case TripDetailSerializer => Detailed
    case _ => Base
  }

  /** The view set whose records a serializer shows. */
  function ViewSetOf(s: SerializerClass): ViewSet
  {
    match s
    case CrewSerializer => CrewViewSet
    case CrewListSerializer => CrewViewSet
    case TrainSerializer => TrainViewSet
    case StationSerializer => StationViewSet
    case RouteSerializer => RouteViewSet
    case RouteListSerializer => RouteViewSet
    case RouteDetailSerializer => RouteViewSet
    case TripSerializer => TripViewSet
    case TripListSerializer => TripViewSet
    case TripDetailSerializer => TripViewSet
    case OrderSerializer => OrderViewSet
    case OrderListSerializer => OrderViewSet
  }

  /** The crew view set's `get_serializer_class`: the compact serializer to list,
      the base one for every other action. */
  function CrewSerializerFor(a: Action): (s: SerializerClass)
    ensures ViewSetOf(s) == CrewViewSet
    ensures ShapeOf(s) == Compact <==> a == List
    ensures ShapeOf(s) != Detailed
  {
    if a == List then CrewListSerializer else CrewSerializer
  }

  /** The route view set's `get_serializer_class`: compact to list, detailed to
      retrieve, the base serializer for every other action. */
  function RouteSerializerFor(a: Action): (s: SerializerClass)
    ensures ViewSetOf(s) == RouteViewSet
    ensures ShapeOf(s) == Compact <==> a == List
    ensures ShapeOf(s) == Detailed <==> a == Retrieve
  {
    if a == List then RouteListSerializer
    else if a == Retrieve then RouteDetailSerializer
    else RouteSerializer
  }

  /** The trip view set's `get_serializer_class`: compact to list, detailed to
      retrieve, the base serializer for every other action. */
  function TripSerializerFor(a: Action): (s: SerializerClass)
    ensures ViewSetOf(s) == TripViewSet
    ensures ShapeOf(s) == Compact <==> a == List
    ensures ShapeOf(s) == Detailed <==> a == Retrieve
  {
    if a == List then TripListSerializer
    else if a == Retrieve then TripDetailSerializer
    else TripSerializer
  }

  /** The order view set's `get_serializer_class`: the compact serializer to list,
      the base one for every other action. */
  function OrderSerializerFor(a: Action): (s: SerializerClass)
    ensures ViewSetOf(s) == OrderViewSet
    ensures ShapeOf(s) == Compact <==> a == List
    ensures ShapeOf(s) != Detailed
  {
    if a == List then OrderListSerializer else OrderSerializer
  }

  // ---------------------------------------------------------------------
  // Access
  // ---------------------------------------------------------------------

  /** Who calls: nobody signed in, or a signed-in user, staff or not. */
  datatype Caller = Anonymous | SignedIn(user: nat, isStaff: bool)

  datatype HttpMethod = Get | Head | Options | Post | Put | Patch | Delete

  /** The methods that only read. */
  predicate IsSafe(m: HttpMethod)
  {
    m == Get || m == Head || m == Options
  }

  /** The two permission classes the view sets use. */
  datatype Permission = AdminOrIfAuthenticatedReadOnly | IsAuthenticated

  /** The outcome of a permission check: let through, 401, or 403. */
  datatype Decision = Allowed | Unauthorized | Forbidden

  /** The permission class of each view set: orders need only a signed-in caller,
      everything else is the read-only-unless-staff catalogue. */
  function PermissionOf(v: ViewSet): Permission
  {
    if v == OrderViewSet then IsAuthenticated else AdminOrIfAuthenticatedReadOnly
  }

  /** How each permission class decides. */
  function Decide(p: Permission, c: Caller, m: HttpMethod): Decision
  {
    match c
    case Anonymous => Unauthorized
    case SignedIn(_, isStaff) =>
      if p == IsAuthenticated || isStaff || IsSafe(m) then Allowed else Forbidden
  }

  /** Access to a view set: anonymous callers are refused (401) everywhere; a
      signed-in caller is refused (403) only when writing to a catalogue view set
      without being staff; everything else is let through. */
  function Access(v: ViewSet, c: Caller, m: HttpMethod): (d: Decision)
    ensures d == Unauthorized <==> c.Anonymous?
    ensures d == Forbidden <==> c.SignedIn? && !c.isStaff && !IsSafe(m) && v != OrderViewSet
  {
    Decide(PermissionOf(v), c, m)
  }

  /** Whatever a signed-in non-staff caller may do, a staff caller may do too. */
  lemma StaffMayDoMore(v: ViewSet, m: HttpMethod, user: nat, staff: nat)
    ensures Access(v, SignedIn(user, false), m) == Allowed ==> Access(v, SignedIn(staff, true), m) == Allowed
    ensures Access(v, SignedIn(staff, true), m) == Allowed <==> Access(v, SignedIn(user, true), m) == Allowed
  {
  }

  // ---------------------------------------------------------------------
  // Creating routes and orders, listing orders
  // ---------------------------------------------------------------------

  /** POST to the routes: validate, then save the route (and its reverse, if absent).
      Invalid data leaves the route table as it was. */
  method PostRoute(store: RouteStore, data: RouteData) returns (r: Result<Route, RouteError>)
    requires store.Valid()
    modifies store
    ensures store.Valid()
    ensures ValidateRoute(data).Err? ==>
      r == Err(ValidateRoute(data).error) && store.routes == old(store.routes) && store.nextId == old(store.nextId)
    ensures ValidateRoute(data).Ok? ==>
      r == Ok(RouteOf(data, old(store.nextId)))
      && store.routes == SavedRoutes(old(store.routes), old(store.nextId), data.source, data.destination, data.distance)
  {
    var checked := ValidateRoute(data);
    if checked.Err? {
      return Err(checked.error);
    }
    var saved := store.Save(data.source, data.destination, data.distance);
    r := Ok(saved);
  }

  /** Why posting an order failed: a ticket whose trip does not resolve, or an
      insert the storage refused. */
  datatype OrderError = Invalid(errors: seq<FieldError>) | Refused(failure: InsertFailure)

  /** POST to the orders by `user`: validate the tickets, then create the order for
      the caller with one ticket per request. Any failure leaves both tables as
      they were. On success the order belongs to the caller, its tickets answer
      the requests in order, and every trip's ticket count rises by the number of
      requests naming it. */
  method PostOrder(store: OrderStore, user: nat, now: int, inputs: seq<TicketInput>, tripIds: set<nat>,
                   insertOk: (Ticket, seq<Ticket>) -> bool)
    returns (r: Result<Order, OrderError>)
    requires store.Valid()
    modifies store
    ensures store.Valid()
    ensures r.Err? ==> store.orders == old(store.orders) && store.tickets == old(store.tickets)
    ensures ValidateTickets(inputs, tripIds).Err? ==> r == Err(Invalid(ValidateTickets(inputs, tripIds).error))
    ensures r.Ok? <==>
      ValidateTickets(inputs, tripIds).Ok?
      && AllInserted(old(store.tickets),
                     NewTickets(old(store.nextOrderId), old(store.nextTicketId), ValidateTickets(inputs, tripIds).value),
                     insertOk)
    ensures r.Err? && r.error.Refused? ==>
      ValidateTickets(inputs, tripIds).Ok?
      && var added := NewTickets(old(store.nextOrderId), old(store.nextTicketId), ValidateTickets(inputs, tripIds).value);
      var k := r.error.failure.index;
      k < |added|
      && AllInserted(old(store.tickets), added[..k], insertOk)
      && !insertOk(added[k], old(store.tickets) + added[..k])
    ensures r.Ok? ==>
      var requests := ValidateTickets(inputs, tripIds).value;
      ValidateTickets(inputs, tripIds).Ok?
      && r.value.user == user && r.value.createdAt == now
      && store.orders == old(store.orders) + [r.value]
      && RequestsOf(TicketsOf(store.tickets, r.value.id)) == requests
      && store.tickets == old(store.tickets) + TicketsOf(store.tickets, r.value.id)
      && (forall trip: nat :: TicketCount(store.tickets, trip) == TicketCount(old(store.tickets), trip) + RequestCount(requests, trip))
  {
    var checked := ValidateTickets(inputs, tripIds);
    if checked.Err? {
      return Err(Invalid(checked.error));
    }
    var requests := checked.value;
    store.NextOrderHasNoTickets();
    ghost var stored, firstId := store.tickets, store.nextTicketId;
    var created := store.CreateOrder(user, now, requests, insertOk);
    if created.Err? {
      return Err(Refused(created.error));
    }
    var order := created.value;
    TicketsOfNewOrder(stored, order.id, firstId, requests);
    NewTicketsAnswerRequests(order.id, firstId, requests);
    forall trip: nat ensures TicketCount(store.tickets, trip) == TicketCount(stored, trip) + RequestCount(requests, trip) {
      CountAfterCreate(stored, order.id, firstId, requests, trip);
    }
    r := Ok(order);
  }

  /** GET on the orders as the view set has it: its queryset is every order, and
      nothing narrows it to the caller. */
  function ListOrdersAsWritten(orders: seq<Order>, user: nat): seq<Order>
  {
    orders
  }

  /** With two users' orders stored, the list shown to one of them holds the other's. */
  lemma ListOrdersAsWrittenLeaks()
    ensures var orders := [Order(1, 0, 1), Order(2, 0, 2)];
      Order(2, 0, 2) in ListOrdersAsWritten(orders, 1) && Order(2, 0, 2).user != 1
  {
  }

  function OwnedBy(user: nat): Order -> bool
  {
    (o: Order) => o.user == user
  }

  /** GET on the orders as intended: the caller's own orders, in storage order. */
  function ListOrders(orders: seq<Order>, user: nat): seq<Order>
  {
    Filter(orders, OwnedBy(user))
  }

  /** The corrected list holds exactly the caller's orders: none of anyone else's. */
  lemma ListOrdersExactlyOwn(orders: seq<Order>, user: nat, o: Order)
    ensures o in ListOrders(orders, user) <==> o in orders && o.user == user
  {
    FilterMembers(orders, OwnedBy(user), o);
  }
}
