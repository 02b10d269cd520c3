# Train station booking service: a Dafny model of its core

The service keeps stations, routes, trains, trips, crews and ticket orders behind a
REST API. This project models the part of it that holds real logic:

- the trip list: every trip annotated with `tickets_available` (the train's
  `cargo_num * places_in_cargo` less the tickets issued on the trip), narrowed by up to
  five optional query parameters (`train`, `source`, `destination`, `departure`,
  `arrival`), ANDed together, then de-duplicated;
- route validation (same station at both ends, non-positive distance) and the rule
  that saving a route A→B also creates B→A when no such route exists yet;
- order creation: one order for the calling user and one ticket per request, inside
  one transaction, so that either all of them are stored or none is;
- the serializer each view set picks per action, who may call which view set, and
  the `__str__` text of crews, train types and trains.

Modules follow the source files: `Models` (models.py and the records the serializers
name), `Serializers` (serializers.py), `Views` (views.py). `Queries` gives the meaning
of a queryset's `.filter()` and `.distinct()`. `Text` gives ASCII case folding and
substring search (`icontains`). `Dates` gives the `%Y-%m-%d` parser. `Common` holds
`Option` and `Result`.

State that the source changes in place is a class: `RouteStore` (the route table)
and `OrderStore` (the order and ticket tables). Their methods are proved against the
pure functions `SavedRoutes` and `NewTickets`, and the lemmas about those functions
carry the properties. The filter chain of `get_queryset` is the method
`GetQueryset`. It reassigns one `queryset` variable step by step, and it is proved
equal to `SelectTrips`, which is one filter by all the requested criteria followed
by de-duplication.

Things the code leaves to collaborators are parameters:
- the clock (`now`);
- the known trip ids that DRF's primary-key field checks against (`tripIds`);
- the storage's verdict on each ticket insert (`insertOk`), which stands for any
  database refusal the shown code cannot see.

Where the code and the service's intended behaviour differ, the model follows the code,
except where a finding corrects it:
- Seat and cargo bounds, seat uniqueness and empty ticket lists are not checked
  (a test stores cargo 10, seat 5 on a one-seat train).
- A malformed date parameter is a `strptime` error that the view does not catch.
  It is modelled as an `InvalidDate` error result.
- `GET /orders/` lists every user's orders (see Findings).
- The order serializer's nested ticket field declares `trip` read-only, so the code
  neither checks nor stores a posted trip (see Findings). The order path of the model
  checks and stores each ticket's trip as the writable ticket serializer and the
  tests expect; the code as written is modelled beside it.

## Model

| member | source | states |
|---|---|---|
| `Models.CrewTextSplits` | train_station/models.py:8-9 | A crew's text (and its `full_name`) is first name, one space, last name: split at the first space it gives back exactly the two names |
| `Models.TrainTextSplits` | train_station/models.py:29-30 | A train's text is its name, " (", its type's text (the type's name), ")": split at the first '(' it gives back the name with its space and the type name with ")" |
| `Models.TicketCountIsPositions` | train_station/views.py:100 | The `Count("tickets")` aggregate equals the number of stored tickets whose trip is the trip |
| `Models.SaveIntoEmpty` | train_station/tests/test_models.py:69-74 | Saving A→B (A ≠ B) into an empty table leaves exactly two routes, exactly one of them B→A |
| `Models.SaveKeepsExistingReverse` | train_station/tests/test_models.py:69-74 | When B→A already exists, saving A→B adds only A→B: no second B→A, existing routes and distances untouched |
| `Models.SavedRoutesExtends` | train_station/tests/test_models.py:69-74 | Saving keeps every existing route in place, appends the forward route, and adds at most one more |
| `Models.SaveKeepsSymmetric` | train_station/tests/test_models.py:69-74 | If every route has its reverse in the table, that still holds after a save |
| `Models.SaveKeepsWellFormed` | train_station/serializers.py:36-47 | Saving a route that passes validation into a table of valid routes leaves every route joining two different stations over a positive distance |
| `Models.RouteStore.Find` | train_station/tests/test_models.py:69-74 | The reverse-route lookup answers true exactly when some stored route joins the two stations in that direction |
| `Models.RouteStore.Save` | train_station/tests/test_models.py:69-74 | The table after a save is `SavedRoutes` of the table before: forward route appended, reverse created only if absent. The saved route's id differs from every stored id |
| `Serializers.ValidateRoute` | train_station/serializers.py:36-47 | Accepts exactly the data that joins two different stations over a positive distance, and returns it unchanged; the same station at both ends gives the same-stations error, checked first; otherwise a distance ≤ 0 gives the distance error |
| `Serializers.ZeroDistanceRefused` | train_station/serializers.py:42-45 | A distance of 0 is refused with "Distance must be a positive value." |
| `Serializers.TripErrors` | train_station/serializers.py:117-120 | Every reported error sits at `tickets[i].trip` for a ticket whose trip is null or unknown, with the reason `NullTrip` for a null trip and `UnknownTrip(pk)` for an unknown key, and errors come in ticket order |
| `Serializers.TripErrorsComplete` | train_station/serializers.py:117-120 | Every ticket whose trip is null or unknown has an error in the list |
| `Serializers.ValidateTickets` | train_station/serializers.py:117-120 | Corrected order path (see Findings): validating a ticket list through the writable `trip` field accepts it iff every ticket's trip resolves; then there is one request per input carrying its cargo, seat and trip, otherwise the trip errors are returned |
| `Serializers.NullTripAcceptedAsWritten` | train_station/serializers.py:123-128 | As written, a list whose first ticket has a null trip passes the order serializer's validation, while the writable trip field refuses it |
| `Serializers.TripDroppedAsWritten` | train_station/serializers.py:123-139 | As written, two ticket lists that agree on cargo and seat validate alike whatever trips they name, and every ticket insert issued names no trip; the corrected requests carry each posted trip |
| `Serializers.NullTripReported` | train_station/tests/test_serializers.py:103-110 | A list whose first ticket has a null trip is refused, and its first error is keyed at `tickets[0].trip` |
| `Serializers.NullTripIsFirst` | train_station/tests/test_serializers.py:103-110 | For such a list, the first error of every non-empty prefix is the null trip of ticket 0 |
| `Serializers.NewTicketsAnswerRequests` | train_station/serializers.py:138-139 | The tickets created for an order give back the requests exactly (cargo, seat, trip, in request order), and each points at the order |
| `Serializers.TicketsOfNewOrder` | train_station/serializers.py:136-139 | When no stored ticket pointed at the new order's id, the order's tickets are exactly the ones created for it, in request order |
| `Serializers.NewTicketsPerTrip` | train_station/serializers.py:138-139 | For every trip, the created tickets number exactly the requests naming that trip |
| `Serializers.CountAfterCreate` | train_station/serializers.py:137-139 | After creation, every trip's ticket count is the old count plus the number of requests naming it |
| `Serializers.OrderStore.CreateOrder` | train_station/serializers.py:134-140 | Succeeds iff the storage accepts every ticket insert. On success it adds exactly one order (the caller's, at `now`) and appends one ticket per request, old rows untouched. On failure it names the first refused request and leaves orders, tickets and id counters as they were. Every ticket still points at a stored order |
| `Serializers.OrderStore.NextOrderHasNoTickets` | train_station/serializers.py:137 | In a consistent store, no ticket points at the id the next order gets |
| `Views.AvailabilityAfterCreate` | train_station/views.py:97-102 | After an order, each trip's `tickets_available` falls by exactly the number of requests naming it |
| `Views.AvailabilityNotClamped` | train_station/views.py:97-102 | `tickets_available` is not clamped: two tickets on a one-seat train give -1 |
| `Views.ListedAvailability` | train_station/views.py:97-102 | Every listed row is a stored trip whose `tickets_available` is its capacity less the tickets issued on it |
| `Views.NarrowStep` | train_station/views.py:113-132 | Narrowing a list already filtered by some criteria is filtering by those criteria plus one |
| `Views.GetQueryset` | train_station/views.py:106-134 | The filter chain (train, source, destination, departure, arrival, each only when given, then `distinct`) yields exactly `SelectTrips`: one filter by all requested criteria, de-duplicated, or the first bad date |
| `Views.TextCriterionMeaning` | train_station/views.py:115-124 | A given text parameter keeps a trip iff the named field contains the parameter, ignoring case; an absent or empty one keeps every trip |
| `Views.DateCriterionMeaning` | train_station/views.py:126-132 | A given date parameter keeps a trip iff the parsed date equals the trip's departure (resp. arrival) date |
| `Views.CriteriaMeaning` | train_station/views.py:113-132 | A trip passes all requested criteria iff it passes each given parameter's test |
| `Views.MatchesAllAppend` | train_station/views.py:113-132 | Passing two runs of criteria is passing each run: the filters combine by AND |
| `Views.SelectTripsExactly` | train_station/views.py:113-134 | A row is listed iff it is among the trips and its train, source and destination names contain the given parameters ignoring case and its dates equal the given dates |
| `Views.SelectTripsDistinct` | train_station/views.py:134 | The list holds each row at most once, and only rows among the trips |
| `Views.SelectTripsUnfiltered` | train_station/views.py:107-115 | With every parameter absent or empty, every trip is listed; a duplicate-free trip list comes back unchanged |
| `Views.SelectTripsFails` | train_station/views.py:126-132 | The list fails iff a given date is not of the form YYYY-MM-DD; a bad departure date is reported first |
| `Views.NarrowingOrderIrrelevant` | train_station/views.py:115-132 | Two narrowings applied in either order keep the same rows |
| `Views.CrewSerializerFor` | train_station/views.py:47-50 | The crew view set lists with the compact serializer and uses the base one for every other action |
| `Views.RouteSerializerFor` | train_station/views.py:83-89 | Routes: compact iff the action is list, detailed iff retrieve, base otherwise; always a route serializer |
| `Views.TripSerializerFor` | train_station/views.py:136-142 | Trips: compact iff the action is list, detailed iff retrieve, base otherwise; always a trip serializer |
| `Views.OrderSerializerFor` | train_station/views.py:194-197 | Orders: compact iff the action is list, base otherwise |
| `Views.Access` | train_station/tests/test_views.py:72-149 | Anonymous callers get 401 on every view set. A signed-in caller gets 403 only when writing to a catalogue view set without being staff. Orders are open to any signed-in caller, and staff may do everything |
| `Views.StaffMayDoMore` | train_station/tests/test_views.py:132-149 | Whatever a non-staff user may do, a staff user may do, and staff access does not depend on which staff user it is |
| `Views.PostRoute` | train_station/views.py:73-81 | Creating a route validates first. Invalid data leaves the table untouched and returns the validation error. Valid data is saved with its reverse rule |
| `Views.PostOrder` | train_station/views.py:199-200 | Succeeds iff the ticket list validates and the storage accepts every ticket insert. An invalid list returns its trip errors; a refused insert names the first refused request. Either failure leaves orders and tickets as they were. On success the order belongs to the caller. Stored tickets are followed by exactly the order's tickets, which answer the requests in order. Each trip's count rises by the requests naming it |
| `Views.ListOrdersAsWrittenLeaks` | train_station/views.py:181-192 | As written, the order list shown to user 1 contains user 2's order |
| `Views.ListOrdersExactlyOwn` | train_station/views.py:181-192 | The corrected order list holds exactly the caller's orders |
| `Text.ContainsIff` | train_station/views.py:116 | The substring scan behind `icontains` succeeds iff the needle occurs at some position |
| `Dates.ParseDate` | train_station/views.py:127 | The `%Y-%m-%d` parser only ever returns a date that exists in the calendar |
| `Dates.ParseFormatted` | train_station/views.py:127 | Every valid date, written as YYYY-MM-DD, parses back to itself |
| `Dates.FormatParsed` | train_station/views.py:131 | The parser accepts only the canonical YYYY-MM-DD spelling of the date it returns |
| `Queries.FilterMembers` | train_station/views.py:116 | A queryset filter keeps exactly the rows that satisfy its predicate |
| `Queries.FilterChain` | train_station/views.py:113-132 | Two chained filters are one filter by the conjunction |
| `Queries.FilterCommutes` | train_station/views.py:113-132 | Chained filters commute |
| `Queries.DistinctMembers` | train_station/views.py:134 | `distinct()` keeps every row that occurs and adds none |
| `Queries.DistinctNoDuplicates` | train_station/views.py:134 | After `distinct()` no row occurs twice |
| `Queries.DistinctOfNoDuplicates` | train_station/views.py:134 | `distinct()` leaves a duplicate-free list unchanged |

## Left out

- Station latitude and longitude, and the station text that prints them, are left out because they are floating point. Stations are an id and a name.
- The text of routes, trips and tickets (`"A to B"` and the like) is left out. Those `__str__` methods are not in the shown part of models.py. The definitions of Station, Route, Trip, Ticket and Order in models.py are not part of this model either; those records are built from the serializer field lists.
- Route distance is modelled as an integer; the column type is not shown, and a test creates a route with distance 10.5 directly, bypassing validation.
- The reverse-route save hook is not shown. The tests assert only that saving A→B into an empty table leaves two routes, one of them B→A. That the hook gets or creates B→A, creates it only when absent, and gives it the same distance is an assumption about the unseen hook. `Models.SavedRoutes`, `Models.RouteStore.Save`, `Models.SaveKeepsExistingReverse`, `Models.SavedRoutesExtends` and `Models.SaveKeepsSymmetric` rest on it. Race-safety between concurrent saves is not modelled.
- `Dates.ParseDate` is stricter than Python's `strptime("%Y-%m-%d")`. It requires exactly four, two and two ASCII digits. `strptime` also accepts one-digit months and days (`2024-1-5`), a day padded with a space (`2024-01- 5`) and non-ASCII decimal digits.
- `Views.TicketsAvailable`: `cargo_num` and `places_in_cargo` are 32-bit integer columns, and the database multiplies them as 32-bit integers. Here they are unbounded integers, so a product beyond 2147483647, which the database refuses with an out-of-range error, is not modelled.
- Timezone conversion in the `__date` lookup is left out: trip timestamps carry their calendar date directly.
- Case folding is ASCII only. The database's `icontains` may fold other letters as well.
- Validation of `cargo` and `seat` (required, integer) happens in the Ticket model's field types, which are not shown. Tickets enter the model as integers.
- DRF's error messages for a null or unknown trip are represented by the reasons `NullTrip` and `UnknownTrip(pk)`, not by their English text.
- Seat and cargo bounds, seat uniqueness and rejecting an empty ticket list are absent from the code and are not modelled. `insertOk` stands for whatever the database refuses.
- Concurrency and locking behind `transaction.atomic()` are left out. Atomicity is stated sequentially: a failed create leaves the store exactly as it was.
- The body of `IsAdminOrIfAuthenticatedReadOnly` (permissions.py) is not part of this model. `Views.Access` states the decision table the tests pin down. Authentication itself is a `Caller` value.
- `select_related`, `prefetch_related`, the OpenAPI schema decorators, nested serializer rendering, the `%Y-%m-%d %H:%M` output format, URL routing and admin registration are left out. They do not change which rows or values are returned.

## Findings

| source | as written | input that shows it | evidently intended | confidence | as-written member | corrected member |
|---|---|---|---|---|---|---|
| train_station/views.py:181-192 | `OrderViewSet` lists its whole queryset, every order of every user. Nothing narrows it to `request.user` | orders of users 1 and 2 stored; user 1 sends `GET /orders/` and receives user 2's order | each caller sees only their own orders | medium, not executed | `Views.ListOrdersAsWrittenLeaks` | `Views.ListOrdersExactlyOwn` |
| train_station/serializers.py:123-139 | `OrderSerializer.tickets` is a `TicketListSerializer`, which redeclares `trip` read-only. A posted trip is dropped from the validated data, and `create` inserts each ticket without a trip | `{"tickets": [{"cargo": 1, "seat": 1, "trip": null}]}` passes validation; with a valid trip id the insert still names no trip, which a non-nullable trip column refuses (its definition is not part of this model), rolling the order back | each ticket's trip is checked and stored, as test_serializers.py:90-110 expects | medium, not executed | `Serializers.NullTripAcceptedAsWritten` | `Serializers.ValidateTickets` |
