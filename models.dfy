/** The records of the train-station service, the text each one shows itself as,
    the per-trip ticket count, and the route table with its reverse-route rule. */
module Models {
  import opened Common
  import opened Text
  import opened Dates

  /** A crew member. */
  datatype Crew = Crew(id: nat, firstName: string, lastName: string)

  /** A kind of train ("Regional", "Intercity", ...). */
  datatype TrainType = TrainType(id: nat, name: string)

  /** A train. Its two counts are plain integer columns: nothing keeps them positive. */
  datatype Train = Train(id: nat, name: string, cargoNum: int, placesInCargo: int, trainType: TrainType)

  /** A station; two stations are the same station when their ids agree. */
  datatype Station = Station(id: nat, name: string)

  /** A directed route between two stations. */
  datatype Route = Route(id: nat, source: Station, destination: Station, distance: int)

  /** One run of a train over a route. */
  datatype Trip = Trip(id: nat, route: Route, train: Train, departure: DateTime, arrival: DateTime)

  /** An order: who placed it and when. Its tickets point back at it. */
  datatype Order = Order(id: nat, createdAt: int, user: nat)

  /** A ticket: one (cargo, seat) place on one trip, belonging to one order. */
  datatype Ticket = Ticket(id: nat, cargo: int, seat: int, trip: nat, order: nat)

  /** A crew member's text: first name, a space, last name. */
  function CrewText(c: Crew): string
  {
    c.firstName + " " + c.lastName
  }

  /** A crew member's `full_name`, shown by the crew serializers: the same "first last" text. */
  function FullName(c: Crew): string
  {
    CrewText(c)
  }

  /** A train type shows itself as its name. */
  function TrainTypeText(t: TrainType): string
  {
    t.name
  }

  /** A train's text: its name and, in parentheses, its type's text. */
  function TrainText(t: Train): string
  {
    t.name + " (" + TrainTypeText(t.trainType) + ")"
  }

  /** When the first name has no space, the crew text splits back into the two names
      at its first space. */
  lemma CrewTextSplits(c: Crew)
    requires ' ' !in c.firstName
    ensures SplitAtFirst(CrewText(c), ' ') == Some((c.firstName, c.lastName))
    ensures SplitAtFirst(FullName(c), ' ') == Some((c.firstName, c.lastName))
  {
    SplitAtFirstJoin(c.firstName, ' ', c.lastName);
  }

  /** When the train name has no '(', the train text splits at its first '(' into the
      name with its trailing space and the type's text with the closing parenthesis. */
  lemma TrainTextSplits(t: Train)
    requires '(' !in t.name
    ensures SplitAtFirst(TrainText(t), '(') == Some((t.name + " ", t.trainType.name + ")"))
  {
    var before := t.name + " ";
    assert '(' !in before by {
      forall i | 0 <= i < |before| ensures before[i] != '(' {
        if i < |t.name| { assert before[i] == t.name[i]; }
      }
    }
    assert TrainText(t) == before + ['('] + (t.trainType.name + ")");
    SplitAtFirstJoin(before, '(', t.trainType.name + ")");
  }

  /** A train's seat capacity: carriages times places per carriage. */
  function Capacity(t: Train): int
  {
    t.cargoNum * t.placesInCargo
  }

  /** The number of tickets issued on trip `trip` (the `Count("tickets")` aggregate). */
  function TicketCount(tickets: seq<Ticket>, trip: nat): nat
  {
    if |tickets| == 0 then 0
    else TicketCount(tickets[..|tickets| - 1], trip) + (if tickets[|tickets| - 1].trip == trip then 1 else 0)
  }

  /** The positions of the tickets issued on `trip`. */
  function TicketPositions(tickets: seq<Ticket>, trip: nat): set<nat>
  {
    set i: nat | i < |tickets| && tickets[i].trip == trip
  }

  /** The aggregate counts exactly the tickets that reference the trip. */
  lemma {:induction false} TicketCountIsPositions(tickets: seq<Ticket>, trip: nat)
    ensures TicketCount(tickets, trip) == |TicketPositions(tickets, trip)|
  {
    if |tickets| > 0 {
      var n := |tickets| - 1;
      var init := tickets[..n];
      TicketCountIsPositions(init, trip);
      var before := TicketPositions(init, trip);
      if tickets[n].trip == trip {
        assert TicketPositions(tickets, trip) == before + {n};
      } else {
        assert TicketPositions(tickets, trip) == before;
      }
    }
  }

  /** Counting over two runs of tickets adds up. */
  lemma {:induction false} TicketCountAppend(a: seq<Ticket>, b: seq<Ticket>, trip: nat)
    ensures TicketCount(a + b, trip) == TicketCount(a, trip) + TicketCount(b, trip)
    decreases |b|
  {
    if |b| > 0 {
      var n := |b| - 1;
      assert (a + b)[..|a + b| - 1] == a + b[..n];
      TicketCountAppend(a, b[..n], trip);
    } else {
      assert a + b == a;
    }
  }

  // ---------------------------------------------------------------------
  // Routes and the reverse-route rule
  // ---------------------------------------------------------------------

  /** A route is well formed when it joins two different stations over a positive distance. */
  predicate WellFormed(r: Route)
  {
    r.source.id != r.destination.id && r.distance > 0
  }

  /** `r` runs from station `source` to station `destination`. */
  predicate Joins(r: Route, source: Station, destination: Station)
  {
    r.source.id == source.id && r.destination.id == destination.id
  }

  /** Some route of `routes` runs from `source` to `destination`. */
  predicate HasRoute(routes: seq<Route>, source: Station, destination: Station)
  {
    exists i :: 0 <= i < |routes| && Joins(routes[i], source, destination)
  }

  /** How many routes of `routes` run from `source` to `destination`. */
  function RouteCount(routes: seq<Route>, source: Station, destination: Station): nat
  {
    if |routes| == 0 then 0
    else RouteCount(routes[..|routes| - 1], source, destination)
         + (if Joins(routes[|routes| - 1], source, destination) then 1 else 0)
  }

  /** Every route has its reverse in the table. */
  predicate Symmetric(routes: seq<Route>)
  {
    forall i :: 0 <= i < |routes| ==> HasRoute(routes, routes[i].destination, routes[i].source)
  }

  /** The route table after saving the route `source` to `destination` under id `id`:
      the forward route is added, then the reverse pair is fetched or created; it is
      created, with the same distance and the next id, only when no route yet runs
      from `destination` to `source`. */
  function SavedRoutes(routes: seq<Route>, id: nat, source: Station, destination: Station, distance: int): seq<Route>
  {
    var withForward := routes + [Route(id, source, destination, distance)];
    if HasRoute(withForward, destination, source) then withForward
    else withForward + [Route(id + 1, destination, source, distance)]
  }

  /** Saving keeps every existing route where and as it was, puts the forward route
      right after them and adds at most one route besides. */
  lemma SavedRoutesExtends(routes: seq<Route>, id: nat, source: Station, destination: Station, distance: int)
    ensures var r := SavedRoutes(routes, id, source, destination, distance);
      |routes| + 1 <= |r| <= |routes| + 2 && r[..|routes|] == routes
      && r[|routes|] == Route(id, source, destination, distance)
  {
  }

  /** Saving A to B into an empty table leaves exactly two routes, exactly one of
      which runs from B to A. */
  lemma SaveIntoEmpty(id: nat, a: Station, b: Station, distance: int)
    requires a.id != b.id
    ensures |SavedRoutes([], id, a, b, distance)| == 2
    ensures RouteCount(SavedRoutes([], id, a, b, distance), b, a) == 1
  {
    var withForward := [Route(id, a, b, distance)];
    assert !HasRoute(withForward, b, a);
    var r := withForward + [Route(id + 1, b, a, distance)];
    assert r[..1] == withForward;
    assert withForward[..0] == [];
    assert RouteCount(withForward, b, a) == 0;
  }

  /** When a route from B to A already exists, saving A to B neither creates another
      one nor touches the existing ones (their distances included). */
  lemma SaveKeepsExistingReverse(routes: seq<Route>, id: nat, a: Station, b: Station, distance: int)
    requires a.id != b.id
    requires HasRoute(routes, b, a)
    ensures SavedRoutes(routes, id, a, b, distance) == routes + [Route(id, a, b, distance)]
    ensures RouteCount(SavedRoutes(routes, id, a, b, distance), b, a) == RouteCount(routes, b, a)
  {
    var withForward := routes + [Route(id, a, b, distance)];
    var i :| 0 <= i < |routes| && Joins(routes[i], b, a);
    assert withForward[i] == routes[i];
    assert withForward[..|routes|] == routes;
  }

  /** Saving a route into a table where every route has its reverse keeps that so. */
  lemma SaveKeepsSymmetric(routes: seq<Route>, id: nat, source: Station, destination: Station, distance: int)
    requires Symmetric(routes)
    ensures Symmetric(SavedRoutes(routes, id, source, destination, distance))
  {
    var r := SavedRoutes(routes, id, source, destination, distance);
    var n := |routes|;
    assert r[n] == Route(id, source, destination, distance);
    forall i | 0 <= i < |r| ensures HasRoute(r, r[i].destination, r[i].source) {
      if i < n {
        var j :| 0 <= j < n && Joins(routes[j], routes[i].destination, routes[i].source);
        assert r[j] == routes[j] && r[i] == routes[i];
      } else if i == n {
        var withForward := routes + [r[n]];
        if HasRoute(withForward, destination, source) {
          var j :| 0 <= j < |withForward| && Joins(withForward[j], destination, source);
          assert r[j] == withForward[j];
        } else {
          assert Joins(r[n + 1], destination, source);
        }
      } else {
        assert Joins(r[n], source, destination);
      }
    }
  }

  /** Saving a well-formed route into a table of well-formed routes keeps every route
      well formed: the reverse route it may add joins the same two stations over the
      same distance. */
  lemma SaveKeepsWellFormed(routes: seq<Route>, id: nat, source: Station, destination: Station, distance: int)
    requires forall i :: 0 <= i < |routes| ==> WellFormed(routes[i])
    requires WellFormed(Route(id, source, destination, distance))
    ensures var r := SavedRoutes(routes, id, source, destination, distance);
      forall i :: 0 <= i < |r| ==> WellFormed(r[i])
  {
  }

  /** The stored routes, with the id the next saved route gets. */
  class RouteStore {
    var routes: seq<Route>
    var nextId: nat

    /** Ids handed out so far are below the next one. */
    ghost predicate Valid()
      reads this
    {
      forall i :: 0 <= i < |routes| ==> routes[i].id < nextId
    }

    constructor ()
      ensures Valid() && routes == [] && nextId == 1
    {
      routes := [];
      nextId := 1;
    }

    /** Looks up a route from `source` to `destination`, the lookup half of get-or-create. */
    method Find(source: Station, destination: Station) returns (found: bool)
      ensures found <==> HasRoute(routes, source, destination)
    {
      found := false;
      var i := 0;
      while i < |routes|
        invariant 0 <= i <= |routes|
        invariant found <==> exists j :: 0 <= j < i && Joins(routes[j], source, destination)
      {
        if Joins(routes[i], source, destination) {
          found := true;
        }
        i := i + 1;
      }
    }

    /** Saves the route `source` to `destination`, then fetches or creates its reverse. */
    method Save(source: Station, destination: Station, distance: int) returns (saved: Route)
      requires Valid()
      modifies this
      ensures Valid()
      ensures saved == Route(old(nextId), source, destination, distance)
      ensures forall i :: 0 <= i < |old(routes)| ==> old(routes)[i].id != saved.id
      ensures routes == SavedRoutes(old(routes), old(nextId), source, destination, distance)
      ensures nextId == old(nextId) + |routes| - |old(routes)|
    {
      saved := Route(nextId, source, destination, distance);
      routes := routes + [saved];
      nextId := nextId + 1;
      var reverseExists := Find(destination, source);
      if !reverseExists {
        routes := routes + [Route(nextId, destination, source, distance)];
        nextId := nextId + 1;
      }
    }
  }
}
