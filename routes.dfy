/**
 * The ecological-route flow: the static route table, the head count of a
 * walk and the number of 25-seat buses it needs.
 *
 * The volunteer's name and ID, the printed sentences and the weather check
 * are not part of this module (see README.md).
 */
module Routes {

  import opened JavaInt

  /** What a route selector resolves to: where the walk meets, when it
      starts and when it ends. */
  datatype RouteDetails = RouteDetails(meetingPoint: string, startTime: string, endTime: string)

  /** The descriptor an invalid selector falls back to. */
  const NoRoute: RouteDetails := RouteDetails("", "", "")

  /** The three routes, listed by selector 1, 2, 3. */
  const RouteTable: seq<RouteDetails> := [
    RouteDetails("Calle 16 - Universidad del Valle", "6:40 am", "4:00 pm"),
    RouteDetails("Bulevar del Río", "7:00 am", "1:00 pm"),
    RouteDetails("Bulevar del Río", "7:00 am", "1:30 pm")
  ]

  predicate IsValidRoute(route: int) {
    1 <= route <= |RouteTable|
  }

  /** The route switch: one case per selector, and three empty strings for
      any other selector (the flow then carries on with them). */
  function SelectRoute(route: Int32): (d: RouteDetails)
    ensures IsValidRoute(route) ==> d == RouteTable[route - 1]
    ensures !IsValidRoute(route) ==> d == NoRoute
  {
    match route
    case 1 => RouteDetails("Calle 16 - Universidad del Valle", "6:40 am", "4:00 pm")
    case 2 => RouteDetails("Bulevar del Río", "7:00 am", "1:00 pm")
    case 3 => RouteDetails("Bulevar del Río", "7:00 am", "1:30 pm")
    case _ => NoRoute
  }

  /** A selector is rejected exactly when the descriptor comes back empty,
      and a valid selector never yields an empty field. */
  lemma SelectRouteRejectsExactlyInvalid(route: Int32)
    ensures SelectRoute(route) == NoRoute <==> !IsValidRoute(route)
    ensures IsValidRoute(route) ==>
      var d := SelectRoute(route);
      d.meetingPoint != "" && d.startTime != "" && d.endTime != ""
  {
  }

  /** The people on the walk: participants plus guides, added as Java `int`s. */
  function TotalPeople(participants: Int32, guides: Int32): (total: Int32)
    ensures InRange(participants + guides) ==> total == participants + guides
    ensures (total - (participants + guides)) % MODULUS == 0
  {
    Add(participants, guides)
  }

  /** The buses needed for `total` people, `(total + 24) / 25` in Java
      arithmetic: for every head count that does not overflow the addition
      this is the ceiling of total / 25, the fewest 25-seat buses that hold
      everyone. */
  function BusesNeeded(total: Int32): (buses: Int32)
    ensures 0 <= total <= MAX_INT - 24 ==> 25 * (buses - 1) < total <= 25 * buses
    ensures 0 <= total <= MAX_INT - 24 ==> buses >= 0
  {
    Div(Add(total, 24), 25)
  }

  /** For a total within 24 of the largest `int`, the addition wraps and the
      reported bus count is negative. */
  lemma BusesNeededOverflow(total: Int32)
    requires total > MAX_INT - 24
    ensures BusesNeeded(total) < 0
  {
    var sum := Add(total, 24);
    assert sum == total + 24 - MODULUS by {
      assert InRange(total + 24 - MODULUS);
      assert (sum - (total + 24 - MODULUS)) % MODULUS == 0;
    }
  }

  /** The whole head-count flow: for non-negative participant and guide
      counts whose sum stays clear of overflow, the buses reported are the
      fewest that seat every participant and guide. */
  lemma WalkBusesSeatEveryone(participants: Int32, guides: Int32)
    requires 0 <= participants && 0 <= guides
    requires participants + guides <= MAX_INT - 24
    ensures var buses := BusesNeeded(TotalPeople(participants, guides));
      25 * (buses - 1) < participants + guides <= 25 * buses
  {
  }
}
