/** The results panel (src/components/FlightResults.tsx): which of its four views
    it shows for `(isLoading, error, flights)`, the `mapFlight` projection that
    feeds each card, and the result-count heading. */
module FlightResults {
  import opened Wrappers
  import opened JsNumber
  import opened Json

  /** The props `mapFlight` builds for one `FlightCard`: each field is whatever the
      backend record held under that name, `Undefined` when it held nothing. */
  datatype Card = Card(
    airline: Property,
    flightNumber: Property,
    departureAirport: Property,
    departureTime: Property,
    arrivalAirport: Property,
    arrivalTime: Property,
    duration: Property,
    price: Property,
    stops: Property,
    segments: Property)

  /** The names `mapFlight` copies, in the order it lists them. */
  const CardKeys: seq<string> := [
    "airline", "flightNumber", "departureAirport", "departureTime", "arrivalAirport",
    "arrivalTime", "duration", "price", "stops", "segments"
  ]

  /** The card field listed at position `i` of `CardKeys`. */
  function CardField(c: Card, i: nat): Property
    requires i < |CardKeys|
  {
    if i == 0 then c.airline
    else if i == 1 then c.flightNumber
    else if i == 2 then c.departureAirport
    else if i == 3 then c.departureTime
    else if i == 4 then c.arrivalAirport
    else if i == 5 then c.arrivalTime
    else if i == 6 then c.duration
    else if i == 7 then c.price
    else if i == 8 then c.stops
    else c.segments
  }

  /** `mapFlight(flight)`: a card whose every field is the same-named property of
      `flight`. Reading a property of a `null` entry throws (`None`). */
  function MapFlight(flight: Json): (r: Option<Card>)
    ensures r.None? <==> flight.JNull?
    ensures r.Some? ==> forall i :: 0 <= i < |CardKeys| ==>
      Some(CardField(r.value, i)) == GetProperty(flight, CardKeys[i])
  {
    if flight.JNull? then None
    else
      Some(Card(
        GetProperty(flight, "airline").value,
        GetProperty(flight, "flightNumber").value,
        GetProperty(flight, "departureAirport").value,
        GetProperty(flight, "departureTime").value,
        GetProperty(flight, "arrivalAirport").value,
        GetProperty(flight, "arrivalTime").value,
        GetProperty(flight, "duration").value,
        GetProperty(flight, "price").value,
        GetProperty(flight, "stops").value,
        GetProperty(flight, "segments").value))
  }

  /** `mapFlight` copies exactly these ten fields: records that agree on them give
      the same card, whatever else they carry. */
  lemma MapFlightIgnoresOtherFields(m1: map<string, Json>, m2: map<string, Json>)
    requires forall i :: 0 <= i < |CardKeys| ==>
      (CardKeys[i] in m1 <==> CardKeys[i] in m2) &&
      (CardKeys[i] in m1 ==> m1[CardKeys[i]] == m2[CardKeys[i]])
    ensures MapFlight(JObj(m1)) == MapFlight(JObj(m2))
  {
    var r1 := MapFlight(JObj(m1)).value;
    var r2 := MapFlight(JObj(m2)).value;
    forall i | 0 <= i < |CardKeys| ensures CardField(r1, i) == CardField(r2, i) {
      assert Some(CardField(r1, i)) == GetProperty(JObj(m1), CardKeys[i]);
      assert Some(CardField(r2, i)) == GetProperty(JObj(m2), CardKeys[i]);
    }
    assert CardField(r1, 0) == CardField(r2, 0);
    assert CardField(r1, 1) == CardField(r2, 1);
    assert CardField(r1, 2) == CardField(r2, 2);
    assert CardField(r1, 3) == CardField(r2, 3);
    assert CardField(r1, 4) == CardField(r2, 4);
    assert CardField(r1, 5) == CardField(r2, 5);
    assert CardField(r1, 6) == CardField(r2, 6);
    assert CardField(r1, 7) == CardField(r2, 7);
    assert CardField(r1, 8) == CardField(r2, 8);
    assert CardField(r1, 9) == CardField(r2, 9);
  }

  /** `flight{flights.length !== 1 ? 's' : ''}`. */
  function PluralSuffix(n: nat): (r: string)
    ensures r == "" <==> n == 1
    ensures n != 1 ==> r == "s"
  {
    if n != 1 then "s" else ""
  }

  /** The heading above the list: `Found {n} flight(s) for your search`. */
  function CountHeading(n: nat): (r: string)
    ensures |r| >= 30 + |PluralSuffix(n)| && r[..6] == "Found "
    ensures n == 1 ==> r[|r| - 23..] == " flight for your search"
    ensures n != 1 ==> r[|r| - 24..] == " flights for your search"
  {
    var tail := " flight" + PluralSuffix(n) + " for your search";
    assert n == 1 ==> tail == " flight for your search";
    assert n != 1 ==> tail == " flights for your search";
    Affixes("Found ", NatToString(n), tail);
    "Found " + NatToString(n) + tail
  }

  /** Where the first and last parts of a three-part concatenation sit. */
  lemma Affixes(a: string, b: string, c: string)
    ensures |a + b + c| == |a| + |b| + |c|
    ensures (a + b + c)[..|a|] == a && (a + b + c)[|a| + |b|..] == c
  {
  }

  /** The count the heading prints reads back as the number of flights. */
  lemma CountHeadingShowsCount(n: nat)
    ensures |CountHeading(n)| > 6
    ensures ParseInt(CountHeading(n)[6..]) == Integral(n)
  {
    var rest := " flight" + PluralSuffix(n) + " for your search";
    assert CountHeading(n)[6..] == NatToString(n) + rest;
    ParseIntOfNatString(n, rest);
  }

  /** The four views of the panel, plus the render that throws because an entry of
      the list is `null`. `Listing` carries the heading and one card per flight. */
  datatype View =
    | Loading
    | Failure(message: string)
    | NoFlights
    | Listing(heading: string, cards: seq<Card>)
    | RenderThrows

  /** `error` is truthy: present and not the empty string. */
  predicate Truthy(error: Option<string>) {
    error.Some? && error.value != ""
  }

  function MapAll(flights: seq<Json>): (r: Option<seq<Card>>)
    ensures r.None? <==> exists i :: 0 <= i < |flights| && flights[i].JNull?
    ensures r.Some? ==> |r.value| == |flights|
    ensures r.Some? ==> forall i :: 0 <= i < |flights| ==> MapFlight(flights[i]) == Some(r.value[i])
    decreases |flights|
  {
    if |flights| == 0 then Some([])
    else
      match MapFlight(flights[0])
      case None => None
      case Some(c) =>
        match MapAll(flights[1..])
        case None =>
          assert exists i :: 0 <= i < |flights| - 1 && flights[1..][i].JNull?;
          None
        case Some(cs) => Some([c] + cs)
  }

  /** The component: loading wins over everything, then a truthy error, then the
      empty list; otherwise one card per flight in order. */
  function Render(isLoading: bool, error: Option<string>, flights: seq<Json>): (v: View)
    ensures isLoading <==> v.Loading?
    ensures v.Failure? <==> !isLoading && Truthy(error)
    ensures v.Failure? ==> v.message == error.value
    ensures v.NoFlights? <==> !isLoading && !Truthy(error) && |flights| == 0
    ensures v.RenderThrows? <==>
      (!isLoading && !Truthy(error) && |flights| > 0 && exists i :: 0 <= i < |flights| && flights[i].JNull?)
    ensures v.Listing? ==> v.heading == CountHeading(|flights|) && |v.cards| == |flights|
    ensures v.Listing? ==> forall i :: 0 <= i < |flights| ==> MapFlight(flights[i]) == Some(v.cards[i])
  {
    if isLoading then Loading
    else if Truthy(error) then Failure(error.value)
    else if |flights| == 0 then NoFlights
    else
      match MapAll(flights)
      case None => RenderThrows
      case Some(cards) => Listing(CountHeading(|flights|), cards)
  }

  /** A shown error does not depend on the list underneath it. */
  lemma ErrorHidesFlights(error: string, flights1: seq<Json>, flights2: seq<Json>)
    requires error != ""
    ensures Render(false, Some(error), flights1) == Render(false, Some(error), flights2) == Failure(error)
  {
  }

  /** A null or empty error falls through to the list. */
  lemma EmptyErrorFallsThrough(error: Option<string>, flights: seq<Json>)
    requires error == None || error == Some("")
    ensures Render(false, error, flights) == Render(false, None, flights)
  {
  }
}
