/** The flight-search controller (src/App.tsx): `handleSearch` as a transition over
    the page state `{flights, isLoading, error, hasSearched}`. The network call is an
    input: the outcome of the `fetch` and of reading its body. */
module App {
  import opened Wrappers
  import opened JsString
  import opened JsNumber
  import opened Json
  import opened SearchForm
  import opened FlightResults

  const ValidationMessage: string :=
    "Please enter valid origin, destination, departure date, and a positive number of adults."
  /** The two messages the proofs read character by character are spelled in pieces:
      the verifier does not look inside long string literals. */
  const UnreachableMessage: string :=
    "Unable to connect to the flight " + "search service. Please check your " + "connection and try again."
  /** The message of the TypeError V8 throws for `data.flights` when `data` is `null`. */
  const NullReadMessage: string := "Cannot read properties of null " + "(reading 'flights')"
  const FetchMarker: string := "Failed to fetch"
  const NetworkMarker: string := "NetworkError"

  /** The page's state; `error == None` is `null`. */
  datatype AppState = AppState(flights: seq<Json>, isLoading: bool, error: Option<string>, hasSearched: bool)

  const InitialState: AppState := AppState([], false, None, false)

  /** A text field that holds a string with something other than whitespace. */
  predicate Filled(t: Text) {
    t.Str? && exists i :: 0 <= i < |t.value| && !IsWhitespace(t.value[i])
  }

  /** `typeof t === 'string' && t.trim()` is truthy. */
  function NonBlank(t: Text): (b: bool)
    ensures b <==> Filled(t)
  {
    t.Str? && Trim(t.value) != ""
  }

  /** The validation in front of the request: the three text fields are strings that
      are not blank, and `adults` is an integer above zero. */
  function IsValidSearch(d: SearchData): (b: bool)
    ensures b <==> Filled(d.origin) && Filled(d.destination) && Filled(d.date)
                   && d.adults.Integral? && d.adults.value > 0
  {
    NonBlank(d.origin) && NonBlank(d.destination) && NonBlank(d.date)
    && IsInteger(d.adults) && d.adults.value > 0
  }

  /** What `JSON.stringify` writes for a number: `NaN` and the infinities become `null`. */
  function JsonOfNumber(n: Number): (j: Json)
    ensures j.JNull? <==> n.NonFinite?
    ensures j.JNum? ==> j.n == n
  {
    if n.NonFinite? then JNull else JNum(n)
  }

  /** `JSON.stringify` of an array of strings. */
  function StringArray(xs: seq<string>): (j: Json)
    ensures j.JArr? && |j.items| == |xs|
    ensures forall i :: 0 <= i < |xs| ==> j.items[i] == JStr(xs[i])
  {
    JArr(seq(|xs|, i requires 0 <= i < |xs| => JStr(xs[i])))
  }

  /** Adds `key` when the field is defined; `JSON.stringify` drops `undefined` members. */
  function WithNumber(m: map<string, Json>, key: string, v: Option<Number>): (r: map<string, Json>)
    ensures key in r <==> key in m || v.Some?
    ensures v.Some? ==> r[key] == JsonOfNumber(v.value)
    ensures forall k :: k != key ==> (k in r <==> k in m) && (k in m ==> r[k] == m[k])
  {
    if v.Some? then m[key := JsonOfNumber(v.value)] else m
  }

  function WithList(m: map<string, Json>, key: string, v: Option<seq<string>>): (r: map<string, Json>)
    ensures key in r <==> key in m || v.Some?
    ensures v.Some? ==> r[key] == StringArray(v.value)
    ensures forall k :: k != key ==> (k in r <==> k in m) && (k in m ==> r[k] == m[k])
  {
    if v.Some? then m[key := StringArray(v.value)] else m
  }

  function WithText(m: map<string, Json>, key: string, v: Option<string>): (r: map<string, Json>)
    ensures key in r <==> key in m || v.Some?
    ensures v.Some? ==> r[key] == JStr(v.value)
    ensures forall k :: k != key ==> (k in r <==> k in m) && (k in m ==> r[k] == m[k])
  {
    if v.Some? then m[key := JStr(v.value)] else m
  }

  /** The body posted to `/search`: the eight fields of the form, as they are. Member
      order is not part of the model. */
  function RequestBody(d: SearchData): (j: Json)
    requires d.origin.Str? && d.destination.Str? && d.date.Str?
    ensures j.JObj?
    ensures "origin" in j.fields && j.fields["origin"] == JStr(d.origin.value)
    ensures "destination" in j.fields && j.fields["destination"] == JStr(d.destination.value)
    ensures "date" in j.fields && j.fields["date"] == JStr(d.date.value)
    ensures "adults" in j.fields && j.fields["adults"] == JsonOfNumber(d.adults)
    ensures "minPrice" in j.fields <==> d.minPrice.Some?
    ensures "maxPrice" in j.fields <==> d.maxPrice.Some?
    ensures "preferredAirlines" in j.fields <==> d.preferredAirlines.Some?
    ensures "stops" in j.fields <==> d.stops.Some?
    ensures d.minPrice.Some? ==> j.fields["minPrice"] == JsonOfNumber(d.minPrice.value)
    ensures d.maxPrice.Some? ==> j.fields["maxPrice"] == JsonOfNumber(d.maxPrice.value)
    ensures d.preferredAirlines.Some? ==> j.fields["preferredAirlines"] == StringArray(d.preferredAirlines.value)
    ensures d.stops.Some? ==> j.fields["stops"] == JStr(d.stops.value)
    ensures forall k :: k in j.fields ==> k in BodyKeys
  {
    BodyKeysDistinct();
    var m0 := RequiredMembers(d);
    var m1 := OptionalMembers(d);
    JObj(m0 + m1)
  }

  /** The members that are present only when their field is defined. */
  function OptionalMembers(d: SearchData): (m: map<string, Json>)
    ensures "minPrice" in m <==> d.minPrice.Some?
    ensures "maxPrice" in m <==> d.maxPrice.Some?
    ensures "preferredAirlines" in m <==> d.preferredAirlines.Some?
    ensures "stops" in m <==> d.stops.Some?
    ensures d.minPrice.Some? ==> m["minPrice"] == JsonOfNumber(d.minPrice.value)
    ensures d.maxPrice.Some? ==> m["maxPrice"] == JsonOfNumber(d.maxPrice.value)
    ensures d.preferredAirlines.Some? ==> m["preferredAirlines"] == StringArray(d.preferredAirlines.value)
    ensures d.stops.Some? ==> m["stops"] == JStr(d.stops.value)
    ensures forall k :: k in m ==> k in {"minPrice", "maxPrice", "preferredAirlines", "stops"}
  {
    BodyKeysDistinct();
    var m1 := WithNumber(map[], "minPrice", d.minPrice);
    var m2 := WithNumber(m1, "maxPrice", d.maxPrice);
    var m3 := WithList(m2, "preferredAirlines", d.preferredAirlines);
    WithText(m3, "stops", d.stops)
  }

  /** The four members every body has. */
  function RequiredMembers(d: SearchData): (m: map<string, Json>)
    requires d.origin.Str? && d.destination.Str? && d.date.Str?
    ensures m.Keys == {"origin", "destination", "date", "adults"}
    ensures m["origin"] == JStr(d.origin.value) && m["destination"] == JStr(d.destination.value)
    ensures m["date"] == JStr(d.date.value) && m["adults"] == JsonOfNumber(d.adults)
  {
    BodyKeysDistinct();
    map[
      "origin" := JStr(d.origin.value),
      "destination" := JStr(d.destination.value),
      "date" := JStr(d.date.value),
      "adults" := JsonOfNumber(d.adults)]
  }

  /** The member names differ pairwise (by length, or else by an early letter). */
  lemma BodyKeysDistinct()
    ensures "origin" !in {"destination", "date", "adults"}
    ensures "destination" !in {"date", "adults"} && "date" != "adults"
    ensures "minPrice" !in {"origin", "destination", "date", "adults"}
    ensures "maxPrice" !in {"origin", "destination", "date", "adults", "minPrice"}
    ensures "preferredAirlines" !in {"origin", "destination", "date", "adults", "minPrice", "maxPrice"}
    ensures "stops" !in {"origin", "destination", "date", "adults", "minPrice", "maxPrice", "preferredAirlines"}
  {
    assert "minPrice"[1] != "maxPrice"[1];
    assert "origin"[0] != "adults"[0];
  }

  const BodyKeys: set<string> :=
    {"origin", "destination", "date", "adults", "minPrice", "maxPrice", "preferredAirlines", "stops"}

  /** Reading a string array back. */
  function Strings(items: seq<Json>): (r: Option<seq<string>>)
    ensures r.Some? ==> |r.value| == |items|
    ensures r.Some? ==> forall i :: 0 <= i < |items| ==> items[i] == JStr(r.value[i])
    decreases |items|
  {
    if |items| == 0 then Some([])
    else if !items[0].JStr? then None
    else
      match Strings(items[1..])
      case None => None
      case Some(rest) => Some([items[0].s] + rest)
  }

  function ReadText(m: map<string, Json>, key: string): Option<Text> {
    if key in m && m[key].JStr? then Some(Str(m[key].s)) else None
  }

  /** A required number member: `null` is a non-finite number. */
  function ReadRequiredNumber(m: map<string, Json>, key: string): Option<Number> {
    if key in m && m[key].JNull? then Some(NonFinite)
    else if key in m && m[key].JNum? then Some(m[key].n)
    else None
  }

  /** An optional number member: absent is `undefined`, `null` a non-finite number. */
  function ReadNumber(m: map<string, Json>, key: string): Option<Option<Number>> {
    if key !in m then Some(None)
    else if m[key].JNull? then Some(Some(NonFinite))
    else if m[key].JNum? then Some(Some(m[key].n))
    else None
  }

  function ReadList(m: map<string, Json>, key: string): Option<Option<seq<string>>> {
    if key !in m then Some(None)
    else if m[key].JArr? then (match Strings(m[key].items) case None => None case Some(xs) => Some(Some(xs)))
    else None
  }

  function ReadOptionalText(m: map<string, Json>, key: string): Option<Option<string>> {
    if key !in m then Some(None)
    else if m[key].JStr? then Some(Some(m[key].s))
    else None
  }

  /** How a server reads the body back into a `SearchData`. */
  function DecodeBody(j: Json): Option<SearchData> {
    if !j.JObj? then None
    else
      var m := j.fields;
      var origin := ReadText(m, "origin");
      var destination := ReadText(m, "destination");
      var date := ReadText(m, "date");
      var adults := ReadRequiredNumber(m, "adults");
      var minPrice := ReadNumber(m, "minPrice");
      var maxPrice := ReadNumber(m, "maxPrice");
      var airlines := ReadList(m, "preferredAirlines");
      var stops := ReadOptionalText(m, "stops");
      if origin.None? || destination.None? || date.None? || adults.None?
         || minPrice.None? || maxPrice.None? || airlines.None? || stops.None?
      then None
      else Some(SearchData(origin.value, destination.value, date.value, adults.value,
                           minPrice.value, maxPrice.value, airlines.value, stops.value))
  }

  lemma {:induction false} StringsOfStringArray(xs: seq<string>)
    ensures Strings(StringArray(xs).items) == Some(xs)
    decreases |xs|
  {
    if |xs| > 0 {
      var items := StringArray(xs).items;
      assert items[1..] == StringArray(xs[1..]).items;
      StringsOfStringArray(xs[1..]);
      assert [xs[0]] + xs[1..] == xs;
    }
  }

  /** The body carries the form's fields unchanged: reading it back gives the same
      record, so nothing is case-folded, trimmed or defaulted on the way. */
  lemma RequestBodyRoundTrip(d: SearchData)
    requires d.origin.Str? && d.destination.Str? && d.date.Str?
    ensures DecodeBody(RequestBody(d)) == Some(d)
  {
    var m := RequestBody(d).fields;
    assert ReadText(m, "origin") == Some(d.origin);
    assert ReadText(m, "destination") == Some(d.destination);
    assert ReadText(m, "date") == Some(d.date);
    assert ReadRequiredNumber(m, "adults") == Some(d.adults);
    if d.preferredAirlines.Some? {
      StringsOfStringArray(d.preferredAirlines.value);
    }
    assert ReadList(m, "preferredAirlines") == Some(d.preferredAirlines);
  }

  /** The response normaliser: an array under `flights` wins, then a bare array, then
      nothing. `None` is the TypeError thrown by reading `flights` of `null`. */
  function Normalise(data: Json): (r: Option<seq<Json>>)
    ensures r.None? <==> data.JNull?
  {
    match GetProperty(data, "flights")
    case None => None
    case Some(p) =>
      if p.Defined? && p.value.JArr? then Some(p.value.items)
      else if data.JArr? then Some(data.items)
      else Some([])
  }

  /** The wrapped and the bare list give the same flights. */
  lemma NormaliseEnvelope(xs: seq<Json>, others: map<string, Json>)
    ensures Normalise(JObj(others["flights" := JArr(xs)])) == Some(xs)
    ensures Normalise(JArr(xs)) == Some(xs)
  {
  }

  /** A `flights` member that is not an array is ignored, and so is any other
      payload that is not an array. */
  lemma NormaliseOtherwiseEmpty(data: Json)
    requires !data.JNull? && !data.JArr?
    requires !(data.JObj? && "flights" in data.fields && data.fields["flights"].JArr?)
    ensures Normalise(data) == Some([])
  {
  }

  /** Normalised entries are always entries of the payload or of its `flights` array. */
  lemma NormaliseTakesFromPayload(data: Json)
    requires Normalise(data).Some?
    ensures var xs := Normalise(data).value;
      xs == [] || (data.JArr? && xs == data.items)
      || (data.JObj? && "flights" in data.fields && data.fields["flights"] == JArr(xs))
  {
  }

  /** What a `catch` can receive. */
  datatype Thrown = ErrorObject(message: string) | NonError

  /** The outcome of `fetch` and `response.json()`: a parsed body of an OK response,
      a response whose `ok` is false, or a throw (a network failure, an unparsable
      body). */
  datatype FetchOutcome =
    | Responded(body: Json)
    | HttpError(status: nat, statusText: string)
    | Threw(thrown: Thrown)

  function HttpErrorPrefix(status: nat): string {
    "Failed to search flights: " + NatToString(status) + " "
  }

  /** The message of the Error thrown for a response that is not OK: the fixed
      text, the status code in decimal, a space, then the status text as sent. */
  function HttpErrorMessage(status: nat, statusText: string): (r: string)
    ensures |r| > 26 + |statusText| && r[..26] == "Failed to search flights: "
    ensures r[|r| - |statusText|..] == statusText && r[|r| - |statusText| - 1] == ' '
  {
    var r := HttpErrorPrefix(status) + statusText;
    assert r[|r| - |statusText|..] == statusText;
    r
  }

  /** The error shown for a caught value. */
  function ErrorText(t: Thrown): (r: string)
    ensures t.NonError? ==> r == UnreachableMessage
    ensures t.ErrorObject? && (Contains(t.message, FetchMarker) || Contains(t.message, NetworkMarker))
      ==> r == UnreachableMessage
    ensures t.ErrorObject? && !Contains(t.message, FetchMarker) && !Contains(t.message, NetworkMarker)
      ==> r == t.message
  {
    match t
    case NonError => UnreachableMessage
    case ErrorObject(m) =>
      if Contains(m, FetchMarker) || Contains(m, NetworkMarker) then UnreachableMessage else m
  }

  /** `setIsLoading(true); setError(null); setHasSearched(true)`. */
  function Begin(s: AppState): (r: AppState)
    ensures r.isLoading && r.error.None? && r.hasSearched
    ensures r.flights == s.flights
  {
    s.(isLoading := true, error := None, hasSearched := true)
  }

  /** The `try`/`catch`/`finally` after the request was sent. */
  function Complete(s: AppState, outcome: FetchOutcome): (r: AppState)
    ensures !r.isLoading && r.hasSearched == s.hasSearched
    ensures outcome.Responded? && !outcome.body.JNull? ==>
      r.flights == Normalise(outcome.body).value && r.error == s.error
    ensures outcome.Responded? && outcome.body.JNull? ==>
      r.flights == [] && r.error == Some(NullReadMessage)
    ensures outcome.HttpError? ==>
      r.flights == [] && r.error == Some(ErrorText(ErrorObject(HttpErrorMessage(outcome.status, outcome.statusText))))
    ensures outcome.Threw? ==> r.flights == [] && r.error == Some(ErrorText(outcome.thrown))
  {
    var thrown :=
      match outcome
      case Responded(body) => if body.JNull? then Some(ErrorObject(NullReadMessage)) else None
      case HttpError(status, text) => Some(ErrorObject(HttpErrorMessage(status, text)))
      case Threw(t) => Some(t);
    if thrown.None? then
      s.(flights := Normalise(outcome.body).value, isLoading := false)
    else
      assert ErrorText(ErrorObject(NullReadMessage)) == NullReadMessage by {
        NoMarkerInNullRead();
      }
      s.(error := Some(ErrorText(thrown.value)), flights := [], isLoading := false)
  }

  lemma NoMarkerInNullRead()
    ensures !Contains(NullReadMessage, FetchMarker) && !Contains(NullReadMessage, NetworkMarker)
  {
    assert 'F' !in NullReadMessage && 'N' !in NullReadMessage;
    forall j | 0 <= j < |NullReadMessage| ensures !OccursAt(NullReadMessage, FetchMarker, j) {
      DiffersAt(NullReadMessage, FetchMarker, j, 0);
    }
    forall j | 0 <= j < |NullReadMessage| ensures !OccursAt(NullReadMessage, NetworkMarker, j) {
      DiffersAt(NullReadMessage, NetworkMarker, j, 0);
    }
  }

  /** A pattern does not start where one of its characters is contradicted. */
  lemma DiffersAt(s: string, p: string, i: nat, k: nat)
    requires k < |p| && i + k < |s| && s[i + k] != p[k]
    ensures !OccursAt(s, p, i)
  {
    if i + |p| <= |s| {
      assert s[i..i + |p|][k] == s[i + k];
    }
  }

  /** One search: the new state, and the body posted, if any. */
  datatype Attempt = Attempt(state: AppState, request: Option<Json>)

  /** `handleSearch(searchData)` run to completion with the given network outcome. */
  function HandleSearch(s: AppState, d: SearchData, outcome: FetchOutcome): (r: Attempt)
    ensures r.request.Some? <==> IsValidSearch(d)
    ensures r.state.hasSearched
    ensures !IsValidSearch(d) ==>
      r.state == s.(error := Some(ValidationMessage), flights := [], hasSearched := true)
    ensures IsValidSearch(d) ==> r.request == Some(RequestBody(d)) && !r.state.isLoading
    ensures IsValidSearch(d) && outcome.Responded? && !outcome.body.JNull? ==>
      r.state.flights == Normalise(outcome.body).value && r.state.error.None?
    ensures IsValidSearch(d) && !(outcome.Responded? && !outcome.body.JNull?) ==>
      r.state.flights == [] && r.state.error.Some?
  {
    if !IsValidSearch(d) then
      Attempt(s.(error := Some(ValidationMessage), flights := [], hasSearched := true), None)
    else
      Attempt(Complete(Begin(s), outcome), Some(RequestBody(d)))
  }

  /** The first character at which the HTTP error prefix could start a marker. */
  lemma HttpErrorPrefixChars(status: nat)
    ensures |HttpErrorPrefix(status)| > 10
    ensures HttpErrorPrefix(status)[0] == 'F' && HttpErrorPrefix(status)[10] == 's'
    ensures forall i :: 1 <= i < |HttpErrorPrefix(status)| ==>
      HttpErrorPrefix(status)[i] != 'F' && HttpErrorPrefix(status)[i] != 'N'
  {
    var lit := "Failed to search flights: ";
    var digits := NatToString(status);
    var pre := HttpErrorPrefix(status);
    assert pre == lit + digits + " ";
    forall i | 1 <= i < |pre| ensures pre[i] != 'F' && pre[i] != 'N' {
      if i < |lit| {
        assert pre[i] == lit[i];
      } else if i < |lit| + |digits| {
        assert pre[i] == digits[i - |lit|];
      }
    }
  }

  /** No marker starts inside the prefix, however the status text goes on. */
  lemma NoMarkerInPrefix(status: nat, statusText: string, p: string)
    requires p == FetchMarker || p == NetworkMarker
    ensures forall i :: 0 <= i < |HttpErrorPrefix(status)| ==>
      !OccursAt(HttpErrorPrefix(status) + statusText, p, i)
  {
    var pre := HttpErrorPrefix(status);
    var s := pre + statusText;
    HttpErrorPrefixChars(status);
    forall i | 0 <= i < |pre| ensures !OccursAt(s, p, i) {
      if i == 0 && p == FetchMarker {
        assert s[10] == pre[10];
        DiffersAt(s, p, 0, 10);
      } else {
        assert s[i] == pre[i];
        DiffersAt(s, p, i, 0);
      }
    }
  }

  /** An HTTP error surfaces as "Failed to search flights: {status} {statusText}"
      exactly when the status text names neither marker; the prefix itself never
      triggers the unreachable-service message. */
  lemma HttpErrorSurfaces(status: nat, statusText: string)
    ensures ErrorText(ErrorObject(HttpErrorMessage(status, statusText))) == HttpErrorMessage(status, statusText)
      <==> !Contains(statusText, FetchMarker) && !Contains(statusText, NetworkMarker)
  {
    var pre := HttpErrorPrefix(status);
    NoMarkerInPrefix(status, statusText, FetchMarker);
    NoMarkerInPrefix(status, statusText, NetworkMarker);
    ContainsPastPrefix(pre, statusText, FetchMarker);
    ContainsPastPrefix(pre, statusText, NetworkMarker);
    HttpErrorPrefixChars(status);
    assert (pre + statusText)[0] == 'F';
    assert UnreachableMessage[0] == 'U';
  }

  /** The status code in the message reads back as the status. */
  lemma HttpErrorShowsStatus(status: nat, statusText: string)
    ensures |HttpErrorMessage(status, statusText)| > 26
    ensures ParseInt(HttpErrorMessage(status, statusText)[26..]) == Integral(status)
  {
    var rest := " " + statusText;
    assert HttpErrorMessage(status, statusText)[26..] == NatToString(status) + rest;
    ParseIntOfNatString(status, rest);
  }

  /** What the page shows: the welcome text until a search was made, the results
      panel from then on. */
  datatype Screen = Welcome | Results(view: View)

  function Display(s: AppState): (sc: Screen)
    ensures sc.Welcome? <==> !s.hasSearched
  {
    if s.hasSearched then Results(Render(s.isLoading, s.error, s.flights)) else Welcome
  }

  /** While the request is pending, the panel shows the loading view. */
  lemma PendingShowsLoading(s: AppState)
    ensures Display(Begin(s)) == Results(Loading)
  {
  }

  /** A rejected form shows the validation message when no earlier request is
      pending; `isLoading` is left as it was, so a pending one keeps the loading view. */
  lemma RejectedShowsValidation(s: AppState, d: SearchData, outcome: FetchOutcome)
    requires !IsValidSearch(d) && !s.isLoading
    ensures Display(HandleSearch(s, d, outcome).state) == Results(Failure(ValidationMessage))
  {
  }

  /** After a failed request the panel shows the mapped message, or falls through
      to "no flights" when that message is empty. */
  lemma FailureShowsMessage(s: AppState, d: SearchData, outcome: FetchOutcome)
    requires IsValidSearch(d) && !(outcome.Responded? && !outcome.body.JNull?)
    ensures var st := HandleSearch(s, d, outcome).state;
      Display(st) == Results(if st.error.value == "" then NoFlights else Failure(st.error.value))
  {
  }

  /** After a successful request the panel lists one card per normalised flight. */
  lemma SuccessListsFlights(s: AppState, d: SearchData, body: Json, flights: seq<Json>)
    requires IsValidSearch(d) && Normalise(body) == Some(flights)
    requires |flights| > 0 && forall i :: 0 <= i < |flights| ==> !flights[i].JNull?
    ensures var sc := Display(HandleSearch(s, d, Responded(body)).state);
      sc.Results? && sc.view.Listing? && |sc.view.cards| == |flights|
  {
    var st := HandleSearch(s, d, Responded(body)).state;
    assert st == Complete(Begin(s), Responded(body));
    assert st.flights == flights && st.error.None? && !st.isLoading && st.hasSearched;
    ListingWithoutNull(st.flights);
  }

  lemma ListingWithoutNull(flights: seq<Json>)
    requires |flights| > 0 && forall i :: 0 <= i < |flights| ==> !flights[i].JNull?
    ensures Render(false, None, flights).Listing? && |Render(false, None, flights).cards| == |flights|
  {
  }

  /** A sequence of searches, each run to completion before the next starts. */
  datatype Search = Search(data: SearchData, outcome: FetchOutcome)

  function Run(s: AppState, searches: seq<Search>): AppState
    decreases |searches|
  {
    if |searches| == 0 then s
    else Run(HandleSearch(s, searches[0].data, searches[0].outcome).state, searches[1..])
  }

  /** Between searches: nothing is loading, a shown error comes with no flights, and
      before the first search the page is as it started. */
  predicate Settled(s: AppState) {
    && !s.isLoading
    && (s.error.Some? ==> s.flights == [])
    && (!s.hasSearched ==> s == InitialState)
  }

  lemma HandleSearchSettles(s: AppState, d: SearchData, outcome: FetchOutcome)
    requires Settled(s)
    ensures Settled(HandleSearch(s, d, outcome).state)
  {
  }

  /** `finally` clears the loading flag after every completed search, so a page that
      only sees completed searches never stays in the loading view. */
  lemma {:induction false} RunStaysSettled(s: AppState, searches: seq<Search>)
    requires Settled(s)
    ensures Settled(Run(s, searches))
    ensures |searches| > 0 ==> Run(s, searches).hasSearched
    ensures Display(Run(s, searches)) != Results(Loading)
    decreases |searches|
  {
    if |searches| > 0 {
      var next := HandleSearch(s, searches[0].data, searches[0].outcome).state;
      HandleSearchSettles(s, searches[0].data, searches[0].outcome);
      RunStaysSettled(next, searches[1..]);
    }
  }

  lemma InitialStateSettled()
    ensures Settled(InitialState) && Display(InitialState) == Welcome
  {
  }

  /** The untouched form is refused: its origin is empty. */
  lemma InitialFormRejected()
    ensures !IsValidSearch(InitialForm)
  {
  }

  /** A Casablanca to Paris search for one adult is sent, with the codes as typed. */
  lemma CasablancaToParis()
    ensures var d := InitialForm.(origin := Str("CMN"), destination := Str("CDG"), date := Str("2025-07-01"));
      IsValidSearch(d) && RequestBody(d).fields["origin"] == JStr("CMN")
  {
    var d := InitialForm.(origin := Str("CMN"), destination := Str("CDG"), date := Str("2025-07-01"));
    assert !IsWhitespace(d.origin.value[0]);
    assert !IsWhitespace(d.destination.value[0]);
    assert !IsWhitespace(d.date.value[0]);
  }

  /** The form's submit handler validates nothing: clearing the adults input
      stores `NaN` (`parseInt('')`), and `handleSearch` refuses the search. */
  lemma ClearedAdultsRejected()
    ensures var d := Fill(InitialForm, [AdultsTyped("")]);
      d.adults == NonFinite && !IsValidSearch(d)
  {
    assert ParseInt("") == NonFinite;
    assert Fill(InitialForm, [AdultsTyped("")]) == OnInput(InitialForm, AdultsTyped(""));
  }

  /** Zero adults is refused. */
  lemma NoAdultsRejected(d: SearchData)
    requires d.adults == Integral(0)
    ensures !IsValidSearch(d)
  {
  }

  /** A thrown value that is not an Error shows the unreachable-service message. */
  lemma NonErrorUnreachable(s: AppState, d: SearchData)
    requires IsValidSearch(d)
    ensures HandleSearch(s, d, Threw(NonError)).state.error == Some(UnreachableMessage)
  {
    assert HandleSearch(s, d, Threw(NonError)).state == Complete(Begin(s), Threw(NonError));
  }

  /** A browser's network failure shows the unreachable-service message. */
  lemma FailedFetchUnreachable(s: AppState, d: SearchData)
    requires IsValidSearch(d)
    ensures HandleSearch(s, d, Threw(ErrorObject(FetchMarker))).state.error == Some(UnreachableMessage)
  {
    assert OccursAt(FetchMarker, FetchMarker, 0);
    assert ErrorText(ErrorObject(FetchMarker)) == UnreachableMessage;
    assert HandleSearch(s, d, Threw(ErrorObject(FetchMarker))).state
      == Complete(Begin(s), Threw(ErrorObject(FetchMarker)));
  }
}
