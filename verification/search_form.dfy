/** The flight search form (src/components/SearchForm.tsx): the `SearchData` record
    it holds and hands to `onSearch`, its initial value, the single-field update
    `handleInputChange`, the multi-select `handleAirlinesChange`, the conversions the
    inputs apply before updating, and the two fixed option lists. */
module SearchForm {
  import opened Wrappers
  import opened JsNumber

  /** A field the record's type declares a string. `NotAString` stands for any
      other JavaScript value a caller could place there; `handleSearch` checks
      for it with `typeof`. */
  datatype Text = Str(value: string) | NotAString

  /** `SearchData`: `None` in an optional field is `undefined`. */
  datatype SearchData = SearchData(
    origin: Text,
    destination: Text,
    date: Text,
    adults: Number,
    minPrice: Option<Number>,
    maxPrice: Option<Number>,
    preferredAirlines: Option<seq<string>>,
    stops: Option<string>)

  datatype AirlineOption = AirlineOption(code: string, name: string)

  /** `AIRLINES`, in the order the options appear in the multi-select. */
  const AirlineOptions: seq<AirlineOption> := [
    AirlineOption("AT", "Royal Air Maroc"),
    AirlineOption("AF", "Air France"),
    AirlineOption("LH", "Lufthansa"),
    AirlineOption("BA", "British Airways"),
    AirlineOption("EK", "Emirates")
  ]

  datatype StopsOption = StopsOption(value: string, title: string)

  /** `STOPS_OPTIONS`: any, direct, one stop, two or more stops. */
  const StopsOptions: seq<StopsOption> := [
    StopsOption("", "Any"),
    StopsOption("0", "Direct"),
    StopsOption("1", "1 stop"),
    StopsOption("2+", "2+ stops")
  ]

  function AirlineCodes(): (codes: seq<string>)
    ensures |codes| == |AirlineOptions|
    ensures forall i :: 0 <= i < |codes| ==> codes[i] == AirlineOptions[i].code
  {
    seq(|AirlineOptions|, i requires 0 <= i < |AirlineOptions| => AirlineOptions[i].code)
  }

  function StopsValues(): (values: seq<string>)
    ensures |values| == |StopsOptions|
    ensures forall i :: 0 <= i < |values| ==> values[i] == StopsOptions[i].value
  {
    seq(|StopsOptions|, i requires 0 <= i < |StopsOptions| => StopsOptions[i].value)
  }

  predicate Distinct(xs: seq<string>) {
    forall i, j :: 0 <= i < j < |xs| ==> xs[i] != xs[j]
  }

  /** The option values the form offers, spelled out. */
  lemma OptionSets()
    ensures AirlineCodes() == ["AT", "AF", "LH", "BA", "EK"]
    ensures StopsValues() == ["", "0", "1", "2+"]
    ensures Distinct(AirlineCodes()) && Distinct(StopsValues())
  {
  }

  /** The form's initial `formData`. */
  const InitialForm: SearchData :=
    SearchData(Str(""), Str(""), Str(""), Integral(1), None, None, Some([]), Some(""))

  /** The keys of `SearchData`. */
  datatype Field =
    | Origin | Destination | Date | Adults
    | MinPrice | MaxPrice | PreferredAirlines | Stops

  /** A value of one of the types `SearchData`'s fields hold. */
  datatype FieldValue =
    | TextValue(text: Text)
    | NumberValue(number: Number)
    | OptionalNumber(optNumber: Option<Number>)
    | OptionalList(list: Option<seq<string>>)
    | OptionalText(optText: Option<string>)

  function Get(d: SearchData, f: Field): FieldValue {
    match f
    case Origin => TextValue(d.origin)
    case Destination => TextValue(d.destination)
    case Date => TextValue(d.date)
    case Adults => NumberValue(d.adults)
    case MinPrice => OptionalNumber(d.minPrice)
    case MaxPrice => OptionalNumber(d.maxPrice)
    case PreferredAirlines => OptionalList(d.preferredAirlines)
    case Stops => OptionalText(d.stops)
  }

  /** `v` has the type of field `f`. */
  predicate Fits(f: Field, v: FieldValue) {
    match f
    case Origin | Destination | Date => v.TextValue?
    case Adults => v.NumberValue?
    case MinPrice | MaxPrice => v.OptionalNumber?
    case PreferredAirlines => v.OptionalList?
    case Stops => v.OptionalText?
  }

  /** `handleInputChange(field, value)`: `{...prev, [field]: value}`. */
  function HandleInputChange(d: SearchData, f: Field, v: FieldValue): (r: SearchData)
    requires Fits(f, v)
    ensures Get(r, f) == v
    ensures forall g :: g != f ==> Get(r, g) == Get(d, g)
  {
    match f
    case Origin => d.(origin := v.text)
    case Destination => d.(destination := v.text)
    case Date => d.(date := v.text)
    case Adults => d.(adults := v.number)
    case MinPrice => d.(minPrice := v.optNumber)
    case MaxPrice => d.(maxPrice := v.optNumber)
    case PreferredAirlines => d.(preferredAirlines := v.list)
    case Stops => d.(stops := v.optText)
  }

  /** `xs` is `ys` with some elements left out, order kept. */
  predicate IsSubsequence(xs: seq<string>, ys: seq<string>)
    decreases |ys|
  {
    if |xs| == 0 then true
    else if |ys| == 0 then false
    else if xs[0] == ys[0] then IsSubsequence(xs[1..], ys[1..])
    else IsSubsequence(xs, ys[1..])
  }

  /** `Array.from(select.selectedOptions, o => o.value)`: the values of the
      selected options, in the order the options appear. */
  function SelectedValues(options: seq<string>, selected: set<string>): (r: seq<string>)
    ensures forall c :: c in r <==> c in options && c in selected
    ensures IsSubsequence(r, options)
    decreases |options|
  {
    if |options| == 0 then []
    else
      var rest := SelectedValues(options[1..], selected);
      if options[0] in selected then
        assert ([options[0]] + rest)[1..] == rest;
        [options[0]] + rest
      else rest
  }

  /** Selecting among distinct options never yields a value twice. */
  lemma {:induction false} SelectedValuesDistinct(options: seq<string>, selected: set<string>)
    requires Distinct(options)
    ensures Distinct(SelectedValues(options, selected))
    decreases |options|
  {
    if |options| > 0 {
      var rest := SelectedValues(options[1..], selected);
      assert Distinct(options[1..]);
      SelectedValuesDistinct(options[1..], selected);
      assert options[0] !in options[1..];
      assert options[0] !in rest;
    }
  }

  /** `handleAirlinesChange`: `preferredAirlines` becomes the selected codes in
      option order; every other field is untouched. */
  function HandleAirlinesChange(d: SearchData, selected: set<string>): (r: SearchData)
    ensures r.preferredAirlines.Some?
    ensures forall c :: c in r.preferredAirlines.value <==> c in AirlineCodes() && c in selected
    ensures IsSubsequence(r.preferredAirlines.value, AirlineCodes())
    ensures Distinct(r.preferredAirlines.value)
    ensures forall g :: g != PreferredAirlines ==> Get(r, g) == Get(d, g)
  {
    OptionSets();
    SelectedValuesDistinct(AirlineCodes(), selected);
    HandleInputChange(d, PreferredAirlines, OptionalList(Some(SelectedValues(AirlineCodes(), selected))))
  }

  /** The min/max price inputs: an empty input gives `undefined`, anything else
      `parseInt` of the text. */
  function PriceInput(raw: string): (r: Option<Number>)
    ensures r.None? <==> raw == ""
    ensures r.Some? ==> !r.value.Fractional?
  {
    if raw != "" then Some(ParseInt(raw)) else None
  }

  /** A price typed as digits is stored as that integer. */
  lemma PriceInputOfDigits(n: nat)
    ensures PriceInput(NatToString(n)) == Some(Integral(n))
  {
    ParseIntOfNatString(n, "");
    assert NatToString(n) + "" == NatToString(n);
  }

  /** What the user does to the form's controls. A select's value is always one
      of its options, so a stops choice is given by its option index. */
  datatype InputEvent =
    | OriginTyped(text: string)
    | DestinationTyped(text: string)
    | DateTyped(text: string)
    | AdultsTyped(raw: string)
    | MinPriceTyped(raw: string)
    | MaxPriceTyped(raw: string)
    | AirlinesSelected(selected: set<string>)
    | StopsChosen(index: nat)

  predicate ValidEvent(ev: InputEvent) {
    ev.StopsChosen? ==> ev.index < |StopsOptions|
  }

  /** The field an input event writes. */
  function Target(ev: InputEvent): Field {
    match ev
    case OriginTyped(_) => Origin
    case DestinationTyped(_) => Destination
    case DateTyped(_) => Date
    case AdultsTyped(_) => Adults
    case MinPriceTyped(_) => MinPrice
    case MaxPriceTyped(_) => MaxPrice
    case AirlinesSelected(_) => PreferredAirlines
    case StopsChosen(_) => Stops
  }

  /** The `onChange` handler of each control: a text input stores the text as
      typed, adults `parseInt` of it, a price `PriceInput` of it, the stops select
      its option's value; the field the control is bound to is the only one
      written. */
  function OnInput(d: SearchData, ev: InputEvent): (r: SearchData)
    requires ValidEvent(ev)
    ensures forall g :: g != Target(ev) ==> Get(r, g) == Get(d, g)
    ensures ev.OriginTyped? ==> r.origin == Str(ev.text)
    ensures ev.DestinationTyped? ==> r.destination == Str(ev.text)
    ensures ev.DateTyped? ==> r.date == Str(ev.text)
    ensures ev.AdultsTyped? ==> r.adults == ParseInt(ev.raw)
    ensures ev.MinPriceTyped? ==> r.minPrice == PriceInput(ev.raw)
    ensures ev.MaxPriceTyped? ==> r.maxPrice == PriceInput(ev.raw)
    ensures ev.StopsChosen? ==> r.stops == Some(StopsOptions[ev.index].value)
  {
    match ev
    case OriginTyped(t) => HandleInputChange(d, Origin, TextValue(Str(t)))
    case DestinationTyped(t) => HandleInputChange(d, Destination, TextValue(Str(t)))
    case DateTyped(t) => HandleInputChange(d, Date, TextValue(Str(t)))
    case AdultsTyped(raw) => HandleInputChange(d, Adults, NumberValue(ParseInt(raw)))
    case MinPriceTyped(raw) => HandleInputChange(d, MinPrice, OptionalNumber(PriceInput(raw)))
    case MaxPriceTyped(raw) => HandleInputChange(d, MaxPrice, OptionalNumber(PriceInput(raw)))
    case AirlinesSelected(sel) => HandleAirlinesChange(d, sel)
    case StopsChosen(i) => HandleInputChange(d, Stops, OptionalText(Some(StopsOptions[i].value)))
  }

  /** No event of the sequence writes field `g`. */
  predicate Untouched(events: seq<InputEvent>, g: Field) {
    forall i :: 0 <= i < |events| ==> Target(events[i]) != g
  }

  /** The form state after a sequence of user inputs: a field no input wrote
      keeps its value. */
  function Fill(d: SearchData, events: seq<InputEvent>): (r: SearchData)
    requires forall i :: 0 <= i < |events| ==> ValidEvent(events[i])
    ensures forall g :: Untouched(events, g) ==> Get(r, g) == Get(d, g)
    decreases |events|
  {
    if |events| == 0 then d else Fill(OnInput(d, events[0]), events[1..])
  }

  /** The shape every form state has: string text fields, `adults` and the prices
      as `parseInt` leaves them (never fractional), airlines drawn from the option
      list in option order, and stops one of the four option values. */
  predicate FormShaped(d: SearchData) {
    && d.origin.Str? && d.destination.Str? && d.date.Str?
    && !d.adults.Fractional?
    && (d.minPrice.Some? ==> !d.minPrice.value.Fractional?)
    && (d.maxPrice.Some? ==> !d.maxPrice.value.Fractional?)
    && d.preferredAirlines.Some? && IsSubsequence(d.preferredAirlines.value, AirlineCodes())
    && d.stops.Some? && d.stops.value in StopsValues()
  }

  /** One input keeps the form's shape. */
  lemma OnInputKeepsShape(d: SearchData, ev: InputEvent)
    requires FormShaped(d) && ValidEvent(ev)
    ensures FormShaped(OnInput(d, ev))
  {
    var d' := OnInput(d, ev);
    match ev
    case AirlinesSelected(sel) =>
      assert Get(d', Stops) == Get(d, Stops);
    case StopsChosen(i) =>
      assert StopsValues()[i] == StopsOptions[i].value;
      assert d' == d.(stops := Some(StopsOptions[i].value));
    case _ =>
      assert Get(d', PreferredAirlines) == Get(d, PreferredAirlines);
      assert Get(d', Stops) == Get(d, Stops) || ev.StopsChosen?;
  }

  /** Whatever the user types or selects, the form keeps its shape; in particular
      `stops` is always one of the four option values. What `handleSubmit` passes
      to `onSearch` is this state, unchanged and unvalidated. */
  lemma {:induction false} FillKeepsShape(d: SearchData, events: seq<InputEvent>)
    requires FormShaped(d)
    requires forall i :: 0 <= i < |events| ==> ValidEvent(events[i])
    ensures FormShaped(Fill(d, events))
    decreases |events|
  {
    if |events| > 0 {
      OnInputKeepsShape(d, events[0]);
      FillKeepsShape(OnInput(d, events[0]), events[1..]);
    }
  }

  lemma InitialFormShaped()
    ensures FormShaped(InitialForm)
    ensures InitialForm.origin == Str("") && InitialForm.destination == Str("") && InitialForm.date == Str("")
    ensures InitialForm.adults == Integral(1)
    ensures InitialForm.minPrice.None? && InitialForm.maxPrice.None?
    ensures InitialForm.preferredAirlines == Some([]) && InitialForm.stops == Some("")
  {
    OptionSets();
  }
}
