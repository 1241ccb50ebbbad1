# Beausejour Voyage front end: a Dafny model of its search logic

This project models the logic inside the React front end of the Beausejour Voyage
travel site. Each piece is written as pure functions over immutable data:

- **The flight-search controller** (`handleSearch` in `src/App.tsx`), module `App`.
  It is a transition over the page state `{flights, isLoading, error, hasSearched}`.
  It has four parts:
  - the validator in front of the request;
  - the JSON body posted to `/search`;
  - the normaliser that accepts either `{flights: [...]}` or a bare array;
  - the mapping from a failure to the message shown.

  The network is an input. A `FetchOutcome` is either a parsed response body, a
  response whose `ok` is false, or a thrown value.
- **The hotel city-code form** (`handleSubmit` in `HotelSearchForm.tsx`), module
  `HotelSearchForm`. It trims and upper-cases the code, checks it is three letters,
  and either submits it or shows an error.
- **The results panel** (`FlightResults.tsx`), module `FlightResults`. It picks one of
  four views (loading, error, no flights, list), projects ten fields per card in
  `mapFlight`, and builds the "Found n flight(s)" heading.
- **The flight card's strings** (`FlightCard.tsx`), module `FlightCard`. These are the
  ISO-8601 duration shortener `formatDuration` and the stops label.
- **The search form's state** (`SearchForm.tsx`), module `SearchForm`. This covers:
  - the `SearchData` record and its initial value;
  - single-field updates and the airline multi-select;
  - the conversions each input applies;
  - the two option lists.

The JavaScript built-ins these depend on are modelled in their own modules:

- `JsString`: `trim` with the full ECMAScript white-space set, ASCII `toUpperCase`,
  `includes`, and `replace` with a string pattern, which rewrites only the first match.
- `JsNumber`: integer formatting, and `parseInt` with sign, white space, the `0x`
  prefix and `NaN`.
- `Json`: JSON values and property reads, where a read on `null` throws.

Three behaviours of the code worth stating:

- `origin` and `destination` are sent as typed; they are not upper-cased or
  trimmed before sending. (The hotel code, by contrast, is trimmed and upper-cased.)
- A successful response whose body is `null` throws a TypeError when
  `data.flights` is read, and that TypeError's message is shown as the error.
- When a valid search starts, the previous `flights` are kept. Only `error` is
  cleared; the list is replaced when the attempt completes.

## Model

| member | source | states |
|---|---|---|
| App.IsValidSearch | src/App.tsx:21-26 | A search passes exactly when origin, destination and date are strings that each contain a non-white-space character, and adults is an integer above zero |
| App.NonBlank | src/App.tsx:22-24 | `typeof t === 'string' && t.trim()` is truthy exactly when t is a string with a non-white-space character |
| App.InitialFormRejected | src/App.tsx:21-26 | The untouched form (empty origin) is refused |
| App.NoAdultsRejected | src/App.tsx:25 | Zero adults is refused whatever the other fields hold |
| App.ClearedAdultsRejected | src/components/SearchForm.tsx:128 | Clearing the adults input stores NaN; the form's submit handler validates nothing, and `handleSearch` refuses the search |
| App.RequestBody | src/App.tsx:45-54 | The posted object has the four required members with the form's values, and each optional member exactly when that field is defined. It has no member outside the eight names. A non-finite number, adults included, is written as `null`, as `JSON.stringify` does |
| App.RequestBodyRoundTrip | src/App.tsx:45-54 | Reading the posted body back gives the form record itself: no field is case-folded, trimmed, defaulted or dropped |
| App.StringsOfStringArray | src/App.tsx:52 | The airline codes are sent as a string array that reads back as the same list in the same order |
| App.CasablancaToParis | src/App.tsx:45-54 | A CMN to CDG search for one adult is accepted and sends origin "CMN" as typed |
| App.Begin | src/App.tsx:32-34 | Starting a valid search sets loading, clears the error, marks the page as searched and keeps the previous flights |
| App.Normalise | src/App.tsx:61-70 | The normaliser fails (a thrown TypeError) exactly when the body is null |
| App.NormaliseEnvelope | src/App.tsx:64-67 | A list wrapped as `{flights: [...]}`, with any other members, and the same list bare give the same flights in the same order |
| App.NormaliseOtherwiseEmpty | src/App.tsx:68-69 | Any non-null body that is neither an array nor an object with an array under `flights` gives no flights |
| App.NormaliseTakesFromPayload | src/App.tsx:63-70 | The flights kept are empty, the bare array, or the array under `flights`; nothing is invented |
| App.ErrorText | src/App.tsx:73-81 | An Error mentioning "Failed to fetch" or "NetworkError", and any non-Error throw, show the unreachable-service message. Any other Error shows its own message |
| App.HttpErrorSurfaces | src/App.tsx:57-78 | A non-OK response shows "Failed to search flights: {status} {statusText}" exactly when the status text names neither marker. The fixed prefix never triggers the unreachable message |
| App.HttpErrorMessage | src/App.tsx:58 | The message of a non-OK response starts with "Failed to search flights: " and ends with a space and then the status text as sent |
| App.HttpErrorShowsStatus | src/App.tsx:58 | The status code in that message reads back as the response's status |
| App.Complete | src/App.tsx:57-85 | Every completed attempt ends with loading off. On success the flights are the normalised body and the error is untouched. On any failure the flights are empty and the error is the mapped message |
| App.HandleSearch | src/App.tsx:19-86 | A request is sent exactly when validation passes, with the body above. A refused search sets only the validation error, empty flights and hasSearched. A sent one ends not loading, with flights and no error on success, or no flights and an error on failure |
| App.NonErrorUnreachable | src/App.tsx:79-81 | A thrown non-Error shows the unreachable-service message |
| App.FailedFetchUnreachable | src/App.tsx:74-75 | A browser "Failed to fetch" shows the unreachable-service message |
| App.Display | src/App.tsx:105-126 | The welcome text shows exactly until the first search; after that, the results panel shows |
| App.PendingShowsLoading | src/App.tsx:32-34 | While a request is pending the panel shows the loading view |
| App.RejectedShowsValidation | src/App.tsx:27-30 | A refused search shows the validation message when nothing is pending |
| App.FailureShowsMessage | src/App.tsx:71-82 | After a failed request the panel shows the mapped message. An empty Error message falls through to "no flights" |
| App.SuccessListsFlights | src/App.tsx:64-67 | After a successful request with a non-empty list and no null entry, the panel lists one card per flight |
| App.HandleSearchSettles | src/App.tsx:83-85 | A search started between searches leaves the page settled: not loading, no flights beside an error |
| App.RunStaysSettled | src/App.tsx:83-85 | Over any sequence of completed searches the page stays settled and never stays in the loading view. After at least one search it shows the results panel |
| App.InitialStateSettled | src/App.tsx:14-17 | The initial page is settled and shows the welcome text |
| HotelSearchForm.HandleSubmit | src/components/HotelSearchForm.tsx:11-19 | The code is submitted exactly when its trimmed, upper-cased form is three letters A to Z. It is then submitted in that form with the error cleared; otherwise the fixed error is set and nothing is submitted |
| HotelSearchForm.AcceptsThreeLetters | src/components/HotelSearchForm.tsx:13 | In terms of the raw input: accepted exactly when the trimmed input is three ASCII letters of either case |
| HotelSearchForm.PaddedLowerCaseAccepted | src/components/HotelSearchForm.tsx:13-18 | " par " is submitted as "PAR" |
| HotelSearchForm.DigitsRejected | src/components/HotelSearchForm.tsx:13-15 | "12A" is refused with the error message |
| HotelSearchForm.FourLettersRejected | src/components/HotelSearchForm.tsx:13-15 | "PARI" is refused with the error message |
| FlightResults.Render | src/components/FlightResults.tsx:11-82 | Loading wins over everything, then a non-empty error, then an empty list. Otherwise the heading counts the flights and there is one card per flight in order. The render throws exactly when an entry is null |
| FlightResults.ErrorHidesFlights | src/components/FlightResults.tsx:26-36 | A shown error does not depend on the flights underneath |
| FlightResults.EmptyErrorFallsThrough | src/components/FlightResults.tsx:26-48 | A null or empty error renders as if there were no error |
| FlightResults.MapFlight | src/components/FlightResults.tsx:51-65 | Each of the ten card fields is the same-named property of the record; a null record throws |
| FlightResults.MapFlightIgnoresOtherFields | src/components/FlightResults.tsx:51-65 | Records that agree on the ten names give the same card, whatever else they carry |
| FlightResults.MapAll | src/components/FlightResults.tsx:75-79 | Mapping the list fails exactly when an entry is null; otherwise there is one card per entry, in order |
| FlightResults.PluralSuffix | src/components/FlightResults.tsx:71 | The suffix is empty exactly when there is one flight, and "s" otherwise |
| FlightResults.CountHeading | src/components/FlightResults.tsx:71 | The heading starts with "Found " and ends with " flight for your search" for one flight, " flights for your search" otherwise |
| FlightResults.CountHeadingShowsCount | src/components/FlightResults.tsx:71 | The number in the heading reads back as the number of flights |
| FlightCard.FormatDuration | src/components/FlightCard.tsx:39-42 | The shortened duration never starts or ends with white space |
| FlightCard.FormatHoursAndMinutes | src/components/FlightCard.tsx:41 | `PT{h}H{m}M` with digit runs h (non-empty) and m becomes `{h}h {m}m` |
| FlightCard.FormatDurationExample | src/components/FlightCard.tsx:40-41 | "PT3H30M" becomes "3h 30m" |
| FlightCard.FormatHoursOnly | src/components/FlightCard.tsx:41 | `PT{h}H` becomes `{h}h`: the space added after `h` is trimmed away |
| FlightCard.FormatDurationFirstMatchOnly | src/components/FlightCard.tsx:41 | Only the first `H` is rewritten: `PT{h}H{m}H` becomes `{h}h {m}H` |
| FlightCard.HourMarkSurvivesMinuteStep | src/components/FlightCard.tsx:41 | The `h ` written for the first `H` is still there after the `M` replacement |
| JsString.ReplaceFirstLength | src/components/FlightCard.tsx:41 | A replacement changes the length by the length difference when the pattern occurs, and not at all otherwise |
| FlightCard.StopsLabel | src/components/FlightCard.tsx:88 | "Direct" exactly for zero stops; otherwise the count followed by " Stop", with "s" above one |
| FlightCard.StopsLabelShowsCount | src/components/FlightCard.tsx:88 | A label other than "Direct" starts with the stop count, which reads back |
| SearchForm.OptionSets | src/components/SearchForm.tsx:20-34 | The airline codes are exactly AT, AF, LH, BA, EK and the stops values exactly "", "0", "1", "2+", each without repeats |
| SearchForm.InitialFormShaped | src/components/SearchForm.tsx:37-46 | The initial form has empty text fields, one adult, no prices, no airlines and stops "", and satisfies the shape that FillKeepsShape preserves |
| SearchForm.HandleInputChange | src/components/SearchForm.tsx:53-58 | The named field takes the new value and every other field is unchanged |
| SearchForm.SelectedValues | src/components/SearchForm.tsx:61 | The selected values are exactly the options that are selected, in option order |
| SearchForm.SelectedValuesDistinct | src/components/SearchForm.tsx:61 | Selecting among distinct options yields no value twice |
| SearchForm.HandleAirlinesChange | src/components/SearchForm.tsx:60-63 | The preferred airlines become exactly the selected codes, without repeats and in option order. Nothing else changes |
| SearchForm.PriceInput | src/components/SearchForm.tsx:144 | An empty price input gives undefined; any other gives `parseInt` of the text, never a fraction |
| SearchForm.PriceInputOfDigits | src/components/SearchForm.tsx:144 | A price typed as digits is stored as that integer |
| SearchForm.OnInput | src/components/SearchForm.tsx:84-187 | Each control writes only the field it is bound to: text as typed, adults `parseInt` of the text, a price as PriceInput reads it, the stops option's value |
| SearchForm.Fill | src/components/SearchForm.tsx:84-187 | After any sequence of inputs, a field that none of them is bound to keeps its value |
| SearchForm.OnInputKeepsShape | src/components/SearchForm.tsx:84-187 | Any single input keeps the form's shape |
| SearchForm.FillKeepsShape | src/components/SearchForm.tsx:48-63 | Whatever is typed or selected, the record handed on at submit has string text fields, no fractional numbers, airlines drawn from the list in order, and one of the four stops values |
| JsString.Trim | src/components/HotelSearchForm.tsx:13 | `trim` drops exactly the white space at both ends: the result is unpadded, is the input minus white-space padding, and is empty exactly when the input is all white space |
| JsString.TrimOfPadded | src/components/HotelSearchForm.tsx:13 | Trimming an unpadded string wrapped in white space gives that string back |
| JsString.ToUpper | src/components/HotelSearchForm.tsx:13 | Upper-casing keeps the length and maps each ASCII letter to its capital |
| JsString.Contains | src/App.tsx:74 | `includes` holds exactly when the pattern occurs at some index |
| JsString.ReplaceFirst | src/components/FlightCard.tsx:41 | Without an occurrence the string is unchanged; otherwise only the leftmost occurrence is replaced |
| JsString.ReplaceFirstKeepsLaterOccurrence | src/components/FlightCard.tsx:41 | A later occurrence of the pattern survives the replacement |
| JsNumber.ParseInt | src/components/SearchForm.tsx:128 | `parseInt` never yields a fraction and gives NaN for blank text |
| JsNumber.NatToString | src/components/FlightResults.tsx:71 | A natural number is written as a non-empty run of decimal digits with no leading zero |
| JsNumber.IntToString | src/components/FlightCard.tsx:88 | An integer is written as its magnitude's digits, with a leading "-" exactly when it is negative |
| JsNumber.NatToStringValue | src/components/FlightResults.tsx:71 | The decimal digits written for n have value n |
| JsNumber.ParseIntOfNatString | src/components/SearchForm.tsx:144 | `parseInt` of a written natural number, followed by anything that does not extend the numeral, gives that number |
| JsNumber.ParseIntOfIntString | src/components/FlightCard.tsx:88 | The same for a written integer of either sign |
| Json.GetProperty | src/components/FlightResults.tsx:54-63 | Reading a property throws exactly on null, gives the member of an object that has it, and is undefined otherwise |

## Left out

- The `fetch` call, the `VITE_API_URL` base URL, the headers and JSON parsing. They are I/O; the outcome of the call and the parsed body are inputs, and a body that fails to parse is a thrown Error.
- The race between overlapping searches. It is asynchronous interleaving; the model runs each search to completion, so a stale response overwriting a newer one is not represented.
- `console.error` logging in the catch block, which is output only.
- The order of members in the posted JSON. The body is a map from member name to value.
- `formatTime` and `formatDate`, which depend on `Date` and locale formatting.
- All JSX markup and styling. Also `Navigation.tsx`, `NotFoundPage.tsx`, `HotelResults.tsx` and `vite.config.ts`.
- The hotel input's own `onChange` upper-casing and `maxLength={3}`. The model takes any ASCII string as the submitted input, which covers every ASCII input those permit; non-ASCII input is left out (next line).
- HotelSearchForm.HandleSubmit: requires ASCII input, because `toUpperCase` is modelled for ASCII letters only.
- SearchForm.HandleInputChange: requires the value to have the field's type; the model does not cover a caller that stores, say, a number in `origin`. Such a value is represented as `NotAString`.
- JsNumber.IntToString: formats every integer in plain decimal; JavaScript switches to exponent notation from 1e21 on.
- JsNumber.ParseInt: keeps the exact integer; JavaScript rounds values beyond 2^53 to the nearest double.
- FlightCard.StopsLabel: takes an integer; a fractional, missing or non-numeric `stops` is not modelled.
- A card render that throws because `duration` or `segments` is missing is not modelled; `mapFlight` and the null-entry throw are.
- HTML constraint validation. The `required` attributes on the origin, destination and date inputs and `required`/`min="1"` on adults would make a browser block the submit, before `handleSubmit` runs, for an empty field or fewer than one adult. The model treats every submit as reaching `handleSearch`, whose own validation is modelled.
- App.NullReadMessage: the TypeError text for a `null` body is V8's wording. Other engines word it differently, and a minified build renames `data`. None of those wordings contains "Failed to fetch" or "NetworkError", so each of them is shown as it is.
- Property reads whose key names a built-in of strings, arrays or objects (`length`, `constructor`). The front end reads none of them.
