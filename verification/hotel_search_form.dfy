/** The hotel search form's submit handler (src/components/HotelSearchForm.tsx):
    the city code is trimmed and upper-cased, checked against `/^[A-Z]{3}$/`, and
    either handed to `onSubmit` or answered with an error message. */
module HotelSearchForm {
  import opened Wrappers
  import opened JsString

  const InvalidCityCodeMessage: string := "Please enter a valid 3-letter city code (e.g., PAR)."

  predicate IsUpperLetter(c: char) {
    'A' <= c <= 'Z'
  }

  predicate IsAsciiLetter(c: char) {
    'A' <= c <= 'Z' || 'a' <= c <= 'z'
  }

  /** `/^[A-Z]{3}$/.test(s)`. */
  predicate IsCityCode(s: string) {
    |s| == 3 && forall i :: 0 <= i < 3 ==> IsUpperLetter(s[i])
  }

  /** `cityCode.trim().toUpperCase()`. */
  function NormaliseCityCode(cityCode: string): string {
    ToUpper(Trim(cityCode))
  }

  /** The component state after a submit (`error`) and the argument `onSubmit`
      received, if it was called. */
  datatype Submission = Submission(error: string, submitted: Option<string>)

  /** `handleSubmit`. */
  function HandleSubmit(cityCode: string): (r: Submission)
    requires IsAscii(cityCode)
    ensures r.submitted.Some? <==> IsCityCode(NormaliseCityCode(cityCode))
    ensures r.submitted.Some? ==> r.submitted.value == NormaliseCityCode(cityCode) && r.error == ""
    ensures r.submitted.None? ==> r.error == InvalidCityCodeMessage
    ensures r.submitted.Some? ==> |r.submitted.value| == 3
    ensures r.submitted.Some? ==> forall i :: 0 <= i < 3 ==> IsUpperLetter(r.submitted.value[i])
  {
    var code := NormaliseCityCode(cityCode);
    if !IsCityCode(code) then Submission(InvalidCityCodeMessage, None)
    else Submission("", Some(code))
  }

  /** Acceptance in terms of the raw input: the trimmed input is three letters of
      either case. */
  lemma AcceptsThreeLetters(cityCode: string)
    requires IsAscii(cityCode)
    ensures HandleSubmit(cityCode).submitted.Some? <==>
      |Trim(cityCode)| == 3 && forall i :: 0 <= i < 3 ==> IsAsciiLetter(Trim(cityCode)[i])
  {
    var t := Trim(cityCode);
    var u := ToUpper(t);
    assert forall i :: 0 <= i < |t| ==> (IsUpperLetter(u[i]) <==> IsAsciiLetter(t[i]));
  }

  /** Lower-case, space-padded input is accepted and submitted upper-cased. */
  lemma PaddedLowerCaseAccepted()
    ensures HandleSubmit(" par ").submitted == Some("PAR")
  {
    TrimSpacedCode();
    UpperCode();
    assert NormaliseCityCode(" par ") == "PAR";
    assert IsCityCode("PAR");
  }

  lemma TrimSpacedCode()
    ensures Trim(" par ") == "par"
  {
    TrimOfPadded(" ", "par", " ");
    assert " " + "par" + " " == " par ";
  }

  lemma UpperCode()
    ensures ToUpper("par") == "PAR"
  {
  }

  /** Digits are refused. */
  lemma DigitsRejected()
    ensures HandleSubmit("12A") == Submission(InvalidCityCodeMessage, None)
  {
    TrimOfPadded("", "12A", "");
    assert "" + "12A" + "" == "12A";
    assert ToUpper("12A")[0] == '1';
  }

  /** Four letters are refused. */
  lemma FourLettersRejected()
    ensures HandleSubmit("PARI") == Submission(InvalidCityCodeMessage, None)
  {
    TrimOfPadded("", "PARI", "");
    assert "" + "PARI" + "" == "PARI";
    assert |ToUpper("PARI")| == 4;
  }
}
