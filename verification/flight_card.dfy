/** The string formatting of a flight card (src/components/FlightCard.tsx): the
    ISO-8601 duration shortener `formatDuration` and the stops label. */
module FlightCard {
  import opened JsString
  import opened JsNumber

  /** `duration.replace('PT', '').replace('H', 'h ').replace('M', 'm').trim()`:
      each `replace` rewrites the first match only. */
  function FormatDuration(duration: string): (r: string)
    ensures Unpadded(r)
  {
    var s1 := ReplaceFirst(duration, "PT", "");
    var s2 := ReplaceFirst(s1, "H", "h ");
    var s3 := ReplaceFirst(s2, "M", "m");
    Trim(s3)
  }

  /** A one-character pattern occurs exactly where that character stands. */
  lemma OccursSingle(s: string, c: char, j: int)
    ensures OccursAt(s, [c], j) <==> 0 <= j < |s| && s[j] == c
  {
    if 0 <= j < |s| {
      assert s[j..j + 1] == [s[j]];
    }
  }

  /** The first `c` in `s` is at index `i`. */
  lemma FirstSingle(s: string, c: char, i: nat)
    requires i < |s| && s[i] == c
    requires forall j :: 0 <= j < i ==> s[j] != c
    ensures FirstOccurrence(s, [c], i)
  {
    OccursSingle(s, c, i);
    forall j | 0 <= j < i ensures !OccursAt(s, [c], j) {
      OccursSingle(s, c, j);
    }
  }

  /** There is no `c` in `s`. */
  lemma NoSingle(s: string, c: char)
    requires forall j :: 0 <= j < |s| ==> s[j] != c
    ensures !Contains(s, [c])
  {
    forall j ensures !OccursAt(s, [c], j) {
      OccursSingle(s, c, j);
    }
  }

  predicate AllDigits(s: string) {
    forall i :: 0 <= i < |s| ==> IsDecimalDigit(s[i])
  }

  /** Removing the leading `PT`. */
  lemma DropDesignator(rest: string)
    ensures ReplaceFirst("PT" + rest, "PT", "") == rest
  {
    var s := "PT" + rest;
    assert s[0..2] == "PT";
    assert FirstOccurrence(s, "PT", 0);
    assert s[2..] == rest;
  }

  /** Replacing a one-character pattern whose first occurrence follows `pre`. */
  lemma ReplaceSingleAfter(pre: string, c: char, rep: string, post: string)
    requires forall j :: 0 <= j < |pre| ==> pre[j] != c
    ensures ReplaceFirst(pre + [c] + post, [c], rep) == pre + rep + post
  {
    var s := pre + [c] + post;
    FirstSingle(s, c, |pre|);
    assert s[..|pre|] == pre && s[|pre| + 1..] == post;
  }

  /** `FormatDuration` as its three replacement steps and the trim. */
  lemma FormatDurationSteps(d: string, rest: string, s2: string, s3: string)
    requires d == "PT" + rest
    requires ReplaceFirst(rest, "H", "h ") == s2
    requires ReplaceFirst(s2, "M", "m") == s3
    ensures FormatDuration(d) == Trim(s3)
  {
    DropDesignator(rest);
  }

  /** A string that starts with a digit and ends in `suffix` is left alone by trim. */
  lemma TrimDigitsThen(h: string, suffix: string, pad: string)
    requires |h| > 0 && AllDigits(h)
    requires |suffix| > 0 && !IsWhitespace(suffix[|suffix| - 1])
    requires AllWhitespace(pad)
    ensures Trim(h + suffix + pad) == h + suffix
  {
    var x := h + suffix;
    assert x[0] == h[0] && x[|x| - 1] == suffix[|suffix| - 1];
    TrimOfPadded("", x, pad);
    assert "" + x + pad == h + suffix + pad;
  }

  /** A string that starts with a digit and ends in something other than white
      space is left alone by trim. */
  lemma TrimDigitLed(x: string)
    requires |x| > 0 && IsDecimalDigit(x[0]) && !IsWhitespace(x[|x| - 1])
    ensures Trim(x) == x
  {
    TrimOfPadded("", x, "");
    assert "" + x + "" == x;
  }

  /** The `H` step on `{h}H{tail}`. */
  lemma HourStep(h: string, tail: string)
    requires AllDigits(h)
    ensures ReplaceFirst(h + "H" + tail, "H", "h ") == h + "h " + tail
  {
    ReplaceSingleAfter(h, 'H', "h ", tail);
  }

  /** The `M` step on `{h}h {m}M`. */
  lemma MinuteStep(h: string, m: string)
    requires AllDigits(h) && AllDigits(m)
    ensures ReplaceFirst(h + "h " + m + "M", "M", "m") == h + "h " + m + "m"
  {
    var pre := h + "h " + m;
    forall j | 0 <= j < |pre| ensures pre[j] != 'M' {
      if j < |h| { assert pre[j] == h[j]; }
      else if j >= |h| + 2 { assert pre[j] == m[j - |h| - 2]; }
    }
    ReplaceSingleAfter(pre, 'M', "m", "");
    assert pre + ['M'] + "" == h + "h " + m + "M";
  }

  /** The `M` step on `{h}h {m}{tail}` where no `M` is left. */
  lemma NoMinuteStep(h: string, m: string, tail: string)
    requires AllDigits(h) && AllDigits(m) && tail in ["", "H"]
    ensures ReplaceFirst(h + "h " + m + tail, "M", "m") == h + "h " + m + tail
  {
    var s := h + "h " + m + tail;
    forall j | 0 <= j < |s| ensures s[j] != 'M' {
      if j < |h| { assert s[j] == h[j]; }
      else if |h| + 2 <= j < |h| + 2 + |m| { assert s[j] == m[j - |h| - 2]; }
      else if j >= |h| + 2 + |m| { assert s[j] == tail[j - |h| - 2 - |m|]; }
    }
    NoSingle(s, 'M');
  }

  /** The replacement steps on `{h}H{m}M`. */
  lemma HoursAndMinutesReplaced(h: string, m: string)
    requires AllDigits(h) && AllDigits(m)
    ensures ReplaceFirst(h + "H" + m + "M", "H", "h ") == h + "h " + m + "M"
    ensures ReplaceFirst(h + "h " + m + "M", "M", "m") == h + "h " + m + "m"
  {
    HourStep(h, m + "M");
    assert h + "H" + (m + "M") == h + "H" + m + "M";
    assert h + "h " + (m + "M") == h + "h " + m + "M";
    MinuteStep(h, m);
  }

  lemma HoursAndMinutesTrimmed(h: string, m: string)
    requires AllDigits(h) && AllDigits(m)
    ensures FormatDuration("PT" + h + "H" + m + "M") == Trim(h + "h " + m + "m")
  {
    HoursAndMinutesReplaced(h, m);
    assert "PT" + h + "H" + m + "M" == "PT" + (h + "H" + m + "M");
    FormatDurationSteps("PT" + h + "H" + m + "M", h + "H" + m + "M", h + "h " + m + "M", h + "h " + m + "m");
  }

  lemma HoursAndMinutesUnpadded(h: string, m: string)
    requires |h| > 0 && AllDigits(h)
    ensures Trim(h + "h " + m + "m") == h + "h " + m + "m"
  {
    var x := h + "h " + m + "m";
    assert x[0] == h[0] && x[|x| - 1] == 'm';
    TrimDigitLed(x);
  }

  /** Hours and minutes: `PT{h}H{m}M` becomes `{h}h {m}m`. */
  lemma FormatHoursAndMinutes(h: string, m: string)
    requires |h| > 0 && AllDigits(h) && AllDigits(m)
    ensures FormatDuration("PT" + h + "H" + m + "M") == h + "h " + m + "m"
  {
    HoursAndMinutesTrimmed(h, m);
    HoursAndMinutesUnpadded(h, m);
  }

  /** The example in the source's comment: `PT3H30M` gives `3h 30m`. */
  lemma FormatDurationExample()
    ensures FormatDuration("PT3H30M") == "3h 30m"
  {
    ExampleSpelledOut();
    FormatHoursAndMinutes("3", "30");
  }

  lemma ExampleSpelledOut()
    ensures AllDigits("3") && AllDigits("30")
    ensures "PT" + "3" + "H" + "30" + "M" == "PT3H30M"
    ensures "3" + "h " + "30" + "m" == "3h 30m"
  {
  }

  lemma HoursOnlyReplaced(h: string)
    requires AllDigits(h)
    ensures ReplaceFirst(h + "H", "H", "h ") == h + "h "
    ensures ReplaceFirst(h + "h ", "M", "m") == h + "h "
  {
    HourStep(h, "");
    assert h + "H" + "" == h + "H";
    assert h + "h " + "" == h + "h ";
    NoMinuteStep(h, "", "");
    assert h + "h " + "" + "" == h + "h ";
  }

  lemma HoursOnlyTrimmed(h: string)
    requires AllDigits(h)
    ensures FormatDuration("PT" + h + "H") == Trim(h + "h ")
  {
    HoursOnlyReplaced(h);
    assert "PT" + h + "H" == "PT" + (h + "H");
    FormatDurationSteps("PT" + h + "H", h + "H", h + "h ", h + "h ");
  }

  lemma HoursOnlyUnpadded(h: string)
    requires |h| > 0 && AllDigits(h)
    ensures Trim(h + "h ") == h + "h"
  {
    TrimDigitsThen(h, "h", " ");
    assert h + "h" + " " == h + "h ";
  }

  /** Hours only: the space `h ` brings is trimmed away, so `PT3H` gives `3h`. */
  lemma FormatHoursOnly(h: string)
    requires |h| > 0 && AllDigits(h)
    ensures FormatDuration("PT" + h + "H") == h + "h"
  {
    HoursOnlyTrimmed(h);
    HoursOnlyUnpadded(h);
  }

  lemma SecondHourReplaced(h: string, m: string)
    requires AllDigits(h) && AllDigits(m)
    ensures ReplaceFirst(h + "H" + m + "H", "H", "h ") == h + "h " + m + "H"
    ensures ReplaceFirst(h + "h " + m + "H", "M", "m") == h + "h " + m + "H"
  {
    HourStep(h, m + "H");
    assert h + "H" + (m + "H") == h + "H" + m + "H";
    assert h + "h " + (m + "H") == h + "h " + m + "H";
    NoMinuteStep(h, m, "H");
  }

  lemma SecondHourTrimmed(h: string, m: string)
    requires AllDigits(h) && AllDigits(m)
    ensures FormatDuration("PT" + h + "H" + m + "H") == Trim(h + "h " + m + "H")
  {
    SecondHourReplaced(h, m);
    assert "PT" + h + "H" + m + "H" == "PT" + (h + "H" + m + "H");
    FormatDurationSteps("PT" + h + "H" + m + "H", h + "H" + m + "H", h + "h " + m + "H", h + "h " + m + "H");
  }

  lemma SecondHourUnpadded(h: string, m: string)
    requires |h| > 0 && AllDigits(h)
    ensures Trim(h + "h " + m + "H") == h + "h " + m + "H"
  {
    var x := h + "h " + m + "H";
    assert x[0] == h[0] && x[|x| - 1] == 'H';
    TrimDigitLed(x);
  }

  /** Only the first `H` is rewritten: in `PT{h}H{m}H` the second one survives. */
  lemma FormatDurationFirstMatchOnly(h: string, m: string)
    requires |h| > 0 && AllDigits(h) && AllDigits(m)
    ensures FormatDuration("PT" + h + "H" + m + "H") == h + "h " + m + "H"
  {
    SecondHourTrimmed(h, m);
    SecondHourUnpadded(h, m);
  }

  /** The `h ` written in place of the first `H` (at index `i` of the duration
      once `PT` is dropped) is left alone by the `M` step, which only matches an
      upper-case `M`. */
  lemma HourMarkSurvivesMinuteStep(s1: string, i: nat)
    requires i < |s1| && s1[i] == 'H'
    requires forall j :: 0 <= j < i ==> s1[j] != 'H'
    ensures var s2 := ReplaceFirst(s1, "H", "h ");
      var s3 := ReplaceFirst(s2, "M", "m");
      i + 2 <= |s3| && s3[i..i + 2] == "h "
  {
    FirstSingle(s1, 'H', i);
    var s2 := ReplaceFirst(s1, "H", "h ");
    var s3 := ReplaceFirst(s2, "M", "m");
    assert s2 == s1[..i] + "h " + s1[i + 1..];
    assert s2[i] == 'h' && s2[i + 1] == ' ';
    if Contains(s2, "M") {
      var m := IndexOf(s2, "M").value;
      OccursSingle(s2, 'M', m);
      ReplaceFirstSameLength(s2, "M", "m", m);
      assert s3[i] == 'h' && s3[i + 1] == ' ';
    }
    assert s3[i..i + 2] == [s3[i], s3[i + 1]];
  }

  /** `stops === 0 ? 'Direct' : `${stops} Stop${stops > 1 ? 's' : ''}``. */
  function StopsLabel(stops: int): (r: string)
    ensures stops == 0 <==> r == "Direct"
    ensures stops > 1 ==> r == IntToString(stops) + " Stops"
    ensures stops != 0 && stops <= 1 ==> r == IntToString(stops) + " Stop"
  {
    if stops == 0 then "Direct"
    else
      var text := IntToString(stops) + " Stop" + (if stops > 1 then "s" else "");
      assert text[0] == IntToString(stops)[0];
      assert text[0] == '-' || IsDecimalDigit(text[0]);
      text
  }

  /** A stops label other than `Direct` starts with the count, which reads back. */
  lemma StopsLabelShowsCount(stops: int)
    requires stops != 0
    ensures ParseInt(StopsLabel(stops)) == Integral(stops)
  {
    var rest := " Stop" + (if stops > 1 then "s" else "");
    assert StopsLabel(stops) == IntToString(stops) + rest;
    ParseIntOfIntString(stops, rest);
  }
}
