/** The decision logic of the OpenTable booking script: the ordinal day
    suffix, the minute distance between two labels, the half-hour rounding
    of the requested time, the nearest-slot picker and the rebuilding of
    the cancel and modify links. */
module OpenTable {
  import opened Wrappers
  import opened Text
  import opened Clock
  import opened Utils

  // ---------------------------------------------------------------------
  // get_ordinal_suffix
  // ---------------------------------------------------------------------

  /** `get_ordinal_suffix(day)`: "th" for 11 to 13, otherwise by the last
      digit. Python's `%` by a positive divisor never gives a negative
      remainder, like Dafny's. For the days of a month this is the English
      suffix: "st" only for the 1st, 21st and 31st, "nd" for the 2nd and
      22nd, "rd" for the 3rd and 23rd, "th" for every other day. */
  function OrdinalSuffix(day: int): (s: string)
    ensures s in {"st", "nd", "rd", "th"}
    ensures 1 <= day <= 31 ==>
      && (s == "st" <==> day in {1, 21, 31})
      && (s == "nd" <==> day in {2, 22})
      && (s == "rd" <==> day in {3, 23})
      && (s == "th" <==> day !in {1, 2, 3, 21, 22, 23, 31})
  {
    if 11 <= day <= 13 then "th"
    else if day % 10 == 1 then "st"
    else if day % 10 == 2 then "nd"
    else if day % 10 == 3 then "rd"
    else "th"
  }

  // ---------------------------------------------------------------------
  // time_difference_in_minutes
  // ---------------------------------------------------------------------

  /** `time_difference_in_minutes(a, b)`: both labels are parsed with
      `%I:%M %p` on the same (default) date, so the distance is the plain
      difference of the times of day, with no wrap-around at midnight;
      `None` where the parse raises. */
  function TimeDifferenceInMinutes(a: string, b: string): (r: Option<nat>)
    ensures r.Some? <==> ParseLabel(a).Some? && ParseLabel(b).Some?
  {
    match (ParseLabel(a), ParseLabel(b))
    case (Some(t1), Some(t2)) => Some(if t2 >= t1 then t2 - t1 else t1 - t2)
    case _ => None
  }

  /** The distance is symmetric, below a day, and zero exactly for the same
      label. */
  lemma TimeDifferenceProperties(a: string, b: string)
    requires ParseLabel(a).Some? && ParseLabel(b).Some?
    ensures TimeDifferenceInMinutes(a, b) == TimeDifferenceInMinutes(b, a)
    ensures TimeDifferenceInMinutes(a, b).value < MinutesPerDay
    ensures TimeDifferenceInMinutes(a, b).value == 0 <==> a == b
  {
    if TimeDifferenceInMinutes(a, b).value == 0 {
      ParseLabelInjective(a, b);
    }
  }

  /** The distance is the size of the gap between the two times, so it
      obeys the triangle inequality. */
  lemma TimeDifferenceTriangle(a: string, b: string, c: string)
    requires ParseLabel(a).Some? && ParseLabel(b).Some? && ParseLabel(c).Some?
    ensures TimeDifferenceInMinutes(a, c).value
            <= TimeDifferenceInMinutes(a, b).value + TimeDifferenceInMinutes(b, c).value
  {
  }

  /** Midnight and half past eleven at night are almost a day apart, not
      half an hour. */
  lemma NoWrapAround()
    ensures TimeDifferenceInMinutes("12:00 am", "11:30 pm") == Some(1410)
  {
    ConvertToAmPmRoundTrip(0, 0);
    ConvertToAmPmRoundTrip(23, 30);
    assert Pad2(0) == "00" && Pad2(30) == "30" && NatToString(11) == "11";
    assert ConvertToAmPm(0, 0).value == "12:00 am";
    assert ConvertToAmPm(23, 30).value == "11:30 pm";
  }

  // ---------------------------------------------------------------------
  // The requested time on the time picker
  // ---------------------------------------------------------------------

  /** `f"{hour:02d}:00"` below half past, `f"{hour:02d}:30"` from half past:
      the half hour the requested time falls in, as a two-digit hour, a
      colon and a minute of 00 or 30 no later than the requested minute and
      less than half an hour before it. */
  function RoundedRequestedTime(hour: nat, minute: nat): (s: string)
    requires hour < 24 && minute < 60
    ensures |s| == 5 && AllDigits(s[..2]) && s[2] == ':' && AllDigits(s[3..])
    ensures DigitsValue(s[..2]) == hour
    ensures DigitsValue(s[3..]) % 30 == 0
    ensures DigitsValue(s[3..]) <= minute < DigitsValue(s[3..]) + 30
  {
    var s := if minute < 30 then Pad2(hour) + ":00" else Pad2(hour) + ":30";
    var m := if minute < 30 then 0 else 30;
    assert s == Pad2(hour) + ":" + Pad2(m);
    assert s[..2] == Pad2(hour) && s[3..] == Pad2(m);
    s
  }

  // ---------------------------------------------------------------------
  // The nearest-slot picker
  // ---------------------------------------------------------------------

  /** The outcome of the picker: the chosen button; no button with any
      text; or the button whose label made `time_difference_in_minutes`
      raise, which ends the booking with an unexpected-error message. */
  datatype Pick = Selected(index: nat) | NoAvailability | Failed(index: nat)

  /** A button the scanning loop measures: it has text, and not the
      "Notify" of a slot that can only be watched. */
  predicate Eligible(text: string) {
    text != "" && !Contains(text, "tify")
  }

  /** A label with "tify" in it never parses: its letters are not those of
      a time label. */
  lemma NotifyUnparsable(text: string)
    requires Contains(text, "tify")
    ensures ParseLabel(text).None?
  {
    var i :| 0 <= i && i + 4 <= |text| && OccursAt(text, "tify", i);
    assert text[i..i + 4][0] == text[i] == 't';
    assert !LabelChar(text[i]);
  }

  /** Position of the first button with text, or `|buttons|`. */
  function FirstNonEmpty(buttons: seq<string>): (p: nat)
    ensures p <= |buttons|
    ensures p < |buttons| ==> buttons[p] != ""
    ensures forall q :: 0 <= q < p ==> buttons[q] == ""
  {
    if buttons == [] then 0
    else if buttons[0] != "" then 0
    else 1 + FirstNonEmpty(buttons[1..])
  }

  /** Position of the first eligible button, or `|buttons|`. */
  function FirstEligible(buttons: seq<string>): (p: nat)
    ensures p <= |buttons|
    ensures p < |buttons| ==> Eligible(buttons[p])
    ensures forall q :: 0 <= q < p ==> !Eligible(buttons[q])
  {
    if buttons == [] then 0
    else if Eligible(buttons[0]) then 0
    else 1 + FirstEligible(buttons[1..])
  }

  /** Where the scanning loop stops early: at a button whose text is the
      requested label, or at an eligible button whose label raises. */
  predicate Stops(text: string, requestedLabel: string) {
    text == requestedLabel || (Eligible(text) && ParseLabel(text).None?)
  }

  /** Position of the first button the scan stops at, or `|buttons|`. */
  function FirstStop(buttons: seq<string>, requestedLabel: string): (p: nat)
    ensures p <= |buttons|
    ensures p < |buttons| ==> Stops(buttons[p], requestedLabel)
    ensures forall q :: 0 <= q < p ==> !Stops(buttons[q], requestedLabel)
  {
    if buttons == [] then 0
    else if Stops(buttons[0], requestedLabel) then 0
    else 1 + FirstStop(buttons[1..], requestedLabel)
  }

  /** Minutes between the requested time and a button's label. */
  function Distance(requestedLabel: string, text: string): nat
    requires ParseLabel(requestedLabel).Some? && ParseLabel(text).Some?
  {
    TimeDifferenceInMinutes(requestedLabel, text).value
  }

  /** Every eligible button before `end` has a label that parses. */
  predicate MeasurableBefore(buttons: seq<string>, end: nat) {
    forall q :: 0 <= q < end && q < |buttons| && Eligible(buttons[q]) ==> ParseLabel(buttons[q]).Some?
  }

  /** Button `k` is what the strict-improvement scan keeps: it is the seed
      or an eligible button, no eligible button and not the seed is nearer,
      and when it is not the seed it is strictly nearer than the seed and
      than every eligible button before it, so ties go to the seed and then
      to the earliest. */
  predicate IsNearest(buttons: seq<string>, requestedLabel: string, seed: nat, k: nat)
    requires ParseLabel(requestedLabel).Some?
    requires seed < |buttons| && ParseLabel(buttons[seed]).Some?
    requires MeasurableBefore(buttons, |buttons|)
  {
    && k < |buttons| && (k == seed || Eligible(buttons[k]))
    && ParseLabel(buttons[k]).Some?
    && Distance(requestedLabel, buttons[k]) <= Distance(requestedLabel, buttons[seed])
    && (forall q :: 0 <= q < |buttons| && Eligible(buttons[q]) ==>
          Distance(requestedLabel, buttons[k]) <= Distance(requestedLabel, buttons[q]))
    && (k != seed ==>
          && Distance(requestedLabel, buttons[k]) < Distance(requestedLabel, buttons[seed])
          && forall q :: 0 <= q < k && Eligible(buttons[q]) ==>
               Distance(requestedLabel, buttons[k]) < Distance(requestedLabel, buttons[q]))
  }

  /** The nearest button is unique: the scan's choice is fully determined. */
  lemma NearestIsUnique(buttons: seq<string>, requestedLabel: string, seed: nat, k1: nat, k2: nat)
    requires ParseLabel(requestedLabel).Some?
    requires seed < |buttons| && ParseLabel(buttons[seed]).Some?
    requires MeasurableBefore(buttons, |buttons|)
    requires IsNearest(buttons, requestedLabel, seed, k1) && IsNearest(buttons, requestedLabel, seed, k2)
    ensures k1 == k2
  {
  }

  /** The second loop of the picker, started from the seed button and its
      distance: the requested label wins at once; an eligible button whose
      label raises ends the scan; otherwise a strictly nearer eligible
      button replaces the current one. */
  method ScanNearest(buttons: seq<string>, requestedLabel: string, seed: nat) returns (r: Pick)
    requires ParseLabel(requestedLabel).Some?
    requires seed < |buttons| && ParseLabel(buttons[seed]).Some?
    ensures var stop := FirstStop(buttons, requestedLabel);
      && (stop < |buttons| && buttons[stop] == requestedLabel ==> r == Selected(stop))
      && (stop < |buttons| && buttons[stop] != requestedLabel ==> r == Failed(stop))
      && (stop == |buttons| ==> MeasurableBefore(buttons, |buttons|) && r.Selected?
                                && IsNearest(buttons, requestedLabel, seed, r.index))
  {
    var nearest := TimeDifferenceInMinutes(requestedLabel, buttons[seed]).value;
    var current := seed;
    for i := 0 to |buttons|
      invariant forall q :: 0 <= q < i ==> !Stops(buttons[q], requestedLabel)
      invariant MeasurableBefore(buttons, i)
      invariant current < |buttons| && (current == seed || (current < i && Eligible(buttons[current])))
      invariant ParseLabel(buttons[current]).Some? && nearest == Distance(requestedLabel, buttons[current])
      invariant nearest <= Distance(requestedLabel, buttons[seed])
      invariant forall q :: 0 <= q < i && Eligible(buttons[q]) ==> nearest <= Distance(requestedLabel, buttons[q])
      invariant current != seed ==>
        && nearest < Distance(requestedLabel, buttons[seed])
        && forall q :: 0 <= q < current && Eligible(buttons[q]) ==> nearest < Distance(requestedLabel, buttons[q])
    {
      var text := buttons[i];
      if text == requestedLabel {
        assert FirstStop(buttons, requestedLabel) == i;
        return Selected(i);
      } else if text != "" && !Contains(text, "tify") {
        var minutes := TimeDifferenceInMinutes(requestedLabel, text);
        if minutes.None? {
          assert FirstStop(buttons, requestedLabel) == i;
          return Failed(i);
        }
        if nearest > minutes.value {
          nearest := minutes.value;
          current := i;
        }
      }
    }
    assert FirstStop(buttons, requestedLabel) == |buttons|;
    return Selected(current);
  }

  /** The first loop of the picker: the first button with text. */
  method FindSeed(buttons: seq<string>) returns (seed: nat)
    ensures seed == FirstNonEmpty(buttons)
  {
    seed := |buttons|;
    for i := 0 to |buttons|
      invariant forall q :: 0 <= q < i ==> buttons[q] == ""
    {
      if buttons[i] != "" {
        return i;
      }
    }
  }

  /** The nearest-slot picker as written: the first button with text seeds
      the search (its label is measured, and raises when it does not
      parse), then the scan runs over all buttons; no button with text
      means no availability. */
  method PickNearest(buttons: seq<string>, requestedLabel: string) returns (r: Pick)
    requires ParseLabel(requestedLabel).Some?
    ensures var seed := FirstNonEmpty(buttons); var stop := FirstStop(buttons, requestedLabel);
      && (r == NoAvailability <==> seed == |buttons|)
      && (seed < |buttons| && ParseLabel(buttons[seed]).None? ==> r == Failed(seed))
      && (seed < |buttons| && ParseLabel(buttons[seed]).Some? ==>
            && (stop < |buttons| && buttons[stop] == requestedLabel ==> r == Selected(stop))
            && (stop < |buttons| && buttons[stop] != requestedLabel ==> r == Failed(stop))
            && (stop == |buttons| ==> MeasurableBefore(buttons, |buttons|) && r.Selected?
                                      && IsNearest(buttons, requestedLabel, seed, r.index)))
  {
    var seed := FindSeed(buttons);
    if seed == |buttons| {
      return NoAvailability;
    }
    if TimeDifferenceInMinutes(requestedLabel, buttons[seed]).None? {
      return Failed(seed);
    }
    r := ScanNearest(buttons, requestedLabel, seed);
  }

  /** The requested label can only stop the scan by being selected: it
      parses, so it is never a failing eligible button. */
  lemma StopAtRequested(buttons: seq<string>, requestedLabel: string, k: nat)
    requires ParseLabel(requestedLabel).Some?
    requires k < |buttons| && buttons[k] == requestedLabel
    requires forall q :: 0 <= q < k ==> !Stops(buttons[q], requestedLabel)
    ensures FirstStop(buttons, requestedLabel) == k
  {
  }

  /** As written, a "Notify" button before every timed button seeds the
      search, and its label raises: the booking fails although a button
      at exactly the requested time is on the page. */
  lemma NotifySeedFails()
    ensures var buttons := ["Notify me", "7:00 pm"];
      && FirstNonEmpty(buttons) == 0
      && ParseLabel(buttons[0]).None?
      && ParseLabel(buttons[1]).Some? && buttons[1] == "7:00 pm"
  {
    var buttons := ["Notify me", "7:00 pm"];
    assert buttons[0][2..6] == "tify";
    assert OccursAt(buttons[0], "tify", 2);
    NotifyUnparsable(buttons[0]);
    ConvertToAmPmRoundTrip(19, 0);
    assert ConvertToAmPm(19, 0).value == NatToString(7) + ":" + Pad2(0) + " pm";
    assert NatToString(7) == "7" && Pad2(0) == "00";
  }

  /** The picker with the seed taken as the scan takes its buttons, the
      first eligible one, so that "Notify" buttons are passed over by both
      loops. */
  method FindEligibleSeed(buttons: seq<string>) returns (seed: nat)
    ensures seed == FirstEligible(buttons)
  {
    seed := |buttons|;
    for i := 0 to |buttons|
      invariant forall q :: 0 <= q < i ==> !Eligible(buttons[q])
    {
      if buttons[i] != "" && !Contains(buttons[i], "tify") {
        return i;
      }
    }
  }

  /** The picker with an eligible seed: no availability exactly when no
      button is eligible; and when a button shows the requested label and
      every eligible button before it parses, that button is selected. */
  method PickNearestCorrected(buttons: seq<string>, requestedLabel: string) returns (r: Pick)
    requires ParseLabel(requestedLabel).Some?
    ensures r == NoAvailability <==> (forall q :: 0 <= q < |buttons| ==> !Eligible(buttons[q]))
    ensures forall k :: 0 <= k < |buttons| && buttons[k] == requestedLabel
                        && (forall q :: 0 <= q < k ==> !Stops(buttons[q], requestedLabel)) ==>
                        r == Selected(k)
    ensures r.Failed? ==> r.index < |buttons| && Eligible(buttons[r.index]) && ParseLabel(buttons[r.index]).None?
    ensures var stop := FirstStop(buttons, requestedLabel);
      stop < |buttons| && buttons[stop] != requestedLabel ==> r == Failed(stop)
    ensures var seed := FirstEligible(buttons);
      FirstStop(buttons, requestedLabel) == |buttons| && r != NoAvailability ==>
        && seed < |buttons| && ParseLabel(buttons[seed]).Some? && MeasurableBefore(buttons, |buttons|)
        && r.Selected? && IsNearest(buttons, requestedLabel, seed, r.index)
  {
    var seed := FindEligibleSeed(buttons);
    if seed == |buttons| {
      forall k | 0 <= k < |buttons| && buttons[k] == requestedLabel
        ensures false
      {
        NotifyOrParses(requestedLabel);
      }
      return NoAvailability;
    }
    if TimeDifferenceInMinutes(requestedLabel, buttons[seed]).None? {
      forall k | 0 <= k < |buttons| && buttons[k] == requestedLabel
                 && (forall q :: 0 <= q < k ==> !Stops(buttons[q], requestedLabel))
        ensures false
      {
        NotifyOrParses(requestedLabel);
      }
      return Failed(seed);
    }
    r := ScanNearest(buttons, requestedLabel, seed);
    forall k | 0 <= k < |buttons| && buttons[k] == requestedLabel
               && (forall q :: 0 <= q < k ==> !Stops(buttons[q], requestedLabel))
      ensures r == Selected(k)
    {
      StopAtRequested(buttons, requestedLabel, k);
    }
  }

  /** A label that parses is eligible. */
  lemma NotifyOrParses(text: string)
    requires ParseLabel(text).Some?
    ensures Eligible(text)
  {
    if Contains(text, "tify") {
      NotifyUnparsable(text);
    }
  }

  // ---------------------------------------------------------------------
  // Cancel and modify links
  // ---------------------------------------------------------------------

  /** `link.split("?")[1].split("&")[k].split("=")[1]`: the value of the
      `k`-th query parameter, or `None` where one of the indexings raises
      IndexError. */
  function QueryValue(link: string, k: nat): (v: Option<string>)
    ensures v.Some? ==> '?' !in v.value && '&' !in v.value && '=' !in v.value
  {
    var parts := Split(link, '?');
    if |parts| < 2 then None
    else
      var params := Split(parts[1], '&');
      if |params| <= k then None
      else
        var pair := Split(params[k], '=');
        SplitKeepsAbsence(parts[1], '&', '?');
        SplitKeepsAbsence(params[k], '=', '?');
        SplitKeepsAbsence(params[k], '=', '&');
        if |pair| < 2 then None else Some(pair[1])
  }

  /** Python's IndexError message. */
  const IndexErrorMessage: string := "list index out of range"

  /** The cancel URL rebuilt from the first five query values, taken as
      rid, confnumber, token, restref and lang; the IndexError of a link
      with fewer values is not caught here and reaches the caller's
      unexpected-error handler. */
  function CancelUrl(link: string): (r: Result<string, string>)
    ensures r.Ok? <==> forall k :: 0 <= k < 5 ==> QueryValue(link, k).Some?
    ensures r.Err? ==> r.error == IndexErrorMessage
  {
    if forall k :: 0 <= k < 5 ==> QueryValue(link, k).Some? then
      Ok("https://www.opentable.com/booking/view?showCancelModal=true&rid=" + QueryValue(link, 0).value
         + "&confnumber=" + QueryValue(link, 1).value
         + "&token=" + QueryValue(link, 2).value
         + "&restref=" + QueryValue(link, 3).value
         + "&lang=" + QueryValue(link, 4).value)
    else Err(IndexErrorMessage)
  }

  /** The modify URL rebuilt from the first four query values, taken as
      restaurantId, confirmationNumber, securityToken and lang; a failure
      is caught and reported as "Error: " and the exception text. */
  function ModifyUrl(link: string): (r: Result<string, string>)
    ensures r.Ok? <==> forall k :: 0 <= k < 4 ==> QueryValue(link, k).Some?
    ensures r.Err? ==> r.error == "Error: " + IndexErrorMessage
  {
    if forall k :: 0 <= k < 4 ==> QueryValue(link, k).Some? then
      Ok("https://www.opentable.com/book/modify?restaurantId=" + QueryValue(link, 0).value
         + "&confirmationNumber=" + QueryValue(link, 1).value
         + "&securityToken=" + QueryValue(link, 2).value
         + "&lang=" + QueryValue(link, 3).value)
    else Err("Error: " + IndexErrorMessage)
  }

  /** A query string of `name=value` pairs. */
  function Query(names: seq<string>, values: seq<string>): string
    requires |names| == |values|
  {
    Join(seq(|names|, i requires 0 <= i < |names| => names[i] + "=" + values[i]), "&")
  }

  /** A link whose query string has the given pairs (names and values free
      of the separators) gives back each value at its position. */
  lemma QueryValueRoundTrip(base: string, names: seq<string>, values: seq<string>, k: nat)
    requires '?' !in base && |names| == |values| && k < |names|
    requires forall i :: 0 <= i < |names| ==> '?' !in names[i] && '&' !in names[i] && '=' !in names[i]
    requires forall i :: 0 <= i < |values| ==> '?' !in values[i] && '&' !in values[i] && '=' !in values[i]
    ensures QueryValue(base + "?" + Query(names, values), k) == Some(values[k])
  {
    var pairs := seq(|names|, i requires 0 <= i < |names| => names[i] + "=" + values[i]);
    var query := Join(pairs, "&");
    var link := base + "?" + query;
    assert |pairs| >= 1;
    forall i | 0 <= i < |pairs|
      ensures '&' !in pairs[i] && '?' !in pairs[i]
    {
    }
    SplitJoin(pairs, '&');
    JoinAbsent(pairs, "&", '?');
    SplitJoin([base, query], '?');
    assert Join([base, query], "?") == link by {
      assert [base, query][1..] == [query];
    }
    SplitJoin([names[k], values[k]], '=');
    assert Join([names[k], values[k]], "=") == pairs[k] by {
      assert [names[k], values[k]][1..] == [values[k]];
    }
  }

  /** For a confirmation link built from `name=value` pairs, the cancel
      URL carries the first five values as rid, confnumber, token, restref
      and lang, whatever the names. */
  lemma CancelUrlOfQuery(base: string, names: seq<string>, values: seq<string>)
    requires '?' !in base && |names| == |values| >= 5
    requires forall i :: 0 <= i < |names| ==> '?' !in names[i] && '&' !in names[i] && '=' !in names[i]
    requires forall i :: 0 <= i < |values| ==> '?' !in values[i] && '&' !in values[i] && '=' !in values[i]
    ensures CancelUrl(base + "?" + Query(names, values))
            == Ok("https://www.opentable.com/booking/view?showCancelModal=true&rid=" + values[0]
                  + "&confnumber=" + values[1] + "&token=" + values[2]
                  + "&restref=" + values[3] + "&lang=" + values[4])
  {
    var link := base + "?" + Query(names, values);
    forall k | 0 <= k < 5
      ensures QueryValue(link, k) == Some(values[k])
    {
      QueryValueRoundTrip(base, names, values, k);
    }
  }

  /** Likewise the modify URL carries the first four values as
      restaurantId, confirmationNumber, securityToken and lang. */
  lemma ModifyUrlOfQuery(base: string, names: seq<string>, values: seq<string>)
    requires '?' !in base && |names| == |values| >= 4
    requires forall i :: 0 <= i < |names| ==> '?' !in names[i] && '&' !in names[i] && '=' !in names[i]
    requires forall i :: 0 <= i < |values| ==> '?' !in values[i] && '&' !in values[i] && '=' !in values[i]
    ensures ModifyUrl(base + "?" + Query(names, values))
            == Ok("https://www.opentable.com/book/modify?restaurantId=" + values[0]
                  + "&confirmationNumber=" + values[1] + "&securityToken=" + values[2]
                  + "&lang=" + values[3])
  {
    var link := base + "?" + Query(names, values);
    forall k | 0 <= k < 4
      ensures QueryValue(link, k) == Some(values[k])
    {
      QueryValueRoundTrip(base, names, values, k);
    }
  }

  /** Joining pieces that lack a character, with a separator that is not
      that character, gives a text without it. */
  lemma {:induction false} JoinAbsent(parts: seq<string>, sep: string, c: char)
    requires c !in sep && forall i :: 0 <= i < |parts| ==> c !in parts[i]
    ensures c !in Join(parts, sep)
  {
    if |parts| > 1 {
      JoinAbsent(parts[1..], sep, c);
    }
  }
}
