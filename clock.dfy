/** Time-of-day labels as the booking pages show them and as the scripts
    read them with `datetime.strptime(text, "%I:%M %p")`: "H:MM am" or
    "H:MM pm", hour 1 to 12 without a leading zero, two-digit minute.
    A time of day is a number of minutes since midnight; parsing attaches
    no date, so there is no wrap-around: "12:00 am" is the earliest time
    and "11:59 pm" the latest. */
module Clock {
  import opened Wrappers
  import opened Text

  const MinutesPerDay: nat := 1440

  /** Minutes since midnight of `hour:minute` on the 12-hour clock, where
      12 am is midnight and 12 pm is noon. */
  function ClockMinutes(hour: nat, minute: nat, pm: bool): (t: nat)
    requires 1 <= hour <= 12 && minute < 60
    ensures t < MinutesPerDay
    ensures t % 60 == minute
    ensures pm <==> t >= 720
  {
    (hour % 12 + (if pm then 12 else 0)) * 60 + minute
  }

  /** Hour on the 12-hour clock face for a 24-hour hour. */
  function ClockHour(hour: nat): (h: nat)
    requires hour < 24
    ensures 1 <= h <= 12
    ensures h % 12 == hour % 12
  {
    if hour == 0 then 12 else if hour <= 12 then hour else hour - 12
  }

  /** The label with the given hour text, minute and meridiem. */
  function Compose(hourText: string, minute: nat, pm: bool): string
    requires minute < 60
  {
    hourText + ":" + Pad2(minute) + (if pm then " pm" else " am")
  }

  predicate LabelChar(c: char) {
    IsDigit(c) || c == ':' || c == ' ' || c == 'a' || c == 'p' || c == 'm'
  }

  /** `strptime(s, "%I:%M %p")`, keeping only the time of day; `None` where
      Python raises ValueError. */
  function ParseLabel(s: string): (t: Option<nat>)
    ensures t.Some? ==> t.value < MinutesPerDay
    ensures t.Some? ==> forall i :: 0 <= i < |s| ==> LabelChar(s[i])
  {
    if |s| != 7 && |s| != 8 then None
    else
      var k := |s| - 6;
      var hourText := s[..k];
      if !AllDigits(hourText) || s[0] == '0' || s[k] != ':' || !IsDigit(s[k + 1]) || !IsDigit(s[k + 2])
         || s[k + 3] != ' ' || (s[k + 4] != 'a' && s[k + 4] != 'p') || s[k + 5] != 'm'
      then None
      else
        var hour := DigitsValue(hourText);
        var minute := DigitValue(s[k + 1]) * 10 + DigitValue(s[k + 2]);
        if hour < 1 || 12 < hour || 59 < minute then None
        else
          assert forall i :: 0 <= i < k ==> s[i] == hourText[i];
          Some(ClockMinutes(hour, minute, s[k + 4] == 'p'))
  }

  /** Every composed label parses, to the time it names. */
  lemma ParseCompose(hour: nat, minute: nat, pm: bool)
    requires 1 <= hour <= 12 && minute < 60
    ensures ParseLabel(Compose(NatToString(hour), minute, pm)) == Some(ClockMinutes(hour, minute, pm))
  {
    var h, mm := NatToString(hour), Pad2(minute);
    var s := Compose(h, minute, pm);
    var k := |s| - 6;
    assert |h| == k;
    assert s[..k] == h;
    assert s[k] == ':' && s[k + 1] == mm[0] && s[k + 2] == mm[1] && s[k + 3] == ' ';
    assert s[k + 4] == (if pm then 'p' else 'a') && s[k + 5] == 'm';
    assert mm[..1] == [mm[0]] && mm[..1][..0] == [];
    assert DigitsValue(mm[..1]) == DigitValue(mm[0]);
    assert DigitValue(mm[0]) * 10 + DigitValue(mm[1]) == minute;
  }

  /** Every label that parses is the composed label of the time it names:
      no two spellings denote the same time. */
  lemma ParseDecompose(s: string) returns (hour: nat, minute: nat, pm: bool)
    requires ParseLabel(s).Some?
    ensures 1 <= hour <= 12 && minute < 60
    ensures s == Compose(NatToString(hour), minute, pm)
    ensures ParseLabel(s).value == ClockMinutes(hour, minute, pm)
  {
    var k := |s| - 6;
    var hourText, minuteText := s[..k], s[k + 1..k + 3];
    hour := DigitsValue(hourText);
    assert minuteText[..1] == [minuteText[0]] && minuteText[..1][..0] == [];
    assert DigitsValue(minuteText[..1]) == DigitValue(minuteText[0]);
    minute := DigitsValue(minuteText);
    pm := s[k + 4] == 'p';
    assert hourText[0] == s[0];
    CanonicalDigits(hourText);
    Pad2Inverse(minuteText);
    assert s == hourText + ":" + minuteText + (if pm then " pm" else " am");
  }
}
