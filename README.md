# Restaurant reservation scripts: the decision logic

This project models the decision logic of the restaurant-reservation scripts in `web_service/` and proves properties of it. Everything else in those scripts drives a browser through Selenium.

- **Yelp booking, `reservation.py`.**
  - The pre-checks of `make_reservation`: date, conversion to a 12-hour label, "is it in the future", the `HHMM` text and the party-size option text.
  - The time-slot search. It starts at slot 3 and fans out in one of two fixed orders. It skips slots whose label does not parse and disabled slots. It takes the first exact match, or else the first earlier and the first later slot, and stops as soon as it has both.
  - The "X or Y" alternatives text.
  - The accumulation of contact-form errors in `receiving_reservation`.
- **Shared helpers, `utils.py`.** `convert_to_am_pm`, `validate_date` and `validate_reservation_date`. The current time is a parameter.
- **OpenTable booking, `working_oxylabs_nomi_cichago.py`.**
  - The ordinal day suffix.
  - The minute distance between two labels.
  - The half-hour rounding of the requested time.
  - The nearest-slot picker.
  - Rebuilding the cancel and modify URLs from the confirmation links.

Time labels follow the grammar `H:MM am|pm`: hour 1 to 12 with no leading zero and a two-digit minute (`Clock.ParseLabel`). A time of day is a number of minutes since midnight. Nothing wraps around midnight, so "12:00 am" is 0 and "11:30 pm" is 1410. Python exceptions become `Option`, `Result` or `Outcome` values that carry the message the script reports.

Each file is one module:

| file | module | covers |
|---|---|---|
| `wrappers.dfy` | `Wrappers` | result types |
| `text.dfy` | `Text` | the Python string operations used |
| `clock.dfy` | `Clock` | labels and their parser |
| `utils.dfy` | `Utils` | `utils.py` |
| `reservation.dfy` | `Reservation` | `reservation.py` |
| `opentable.dfy` | `OpenTable` | `working_oxylabs_nomi_cichago.py` |

The slot search is a loop over mutable candidates, so it is modelled by methods:

- `Reservation.WalkSlots` is the loop over any order of slot indices, with `ClassifySlot` for the parse and availability checks on one slot.
- `Reservation.ResolveSlot` first computes the order.
- The methods are proved equal to the specification `Reservation.Resolve`. That specification is stated through the first positions of each kind of slot in the traversal order, and the properties below are proved about it.
- The form errors and the OpenTable picker are also methods with loops, as in the source. The alternatives text is a method that appends to a list, as the source does.

## Model

| member | source | states |
|---|---|---|
| Utils.ConvertToAmPm | web_service/utils.py:58-77 | fails exactly when the hour is outside 0..23 (checked first, with its message) or the minute outside 0..59 (with its message) |
| Utils.ConvertToAmPmShape | web_service/utils.py:70-75 | the label is the clock-face hour 1..12 without a leading zero, a colon, a two-digit minute, and "am" before noon or "pm" from noon |
| Utils.ConvertToAmPmRoundTrip | web_service/utils.py:70-75 | parsing the label with the 12-hour format gives back hour*60+minute, which the slot search relies on when it parses the requested label |
| Utils.LabelIsConverted | web_service/utils.py:70-75 | every label that parses is the conversion of the time it denotes, so labels and valid times correspond one to one |
| Utils.ParseLabelInjective | web_service/working_oxylabs_nomi_cichago.py:71-77 | two labels that parse to the same time are the same text |
| Clock.ParseLabel | web_service/reservation.py:358-362 | `strptime(text, "%I:%M %p")` keeping the time of day: a parsed time is below 24 hours and the text holds only digits, ':', ' ', 'a', 'p' and 'm' |
| Clock.ParseCompose | web_service/reservation.py:331 | every composed label `H:MM am/pm` parses to the time it names |
| Clock.ParseDecompose | web_service/reservation.py:358-362 | every label that parses is a composed label, and its time is the one named |
| Utils.ValidateDate | web_service/utils.py:79-88 | on success the date is a calendar date with year 1..9999; on failure the message is the "Invalid date" text |
| Utils.ValidateDateCanonical | web_service/utils.py:79-88 | an accepted text is the canonical `%Y-%m-%d` spelling of the date it names |
| Utils.ValidateDateAccepts | web_service/utils.py:79-88 | a well-shaped text is accepted exactly when it names a calendar date, and then as that date |
| Utils.ValidateDateExamples | web_service/utils.py:79-88 | "2025-02-14" is accepted as that date |
| Utils.ValidateLeapDayExample | web_service/utils.py:79-88 | "2024-02-29" is accepted |
| Utils.ValidateDateRefusals | web_service/utils.py:79-88 | "2025-02-29" and "2025-02-30" are refused |
| Utils.ValidateDateRangeRefusals | web_service/utils.py:79-88 | month 13 and year 0 are refused |
| Utils.LaterIsTimestampOrder | web_service/utils.py:90-96 | the field-by-field comparison of two datetimes agrees with comparing their microsecond timestamps since 0001-01-01 |
| Utils.ValidateReservationDate | web_service/utils.py:90-96 | for a valid current time, the check holds exactly when date-at-hour:minute (seconds zero) is strictly after now on the microsecond time line |
| Utils.SameMinuteIsPast | web_service/utils.py:90-96 | a request for the current minute is refused once a second has passed, or even at the same instant; the next minute is accepted |
| Utils.YearStep | web_service/utils.py:90-96 | the days before a year grow by that year's length, so the timestamp line is consistent across years |
| Reservation.Requested24 | web_service/reservation.py:177 | the `HHMM` text is four decimal digits |
| Reservation.Requested24Inverse | web_service/reservation.py:177 | the `HHMM` text is four digits whose halves read back as the hour and the minute |
| Reservation.Precheck | web_service/reservation.py:171-183 | the request is accepted exactly when the date is valid, the time converts and the moment is in the future; a date error wins, then the conversion's error, then "Invalid reservation: Date and time is in the past."; the accepted label parses to the requested time and the `HHMM` text has value hour*100+minute |
| Reservation.PartySizeOption | web_service/reservation.py:285-301 | text `int()` rejects gives "Unexpected error: " and int()'s message, which quotes the text as `repr` does, cut to 200 characters; above one gives "<text> people" built from the caller's text; one gives "1 person"; below one is refused with its message |
| Reservation.PartySizeCheck | web_service/reservation.py:285-301 | passes exactly when the option text exists and the page offers it; an option the page lacks fails with "The party size is bigger than maximum."; otherwise the option's own error |
| Reservation.PartySizeQuotedExample | web_service/reservation.py:299-301 | the size `2'` is reported between double quotes, as `repr` chooses for a text holding a single quote |
| Reservation.PartySizePlainExample | web_service/reservation.py:299-301 | the size `two` is reported between single quotes |
| Text.Repr200 | web_service/reservation.py:299-301 | the quoted text in int()'s message is at most 200 characters |
| Text.UnescapeEscapeAll | web_service/reservation.py:299-301 | the escapes `repr` writes (backslash, the quote, \n, \r, \t, \xhh) lose nothing: reading them back gives the text |
| Text.EscapedQuote | web_service/reservation.py:299-301 | inside the quotes, every occurrence of the quote character is preceded by a backslash |
| Text.ReprPlain | web_service/reservation.py:299-301 | a text without quotes, backslashes or control characters is shown between single quotes unchanged |
| Text.ReprQuoteExample | web_service/reservation.py:299-301 | `2'` is shown as `"2'"` |
| Reservation.PartySizeOptionCanonical | web_service/reservation.py:285-288 | for a size written in plain decimal the option reads "N people", or "1 person" for one |
| Reservation.PartySizeZeroRefused | web_service/reservation.py:289-291 | size "0" is refused as out of range |
| Reservation.Below | web_service/reservation.py:345 | the filtered order holds exactly the entries below the slot count, each at most once, and keeps their relative order |
| Reservation.BaseOrder | web_service/reservation.py:344 | both base orders list each index 0..6 once, start at index 3 and walk outwards from it, never moving further from 3 and back; of two indices at the same distance the lower comes first exactly when walking down first |
| Reservation.TraversalOrder | web_service/reservation.py:333-345 | the order is duplicate-free, holds exactly the valid indices below 7, starts at slot 3 when there is one, and walks outwards: each index is at least as far from 3 as the one before, and of two at the same distance the lower comes first exactly when slot 3 parses and is later than the request |
| Reservation.FiveSlotOrder | web_service/reservation.py:333-345 | with five slots and slot 3 not later than the request, the walk is 3, 4, 2, 1, 0 |
| Reservation.FullOrder | web_service/reservation.py:344-345 | with seven slots or more nothing is filtered out of the base order |
| Reservation.WalkSlots | web_service/reservation.py:347-382 | the loop, whose step `ClassifySlot` computes the slot's kind `SlotKind` (unparsable or disabled, exact, earlier, later), returns `Decide` on the kinds met along the order: exact at the first exact slot unless both sides were met before it, else the first earlier and first later slot |
| Reservation.ResolveSlot | web_service/reservation.py:331-382 | the search returns `Resolve`, that is `Decide` over the traversal order and the kinds of the slots visited |
| Reservation.ResolvedSlotsAreUsable | web_service/reservation.py:358-379 | an exact slot parses, is enabled and is at the requested time; a left one is enabled and strictly earlier; a right one enabled and strictly later |
| Reservation.ExactIsFirst | web_service/reservation.py:370-373 | a reported exact slot is the first available exact slot in the order, and it comes before the first earlier or the first later slot |
| Reservation.LeftIsFirst | web_service/reservation.py:374-376 | a reported left slot is the first available earlier slot in the order; none is reported only when no visited slot is earlier |
| Reservation.RightIsFirst | web_service/reservation.py:377-379 | a reported right slot is the first available later slot in the order; none is reported only when no visited slot is later |
| Reservation.EarlyStop | web_service/reservation.py:381-382 | once both sides have been met before any exact slot, the result is alternatives, even if an exact slot comes later in the order |
| Reservation.ExactFoundWhenOneSideEmpty | web_service/reservation.py:351-382 | when the page has no available slot on one side, an available exact slot among the visited ones is always found |
| Reservation.MissingAlternativeMeansNone | web_service/reservation.py:345-379 | with at most seven slots, a missing alternative means no available slot on that side anywhere on the page |
| Reservation.ResolveExactExample | web_service/reservation.py:344-373 | on a page from 7:00 pm to 10:00 pm, a request for 8:30 pm with that slot enabled gives slot 3 |
| Reservation.ResolveAlternativesExample | web_service/reservation.py:344-382 | with 8:30 pm disabled the walk goes 3, 4, 2 and stops with 8:00 pm and 9:00 pm |
| Reservation.DisplayIsShortTime | web_service/reservation.py:408-411 | `Display` (upper-casing a parsable label and removing ":00") gives `ShortTime` of its time: its clock hour, the minutes only when not on the hour, and "AM" or "PM" |
| Reservation.ShortTimeExamples | web_service/reservation.py:408-411 | 8:00 pm reads "8 PM", 9:30 am reads "9:30 AM", midnight reads "12 AM" |
| Reservation.ShortTimeShape | web_service/reservation.py:408-411 | the short form ends in " AM" before noon and " PM" from noon, and shows a colon exactly when the time is not on the hour |
| Reservation.AlternativesText | web_service/reservation.py:407-412 | the text lists left before right in short form, joined by " or ", or reads "No alternative times available" |
| Reservation.SearchReport | web_service/reservation.py:327-417 | never a confirmation; an error exactly for an empty page; an alternatives text exactly when the page has slots and the request is not available; availability only when some enabled slot is at the requested time |
| Reservation.SearchSlots | web_service/reservation.py:327-417 | the search without booking reports the empty-page error, availability for an exact slot, or the alternatives text |
| Reservation.ReportOfAlternatives | web_service/reservation.py:406-417 | when the search gives alternatives, the report carries their text and both slots are usable |
| Reservation.SearchReportExample | web_service/reservation.py:406-417 | on the example page with 8:30 pm disabled, the alternatives read "8 PM or 9 PM" |
| Reservation.FillErrorsCount | web_service/reservation.py:51-62 | every field is attempted: there is one fill message per failed field |
| Reservation.FillErrorsEmpty | web_service/reservation.py:51-62 | no fill message is collected exactly when every field was filled |
| Reservation.ProbeErrorsEmpty | web_service/reservation.py:66-85 | no probe message is collected exactly when no probe found a message element |
| Reservation.CollectFillErrors | web_service/reservation.py:51-62 | the fill loop collects, field by field in order, "X field cannot be modified." or "Unexpected error in X: e" |
| Reservation.AppendProbeTexts | web_service/reservation.py:78-81 | each element found adds "field: text", in order |
| Reservation.CollectProbeErrors | web_service/reservation.py:73-85 | the probes run in order; a timeout or another error adds nothing |
| Reservation.CheckForm | web_service/reservation.py:51-89 | the form fails exactly when a field failed or a probe found a message, with "Form validation errors: " and all messages joined by ", " |
| OpenTable.OrdinalSuffix | web_service/working_oxylabs_nomi_cichago.py:31-36 | always one of the four suffixes; for days 1..31 it is "st" only for 1, 21 and 31, "nd" for 2 and 22, "rd" for 3 and 23, and "th" otherwise |
| OpenTable.TimeDifferenceInMinutes | web_service/working_oxylabs_nomi_cichago.py:71-77 | defined exactly when both labels parse |
| OpenTable.TimeDifferenceProperties | web_service/working_oxylabs_nomi_cichago.py:71-77 | the distance is symmetric, below a day, and zero exactly for the same label |
| OpenTable.TimeDifferenceTriangle | web_service/working_oxylabs_nomi_cichago.py:71-77 | the distance obeys the triangle inequality |
| OpenTable.NoWrapAround | web_service/working_oxylabs_nomi_cichago.py:71-77 | "12:00 am" and "11:30 pm" are 1410 minutes apart |
| OpenTable.RoundedRequestedTime | web_service/working_oxylabs_nomi_cichago.py:597-600 | the picker value is a two-digit hour and a minute of 00 or 30 that is at or below the requested minute and less than 30 below it |
| OpenTable.NotifyUnparsable | web_service/working_oxylabs_nomi_cichago.py:661 | a text containing "tify" never parses as a time |
| OpenTable.FindSeed | web_service/working_oxylabs_nomi_cichago.py:647-653 | the seed is the first button with text |
| OpenTable.ScanNearest | web_service/working_oxylabs_nomi_cichago.py:657-668 | the scan selects the first button showing the requested label; fails at the first eligible button whose label raises; otherwise selects the nearest button, where ties go to the seed and then to the earliest |
| OpenTable.NearestIsUnique | web_service/working_oxylabs_nomi_cichago.py:664-668 | the nearest button is unique |
| OpenTable.PickNearest | web_service/working_oxylabs_nomi_cichago.py:643-671 | "No availability available" exactly when no button has text; a seed that does not parse fails; otherwise the scan's result |
| OpenTable.NotifySeedFails | web_service/working_oxylabs_nomi_cichago.py:647-653 | for ["Notify me", "7:00 pm"] the seed is the "Notify me" button and its label does not parse, although the next button is the requested time |
| OpenTable.FindEligibleSeed | web_service/working_oxylabs_nomi_cichago.py:647-653 | the corrected seed is the first button the scan would measure |
| OpenTable.PickNearestCorrected | web_service/working_oxylabs_nomi_cichago.py:643-671 | no availability exactly when no button is eligible; a button showing the requested label is selected when every eligible button before it parses; the first eligible button that does not parse, if it comes first, is the failure; when no button stops the scan, the nearest button to the first eligible one is selected |
| OpenTable.QueryValue | web_service/working_oxylabs_nomi_cichago.py:442-446 | an extracted value holds no `?`, `&` or `=` |
| OpenTable.CancelUrl | web_service/working_oxylabs_nomi_cichago.py:442-453 | succeeds exactly when the first five query values exist, else fails with "list index out of range" |
| OpenTable.ModifyUrl | web_service/working_oxylabs_nomi_cichago.py:463-479 | succeeds exactly when the first four query values exist, else fails with "Error: list index out of range" |
| OpenTable.CancelUrlOfQuery | web_service/working_oxylabs_nomi_cichago.py:442-453 | for a link built from name=value pairs with at least five values, the cancel URL carries values 0..4 as rid, confnumber, token, restref and lang |
| OpenTable.ModifyUrlOfQuery | web_service/working_oxylabs_nomi_cichago.py:463-473 | for a link built from name=value pairs with at least four values, the modify URL carries values 0..3 as restaurantId, confirmationNumber, securityToken and lang |
| OpenTable.QueryValueRoundTrip | web_service/working_oxylabs_nomi_cichago.py:442-446 | in a link built from `name=value` pairs, the k-th value is extracted at position k |

## Left out

- Browser work is not modelled. This covers element lookups, waits, clicks, `execute_script`, timings, logging, `driver.quit()` and the month-navigation loop. Slots and buttons are given as their (stripped) texts and disabled flags. A form field's fill result and a validation probe's result are inputs.
- `datetime.now()` is the parameter `now`. `generate_random_email` (randomness) is not modelled.
- Clock.ParseLabel accepts only the canonical `H:MM am|pm` grammar. Python's `%I:%M %p` also accepts leading zeros, one-digit minutes ("7:5 pm"), upper-case meridiems and extra spaces. Labels built by `convert_to_am_pm` have the canonical form. For labels read from the pages it is an assumption of the model: the Yelp slot xpath matches only lower-case `am`/`pm`, and nothing in the OpenTable script constrains the button texts.
- Utils.ValidateDate: the message stops after "Expected format %Y-%m-%d.". Python appends " Error: " and the strptime message; that detail is not modelled. Python's acceptance of one-digit months and days is left out as well. So are a space-padded day ("2025-02- 4", which `%d` accepts) and non-ASCII decimal digits, which the `\d` behind `%Y`, `%m` and `%d` matches. The model refuses all of these.
- Utils.ValidateReservationDate takes a date, hour and minute that the caller has already validated, as both scripts do before calling it.
- Reservation.PartySizeOption: `int()` also accepts surrounding whitespace and underscores between digits. The model accepts only an optional sign followed by ASCII digits. Two more differences are not modelled. `int()` also reads any Unicode decimal digit ("３" or "٣" gives 3, and the script then looks for the option "٣ people"), where the model reports an invalid literal. And Python 3.11 and later refuses texts of more than 4300 digits with "Exceeds the limit (4300 digits) for integer string conversion", which the script reports as an unexpected error; the model builds the option "<text> people" for them. In the error message, `repr` also escapes non-ASCII characters that Unicode counts as unprintable (as `\x`, `\u` or `\U`); `Text.Repr` escapes only backslashes, the quote and ASCII control characters.
- Reservation.CollectProbeErrors: if a probe fails halfway through its elements, Python keeps the messages appended so far. The model treats such a probe as adding nothing.
- OpenTable.PickNearest: a button whose label raises ends the booking with "Unexpected error: " and Python's strptime message. The model names the failing button instead of reproducing that message.
- OpenTable.CancelUrl: the IndexError is not caught in `receiving_reservation`. The caller reports it as "Unexpected error: list index out of range" (line 697); the model gives only the exception text.
- Booking itself is not modelled: clicking the slot, `receiving_reservation`'s follow-up, and the booked/confirmation result.
- `working_oxylabs_nomi_cichago.py` has its own copies of three helpers, each with the same code as in `utils.py` (only the docstrings differ). Each is modelled once: `convert_to_am_pm` (lines 291-321, `utils.py:58-77`) by `Utils.ConvertToAmPm`, `validate_date` (lines 324-339, `utils.py:79-88`) by `Utils.ValidateDate`, and `validate_reservation_date` (lines 341-361, `utils.py:90-96`) by `Utils.ValidateReservationDate`. The OpenTable pre-check (lines 508-518) makes the same checks in the same order as `Reservation.Precheck`: the date, then the conversion, then "in the past".
- The top-level `reservation.py`, `driver.py`, `config.py`, `main.py` and `cancellation.py` are not part of this model.

## Findings

| source | as written | input that shows it | evidently intended | confidence | as-written member | corrected member |
|---|---|---|---|---|---|---|
| web_service/working_oxylabs_nomi_cichago.py:647-653 | the seed loop takes the first button with any text, including a "Notify" button, and measures it, which raises for a label that is not a time | buttons ["Notify me", "7:00 pm"] with requested "7:00 pm": the booking ends in an unexpected error although the requested slot is on the page | the seed skips "Notify" buttons like the scan does (line 661), so the requested slot is selected and a page of only "Notify" buttons reports no availability | medium, not executed | OpenTable.NotifySeedFails | OpenTable.PickNearestCorrected |
