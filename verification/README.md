# A verified model of the Calendly calendar app

Calendly is a personal calendar: a React frontend with month, week and day views, event cards and an event form, a registration page, and a FastAPI backend that stores each user's events and accounts. This project models its logic in Dafny and proves properties about it:

- **the calendar-grid arithmetic of the three views.** This covers month lengths, the weekday of the first of the month, the Sunday-anchored week, stepping by days, weeks and months, the `YYYY-MM-DD` key that joins events to cells, the three-events-and-"+N more" rule, the drag-and-drop decision, the 12-hour row labels and the placement of an event block on the hour grid;
- **the formatters and validators.** These are the 12-hour time on an event card, the event form's initial state and its submit checks, and the registration form's checks and call sequence;
- **the events hook.** It holds the client-side lists and shows how each fetch, create, update and delete changes them;
- **the backend routes.** These are the per-user queries with their filters, orderings and the limit of 20, the creation defaults, partial update, delete and their 404 cases, and registration and login.

Dates are proleptic Gregorian `Date(year, month, day)` values with 1-based months (`CivilDate`). Every date is numbered by the days since 0001-01-01, and that number is the reference for stepping and weekdays. JavaScript's normalising `new Date(y, m, d)`, `setDate` and `setMonth` are modelled on top of it, including the constructor's reading of years 0 to 99 as 1900 to 1999.

JavaScript's string operations are written out in `Text`:

- `String(n)`, `padStart`, `Number` and `parseInt`;
- `trim` and `split`;
- the UTF-16 code-unit order of `<`.

The clock, the current date, database ids, password hashing, token issuing and every backend answer seen by the frontend are parameters.

Modules, one per file:

| module | file | covers |
|---|---|---|
| `Wrappers` | wrappers.dfy | `Option`, `Result` |
| `Text` | text.dfy | JavaScript string and number conversions |
| `CivilDate` | civil_date.dfy | dates, day numbers, weekdays, `new Date` normalisation |
| `DateKey` | date_key.dfy | the `YYYY-MM-DD` key and its parser |
| `Clock` | clock.dfy | "HH:MM" texts, minutes of the day, hour labels, block placement |
| `ClientEvent` | client_event.dfy | the event object of the frontend and the per-day filter shared by the views |
| `MonthView` | month_view.dfy | `MonthView.jsx` |
| `WeekView` | week_view.dfy | `WeekView.jsx` |
| `DayView` | day_view.dfy | `DayView.jsx` |
| `EventCard` | event_card.dfy | `formatTime` of `EventCard.jsx` |
| `EventForm` | event_form.dfy | `EventForm.jsx` |
| `UseEvents` | use_events.dfy | `useEvents.js` |
| `EventsRouter` | events_router.dfy | `backend/routers/events.py` |
| `AuthRouter` | auth_router.dfy | `backend/routers/auth.py` |
| `RegisterForm` | register_form.dfy | `Register.jsx`, and the register and login calls of `api.js` |

## Model

| member | source | states |
|---|---|---|
| CivilDate.DaysInMonth | frontend/src/components/Calendar/MonthView.jsx:12-13 | A month has 28 to 31 days: 29 exactly for February of a leap year, 28 exactly for February otherwise, and 30 exactly for April, June, September and November. |
| CivilDate.Weekday | frontend/src/components/Calendar/MonthView.jsx:14 | `getDay` is in 0..6. |
| CivilDate.WeekdayAfter | frontend/src/components/Calendar/WeekView.jsx:9-11 | Shifting a date by k days advances its weekday by k modulo 7. |
| CivilDate.MakeDate | frontend/src/components/Calendar/MonthView.jsx:29-30 | The normalising of `setMonth` and `setDate` (and of the constructor, after its year rule) always gives a real date, whatever the month index or day. |
| CivilDate.MakeDateDayNumber | frontend/src/components/Calendar/MonthView.jsx:29-30 | The normalised date is `day - 1` days after the first of the normalised month, so day 0 and days past the end run into the neighbouring months. |
| CivilDate.MakeDateInRange | frontend/src/components/Calendar/MonthView.jsx:29-30 | Normalising a day that lies inside its month leaves the date as it is. |
| CivilDate.MakeDateDayZero | frontend/src/components/Calendar/MonthView.jsx:12-13 | Normalising day 0 of the following month gives the last day of the month, in the year given to it. |
| CivilDate.FullYear | frontend/src/components/Calendar/MonthView.jsx:11-12 | The constructor never works in years 0 to 99: it keeps a year outside them and reads one inside them as 1900 plus it. |
| CivilDate.ConstructDateInRange | frontend/src/components/Calendar/MonthView.jsx:11 | `new Date(year, month, day)` with a day inside its month gives that date in the year the constructor reads, which is the given year outside 0 to 99. |
| CivilDate.ConstructDateDayZero | frontend/src/components/Calendar/MonthView.jsx:12-13 | `new Date(year, month + 1, 0)` is the last day of the month in the year the constructor reads, which is the given year outside 0 to 99. |
| CivilDate.ShiftDay | frontend/src/components/Calendar/WeekView.jsx:16 | `setDate(getDate() + k)` always gives a real date. |
| CivilDate.ShiftDayIsAddDays | frontend/src/components/Calendar/WeekView.jsx:16 | Moving the day of the month by k is stepping k days through the calendar, across month and year ends. |
| CivilDate.ShiftDayCompose | frontend/src/components/Calendar/DayView.jsx:16 | Two successive `setDate` moves by a and b equal one move by a + b. |
| CivilDate.AddDaysDayNumber | frontend/src/components/Calendar/DayView.jsx:16 | Stepping k days moves the day number by exactly k. |
| CivilDate.AddDaysCompose | frontend/src/components/Calendar/DayView.jsx:16 | Stepping a days and then b days is stepping a + b days. |
| CivilDate.BeforeIffDayNumber | backend/routers/events.py:65 | The date order used by `event_date >= today` is the order of day numbers, and equal day numbers mean equal dates. |
| CivilDate.EpochIsThursday | frontend/src/components/Calendar/MonthView.jsx:14 | The weekday numbering agrees with JavaScript's: 1970-01-01 is a Thursday. |
| Text.PadStart | frontend/src/components/Calendar/MonthView.jsx:35 | `padStart` keeps the string as its tail and fills the front with the pad character up to the width. |
| Text.IntText | frontend/src/components/Calendar/MonthView.jsx:35 | `String(i)` is the digits of the value, with a leading '-' only for negative numbers. |
| Text.NatTextRoundTrip | frontend/src/components/Calendar/MonthView.jsx:35 | The digits written for a number read back as that number. |
| Text.NatTextInjective | frontend/src/components/Events/EventCard.jsx:10 | Different numbers are written differently. |
| Text.Pad2Order | frontend/src/components/Events/EventForm.jsx:45 | Zero-padded two-digit texts compare as strings exactly as the numbers do, and are equal exactly when the numbers are. |
| Text.JsNumber | frontend/src/components/Calendar/WeekView.jsx:54 | `Number("")` is 0, and a non-empty string is a number exactly when it is all digits. |
| Text.JsParseInt | frontend/src/components/Events/EventForm.jsx:54 | `parseInt` gives a number only when the string contains a digit. |
| Text.JsParseIntRoundTrip | frontend/src/components/Events/EventForm.jsx:54 | `parseInt(String(i))` is i for every integer. |
| Text.JsParseIntDigits | frontend/src/components/Events/EventCard.jsx:7 | `parseInt` of a numeral is its value, leading zeros included. |
| Text.TrimStart | frontend/src/components/Events/EventForm.jsx:40 | Only leading white space is dropped, and what is left does not start with white space. |
| Text.TrimEnd | frontend/src/components/Events/EventForm.jsx:40 | Only trailing white space is dropped, and what is left does not end with white space. |
| Text.TrimEmptyIffBlank | frontend/src/components/Events/EventForm.jsx:40 | A string trims to nothing exactly when every character is white space. |
| Text.NoBreakSpaceTrims | frontend/src/components/Events/EventForm.jsx:40 | White space is ECMAScript's, not only ASCII: a lone no-break space trims to nothing. |
| Text.Field | frontend/src/components/Events/EventCard.jsx:6 | A piece of `split(sep)` never contains the separator. |
| Text.FieldsOfTriple | frontend/src/components/Events/EventCard.jsx:6 | Splitting `a:b:c` gives back `a` and `b` as its first two pieces. |
| Text.StrLessIsUnitOrder | frontend/src/components/Events/EventForm.jsx:45 | String `<` is exactly the lexicographic order of the two strings' UTF-16 code units, a proper prefix coming first. |
| Text.AstralBeforeHighPlane | frontend/src/components/Events/EventForm.jsx:45 | Code-unit order is not code-point order: U+1F600 sorts before U+FF01 though its code point is larger. |
| Text.StrLessTrichotomy | frontend/src/components/Events/EventForm.jsx:45 | String `<` is irreflexive, and for different strings exactly one of the two orders holds. |
| Text.SeparatedOrder | frontend/src/components/Events/EventForm.jsx:45 | Texts `x:y` with equally long heads compare by the heads, then by the tails. |
| DateKey.ParseFormatRoundTrip | frontend/src/components/Calendar/WeekView.jsx:33-35 | The key `formatDate` writes parses back to the date, so every date has its own key. |
| DateKey.FormatDateInjective | frontend/src/components/Calendar/DayView.jsx:22-24 | Two dates have the same key exactly when they are the same date. |
| DateKey.FormatDateShape | frontend/src/components/Calendar/MonthView.jsx:35 | For years 1000 to 9999 the key is ten characters: digits, with '-' at positions 4 and 7. |
| DateKey.IsoDateMatchesKey | backend/routers/events.py:287 | From year 1000 on, the backend's ISO date text equals the key the views build, so events reach their cells. |
| DateKey.SameDay | frontend/src/components/Calendar/WeekView.jsx:37-40 | Equal `toDateString` texts means equal keys, which means the same day. |
| DateKey.ReportDate | frontend/src/components/Calendar/WeekView.jsx:65-67 | A click reports a key exactly when there is a handler, and the key parses back to the clicked date. |
| ClientEvent.EventsOn | frontend/src/components/Calendar/MonthView.jsx:36 | The filter keeps only events with the key and never grows the list. |
| ClientEvent.EventsOnMembers | frontend/src/components/Calendar/MonthView.jsx:34-37 | The events of a day are exactly the given events whose date is the key. |
| ClientEvent.EventsOnCounts | frontend/src/components/Calendar/MonthView.jsx:34-37 | Each event with the key appears as often as it was given, and no other event appears. |
| ClientEvent.EventsOnAppend | frontend/src/components/Calendar/MonthView.jsx:34-37 | The filter distributes over concatenation, so input order is kept. |
| ClientEvent.EventsOnDate | frontend/src/components/Calendar/WeekView.jsx:42-45 | A day's column lists only events with that day's key; the day view's list at DayView.jsx lines 37-40 is the same filter. |
| ClientEvent.EventsOnDateExactly | frontend/src/components/Calendar/DayView.jsx:37-40 | An event on a real date is listed for a day exactly when that day is its date. |
| ClientEvent.EventsOnAllMatch | frontend/src/components/Calendar/MonthView.jsx:34-37 | A list whose every event has the key is kept whole. |
| Clock.MinutesOf | frontend/src/components/Calendar/WeekView.jsx:54-56 | Reading a time gives a number only when it has an hour piece and a minute piece. |
| Clock.MinutesOfClockText | frontend/src/components/Calendar/WeekView.jsx:54-56 | "HH:MM" reads as its minute of the day. |
| Clock.MinutesOfTimeText | frontend/src/components/Calendar/WeekView.jsx:54-56 | "HH:MM:SS" reads as the same minute of the day, so the seconds are ignored. |
| Clock.EventPosition | frontend/src/components/Calendar/WeekView.jsx:53-63 | The top is the start's minute reading, whatever the end holds. The height is a number exactly when both times read as numbers, and is then the larger of the duration and the minimum. |
| Clock.Place | frontend/src/components/Calendar/WeekView.jsx:54-61 | From two readings, the top is the start's. The height exists exactly when both do: it is at least the minimum and at least the duration, and equal to one of them. |
| Clock.UnreadableEndKeepsTop | frontend/src/components/Calendar/WeekView.jsx:53-63 | A 09:00 start with an end of "10" still sits 540 minutes down, and only the height is NaN. |
| Clock.PositionOfTimes | frontend/src/components/Calendar/DayView.jsx:42-52 | For backend times the block is placed from the minutes of the day of its start and end, seconds ignored. |
| Clock.PositionOfMinutes | frontend/src/components/Calendar/WeekView.jsx:54-61 | Times that read as s and e minutes give a block at s, as tall as the larger of e - s and the minimum. |
| Clock.NineToHalfPastTen | frontend/src/components/Calendar/WeekView.jsx:56-61 | 09:00 to 10:30 sits 540 minutes down and is 90 minutes tall. |
| Clock.TwelveHour | frontend/src/components/Events/EventCard.jsx:9 | The hour shown is in 1..12 and equals the hour modulo 12. |
| Clock.HourLabelIsTwelveHour | frontend/src/components/Calendar/WeekView.jsx:47-51 | Every hour-row label is the 12-hour clock hour, then "AM" before noon and "PM" from noon on. This covers 0 as "12 AM" and 12 as "12 PM". |
| Clock.HourLabelsDistinct | frontend/src/components/Calendar/DayView.jsx:31-35 | The 24 hour-row labels are all different. |
| Clock.TwelveHourMeridiemDetermineHour | frontend/src/components/Events/EventCard.jsx:8-9 | The 12-hour clock hour together with AM/PM determines the hour. |
| Clock.ClockTextOrder | frontend/src/components/Events/EventForm.jsx:45 | For real times, comparing "HH:MM" texts as strings agrees with comparing the times. |
| MonthView.GetDaysInMonth | frontend/src/components/Calendar/MonthView.jsx:8-17 | The length and the starting column (0..6) are those of the current month in the year the constructor reads, so for a year outside 0 to 99 the result describes the current month exactly; the 0-based month and the year are the current date's. |
| MonthView.YearZeroFebruaryAsIn1900 | frontend/src/components/Calendar/MonthView.jsx:10-13 | For February of year 0, a leap year, the grid has the 28 days of February 1900. |
| MonthView.CellKeyOfDate | frontend/src/components/Calendar/MonthView.jsx:35 | A cell's key is the `YYYY-MM-DD` key of its date, is never empty, and parses back to that date. |
| MonthView.CellKeysDistinct | frontend/src/components/Calendar/MonthView.jsx:34-37 | Different days of a month have different keys. |
| MonthView.IsToday | frontend/src/components/Calendar/MonthView.jsx:39-44 | A cell is today exactly when its day, month and year are today's. |
| MonthView.IsTodayIffSameKey | frontend/src/components/Calendar/MonthView.jsx:39-44 | For real dates, a cell is today exactly when it has today's key. |
| MonthView.IsSelected | frontend/src/components/Calendar/MonthView.jsx:46-50 | A selected cell's key is the selection, so no selection selects nothing. |
| MonthView.IsSelectedIffKey | frontend/src/components/Calendar/MonthView.jsx:46-50 | A cell is selected exactly when the selection is its key, and at most one day of the month is selected. |
| MonthView.DayCell | frontend/src/components/Calendar/MonthView.jsx:112-126 | Cell number `day` is a day cell for that day. |
| MonthView.Visible | frontend/src/components/Calendar/MonthView.jsx:129 | A cell lists a prefix of the day's events, at most three long, and all of them when there are three or fewer. |
| MonthView.Hidden | frontend/src/components/Calendar/MonthView.jsx:142-144 | "+N more" appears exactly when a day has more than three events, and N plus the listed count is the total. |
| MonthView.DayCellShows | frontend/src/components/Calendar/MonthView.jsx:112-146 | A cell marks events exactly when some event has its key. It lists the day's first events in input order, and its note counts all the others. |
| MonthView.DayEventsShown | frontend/src/components/Calendar/MonthView.jsx:113-144 | Listed events carry the day's key, the listed and the rest make up the day's events, and the counts add up. |
| MonthView.MoreLabel | frontend/src/components/Calendar/MonthView.jsx:142-144 | The note text is present exactly when the cell has hidden events. |
| MonthView.RenderDays | frontend/src/components/Calendar/MonthView.jsx:103-152 | The grid has `startingDay` blanks and then one cell per day, each cell as laid out at its position. |
| MonthView.LayOutDays | frontend/src/components/Calendar/MonthView.jsx:106-112 | The two loops produce exactly `startingDay` blanks, then days 1 to `daysInMonth` in order. |
| MonthView.GridLayout | frontend/src/components/Calendar/MonthView.jsx:106-113 | For a real month, the blanks are the columns before day 1's weekday, and every later position holds a real day in the column of its weekday. |
| MonthView.DayCellColumn | frontend/src/components/Calendar/MonthView.jsx:106-113 | Every day of the month falls in its weekday's column. |
| MonthView.HandleDrop | frontend/src/components/Calendar/MonthView.jsx:85-96 | A drop reports one move to the cell's key exactly when an event is dragged, a handler exists and the key differs from the event's date. The drag always ends. |
| MonthView.DropMovesToOtherDay | frontend/src/components/Calendar/MonthView.jsx:89-93 | For an event on a real date, a drop moves it exactly when the target is another date, and the new key parses back to the target. |
| MonthView.NavigateMonthAsWritten | frontend/src/components/Calendar/MonthView.jsx:28-32 | `setMonth(getMonth() + direction)` always gives a real date. |
| MonthView.NavigateMonthAsWrittenKeepsDay | frontend/src/components/Calendar/MonthView.jsx:28-32 | When the day exists in the target month, the arrow lands on that day of the target month. |
| MonthView.NavigateMonthAsWrittenOvershoots | frontend/src/components/Calendar/MonthView.jsx:28-32 | When it does not, the arrow lands in the month after the target, by the days the target lacks. |
| MonthView.JanuaryThirtyFirstSkipsFebruary | frontend/src/components/Calendar/MonthView.jsx:28-32 | From 31 January of a common year, "next month" lands on 3 March, two months on. |
| MonthView.NavigateMonthAsWrittenRoundTrip | frontend/src/components/Calendar/MonthView.jsx:28-32 | For a day up to the 28th, one month forward and one back returns to the same date. |
| MonthView.NavigateMonth | frontend/src/components/Calendar/MonthView.jsx:28-32 | The corrected arrow always reaches the month exactly `direction` away. It keeps the day or clamps it to that month's last day. |
| MonthView.NavigateMonthAgrees | frontend/src/components/Calendar/MonthView.jsx:28-32 | Where the day exists in the target month, the corrected arrow and the code agree. |
| MonthView.NavigateMonthRoundTrip | frontend/src/components/Calendar/MonthView.jsx:28-32 | With the corrected arrow, a day up to the 28th comes back after a round trip. |
| WeekView.WeekStart | frontend/src/components/Calendar/WeekView.jsx:8-11 | Moving the day back by the weekday gives a real date, even across a month start. |
| WeekView.WeekDates | frontend/src/components/Calendar/WeekView.jsx:7-20 | `getWeekDates` gives seven real dates. |
| WeekView.WeekStartIsSunday | frontend/src/components/Calendar/WeekView.jsx:8-11 | The week starts on the Sunday on or before the date, `getDay()` days earlier. |
| WeekView.WeekDateAt | frontend/src/components/Calendar/WeekView.jsx:14-18 | Day i of the week is i days after its Sunday and falls on weekday i. |
| WeekView.WeekDatesConsecutive | frontend/src/components/Calendar/WeekView.jsx:7-20 | The dates are consecutive days from Sunday to Saturday, and the date the week was built from is among them, at its weekday. |
| WeekView.WeekOfWeekDate | frontend/src/components/Calendar/WeekView.jsx:7-20 | Every date of a week gives back the same week. |
| WeekView.NavigateWeek | frontend/src/components/Calendar/WeekView.jsx:27-31 | The arrow always gives a real date. |
| WeekView.NavigateWeekShifts | frontend/src/components/Calendar/WeekView.jsx:27-31 | The arrows move the date by exactly 7 × direction days and keep its weekday. |
| WeekView.NavigateWeekCompose | frontend/src/components/Calendar/WeekView.jsx:27-31 | Moving a weeks then b weeks is moving a + b weeks. |
| WeekView.NavigateWeekRoundTrip | frontend/src/components/Calendar/WeekView.jsx:27-31 | A week forward and a week back is no move. |
| WeekView.NavigateWeekMovesWeek | frontend/src/components/Calendar/WeekView.jsx:22-31 | The next week's dates are this week's dates, each 7 days on. |
| WeekView.WeekEventPosition | frontend/src/components/Calendar/WeekView.jsx:53-63 | The top comes from the start time alone. The height exists exactly when both times read, and is then at least 30 minutes. |
| WeekView.WeekEventPositionOfTimes | frontend/src/components/Calendar/WeekView.jsx:53-63 | For backend times the block is placed from the start and end minutes of the day with a 30-minute minimum: at the start minute, as tall as the larger of the duration and 30. |
| WeekView.MonthAbbrev | frontend/src/components/Calendar/WeekView.jsx:72 | Month names in the title are three letters. |
| WeekView.MonthAbbrevInjective | frontend/src/components/Calendar/WeekView.jsx:72 | Different months have different names. |
| WeekView.WeekTitleWithinMonth | frontend/src/components/Calendar/WeekView.jsx:69-78 | When the week starting on its Sunday stays inside one month, its seven days are consecutive days of that month and the title is "Mon YYYY" for it. |
| WeekView.WeekTitleAcrossMonths | frontend/src/components/Calendar/WeekView.jsx:69-78 | A week running into the next month ends in that month and shows "Mon1 - Mon2 YYYY" with the second month's year. |
| DayView.NavigateDay | frontend/src/components/Calendar/DayView.jsx:14-20 | The arrow gives a real date and reports a key exactly when there is a handler. The key parses back to the new date. |
| DayView.NavigateDayShifts | frontend/src/components/Calendar/DayView.jsx:14-20 | The arrows move the date by exactly `direction` days and report the new date's key. |
| DayView.NavigateDayCompose | frontend/src/components/Calendar/DayView.jsx:14-20 | Moving a days then b days lands, and reports, as moving a + b days. |
| DayView.NavigateDayRoundTrip | frontend/src/components/Calendar/DayView.jsx:14-20 | A day forward and a day back returns to the same date. |
| DayView.DayEventPosition | frontend/src/components/Calendar/DayView.jsx:42-52 | The top comes from the start time alone. The height exists exactly when both times read, and is then at least 40 minutes. |
| DayView.DayEventPositionOfTimes | frontend/src/components/Calendar/DayView.jsx:42-52 | For backend times the block is placed from the start and end minutes of the day with a 40-minute minimum: at the start minute, as tall as the larger of the duration and 40. |
| EventCard.JsRem | frontend/src/components/Events/EventCard.jsx:9 | JavaScript's `%` leaves a remainder smaller than the divisor in size, with the dividend's sign, that differs from the dividend by a multiple of the divisor. |
| EventCard.FormatTime | frontend/src/components/Events/EventCard.jsx:4-11 | The text is empty exactly when the time is absent or empty. |
| EventCard.FormatTimeShape | frontend/src/components/Events/EventCard.jsx:6-10 | A numeric hour shows as its 12-hour clock hour in 1..12, then the minutes piece verbatim, then "PM" exactly from hour 12 on. |
| EventCard.FormatTimeNotANumber | frontend/src/components/Events/EventCard.jsx:7-10 | An hour that is not a number shows as 12, with "AM". |
| EventCard.FormatTimeOfTime | frontend/src/components/Events/EventCard.jsx:4-11 | A backend "HH:MM:SS" shows as the 12-hour clock hour, the two-digit minutes and AM/PM. |
| EventCard.FormatTimeOfClockText | frontend/src/components/Events/EventCard.jsx:4-11 | A form "HH:MM" shows the same way. |
| EventCard.FormatTimeDistinct | frontend/src/components/Events/EventCard.jsx:4-11 | Two times of day show the same text exactly when they agree to the minute; only the seconds are lost. |
| EventForm.FreshForm | frontend/src/components/Events/EventForm.jsx:5-12 | A new form has an empty title and description, the selected date or else today's, 09:00 to 10:00, and a reminder reading as 10. |
| EventForm.DefaultTimes | frontend/src/components/Events/EventForm.jsx:9-10 | The defaults "09:00" and "10:00" are the clock texts of 9:00 and 10:00. |
| EventForm.TimeField | frontend/src/components/Events/EventForm.jsx:22-23 | An empty time becomes the default; any other time becomes its first five characters, or the whole time when shorter. |
| EventForm.TimeFieldOfTime | frontend/src/components/Events/EventForm.jsx:22-23 | A backend "HH:MM:SS" fills the time input with its "HH:MM". |
| EventForm.EditForm | frontend/src/components/Events/EventForm.jsx:17-25 | Editing copies the title, the description with "" for none, and the event's date or else the selected one. The times are cut to five characters, with 09:00 and 10:00 for missing ones, and the reminder reads as the event's, with 0 read as 10. |
| EventForm.OnProps | frontend/src/components/Events/EventForm.jsx:16-29 | An event replaces the whole form. Otherwise a selected date replaces only the date, and with no selection nothing changes. |
| EventForm.Change | frontend/src/components/Events/EventForm.jsx:31-34 | An input changes exactly its own field. |
| EventForm.Submit | frontend/src/components/Events/EventForm.jsx:36-55 | A blank title is refused first. Then a start not before the end, as strings, is refused. Otherwise the fields go out unchanged, with the reminder parsed by `parseInt`. A form is submitted exactly when its title is not blank and its start is before its end. |
| EventForm.SubmitBlankTitle | frontend/src/components/Events/EventForm.jsx:40-43 | The title error appears exactly when every character of the title is white space. |
| EventForm.SubmitClockTimes | frontend/src/components/Events/EventForm.jsx:45-48 | With a title, "HH:MM" times are accepted exactly when the start is earlier than the end; otherwise the time error appears. |
| EventForm.EditThenSubmit | frontend/src/components/Events/EventForm.jsx:17-55 | Submitting an event from the backend unchanged sends its title, its "HH:MM" times and its reminder, with 0 sent as 10. |
| EventForm.FreshThenSubmit | frontend/src/components/Events/EventForm.jsx:5-55 | A new form with a title submits 09:00 to 10:00 with a 10-minute reminder. |
| EventForm.SaveError | frontend/src/components/Events/EventForm.jsx:57-58 | The save error shown is never empty, and is the error's message when it has one. |
| UseEvents.FetchAll | frontend/src/hooks/useEvents.js:11-22 | On success the list becomes the data and the error clears; on failure the list stays and the message is recorded. Loading ends either way, and nothing else changes. |
| UseEvents.FetchToday | frontend/src/hooks/useEvents.js:24-31 | Today's list becomes the data; a failure changes nothing. |
| UseEvents.FetchUpcoming | frontend/src/hooks/useEvents.js:33-40 | The upcoming list becomes the data; a failure changes nothing. |
| UseEvents.FetchByMonth | frontend/src/hooks/useEvents.js:42-55 | It updates the state as fetching all events does, and returns the data, or [] on failure. |
| UseEvents.FetchByDate | frontend/src/hooks/useEvents.js:57-65 | It returns the day's events, or [] on failure. |
| UseEvents.Refresh | frontend/src/hooks/useEvents.js:71-72 | Reloading sets today's and the upcoming lists to their answers. A failed reload keeps its old list. The main list, the loading flag and the error are left alone. |
| UseEvents.RefreshEvents | frontend/src/hooks/useEvents.js:105-111 | Refreshing sets each list from its own fetch. |
| UseEvents.RefreshOrderFree | frontend/src/hooks/useEvents.js:105-111 | The three parallel fetches give the same state in all six orders they can answer in. |
| UseEvents.ReplaceById | frontend/src/hooks/useEvents.js:82 | The length is kept, and each element with the id becomes the server's version while the others stay in place. |
| UseEvents.RemoveById | frontend/src/hooks/useEvents.js:96 | No element with the id is left, and the list does not grow. |
| UseEvents.Create | frontend/src/hooks/useEvents.js:67-77 | The created event is appended and returned. Today's and the upcoming lists are then reloaded, and the loading flag and error are kept. A failure leaves the state as it was and is passed on. |
| UseEvents.Update | frontend/src/hooks/useEvents.js:79-89 | Elements with the id are replaced by the returned event. Today's and the upcoming lists are then reloaded, and the loading flag and error are kept. A failure changes nothing and is passed on. |
| UseEvents.Delete | frontend/src/hooks/useEvents.js:91-103 | Elements with the id leave the list. Today's and the upcoming lists are then reloaded, and the loading flag and error are kept. A failure changes nothing and is passed on. |
| UseEvents.RemoveByIdKeepsOthers | frontend/src/hooks/useEvents.js:96 | Exactly the events without the id remain, and the list is unchanged exactly when no event had the id. |
| UseEvents.RemoveByIdAppend | frontend/src/hooks/useEvents.js:96 | The filter distributes over concatenation, so the order of what stays is kept. |
| UseEvents.RemoveByIdIdempotent | frontend/src/hooks/useEvents.js:96 | Deleting twice is deleting once. |
| UseEvents.ReplaceByIdMembers | frontend/src/hooks/useEvents.js:82 | After replacing, the only event with the id is the server's version, and every other event is still present. |
| UseEvents.ReplaceByIdIdempotent | frontend/src/hooks/useEvents.js:82 | Applying the same update twice is applying it once. |
| UseEvents.CreateThenDelete | frontend/src/hooks/useEvents.js:67-103 | Creating an event with a new id and then deleting it restores the list. |
| EventsRouter.Select | backend/routers/events.py:17-22 | A query returns only matching rows and never more rows than stored. |
| EventsRouter.SelectCounts | backend/routers/events.py:17-22 | A query returns every matching row as often as it is stored, and no other row. |
| EventsRouter.SelectMembers | backend/routers/events.py:17-22 | A row is returned exactly when it is stored and matches. |
| EventsRouter.SelectAppend | backend/routers/events.py:17-22 | Selecting from two parts of the table is selecting from each part. |
| EventsRouter.Sort | backend/routers/events.py:20 | `ORDER BY event_date, start_time` returns a permutation of the rows, ordered by date and then start time. |
| EventsRouter.AllEvents | backend/routers/events.py:10-30 | All events returns exactly the caller's rows, ordered by date and then start time. |
| EventsRouter.AllEventsMembers | backend/routers/events.py:17-22 | A caller sees all of their rows and no one else's. |
| EventsRouter.EventsByDate | backend/routers/events.py:32-52 | The by-date route returns exactly the caller's rows on that date, ordered by start time. |
| EventsRouter.EventsByDateMembers | backend/routers/events.py:39-44 | A row is listed by date exactly when it is the caller's and on that date. |
| EventsRouter.TodaysEvents | backend/routers/events.py:78-99 | Today's route returns all of the caller's rows dated today, each as often as stored and no others, ordered by start time. |
| EventsRouter.UpcomingEvents | backend/routers/events.py:54-76 | The route returns stored rows of the caller's dated today or later, each at most as often as stored, ordered by date and time: all of them when there are at most 20, otherwise 20. |
| EventsRouter.UpcomingAreEarliest | backend/routers/events.py:62-67 | A qualifying row is left out only when 20 rows were returned, and then every returned row comes before it. |
| EventsRouter.UpcomingAllWhenFew | backend/routers/events.py:62-67 | With at most 20 qualifying rows, all of them are returned. |
| EventsRouter.EventsByMonth | backend/routers/events.py:101-124 | The by-month route returns exactly the caller's rows in that year and month, ordered by date and time. |
| EventsRouter.EventsByMonthMembers | backend/routers/events.py:108-116 | A row is listed for a month exactly when it is the caller's and dated in that year and month. |
| EventsRouter.Find | backend/routers/events.py:133-139 | The lookup finds a row with the id that the caller owns, and finds none only when there is no such row. |
| EventsRouter.GetEvent | backend/routers/events.py:126-154 | The route returns the caller's row with the id, or 404 exactly when the caller owns no such row. |
| EventsRouter.NotifyOrDefault | backend/routers/events.py:167-168 | `notify_before or 10` stores 10 for no value and for 0, and keeps any other value. |
| EventsRouter.CreateEvent | backend/routers/events.py:156-178 | Create appends one row owned by the caller, with the new id, the given fields, the reminder default and both stamps set to now. Ids stay unique. |
| EventsRouter.CreateThenGet | backend/routers/events.py:156-178 | A created event is then found by its owner. |
| EventsRouter.CreateIsolated | backend/routers/events.py:163-169 | Creating an event changes nothing that another user reads. |
| EventsRouter.Apply | backend/routers/events.py:203-228 | Supplied fields take their new values, missing ones keep the stored ones, the id, owner and creation stamp stay, and `updated_at` becomes now. |
| EventsRouter.ReplaceMatching | backend/routers/events.py:226-231 | The update rewrites the rows with the id and owner, and leaves every other row as it was. |
| EventsRouter.UpdateEvent | backend/routers/events.py:180-249 | The update is 404 exactly when the caller owns no row with the id. With no field supplied, the stored row is returned unchanged; otherwise the updated row is returned. |
| EventsRouter.UpdateKeepsOthers | backend/routers/events.py:188-231 | An update changes only the caller's row with the id, and ids stay unique. |
| EventsRouter.UpdateTouchesStamp | backend/routers/events.py:222-239 | `updated_at` moves exactly when some field was supplied. |
| EventsRouter.UpdateThenGet | backend/routers/events.py:180-249 | After an update, reading the event gives the row the update returned. |
| EventsRouter.UpdateIsolated | backend/routers/events.py:226-231 | Updating an event changes nothing that another user reads. |
| EventsRouter.RemoveMatching | backend/routers/events.py:258-261 | No row with the id and owner is left, and the table does not grow. |
| EventsRouter.RemoveMatchingCounts | backend/routers/events.py:258-261 | Delete keeps every other row as often as it was stored. |
| EventsRouter.DeleteEvent | backend/routers/events.py:251-278 | Delete is 404 exactly when the caller owns no row with the id; otherwise the table shrinks. |
| EventsRouter.DeleteThenGet | backend/routers/events.py:251-278 | After a delete the event is not found, and every other row is still there. |
| EventsRouter.DeleteIsolated | backend/routers/events.py:258-261 | Deleting an event changes nothing that another user reads. |
| AuthRouter.FindByEmail | backend/routers/auth.py:31-32 | The lookup finds a user with the address, and finds none exactly when no user has it. |
| AuthRouter.Register | backend/routers/auth.py:10-53 | An address the `EmailStr` validator refuses is a 422 before anything else; then over 72 characters is refused, then under 6, then an address whose validated form is taken; otherwise one user is appended under the validated address, and their id and that address are returned. |
| AuthRouter.RegisterSucceedsIff | backend/routers/auth.py:14-47 | Registration succeeds exactly for an address the validator accepts, a password of 6 to 72 characters, and a validated address no user has. |
| AuthRouter.RegisterAddsOne | backend/routers/auth.py:42-53 | A registration adds exactly one user, with the validated address, after the existing ones, and addresses stay unique. |
| AuthRouter.RegisterTwice | backend/routers/auth.py:30-40 | After a registration, the same address, or any the validator turns into the same one, is refused with "Email already registered". |
| AuthRouter.Login | backend/routers/auth.py:64-92 | An address the validator refuses is a 422. Otherwise login succeeds exactly when the validated address is known and the password checks, any other case is the 401 "Incorrect email or password", and a success gives a bearer token for the user's id. |
| AuthRouter.LoginFailuresAlike | backend/routers/auth.py:79-84 | An unknown address and a wrong password get the same answer. |
| AuthRouter.RegisterThenLogin | backend/routers/auth.py:42-92 | Right after registering, logging in with that password, under the address or any the validator turns into the same one, gives a token for the new id. |
| AuthRouter.Me | backend/routers/auth.py:103-121 | "Me" returns the id and email of a user with the id, or 404 "User not found" exactly when there is none. |
| RegisterForm.Utf16Length | frontend/src/components/Register.jsx:26 | A string's JavaScript length lies between its character count and twice it, and equals the character count when no character is outside the Basic Multilingual Plane. |
| RegisterForm.ShownError | frontend/src/components/Register.jsx:39-40 | The error shown is never empty, and is the error's message when it has one. |
| RegisterForm.HandleSubmit | frontend/src/components/Register.jsx:17-44 | Submit calls nothing exactly when the passwords differ or are under 6 long; a mismatch shows its error before the length error. Otherwise the register call comes first. The error clears and the dashboard opens exactly when both calls succeed. |
| RegisterForm.SubmitSucceeds | frontend/src/components/Register.jsx:33-38 | On success the effects are register, login, storing the session and opening the dashboard, in that order. |
| RegisterForm.RegisterFailureStops | frontend/src/components/Register.jsx:33-40 | A failed registration makes no login call and shows the server's message. |
| RegisterForm.RegisterAnswer | frontend/src/utils/api.js:11-22 | A refused registration reaches the form as an error carrying the server's detail, "Registration failed" for an empty one, and "[object Object]" for a 422, whose detail is a list of objects. |
| RegisterForm.LoginAnswer | frontend/src/utils/api.js:24-35 | A login gives the form the token, or an error carrying the server's detail, "Login failed" for an empty one, and "[object Object]" for a 422. |
| RegisterForm.RegisterAgainstServer | frontend/src/components/Register.jsx:33-38 | Against the backend routes, a valid address whose validated form is new, with a valid password, ends on the dashboard with the token issued for the new user. |
| RegisterForm.DuplicateEmailShown | frontend/src/components/Register.jsx:33-40 | An address whose validated form is taken shows "Email already registered", and no login follows. |
| RegisterForm.InvalidEmailShown | frontend/src/components/Register.jsx:33-40 | An address the server's validator refuses leaves "[object Object]" on the form, and no login follows. |
| RegisterForm.LengthRulesDiffer | frontend/src/components/Register.jsx:26-29 | Three characters outside the Basic Multilingual Plane pass the browser's check but are refused by the server as too short. |

## Left out

- Rendering is not modelled. This covers JSX, CSS classes, the drag opacity, `dataTransfer` and the modal and loading flags. Only the values the views compute are modelled.
- Network I/O is not modelled: `fetch` and the token headers are absent. Every backend answer the frontend sees is a parameter.
- SQL is not modelled: connections and the SQL text are absent. The table is a sequence of rows and each route is a function over it. Database failures (the 500 answers) are not modelled.
- Password hashing, password checking and JWT issuing live in a module this model does not see. They are parameters: the hash value, a `verify` function and an `issue` function.
- The e-mail validation of `EmailStr` (a library the request models use) is a parameter, `normalize`: it gives the validated address or refuses it. What exactly it accepts, and how it rewrites an address (it lower-cases the domain, for instance), is not modelled.
- The current date, the server's `date.today()`, `NOW()`, new database ids and `new Date().toISOString()` are parameters: `today`, `now`, `newId` and `todayIso`.
- `toLocaleDateString` is not modelled, nor the day view's title and the event card's date line that use it.
- The time zone of `new Date("YYYY-MM-DD")` (the day view's initial date) is not modelled, because it depends on the browser's time zone.
- Pixel strings are not modelled: the hour rows are 60 pixels high, so block placement is stated in integer minutes.
- Async ordering is not modelled. Each hook operation is modelled once its call has answered, so races between overlapping calls are absent. `refreshEvents` applies its three fetches in one order, and a lemma shows the order does not matter.
- Ids: the backend takes event ids from the path as text and compares them in SQL. The model uses integer ids throughout.
- Date arithmetic uses the proleptic Gregorian calendar with unbounded years. JavaScript's time-value range limit of ±8.64e15 ms is not modelled. The constructor's two-digit-year rule is modelled (`CivilDate.FullYear`).
- Times on the backend are seconds since midnight. The frontend's times are the text the backend sends ("HH:MM:SS") or the form's "HH:MM".
- Text.JsNumber: `Number` is modelled only for the empty string and plain decimal numerals; everything else counts as NaN. Signs, decimals, exponents, hexadecimal and surrounding white space are not modelled. The views only feed it the pieces of time texts.
- Text.JsParseInt: `parseInt` is modelled in base ten only, and numbers past 2^53 are not rounded.
- Text.IsSpace: white space is the ECMAScript set as of Unicode 15 (category Zs plus the listed format and line characters); later Unicode versions that add space separators are not followed.
- DateKey.FormatDateShape: the key is ten characters only for years 1000 to 9999, because `${year}` is not padded; the lemma states only that range. This follows the code, which pads only the month and day.
- EventsRouter.Sort: SQL leaves the order of rows with the same date and start time open. The model's sort keeps table order, and the contracts state only ordering and permutation, which is what the SQL promises.
- MonthView.IsSelected: a `selectedDate` that is not a string is not modelled; the selection is an optional string, and the empty string counts as no selection.
- Python's `len` counts code points and JavaScript's `length` counts UTF-16 code units; both are modelled (`AuthRouter.Register`, `RegisterForm.Utf16Length`). bcrypt's 72-byte limit on UTF-8 bytes is not: the backend checks characters, and so does the model.
- `get_current_user` and the token check are not modelled; every event route takes the caller's user id as a parameter.

## Findings

| source | as written | input that shows it | evidently intended | confidence | as-written member | corrected member |
|---|---|---|---|---|---|---|
| frontend/src/components/Calendar/MonthView.jsx:28-32 | `setMonth(getMonth() + direction)` keeps the day of the month, and JavaScript carries a day past the target month's end into the month after | current date 31 January 2025, "next month" arrow: the view shows 3 March 2025, and February is skipped | the arrow shows the month exactly `direction` months away (February 2025) | high, not executed | MonthView.NavigateMonthAsWritten (counterexample lemma MonthView.JanuaryThirtyFirstSkipsFebruary) | MonthView.NavigateMonth (with MonthView.NavigateMonthAgrees and MonthView.NavigateMonthRoundTrip) |
