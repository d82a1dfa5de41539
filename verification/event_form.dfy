/**
 * The event form: the fields it starts with (fresh, or copied from the
 * event being edited), the field edits, and the checks `handleSubmit` makes
 * before handing the fields to `onSubmit`.
 */
module EventForm {
  import opened Wrappers
  import opened Text
  import opened Clock
  import opened ClientEvent

  /**
   * The form's state. `eventDate` is `None` when it holds `undefined`; the
   * times are the time inputs' "HH:MM" text; `notifyBefore` is the text of
   * the reminder select (the initial number 10 reads the same as "10").
   */
  datatype FormData = FormData(
    title: string,
    description: string,
    eventDate: Option<string>,
    startTime: string,
    endTime: string,
    notifyBefore: string)

  /** JavaScript truthiness of an optional text: absent and empty are both falsy. */
  predicate Truthy(s: Option<string>) {
    s.Some? && s.value != []
  }

  /** The default time range of a new event. */
  const DefaultStart: string := "09:00"
  const DefaultEnd: string := "10:00"

  /** The default reminder, in minutes before the event. */
  const DefaultNotify: int := 10

  /**
   * The form's first state: empty title and description, the selected date
   * or else today's date (the date part of the clock's ISO text, given as
   * `todayIso`), 09:00 to 10:00, a reminder 10 minutes before.
   */
  function FreshForm(selectedDate: Option<string>, todayIso: string): (r: FormData)
    ensures r.title == [] && r.description == []
    ensures r.eventDate == if Truthy(selectedDate) then selectedDate else Some(todayIso)
    ensures r.startTime == ClockText(9, 0) && r.endTime == ClockText(10, 0)
    ensures JsParseInt(r.notifyBefore) == Some(DefaultNotify)
  {
    JsParseIntRoundTrip(DefaultNotify);
    DefaultTimes();
    FormData("", "", if Truthy(selectedDate) then selectedDate else Some(todayIso),
             DefaultStart, DefaultEnd, IntText(DefaultNotify))
  }

  /** `time?.slice(0, 5) || fallback`: the first five characters, or the fallback for an empty time. */
  function TimeField(time: string, fallback: string): (r: string)
    ensures time == [] ==> r == fallback
    ensures time != [] ==> |r| <= |time| && r == time[..|r|] && (|r| == 5 || r == time)
  {
    var head := if |time| >= 5 then time[..5] else time;
    if head == [] then fallback else head
  }

  /** A backend time "HH:MM:SS" fills the time input with its "HH:MM". */
  lemma TimeFieldOfTime(h: nat, m: nat, s: nat, fallback: string)
    requires h < 100 && m < 100 && s < 100
    ensures TimeField(TimeText(h, m, s), fallback) == ClockText(h, m)
  {
    var c := ClockText(h, m);
    Pad2Chars(h);
    Pad2Chars(m);
    assert |c| == 5;
    TakeOfConcat(c + ":", Pad2(s), 5);
    TakeOfConcat(c, ":", 5);
    assert c[..5] == c;
  }

  /** The default texts are the "HH:MM" of nine and ten o'clock. */
  lemma DefaultTimes()
    ensures ClockText(9, 0) == DefaultStart && ClockText(10, 0) == DefaultEnd
  {
    Pad2Digits(9);
    Pad2Digits(10);
    Pad2Digits(0);
  }

  /**
   * The state when editing `event`: title and description copied (an
   * absent description becomes ""), the event's date or else the selected
   * one, the times cut to "HH:MM" with 09:00 and 10:00 for missing ones, and
   * the reminder, with a falsy 0 replaced by 10.
   */
  function EditForm(event: Event, selectedDate: Option<string>): (r: FormData)
    ensures r.title == event.title
    ensures r.description == event.description.GetOr("")
    ensures r.eventDate == if event.eventDate != [] then Some(event.eventDate) else selectedDate
    ensures r.startTime == TimeField(event.startTime, DefaultStart)
    ensures r.endTime == TimeField(event.endTime, DefaultEnd)
    ensures JsParseInt(r.notifyBefore) == Some(if event.notifyBefore == 0 then DefaultNotify else event.notifyBefore)
  {
    var notify := if event.notifyBefore == 0 then DefaultNotify else event.notifyBefore;
    JsParseIntRoundTrip(notify);
    FormData(event.title, event.description.GetOr(""),
             if event.eventDate != [] then Some(event.eventDate) else selectedDate,
             TimeField(event.startTime, DefaultStart), TimeField(event.endTime, DefaultEnd),
             IntText(notify))
  }

  /**
   * The effect on `[event, selectedDate]`: an event to edit replaces the
   * whole state; otherwise a truthy selected date replaces the date only;
   * otherwise nothing changes.
   */
  function OnProps(prev: FormData, event: Option<Event>, selectedDate: Option<string>): (r: FormData)
    ensures event.Some? ==> r == EditForm(event.value, selectedDate)
    ensures event.None? ==> r.title == prev.title && r.description == prev.description
                            && r.startTime == prev.startTime && r.endTime == prev.endTime
                            && r.notifyBefore == prev.notifyBefore
    ensures event.None? ==> r.eventDate == if Truthy(selectedDate) then selectedDate else prev.eventDate
  {
    match event
    case Some(e) => EditForm(e, selectedDate)
    case None => if Truthy(selectedDate) then prev.(eventDate := selectedDate) else prev
  }

  /** The inputs of the form, by their `name`. */
  datatype FieldName = Title | Description | EventDate | StartTime | EndTime | NotifyBefore

  /** `handleChange`: the named field takes the input's value. */
  function Change(prev: FormData, name: FieldName, value: string): (r: FormData)
    ensures name == Title ==> r == prev.(title := value)
    ensures name == Description ==> r == prev.(description := value)
    ensures name == EventDate ==> r == prev.(eventDate := Some(value))
    ensures name == StartTime ==> r == prev.(startTime := value)
    ensures name == EndTime ==> r == prev.(endTime := value)
    ensures name == NotifyBefore ==> r == prev.(notifyBefore := value)
  {
    match name
    case Title => prev.(title := value)
    case Description => prev.(description := value)
    case EventDate => prev.(eventDate := Some(value))
    case StartTime => prev.(startTime := value)
    case EndTime => prev.(endTime := value)
    case NotifyBefore => prev.(notifyBefore := value)
  }

  /** What `onSubmit` receives: the fields, with the reminder parsed (`None` for NaN). */
  datatype Payload = Payload(
    title: string,
    description: string,
    eventDate: Option<string>,
    startTime: string,
    endTime: string,
    notifyBefore: Option<int>)

  /** The result of pressing submit: an error shown in the form, or the payload sent. */
  datatype Outcome = Rejected(message: string) | Submitted(payload: Payload)

  const TitleRequired: string := "Title is required"
  const EndBeforeStart: string := "End time must be after start time"

  /**
   * `handleSubmit`: a title that trims to nothing is refused first; then a
   * start time that is not before the end time, comparing the texts as
   * strings; otherwise the fields go out with the reminder read by `parseInt`.
   */
  function Submit(form: FormData): (r: Outcome)
    ensures r == Rejected(TitleRequired) <==> Trim(form.title) == []
    ensures r == Rejected(EndBeforeStart) <==> Trim(form.title) != [] && !StrLess(form.startTime, form.endTime)
    ensures r.Submitted? <==> Trim(form.title) != [] && StrLess(form.startTime, form.endTime)
    ensures r.Submitted? ==> r.payload.notifyBefore == JsParseInt(form.notifyBefore)
    ensures r.Submitted? ==> r.payload == Payload(form.title, form.description, form.eventDate,
                                                  form.startTime, form.endTime, r.payload.notifyBefore)
  {
    if Trim(form.title) == [] then Rejected(TitleRequired)
    else if !StrLess(form.startTime, form.endTime) then Rejected(EndBeforeStart)
    else Submitted(Payload(form.title, form.description, form.eventDate,
                           form.startTime, form.endTime, JsParseInt(form.notifyBefore)))
  }

  /** An empty or all-blank title is refused whatever the times, and nothing else is refused for the title. */
  lemma SubmitBlankTitle(form: FormData)
    ensures Submit(form) == Rejected(TitleRequired) <==> forall i :: 0 <= i < |form.title| ==> IsSpace(form.title[i])
  {
    TrimEmptyIffBlank(form.title);
  }

  /** With a title, "HH:MM" times are accepted exactly when the start is earlier in the day than the end. */
  lemma SubmitClockTimes(form: FormData, h1: nat, m1: nat, h2: nat, m2: nat)
    requires ValidClock(h1, m1) && ValidClock(h2, m2)
    requires form.startTime == ClockText(h1, m1) && form.endTime == ClockText(h2, m2)
    requires Trim(form.title) != []
    ensures Submit(form).Submitted? <==> MinuteOfDay(h1, m1) < MinuteOfDay(h2, m2)
    ensures !Submit(form).Submitted? ==> Submit(form) == Rejected(EndBeforeStart)
  {
    ClockTextOrder(h1, m1, h2, m2);
  }

  /**
   * Editing an event from the backend and submitting it unchanged sends its
   * title, its times cut to "HH:MM" and its reminder (10 for 0), provided
   * the title is not blank and the event ends after it starts.
   */
  lemma EditThenSubmit(e: Event, selectedDate: Option<string>, h1: nat, m1: nat, s1: nat, h2: nat, m2: nat, s2: nat)
    requires ValidClock(h1, m1) && s1 < 60 && ValidClock(h2, m2) && s2 < 60
    requires e.startTime == TimeText(h1, m1, s1) && e.endTime == TimeText(h2, m2, s2)
    requires Trim(e.title) != [] && MinuteOfDay(h1, m1) < MinuteOfDay(h2, m2)
    ensures var r := Submit(EditForm(e, selectedDate));
      && r.Submitted?
      && r.payload.title == e.title
      && r.payload.startTime == ClockText(h1, m1) && r.payload.endTime == ClockText(h2, m2)
      && r.payload.notifyBefore == Some(if e.notifyBefore == 0 then DefaultNotify else e.notifyBefore)
  {
    var form := EditForm(e, selectedDate);
    TimeFieldOfTime(h1, m1, s1, DefaultStart);
    TimeFieldOfTime(h2, m2, s2, DefaultEnd);
    SubmitClockTimes(form, h1, m1, h2, m2);
  }

  /** A fresh form with a title typed in submits 09:00 to 10:00 with a 10-minute reminder. */
  lemma FreshThenSubmit(selectedDate: Option<string>, todayIso: string, title: string)
    requires Trim(title) != []
    ensures var form := FreshForm(selectedDate, todayIso);
      Submit(Change(form, Title, title))
      == Submitted(Payload(title, "", form.eventDate, DefaultStart, DefaultEnd, Some(DefaultNotify)))
  {
    var form := Change(FreshForm(selectedDate, todayIso), Title, title);
    DefaultTimes();
    SubmitClockTimes(form, 9, 0, 10, 0);
  }

  /** The error shown when `onSubmit` fails: its message, or a fixed one when that is empty. */
  function SaveError(message: string): (r: string)
    ensures r != []
    ensures message != [] ==> r == message
  {
    if message != [] then message else "Failed to save event"
  }
}
