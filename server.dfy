/**
 * `server.py`: the calendar tool, the per-day events resource and the
 * calendar prompt. The tool and the resource build RFC 3339 date-times by
 * pasting a date and a time together and hand them to `CalendarService`; the
 * prompt is plain text chosen by the requested action.
 */
module Server {
  import opened Wrappers
  import opened Rfc3339
  import opened DateTimes
  import Auth
  import opened CalendarService

  /** The documented time parameter format "HH:MM" (24-hour clock). */
  predicate IsHourMinute(t: string)
  {
    |t| == 5 && AllDigits(t[..2]) && t[2] == ':' && AllDigits(t[3..]) && ValueOf(t[..2]) <= 23 && ValueOf(t[3..]) <= 59
  }

  /** Appending ":00" seconds to "HH:MM" gives an RFC 3339 `partial-time`, and nothing else does. */
  lemma HourMinuteWithSeconds(hm: string)
    ensures IsPartialTime(hm + ":00") <==> IsHourMinute(hm)
  {
    var t := hm + ":00";
    if |t| == 8 {
      assert t[..2] == hm[..2] && t[3..5] == hm[3..] && t[2] == hm[2] && t[6..] == "00";
      ValueOfTwoDigits("00");
    }
  }

  /** `f"{date}T{time}:00Z"`, as the calendar tool builds its start and end. */
  function ZuluDateTime(date: string, time: string): (s: string)
    ensures |s| == |date| + |time| + 5
    ensures s[..|date|] == date && s[|date|] == 'T' && s[|s| - 4..] == ":00Z"
    ensures s[|date| + 1..|s| - 4] == time
  {
    date + "T" + time + ":00Z"
  }

  /** The tool's date-time is well formed exactly when the date is a `full-date` and the time is "HH:MM". */
  lemma ZuluDateTimeIsRfc3339(date: string, time: string)
    ensures IsUtcDateTime(ZuluDateTime(date, time)) <==> IsFullDate(date) && IsHourMinute(time)
  {
    assert ZuluDateTime(date, time) == date + "T" + (time + ":00") + "Z";
    ZuluDateTimeWellFormed(date, time + ":00");
    HourMinuteWithSeconds(time);
  }

  /** A well-formed start and end built from one date both name that date. */
  lemma EventOnOneDay(date: string, startTime: string, endTime: string)
    requires IsUtcDateTime(ZuluDateTime(date, startTime)) && IsUtcDateTime(ZuluDateTime(date, endTime))
    ensures ZuluDateTime(date, startTime)[..10] == date == ZuluDateTime(date, endTime)[..10]
  {
    ZuluDateTimeIsRfc3339(date, startTime);
    ZuluDateTimeIsRfc3339(date, endTime);
  }

  /** For "HH:MM" times, the built start precedes the built end exactly when the start time precedes the end time. */
  lemma EventTimesOrdered(date: string, startTime: string, endTime: string)
    requires IsHourMinute(startTime) && IsHourMinute(endTime)
    ensures LexLess(ZuluDateTime(date, startTime), ZuluDateTime(date, endTime)) <==> LexLess(startTime, endTime)
  {
    assert ZuluDateTime(date, startTime) == (date + "T") + (startTime + ":00Z");
    assert ZuluDateTime(date, endTime) == (date + "T") + (endTime + ":00Z");
    LexLessCommonPrefix(date + "T", startTime + ":00Z", endTime + ":00Z");
    LexLessEqualLengthHeads(startTime, endTime, ":00Z", ":00Z");
    LexLessIrreflexive(":00Z");
  }

  /** `events_by_date`'s bounds: `f"{date}T00:00:00Z"` and `f"{date}T23:59:59Z"`. */
  function DayBounds(date: string): (bounds: (string, string))
    ensures |bounds.0| == |bounds.1| == |date| + 10
    ensures bounds.0[..|date|] == date && bounds.1[..|date|] == date
    ensures bounds.0 != "" && bounds.1 != ""
    ensures LexLess(bounds.0, bounds.1)
    ensures IsUtcDateTime(bounds.0) <==> IsFullDate(date)
    ensures IsUtcDateTime(bounds.1) <==> IsFullDate(date)
  {
    var lo, hi := date + "T00:00:00Z", date + "T23:59:59Z";
    assert lo == date + ("T00:00:00Z") && hi == date + ("T23:59:59Z");
    LexLessCommonPrefix(date, "T00:00:00Z", "T23:59:59Z");
    assert lo == date + "T" + "00:00:00" + "Z" && hi == date + "T" + "23:59:59" + "Z";
    ZuluDateTimeWellFormed(date, "00:00:00");
    ZuluDateTimeWellFormed(date, "23:59:59");
    DayEndsArePartialTimes();
    (lo, hi)
  }

  /** The first and the last second of a day are RFC 3339 `partial-time`s. */
  lemma DayEndsArePartialTimes()
    ensures IsPartialTime("00:00:00") && IsPartialTime("23:59:59")
  {
    assert "00:00:00"[..2] == "00:00:00"[3..5] == "00:00:00"[6..] == "00";
    assert "23:59:59"[..2] == "23" && "23:59:59"[3..5] == "23:59:59"[6..] == "59";
    ValueOfTwoDigits("00");
    ValueOfTwoDigits("23");
    ValueOfTwoDigits("59");
  }

  /** The day's bounds are never empty, so `list_events` never falls back to the current month for them. */
  lemma DayBoundsPassThrough(date: string, now: DateTime)
    requires now.Valid()
    ensures QueryBounds(Some(DayBounds(date).0), Some(DayBounds(date).1), now) == Some(DayBounds(date))
  {
  }

  /** The action a prompt request names, as the `if`/`elif` chain of `calendar_prompt` selects it. */
  datatype PromptAction = CreateAction | ViewMonth | ViewDate | InvalidAction

  function ActionOf(action: string): (a: PromptAction)
    ensures a == CreateAction <==> action == "create"
    ensures a == ViewMonth <==> action == "view_month"
    ensures a == ViewDate <==> action == "view_date"
    ensures a == InvalidAction <==> action != "create" && action != "view_month" && action != "view_date"
  {
    if action == "create" then CreateAction
    else if action == "view_month" then ViewMonth
    else if action == "view_date" then ViewDate
    else InvalidAction
  }

  // The fixed texts of the prompts. The longer ones are written as concatenations
  // of shorter literals: the verifier evaluates the characters of a short literal,
  // which the proofs below about single characters of these texts rely on.
  const CreatePrefix := "Create a calendar event named '"
  const ViewMonthText := "Show all events of the current" + " month in my Google Calendar."
  const ViewDatePrefix := "Show all events scheduled on "
  const InvalidActionText := "Invalid action. Please choose " + "'create', 'view_month', " + "or 'view_date'."

  /** `description or 'No description'`. */
  function ShownDescription(description: string): (shown: string)
    ensures description == "" ==> shown == "No description"
    ensures description != "" ==> shown == description
  {
    if description == "" then "No description" else description
  }

  /** `part` stands in `s` from index `i` on. */
  predicate OccursAt(part: string, s: string, i: nat)
  {
    i + |part| <= |s| && s[i..i + |part|] == part
  }

  /** The text of a "view_date" prompt read back: the date it names, if `p` is such a text. */
  function ParseViewDate(p: string): (date: Option<string>)
    ensures date.Some? ==> p == ViewDatePrefix + date.value + "."
  {
    if |p| > |ViewDatePrefix| && p[..|ViewDatePrefix|] == ViewDatePrefix && p[|p| - 1] == '.' then
      assert p == ViewDatePrefix + p[|ViewDatePrefix|..|p| - 1] + ".";
      Some(p[|ViewDatePrefix|..|p| - 1])
    else None
  }

  /** The action a prompt text answers, read back from the text. */
  function PromptKind(p: string): (a: PromptAction)
  {
    if |p| >= |CreatePrefix| && p[..|CreatePrefix|] == CreatePrefix then CreateAction
    else if p == ViewMonthText then ViewMonth
    else if ParseViewDate(p).Some? then ViewDate
    else InvalidAction
  }

  /** The "create" branch of `calendar_prompt`, piece by piece as its f-string reads. */
  function CreatePromptText(eventName: string, date: string, startTime: string, endTime: string, description: string): string
  {
    CreatePrefix + eventName + "' on " + date + " from " + startTime + " to " + endTime +
    ". Description: " + ShownDescription(description) + "."
  }

  /** `calendar_prompt(action, event_name, date, start_time, end_time, description)`. */
  function CalendarPrompt(action: string, eventName: string := "", date: string := "",
                          startTime: string := "", endTime: string := "", description: string := ""): (p: string)
    ensures ActionOf(action) == ViewMonth ==> p == ViewMonthText
    ensures ActionOf(action) == ViewDate ==> ParseViewDate(p) == Some(date)
    ensures ActionOf(action) == InvalidAction ==> p == InvalidActionText
  {
    match ActionOf(action)
    case CreateAction => CreatePromptText(eventName, date, startTime, endTime, description)
    case ViewMonth => ViewMonthText
    case ViewDate =>
      assert ParseViewDate(ViewDatePrefix + date + ".") == Some(date) by {
        var p := ViewDatePrefix + date + ".";
        assert p[..|ViewDatePrefix|] == ViewDatePrefix && p[|ViewDatePrefix|..|p| - 1] == date;
      }
      ViewDatePrefix + date + "."
    case InvalidAction => InvalidActionText
  }

  /**
   * A "create" prompt holds, in this order, the fixed opening, the event name,
   * "' on ", the date, " from ", the start time, " to ", the end time,
   * ". Description: " and the shown description, each at the offset that the
   * texts before it add up to (`CreateTextLengths` gives the fixed lengths).
   */
  lemma CreatePromptEmbeds(eventName: string, date: string, startTime: string, endTime: string, description: string)
    ensures var p := CalendarPrompt("create", eventName, date, startTime, endTime, description);
      var iOn := |CreatePrefix| + |eventName|;
      var iDate := iOn + |"' on "|;
      var iFrom := iDate + |date|;
      var iStart := iFrom + |" from "|;
      var iTo := iStart + |startTime|;
      var iEnd := iTo + |" to "|;
      var iLabel := iEnd + |endTime|;
      var iDescription := iLabel + |". Description: "|;
      |p| == iDescription + |ShownDescription(description) + "."| &&
      OccursAt(CreatePrefix, p, 0) && OccursAt(eventName, p, |CreatePrefix|) && OccursAt("' on ", p, iOn) &&
      OccursAt(date, p, iDate) && OccursAt(" from ", p, iFrom) && OccursAt(startTime, p, iStart) &&
      OccursAt(" to ", p, iTo) && OccursAt(endTime, p, iEnd) && OccursAt(". Description: ", p, iLabel) &&
      OccursAt(ShownDescription(description) + ".", p, iDescription)
  {
    assert CalendarPrompt("create", eventName, date, startTime, endTime, description) ==
           CreatePromptText(eventName, date, startTime, endTime, description);
    FStringPieces(CreatePrefix, eventName, "' on ", date, " from ", startTime, " to ", endTime,
                  ". Description: ", ShownDescription(description), ".");
  }

  /** The lengths of the fixed texts of a "create" prompt. */
  lemma CreateTextLengths()
    ensures |CreatePrefix| == 31 && |"' on "| == 5 && |" from "| == 6 && |" to "| == 4
    ensures |". Description: "| == 15
  {
  }

  /**
   * In the concatenation of eleven pieces, every piece (the last two taken
   * together) stands at the offset that the pieces before it add up to.
   */
  lemma FStringPieces(s0: string, s1: string, s2: string, s3: string, s4: string, s5: string,
                      s6: string, s7: string, s8: string, s9: string, s10: string)
    ensures var p := s0 + s1 + s2 + s3 + s4 + s5 + s6 + s7 + s8 + s9 + s10;
      var i3 := |s0| + |s1| + |s2|;
      var i5 := i3 + |s3| + |s4|;
      var i7 := i5 + |s5| + |s6|;
      var i9 := i7 + |s7| + |s8|;
      |p| == i9 + |s9| + |s10| &&
      OccursAt(s0, p, 0) && OccursAt(s1, p, |s0|) && OccursAt(s3, p, i3) &&
      OccursAt(s5, p, i5) && OccursAt(s7, p, i7) && OccursAt(s9 + s10, p, i9)
    ensures var p := s0 + s1 + s2 + s3 + s4 + s5 + s6 + s7 + s8 + s9 + s10;
      var i3 := |s0| + |s1| + |s2|;
      var i5 := i3 + |s3| + |s4|;
      var i7 := i5 + |s5| + |s6|;
      OccursAt(s2, p, |s0| + |s1|) && OccursAt(s4, p, i3 + |s3|) &&
      OccursAt(s6, p, i5 + |s5|) && OccursAt(s8, p, i7 + |s7|)
  {
    // Walk the text from its end: `Lk + Rk` stays the whole text, where `Lk`
    // holds the first k pieces and `Rk` the rest; each step moves one piece.
    var L2 := s0 + s1;
    var L4 := L2 + s2 + s3;
    var L6 := L4 + s4 + s5;
    var L8 := L6 + s6 + s7;
    var L9 := L8 + s8;
    var R9 := s9 + s10;
    Associate(L9, s9, s10);
    var R8 := s8 + R9;
    Associate(L8, s8, R9);
    var R7 := s7 + R8;
    Associate(L6 + s6, s7, R8);
    var R6 := s6 + R7;
    Associate(L6, s6, R7);
    var R5 := s5 + R6;
    Associate(L4 + s4, s5, R6);
    var R4 := s4 + R5;
    Associate(L4, s4, R5);
    var R3 := s3 + R4;
    Associate(L2 + s2, s3, R4);
    var R2 := s2 + R3;
    Associate(L2, s2, R3);
    var R1 := s1 + R2;
    Associate(s0, s1, R2);
    OccursBefore([], s0, R1);
    OccursBefore(s0, s1, R2);
    OccursBefore(L2 + s2, s3, R4);
    OccursBefore(L4 + s4, s5, R6);
    OccursBefore(L6 + s6, s7, R8);
    OccursBefore(L9, R9, []);
    OccursBefore(L2, s2, R3);
    OccursBefore(L4, s4, R5);
    OccursBefore(L6, s6, R7);
    OccursBefore(L8, s8, R9);
  }

  /** Concatenation is associative. */
  lemma Associate(a: string, b: string, c: string)
    ensures a + b + c == a + (b + c)
  {
  }

  /** `part` stands in `pre + (part + post)` right after `pre`. */
  lemma OccursBefore(pre: string, part: string, post: string)
    ensures OccursAt(part, pre + (part + post), |pre|)
  {
    assert (pre + (part + post))[|pre|..|pre| + |part|] == part;
  }

  /** The text of a prompt tells which branch of `calendar_prompt` produced it. */
  lemma PromptKindOfPrompt(action: string, eventName: string, date: string, startTime: string, endTime: string, description: string)
    ensures PromptKind(CalendarPrompt(action, eventName, date, startTime, endTime, description)) == ActionOf(action)
  {
    var p := CalendarPrompt(action, eventName, date, startTime, endTime, description);
    match ActionOf(action)
    case CreateAction =>
      assert p[..|CreatePrefix|] == CreatePrefix;
    case ViewMonth =>
      assert p[0] != CreatePrefix[0];
    case ViewDate =>
      assert p[0] != CreatePrefix[0] && p[16] != ViewMonthText[16];
      assert ParseViewDate(p).Some?;
    case InvalidAction =>
      assert p[0] != CreatePrefix[0] && p[0] != ViewDatePrefix[0];
  }

  /** "view_month" and any unknown action give a fixed text, whatever the other arguments are. */
  lemma FixedPrompts(action: string, eventName: string, date: string, startTime: string, endTime: string, description: string)
    requires ActionOf(action) == ViewMonth || ActionOf(action) == InvalidAction
    ensures CalendarPrompt(action, eventName, date, startTime, endTime, description) == CalendarPrompt(action)
  {
  }

  /**
   * `create_calendar_event(summary, date, start_time, end_time, description)`:
   * inserts an event from `date`T`start_time`:00Z to `date`T`end_time`:00Z,
   * passing the summary and the description on unchanged.
   */
  method CreateCalendarEvent(client: CalendarClient, server: Auth.AuthServer, reply: InsertReply,
                             summary: string, date: string, startTime: string, endTime: string, description: string := "")
    returns (r: Outcome<Option<Event>, ServiceError>)
    modifies client, client.store
    ensures client.store.OneCall(server)
    ensures var auth := Auth.Obtain(old(client.store.tokenFile), server).result;
      auth.Raised? ==> r == Raised(AuthFailed(auth.error)) && client.sent == old(client.sent)
    ensures var auth := Auth.Obtain(old(client.store.tokenFile), server).result;
      auth.Returned? ==>
        client.sent == old(client.sent) + [Insert(PrimaryCalendar, EventBody(summary, description,
          EventTime(ZuluDateTime(date, startTime), "UTC"), EventTime(ZuluDateTime(date, endTime), "UTC")))] &&
        r == Returned(if reply.Inserted? then Some(reply.event) else None)
  {
    var startIso := ZuluDateTime(date, startTime);
    var endIso := ZuluDateTime(date, endTime);
    r := client.CreateEvent(server, reply, summary, startIso, endIso, Some(description));
  }

  /**
   * `events_by_date(date)`: lists the events between `date`T00:00:00Z and
   * `date`T23:59:59Z, with the default result limit. `now` is what the clock
   * would say; these bounds never make `list_events` read it.
   */
  method EventsByDate(client: CalendarClient, now: DateTime, server: Auth.AuthServer, reply: ListReply, date: string)
    returns (r: Outcome<seq<Event>, ServiceError>)
    requires now.Valid()
    modifies client, client.store
    ensures client.store.OneCall(server)
    ensures var auth := Auth.Obtain(old(client.store.tokenFile), server).result;
      auth.Raised? ==> r == Raised(AuthFailed(auth.error)) && client.sent == old(client.sent)
    ensures var auth := Auth.Obtain(old(client.store.tokenFile), server).result;
      auth.Returned? ==>
        client.sent == old(client.sent) +
          [List(ListQuery(PrimaryCalendar, date + "T00:00:00Z", date + "T23:59:59Z", true, "startTime", DefaultMaxResults))] &&
        r == Returned(ListedItems(reply))
  {
    var bounds := DayBounds(date);
    r := client.ListEvents(now, server, reply, Some(bounds.0), Some(bounds.1));
  }
}
