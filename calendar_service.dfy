/**
 * `calendar_service.py`: the two calls into the remote calendar service.
 * `create_event` builds an event body and inserts it into the primary
 * calendar; `list_events` lists the primary calendar's events between two
 * bounds, which default to the current UTC month. Both first obtain
 * credentials through `Auth`.
 *
 * The remote service is not modelled: the client records each request it
 * sends, and the service's answer to that request is a parameter.
 */
module CalendarService {
  import opened Wrappers
  import opened Rfc3339
  import opened DateTimes
  import Auth

  /** The calendar both calls address. */
  const PrimaryCalendar := "primary"
  /** The default of `max_results`. */
  const DefaultMaxResults := 250

  /** The `start` and `end` members of an event body. */
  datatype EventTime = EventTime(dateTime: string, timeZone: string)

  /** The body `create_event` sends. */
  datatype EventBody = EventBody(summary: string, description: string, start: EventTime, end: EventTime)

  /** An event as the remote service returns it. */
  datatype Event = Event(id: string, body: EventBody)

  /** The parameters of the list request. */
  datatype ListQuery = ListQuery(calendarId: string, timeMin: string, timeMax: string, singleEvents: bool, orderBy: string, maxResults: int)

  /** A request sent to the remote service. */
  datatype Request = Insert(calendarId: string, body: EventBody) | List(query: ListQuery)

  /** The remote service's answer to an insert: the created event, or an `HttpError`. */
  datatype InsertReply = Inserted(event: Event) | InsertHttpError

  /** The remote service's answer to a list: a response with or without "items", or an `HttpError`. */
  datatype ListReply = Listed(items: Option<seq<Event>>) | ListHttpError

  /** The exceptions that escape the two calls: a credential failure, or a `replace` past `MAXYEAR`. */
  datatype ServiceError = AuthFailed(cause: Auth.AuthError) | YearOutOfRange

  /** `description or ""`. */
  function DescriptionOrEmpty(description: Option<string>): (d: string)
    ensures d == "" <==> !Truthy(description)
    ensures Truthy(description) ==> d == description.value
  {
    if Truthy(description) then description.value else ""
  }

  /** The body `create_event` inserts. */
  function EventBodyOf(summary: string, startTime: string, endTime: string, description: Option<string>): (body: EventBody)
    ensures body.summary == summary
    ensures body.description == DescriptionOrEmpty(description)
    ensures body.start.dateTime == startTime && body.end.dateTime == endTime
    ensures body.start.timeZone == "UTC" && body.end.timeZone == "UTC"
  {
    EventBody(summary, DescriptionOrEmpty(description), EventTime(startTime, "UTC"), EventTime(endTime, "UTC"))
  }

  /** A window of instants: from `lo` (included) to `hi` (excluded). */
  datatype Window = Window(lo: DateTime, hi: DateTime)

  /** `now.replace(day=1, hour=0, minute=0, second=0, microsecond=0)`: the first instant of the month of `now`. */
  function FirstOfMonth(now: DateTime): (first: DateTime)
    requires now.Valid()
    ensures first.Valid() && first.year == now.year && first.month == now.month
    ensures first.day == 1 && first.hour == 0 && first.minute == 0 && first.second == 0 && first.microsecond == 0
    ensures !Before(now, first)
  {
    DateTime(now.year, now.month, 1, 0, 0, 0, 0)
  }

  /**
   * The first instant of the month after that of `now`: in December the year
   * goes up and the month becomes January, otherwise the month goes up. `None`
   * when `replace` would leave the years `datetime` supports and raises.
   */
  function NextMonthStart(now: DateTime): (next: Option<DateTime>)
    requires now.Valid()
    ensures next.None? <==> now.month == 12 && now.year == MaxYear
    ensures next.Some? ==> next.value.Valid() && Before(now, next.value)
    ensures next.Some? ==> next.value.day == 1 && next.value.hour == 0 && next.value.minute == 0 &&
                           next.value.second == 0 && next.value.microsecond == 0
    ensures next.Some? && now.month == 12 ==> next.value.year == now.year + 1 && next.value.month == 1
    ensures next.Some? && now.month != 12 ==> next.value.year == now.year && next.value.month == now.month + 1
  {
    var first := FirstOfMonth(now);
    if now.month == 12 then
      if now.year + 1 > MaxYear then None else Some(first.(year := now.year + 1, month := 1))
    else
      Some(first.(month := now.month + 1))
  }

  /** The default window of `list_events`: the current month, if the next month can be represented. */
  function CurrentMonth(now: DateTime): (w: Option<Window>)
    requires now.Valid()
    ensures w.None? <==> now.month == 12 && now.year == MaxYear
    ensures w.Some? ==> w.value.lo.Valid() && w.value.hi.Valid() && Before(w.value.lo, w.value.hi)
    ensures w.Some? ==> !Before(now, w.value.lo) && Before(now, w.value.hi)
  {
    match NextMonthStart(now)
    case None => None
    case Some(next) => Some(Window(FirstOfMonth(now), next))
  }

  /** The default window holds exactly the instants of the month and year of `now`. */
  lemma CurrentMonthExactly(now: DateTime, d: DateTime)
    requires now.Valid() && d.Valid() && CurrentMonth(now).Some?
    ensures var w := CurrentMonth(now).value;
      (!Before(d, w.lo) && Before(d, w.hi)) <==> (d.year == now.year && d.month == now.month)
  {
  }

  /** The two default bounds as `isoformat()` writes them. */
  function DefaultBounds(now: DateTime): (bounds: Option<(string, string)>)
    requires now.Valid()
    ensures bounds.None? <==> now.month == 12 && now.year == MaxYear
    ensures bounds.Some? ==> IsUtcDateTime(bounds.value.0) && IsUtcDateTime(bounds.value.1)
    ensures bounds.Some? ==> LexLess(bounds.value.0, bounds.value.1)
    ensures bounds.Some? ==> bounds.value == (IsoFormat(CurrentMonth(now).value.lo), IsoFormat(CurrentMonth(now).value.hi))
    // Read back, the two strings name the two ends of the current month.
    ensures bounds.Some? ==> ParseUtc(bounds.value.0) == CurrentMonth(now).value.lo
    ensures bounds.Some? ==> ParseUtc(bounds.value.1) == CurrentMonth(now).value.hi
  {
    match CurrentMonth(now)
    case None => None
    case Some(w) =>
      IsoFormatReadBack(w.lo);
      IsoFormatReadBack(w.hi);
      IsoFormatOrdered(w.lo, w.hi);
      Some((IsoFormat(w.lo), IsoFormat(w.hi)))
  }

  /**
   * The instants between the two default bounds, read back, are exactly those
   * of the month and year of `now`.
   */
  lemma DefaultBoundsSpanMonth(now: DateTime, d: DateTime)
    requires now.Valid() && d.Valid() && DefaultBounds(now).Some?
    ensures var bounds := DefaultBounds(now).value;
      (!Before(d, ParseUtc(bounds.0)) && Before(d, ParseUtc(bounds.1))) <==> (d.year == now.year && d.month == now.month)
  {
    CurrentMonthExactly(now, d);
  }

  /**
   * The bounds `list_events` sends: the given ones when both are non-empty;
   * otherwise both are replaced by the current month, even the one that was given.
   */
  function QueryBounds(timeMin: Option<string>, timeMax: Option<string>, now: DateTime): (bounds: Option<(string, string)>)
    requires now.Valid()
    ensures Truthy(timeMin) && Truthy(timeMax) ==> bounds == Some((timeMin.value, timeMax.value))
    ensures !Truthy(timeMin) || !Truthy(timeMax) ==> bounds == DefaultBounds(now)
  {
    if Truthy(timeMin) && Truthy(timeMax) then Some((timeMin.value, timeMax.value)) else DefaultBounds(now)
  }

  /** Given bounds reach the request whatever the clock says. */
  lemma GivenBoundsIgnoreClock(timeMin: string, timeMax: string, now1: DateTime, now2: DateTime)
    requires now1.Valid() && now2.Valid() && timeMin != "" && timeMax != ""
    ensures QueryBounds(Some(timeMin), Some(timeMax), now1) == QueryBounds(Some(timeMin), Some(timeMax), now2)
    ensures QueryBounds(Some(timeMin), Some(timeMax), now1).Some?
  {
  }

  /** `events_result.get("items", [])`, with `[]` also for a failed call. */
  function ListedItems(reply: ListReply): (items: seq<Event>)
    ensures reply.Listed? && reply.items.Some? ==> items == reply.items.value
    ensures reply.ListHttpError? || reply.items.None? ==> items == []
  {
    match reply
    case Listed(items) => if items.Some? then items.value else []
    case ListHttpError => []
  }

  /** The calendar client: it obtains credentials from `store` and records what it sends. */
  class CalendarClient {
    const store: Auth.CredentialStore
    /** Every request sent to the remote service, oldest first. */
    var sent: seq<Request>

    constructor (store: Auth.CredentialStore)
      ensures this.store == store && sent == []
    {
      this.store := store;
      sent := [];
    }

    /**
     * `create_event(summary, start_time, end_time, description)`: the created
     * event, or `None` when the service answers with an `HttpError`.
     */
    method CreateEvent(server: Auth.AuthServer, reply: InsertReply,
                       summary: string, startTime: string, endTime: string, description: Option<string> := None)
      returns (r: Outcome<Option<Event>, ServiceError>)
      modifies this, store
      ensures store.OneCall(server)
      ensures var auth := Auth.Obtain(old(store.tokenFile), server).result;
        auth.Raised? ==> r == Raised(AuthFailed(auth.error)) && sent == old(sent)
      ensures var auth := Auth.Obtain(old(store.tokenFile), server).result;
        auth.Returned? ==>
          sent == old(sent) + [Insert(PrimaryCalendar, EventBodyOf(summary, startTime, endTime, description))] &&
          r == Returned(if reply.Inserted? then Some(reply.event) else None)
    {
      var creds := store.GetCredentials(server);
      if creds.Raised? {
        r := Raised(AuthFailed(creds.error));
        return;
      }
      var body := EventBodyOf(summary, startTime, endTime, description);
      sent := sent + [Insert(PrimaryCalendar, body)];
      match reply {
        case Inserted(event) => r := Returned(Some(event));
        case InsertHttpError => r := Returned(None);
      }
    }

    /**
     * `list_events(time_min, time_max, max_results)`, where `now` is what
     * `datetime.now(timezone.utc)` would return: the listed events, or `[]`
     * when the service answers with an `HttpError` or without items.
     */
    method ListEvents(now: DateTime, server: Auth.AuthServer, reply: ListReply,
                      timeMin: Option<string> := None, timeMax: Option<string> := None, maxResults: int := DefaultMaxResults)
      returns (r: Outcome<seq<Event>, ServiceError>)
      requires now.Valid()
      modifies this, store
      ensures store.OneCall(server)
      ensures var auth := Auth.Obtain(old(store.tokenFile), server).result;
        auth.Raised? ==> r == Raised(AuthFailed(auth.error)) && sent == old(sent)
      ensures Auth.Obtain(old(store.tokenFile), server).result.Returned? ==>
        match QueryBounds(timeMin, timeMax, now)
        case None => r == Raised(YearOutOfRange) && sent == old(sent)
        case Some(bounds) =>
          sent == old(sent) + [List(ListQuery(PrimaryCalendar, bounds.0, bounds.1, true, "startTime", maxResults))]
      ensures Auth.Obtain(old(store.tokenFile), server).result.Returned? && QueryBounds(timeMin, timeMax, now).Some? ==>
        r == Returned(ListedItems(reply))
    {
      var creds := store.GetCredentials(server);
      if creds.Raised? {
        r := Raised(AuthFailed(creds.error));
        return;
      }
      var lo, hi := timeMin, timeMax;
      if !Truthy(lo) || !Truthy(hi) {
        var month := CurrentMonth(now);
        if month.None? {
          r := Raised(YearOutOfRange);
          return;
        }
        lo, hi := Some(IsoFormat(month.value.lo)), Some(IsoFormat(month.value.hi));
      }
      sent := sent + [List(ListQuery(PrimaryCalendar, lo.value, hi.value, true, "startTime", maxResults))];
      r := Returned(ListedItems(reply));
    }
  }
}
