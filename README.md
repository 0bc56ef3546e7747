# Google Calendar MCP server: a Dafny model

This project models the core of a small Python MCP (Model Context Protocol)
server that exposes Google Calendar to an AI client, plus the server's
quickstart example. The server has three parts:

- a tool, `create_calendar_event`, that builds two RFC 3339 date-times from a
  date and two "HH:MM" times and inserts an event into the primary calendar;
- a resource, `calendar://events/{date}`, that lists the events between the
  start and the end of one day;
- a prompt, `calendar_prompt`, that turns an action name into an instruction
  text.

Under them sit `calendar_service.py` (`create_event` and `list_events`,
whose default window is the current UTC month, rolling over from December
into January of the next year) and `auth.py` (`get_credentials`: reuse the
stored token, refresh it, or run the consent flow, then save the token).

Modules, one per source concern:

- `Wrappers`: `Option`, `Outcome` (a value returned or an exception raised)
  and Python's truth value of an optional string.
- `Rfc3339`: fixed-width decimal fields and the `full-date`, `partial-time`
  and `date-time` productions of section 5.6 of RFC 3339, with the UTC
  offsets "Z" and "+00:00" and without fractional seconds. Also Python's
  lexicographic `str` order.
- `DateTimes`: the slice of Python's `datetime` that is used: UTC date-times,
  their order and `isoformat()`.
- `Auth`: `get_credentials`. The class `CredentialStore` holds the token
  file, `token.json`. The authorization server's refresh grant and consent
  flow are an `AuthServer` value.
- `CalendarService`: `create_event` and `list_events`. The class
  `CalendarClient` records every request it sends to the remote service. The
  service's reply is a parameter, and so is the clock reading `now`.
- `Server` and `Quickstart`: the handlers of `server.py` and `main.py`.

Python's `int` is unbounded, like Dafny's `int`. `datetime.replace` raises
when it would leave the years 1 to 9999, so `list_events` called in December
9999 without both bounds raises. The model returns `YearOutOfRange` there.

`get_credentials` does not catch a failed refresh (auth.py:22). The
exception propagates out of it and out of both calendar calls. It does not
fall back to the consent flow, and the model follows the code.

## Model

| member | source | states |
|---|---|---|
| Auth.Plan | 01-python-mcp-server/auth.py:20-25 | Reuse exactly when the loaded credentials are present and valid. Refresh exactly when they are present, invalid, expired and hold a non-empty refresh token. Consent in every other case, including a missing token file. |
| Auth.Obtain | 01-python-mcp-server/auth.py:15-31 | Valid stored credentials are returned unchanged, with no write. A refresh returns exactly when the refresh grant succeeds, and then returns the credentials the grant produced; otherwise it raises `RefreshError`. The consent flow returns exactly when the server grants consent, and then returns the credentials the flow produced; otherwise it raises `ConsentError`. Something is written exactly when a refresh or consent succeeds, and what is written is what is returned. |
| Auth.FileAfter | 01-python-mcp-server/auth.py:20-29 | The token file is unchanged on reuse or failure. After a successful refresh or consent it holds the returned credentials. |
| Auth.ValidResultIsReusedNextTime | 01-python-mcp-server/auth.py:27-29 | Once a call has returned valid credentials, the next call reuses the saved file and writes nothing. |
| Auth.CredentialStore.GetCredentials | 01-python-mcp-server/auth.py:10-31 | The result is that of `Obtain`. The store changes as one call does (`OneCall`): the token file becomes `FileAfter`, and the write, refresh and consent counters each go up by one exactly when that operation happens. At most one of refresh and consent runs, and the file is written at most once. |
| CalendarService.DescriptionOrEmpty | 01-python-mcp-server/calendar_service.py:19 | The description is `""` exactly when the given one is falsy (`None` or empty); otherwise it is the given one. |
| CalendarService.EventBodyOf | 01-python-mcp-server/calendar_service.py:17-22 | The body carries the summary, `description or ""`, and start and end date-times tagged with time zone "UTC". |
| CalendarService.FirstOfMonth | 01-python-mcp-server/calendar_service.py:43 | Midnight of day 1 of the month of `now`. It is valid and not after `now`. |
| CalendarService.NextMonthStart | 01-python-mcp-server/calendar_service.py:46-49 | From December, January 1 of the next year; otherwise the first of the next month, in the same year. The result is always after `now`. No result exactly for December of year 9999, where `replace` raises. |
| CalendarService.CurrentMonth | 01-python-mcp-server/calendar_service.py:39-49 | The default window starts at or before `now` and ends after it. It is missing only in December 9999. |
| CalendarService.CurrentMonthExactly | 01-python-mcp-server/calendar_service.py:43-49 | A valid instant lies in the default window exactly when it has the same year and month as `now`. |
| CalendarService.DefaultBounds | 01-python-mcp-server/calendar_service.py:51-52 | The bounds are the `isoformat()` strings of the first instant of the month of `now` and of the next month. Both are well-formed RFC 3339 date-times, they read back as exactly those two instants, and the lower one sorts strictly before the upper one as strings. |
| CalendarService.DefaultBoundsSpanMonth | 01-python-mcp-server/calendar_service.py:39-52 | A valid instant lies between the two default bounds, read back, exactly when it has the year and month of `now`. |
| CalendarService.QueryBounds | 01-python-mcp-server/calendar_service.py:39-52 | When both given bounds are truthy they are sent unchanged. When either is missing or empty, both are replaced by the current month. |
| CalendarService.GivenBoundsIgnoreClock | 01-python-mcp-server/calendar_service.py:39 | Non-empty given bounds reach the request whatever the clock says. |
| CalendarService.ListedItems | 01-python-mcp-server/calendar_service.py:64-69 | The response's items when the call succeeds and returns them; `[]` on an `HttpError` or when the response has no "items". |
| CalendarService.CalendarClient.CreateEvent | 01-python-mcp-server/calendar_service.py:13-30 | A credential failure propagates and nothing is sent. Otherwise exactly one insert of the built body into "primary" is sent, and the result is the created event, or `None` on an `HttpError`. The credential store changes as one `get_credentials` call does. |
| CalendarService.CalendarClient.ListEvents | 01-python-mcp-server/calendar_service.py:32-69 | A credential failure propagates and nothing is sent. Otherwise, when the bounds can be computed, exactly one list request is sent to "primary" with those bounds, `singleEvents`, order "startTime" and the result limit, and the items are returned. In December 9999 without both bounds, the call raises and sends nothing. The credential store changes as one `get_credentials` call does. |
| DateTimes.IsoFormatWellFormed | 01-python-mcp-server/calendar_service.py:51-52 | `isoformat()` of a valid whole-second UTC date-time is a well-formed RFC 3339 date-time. |
| DateTimes.IsoFormatReadBack | 01-python-mcp-server/calendar_service.py:51-52 | Reading the fields back from what `isoformat()` writes for a whole-second date-time gives that date-time. |
| DateTimes.IsoFormatOrdered | 01-python-mcp-server/calendar_service.py:51-52 | For whole-second UTC date-times, a strictly earlier instant gives a strictly smaller `isoformat()` string. |
| DateTimes.IsoFormatOrderIff | 01-python-mcp-server/calendar_service.py:51-52 | For whole-second UTC date-times, the `isoformat()` strings compare exactly as the instants do, in both directions. |
| DateTimes.JoinedOrdered | 01-python-mcp-server/calendar_service.py:51-52 | Helper fact for `IsoFormatOrdered`, about the fields those lines write: a triple that is smaller, most significant number first, gives a smaller zero-padded "YYYY-MM-DD" or "HH:MM:SS" string. |
| Rfc3339.ValueOfDigits | 01-python-mcp-server/calendar_service.py:51-52 | Helper fact for `IsoFormatReadBack`, about the fields those lines write: reading back a zero-padded decimal field gives the number that was written. |
| Rfc3339.DigitsOrdered | 01-python-mcp-server/calendar_service.py:51-52 | Helper fact for `IsoFormatOrdered`, about the fields those lines write: of two zero-padded fields of equal width, the one with the smaller number sorts first as a string. |
| Rfc3339.LexLessCommonPrefix | 01-python-mcp-server/server.py:31-32 | Helper fact for `EventTimesOrdered`, about the strings those lines build: a shared prefix does not change the string order of two strings. |
| Rfc3339.LexLessEqualLengthHeads | 01-python-mcp-server/server.py:31-32 | Helper fact for `EventTimesOrdered`, about the strings those lines build: two strings with heads of equal length are ordered by their heads, and by their tails when the heads are equal. |
| Rfc3339.ZuluDateTimeWellFormed | 01-python-mcp-server/server.py:31-32 | `date + "T" + time + "Z"` is a well-formed RFC 3339 date-time exactly when `date` is a `full-date` and `time` is a `partial-time`. |
| Rfc3339.DaysInMonth | 01-python-mcp-server/calendar_service.py:40 | The month lengths that bound the day of a valid clock reading `now` (`DateTimes.DateTime.Valid`) and RFC 3339's `date-mday` (`IsFullDate`): between 28 and 31 days; 29 exactly for February of a leap year. |
| Server.ZuluDateTime | 01-python-mcp-server/server.py:31-32 | The tool's date-time is the date, then "T", then the time, then ":00Z". |
| Server.ZuluDateTimeIsRfc3339 | 01-python-mcp-server/server.py:22-24 | The tool's date-time is well formed exactly when the date is "YYYY-MM-DD" and the time is "HH:MM" on the 24-hour clock. |
| Server.HourMinuteWithSeconds | 01-python-mcp-server/server.py:23-24 | Appending ":00" gives an RFC 3339 `partial-time` exactly when the time is "HH:MM". |
| Server.EventOnOneDay | 01-python-mcp-server/server.py:31-32 | A well-formed start and end both name the given date. |
| Server.EventTimesOrdered | 01-python-mcp-server/server.py:31-32 | For "HH:MM" times, the start date-time sorts before the end date-time exactly when the start time sorts before the end time. |
| Server.CreateCalendarEvent | 01-python-mcp-server/server.py:9-34 | Exactly one insert is sent. Its start and end are `date`T`start_time`:00Z and `date`T`end_time`:00Z, and the summary and description pass through unchanged. A credential failure propagates and nothing is sent. The credential store changes as one `get_credentials` call does. |
| Server.DayBounds | 01-python-mcp-server/server.py:49-50 | Both bounds begin with the date and are non-empty. The start sorts before the end, and each bound is a well-formed RFC 3339 date-time exactly when the date is a `full-date`. |
| Server.DayBoundsPassThrough | 01-python-mcp-server/server.py:49-51 | The day's bounds are always both truthy, so `list_events` sends them unchanged and never falls back to the current month. |
| Server.EventsByDate | 01-python-mcp-server/server.py:38-51 | Exactly one list request is sent, with the day's bounds and the default limit of 250, and the listed items are returned. A credential failure propagates and nothing is sent. The credential store changes as one `get_credentials` call does. |
| Server.ActionOf | 01-python-mcp-server/server.py:77-86 | "create", "view_month" and "view_date" each select their own branch, exactly. Any other action is invalid. |
| Server.ShownDescription | 01-python-mcp-server/server.py:80 | An empty description is shown as "No description"; any other is shown as given. |
| Server.ParseViewDate | 01-python-mcp-server/server.py:85 | A text that reads back as a date is exactly the "view_date" sentence for that date. |
| Server.CalendarPrompt | 01-python-mcp-server/server.py:54-87 | "view_month" gives its fixed sentence. "view_date" gives a sentence that reads back as the given date. Any unknown action gives the fixed "Invalid action" sentence. |
| Server.CreatePromptEmbeds | 01-python-mcp-server/server.py:77-81 | A "create" prompt holds, in this order and each at the offset the texts before it add up to, the fixed opening, the event name, "' on ", the date, " from ", the start time, " to ", the end time, ". Description: " and the shown description followed by ".". Its length is the sum of theirs. |
| Server.CreateTextLengths | 01-python-mcp-server/server.py:79-80 | Helper fact for `CreatePromptEmbeds`: the fixed texts of a "create" prompt are 31, 5, 6, 4 and 15 characters long. |
| Server.PromptKindOfPrompt | 01-python-mcp-server/server.py:77-87 | The prompt text alone tells which branch produced it. |
| Server.FixedPrompts | 01-python-mcp-server/server.py:82-87 | "view_month" and unknown actions ignore every other argument. |
| Quickstart.Add | 01-python-mcp-server/main.py:14-17 | The result minus either argument is the other argument: an unbounded sum. |
| Quickstart.AddCommutative | 01-python-mcp-server/main.py:14-17 | Adding is commutative. |
| Quickstart.GetGreeting | 01-python-mcp-server/main.py:24-27 | The greeting is "Hello, ", then the name, then "!". |
| Quickstart.GreetingRoundTrip | 01-python-mcp-server/main.py:24-27 | Reading a greeting back gives the name it was made for, and any text that reads back as a name is that name's greeting. |
| Quickstart.StyleUsed | 01-python-mcp-server/main.py:33-38 | A known style is used as given; any other style falls back to "friendly". |
| Quickstart.GreetUser | 01-python-mcp-server/main.py:30-38 | The prompt starts with the phrase of the style used and ends with " for someone named " followed by the name and ".". |
| Quickstart.PhraseMarksStyle | 01-python-mcp-server/main.py:33-37 | The three style phrases differ at their sixteenth character. |
| Quickstart.GreetUserInjective | 01-python-mcp-server/main.py:30-38 | Two equal prompts come from the same name and the same style used. |

## Left out

- The MCP transports (`server_stdio.py`, `server_sse.py`, `server_http.py`) and FastMCP's registration and dispatch of tools, resources and prompts: framework code outside the core.
- The remote Google Calendar service: its replies are parameters. The model does not capture how it orders events, expands recurring events or filters by the window.
- `get_calendar_service` and `build`: the model keeps only the credential step they perform.
- OAuth2 internals (token expiry clocks, the refresh grant, the local consent server). `Credentials` is reduced to the attributes `get_credentials` reads, and `valid` and `expired` are independent flags.
- JSON serialisation of the token file, and a corrupt or unreadable `token.json`: the file holds credentials or is absent.
- Exceptions other than `HttpError` from the remote calls: they propagate in the source and are not modelled.
- Every `print` diagnostic.
- The real clock and file system: `now` is a parameter, and the token file is a field.
- `test_calender.py`: a manual script against the live service, not part of the server.
- DateTimes.IsoFormatWellFormed: proved only for whole-second date-times, because RFC 3339 fractional seconds are outside the profile modelled here. Both bounds `list_events` computes have zero microseconds.
