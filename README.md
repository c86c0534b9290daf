# Calendar agent command core and SQL answer normalisation, in Dafny

This project models two pieces of Python code and proves properties about them.

**The calendar agent** is `projects/ai-calendar-agent/calendar_agent.py`. It reads a free-text
command and decides which tool the command asks for. The tools act on an in-memory list of
events.

- The date and time helpers are `parse_date`, `parse_time` and `format_event`. They live in
  the modules `CalendarTime` and `CalendarEvent`.
- The four tools are `add_event_to_calendar`, `view_events_on_date`,
  `view_all_upcoming_events` and `delete_event_by_id`. They are the methods of the class
  `CalendarStore.Calendar`. The module-level list `calendar_events` is the class's `events`
  field.
- Each tool method is proved against a specification function of the list. The same module
  proves what each view lists, in which order, and what the views answer with.
- The two list idioms the tools use are the filtering comprehension and the stable
  `sorted(.., key=..)`. They are in `EventList`.
- `process_command` is `CalendarCommands.ProcessCommand`. It dispatches through `Classify`,
  which decides the intent, and `Step`, which runs the tool. Its contract is stated in
  terms of those two functions.
- The three regular expressions are modelled twice. Each has a declarative description: the
  `Is…Parse` predicates give every way the pattern can match, position by position. Each
  also has the engine's choice: the `Match…` functions. Lemmas prove that the engine's
  choice is one of the parses, and that it is the parse Python's backtracking prefers.
- The Python string built-ins these need are in `PyStr`. They are whitespace as `\s`,
  `strip()` and `split()` see it, the `in` operator, `re.IGNORECASE` letter matching,
  `int()` of a numeral (without its digit limit, see "## Left out"), zero-padded
  `strftime` fields and `str()` of an integer.

**The SQL agent's evaluation script** is `projects/autonomous-sql-agent/scripts/evaluate.py`.
Two of its parts are modelled in `SqlEvaluate`:

- `normalize_sql`, which puts a query in a canonical form before the exact-match
  comparison;
- the answer extraction `generated_full.split("assistant")[-1].strip()`.

## Where the code and its description differ

The project's design description says some things the code does not do. The model follows
the code in each case.

- **Ids.** The description promises ids that are unique and never reused. The code assigns
  `len(calendar_events) + 1`. After a deletion, a new event can therefore take an id that is
  still in use, and a later delete removes both events. `CalendarStore.IdsCanRepeatAfterDelete`
  shows this on a concrete history.
- **Bad times.** The description says a malformed time is rejected. The code adds the event
  anyway, as an all-day event, when `parse_time` refuses the time token (for example
  `25:00`). See `CalendarCommands.StepAddAppends`.
- **All-day ordering.** The description says all-day events sort before timed events. The
  code keys an all-day event as `time.min` (00:00). An all-day event and a 00:00 event
  therefore tie, and they keep the order they were added in (Python's sort is stable).
- **Empty titles.** The description says a command whose title is empty is not accepted as
  an add and falls through. The code strips the captured title after the match, so
  "add  today" (two spaces) matches with the title " " and adds an event titled "" for
  today. See `CalendarCommands.AddTwoSpacesToday`. "add today" (one space) does not match
  the Add pattern (`CalendarCommands.AddTodayNoMatch`).

The code's own comments give example commands that the patterns do not accept:

- "show me tomorrow's schedule" (line 133) and "show upcoming schedule" (line 149) both get
  the fallback answer. See `CalendarCommands.ShowMeTomorrowsSchedule` and
  `CalendarCommands.ShowUpcomingSchedule`.
- The lazy title group takes the shortest title after which the rest reads as a date tail.
  So "add moon today" adds an event titled "mo" for today, read as "mo" + "on today". See
  `CalendarCommands.AddMoonToday`.

## Model

| member | source | states |
|---|---|---|
| PyStr.Strip | projects/ai-calendar-agent/calendar_agent.py:108 | `str.strip()`: the result has no whitespace at either end; it is the slice between the leading whitespace run and a trailing all-whitespace rest |
| PyStr.StripUnchanged | projects/ai-calendar-agent/calendar_agent.py:118 | text whose two ends are not whitespace is its own strip |
| PyStr.NoOccurrenceInSlice | projects/autonomous-sql-agent/scripts/evaluate.py:49 | a slice of a text that does not contain `p` does not contain `p` |
| PyStr.LowerAscii | projects/ai-calendar-agent/calendar_agent.py:15 | `lower()` keeps the length and turns each ASCII capital into its lower-case letter (code + 32), leaving every other character alone |
| PyStr.Pad | projects/ai-calendar-agent/calendar_agent.py:40 | a `strftime` numeric field has exactly its width in digits and reads back as the value when the value fits |
| PyStr.PadValue | projects/ai-calendar-agent/calendar_agent.py:40 | a fixed-width numeral is determined by its value: padding its value to its width gives it back |
| PyStr.NatToString | projects/ai-calendar-agent/calendar_agent.py:98 | `str(n)` is a numeral without leading zeros whose value is `n` |
| CalendarTime.NextDay | projects/ai-calendar-agent/calendar_agent.py:19 | `today + timedelta(days=1)` is after `today`, and no valid date lies strictly between them |
| CalendarTime.ParseDate | projects/ai-calendar-agent/calendar_agent.py:10-24 | "today" and "tomorrow" in any letter case give the clock's day and the next; a numeric token is accepted exactly when it names a real date, and the date renders back as the token |
| CalendarTime.FormatDate | projects/ai-calendar-agent/calendar_agent.py:40 | `%Y-%m-%d` gives a well-formed numeric token whose fields are the date's |
| CalendarTime.DigitsRoundTrip | projects/ai-calendar-agent/calendar_agent.py:22 | a numeric date token is the rendering of the date it denotes |
| CalendarTime.DateRoundTrip | projects/ai-calendar-agent/calendar_agent.py:10-24 | parsing a rendered date gives the date back |
| CalendarTime.FormatTime | projects/ai-calendar-agent/calendar_agent.py:41 | `%H:%M` gives a five-character time token whose fields are the time's |
| CalendarTime.ParseTime | projects/ai-calendar-agent/calendar_agent.py:26-34 | a time token is accepted exactly when its hour is below 24 and its minute below 60, and it renders back up to the leading zero of the hour |
| CalendarTime.TimeDigitsRoundTrip | projects/ai-calendar-agent/calendar_agent.py:32 | a time token renders back as itself, with a zero added before a one-digit hour |
| CalendarTime.TimeRoundTrip | projects/ai-calendar-agent/calendar_agent.py:26-34 | parsing a rendered time gives the time back |
| CalendarEvent.EventLineReadsBack | projects/ai-calendar-agent/calendar_agent.py:36-42 | the event line can be read back: it shows the event's date, its time or "All Day", and its title unaltered |
| EventList.FilterMembers | projects/ai-calendar-agent/calendar_agent.py:64 | a comprehension keeps exactly the elements that pass, and it keeps the whole list exactly when all of them pass |
| EventList.FilterAppend | projects/ai-calendar-agent/calendar_agent.py:95 | filtering keeps the list's order: it distributes over concatenation |
| EventList.FilterKeepsAll | projects/ai-calendar-agent/calendar_agent.py:95 | filtering a list whose elements all pass gives the list back |
| EventList.FilterDropsAll | projects/ai-calendar-agent/calendar_agent.py:95 | filtering a list whose elements all fail gives the empty list |
| EventList.SortByKey | projects/ai-calendar-agent/calendar_agent.py:69 | `sorted(.., key=..)` is a permutation whose keys never decrease |
| EventList.SortStable | projects/ai-calendar-agent/calendar_agent.py:69 | the sort is stable: elements with equal keys keep their relative order |
| CalendarStore.DeleteRemovesExactlyId | projects/ai-calendar-agent/calendar_agent.py:89-100 | a delete keeps exactly the events with another id, in order; it shortens the list exactly when the id was present; no event with the id remains, and a second delete changes nothing |
| CalendarStore.TimeKeyOrder | projects/ai-calendar-agent/calendar_agent.py:69 | the integer key orders events as Python compares their `time` keys, with all-day as 00:00 |
| CalendarStore.ListedOnDate | projects/ai-calendar-agent/calendar_agent.py:64-70 | the date view lists every event of that date and no other, each as often as stored, by time, ties in the order added |
| CalendarStore.DateTimeKeyOrder | projects/ai-calendar-agent/calendar_agent.py:85 | the integer key orders events as Python compares the `(date, time)` tuples |
| CalendarStore.ListedUpcomingEvents | projects/ai-calendar-agent/calendar_agent.py:77-86 | the upcoming view lists exactly the events dated today or later, by date then time, ties in the order added |
| CalendarStore.AddKeepsNumbering | projects/ai-calendar-agent/calendar_agent.py:51 | without deletions the ids are 1, 2, 3, … in list order, and the new id is not yet in use |
| CalendarStore.IdsCanRepeatAfterDelete | projects/ai-calendar-agent/calendar_agent.py:51 | add "a" and "b", delete 1, add "c": both events have id 2, and deleting 2 removes both |
| CalendarStore.AddedEventIsListed | projects/ai-calendar-agent/calendar_agent.py:50-56 | an added event is listed under its date, and among the upcoming events when its date is not past |
| CalendarStore.DeletedIsNotListed | projects/ai-calendar-agent/calendar_agent.py:95 | after a delete, neither view lists an event with the deleted id |
| CalendarStore.EventLinesStep | projects/ai-calendar-agent/calendar_agent.py:70 | each loop step appends one event's line to the response |
| CalendarStore.AppendLines | projects/ai-calendar-agent/calendar_agent.py:69-70 | the loop over the sorted events appends exactly their lines, in order, to the header |
| CalendarStore.LineEndsWithTitle | projects/ai-calendar-agent/calendar_agent.py:42 | an event's line ends with its title |
| CalendarStore.StripFinalNewline | projects/ai-calendar-agent/calendar_agent.py:71 | stripping a text with non-space ends plus a newline removes only that newline |
| CalendarStore.StripLines | projects/ai-calendar-agent/calendar_agent.py:68-71 | the stripped response loses only its final newline when the last title ends in a visible character |
| CalendarStore.OnDateResponseLines | projects/ai-calendar-agent/calendar_agent.py:68-71 | when the last listed title is non-empty and ends in a visible character, the date view answers with its header and one line per listed event, without the final newline |
| CalendarStore.UpcomingResponseLines | projects/ai-calendar-agent/calendar_agent.py:83-87 | when the last listed title is non-empty and ends in a visible character, the upcoming view answers with its header and one line per listed event, without the final newline |
| CalendarStore.Calendar.constructor | projects/ai-calendar-agent/calendar_agent.py:6 | the store starts empty |
| CalendarStore.Calendar.AddEvent | projects/ai-calendar-agent/calendar_agent.py:46-58 | appends the event with id `len + 1` and answers with the confirmation naming title, date and time |
| CalendarStore.Calendar.ViewEventsOnDate | projects/ai-calendar-agent/calendar_agent.py:60-71 | the loop builds the date view's answer: "No events found" when nothing matches, else the header and the sorted lines, stripped |
| CalendarStore.Calendar.ViewAllUpcomingEvents | projects/ai-calendar-agent/calendar_agent.py:73-87 | the loop builds the upcoming view's answer: "No upcoming events." when nothing matches, else the header and the sorted lines, stripped |
| CalendarStore.Calendar.DeleteEventById | projects/ai-calendar-agent/calendar_agent.py:89-100 | removes the events with the id and answers "deleted" exactly when some event had it |
| CalendarCommands.DateTokenLength | projects/ai-calendar-agent/calendar_agent.py:112 | a date token at a position has exactly one length, fits in the text and starts with a digit or a `t` |
| CalendarCommands.DateAlternativesExclusive | projects/ai-calendar-agent/calendar_agent.py:112 | the numeric, `today` and `tomorrow` alternatives exclude one another |
| CalendarCommands.MatchAddTailSpec | projects/ai-calendar-agent/calendar_agent.py:112-113 | the engine matches the part after the title exactly when some parse of it exists, and every parse puts the date and time where the engine does |
| CalendarCommands.TailBounds | projects/ai-calendar-agent/calendar_agent.py:112-113 | a matched tail has a date token, and the captured time is a well-formed time token |
| CalendarCommands.ShortestTitleEnd | projects/ai-calendar-agent/calendar_agent.py:112 | the lazy title stops at an end, without crossing a newline, after which the tail matches |
| CalendarCommands.ShortestTitleEndFirst | projects/ai-calendar-agent/calendar_agent.py:112 | no shorter title works: the tail fails after every end the lazy title passed over, and after every reachable end when it finds none |
| CalendarCommands.MatchAdd | projects/ai-calendar-agent/calendar_agent.py:111-116 | the engine's Add span has a non-empty title followed by a matching tail |
| CalendarCommands.MatchAddIsFirstParse | projects/ai-calendar-agent/calendar_agent.py:111-116 | `fullmatch` succeeds exactly when some parse exists, and it returns the parse with the latest title start and then the earliest title end |
| CalendarCommands.MatchViewDateSpec | projects/ai-calendar-agent/calendar_agent.py:134-138 | the View pattern matches exactly when some parse exists, and every parse captures the same date token |
| CalendarCommands.DigitEnd | projects/ai-calendar-agent/calendar_agent.py:155 | `\d+` takes the whole run of digits |
| CalendarCommands.MatchDeleteSpec | projects/ai-calendar-agent/calendar_agent.py:155-158 | the Delete pattern matches exactly when some parse exists, and the id is the value of the digits every parse reads |
| CalendarCommands.DateToken | projects/ai-calendar-agent/calendar_agent.py:119 | the captured date group is the date token at its position |
| CalendarCommands.DateTokenMeaning | projects/ai-calendar-agent/calendar_agent.py:122-128 | a captured date is refused only when it is a numeric token naming a day the calendar lacks; `today` and `tomorrow` in any case resolve to the clock's day and the next |
| CalendarCommands.ClassifyAdd | projects/ai-calendar-agent/calendar_agent.py:116-120 | a command is an Add exactly when the Add pattern can match it; the title is stripped, and the date and time tokens are well formed |
| CalendarCommands.ClassifyAddSpan | projects/ai-calendar-agent/calendar_agent.py:118-120 | the Add intent carries the stripped title, the date group and the time group of the engine's match |
| CalendarCommands.TokenIsDateToken | projects/ai-calendar-agent/calendar_agent.py:119 | a captured date token is a date token on its own |
| CalendarCommands.ClassifyView | projects/ai-calendar-agent/calendar_agent.py:138-140 | a command that is no Add is a date view exactly when the View pattern can match it, with the date token every parse captures |
| CalendarCommands.ClassifyUpcoming | projects/ai-calendar-agent/calendar_agent.py:150-151 | after those two, a command asks for the upcoming list exactly when it contains one of the three phrases |
| CalendarCommands.ClassifyDelete | projects/ai-calendar-agent/calendar_agent.py:155-159 | after those three, a command is a delete exactly when the Delete pattern matches it, with the id its digits spell |
| CalendarCommands.ClassifyHelp | projects/ai-calendar-agent/calendar_agent.py:162 | a command is a help request exactly when it is "help", "hi" or "hello" |
| CalendarCommands.FallsThrough | projects/ai-calendar-agent/calendar_agent.py:174-175 | a command that no pattern, phrase or greeting accepts gets the fallback answer |
| CalendarCommands.StepKeepsEvents | projects/ai-calendar-agent/calendar_agent.py:125-175 | only an Add with an accepted date and a delete change the calendar |
| CalendarCommands.StepAddAppends | projects/ai-calendar-agent/calendar_agent.py:122-126 | an Add with an accepted date appends one event with the next id, the title and the date; a refused time gives an all-day event; the event is listed on its date |
| CalendarCommands.CallTool | projects/ai-calendar-agent/calendar_agent.py:122-175 | the tool the intent names leaves the calendar and the answer as `Step` describes them |
| CalendarCommands.ProcessCommand | projects/ai-calendar-agent/calendar_agent.py:104-175 | strips the command, classifies it in the source's order, and leaves the calendar and the answer as the chosen tool does |
| CalendarCommands.AddTwoSpacesToday | projects/ai-calendar-agent/calendar_agent.py:112-120 | "add  today" (two spaces) matches with the one-space title and is an Add with the stripped title "", the date token "today" and no time, so the event it adds is titled "" |
| CalendarCommands.AddTodayNoMatch | projects/ai-calendar-agent/calendar_agent.py:112 | "add today" (one space) does not match the Add pattern |
| CalendarCommands.AddMoonToday | projects/ai-calendar-agent/calendar_agent.py:112 | "add moon today" adds the title "mo" for today |
| CalendarCommands.ShowMeTomorrowsSchedule | projects/ai-calendar-agent/calendar_agent.py:133-135 | the commented example "show me tomorrow's schedule" gets the fallback answer |
| CalendarCommands.ShowUpcomingSchedule | projects/ai-calendar-agent/calendar_agent.py:149-150 | the commented example "show upcoming schedule" gets the fallback answer |
| CalendarCommands.WhatsHappeningToday | projects/ai-calendar-agent/calendar_agent.py:132-135 | "what's happening today" views the clock's day |
| CalendarCommands.DeleteEventFive | projects/ai-calendar-agent/calendar_agent.py:154-159 | "delete event 5" deletes id 5 |
| SqlEvaluate.RemoveChar | projects/autonomous-sql-agent/scripts/evaluate.py:11 | `replace(";", "")` leaves no `;` and adds no character |
| SqlEvaluate.RemoveCharCounts | projects/autonomous-sql-agent/scripts/evaluate.py:11 | `replace(";", "")` drops every `;` and keeps every other character as often as it occurs |
| SqlEvaluate.RemoveCharAppend | projects/autonomous-sql-agent/scripts/evaluate.py:11 | `replace(";", "")` keeps the order of the characters it keeps: it distributes over concatenation |
| SqlEvaluate.ReplaceChar | projects/autonomous-sql-agent/scripts/evaluate.py:11 | `replace("\n", " ")` changes exactly the newlines |
| SqlEvaluate.SplitWs | projects/autonomous-sql-agent/scripts/evaluate.py:12 | `split()` gives non-empty tokens without whitespace, made of the text's characters |
| SqlEvaluate.SplitWsSpread | projects/autonomous-sql-agent/scripts/evaluate.py:12 | words laid out between whitespace gaps, with a non-empty gap between neighbours, split back into exactly those words, in order |
| SqlEvaluate.SplitWsGaps | projects/autonomous-sql-agent/scripts/evaluate.py:12 | every text is its `split()` tokens laid out between whitespace gaps: the tokens are the maximal non-whitespace runs, in order |
| SqlEvaluate.NewlinesAsSpaces | projects/autonomous-sql-agent/scripts/evaluate.py:11-12 | turning newlines into spaces changes no token of `split()` |
| SqlEvaluate.SplitJoin | projects/autonomous-sql-agent/scripts/evaluate.py:12 | splitting words joined by single spaces gives the words back |
| SqlEvaluate.JoinSingleSpaced | projects/autonomous-sql-agent/scripts/evaluate.py:12 | words joined by `" "` are single-spaced, with no whitespace at either end |
| SqlEvaluate.JoinOfSplit | projects/autonomous-sql-agent/scripts/evaluate.py:12 | single-spaced text is the join of its own tokens |
| SqlEvaluate.NormalizeSql | projects/autonomous-sql-agent/scripts/evaluate.py:8-12 | a missing or empty query gives ""; the result has no ASCII capital, no `;` and no newline; it is single-spaced; its tokens are those of the lowered query without `;`, with newlines as spaces, which are the same tokens (`NewlinesAsSpaces`) |
| SqlEvaluate.CanonicalIsFixed | projects/autonomous-sql-agent/scripts/evaluate.py:8-12 | text already in canonical form normalizes to itself |
| SqlEvaluate.NormalizeIdempotent | projects/autonomous-sql-agent/scripts/evaluate.py:8-12 | normalizing twice is normalizing once |
| SqlEvaluate.EmptyGuardAgrees | projects/autonomous-sql-agent/scripts/evaluate.py:10 | the early return for "" agrees with the general path |
| SqlEvaluate.NormalizedEqualIff | projects/autonomous-sql-agent/scripts/evaluate.py:52-55 | two answers count as equal exactly when, lowered and without `;`, they have the same tokens |
| SqlEvaluate.FirstOccurrence | projects/autonomous-sql-agent/scripts/evaluate.py:49 | finds the leftmost occurrence at or after a position, or reports that there is none |
| SqlEvaluate.SplitOn | projects/autonomous-sql-agent/scripts/evaluate.py:49 | `split(sep)` gives at least one piece, so `[-1]` always exists |
| SqlEvaluate.SplitOnPieces | projects/autonomous-sql-agent/scripts/evaluate.py:49 | no piece of `split(sep)` contains the separator |
| SqlEvaluate.SplitOnJoin | projects/autonomous-sql-agent/scripts/evaluate.py:49 | joining the pieces with the separator gives the text back |
| SqlEvaluate.SplitOnCount | projects/autonomous-sql-agent/scripts/evaluate.py:49 | there is more than one piece exactly when the separator occurs |
| SqlEvaluate.LastPieceIsTail | projects/autonomous-sql-agent/scripts/evaluate.py:49 | the last piece is a suffix of the text: the whole text when there is one piece, and preceded by the separator when there are several |
| SqlEvaluate.ExtractAnswer | projects/autonomous-sql-agent/scripts/evaluate.py:49 | the answer never contains "assistant", has no whitespace at either end, and is the stripped text when "assistant" does not occur |
| SqlEvaluate.ExtractAnswerIsTail | projects/autonomous-sql-agent/scripts/evaluate.py:49 | the answer is the stripped text after the last "assistant" |

## Left out

- `run_agent`, the interactive loop (input, printing, "exit") is not modelled. It is I/O
  around `process_command`.
- The clock. `date.today()` is the parameter `today` of `ParseDate`, `Step`,
  `ProcessCommand` and `ViewAllUpcomingEvents`.
- CalendarTime.ParseDate: requires `today` to be before 9999-12-31. On that day Python's
  "tomorrow" raises OverflowError, and that exception is not modelled.
- CalendarCommands.ProcessCommand: requires the same of `today`, for the same reason.
- CalendarTime.ParseDate: models `strptime('%Y-%m-%d')` on tokens of four, two and two
  digits only. `strptime` also accepts shorter fields such as `2025-1-5`, but the Add and
  View patterns capture only 4-2-2 tokens, so no other token reaches it.
- Digits. `\d` in the patterns matches any Unicode decimal digit in Python. The model takes
  ASCII digits only, and `strptime` and `int()` are modelled on ASCII digits.
- CalendarCommands.MatchDelete: the id is the value of its digits however many there are.
  Python 3.11 and later (and 3.10.7 and 3.9.14) raise `ValueError` in `int()` for a numeral
  of more than 4300 digits. Nothing in `process_command` catches it, so such a delete
  command ends the agent. The model does not capture this error path: it classifies the
  command as a delete of that id and answers as any delete does.
- SqlEvaluate.NormalizeSql: `lower()` is modelled on ASCII letters only. Python also lowers
  other Unicode capitals, so the "no upper case" property is stated for ASCII capitals.
- CalendarTime.FormatDate: years below 1000 are zero-padded to four digits. The platform's
  `strftime('%Y')` may print them without padding.
- The time value 00:00 is truthy, as from Python 3.5 on. Older versions treated midnight as
  false in the two `if time_obj` tests, and that behaviour is not modelled.
- The regular-expression engine is not modelled in general. Only these three patterns are
  modelled, by the parse predicates and the engine functions that are proved to agree with
  Python's backtracking order.
- The global list. `calendar_events` is the `events` field of a `Calendar` object that is
  passed to `ProcessCommand`. No other code touches the list.
- `main` in evaluate.py is not modelled: the model loading, the generation loop and the
  floating-point accuracy. The rest of the SQL agent (training, deployment, database
  setup, the web demo and the agent script) is not part of this model either.
