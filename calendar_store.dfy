/**
 * The calendar agent's event store: the module-level list `calendar_events` and the four
 * tools that act on it, `add_event_to_calendar`, `view_events_on_date`,
 * `view_all_upcoming_events` and `delete_event_by_id`. The list is the `events` field of a
 * `Calendar` object; each tool is a method, specified by the functions below, which state
 * the store's new contents and the text each tool answers with.
 */
module CalendarStore {
  import opened Wrappers
  import opened PyStr
  import opened CalendarTime
  import opened CalendarEvent
  import opened EventList

  // ---------------------------------------------------------------------------------------
  // Adding and deleting

  /** The list after `add_event_to_calendar`: one more event at the end, whose id is the
      length of the list before it plus one. */
  function WithEvent(events: seq<Event>, title: string, date: Date, time: Option<Time>): seq<Event> {
    events + [Event(|events| + 1, title, date, time)]
  }

  function AddedMessage(title: string, date: Date, time: Option<Time>): string {
    var at := match time
      case Some(t) => " at " + FormatTime(t)
      case None => "";
    "Event '" + title + "' added for " + FormatDate(date) + at + "."
  }

  /** The list `delete_event_by_id` leaves: every event whose id is not `id`, in order. */
  function WithoutId(events: seq<Event>, id: nat): seq<Event> {
    Filter(events, (e: Event) => e.id != id)
  }

  predicate HasId(events: seq<Event>, id: nat) {
    exists i :: 0 <= i < |events| && events[i].id == id
  }

  function DeleteMessage(deleted: bool, id: nat): string {
    if deleted then "Event with ID " + NatToString(id) + " deleted."
    else "No event found with ID " + NatToString(id) + "."
  }

  /** Deleting removes exactly the events with the id, keeps the others in their order,
      shortens the list exactly when some event had the id, and leaves nothing to delete
      a second time. */
  lemma {:induction false} DeleteRemovesExactlyId(events: seq<Event>, id: nat)
    ensures forall e :: e in WithoutId(events, id) <==> e in events && e.id != id
    ensures forall a, b :: WithoutId(a + b, id) == WithoutId(a, id) + WithoutId(b, id)
    ensures |WithoutId(events, id)| < |events| <==> HasId(events, id)
    ensures !HasId(WithoutId(events, id), id)
    ensures WithoutId(WithoutId(events, id), id) == WithoutId(events, id)
  {
    var keep := (e: Event) => e.id != id;
    var r := WithoutId(events, id);
    FilterMembers(events, keep);
    FilterMembers(r, keep);
    forall a, b
      ensures WithoutId(a + b, id) == WithoutId(a, id) + WithoutId(b, id)
    {
      FilterAppend(a, b, keep);
    }
    forall i | 0 <= i < |r|
      ensures keep(r[i])
    {
      assert r[i] in r;
    }
    FilterKeepsAll(r, keep);
  }

  // ---------------------------------------------------------------------------------------
  // Viewing one date

  /** The key `view_events_on_date` sorts by: the event's time, or `time.min` (00:00) for an
      all-day event. */
  function SortTime(e: Event): Time {
    match e.time
    case Some(t) => t
    case None => Midnight
  }

  /** `SortTime` as minutes since midnight. */
  function TimeKey(e: Event): int {
    SortTime(e).hour * 60 + SortTime(e).minute
  }

  /** The integer key orders events exactly as Python compares their `time` keys. */
  lemma TimeKeyOrder(a: Event, b: Event)
    ensures TimeKey(a) < TimeKey(b) <==> TimeBefore(SortTime(a), SortTime(b))
    ensures TimeKey(a) == TimeKey(b) <==> SortTime(a) == SortTime(b)
    ensures 0 <= TimeKey(a) < 1440
  {
  }

  /** `events_on_date`: the events dated `date`, in list order. */
  function OnDate(events: seq<Event>, date: Date): seq<Event> {
    Filter(events, (e: Event) => e.date == date)
  }

  /** The order `view_events_on_date` lists them in. */
  function ListedOn(events: seq<Event>, date: Date): seq<Event> {
    SortByKey(OnDate(events, date), TimeKey)
  }

  /** The line the view tools append for one event. */
  function EventLine(e: Event): string {
    "- " + FormatEvent(e) + "\n"
  }

  /** The lines the view tools build, one per event. */
  function EventLines(es: seq<Event>): string
    decreases |es|
  {
    if es == [] then "" else EventLines(es[..|es| - 1]) + EventLine(es[|es| - 1])
  }

  /** Appending one more line to a response built from a prefix of `es`. */
  lemma EventLinesStep(header: string, es: seq<Event>, i: nat)
    requires i < |es|
    ensures header + EventLines(es[..i + 1]) == (header + EventLines(es[..i])) + EventLine(es[i])
  {
    assert es[..i + 1][..i] == es[..i];
  }

  /** The loop both view tools run: one line per event appended to the header, in order. */
  method AppendLines(header: string, es: seq<Event>) returns (response: string)
    ensures response == header + EventLines(es)
  {
    response := header;
    for i := 0 to |es|
      invariant response == header + EventLines(es[..i])
    {
      EventLinesStep(header, es, i);
      response := response + EventLine(es[i]);
    }
    assert es[..|es|] == es;
  }

  /** What `view_events_on_date` answers. */
  function OnDateResponse(events: seq<Event>, date: Date): string {
    if OnDate(events, date) == [] then "No events found for " + FormatDate(date) + "."
    else Strip("Events for " + FormatDate(date) + ":\n" + EventLines(ListedOn(events, date)))
  }

  /** Viewing a date lists every event with that date and no other, each as often as it is
      stored, ordered by time with all-day events keyed as 00:00, and events with equal keys
      in the order they were added. */
  lemma ListedOnDate(events: seq<Event>, date: Date)
    ensures forall e :: e in ListedOn(events, date) <==> e in events && e.date == date
    ensures multiset(ListedOn(events, date)) == multiset(OnDate(events, date))
    ensures SortedBy(ListedOn(events, date), TimeKey)
    ensures forall v :: KeyClass(ListedOn(events, date), TimeKey, v) == KeyClass(OnDate(events, date), TimeKey, v)
  {
    var l := ListedOn(events, date);
    FilterMembers(events, (e: Event) => e.date == date);
    forall e
      ensures e in l <==> e in OnDate(events, date)
    {
      assert e in l <==> e in multiset(l);
    }
    forall v
      ensures KeyClass(l, TimeKey, v) == KeyClass(OnDate(events, date), TimeKey, v)
    {
      SortStable(OnDate(events, date), TimeKey, v);
    }
  }

  // ---------------------------------------------------------------------------------------
  // Viewing what is upcoming

  /** A day count that is increasing in (year, month, day) on valid dates. */
  function DayNumber(d: Date): int {
    d.year * 372 + d.month * 31 + d.day
  }

  /** The key `view_all_upcoming_events` sorts by, `(date, time or time.min)`, as one integer. */
  function DateTimeKey(e: Event): int {
    DayNumber(e.date) * 1440 + TimeKey(e)
  }

  /** The integer key orders events exactly as Python compares their `(date, time)` tuples. */
  lemma DateTimeKeyOrder(a: Event, b: Event)
    ensures DateTimeKey(a) < DateTimeKey(b) <==>
      DateBefore(a.date, b.date) || (a.date == b.date && TimeBefore(SortTime(a), SortTime(b)))
    ensures DateTimeKey(a) == DateTimeKey(b) <==> a.date == b.date && SortTime(a) == SortTime(b)
  {
    TimeKeyOrder(a, b);
    assert DateBefore(a.date, b.date) <==> DayNumber(a.date) < DayNumber(b.date);
    assert a.date == b.date <==> DayNumber(a.date) == DayNumber(b.date);
  }

  /** `upcoming_events`: the events dated `today` or later, in list order. */
  function Upcoming(events: seq<Event>, today: Date): seq<Event> {
    Filter(events, (e: Event) => !DateBefore(e.date, today))
  }

  function ListedUpcoming(events: seq<Event>, today: Date): seq<Event> {
    SortByKey(Upcoming(events, today), DateTimeKey)
  }

  /** What `view_all_upcoming_events` answers. */
  function UpcomingResponse(events: seq<Event>, today: Date): string {
    if Upcoming(events, today) == [] then "No upcoming events."
    else Strip("Upcoming Events:\n" + EventLines(ListedUpcoming(events, today)))
  }

  /** The upcoming view lists exactly the events dated today or later, ordered by date and
      then time (all-day as 00:00), ties in the order they were added. */
  lemma ListedUpcomingEvents(events: seq<Event>, today: Date)
    ensures forall e :: e in ListedUpcoming(events, today) <==> e in events && !DateBefore(e.date, today)
    ensures multiset(ListedUpcoming(events, today)) == multiset(Upcoming(events, today))
    ensures SortedBy(ListedUpcoming(events, today), DateTimeKey)
    ensures forall v :: KeyClass(ListedUpcoming(events, today), DateTimeKey, v) == KeyClass(Upcoming(events, today), DateTimeKey, v)
  {
    var l := ListedUpcoming(events, today);
    FilterMembers(events, (e: Event) => !DateBefore(e.date, today));
    forall e
      ensures e in l <==> e in Upcoming(events, today)
    {
      assert e in l <==> e in multiset(l);
    }
    forall v
      ensures KeyClass(l, DateTimeKey, v) == KeyClass(Upcoming(events, today), DateTimeKey, v)
    {
      SortStable(Upcoming(events, today), DateTimeKey, v);
    }
  }

  // ---------------------------------------------------------------------------------------
  // Properties across the tools

  /** Without deletions, the ids are 1, 2, 3, ... in list order. */
  predicate NumberedInOrder(events: seq<Event>) {
    forall i :: 0 <= i < |events| ==> events[i].id == i + 1
  }

  /** Adding keeps the numbering: the new event's id is its position plus one, and its id
      is not yet in use. */
  lemma AddKeepsNumbering(events: seq<Event>, title: string, date: Date, time: Option<Time>)
    requires NumberedInOrder(events)
    ensures NumberedInOrder(WithEvent(events, title, date, time))
    ensures !HasId(events, |events| + 1)
  {
  }

  /** An id is `len + 1` at the time of adding, so after a deletion a new event can take an
      id that is still in use: add "a" and "b", delete 1, add "c", and both remaining events
      have id 2; deleting 2 then removes both. */
  lemma IdsCanRepeatAfterDelete(d: Date)
    ensures var s := WithEvent(WithoutId(WithEvent(WithEvent([], "a", d, None), "b", d, None), 1), "c", d, None);
      s == [Event(2, "b", d, None), Event(2, "c", d, None)] && WithoutId(s, 2) == []
  {
    var two := WithEvent(WithEvent([], "a", d, None), "b", d, None);
    assert two == [Event(1, "a", d, None), Event(2, "b", d, None)];
    assert two[1..][1..] == [];
    FilterCons(two, (e: Event) => e.id != 1);
    FilterCons(two[1..], (e: Event) => e.id != 1);
    assert WithoutId(two, 1) == [Event(2, "b", d, None)];
    var s := WithoutId(two, 1) + [Event(2, "c", d, None)];
    assert s == [Event(2, "b", d, None), Event(2, "c", d, None)];
    FilterDropsAll(s, (e: Event) => e.id != 2);
  }

  /** An added event is listed under its date, and among the upcoming events whenever its
      date is not before today. */
  lemma AddedEventIsListed(events: seq<Event>, title: string, date: Date, time: Option<Time>, today: Date)
    ensures Event(|events| + 1, title, date, time) in ListedOn(WithEvent(events, title, date, time), date)
    ensures !DateBefore(date, today) ==>
      Event(|events| + 1, title, date, time) in ListedUpcoming(WithEvent(events, title, date, time), today)
  {
    var after := WithEvent(events, title, date, time);
    var e := after[|events|];
    assert e in after;
    ListedOnDate(after, date);
    ListedUpcomingEvents(after, today);
  }

  /** After a deletion no view lists an event with the deleted id. */
  lemma DeletedIsNotListed(events: seq<Event>, id: nat, date: Date, today: Date)
    ensures forall e :: e in ListedOn(WithoutId(events, id), date) ==> e.id != id
    ensures forall e :: e in ListedUpcoming(WithoutId(events, id), today) ==> e.id != id
  {
    DeleteRemovesExactlyId(events, id);
    ListedOnDate(WithoutId(events, id), date);
    ListedUpcomingEvents(WithoutId(events, id), today);
  }

  /** An event's line ends with its title. */
  lemma LineEndsWithTitle(e: Event)
    ensures |e.title| <= |FormatEvent(e)|
    ensures FormatEvent(e)[|FormatEvent(e)| - |e.title|..] == e.title
  {
    var head := "[" + FormatDate(e.date) + " " + Slot(e.time) + "] ";
    assert FormatEvent(e) == head + e.title;
  }

  /** Stripping a text whose ends are not whitespace, followed by a newline, removes just
      that newline. */
  lemma StripFinalNewline(x: string)
    requires x != [] && !IsSpace(x[0]) && !IsSpace(x[|x| - 1])
    ensures Strip(x + "\n") == x
  {
    var s := x + "\n";
    var r := Strip(s);
    assert SpaceEnd(s, 0) == 0;
    assert !IsSpace(s[|x| - 1]) && IsSpace(s[|x|]);
    forall k | |r| <= k < |s|
      ensures IsSpace(s[k])
    {
      assert s[|r|..][k - |r|] == s[k];
    }
    assert |r| >= |x|;
    assert r[|r| - 1] == s[|r| - 1];
    assert |r| == |x|;
  }

  /** A response made of a header and the lines of `es`, stripped, loses only its final
      newline when the last title ends in a non-space character. */
  lemma StripLines(header: string, es: seq<Event>)
    requires header != [] && !IsSpace(header[0])
    requires es != [] && LastTitleEndsVisibly(es)
    ensures Strip(header + EventLines(es)) + "\n" == header + EventLines(es)
  {
    var t := es[|es| - 1].title;
    assert t != [] && !IsSpace(t[|t| - 1]);
    var front, f := LastLine(es);
    var whole := header + EventLines(es);
    assert whole == header + (front + ("- " + f + "\n"));
    StripAfterLine(header, front, f, t, whole);
  }

  /** The lines of `es` end with the last event's line, whose text ends with its title. */
  lemma LastLine(es: seq<Event>) returns (front: string, f: string)
    requires es != []
    ensures EventLines(es) == front + ("- " + f + "\n")
    ensures |es[|es| - 1].title| <= |f| && f[|f| - |es[|es| - 1].title|..] == es[|es| - 1].title
  {
    var e := es[|es| - 1];
    front := EventLines(es[..|es| - 1]);
    f := FormatEvent(e);
    LineEndsWithTitle(e);
  }

  /** The same on plain strings: a last line `- f` whose text f ends with a title t that ends
      in a non-space character. */
  lemma StripAfterLine(header: string, front: string, f: string, t: string, whole: string)
    requires header != [] && !IsSpace(header[0])
    requires t != [] && !IsSpace(t[|t| - 1]) && |t| <= |f| && f[|f| - |t|..] == t
    requires whole == header + (front + ("- " + f + "\n"))
    ensures Strip(whole) + "\n" == whole
  {
    var x := header + front + ("- " + f);
    Concat4(header, front, "- " + f);
    assert !IsSpace(f[|f| - 1]) by {
      assert f[|f| - 1] == f[|f| - |t|..][|t| - 1];
    }
    assert x[|x| - 1] == f[|f| - 1];
    assert x[0] == header[0];
    StripFinalNewline(x);
  }

  lemma Concat4(a: string, b: string, c: string)
    ensures a + (b + (c + "\n")) == (a + b + c) + "\n"
  {
  }

  predicate LastTitleEndsVisibly(es: seq<Event>) {
    es != [] && var t := es[|es| - 1].title; t != [] && !IsSpace(t[|t| - 1])
  }

  /** When the last event listed has a title that ends in a non-space character, the view's
      answer is the header and one line per listed event, without the final newline. */
  lemma OnDateResponseLines(events: seq<Event>, date: Date)
    requires OnDate(events, date) != [] && LastTitleEndsVisibly(ListedOn(events, date))
    ensures OnDateResponse(events, date) + "\n" == "Events for " + FormatDate(date) + ":\n" + EventLines(ListedOn(events, date))
  {
    StripLines("Events for " + FormatDate(date) + ":\n", ListedOn(events, date));
  }

  /** The same for the upcoming view. */
  lemma UpcomingResponseLines(events: seq<Event>, today: Date)
    requires Upcoming(events, today) != [] && LastTitleEndsVisibly(ListedUpcoming(events, today))
    ensures UpcomingResponse(events, today) + "\n" == "Upcoming Events:\n" + EventLines(ListedUpcoming(events, today))
  {
    StripLines("Upcoming Events:\n", ListedUpcoming(events, today));
  }

  // ---------------------------------------------------------------------------------------
  // The store

  /** The module-level list `calendar_events` and the tools that use it. */
  class Calendar {
    var events: seq<Event>

    /** `calendar_events = []` when the module loads. */
    constructor ()
      ensures events == []
    {
      events := [];
    }

    /** `add_event_to_calendar(title, date_obj, time_obj)`. */
    method AddEvent(title: string, date: Date, time: Option<Time>) returns (response: string)
      modifies this
      ensures events == WithEvent(old(events), title, date, time)
      ensures response == AddedMessage(title, date, time)
    {
      var event := Event(|events| + 1, title, date, time);
      events := events + [event];
      var at := match time
        case Some(t) => " at " + FormatTime(t)
        case None => "";
      response := "Event '" + title + "' added for " + FormatDate(date) + at + ".";
    }

    /** `view_events_on_date(date_obj)`. */
    method ViewEventsOnDate(date: Date) returns (response: string)
      ensures response == OnDateResponse(events, date)
    {
      var onDate := OnDate(events, date);
      if onDate == [] {
        return "No events found for " + FormatDate(date) + ".";
      }
      var header := "Events for " + FormatDate(date) + ":\n";
      var ordered := SortByKey(onDate, TimeKey);
      response := AppendLines(header, ordered);
      response := Strip(response);
    }

    /** `view_all_upcoming_events()`, with the clock's `date.today()` passed in as `today`. */
    method ViewAllUpcomingEvents(today: Date) returns (response: string)
      ensures response == UpcomingResponse(events, today)
    {
      var upcoming := Upcoming(events, today);
      if upcoming == [] {
        return "No upcoming events.";
      }
      var header := "Upcoming Events:\n";
      var ordered := SortByKey(upcoming, DateTimeKey);
      response := AppendLines(header, ordered);
      response := Strip(response);
    }

    /** `delete_event_by_id(event_id)`: the answer says "deleted" exactly when some event
        had the id. */
    method DeleteEventById(id: nat) returns (response: string)
      modifies this
      ensures events == WithoutId(old(events), id)
      ensures response == DeleteMessage(HasId(old(events), id), id)
    {
      DeleteRemovesExactlyId(events, id);
      var initialLength := |events|;
      events := WithoutId(events, id);
      if |events| < initialLength {
        response := "Event with ID " + NatToString(id) + " deleted.";
      } else {
        response := "No event found with ID " + NatToString(id) + ".";
      }
    }
  }
}
