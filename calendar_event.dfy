/**
 * The calendar agent's event record (the dict built by `add_event_to_calendar`) and its
 * one-line rendering `format_event`, with the reading that recovers an event's date, time
 * and title from that line.
 */
module CalendarEvent {
  import opened Wrappers
  import opened PyStr
  import opened CalendarTime

  /** One entry of the module-level list `calendar_events`. `time == None` is an all-day
      event. */
  datatype Event = Event(id: nat, title: string, date: Date, time: Option<Time>)

  /** What a rendered event line shows: its date, its time (or all day) and its title. */
  datatype Shown = Shown(date: Date, time: Option<Time>, title: string)

  /** `format_event`: `[YYYY-MM-DD HH:MM] title`, or `[YYYY-MM-DD All Day] title` for an
      event without a time. */
  function FormatEvent(e: Event): string {
    "[" + FormatDate(e.date) + " " + (Slot(e.time) + "] " + e.title)
  }

  /** The time part of an event line. */
  function Slot(time: Option<Time>): string {
    match time
    case Some(t) => FormatTime(t)
    case None => "All Day"
  }

  /** The line shows the event's date, time and title unaltered: reading it back gives them. */
  lemma EventLineReadsBack(e: Event)
    ensures ReadEventLine(FormatEvent(e)) == Some(Shown(e.date, e.time, e.title))
  {
    var tail := Slot(e.time) + "] " + e.title;
    ReadHead(e.date, FormatDate(e.date), tail, FormatEvent(e));
    ReadSlotBack(e, Slot(e.time), tail);
  }

  lemma ReadHead(d: Date, ds: string, tail: string, r: string)
    requires IsDateDigits(ds) && TokenDate(ds) == d
    requires r == "[" + ds + " " + tail
    ensures ReadEventLine(r) == ReadSlot(d, tail)
  {
    assert |ds| == 10;
    assert r[1..11] == ds;
    assert r[0] == '[' && r[11] == ' ';
    assert r[12..] == tail;
  }

  lemma ReadSlotBack(e: Event, slot: string, tail: string)
    requires slot == Slot(e.time)
    requires tail == slot + "] " + e.title
    ensures ReadSlot(e.date, tail) == Some(Shown(e.date, e.time, e.title))
  {
    match e.time
    case Some(t) =>
      TimeRoundTrip(t);
      assert tail[..5] == FormatTime(t) && tail[5..7] == "] " && tail[7..] == e.title;
      assert IsDigit(tail[0]);
      assert |tail| >= 9 ==> tail[..9][0] == tail[0];
    case None =>
      assert tail[..9] == "All Day] " && tail[9..] == e.title;
  }

  /** Reads a line in the shape `format_event` writes, or `None`. */
  function ReadEventLine(line: string): Option<Shown> {
    if |line| < 12 || line[0] != '[' || !IsDateDigits(line[1..11]) || line[11] != ' '
      || !IsValidDate(TokenDate(line[1..11]))
    then None
    else ReadSlot(TokenDate(line[1..11]), line[12..])
  }

  /** Reads the part after the date: "All Day] " or a time and "] ", then the title. */
  function ReadSlot(d: Date, rest: string): Option<Shown> {
    if |rest| >= 9 && rest[..9] == "All Day] " then Some(Shown(d, None, rest[9..]))
    else if |rest| >= 7 && rest[5..7] == "] " && ParseTime(rest[..5]).Some? then
      Some(Shown(d, ParseTime(rest[..5]), rest[7..]))
    else None
  }
}
