/**
 * `generate_event_block`: one VEVENT component (section 3.6.1 of RFC 5545)
 * from 09:00 to 09:30 local time on the given date, with one VALARM
 * (section 3.6.6) whose TRIGGER (section 3.8.6.3) fires 15 minutes before the
 * start. The identifier from `uuid.uuid4()` and the `datetime.now()` stamp
 * are parameters.
 */
module Event {
  import opened Wrappers
  import opened Text
  import opened Calendar
  import opened IcsDate
  import opened Components

  /** The zone every DTSTART and DTEND refers to, which the document's VTIMEZONE defines. */
  const TimeZoneId := "America/Sao_Paulo"
  const StartName := "DTSTART;TZID=America/Sao_Paulo:"
  const EndName := "DTEND;TZID=America/Sao_Paulo:"
  const ReminderTrigger := "TRIGGER;RELATED=START:-PT15M"

  /** `start_date.replace(hour=9, minute=0, second=0)`: the same date, at 09:00:00. */
  function StartOf(date: Instant): (r: Instant)
    ensures (r.year, r.month, r.day) == (date.year, date.month, date.day)
    ensures SecondOfDay(r) == 9 * 3600
  {
    DateTime(date.year, date.month, date.day, 9, 0, 0)
  }

  /** `start_event + timedelta(minutes=30)`, which `EventWindow` proves it is: the same date, at 09:30:00. */
  function EndOf(date: Instant): (r: Instant)
    ensures (r.year, r.month, r.day) == (date.year, date.month, date.day)
    ensures SecondOfDay(r) == 9 * 3600 + 30 * 60
  {
    DateTime(date.year, date.month, date.day, 9, 30, 0)
  }

  /**
   * The event keeps the date it was given and runs from 09:00:00 to 09:30:00
   * that day: adding thirty minutes to the start never overflows, lands on
   * the end, moves 1800 seconds along the time line, and so comes after it.
   */
  lemma EventWindow(date: Instant)
    ensures var start := StartOf(date);
      (start.year, start.month, start.day, start.hour, start.minute, start.second)
        == (date.year, date.month, date.day, 9, 0, 0)
    ensures AddSeconds(StartOf(date), 30 * 60) == Some(EndOf(date))
    ensures Timestamp(EndOf(date)) == Timestamp(StartOf(date)) + 30 * 60
    ensures Before(StartOf(date), EndOf(date))
  {
    AddSecondsTimestamp(StartOf(date), 30 * 60);
    BeforeIsEarlier(StartOf(date), EndOf(date));
  }

  /** The VALARM of every event: show a reminder 15 minutes before the start. */
  const AlarmProperties: seq<string> := [
    "ACTION:DISPLAY",
    ReminderTrigger,
    "DESCRIPTION:Lembrete gerado via script CSV"
  ]

  /** The VEVENT's own properties, given the text of the five that vary. */
  function EventProperties(uid: string, stamp: string, start: string, end: string, subject: string): seq<string> {
    [ "UID:" + uid,
      "DTSTAMP:" + stamp,
      StartName + start,
      EndName + end,
      "SUMMARY:" + subject,
      "STATUS:CONFIRMED",
      "CLASS:PUBLIC" ]
  }

  /** The fourteen lines of a block: the VEVENT with its properties and then its VALARM. */
  function EventLines(uid: string, stamp: string, start: string, end: string, subject: string): (lines: seq<string>)
    ensures |lines| == 14
  {
    Component("VEVENT", EventProperties(uid, stamp, start, end, subject) + Component("VALARM", AlarmProperties))
  }

  /** `generate_event_block(subject, start_date)` with `uuid4()` as `uid` and `datetime.now()` as `stamp`. */
  function EventBlock(subject: string, date: Instant, uid: string, stamp: Instant): (lines: seq<string>)
    ensures |lines| == 14
  {
    EventLines(uid, FormatIcsDate(stamp), FormatIcsDate(StartOf(date)), FormatIcsDate(EndOf(date)), subject)
  }

  /** `x` occurs in `lines` at index `j` and nowhere else. */
  predicate OnlyAt(lines: seq<string>, x: string, j: int) {
    0 <= j < |lines| && lines[j] == x && forall k :: 0 <= k < |lines| && lines[k] == x ==> k == j
  }

  /** Where each part of a block sits. */
  lemma EventLinesLayout(uid: string, stamp: string, start: string, end: string, subject: string)
    ensures var lines := EventLines(uid, stamp, start, end, subject);
      && lines[0] == Begin("VEVENT") && lines[1..8] == EventProperties(uid, stamp, start, end, subject)
      && lines[8] == Begin("VALARM") && lines[9..12] == AlarmProperties
      && lines[12] == End("VALARM") && lines[13] == End("VEVENT")
  {
    var props := EventProperties(uid, stamp, start, end, subject);
    var alarm := Component("VALARM", AlarmProperties);
    var lines := EventLines(uid, stamp, start, end, subject);
    assert lines == [Begin("VEVENT")] + props + alarm + [End("VEVENT")];
    assert lines[8..13] == alarm;
  }

  /** Every line of a block other than its BEGIN and END lines is a property line. */
  lemma EventPropertiesAreProperties(uid: string, stamp: string, start: string, end: string, subject: string)
    ensures var props := EventProperties(uid, stamp, start, end, subject);
      (forall k :: 0 <= k < |props| ==> IsProperty(props[k]))
      && (forall k :: 0 <= k < |AlarmProperties| ==> IsProperty(AlarmProperties[k]))
  {
    var props := EventProperties(uid, stamp, start, end, subject);
    assert props[0][0] == 'U' && props[1][0] == 'D' && props[2][0] == 'D' && props[3][0] == 'D';
    assert props[4][0] == 'S' && props[5][0] == 'S' && props[6][0] == 'C';
    assert AlarmProperties[0][0] == 'A' && AlarmProperties[1][0] == 'T' && AlarmProperties[2][0] == 'D';
  }

  /**
   * A block is one VEVENT, opened on its first line and closed on its last
   * and nowhere else, and one VALARM inside it holding the 15-minute
   * trigger; this holds whatever the identifier and the subject are.
   */
  lemma EventLinesShape(uid: string, stamp: string, start: string, end: string, subject: string)
    ensures var lines := EventLines(uid, stamp, start, end, subject);
      && OnlyAt(lines, Begin("VEVENT"), 0) && OnlyAt(lines, End("VEVENT"), 13)
      && OnlyAt(lines, Begin("VALARM"), 8) && OnlyAt(lines, End("VALARM"), 12)
      && OnlyAt(lines, ReminderTrigger, 10)
  {
    var lines := EventLines(uid, stamp, start, end, subject);
    EventLinesLayout(uid, stamp, start, end, subject);
    EventPropertiesAreProperties(uid, stamp, start, end, subject);
    assert forall k :: 1 <= k < 8 ==> IsProperty(lines[k]) by {
      forall k | 1 <= k < 8 ensures IsProperty(lines[k]) {
        assert lines[k] == lines[1..8][k - 1];
      }
    }
    assert forall k :: 9 <= k < 12 ==> IsProperty(lines[k]) by {
      forall k | 9 <= k < 12 ensures IsProperty(lines[k]) {
        assert lines[k] == lines[9..12][k - 9];
      }
    }
    assert lines[0][7] == 'E' && lines[8][7] == 'A' && lines[12][5] == 'A' && lines[13][5] == 'E';
    assert lines[10] == ReminderTrigger && lines[9][0] == 'A' && lines[11][0] == 'D';
  }

  /** How many components of a name one block begins. */
  function BeginsPerBlock(name: string): nat {
    if name == "VEVENT" || name == "VALARM" then 1 else 0
  }

  /** A block begins one VEVENT and one VALARM, and no other component. */
  lemma EventLinesBegins(uid: string, stamp: string, start: string, end: string, subject: string, name: string)
    ensures multiset(EventLines(uid, stamp, start, end, subject))[Begin(name)] == BeginsPerBlock(name)
  {
    var props := EventProperties(uid, stamp, start, end, subject);
    EventPropertiesAreProperties(uid, stamp, start, end, subject);
    PropertiesBeginNothing(props, name);
    PropertiesBeginNothing(AlarmProperties, name);
    ComponentBegins("VALARM", AlarmProperties, name);
    ComponentBegins("VEVENT", props + Component("VALARM", AlarmProperties), name);
  }

  /** A block closes every component it opens. */
  lemma NestEventLines(uid: string, stamp: string, start: string, end: string, subject: string, open: seq<string>)
    ensures Nest(EventLines(uid, stamp, start, end, subject), open) == Some(open)
  {
    var inner := open + ["VEVENT"];
    var props := EventProperties(uid, stamp, start, end, subject);
    EventPropertiesAreProperties(uid, stamp, start, end, subject);
    NestProperties(props, inner);
    NestLeaf("VALARM", AlarmProperties, inner);
    NestAppend(props, Component("VALARM", AlarmProperties), inner);
    NestWrap("VEVENT", props + Component("VALARM", AlarmProperties), open);
  }

  lemma PropertiesNoCr(uid: string, stamp: string, start: string, end: string, subject: string)
    requires '\r' !in uid && '\r' !in stamp && '\r' !in start && '\r' !in end && '\r' !in subject
    ensures NoCarriageReturn(EventProperties(uid, stamp, start, end, subject))
  {
  }

  lemma AlarmPropertiesNoCr()
    ensures NoCarriageReturn(AlarmProperties)
  {
  }

  lemma AlarmNoCr()
    ensures NoCarriageReturn(Component("VALARM", AlarmProperties))
  {
    AlarmPropertiesNoCr();
    ComponentNoCr("VALARM", AlarmProperties);
  }

  /** A block holds a carriage return only where one of the texts it is given does. */
  lemma EventLinesNoCr(uid: string, stamp: string, start: string, end: string, subject: string)
    requires '\r' !in uid && '\r' !in stamp && '\r' !in start && '\r' !in end && '\r' !in subject
    ensures NoCarriageReturn(EventLines(uid, stamp, start, end, subject))
  {
    var props := EventProperties(uid, stamp, start, end, subject);
    PropertiesNoCr(uid, stamp, start, end, subject);
    AlarmNoCr();
    NoCarriageReturnAppend(props, Component("VALARM", AlarmProperties));
    ComponentNoCr("VEVENT", props + Component("VALARM", AlarmProperties));
  }

  /** The block of an event holds a carriage return only where its identifier or subject does. */
  lemma EventBlockNoCr(subject: string, date: Instant, uid: string, stamp: Instant)
    requires '\r' !in uid && '\r' !in subject
    ensures NoCarriageReturn(EventBlock(subject, date, uid, stamp))
  {
    FormattedHasNoCr(stamp);
    FormattedHasNoCr(StartOf(date));
    FormattedHasNoCr(EndOf(date));
    EventLinesNoCr(uid, FormatIcsDate(stamp), FormatIcsDate(StartOf(date)), FormatIcsDate(EndOf(date)), subject);
  }

  /** What a calendar importing the block reads back from it. */
  datatype EventView = EventView(uid: string, stamp: Instant, start: Instant, end: Instant, summary: string)

  /** The rest of the first line that starts with `name`, the way a reader looks a property up. */
  function Lookup(lines: seq<string>, name: string): Option<string>
  {
    if lines == [] then None
    else if name <= lines[0] then Some(lines[0][|name|..])
    else Lookup(lines[1..], name)
  }

  /** Reads a VEVENT: the identifier, stamp, start, end and summary, each found by its property name. */
  function ReadEvent(lines: seq<string>): Option<EventView>
  {
    if |lines| < 2 || lines[0] != "BEGIN:VEVENT" || lines[|lines| - 1] != "END:VEVENT" then
      None
    else
      var uid := Lookup(lines, "UID:");
      var stamp := Lookup(lines, "DTSTAMP:");
      var start := Lookup(lines, StartName);
      var end := Lookup(lines, EndName);
      var summary := Lookup(lines, "SUMMARY:");
      if uid.None? || stamp.None? || start.None? || end.None? || summary.None? then
        None
      else
        var st := ParseIcsDate(stamp.value);
        var s := ParseIcsDate(start.value);
        var e := ParseIcsDate(end.value);
        if st.None? || s.None? || e.None? then None
        else Some(EventView(uid.value, st.value, s.value, e.value, summary.value))
  }

  lemma {:induction false} LookupAt(lines: seq<string>, name: string, j: nat)
    requires j < |lines| && name <= lines[j]
    requires forall i :: 0 <= i < j ==> !(name <= lines[i])
    ensures Lookup(lines, name) == Some(lines[j][|name|..])
  {
    if j > 0 {
      assert !(name <= lines[0]);
      LookupAt(lines[1..], name, j - 1);
    }
  }

  /** Each property of a block is found again under its own name, whatever the other values are. */
  lemma LookupUid(uid: string, stamp: string, start: string, end: string, subject: string)
    ensures Lookup(EventLines(uid, stamp, start, end, subject), "UID:") == Some(uid)
  {
    var lines := EventLines(uid, stamp, start, end, subject);
    assert lines[0][0] == 'B' && lines[1][..4] == "UID:";
    LookupAt(lines, "UID:", 1);
  }

  lemma LookupStamp(uid: string, stamp: string, start: string, end: string, subject: string)
    ensures Lookup(EventLines(uid, stamp, start, end, subject), "DTSTAMP:") == Some(stamp)
  {
    var lines := EventLines(uid, stamp, start, end, subject);
    assert lines[0][0] == 'B' && lines[1][0] == 'U';
    assert lines[2][..8] == "DTSTAMP:";
    LookupAt(lines, "DTSTAMP:", 2);
  }

  lemma LookupStart(uid: string, stamp: string, start: string, end: string, subject: string)
    ensures Lookup(EventLines(uid, stamp, start, end, subject), StartName) == Some(start)
  {
    var lines := EventLines(uid, stamp, start, end, subject);
    assert lines[1][0] == 'U' && lines[2][5] == 'M';
    LookupAt(lines, StartName, 3);
  }

  lemma LookupEnd(uid: string, stamp: string, start: string, end: string, subject: string)
    ensures Lookup(EventLines(uid, stamp, start, end, subject), EndName) == Some(end)
  {
    var lines := EventLines(uid, stamp, start, end, subject);
    assert lines[1][0] == 'U' && lines[2][2] == 'S' && lines[3][2] == 'S';
    LookupAt(lines, EndName, 4);
  }

  lemma LookupSummary(uid: string, stamp: string, start: string, end: string, subject: string)
    ensures Lookup(EventLines(uid, stamp, start, end, subject), "SUMMARY:") == Some(subject)
  {
    var lines := EventLines(uid, stamp, start, end, subject);
    assert lines[0][0] == 'B' && lines[1][0] == 'U' && lines[2][0] == 'D' && lines[3][0] == 'D' && lines[4][0] == 'D';
    assert lines[5][..8] == "SUMMARY:";
    LookupAt(lines, "SUMMARY:", 5);
  }

  /** Reading a block whose three date-time texts are readable gives back each of its five values. */
  lemma ReadEventLines(uid: string, stamp: string, start: string, end: string, subject: string)
    requires ParseIcsDate(stamp).Some? && ParseIcsDate(start).Some? && ParseIcsDate(end).Some?
    ensures ReadEvent(EventLines(uid, stamp, start, end, subject))
         == Some(EventView(uid, ParseIcsDate(stamp).value, ParseIcsDate(start).value, ParseIcsDate(end).value, subject))
  {
    EventLinesLayout(uid, stamp, start, end, subject);
    LookupUid(uid, stamp, start, end, subject);
    LookupStamp(uid, stamp, start, end, subject);
    LookupStart(uid, stamp, start, end, subject);
    LookupEnd(uid, stamp, start, end, subject);
    LookupSummary(uid, stamp, start, end, subject);
  }

  /**
   * Reading a generated block gives back everything it was built from:
   * identifier, stamp, the 09:00 start and 09:30 end on the given date, and
   * the subject.
   */
  lemma ReadEventBlock(subject: string, date: Instant, uid: string, stamp: Instant)
    ensures ReadEvent(EventBlock(subject, date, uid, stamp))
         == Some(EventView(uid, stamp, StartOf(date), EndOf(date), subject))
  {
    FormatThenParse(stamp);
    FormatThenParse(StartOf(date));
    FormatThenParse(EndOf(date));
    ReadEventLines(uid, FormatIcsDate(stamp), FormatIcsDate(StartOf(date)), FormatIcsDate(EndOf(date)), subject);
  }

  /** One row's contribution: the subject it resolved to and the date it parsed to. */
  datatype Entry = Entry(subject: string, date: Instant)

  /** The lines of the blocks one after the other. */
  function Concat(blocks: seq<seq<string>>): seq<string>
  {
    if blocks == [] then [] else Concat(blocks[..|blocks| - 1]) + blocks[|blocks| - 1]
  }

  /** When every block has fourteen lines, the k-th group of fourteen lines is the k-th block. */
  lemma {:induction false} ConcatAt(blocks: seq<seq<string>>, k: nat)
    requires forall i :: 0 <= i < |blocks| ==> |blocks[i]| == 14
    requires k < |blocks|
    ensures |Concat(blocks)| == 14 * |blocks|
    ensures Concat(blocks)[14 * k..14 * k + 14] == blocks[k]
  {
    var n := |blocks| - 1;
    var init := Concat(blocks[..n]);
    if k < n {
      ConcatAt(blocks[..n], k);
      assert Concat(blocks)[14 * k..14 * k + 14] == init[14 * k..14 * k + 14];
    } else if n > 0 {
      ConcatAt(blocks[..n], 0);
    }
  }

  /** The block the k-th entry gets: the k-th identifier and the k-th clock reading. */
  function BlockOf(entries: seq<Entry>, uidOf: nat -> string, clockAt: nat -> Instant, k: nat): seq<string>
    requires k < |entries|
  {
    EventBlock(entries[k].subject, entries[k].date, uidOf(k), clockAt(k))
  }

  /** One block per entry, in order: fourteen lines per entry, none for no entry. */
  function Blocks(entries: seq<Entry>, uidOf: nat -> string, clockAt: nat -> Instant): (lines: seq<string>)
    ensures |lines| == 14 * |entries|
  {
    var blocks := seq(|entries|, k requires 0 <= k < |entries| => BlockOf(entries, uidOf, clockAt, k));
    if entries == [] then
      Concat(blocks)
    else
      ConcatAt(blocks, 0);
      Concat(blocks)
  }

  /** The lines hold fourteen per entry, and the k-th group of fourteen is the block of the k-th entry. */
  lemma BlockAt(entries: seq<Entry>, uidOf: nat -> string, clockAt: nat -> Instant, k: nat)
    requires k < |entries|
    ensures |Blocks(entries, uidOf, clockAt)| == 14 * |entries|
    ensures Blocks(entries, uidOf, clockAt)[14 * k..14 * k + 14] == BlockOf(entries, uidOf, clockAt, k)
  {
    ConcatAt(seq(|entries|, k requires 0 <= k < |entries| => BlockOf(entries, uidOf, clockAt, k)), k);
  }

  /** A further entry appends its block, which takes the next identifier and clock reading. */
  lemma BlocksAppend(entries: seq<Entry>, e: Entry, uidOf: nat -> string, clockAt: nat -> Instant)
    ensures Blocks(entries + [e], uidOf, clockAt)
         == Blocks(entries, uidOf, clockAt) + EventBlock(e.subject, e.date, uidOf(|entries|), clockAt(|entries|))
  {
    var es := entries + [e];
    var bs := seq(|es|, k requires 0 <= k < |es| => BlockOf(es, uidOf, clockAt, k));
    assert bs[..|entries|] == seq(|entries|, k requires 0 <= k < |entries| => BlockOf(entries, uidOf, clockAt, k));
  }
}
