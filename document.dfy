/**
 * `generate_ics_structure`: the VCALENDAR object (section 3.4 of RFC 5545)
 * around the event lines, with its fixed properties and the one VTIMEZONE
 * for America/Sao_Paulo (UTC-03:00 all year, no daylight saving time).
 */
module Document {
  import opened Wrappers
  import opened Text
  import opened Calendar
  import opened IcsDate
  import opened Components
  import opened Event

  /** Producer, version, method and display name of the calendar. */
  const CalendarProperties: seq<string> := [
    "PRODID:-//CSV-to-ICS//Github//PT-BR",
    "VERSION:2.0",
    "METHOD:PUBLISH",
    "X-WR-CALNAME:Eventos Importados"
  ]

  /** Standard time since 1601, three hours behind UTC. */
  const StandardProperties: seq<string> := [
    "DTSTART:16010101T000000",
    "TZOFFSETTO:-0300",
    "TZOFFSETFROM:-0300",
    "TZNAME:-03"
  ]

  /** The VTIMEZONE that every event's TZID refers to. */
  const TimeZone: seq<string> :=
    Component("VTIMEZONE", ["TZID:" + TimeZoneId] + Component("STANDARD", StandardProperties))

  /** The fourteen lines `generate_ics_structure` puts before the events. */
  const Header: seq<string> := [Begin("VCALENDAR")] + CalendarProperties + TimeZone

  /** The line it puts after them. */
  const Footer: string := End("VCALENDAR")

  /** `generate_ics_structure(events_content)`. */
  function IcsStructure(events: seq<string>): (doc: seq<string>)
    ensures |doc| == |events| + 15
  {
    Header + events + [Footer]
  }

  /** The document is one VCALENDAR holding the calendar properties, the time zone and then the events, unchanged. */
  lemma IcsStructureIsCalendar(events: seq<string>)
    ensures IcsStructure(events) == Component("VCALENDAR", CalendarProperties + TimeZone + events)
  {
  }

  lemma HeaderLinesAreProperties()
    ensures forall k :: 0 <= k < |CalendarProperties| ==> IsProperty(CalendarProperties[k])
    ensures forall k :: 0 <= k < |StandardProperties| ==> IsProperty(StandardProperties[k])
    ensures IsProperty("TZID:" + TimeZoneId)
  {
    assert CalendarProperties[0][0] == 'P' && CalendarProperties[1][0] == 'V';
    assert CalendarProperties[2][0] == 'M' && CalendarProperties[3][0] == 'X';
    assert StandardProperties[0][0] == 'D' && StandardProperties[1][0] == 'T';
    assert StandardProperties[2][0] == 'T' && StandardProperties[3][0] == 'T';
    assert ("TZID:" + TimeZoneId)[0] == 'T';
  }

  /** The time zone closes everything it opens. */
  lemma NestTimeZone(open: seq<string>)
    ensures Nest(TimeZone, open) == Some(open)
  {
    var inner := open + ["VTIMEZONE"];
    HeaderLinesAreProperties();
    NestProperties(["TZID:" + TimeZoneId], inner);
    NestLeaf("STANDARD", StandardProperties, inner);
    NestAppend(["TZID:" + TimeZoneId], Component("STANDARD", StandardProperties), inner);
    NestWrap("VTIMEZONE", ["TZID:" + TimeZoneId] + Component("STANDARD", StandardProperties), open);
  }

  /** Any number of blocks closes everything it opens. */
  lemma {:induction false} NestBlocks(entries: seq<Entry>, uidOf: nat -> string, clockAt: nat -> Instant, open: seq<string>)
    ensures Nest(Blocks(entries, uidOf, clockAt), open) == Some(open)
    decreases |entries|
  {
    if entries == [] {
      assert Blocks(entries, uidOf, clockAt) == [];
    } else {
      var n := |entries| - 1;
      var e := entries[n];
      assert entries == entries[..n] + [e];
      BlocksAppend(entries[..n], e, uidOf, clockAt);
      NestBlocks(entries[..n], uidOf, clockAt, open);
      NestEventLines(uidOf(n), FormatIcsDate(clockAt(n)), FormatIcsDate(StartOf(e.date)), FormatIcsDate(EndOf(e.date)), e.subject, open);
      NestAppend(Blocks(entries[..n], uidOf, clockAt), EventBlock(e.subject, e.date, uidOf(n), clockAt(n)), open);
    }
  }

  /** Around balanced event lines the document is balanced. */
  lemma NestStructure(events: seq<string>)
    requires Nest(events, ["VCALENDAR"]) == Some(["VCALENDAR"])
    ensures Nest(IcsStructure(events), []) == Some([])
  {
    var open: seq<string> := ["VCALENDAR"];
    HeaderLinesAreProperties();
    NestProperties(CalendarProperties, open);
    NestTimeZone(open);
    NestAppend(CalendarProperties, TimeZone, open);
    assert Nest(CalendarProperties + TimeZone, open) == Some(open);
    NestAppend(CalendarProperties + TimeZone, events, open);
    assert [] + open == open;
    NestWrap("VCALENDAR", CalendarProperties + TimeZone + events, []);
    IcsStructureIsCalendar(events);
  }

  /** The whole document is balanced: every BEGIN has its END, in the right order, and nothing stays open. */
  lemma DocumentNests(entries: seq<Entry>, uidOf: nat -> string, clockAt: nat -> Instant)
    ensures Nest(IcsStructure(Blocks(entries, uidOf, clockAt)), []) == Some([])
  {
    NestBlocks(entries, uidOf, clockAt, ["VCALENDAR"]);
    NestStructure(Blocks(entries, uidOf, clockAt));
  }

  /** The event lines begin, for each component name, as many as one block does times the number of entries. */
  lemma {:induction false} BlocksBegins(entries: seq<Entry>, uidOf: nat -> string, clockAt: nat -> Instant, name: string)
    ensures multiset(Blocks(entries, uidOf, clockAt))[Begin(name)] == |entries| * BeginsPerBlock(name)
    decreases |entries|
  {
    if entries != [] {
      var n := |entries| - 1;
      var e := entries[n];
      var init := Blocks(entries[..n], uidOf, clockAt);
      var last := EventBlock(e.subject, e.date, uidOf(n), clockAt(n));
      assert entries == entries[..n] + [e];
      BlocksAppend(entries[..n], e, uidOf, clockAt);
      var per := BeginsPerBlock(name);
      BlocksBegins(entries[..n], uidOf, clockAt, name);
      EventLinesBegins(uidOf(n), FormatIcsDate(clockAt(n)), FormatIcsDate(StartOf(e.date)), FormatIcsDate(EndOf(e.date)), e.subject, name);
      assert multiset(last)[Begin(name)] == per;
      assert multiset(init + last)[Begin(name)] == n * per + per;
      assert n * per + per == (n + 1) * per;
    }
  }

  /** The time zone begins itself and its standard time, once each. */
  lemma TimeZoneBegins(name: string)
    ensures multiset(TimeZone)[Begin(name)] == (if name == "VTIMEZONE" then 1 else 0) + (if name == "STANDARD" then 1 else 0)
  {
    var tz := ["TZID:" + TimeZoneId] + Component("STANDARD", StandardProperties);
    HeaderLinesAreProperties();
    PropertiesBeginNothing(StandardProperties, name);
    PropertiesBeginNothing(["TZID:" + TimeZoneId], name);
    ComponentBegins("STANDARD", StandardProperties, name);
    assert multiset(tz)[Begin(name)] == multiset(Component("STANDARD", StandardProperties))[Begin(name)];
    ComponentBegins("VTIMEZONE", tz, name);
  }

  /** The header begins the calendar, its time zone and the time zone's standard time, once each. */
  lemma HeaderBegins(name: string)
    ensures multiset(Header)[Begin(name)]
         == (if name == "VCALENDAR" then 1 else 0) + (if name == "VTIMEZONE" then 1 else 0) + (if name == "STANDARD" then 1 else 0)
  {
    HeaderLinesAreProperties();
    PropertiesBeginNothing(CalendarProperties, name);
    TimeZoneBegins(name);
    BeginDistinct("VCALENDAR", name);
    assert multiset(Header)[Begin(name)]
        == multiset([Begin("VCALENDAR")])[Begin(name)] + multiset(CalendarProperties)[Begin(name)] + multiset(TimeZone)[Begin(name)];
  }

  /**
   * The whole document begins one calendar, one time zone with one standard
   * time, and one event and one alarm per entry; nothing else.
   */
  lemma DocumentBegins(entries: seq<Entry>, uidOf: nat -> string, clockAt: nat -> Instant, name: string)
    ensures multiset(IcsStructure(Blocks(entries, uidOf, clockAt)))[Begin(name)]
         == (if name == "VCALENDAR" then 1 else 0) + (if name == "VTIMEZONE" then 1 else 0) + (if name == "STANDARD" then 1 else 0)
          + |entries| * BeginsPerBlock(name)
  {
    var events := Blocks(entries, uidOf, clockAt);
    HeaderBegins(name);
    BlocksBegins(entries, uidOf, clockAt, name);
    BeginDistinct(name, "VCALENDAR");
    assert multiset(IcsStructure(events))[Begin(name)]
        == multiset(Header)[Begin(name)] + multiset(events)[Begin(name)] + multiset([Footer])[Begin(name)];
  }

  /** The document begins one VEVENT per entry. */
  lemma DocumentEvents(entries: seq<Entry>, uidOf: nat -> string, clockAt: nat -> Instant)
    ensures multiset(IcsStructure(Blocks(entries, uidOf, clockAt)))[Begin("VEVENT")] == |entries|
  {
    var name := "VEVENT";
    assert name != "VCALENDAR" && name != "VTIMEZONE" && name != "STANDARD";
    assert BeginsPerBlock(name) == 1;
    DocumentBegins(entries, uidOf, clockAt, name);
  }

  lemma HeaderLength()
    ensures |Header| == 14
  {
  }

  /** After the fourteen header lines come the event lines, unchanged: lines `14 + a` to `14 + b` of the document are event lines `a` to `b`. */
  lemma StructureSlice(events: seq<string>, a: nat, b: nat)
    requires a <= b <= |events|
    ensures 14 + b <= |IcsStructure(events)|
    ensures IcsStructure(events)[14 + a..14 + b] == events[a..b]
  {
    HeaderLength();
    assert IcsStructure(events)[14..14 + |events|] == events;
  }

  lemma CalendarPropertiesNoCr()
    ensures NoCarriageReturn(CalendarProperties)
  {
  }

  lemma StandardPropertiesNoCr()
    ensures NoCarriageReturn(StandardProperties)
  {
  }

  lemma TimeZoneNoCr()
    ensures NoCarriageReturn(TimeZone)
  {
    var tzid := ["TZID:" + TimeZoneId];
    StandardPropertiesNoCr();
    ComponentNoCr("STANDARD", StandardProperties);
    NoCarriageReturnAppend(tzid, Component("STANDARD", StandardProperties));
    ComponentNoCr("VTIMEZONE", tzid + Component("STANDARD", StandardProperties));
  }

  /** Around event lines without carriage returns, the document has none either. */
  lemma StructureNoCr(events: seq<string>)
    requires NoCarriageReturn(events)
    ensures NoCarriageReturn(IcsStructure(events))
  {
    CalendarPropertiesNoCr();
    TimeZoneNoCr();
    NoCarriageReturnAppend(CalendarProperties, TimeZone);
    NoCarriageReturnAppend(CalendarProperties + TimeZone, events);
    ComponentNoCr("VCALENDAR", CalendarProperties + TimeZone + events);
    IcsStructureIsCalendar(events);
  }

  /** The event lines hold a carriage return only where an identifier or a subject does. */
  lemma {:induction false} BlocksNoCr(entries: seq<Entry>, uidOf: nat -> string, clockAt: nat -> Instant)
    requires forall k :: 0 <= k < |entries| ==> '\r' !in uidOf(k) && '\r' !in entries[k].subject
    ensures NoCarriageReturn(Blocks(entries, uidOf, clockAt))
    decreases |entries|
  {
    if entries == [] {
      assert Blocks(entries, uidOf, clockAt) == [];
    } else {
      var n := |entries| - 1;
      var e := entries[n];
      assert entries == entries[..n] + [e];
      BlocksAppend(entries[..n], e, uidOf, clockAt);
      BlocksNoCr(entries[..n], uidOf, clockAt);
      EventBlockNoCr(e.subject, e.date, uidOf(n), clockAt(n));
      NoCarriageReturnAppend(Blocks(entries[..n], uidOf, clockAt), EventBlock(e.subject, e.date, uidOf(n), clockAt(n)));
    }
  }
}
