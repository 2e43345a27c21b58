/**
 * The whole of `process_csv`: open the input (UTF-8, or cp1252 when the
 * first chunk does not decode), run the rows through the loop, wrap the
 * event lines in the calendar and write them joined by CRLF; any exception
 * inside is logged and nothing is written.
 *
 * Which encoding opens the file is decided by its bytes, which the model
 * does not see: it is a parameter, and so are the identifiers and the clock
 * readings (see `ProcessRows`).
 */
module Converter {
  import opened Wrappers
  import opened Text
  import opened Calendar
  import opened Components
  import opened Event
  import opened Document
  import opened RowProcessor

  /** The encoding the input is read with. */
  datatype Decoding = Utf8 | Cp1252

  /** What a run leaves behind: the text written to the output file and the number of events logged, or nothing. */
  datatype Result = Written(text: string, count: nat) | NothingWritten

  /**
   * `'\r\n'.join(generate_ics_structure(...))` for the blocks of the entries:
   * a text that opens the calendar and ends with the line that closes it,
   * with no line break after that line.
   */
  function CalendarText(entries: seq<Entry>, uidOf: nat -> string, clockAt: nat -> Instant): (text: string)
    ensures Begin("VCALENDAR") <= text
    ensures |Footer| <= |text| && text[|text| - |Footer|..] == Footer
  {
    var doc := IcsStructure(Blocks(entries, uidOf, clockAt));
    assert doc[0] == Begin("VCALENDAR") && doc[|doc| - 1] == Footer;
    JoinCrlfLast(doc);
    JoinCrlf(doc)
  }

  /**
   * A run over the rows: the calendar of the accepted rows and their number,
   * or nothing when a row aborts. This is the run with either encoding, the
   * UTF-8 probe aside (see `RunAsWritten`).
   */
  function Run(rows: seq<Row>, cfg: Options, uidOf: nat -> string, clockAt: nat -> Instant): (r: Result)
    ensures r.Written? <==> forall i :: 0 <= i < |rows| ==> !Classify(rows[i], cfg).Aborted?
    ensures r.Written? ==> r.count <= |rows|
  {
    match Scan(rows, cfg)
    case None => NothingWritten
    case Some(entries) => Written(CalendarText(entries, uidOf, clockAt), |entries|)
  }

  /**
   * The run as the code has it: the UTF-8 path first reads one row to see
   * whether the text decodes, and with no row to read that raises
   * StopIteration, which the general handler logs and swallows.
   */
  function RunAsWritten(decoding: Decoding, rows: seq<Row>, cfg: Options, uidOf: nat -> string, clockAt: nat -> Instant): (r: Result)
    ensures r.Written? <==> (decoding == Cp1252 || rows != []) && forall i :: 0 <= i < |rows| ==> !Classify(rows[i], cfg).Aborted?
  {
    if decoding == Utf8 && rows == [] then
      NothingWritten
    else
      assert decoding.Cp1252? || rows != [];
      Run(rows, cfg, uidOf, clockAt)
  }

  /** `process_csv` once the file is open: probe, loop, wrap, join. */
  method ProcessCsv(decoding: Decoding, rows: seq<Row>, cfg: Options, uidOf: nat -> string, clockAt: nat -> Instant)
    returns (result: Result)
    ensures result == RunAsWritten(decoding, rows, cfg, uidOf, clockAt)
  {
    if decoding == Utf8 && rows == [] {
      return NothingWritten;
    }
    var batch := ProcessRows(rows, cfg, uidOf, clockAt);
    if batch.None? {
      return NothingWritten;
    }
    var full := IcsStructure(batch.value.events);
    return Written(JoinCrlf(full), batch.value.count);
  }

  /** A UTF-8 input without data rows writes nothing, while the same rows read as cp1252 give an empty calendar. */
  lemma ProbeDropsEmptyInput(cfg: Options, uidOf: nat -> string, clockAt: nat -> Instant)
    ensures RunAsWritten(Utf8, [], cfg, uidOf, clockAt) == NothingWritten
    ensures RunAsWritten(Cp1252, [], cfg, uidOf, clockAt) == Written(CalendarText([], uidOf, clockAt), 0)
  {
    assert Scan([], cfg) == Some([]);
  }

  /** The probe makes a difference for no other input. */
  lemma ProbeOnlyDropsEmptyInput(decoding: Decoding, rows: seq<Row>, cfg: Options, uidOf: nat -> string, clockAt: nat -> Instant)
    requires rows != [] || decoding == Cp1252
    ensures RunAsWritten(decoding, rows, cfg, uidOf, clockAt) == Run(rows, cfg, uidOf, clockAt)
  {
  }

  /** Without data rows the run writes the calendar with no event: its header and its last line, nothing else. */
  lemma RunEmptyInput(cfg: Options, uidOf: nat -> string, clockAt: nat -> Instant)
    ensures Run([], cfg, uidOf, clockAt).Written?
    ensures Run([], cfg, uidOf, clockAt).count == 0
    ensures SplitCrlf(Run([], cfg, uidOf, clockAt).text) == Header + [Footer]
  {
    assert Scan([], cfg) == Some([]);
    assert Blocks([], uidOf, clockAt) == [];
    assert IcsStructure([]) == Header + [Footer];
    StructureNoCr([]);
    SplitJoinLines(Header + [Footer]);
  }

  /**
   * The text written for the entries, cut at its CRLFs, is the document line
   * by line, as long as no identifier and no subject holds a carriage return.
   */
  lemma CalendarTextLines(entries: seq<Entry>, uidOf: nat -> string, clockAt: nat -> Instant)
    requires forall k :: 0 <= k < |entries| ==> '\r' !in uidOf(k) && '\r' !in entries[k].subject
    ensures SplitCrlf(CalendarText(entries, uidOf, clockAt)) == IcsStructure(Blocks(entries, uidOf, clockAt))
  {
    var events := Blocks(entries, uidOf, clockAt);
    BlocksNoCr(entries, uidOf, clockAt);
    StructureNoCr(events);
    SplitJoinLines(IcsStructure(events));
  }

  /** No cell of any row holds a carriage return. */
  predicate CellsWithoutCr(rows: seq<Row>) {
    forall i, j :: 0 <= i < |rows| && 0 <= j < |rows[i]| && rows[i][j].Field? && rows[i][j].value.Some? ==> '\r' !in rows[i][j].value.value
  }

  /** A row's subject holds a carriage return only if one of its cells or the default does. */
  lemma SubjectWithoutCr(row: Row, cfg: Options)
    requires Classify(row, cfg).Accepted?
    requires '\r' !in cfg.defaultSubject
    requires forall j :: 0 <= j < |row| && row[j].Field? && row[j].value.Some? ==> '\r' !in row[j].value.value
    ensures '\r' !in Classify(row, cfg).entry.subject
  {
    var clean := CleanRow(row).value;
    var key := Lower(cfg.colSubject);
    if key in clean {
      CleanRowKeys(row, key);
      var j :| 0 <= j < |row| && HasKey(row[j], key) && clean[key] == Strip(row[j].value.value);
      StripKeepsOut(row[j].value.value, '\r');
    }
  }

  /** The entries of a run hold no carriage return in their subjects when the cells and the default hold none. */
  lemma EntriesWithoutCr(rows: seq<Row>, cfg: Options)
    requires Scan(rows, cfg).Some?
    requires '\r' !in cfg.defaultSubject && CellsWithoutCr(rows)
    ensures forall k :: 0 <= k < |Scan(rows, cfg).value| ==> '\r' !in Scan(rows, cfg).value[k].subject
  {
    var outcomes := Outcomes(rows, cfg);
    var entries := Scan(rows, cfg).value;
    forall k | 0 <= k < |entries| ensures '\r' !in entries[k].subject {
      CollectFrom(outcomes, k);
      var i :| 0 <= i < |outcomes| && outcomes[i] == Accepted(entries[k]);
      assert forall j :: 0 <= j < |rows[i]| && rows[i][j].Field? && rows[i][j].value.Some? ==> '\r' !in rows[i][j].value.value;
      SubjectWithoutCr(rows[i], cfg);
    }
  }

  /**
   * What a run writes, cut at its CRLFs, is the calendar document line by
   * line: every component it begins it ends, in order, and it begins one
   * VEVENT per event counted. This needs that no cell, default subject or
   * identifier holds a carriage return (a quoted CSV field may hold one).
   */
  lemma RunOutput(rows: seq<Row>, cfg: Options, uidOf: nat -> string, clockAt: nat -> Instant)
    requires Run(rows, cfg, uidOf, clockAt).Written?
    requires '\r' !in cfg.defaultSubject && CellsWithoutCr(rows)
    requires forall k :: '\r' !in uidOf(k)
    ensures var lines := SplitCrlf(Run(rows, cfg, uidOf, clockAt).text);
      && lines == IcsStructure(Blocks(Scan(rows, cfg).value, uidOf, clockAt))
      && Nest(lines, []) == Some([])
      && multiset(lines)[Begin("VEVENT")] == Run(rows, cfg, uidOf, clockAt).count
  {
    var entries := Scan(rows, cfg).value;
    EntriesWithoutCr(rows, cfg);
    CalendarTextLines(entries, uidOf, clockAt);
    DocumentNests(entries, uidOf, clockAt);
    DocumentEvents(entries, uidOf, clockAt);
  }

  /** Reading a block back out of any run of lines that holds it gives the block's event. */
  lemma ReadBlockWithin(lines: seq<string>, a: nat, e: Entry, uid: string, stamp: Instant)
    requires a + 14 <= |lines| && lines[a..a + 14] == EventBlock(e.subject, e.date, uid, stamp)
    ensures ReadEvent(lines[a..a + 14]) == Some(EventView(uid, stamp, StartOf(e.date), EndOf(e.date), e.subject))
  {
    ReadEventBlock(e.subject, e.date, uid, stamp);
  }

  /** Reading the k-th VEVENT of the document back gives the k-th entry's event. */
  lemma StructureEventAt(entries: seq<Entry>, uidOf: nat -> string, clockAt: nat -> Instant, k: nat)
    requires k < |entries|
    ensures var doc := IcsStructure(Blocks(entries, uidOf, clockAt));
      && 28 + 14 * k <= |doc|
      && ReadEvent(doc[14 + 14 * k..28 + 14 * k])
         == Some(EventView(uidOf(k), clockAt(k), StartOf(entries[k].date), EndOf(entries[k].date), entries[k].subject))
  {
    var events := Blocks(entries, uidOf, clockAt);
    var a, b := 14 * k, 14 * k + 14;
    BlockAt(entries, uidOf, clockAt, k);
    StructureSlice(events, a, b);
    assert 14 + b == 28 + 14 * k;
    ReadBlockWithin(IcsStructure(events), 14 + a, entries[k], uidOf(k), clockAt(k));
  }

  /** Reading the k-th VEVENT of the text written for the entries back gives the k-th entry's event. */
  lemma CalendarTextEventAt(entries: seq<Entry>, uidOf: nat -> string, clockAt: nat -> Instant, k: nat)
    requires forall k :: 0 <= k < |entries| ==> '\r' !in uidOf(k) && '\r' !in entries[k].subject
    requires k < |entries|
    ensures var lines := SplitCrlf(CalendarText(entries, uidOf, clockAt));
      && 28 + 14 * k <= |lines|
      && ReadEvent(lines[14 + 14 * k..28 + 14 * k])
         == Some(EventView(uidOf(k), clockAt(k), StartOf(entries[k].date), EndOf(entries[k].date), entries[k].subject))
  {
    CalendarTextLines(entries, uidOf, clockAt);
    StructureEventAt(entries, uidOf, clockAt, k);
  }

  /**
   * Reading the k-th VEVENT of the written text back gives the k-th
   * identifier and clock reading, the subject of the k-th accepted row, and
   * 09:00 and 09:30 on its date.
   */
  lemma RunEventAt(rows: seq<Row>, cfg: Options, uidOf: nat -> string, clockAt: nat -> Instant, k: nat)
    requires Run(rows, cfg, uidOf, clockAt).Written? && k < Run(rows, cfg, uidOf, clockAt).count
    requires '\r' !in cfg.defaultSubject && CellsWithoutCr(rows)
    requires forall k :: '\r' !in uidOf(k)
    ensures var lines := SplitCrlf(Run(rows, cfg, uidOf, clockAt).text);
      var e := Scan(rows, cfg).value[k];
      && 28 + 14 * k <= |lines|
      && ReadEvent(lines[14 + 14 * k..28 + 14 * k]) == Some(EventView(uidOf(k), clockAt(k), StartOf(e.date), EndOf(e.date), e.subject))
  {
    EntriesWithoutCr(rows, cfg);
    CalendarTextEventAt(Scan(rows, cfg).value, uidOf, clockAt, k);
  }
}
