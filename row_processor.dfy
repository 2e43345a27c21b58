/**
 * `process_csv`: every row the CSV reader yields is cleaned (names trimmed
 * and lower-cased, values trimmed), given a subject (the row's own or the
 * default) and a date; rows without a usable date are skipped, the others
 * become event blocks in order, and the calendar around them is written as
 * one text with CRLF line breaks.
 *
 * The rows are taken as `csv.DictReader` yields them: one dictionary per
 * row, keyed by the header's column names, with `None` as the value of every
 * column the row is too short to fill, and the cells beyond the header
 * gathered under the key `None`.
 */
module RowProcessor {
  import opened Wrappers
  import opened Text
  import opened Calendar
  import opened DateParser
  import opened Components
  import opened Event
  import opened Document

  /** One item of the row dictionary: a named column with its text (None when the row is short), or the surplus cells. */
  datatype Cell = Field(name: string, value: Option<string>) | Extra

  /** A row dictionary's items, in the reader's order. */
  type Row = seq<Cell>

  /**
   * `k.strip().lower()`: the key a column name gets in the cleaned row. It is
   * never longer than the name and already lower-case, so lowering it again,
   * as `col_subject.lower()` does to an option, leaves it as it is.
   */
  function Normalize(name: string): (key: string)
    ensures |key| <= |name|
    ensures Lower(key) == key
  {
    LowerIdempotent(Strip(name));
    Lower(Strip(name))
  }

  /** An item the comprehension keeps: a column with a non-empty name (the surplus cells have key None, which it drops). */
  predicate Named(c: Cell) {
    c.Field? && c.name != ""
  }

  /** Whether the item is a kept column whose cleaned key is `key`. */
  predicate HasKey(c: Cell, key: string) {
    Named(c) && Normalize(c.name) == key
  }

  /**
   * The dictionary comprehension of the cleaning step: None when it raises
   * (a kept column whose value is None has no `strip`), otherwise each kept
   * column's trimmed value under its cleaned name, the last one winning when
   * two names clean to the same key.
   */
  function CleanRow(row: Row): (clean: Option<map<string, string>>)
    ensures clean.Some? <==> forall i :: 0 <= i < |row| && Named(row[i]) ==> row[i].value.Some?
  {
    if row == [] then
      Some(map[])
    else
      var init := CleanRow(row[..|row| - 1]);
      var c := row[|row| - 1];
      if !Named(c) then
        assert forall i :: 0 <= i < |row| - 1 ==> row[..|row| - 1][i] == row[i];
        init
      else if c.value.None? || init.None? then
        None
      else
        Some(init.value[Normalize(c.name) := Strip(c.value.value)])
  }

  /** The value of the last kept column whose name cleans to `key` is what the cleaned row holds under `key`. */
  lemma {:induction false} CleanRowLast(row: Row, i: nat)
    requires CleanRow(row).Some?
    requires i < |row| && Named(row[i])
    requires forall j :: i < j < |row| ==> !HasKey(row[j], Normalize(row[i].name))
    ensures Normalize(row[i].name) in CleanRow(row).value
    ensures CleanRow(row).value[Normalize(row[i].name)] == Strip(row[i].value.value)
  {
    var n := |row| - 1;
    var init := row[..n];
    if i < n {
      assert init[i] == row[i];
      assert forall j :: i < j < n ==> init[j] == row[j];
      CleanRowLast(init, i);
    }
  }

  /** Every key of the cleaned row comes from a kept column, and holds the trimmed value of one. */
  lemma {:induction false} CleanRowKeys(row: Row, key: string)
    requires CleanRow(row).Some? && key in CleanRow(row).value
    ensures exists i :: 0 <= i < |row| && HasKey(row[i], key) && CleanRow(row).value[key] == Strip(row[i].value.value)
  {
    var n := |row| - 1;
    var init := row[..n];
    var c := row[n];
    if HasKey(c, key) {
      assert HasKey(row[n], key);
    } else {
      assert key in CleanRow(init).value;
      CleanRowKeys(init, key);
      var i :| 0 <= i < n && HasKey(init[i], key) && CleanRow(init).value[key] == Strip(init[i].value.value);
      assert init[i] == row[i];
    }
  }

  /** The command line's column names and default subject. */
  datatype Options = Options(colSubject: string, colDate: string, defaultSubject: string)

  /** `dict.get`. */
  function Get(m: map<string, string>, key: string): (r: Option<string>)
    ensures r.Some? <==> key in m
    ensures r.Some? ==> r.value == m[key]
  {
    if key in m then Some(m[key]) else None
  }

  /** What becomes of one row. */
  datatype Outcome =
    | Accepted(entry: Entry)
    | NoDate                     // no date column, or an empty date: skipped
    | InvalidDate(text: string)  // a date neither layout reads: skipped
    | Aborted                    // the cleaning raised: the whole run stops

  /**
   * The subject of a cleaned row: its subject column when present and
   * non-empty, the default otherwise. So it is empty only when the default is,
   * and anything but the default is what the row holds under the subject key.
   */
  function Subject(clean: map<string, string>, cfg: Options): (subject: string)
    ensures subject == "" ==> cfg.defaultSubject == ""
    ensures subject != cfg.defaultSubject ==> Get(clean, Lower(cfg.colSubject)) == Some(subject)
  {
    var s := Get(clean, Lower(cfg.colSubject));
    if s.None? || s.value == "" then cfg.defaultSubject else s.value
  }

  /** The body of the row loop, for one row. */
  function Classify(row: Row, cfg: Options): (o: Outcome)
    ensures o.Aborted? <==> CleanRow(row).None?
  {
    var clean := CleanRow(row);
    if clean.None? then
      Aborted
    else
      var date := Get(clean.value, Lower(cfg.colDate));
      if date.None? || date.value == "" then
        NoDate
      else
        match ParseDate(date.value)
        case None => InvalidDate(date.value)
        case Some(t) => Accepted(Entry(Subject(clean.value, cfg), t))
  }

  /** A row aborts the run exactly when one of its kept columns has no value. */
  lemma AbortedExactly(row: Row, cfg: Options)
    ensures Classify(row, cfg).Aborted? <==> exists i :: 0 <= i < |row| && Named(row[i]) && row[i].value.None?
  {
  }

  /** A non-empty subject column gives the subject: the last column naming it, trimmed. */
  lemma SubjectFromColumn(row: Row, cfg: Options, i: nat)
    requires Classify(row, cfg).Accepted?
    requires i < |row| && HasKey(row[i], Lower(cfg.colSubject))
    requires forall j :: i < j < |row| ==> !HasKey(row[j], Lower(cfg.colSubject))
    requires Strip(row[i].value.value) != ""
    ensures Classify(row, cfg).entry.subject == Strip(row[i].value.value)
  {
    CleanRowLast(row, i);
  }

  /** The last column naming `key` is at `i`. */
  predicate LastWithKey(row: Row, key: string, i: int) {
    0 <= i < |row| && HasKey(row[i], key) && forall j :: i < j < |row| ==> !HasKey(row[j], key)
  }

  /**
   * The subject is the default when no column names it, or when the last
   * column naming it (the one the cleaned row keeps) is empty once trimmed.
   */
  lemma SubjectDefault(row: Row, cfg: Options)
    requires Classify(row, cfg).Accepted?
    requires || (forall i :: 0 <= i < |row| ==> !HasKey(row[i], Lower(cfg.colSubject)))
             || (exists i :: LastWithKey(row, Lower(cfg.colSubject), i) && Strip(row[i].value.value) == "")
    ensures Classify(row, cfg).entry.subject == cfg.defaultSubject
  {
    var clean := CleanRow(row).value;
    var key := Lower(cfg.colSubject);
    if exists i :: LastWithKey(row, key, i) && Strip(row[i].value.value) == "" {
      var i :| LastWithKey(row, key, i) && Strip(row[i].value.value) == "";
      CleanRowLast(row, i);
      assert Get(clean, key) == Some("");
    } else if key in clean {
      CleanRowKeys(row, key);
    }
  }

  /** An empty date column (the last column naming it, trimmed) skips the row. */
  lemma DateColumnEmpty(row: Row, cfg: Options, i: nat)
    requires CleanRow(row).Some?
    requires i < |row| && HasKey(row[i], Lower(cfg.colDate))
    requires forall j :: i < j < |row| ==> !HasKey(row[j], Lower(cfg.colDate))
    requires Strip(row[i].value.value) == ""
    ensures Classify(row, cfg) == NoDate
  {
    CleanRowLast(row, i);
    assert Get(CleanRow(row).value, Lower(cfg.colDate)) == Some(Strip(row[i].value.value));
  }

  /** A date column that neither layout reads skips the row, naming the text. */
  lemma DateColumnInvalid(row: Row, cfg: Options, i: nat)
    requires CleanRow(row).Some?
    requires i < |row| && HasKey(row[i], Lower(cfg.colDate))
    requires forall j :: i < j < |row| ==> !HasKey(row[j], Lower(cfg.colDate))
    requires Strip(row[i].value.value) != "" && ParseDate(Strip(row[i].value.value)).None?
    ensures Classify(row, cfg) == InvalidDate(Strip(row[i].value.value))
  {
    CleanRowLast(row, i);
    assert Get(CleanRow(row).value, Lower(cfg.colDate)) == Some(Strip(row[i].value.value));
  }

  /** A date column that parses gives the row's event that date. */
  lemma DateColumnParsed(row: Row, cfg: Options, i: nat, t: Instant)
    requires CleanRow(row).Some?
    requires i < |row| && HasKey(row[i], Lower(cfg.colDate))
    requires forall j :: i < j < |row| ==> !HasKey(row[j], Lower(cfg.colDate))
    requires ParseDate(Strip(row[i].value.value)) == Some(t)
    ensures Classify(row, cfg).Accepted? && Classify(row, cfg).entry.date == t
  {
    CleanRowLast(row, i);
    assert Get(CleanRow(row).value, Lower(cfg.colDate)) == Some(Strip(row[i].value.value));
  }

  /** A row without a date column is skipped. */
  lemma NoDateColumn(row: Row, cfg: Options)
    requires CleanRow(row).Some?
    requires forall i :: 0 <= i < |row| ==> !HasKey(row[i], Lower(cfg.colDate))
    ensures Classify(row, cfg) == NoDate
  {
    var key := Lower(cfg.colDate);
    if key in CleanRow(row).value {
      CleanRowKeys(row, key);
    }
  }

  /** The entries of the accepted outcomes in order, or None once one of them aborts the run. */
  function Collect(outcomes: seq<Outcome>): (r: Option<seq<Entry>>)
    ensures r.Some? <==> forall i :: 0 <= i < |outcomes| ==> !outcomes[i].Aborted?
    ensures r.Some? ==> |r.value| <= |outcomes|
  {
    if outcomes == [] then
      Some([])
    else
      var n := |outcomes| - 1;
      var init := Collect(outcomes[..n]);
      assert forall i :: 0 <= i < n ==> outcomes[..n][i] == outcomes[i];
      match outcomes[n]
      case Aborted => None
      case Accepted(e) => if init.None? then None else Some(init.value + [e])
      case _ => init
  }

  /** Collecting two runs of outcomes is collecting each and putting the entries together. */
  lemma {:induction false} CollectAppend(a: seq<Outcome>, b: seq<Outcome>)
    ensures Collect(a + b) == if Collect(a).None? || Collect(b).None? then None else Some(Collect(a).value + Collect(b).value)
    decreases |b|
  {
    if b == [] {
      assert a + b == a;
      if Collect(a).Some? {
        assert Collect(a).value + [] == Collect(a).value;
      }
    } else {
      var n := |b| - 1;
      assert (a + b)[..|a| + n] == a + b[..n];
      assert (a + b)[|a| + n] == b[n];
      CollectAppend(a, b[..n]);
      if Collect(a).Some? && Collect(b[..n]).Some? && b[n].Accepted? {
        assert Collect(a).value + Collect(b[..n]).value + [b[n].entry]
            == Collect(a).value + (Collect(b[..n]).value + [b[n].entry]);
      }
    }
  }

  /** Every entry collected is the entry of an accepted outcome. */
  lemma {:induction false} CollectFrom(outcomes: seq<Outcome>, k: nat)
    requires Collect(outcomes).Some? && k < |Collect(outcomes).value|
    ensures exists i :: 0 <= i < |outcomes| && outcomes[i] == Accepted(Collect(outcomes).value[k])
  {
    var n := |outcomes| - 1;
    var init := outcomes[..n];
    if k < |Collect(init).value| {
      CollectFrom(init, k);
      var i :| 0 <= i < |init| && init[i] == Accepted(Collect(init).value[k]);
      assert outcomes[i] == init[i];
    } else {
      assert outcomes[n] == Accepted(Collect(outcomes).value[k]);
    }
  }

  /** How many of the first `n` outcomes are accepted rows. */
  function AcceptedBefore(outcomes: seq<Outcome>, n: nat): nat
    requires n <= |outcomes|
  {
    |set i | 0 <= i < n && outcomes[i].Accepted?|
  }

  /** Counting one more outcome adds one exactly when it is accepted. */
  lemma AcceptedBeforeStep(outcomes: seq<Outcome>, n: nat)
    requires n < |outcomes|
    ensures AcceptedBefore(outcomes, n + 1) == AcceptedBefore(outcomes, n) + (if outcomes[n].Accepted? then 1 else 0)
  {
    var before := set i | 0 <= i < n && outcomes[i].Accepted?;
    var after := set i | 0 <= i < n + 1 && outcomes[i].Accepted?;
    if outcomes[n].Accepted? {
      assert after == before + {n};
    } else {
      assert after == before;
    }
  }

  /** Counting within a prefix is counting within the whole. */
  lemma AcceptedBeforePrefix(outcomes: seq<Outcome>, m: nat, n: nat)
    requires n <= m <= |outcomes|
    ensures AcceptedBefore(outcomes[..m], n) == AcceptedBefore(outcomes, n)
  {
    assert (set i | 0 <= i < n && outcomes[..m][i].Accepted?) == (set i | 0 <= i < n && outcomes[i].Accepted?);
  }

  /** As many entries are collected as there are accepted outcomes. */
  lemma {:induction false} CollectCount(outcomes: seq<Outcome>)
    requires Collect(outcomes).Some?
    ensures |Collect(outcomes).value| == AcceptedBefore(outcomes, |outcomes|)
  {
    if outcomes != [] {
      var n := |outcomes| - 1;
      assert forall i :: 0 <= i < n ==> outcomes[..n][i] == outcomes[i];
      CollectCount(outcomes[..n]);
      AcceptedBeforePrefix(outcomes, n, n);
      AcceptedBeforeStep(outcomes, n);
    }
  }

  /** An accepted outcome's entry is collected in its place: after the entries of the accepted outcomes before it. */
  lemma {:induction false} CollectOrder(outcomes: seq<Outcome>, i: nat)
    requires Collect(outcomes).Some? && i < |outcomes| && outcomes[i].Accepted?
    ensures AcceptedBefore(outcomes, i) < |Collect(outcomes).value|
    ensures Collect(outcomes).value[AcceptedBefore(outcomes, i)] == outcomes[i].entry
  {
    var n := |outcomes| - 1;
    var init := outcomes[..n];
    assert forall j :: 0 <= j < n ==> init[j] == outcomes[j];
    if i < n {
      CollectOrder(init, i);
      AcceptedBeforePrefix(outcomes, n, i);
    } else {
      CollectCount(init);
      AcceptedBeforePrefix(outcomes, n, n);
    }
  }

  /** What becomes of each row. */
  function Outcomes(rows: seq<Row>, cfg: Options): (os: seq<Outcome>)
    ensures |os| == |rows| && forall i :: 0 <= i < |rows| ==> os[i] == Classify(rows[i], cfg)
  {
    seq(|rows|, i requires 0 <= i < |rows| => Classify(rows[i], cfg))
  }

  /** The entries of the accepted rows in order, or None when a row aborts the run. */
  function Scan(rows: seq<Row>, cfg: Options): (r: Option<seq<Entry>>)
    ensures r.Some? <==> forall i :: 0 <= i < |rows| ==> !Classify(rows[i], cfg).Aborted?
    ensures r.Some? ==> |r.value| <= |rows|
  {
    Collect(Outcomes(rows, cfg))
  }

  /** The loop makes one event per accepted row: as many entries as rows that are accepted. */
  lemma ScanCount(rows: seq<Row>, cfg: Options)
    requires Scan(rows, cfg).Some?
    ensures |Scan(rows, cfg).value| == |set i | 0 <= i < |rows| && Classify(rows[i], cfg).Accepted?|
  {
    var outcomes := Outcomes(rows, cfg);
    CollectCount(outcomes);
    assert (set i | 0 <= i < |outcomes| && outcomes[i].Accepted?) == (set i | 0 <= i < |rows| && Classify(rows[i], cfg).Accepted?);
  }

  /**
   * The events follow the rows' order: an accepted row's entry comes right
   * after the entries of the accepted rows before it.
   */
  lemma ScanOrder(rows: seq<Row>, cfg: Options, i: nat)
    requires Scan(rows, cfg).Some? && i < |rows| && Classify(rows[i], cfg).Accepted?
    ensures var k := |set j | 0 <= j < i && Classify(rows[j], cfg).Accepted?|;
      k < |Scan(rows, cfg).value| && Scan(rows, cfg).value[k] == Classify(rows[i], cfg).entry
  {
    var outcomes := Outcomes(rows, cfg);
    CollectOrder(outcomes, i);
    assert (set j | 0 <= j < i && outcomes[j].Accepted?) == (set j | 0 <= j < i && Classify(rows[j], cfg).Accepted?);
  }

  /** One more row extends the scan by what becomes of that row. */
  lemma ScanStep(rows: seq<Row>, cfg: Options, i: nat, o: Outcome, entries: seq<Entry>)
    requires i < |rows| && o == Classify(rows[i], cfg) && Scan(rows[..i], cfg) == Some(entries)
    ensures o.Aborted? ==> Scan(rows, cfg).None?
    ensures o.Accepted? ==> Scan(rows[..i + 1], cfg) == Some(entries + [o.entry])
    ensures !o.Aborted? && !o.Accepted? ==> Scan(rows[..i + 1], cfg) == Some(entries)
  {
    var before := Outcomes(rows[..i], cfg);
    var after := Outcomes(rows[..i + 1], cfg);
    assert after[..i] == before;
  }

  /**
   * The body of the row loop for one row: clean it, pick the subject, read
   * the date; return what becomes of the row.
   */
  method ProcessRow(row: Row, cfg: Options) returns (o: Outcome)
    ensures o == Classify(row, cfg)
  {
    var clean := CleanRow(row);
    if clean.None? {
      return Aborted;
    }
    var subjectValue := Get(clean.value, Lower(cfg.colSubject));
    var subject: string;
    if subjectValue.None? || subjectValue.value == "" {
      subject := cfg.defaultSubject;
    } else {
      subject := subjectValue.value;
    }
    var dateText := Get(clean.value, Lower(cfg.colDate));
    if dateText.None? || dateText.value == "" {
      return NoDate;
    }
    var date := ParseDate(dateText.value);
    if date.None? {
      return InvalidDate(dateText.value);
    }
    return Accepted(Entry(subject, date.value));
  }

  /** The event lines and the number of events the loop leaves behind. */
  datatype Batch = Batch(events: seq<string>, count: nat)

  /** `ics_events.extend(generate_event_block(...))` for the entry that becomes the `count`-th event. */
  method ExtendWithBlock(events: seq<string>, ghost entries: seq<Entry>, count: nat, e: Entry, uidOf: nat -> string, clockAt: nat -> Instant)
    returns (extended: seq<string>)
    requires events == Blocks(entries, uidOf, clockAt) && count == |entries|
    ensures extended == Blocks(entries + [e], uidOf, clockAt)
  {
    BlocksAppend(entries, e, uidOf, clockAt);
    extended := events + EventBlock(e.subject, e.date, uidOf(count), clockAt(count));
  }

  /**
   * The row loop: `ics_events` and `processed_count` as the loop leaves them,
   * or None when a row raises. `uidOf(k)` and `clockAt(k)` are the identifier
   * and the clock reading the k-th event block takes.
   */
  method ProcessRows(rows: seq<Row>, cfg: Options, uidOf: nat -> string, clockAt: nat -> Instant) returns (batch: Option<Batch>)
    ensures batch.None? <==> Scan(rows, cfg).None?
    ensures batch.Some? ==> batch.value.count == |Scan(rows, cfg).value|
    ensures batch.Some? ==> batch.value.events == Blocks(Scan(rows, cfg).value, uidOf, clockAt)
    ensures batch.Some? ==> batch.value.count == |set i | 0 <= i < |rows| && Classify(rows[i], cfg).Accepted?|
    ensures batch.Some? ==> |batch.value.events| == 14 * batch.value.count
  {
    var events: seq<string> := [];
    var count: nat := 0;
    ghost var entries: seq<Entry> := [];
    for i := 0 to |rows|
      invariant Scan(rows[..i], cfg) == Some(entries)
      invariant events == Blocks(entries, uidOf, clockAt)
      invariant count == |entries|
    {
      var o := ProcessRow(rows[i], cfg);
      ScanStep(rows, cfg, i, o, entries);
      if o.Aborted? {
        return None;
      }
      if o.Accepted? {
        events := ExtendWithBlock(events, entries, count, o.entry, uidOf, clockAt);
        count := count + 1;
        entries := entries + [o.entry];
      }
    }
    assert rows[..|rows|] == rows;
    ScanCount(rows, cfg);
    return Some(Batch(events, count));
  }
}
