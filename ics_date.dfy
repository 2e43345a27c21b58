/**
 * `format_ics_date`: a datetime written as `dt.strftime('%Y%m%dT%H%M%S')`,
 * the local-time DATE-TIME form of section 3.3.5 of RFC 5545, and the reading
 * of that form back into a datetime.
 */
module IcsDate {
  import opened Wrappers
  import opened Text
  import opened Calendar

  function Pow10(w: nat): (p: nat)
    ensures p >= 1
  {
    if w == 0 then 1 else 10 * Pow10(w - 1)
  }

  function DigitChar(d: nat): (c: char)
    requires d < 10
    ensures IsDigit(c) && DigitValue(c) == d
  {
    ('0' as int + d) as char
  }

  /**
   * `n` in exactly `w` decimal digits, zeros in front: the zero padding of the
   * strftime directives. Only the last `w` digits are kept, which never
   * matters for the fields of a valid datetime.
   */
  function Pad(n: nat, w: nat): (r: string)
    ensures |r| == w && AllDigits(r)
    ensures n < Pow10(w) ==> Value(r) == n
  {
    if w == 0 then
      []
    else
      var r := Pad(n / 10, w - 1) + [DigitChar(n % 10)];
      assert r[..|r| - 1] == Pad(n / 10, w - 1);
      r
  }

  /** Reading a string of digits and padding the number back to the same width gives the string. */
  lemma {:induction false} PadValue(s: string)
    requires AllDigits(s)
    ensures Pad(Value(s), |s|) == s
  {
    if s != [] {
      var init := s[..|s| - 1];
      PadValue(init);
      var v := Value(s);
      assert v / 10 == Value(init) && v % 10 == DigitValue(s[|s| - 1]);
      assert init + [s[|s| - 1]] == s;
    }
  }

  predicate IsIcsDateShape(s: string) {
    |s| == 15 && s[8] == 'T' && forall k :: 0 <= k < 15 && k != 8 ==> IsDigit(s[k])
  }

  /** The seven pieces of an ICS date-time, glued in order, have its shape; and such a text is its pieces glued. */
  lemma Pieces(y: string, mo: string, d: string, h: string, mi: string, se: string)
    requires |y| == 4 && |mo| == 2 && |d| == 2 && |h| == 2 && |mi| == 2 && |se| == 2
    requires AllDigits(y) && AllDigits(mo) && AllDigits(d) && AllDigits(h) && AllDigits(mi) && AllDigits(se)
    ensures var r := y + mo + d + "T" + h + mi + se;
      IsIcsDateShape(r) && r[..4] == y && r[4..6] == mo && r[6..8] == d && r[9..11] == h && r[11..13] == mi && r[13..] == se
  {
    var r := y + mo + d + "T" + h + mi + se;
    assert forall k :: 0 <= k < 4 ==> r[k] == y[k];
    assert forall k :: 4 <= k < 6 ==> r[k] == mo[k - 4];
    assert forall k :: 6 <= k < 8 ==> r[k] == d[k - 6];
    assert forall k :: 9 <= k < 11 ==> r[k] == h[k - 9];
    assert forall k :: 11 <= k < 13 ==> r[k] == mi[k - 11];
    assert forall k :: 13 <= k < 15 ==> r[k] == se[k - 13];
  }

  lemma Glued(s: string)
    requires IsIcsDateShape(s)
    ensures s == s[..4] + s[4..6] + s[6..8] + "T" + s[9..11] + s[11..13] + s[13..]
  {
  }

  /** `dt.strftime('%Y%m%dT%H%M%S')`: eight date digits, a `T`, six time digits. */
  function FormatIcsDate(t: Instant): (r: string)
    ensures IsIcsDateShape(r)
  {
    var r := Pad(t.year, 4) + Pad(t.month, 2) + Pad(t.day, 2) + "T"
             + Pad(t.hour, 2) + Pad(t.minute, 2) + Pad(t.second, 2);
    Pieces(Pad(t.year, 4), Pad(t.month, 2), Pad(t.day, 2), Pad(t.hour, 2), Pad(t.minute, 2), Pad(t.second, 2));
    r
  }

  /** A formatted date holds no carriage return. */
  lemma FormattedHasNoCr(t: Instant)
    ensures '\r' !in FormatIcsDate(t)
  {
    var r := FormatIcsDate(t);
    assert forall k :: 0 <= k < |r| ==> r[k] != '\r';
  }

  /** Reads a `YYYYMMDDTHHMMSS` value back; None unless it names a real date and time. */
  function ParseIcsDate(s: string): Option<Instant>
  {
    if IsIcsDateShape(s) then
      assert AllDigits(s[..4]) && AllDigits(s[4..6]) && AllDigits(s[6..8]);
      assert AllDigits(s[9..11]) && AllDigits(s[11..13]) && AllDigits(s[13..]);
      var t := DateTime(Value(s[..4]), Value(s[4..6]), Value(s[6..8]),
                        Value(s[9..11]), Value(s[11..13]), Value(s[13..]));
      if Valid(t) then Some(t) else None
    else
      None
  }

  /** Reading the written form gives back the datetime it was written from. */
  lemma FormatThenParse(t: Instant)
    ensures ParseIcsDate(FormatIcsDate(t)) == Some(t)
  {
    Pieces(Pad(t.year, 4), Pad(t.month, 2), Pad(t.day, 2), Pad(t.hour, 2), Pad(t.minute, 2), Pad(t.second, 2));
  }

  /** Every value the reader accepts is exactly the text the writer produces for it. */
  lemma ParseThenFormat(s: string)
    requires ParseIcsDate(s).Some?
    ensures FormatIcsDate(ParseIcsDate(s).value) == s
  {
    assert AllDigits(s[..4]) && AllDigits(s[4..6]) && AllDigits(s[6..8]);
    assert AllDigits(s[9..11]) && AllDigits(s[11..13]) && AllDigits(s[13..]);
    PadValue(s[..4]);
    PadValue(s[4..6]);
    PadValue(s[6..8]);
    PadValue(s[9..11]);
    PadValue(s[11..13]);
    PadValue(s[13..]);
    Glued(s);
  }
}
