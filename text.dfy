/**
 * The string operations the converter borrows from Python's `str`: `strip`,
 * `lower`, splitting on a separator and `'\r\n'.join`, together with the
 * decimal digits that `strptime` and `strftime` read and write.
 */
module Text {

  /** The characters Python's `str.isspace()` accepts, which are the ones `str.strip()` removes. */
  predicate IsSpace(c: char) {
    || c == ' '
    || '\t' <= c <= '\r'
    || '\U{1C}' <= c <= '\U{1F}'
    || c == '\U{85}' || c == '\U{A0}' || c == '\U{1680}'
    || '\U{2000}' <= c <= '\U{200A}'
    || c == '\U{2028}' || c == '\U{2029}' || c == '\U{202F}' || c == '\U{205F}' || c == '\U{3000}'
  }

  predicate AllSpace(s: string) {
    forall k :: 0 <= k < |s| ==> IsSpace(s[k])
  }

  /** `str.lstrip()`. */
  function TrimStart(s: string): string {
    if s != [] && IsSpace(s[0]) then TrimStart(s[1..]) else s
  }

  /** `str.lstrip()` leaves the suffix that remains once the leading whitespace is gone. */
  lemma {:induction false} TrimStartCuts(s: string)
    ensures var r := TrimStart(s);
      && |r| <= |s| && r == s[|s| - |r|..]
      && AllSpace(s[..|s| - |r|])
      && (r != [] ==> !IsSpace(r[0]))
  {
    if s != [] && IsSpace(s[0]) {
      TrimStartCuts(s[1..]);
      var r := TrimStart(s[1..]);
      var n := |s| - |r|;
      assert s[..n] == [s[0]] + s[1..][..n - 1];
    }
  }

  /** `str.rstrip()`. */
  function TrimEnd(s: string): string {
    if s != [] && IsSpace(s[|s| - 1]) then TrimEnd(s[..|s| - 1]) else s
  }

  /** `str.rstrip()` leaves the prefix that remains once the trailing whitespace is gone. */
  lemma {:induction false} TrimEndCuts(s: string)
    ensures var r := TrimEnd(s);
      && |r| <= |s| && r == s[..|r|]
      && AllSpace(s[|r|..])
      && (r != [] ==> !IsSpace(r[|r| - 1]))
  {
    if s != [] && IsSpace(s[|s| - 1]) {
      TrimEndCuts(s[..|s| - 1]);
      var r := TrimEnd(s[..|s| - 1]);
      assert s[|r|..] == s[..|s| - 1][|r|..] + [s[|s| - 1]];
    }
  }

  /** `r` is a slice of `s` with nothing but whitespace on either side of it. */
  predicate FramedBySpace(s: string, r: string) {
    exists i :: 0 <= i <= |s| - |r| && r == s[i..i + |r|] && AllSpace(s[..i]) && AllSpace(s[i + |r|..])
  }

  /** Cutting a prefix and then a suffix of whitespace leaves a slice of `s` framed by whitespace. */
  lemma TrimBoth(s: string, t: string, r: string)
    requires |t| <= |s| && t == s[|s| - |t|..] && AllSpace(s[..|s| - |t|])
    requires t != [] ==> !IsSpace(t[0])
    requires |r| <= |t| && r == t[..|r|] && AllSpace(t[|r|..])
    requires r != [] ==> !IsSpace(r[|r| - 1])
    ensures FramedBySpace(s, r)
    ensures r != [] ==> !IsSpace(r[0]) && !IsSpace(r[|r| - 1])
  {
    var i := |s| - |t|;
    assert s[i + |r|..] == t[|r|..];
    assert r == s[i..i + |r|];
    assert r != [] ==> r[0] == t[0];
  }

  /** `str.strip()`: never longer than the text, and neither starting nor ending with whitespace. */
  function Strip(s: string): (r: string)
    ensures |r| <= |s|
    ensures r != [] ==> !IsSpace(r[0]) && !IsSpace(r[|r| - 1])
  {
    TrimStartCuts(s);
    TrimEndCuts(TrimStart(s));
    TrimEnd(TrimStart(s))
  }

  /**
   * `str.strip()` leaves the longest slice of `s` that neither starts nor
   * ends with whitespace, everything cut off on either side being whitespace.
   */
  lemma StripFramed(s: string)
    ensures FramedBySpace(s, Strip(s))
    ensures Strip(s) != [] ==> !IsSpace(Strip(s)[0]) && !IsSpace(Strip(s)[|Strip(s)| - 1])
  {
    TrimStartCuts(s);
    TrimEndCuts(TrimStart(s));
    TrimBoth(s, TrimStart(s), Strip(s));
  }

  /** The capital letters `str.lower()` maps here: ASCII and Latin-1 (all but the multiplication sign). */
  predicate IsUpper(c: char) {
    'A' <= c <= 'Z' || ('\U{C0}' <= c <= '\U{DE}' && c != '\U{D7}')
  }

  function LowerChar(c: char): (d: char)
    ensures !IsUpper(d)
    ensures IsUpper(c) ==> d as int == c as int + 32
    ensures !IsUpper(c) ==> d == c
  {
    if IsUpper(c) then (c as int + 32) as char else c
  }

  /** `str.lower()`: every capital letter replaced by its small letter, every other character kept. */
  function Lower(s: string): (r: string)
    ensures |r| == |s|
  {
    seq(|s|, k requires 0 <= k < |s| => LowerChar(s[k]))
  }

  /** `str.lower()` leaves no capital letter, lowers every capital letter and keeps every other character. */
  lemma LowerChars(s: string)
    ensures forall k :: 0 <= k < |s| ==> !IsUpper(Lower(s)[k])
    ensures forall k :: 0 <= k < |s| && !IsUpper(s[k]) ==> Lower(s)[k] == s[k]
    ensures forall k :: 0 <= k < |s| && IsUpper(s[k]) ==> Lower(s)[k] as int == s[k] as int + 32
  {
  }

  /** Lowering twice is lowering once. */
  lemma LowerIdempotent(s: string)
    ensures Lower(Lower(s)) == Lower(s)
  {
  }

  predicate IsDigit(c: char) {
    '0' <= c <= '9'
  }

  predicate AllDigits(s: string) {
    forall k :: 0 <= k < |s| ==> IsDigit(s[k])
  }

  function DigitValue(c: char): (d: nat)
    requires IsDigit(c)
    ensures d < 10
  {
    c as int - '0' as int
  }

  /** The number a string of decimal digits spells, as Python's `int()` reads it. */
  function Value(s: string): nat
    requires AllDigits(s)
  {
    if s == [] then 0 else Value(s[..|s| - 1]) * 10 + DigitValue(s[|s| - 1])
  }

  /** Splitting on one separator character, as Python's `str.split(sep)` does. */
  function Split(s: string, sep: char): (fields: seq<string>)
    ensures |fields| >= 1
    ensures forall k :: 0 <= k < |fields| ==> sep !in fields[k]
  {
    if s == [] then
      [[]]
    else
      var rest := Split(s[1..], sep);
      if s[0] == sep then [[]] + rest else [[s[0]] + rest[0]] + rest[1..]
  }

  /** `sep.join(fields)` for a one-character separator. */
  function Join(fields: seq<string>, sep: char): string
    requires |fields| >= 1
  {
    if |fields| == 1 then fields[0] else fields[0] + [sep] + Join(fields[1..], sep)
  }

  lemma JoinThree(a: string, b: string, c: string, sep: char)
    ensures Join([a, b, c], sep) == a + [sep] + b + [sep] + c
  {
    assert [b, c][1..] == [c];
    assert Join([b, c], sep) == b + [sep] + c;
    assert [a, b, c][1..] == [b, c];
  }

  lemma {:induction false} SplitWithoutSeparator(s: string, sep: char)
    requires sep !in s
    ensures Split(s, sep) == [s]
  {
    if s != [] {
      SplitWithoutSeparator(s[1..], sep);
      assert [s[0]] + s[1..] == s;
    }
  }

  lemma {:induction false} SplitFirstField(a: string, sep: char, rest: string)
    requires sep !in a
    ensures Split(a + [sep] + rest, sep) == [a] + Split(rest, sep)
  {
    var s := a + [sep] + rest;
    if a == [] {
      assert s[1..] == rest;
    } else {
      assert s[1..] == a[1..] + [sep] + rest;
      SplitFirstField(a[1..], sep, rest);
      assert [a[0]] + a[1..] == a;
    }
  }

  /** Splitting a join gives back the fields, provided no field contains the separator. */
  lemma {:induction false} SplitJoin(fields: seq<string>, sep: char)
    requires |fields| >= 1
    requires forall k :: 0 <= k < |fields| ==> sep !in fields[k]
    ensures Split(Join(fields, sep), sep) == fields
  {
    if |fields| == 1 {
      SplitWithoutSeparator(fields[0], sep);
    } else {
      SplitJoin(fields[1..], sep);
      SplitFirstField(fields[0], sep, Join(fields[1..], sep));
    }
  }

  /** Joining the fields of a split gives back the string. */
  lemma {:induction false} JoinSplit(s: string, sep: char)
    ensures Join(Split(s, sep), sep) == s
  {
    if s != [] {
      JoinSplit(s[1..], sep);
      var rest := Split(s[1..], sep);
      if s[0] != sep {
        if |rest| == 1 {
          assert Join(Split(s, sep), sep) == [s[0]] + rest[0];
        } else {
          assert rest == [rest[0]] + rest[1..];
          assert Join(rest, sep) == rest[0] + [sep] + Join(rest[1..], sep);
          assert Split(s, sep)[1..] == rest[1..];
        }
      }
    }
  }

  /** Whether a carriage return is directly followed by a line feed somewhere in `s`. */
  predicate HasCrlf(s: string) {
    exists k :: 0 <= k < |s| - 1 && s[k] == '\r' && s[k + 1] == '\n'
  }

  /** `'\r\n'.join(lines)`: the first line opens the text; no lines give the empty string. */
  function JoinCrlf(lines: seq<string>): (r: string)
    ensures lines == [] ==> r == []
    ensures lines != [] ==> lines[0] <= r
  {
    if lines == [] then []
    else if |lines| == 1 then lines[0]
    else lines[0] + "\r\n" + JoinCrlf(lines[1..])
  }

  /** The last line closes the joined text, with no CRLF after it. */
  lemma {:induction false} JoinCrlfLast(lines: seq<string>)
    requires lines != []
    ensures |lines[|lines| - 1]| <= |JoinCrlf(lines)|
    ensures JoinCrlf(lines)[|JoinCrlf(lines)| - |lines[|lines| - 1]|..] == lines[|lines| - 1]
  {
    if |lines| > 1 {
      var rest := lines[1..];
      JoinCrlfLast(rest);
      assert rest[|rest| - 1] == lines[|lines| - 1];
      var r := JoinCrlf(lines);
      var t := JoinCrlf(rest);
      assert r == lines[0] + "\r\n" + t;
      assert r[|r| - |t|..] == t;
    }
  }

  /** Cutting a text at every CRLF from left to right, as `str.split('\r\n')` does. */
  function SplitCrlf(s: string): (lines: seq<string>)
    ensures |lines| >= 1
  {
    if |s| < 2 then [s]
    else if s[0] == '\r' && s[1] == '\n' then [[]] + SplitCrlf(s[2..])
    else
      var rest := SplitCrlf(s[1..]);
      [[s[0]] + rest[0]] + rest[1..]
  }

  lemma {:induction false} SplitCrlfWithout(s: string)
    requires !HasCrlf(s)
    ensures SplitCrlf(s) == [s]
  {
    if |s| >= 2 {
      assert !(s[0] == '\r' && s[1] == '\n');
      assert !HasCrlf(s[1..]) by {
        forall k | 0 <= k < |s[1..]| - 1
          ensures !(s[1..][k] == '\r' && s[1..][k + 1] == '\n')
        {
          assert s[1..][k] == s[k + 1] && s[1..][k + 1] == s[k + 2];
        }
      }
      SplitCrlfWithout(s[1..]);
      assert [s[0]] + s[1..] == s;
    }
  }

  lemma {:induction false} SplitCrlfFirstLine(a: string, rest: string)
    requires !HasCrlf(a)
    ensures SplitCrlf(a + "\r\n" + rest) == [a] + SplitCrlf(rest)
  {
    var s := a + "\r\n" + rest;
    if a == [] {
      assert s[2..] == rest;
    } else {
      assert s[1] == if |a| > 1 then a[1] else '\r';
      assert !(s[0] == '\r' && s[1] == '\n');
      assert s[1..] == a[1..] + "\r\n" + rest;
      assert !HasCrlf(a[1..]) by {
        forall k | 0 <= k < |a[1..]| - 1
          ensures !(a[1..][k] == '\r' && a[1..][k + 1] == '\n')
        {
          assert a[1..][k] == a[k + 1] && a[1..][k + 1] == a[k + 2];
        }
      }
      SplitCrlfFirstLine(a[1..], rest);
      assert [a[0]] + a[1..] == a;
    }
  }

  /**
   * Cutting the joined text at its CRLFs gives back the lines, as long as
   * there is at least one line and no line holds a CRLF of its own.
   */
  lemma {:induction false} SplitJoinCrlf(lines: seq<string>)
    requires |lines| >= 1
    requires forall k :: 0 <= k < |lines| ==> !HasCrlf(lines[k])
    ensures SplitCrlf(JoinCrlf(lines)) == lines
  {
    if |lines| == 1 {
      SplitCrlfWithout(lines[0]);
    } else {
      var rest := lines[1..];
      assert forall k :: 0 <= k < |rest| ==> rest[k] == lines[k + 1];
      assert JoinCrlf(lines) == lines[0] + "\r\n" + JoinCrlf(rest);
      SplitJoinCrlf(rest);
      SplitCrlfFirstLine(lines[0], JoinCrlf(rest));
      assert [lines[0]] + rest == lines;
    }
  }

  /** No line holds a carriage return. */
  predicate NoCarriageReturn(lines: seq<string>) {
    forall k :: 0 <= k < |lines| ==> '\r' !in lines[k]
  }

  lemma NoCarriageReturnAppend(a: seq<string>, b: seq<string>)
    ensures NoCarriageReturn(a + b) <==> NoCarriageReturn(a) && NoCarriageReturn(b)
  {
    if NoCarriageReturn(a + b) {
      forall k | 0 <= k < |a| ensures '\r' !in a[k] {
        assert a[k] == (a + b)[k];
      }
      forall k | 0 <= k < |b| ensures '\r' !in b[k] {
        assert b[k] == (a + b)[|a| + k];
      }
    }
    if NoCarriageReturn(a) && NoCarriageReturn(b) {
      forall k | 0 <= k < |a + b| ensures '\r' !in (a + b)[k] {
        if k < |a| {
          assert (a + b)[k] == a[k];
        } else {
          assert (a + b)[k] == b[k - |a|];
        }
      }
    }
  }

  /** Stripping adds no character: what `s` lacks, `str.strip(s)` lacks. */
  lemma StripKeepsOut(s: string, c: char)
    requires c !in s
    ensures c !in Strip(s)
  {
    StripFramed(s);
    var r := Strip(s);
    var i :| 0 <= i <= |s| - |r| && r == s[i..i + |r|] && AllSpace(s[..i]) && AllSpace(s[i + |r|..]);
  }

  /** Lines without carriage returns come back from their CRLF join unchanged. */
  lemma SplitJoinLines(lines: seq<string>)
    requires |lines| >= 1 && NoCarriageReturn(lines)
    ensures SplitCrlf(JoinCrlf(lines)) == lines
  {
    forall k | 0 <= k < |lines| ensures !HasCrlf(lines[k]) {
      assert forall j :: 0 <= j < |lines[k]| ==> lines[k][j] != '\r';
    }
    SplitJoinCrlf(lines);
  }
}
