/**
 * The content-line skeleton of an iCalendar object (section 3.4 and 3.6 of
 * RFC 5545): a component is a `BEGIN:<name>` line, its own lines, and an
 * `END:<name>` line, and components nest. `Nest` reads the BEGIN and END
 * lines of a text and checks that they pair up.
 */
module Components {
  import opened Wrappers
  import opened Text

  function Begin(name: string): string {
    "BEGIN:" + name
  }

  function End(name: string): string {
    "END:" + name
  }

  /** The lines of the component `name` around `body`. */
  function Component(name: string, body: seq<string>): (lines: seq<string>)
    ensures |lines| == |body| + 2
  {
    [Begin(name)] + body + [End(name)]
  }

  /**
   * Reads BEGIN and END lines in order with `open` the components begun and
   * not yet ended, innermost last: a BEGIN opens its component, an END must
   * close the innermost one. None when an END does not match; otherwise the
   * components still open after the last line.
   */
  function Nest(lines: seq<string>, open: seq<string>): Option<seq<string>>
  {
    if lines == [] then
      Some(open)
    else if "BEGIN:" <= lines[0] then
      Nest(lines[1..], open + [lines[0][6..]])
    else if "END:" <= lines[0] then
      if open != [] && open[|open| - 1] == lines[0][4..] then Nest(lines[1..], open[..|open| - 1]) else None
    else
      Nest(lines[1..], open)
  }

  /** A property line: neither a BEGIN nor an END line (none of its names starts with B or E). */
  predicate IsProperty(line: string) {
    line != [] && line[0] != 'B' && line[0] != 'E'
  }

  /** Reading two runs of lines one after the other is reading the second from where the first left off. */
  lemma {:induction false} NestAppend(a: seq<string>, b: seq<string>, open: seq<string>)
    ensures Nest(a + b, open) == if Nest(a, open).None? then None else Nest(b, Nest(a, open).value)
  {
    if a != [] {
      assert (a + b)[1..] == a[1..] + b;
      var line := a[0];
      if "BEGIN:" <= line {
        NestAppend(a[1..], b, open + [line[6..]]);
      } else if "END:" <= line {
        if open != [] && open[|open| - 1] == line[4..] {
          NestAppend(a[1..], b, open[..|open| - 1]);
        }
      } else {
        NestAppend(a[1..], b, open);
      }
    } else {
      assert a + b == b;
    }
  }

  /** Property lines leave the open components as they are. */
  lemma {:induction false} NestProperties(lines: seq<string>, open: seq<string>)
    requires forall k :: 0 <= k < |lines| ==> IsProperty(lines[k])
    ensures Nest(lines, open) == Some(open)
  {
    if lines != [] {
      assert lines[0][0] != 'B' && lines[0][0] != 'E';
      NestProperties(lines[1..], open);
    }
  }

  lemma NestBegin(name: string, open: seq<string>)
    ensures Nest([Begin(name)], open) == Some(open + [name])
  {
    assert Begin(name)[..6] == "BEGIN:" && Begin(name)[6..] == name;
  }

  lemma NestEnd(name: string, open: seq<string>)
    requires open != [] && open[|open| - 1] == name
    ensures Nest([End(name)], open) == Some(open[..|open| - 1])
  {
    assert End(name)[0] == 'E' && End(name)[..4] == "END:" && End(name)[4..] == name;
  }

  /** A component whose body is balanced is balanced: it closes exactly what it opens. */
  lemma NestWrap(name: string, body: seq<string>, open: seq<string>)
    requires Nest(body, open + [name]) == Some(open + [name])
    ensures Nest(Component(name, body), open) == Some(open)
  {
    var inner := open + [name];
    NestBegin(name, open);
    NestEnd(name, inner);
    assert inner[..|inner| - 1] == open;
    NestAppend([Begin(name)], body, open);
    NestAppend([Begin(name)] + body, [End(name)], open);
  }

  /** A component of property lines only is balanced. */
  lemma NestLeaf(name: string, body: seq<string>, open: seq<string>)
    requires forall k :: 0 <= k < |body| ==> IsProperty(body[k])
    ensures Nest(Component(name, body), open) == Some(open)
  {
    NestProperties(body, open + [name]);
    NestWrap(name, body, open);
  }

  /** BEGIN lines name their component: two of them are equal only for the same name, and none is an END line. */
  lemma BeginDistinct(a: string, b: string)
    ensures Begin(a) == Begin(b) <==> a == b
    ensures Begin(a) != End(b)
  {
    if Begin(a) == Begin(b) {
      assert a == Begin(a)[6..] && b == Begin(b)[6..];
    }
    assert Begin(a)[0] == 'B' && End(b)[0] == 'E';
  }

  /** Property lines contribute no BEGIN line. */
  lemma PropertiesBeginNothing(lines: seq<string>, name: string)
    requires forall k :: 0 <= k < |lines| ==> IsProperty(lines[k])
    ensures multiset(lines)[Begin(name)] == 0
  {
    assert Begin(name)[0] == 'B';
    assert Begin(name) !in lines;
  }

  /** The BEGIN lines of a component are its own and those of its body. */
  lemma ComponentBegins(name: string, body: seq<string>, other: string)
    ensures multiset(Component(name, body))[Begin(other)]
         == (if name == other then 1 else 0) + multiset(body)[Begin(other)]
  {
    BeginDistinct(name, other);
    BeginDistinct(other, name);
  }

  /** A component holds a carriage return only where its name or its body does. */
  lemma ComponentNoCr(name: string, body: seq<string>)
    requires '\r' !in name && NoCarriageReturn(body)
    ensures NoCarriageReturn(Component(name, body))
  {
    NoCarriageReturnAppend([Begin(name)], body);
    NoCarriageReturnAppend([Begin(name)] + body, [End(name)]);
  }
}
