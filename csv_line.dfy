/**
  The CSV line reader of the decayed-satellite database builder (`parseDelimitedLine`):
  one line, a one-character delimiter, and fields that may be wrapped in double quotes,
  a doubled quote inside them standing for one quote character (the quoting rules of
  section 2 of RFC 4180).
*/
module Csv {
  import Text

  const QUOTE: char := '"'

  /**
    The reader as a state machine over the characters not yet read: `inQuotes` says
    whether an opening quote is pending, `cur` is the field being built and `out` holds
    the fields already closed by a delimiter.
  */
  function Parse(rest: string, delimiter: char, inQuotes: bool, cur: string, out: seq<string>): seq<string>
    decreases |rest|
  {
    if rest == [] then out + [cur]
    else
      var c := rest[0];
      if inQuotes then
        if c == QUOTE then
          if |rest| > 1 && rest[1] == QUOTE then Parse(rest[2..], delimiter, true, cur + [QUOTE], out)
          else Parse(rest[1..], delimiter, false, cur, out)
        else Parse(rest[1..], delimiter, true, cur + [c], out)
      else if c == QUOTE then Parse(rest[1..], delimiter, true, cur, out)
      else if c == delimiter then Parse(rest[1..], delimiter, false, [], out + [cur])
      else Parse(rest[1..], delimiter, false, cur + [c], out)
  }

  /** The fields of a whole line. */
  function ParseLine(line: string, delimiter: char): seq<string> {
    Parse(line, delimiter, false, [], [])
  }

  /** `parseDelimitedLine`: one pass over the line with an `inQuotes` flag and a field buffer. */
  method ParseDelimitedLine(line: string, delimiter: char) returns (out: seq<string>)
    ensures out == ParseLine(line, delimiter)
  {
    out := [];
    var cur: string := [];
    var inQuotes := false;
    var i := 0;
    while i < |line|
      invariant 0 <= i <= |line|
      invariant Parse(line[i..], delimiter, inQuotes, cur, out) == ParseLine(line, delimiter)
    {
      var c := line[i];
      assert line[i..][1..] == line[i + 1..];
      if inQuotes {
        if c == QUOTE {
          if i + 1 < |line| && line[i + 1] == QUOTE {
            assert line[i..][2..] == line[i + 2..];
            cur := cur + [QUOTE];
            i := i + 1;
          } else {
            inQuotes := false;
          }
        } else {
          cur := cur + [c];
        }
      } else {
        if c == QUOTE {
          inQuotes := true;
        } else if c == delimiter {
          out := out + [cur];
          cur := [];
        } else {
          cur := cur + [c];
        }
      }
      i := i + 1;
    }
    out := out + [cur];
  }

  // ---------------------------------------------------------------------------
  // Field count

  /**
    The delimiters that separate fields: those preceded by an even number of quote
    characters (`odd` says whether an odd number came before `s`).
  */
  function Separators(s: string, delimiter: char, odd: bool): nat
    decreases |s|
  {
    if s == [] then 0
    else (if s[0] == delimiter && !odd then 1 else 0) + Separators(s[1..], delimiter, odd != (s[0] == QUOTE))
  }

  lemma {:induction false} ParseCount(rest: string, delimiter: char, inQuotes: bool, cur: string, out: seq<string>)
    requires delimiter != QUOTE
    ensures |Parse(rest, delimiter, inQuotes, cur, out)| == |out| + 1 + Separators(rest, delimiter, inQuotes)
    decreases |rest|
  {
    if rest != [] {
      var c := rest[0];
      if inQuotes && c == QUOTE && |rest| > 1 && rest[1] == QUOTE {
        assert rest[1..][1..] == rest[2..];
        ParseCount(rest[2..], delimiter, true, cur + [QUOTE], out);
      } else if inQuotes && c == QUOTE {
        ParseCount(rest[1..], delimiter, false, cur, out);
      } else if inQuotes {
        ParseCount(rest[1..], delimiter, true, cur + [c], out);
      } else if c == QUOTE {
        ParseCount(rest[1..], delimiter, true, cur, out);
      } else if c == delimiter {
        ParseCount(rest[1..], delimiter, false, [], out + [cur]);
      } else {
        ParseCount(rest[1..], delimiter, false, cur + [c], out);
      }
    }
  }

  /** A line has one field more than it has delimiters outside quotes. */
  lemma FieldCount(line: string, delimiter: char)
    requires delimiter != QUOTE
    ensures |ParseLine(line, delimiter)| == 1 + Separators(line, delimiter, false)
  {
    ParseCount(line, delimiter, false, [], []);
  }

  // ---------------------------------------------------------------------------
  // Lines without quotes

  /** `parts` with `cur` in front of its first part. */
  function Prepend(cur: string, parts: seq<string>): seq<string>
    requires |parts| >= 1
  {
    [cur + parts[0]] + parts[1..]
  }

  /** One step of `split`: the first character either ends the first part or joins it. */
  lemma SplitStep(s: string, sep: char)
    requires s != []
    ensures s[0] == sep ==> Text.Split(s, sep) == [[]] + Text.Split(s[1..], sep)
    ensures s[0] != sep ==> Text.Split(s, sep) == Prepend([s[0]], Text.Split(s[1..], sep))
  {
  }

  lemma PrependEmpty(cur: string, out: seq<string>, tail: seq<string>)
    requires |tail| >= 1
    ensures out + [cur] + Prepend([], tail) == out + Prepend(cur, [[]] + tail)
  {
    assert [] + tail[0] == tail[0];
    assert [tail[0]] + tail[1..] == tail;
    var parts := [[]] + tail;
    assert parts[0] == [] && parts[1..] == tail;
    assert cur + [] == cur;
  }

  lemma PrependChar(cur: string, c: char, out: seq<string>, tail: seq<string>)
    requires |tail| >= 1
    ensures out + Prepend(cur + [c], tail) == out + Prepend(cur, Prepend([c], tail))
  {
    var parts := Prepend([c], tail);
    assert parts[0] == [c] + tail[0] && parts[1..] == tail[1..];
    assert cur + [c] + tail[0] == cur + ([c] + tail[0]);
  }

  lemma {:induction false} ParseUnquoted(rest: string, delimiter: char, cur: string, out: seq<string>)
    requires QUOTE !in rest
    ensures Parse(rest, delimiter, false, cur, out) == out + Prepend(cur, Text.Split(rest, delimiter))
    decreases |rest|
  {
    if rest == [] {
      var parts: seq<string> := [[]];
      assert Text.Split(rest, delimiter) == parts;
      assert cur + [] == cur;
      assert Prepend(cur, parts) == [cur];
    } else {
      var c := rest[0];
      var tail := Text.Split(rest[1..], delimiter);
      assert QUOTE !in rest[1..];
      SplitStep(rest, delimiter);
      assert c != QUOTE;
      if c == delimiter {
        ParseUnquoted(rest[1..], delimiter, [], out + [cur]);
        PrependEmpty(cur, out, tail);
      } else {
        ParseUnquoted(rest[1..], delimiter, cur + [c], out);
        PrependChar(cur, c, out, tail);
      }
    }
  }

  /** Without quote characters the reader is `split` on the delimiter. */
  lemma ParseLineUnquoted(line: string, delimiter: char)
    requires QUOTE !in line
    ensures ParseLine(line, delimiter) == Text.Split(line, delimiter)
    ensures delimiter !in line ==> ParseLine(line, delimiter) == [line]
  {
    ParseUnquoted(line, delimiter, [], []);
    var parts := Text.Split(line, delimiter);
    assert [] + parts[0] == parts[0];
    assert [parts[0]] + parts[1..] == parts;
    assert Prepend([], parts) == parts;
    if delimiter !in line {
      Text.SplitNoSeparator(line, delimiter);
    }
  }

  // ---------------------------------------------------------------------------
  // Quoted fields

  /** A field's characters with every quote doubled. */
  function Doubled(f: string): (d: string)
    ensures |d| >= |f|
  {
    if f == [] then [] else (if f[0] == QUOTE then [QUOTE, QUOTE] else [f[0]]) + Doubled(f[1..])
  }

  /** A field wrapped in quotes, as section 2 of RFC 4180 writes one. */
  function QuoteField(f: string): string {
    [QUOTE] + Doubled(f) + [QUOTE]
  }

  /** Fields written as quoted fields separated by the delimiter. */
  function QuotedLine(fields: seq<string>, delimiter: char): string
    requires |fields| >= 1
  {
    if |fields| == 1 then QuoteField(fields[0])
    else QuoteField(fields[0]) + [delimiter] + QuotedLine(fields[1..], delimiter)
  }

  /** Inside quotes, a doubled quote reads as one and the closing quote leaves the quotes. */
  lemma {:induction false} ParseQuotedBody(f: string, tail: string, delimiter: char, cur: string, out: seq<string>)
    requires tail == [] || tail[0] != QUOTE
    ensures Parse(Doubled(f) + [QUOTE] + tail, delimiter, true, cur, out)
         == Parse(tail, delimiter, false, cur + f, out)
  {
    var text := Doubled(f) + [QUOTE] + tail;
    if f == [] {
      assert text == [QUOTE] + tail;
      assert text[1..] == tail;
      assert cur + f == cur;
    } else if f[0] == QUOTE {
      var inner := Doubled(f[1..]) + [QUOTE] + tail;
      assert text == [QUOTE, QUOTE] + inner;
      assert text[2..] == inner;
      ParseQuotedBody(f[1..], tail, delimiter, cur + [QUOTE], out);
      assert cur + [QUOTE] + f[1..] == cur + f;
    } else {
      var inner := Doubled(f[1..]) + [QUOTE] + tail;
      assert text == [f[0]] + inner;
      assert text[1..] == inner;
      ParseQuotedBody(f[1..], tail, delimiter, cur + [f[0]], out);
      assert cur + [f[0]] + f[1..] == cur + f;
    }
  }

  lemma {:induction false} ParseQuotedLine(fields: seq<string>, delimiter: char, out: seq<string>)
    requires |fields| >= 1 && delimiter != QUOTE
    ensures Parse(QuotedLine(fields, delimiter), delimiter, false, [], out) == out + fields
    decreases |fields|
  {
    var f := fields[0];
    var first := QuoteField(f);
    if |fields| == 1 {
      assert first[1..] == Doubled(f) + [QUOTE] + [];
      ParseQuotedBody(f, [], delimiter, [], out);
      assert [] + f == f;
      assert fields == [f];
    } else {
      var rest := QuotedLine(fields[1..], delimiter);
      var text := first + [delimiter] + rest;
      assert text[1..] == Doubled(f) + [QUOTE] + ([delimiter] + rest);
      ParseQuotedBody(f, [delimiter] + rest, delimiter, [], out);
      assert ([delimiter] + rest)[1..] == rest;
      assert [] + f == f;
      ParseQuotedLine(fields[1..], delimiter, out + [f]);
      assert out + [f] + fields[1..] == out + fields;
    }
  }

  /**
    Reading a line of quoted fields gives the fields back, whatever characters they hold:
    delimiters inside quotes are kept and the wrapping quotes never reach a field.
  */
  lemma QuotedRoundTrip(fields: seq<string>, delimiter: char)
    requires |fields| >= 1 && delimiter != QUOTE
    ensures ParseLine(QuotedLine(fields, delimiter), delimiter) == fields
  {
    ParseQuotedLine(fields, delimiter, []);
  }
}
