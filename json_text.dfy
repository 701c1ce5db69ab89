/**
  The JSON text the decayed-satellite database builder writes: the string escaper
  (`jsonEscape`), one record as an object of string members (`toJsonObject`) and the
  records grouped by object name (`toJsonGrouped`). Beside each writer is a reader for
  the text it produces: string bodies are read by the string grammar of section 7 of
  RFC 8259, the objects and groups by the fixed layout the writer uses.
*/
module JsonText {
  import opened Wrappers

  // ---------------------------------------------------------------------------
  // jsonEscape

  /** Lower-case hexadecimal digit, as `%x` writes it. */
  function HexDigit(n: nat): (c: char)
    requires n < 16
  {
    if n < 10 then ('0' as int + n) as char else ('a' as int + n - 10) as char
  }

  /** The text one character becomes inside a string literal. */
  function EscapeChar(c: char): string {
    if c == '\\' then "\\\\"
    else if c == '"' then "\\\""
    else if c == '\U{0008}' then "\\b"
    else if c == '\U{000C}' then "\\f"
    else if c == '\n' then "\\n"
    else if c == '\r' then "\\r"
    else if c == '\t' then "\\t"
    else if c < ' ' then "\\u00" + [HexDigit(c as int / 16), HexDigit(c as int % 16)]
    else [c]
  }

  /** The body of the string literal for `s`. */
  function Escape(s: string): (e: string)
    ensures |e| >= |s|
  {
    if s == [] then [] else EscapeChar(s[0]) + Escape(s[1..])
  }

  lemma {:induction false} EscapeSnoc(s: string, c: char)
    ensures Escape(s + [c]) == Escape(s) + EscapeChar(c)
  {
    if s == [] {
      assert [] + [c] == [c];
      assert [c][1..] == [];
    } else {
      assert (s + [c])[1..] == s[1..] + [c];
      EscapeSnoc(s[1..], c);
    }
  }

  /** `jsonEscape`: one pass over the characters, appending each one's escape. */
  method JsonEscape(s: string) returns (r: string)
    ensures r == Escape(s)
  {
    r := [];
    var i := 0;
    while i < |s|
      invariant 0 <= i <= |s|
      invariant r == Escape(s[..i])
    {
      var c := s[i];
      var piece: string;
      if c == '\\' {
        piece := "\\\\";
      } else if c == '"' {
        piece := "\\\"";
      } else if c == '\U{0008}' {
        piece := "\\b";
      } else if c == '\U{000C}' {
        piece := "\\f";
      } else if c == '\n' {
        piece := "\\n";
      } else if c == '\r' {
        piece := "\\r";
      } else if c == '\t' {
        piece := "\\t";
      } else if c < ' ' {
        piece := "\\u00" + [HexDigit(c as int / 16), HexDigit(c as int % 16)];
      } else {
        piece := [c];
      }
      EscapeSnoc(s[..i], c);
      assert s[..i + 1] == s[..i] + [c];
      r := r + piece;
      i := i + 1;
    }
    assert s[..i] == s;
  }

  /** No character below U+0020 is left raw in an escaped text. */
  lemma {:induction false} EscapeNoControl(s: string)
    ensures forall i :: 0 <= i < |Escape(s)| ==> Escape(s)[i] >= ' '
  {
    if s != [] {
      EscapeNoControl(s[1..]);
      var head := EscapeChar(s[0]);
      var tail := Escape(s[1..]);
      assert forall i :: 0 <= i < |head| ==> head[i] >= ' ';
      assert forall i :: 0 <= i < |tail| ==> (head + tail)[|head| + i] == tail[i];
    }
  }

  /** Text without quotes, backslashes or control characters is its own escape. */
  lemma {:induction false} EscapePlain(s: string)
    requires forall i :: 0 <= i < |s| ==> s[i] >= ' ' && s[i] != '"' && s[i] != '\\'
    ensures Escape(s) == s
  {
    if s != [] {
      EscapePlain(s[1..]);
      assert EscapeChar(s[0]) == [s[0]];
      assert [s[0]] + s[1..] == s;
    }
  }

  // ---------------------------------------------------------------------------
  // Reading a string body back

  function HexValue(c: char): Option<nat> {
    if '0' <= c <= '9' then Some(c as int - '0' as int)
    else if 'a' <= c <= 'f' then Some(c as int - 'a' as int + 10)
    else if 'A' <= c <= 'F' then Some(c as int - 'A' as int + 10)
    else None
  }

  /** The four hexadecimal digits of a `\u` escape, as a code point that is not a surrogate. */
  function HexCode(t: string): Option<char>
    requires |t| >= 4
  {
    var d0, d1, d2, d3 := HexValue(t[0]), HexValue(t[1]), HexValue(t[2]), HexValue(t[3]);
    if d0.None? || d1.None? || d2.None? || d3.None? then None
    else
      var code := ((d0.value * 16 + d1.value) * 16 + d2.value) * 16 + d3.value;
      if 0xD800 <= code < 0xE000 then None else Some(code as char)
  }

  /** The character an escape sequence stands for (`t` follows the backslash), and its length. */
  function EscapeSequence(t: string): Option<(char, nat)>
    requires t != []
  {
    match t[0]
    case '"' => Some(('"', 1))
    case '\\' => Some(('\\', 1))
    case '/' => Some(('/', 1))
    case 'b' => Some(('\U{0008}', 1))
    case 'f' => Some(('\U{000C}', 1))
    case 'n' => Some(('\n', 1))
    case 'r' => Some(('\r', 1))
    case 't' => Some(('\t', 1))
    case 'u' =>
      if |t| < 5 then None
      else
        var code := HexCode(t[1..5]);
        if code.None? then None else Some((code.value, 5))
    case _ => None
  }

  /**
    A string body up to its closing quote, by the grammar of section 7 of RFC 8259: the
    characters read and the text after the closing quote.
  */
  function ReadBody(text: string): (r: Option<(string, string)>)
    ensures r.Some? ==> |r.value.1| < |text|
    decreases |text|
  {
    if text == [] then None
    else if text[0] == '"' then Some(([], text[1..]))
    else if text[0] == '\\' then
      if |text| < 2 then None
      else
        var e := EscapeSequence(text[1..]);
        if e.None? || |text| < 1 + e.value.1 then None
        else
          var rest := ReadBody(text[1 + e.value.1..]);
          if rest.None? then None else Some(([e.value.0] + rest.value.0, rest.value.1))
    else if text[0] < ' ' then None
    else
      var rest := ReadBody(text[1..]);
      if rest.None? then None else Some(([text[0]] + rest.value.0, rest.value.1))
  }

  lemma HexDigitValue(n: nat)
    requires n < 16
    ensures HexValue(HexDigit(n)) == Some(n)
  {
  }

  /** The four digits of a `\u00XX` escape give back the control character. */
  lemma ControlCode(c: char)
    requires c < ' '
    ensures HexCode(['0', '0', HexDigit(c as int / 16), HexDigit(c as int % 16)]) == Some(c)
  {
    var hi, lo := c as int / 16, c as int % 16;
    HexDigitValue(hi);
    HexDigitValue(lo);
    HexDigitValue(0);
    assert HexDigit(0) == '0';
    assert ((0 * 16 + 0) * 16 + hi) * 16 + lo == c as int;
  }

  /** What `ReadBody` gives once the first character has been read as `c`. */
  function ReadOn(c: char, t: string): Option<(string, string)> {
    var rest := ReadBody(t);
    if rest.None? then None else Some(([c] + rest.value.0, rest.value.1))
  }

  lemma ReadControlEscape(c: char, t: string)
    requires c < ' ' && c != '\U{0008}' && c != '\U{000C}' && c != '\n' && c != '\r' && c != '\t'
    ensures ReadBody(EscapeChar(c) + t) == ReadOn(c, t)
  {
    var text := EscapeChar(c) + t;
    var digits := ['0', '0', HexDigit(c as int / 16), HexDigit(c as int % 16)];
    assert text == ['\\', 'u'] + digits + t;
    assert text[1..][1..5] == digits;
    ControlCode(c);
    assert EscapeSequence(text[1..]) == Some((c, 5));
    assert text[6..] == t;
  }

  /** An escape of two characters, a backslash and `e`, standing for `c`. */
  lemma ReadShortEscape(c: char, e: char, t: string)
    requires EscapeChar(c) == ['\\', e]
    requires EscapeSequence([e] + t) == Some((c, 1))
    ensures ReadBody(EscapeChar(c) + t) == ReadOn(c, t)
  {
    var text := EscapeChar(c) + t;
    assert text[1..] == [e] + t;
    assert text[2..] == t;
  }

  lemma ReadPlainChar(c: char, t: string)
    requires c >= ' ' && c != '\\' && c != '"'
    ensures ReadBody(EscapeChar(c) + t) == ReadOn(c, t)
  {
    var text := EscapeChar(c) + t;
    assert text == [c] + t;
    assert text[1..] == t;
  }

  /** A character's escape is read back as that character. */
  lemma ReadEscapeChar(c: char, t: string)
    ensures ReadBody(EscapeChar(c) + t) == ReadOn(c, t)
  {
    if c == '\\' {
      ReadShortEscape(c, '\\', t);
    } else if c == '"' {
      ReadShortEscape(c, '"', t);
    } else if c == '\U{0008}' {
      ReadShortEscape(c, 'b', t);
    } else if c == '\U{000C}' {
      ReadShortEscape(c, 'f', t);
    } else if c == '\n' {
      ReadShortEscape(c, 'n', t);
    } else if c == '\r' {
      ReadShortEscape(c, 'r', t);
    } else if c == '\t' {
      ReadShortEscape(c, 't', t);
    } else if c < ' ' {
      ReadControlEscape(c, t);
    } else {
      ReadPlainChar(c, t);
    }
  }

  /** The escaped text followed by a quote reads back as the original text. */
  lemma {:induction false} ReadEscaped(s: string, rest: string)
    ensures ReadBody(Escape(s) + "\"" + rest) == Some((s, rest))
  {
    if s == [] {
      assert Escape(s) + "\"" + rest == "\"" + rest;
      assert ("\"" + rest)[1..] == rest;
    } else {
      var t := Escape(s[1..]) + "\"" + rest;
      assert Escape(s) + "\"" + rest == EscapeChar(s[0]) + t;
      ReadEscapeChar(s[0], t);
      ReadEscaped(s[1..], rest);
      assert [s[0]] + s[1..] == s;
    }
  }

  /** Different texts have different escapes. */
  lemma EscapeInjective(a: string, b: string)
    requires Escape(a) == Escape(b)
    ensures a == b
  {
    ReadEscaped(a, "");
    ReadEscaped(b, "");
  }

  // ---------------------------------------------------------------------------
  // toJsonObject

  /** Items with `sep` between consecutive ones. */
  function JoinWith(items: seq<string>, sep: string): string {
    if items == [] then []
    else if |items| == 1 then items[0]
    else items[0] + sep + JoinWith(items[1..], sep)
  }

  lemma {:induction false} JoinWithSnoc(items: seq<string>, x: string, sep: string)
    ensures JoinWith(items + [x], sep) == if items == [] then x else JoinWith(items, sep) + sep + x
  {
    var s := items + [x];
    if |items| == 1 {
      assert s[0] == items[0] && s[1..] == [x];
      assert JoinWith(items, sep) == items[0];
      assert JoinWith(s, sep) == items[0] + sep + JoinWith([x], sep);
    } else if |items| > 1 {
      assert s[0] == items[0] && s[1..] == items[1..] + [x];
      JoinWithSnoc(items[1..], x, sep);
      var inner := JoinWith(items[1..], sep);
      assert JoinWith(s, sep) == items[0] + sep + (inner + sep + x);
      assert JoinWith(items, sep) == items[0] + sep + inner;
      Regroup(items[0], sep, inner, x);
    } else {
      assert s == [x];
    }
  }

  lemma Regroup(a: string, sep: string, b: string, x: string)
    ensures a + sep + (b + sep + x) == a + sep + b + sep + x
  {
  }

  lemma JoinCons(texts: seq<string>, sep: string, end: string, rest: string)
    requires |texts| > 1
    ensures JoinWith(texts, sep) + end + rest == texts[0] + (sep + (JoinWith(texts[1..], sep) + end + rest))
  {
  }

  /** An object's members, in insertion order. */
  type Members = seq<(string, string)>

  /** One member: the key and the value as string literals. */
  function MemberText(key: string, value: string): string {
    "\"" + Escape(key) + "\": \"" + Escape(value) + "\""
  }

  function MemberTexts(obj: Members): (ts: seq<string>)
    ensures |ts| == |obj|
    ensures forall i :: 0 <= i < |obj| ==> ts[i] == MemberText(obj[i].0, obj[i].1)
  {
    if obj == [] then [] else [MemberText(obj[0].0, obj[0].1)] + MemberTexts(obj[1..])
  }

  /** The text `toJsonObject` writes for an object. */
  function ObjectText(obj: Members): string {
    "{" + JoinWith(MemberTexts(obj), ", ") + "}"
  }

  /** One member as `toJsonObject` appends it. */
  method WriteMember(key: string, value: string) returns (t: string)
    ensures t == MemberText(key, value)
  {
    var k := JsonEscape(key);
    var v := JsonEscape(value);
    t := "\"" + k + "\": " + "\"" + v + "\"";
  }

  lemma MemberTextsSnoc(obj: Members, k: nat)
    requires k < |obj|
    ensures MemberTexts(obj[..k + 1]) == MemberTexts(obj[..k]) + [MemberText(obj[k].0, obj[k].1)]
  {
    assert obj[..k + 1] == obj[..k] + [obj[k]];
  }

  /** `toJsonObject`: the members in order, separated by a comma and a space. */
  method ToJsonObject(obj: Members) returns (r: string)
    ensures r == ObjectText(obj)
  {
    var sb := "{";
    var k := 0;
    assert sb == "{" + JoinWith(MemberTexts(obj[..0]), ", ");
    while k < |obj|
      invariant 0 <= k <= |obj|
      invariant sb == "{" + JoinWith(MemberTexts(obj[..k]), ", ")
    {
      var prefix := MemberTexts(obj[..k]);
      AppendItem(sb, "{", prefix, MemberText(obj[k].0, obj[k].1), ", ");
      MemberTextsSnoc(obj, k);
      if k > 0 {
        sb := sb + ", ";
      }
      var member := WriteMember(obj[k].0, obj[k].1);
      sb := sb + member;
      k := k + 1;
    }
    assert obj[..k] == obj;
    r := sb + "}";
  }

  /** The text after `lit`, when `text` starts with it. */
  function Expect(lit: string, text: string): (r: Option<string>)
    ensures r.Some? ==> |r.value| == |text| - |lit|
  {
    if |lit| <= |text| && text[..|lit|] == lit then Some(text[|lit|..]) else None
  }

  lemma ExpectPrefix(lit: string, rest: string)
    ensures Expect(lit, lit + rest) == Some(rest)
  {
    assert (lit + rest)[..|lit|] == lit;
    assert (lit + rest)[|lit|..] == rest;
  }

  /** A string literal: the opening quote, then its body. */
  function ReadString(text: string): (r: Option<(string, string)>)
    ensures r.Some? ==> |r.value.1| < |text|
  {
    var t := Expect("\"", text);
    if t.None? then None else ReadBody(t.value)
  }

  function ReadMember(text: string): (r: Option<((string, string), string)>)
    ensures r.Some? ==> |r.value.1| < |text|
  {
    var k := ReadString(text);
    if k.None? then None
    else
      var t := Expect(": ", k.value.1);
      if t.None? then None
      else
        var v := ReadString(t.value);
        if v.None? then None else Some(((k.value.0, v.value.0), v.value.1))
  }

  /** Members separated by a comma and a space, up to the closing brace. */
  function ReadMembers(text: string): (r: Option<(Members, string)>)
    ensures r.Some? ==> |r.value.1| < |text|
    decreases |text|
  {
    var m := ReadMember(text);
    if m.None? then None
    else
      var t := m.value.1;
      if t != [] && t[0] == '}' then Some(([m.value.0], t[1..]))
      else if Expect(", ", t).None? then None
      else
        var more := ReadMembers(Expect(", ", t).value);
        if more.None? then None else Some(([m.value.0] + more.value.0, more.value.1))
  }

  /** An object in the layout `toJsonObject` writes. */
  function ReadObject(text: string): (r: Option<(Members, string)>)
    ensures r.Some? ==> |r.value.1| < |text|
  {
    var t := Expect("{", text);
    if t.None? then None
    else if t.value != [] && t.value[0] == '}' then Some(([], t.value[1..]))
    else ReadMembers(t.value)
  }

  lemma MemberTextSplit(key: string, value: string, rest: string)
    ensures MemberText(key, value) + rest
         == "\"" + (Escape(key) + "\"" + (": " + ("\"" + (Escape(value) + "\"" + rest))))
  {
    var k, v := Escape(key), Escape(value);
    assert MemberText(key, value) == "\"" + k + "\": \"" + v + "\"";
    MemberRegroup(k, v, rest);
  }

  lemma MemberRegroup(k: string, v: string, rest: string)
    ensures "\"" + k + "\": \"" + v + "\"" + rest == "\"" + (k + "\"" + (": " + ("\"" + (v + "\"" + rest))))
  {
    assert "\": \"" == "\"" + ": " + "\"";
  }

  /** A member reads back as its key and value. */
  lemma ReadMemberText(key: string, value: string, rest: string)
    ensures ReadMember(MemberText(key, value) + rest) == Some(((key, value), rest))
  {
    var afterValue := Escape(value) + "\"" + rest;
    var afterKey := ": " + ("\"" + afterValue);
    MemberTextSplit(key, value, rest);
    ExpectPrefix("\"", Escape(key) + "\"" + afterKey);
    ReadEscaped(key, afterKey);
    ExpectPrefix(": ", "\"" + afterValue);
    ExpectPrefix("\"", afterValue);
    ReadEscaped(value, rest);
  }

  /** `ReadMembers` from the results of its steps. */
  lemma ReadMembersSteps(text: string, m: (string, string), after: string, more: Option<(Members, string)>,
                         obj: Members, rest: string)
    requires ReadMember(text) == Some((m, after))
    requires more.None? ==> after != [] && after[0] == '}' && after[1..] == rest && obj == [m]
    requires more.Some? ==> Expect(", ", after).Some? && (after == [] || after[0] != '}')
                            && ReadMembers(Expect(", ", after).value) == more
                            && obj == [m] + more.value.0 && rest == more.value.1
    ensures ReadMembers(text) == Some((obj, rest))
  {
  }

  lemma {:induction false} ReadMembersText(obj: Members, rest: string)
    requires obj != []
    ensures ReadMembers(JoinWith(MemberTexts(obj), ", ") + "}" + rest) == Some((obj, rest))
    decreases |obj|
  {
    var texts := MemberTexts(obj);
    var m := texts[0];
    var text := JoinWith(texts, ", ") + "}" + rest;
    if |obj| == 1 {
      assert text == m + ("}" + rest);
      ReadMemberText(obj[0].0, obj[0].1, "}" + rest);
      assert ("}" + rest)[1..] == rest;
      ReadMembersSteps(text, obj[0], "}" + rest, None, obj, rest);
    } else {
      var tail := JoinWith(MemberTexts(obj[1..]), ", ") + "}" + rest;
      assert texts[1..] == MemberTexts(obj[1..]);
      JoinCons(texts, ", ", "}", rest);
      assert text == m + (", " + tail);
      ReadMemberText(obj[0].0, obj[0].1, ", " + tail);
      ExpectPrefix(", ", tail);
      ReadMembersText(obj[1..], rest);
      assert [obj[0]] + obj[1..] == obj;
      ReadMembersSteps(text, obj[0], ", " + tail, Some((obj[1..], rest)), obj, rest);
    }
  }

  /** An object written by `toJsonObject` reads back as its members, in order. */
  lemma ReadObjectText(obj: Members, rest: string)
    ensures ReadObject(ObjectText(obj) + rest) == Some((obj, rest))
  {
    var body := JoinWith(MemberTexts(obj), ", ") + "}" + rest;
    assert ObjectText(obj) + rest == "{" + body;
    assert Expect("{", "{" + body) == Some(body) by {
      ExpectPrefix("{", body);
    }
    if obj == [] {
      assert body == "}" + rest;
      assert body[1..] == rest;
    } else {
      assert body[0] == '"' by {
        var texts := MemberTexts(obj);
        assert texts[0] == MemberText(obj[0].0, obj[0].1);
        assert JoinWith(texts, ", ")[0] == '"';
      }
      ReadMembersText(obj, rest);
    }
  }

  /** Different objects are written as different texts. */
  lemma ObjectTextInjective(a: Members, b: Members)
    requires ObjectText(a) == ObjectText(b)
    ensures a == b
  {
    ReadObjectText(a, "");
    ReadObjectText(b, "");
    assert ObjectText(a) + "" == ObjectText(a);
    assert ObjectText(b) + "" == ObjectText(b);
  }

  // ---------------------------------------------------------------------------
  // toJsonGrouped

  /** One group: the object name and its records, in the order they were added. */
  type Group = (string, seq<Members>)

  function RecordTexts(records: seq<Members>): (ts: seq<string>)
    ensures |ts| == |records|
    ensures forall i :: 0 <= i < |records| ==> ts[i] == "    " + ObjectText(records[i])
  {
    if records == [] then [] else ["    " + ObjectText(records[0])] + RecordTexts(records[1..])
  }

  /** A group as an array member of the top-level object. */
  function GroupText(g: Group): string {
    "  \"" + Escape(g.0) + "\": [\n" + JoinWith(RecordTexts(g.1), ",\n") + "\n  ]"
  }

  function GroupTexts(groups: seq<Group>): (ts: seq<string>)
    ensures |ts| == |groups|
    ensures forall i :: 0 <= i < |groups| ==> ts[i] == GroupText(groups[i])
  {
    if groups == [] then [] else [GroupText(groups[0])] + GroupTexts(groups[1..])
  }

  /** The text `toJsonGrouped` writes. */
  function GroupedText(groups: seq<Group>): string {
    "{\n" + JoinWith(GroupTexts(groups), ",\n") + "\n}\n"
  }

  /** One loop step of the writers: a separator unless first, then the next item. */
  lemma AppendItem(acc: string, head: string, items: seq<string>, x: string, sep: string)
    requires acc == head + JoinWith(items, sep)
    ensures (if items == [] then acc else acc + sep) + x == head + JoinWith(items + [x], sep)
  {
    JoinWithSnoc(items, x, sep);
  }

  lemma RecordTextsSnoc(records: seq<Members>, i: nat)
    requires i < |records|
    ensures RecordTexts(records[..i + 1]) == RecordTexts(records[..i]) + ["    " + ObjectText(records[i])]
  {
    assert records[..i + 1] == records[..i] + [records[i]];
  }

  lemma GroupTextsSnoc(groups: seq<Group>, n: nat)
    requires n < |groups|
    ensures GroupTexts(groups[..n + 1]) == GroupTexts(groups[..n]) + [GroupText(groups[n])]
  {
    assert groups[..n + 1] == groups[..n] + [groups[n]];
  }

  /** One group as `toJsonGrouped` appends it: the key, then the records one per line. */
  method WriteGroup(key: string, records: seq<Members>) returns (t: string)
    ensures t == GroupText((key, records))
  {
    var k := JsonEscape(key);
    var head := "  \"" + k + "\": [\n";
    t := head;
    var i := 0;
    assert t == head + JoinWith(RecordTexts(records[..0]), ",\n");
    while i < |records|
      invariant 0 <= i <= |records|
      invariant t == head + JoinWith(RecordTexts(records[..i]), ",\n")
    {
      var prefix := RecordTexts(records[..i]);
      AppendItem(t, head, prefix, "    " + ObjectText(records[i]), ",\n");
      RecordTextsSnoc(records, i);
      if i > 0 {
        t := t + ",\n";
      }
      var obj := ToJsonObject(records[i]);
      t := t + ("    " + obj);
      i := i + 1;
    }
    assert records[..i] == records;
    t := t + "\n  ]";
  }

  /** `toJsonGrouped`: the groups in order, separated by a comma and a line break. */
  method ToJsonGrouped(groups: seq<Group>) returns (r: string)
    ensures r == GroupedText(groups)
  {
    var head := "{\n";
    var sb := head;
    var n := 0;
    assert sb == head + JoinWith(GroupTexts(groups[..0]), ",\n");
    while n < |groups|
      invariant 0 <= n <= |groups|
      invariant sb == head + JoinWith(GroupTexts(groups[..n]), ",\n")
    {
      var prefix := GroupTexts(groups[..n]);
      AppendItem(sb, head, prefix, GroupText(groups[n]), ",\n");
      GroupTextsSnoc(groups, n);
      if n > 0 {
        sb := sb + ",\n";
      }
      var g := WriteGroup(groups[n].0, groups[n].1);
      sb := sb + g;
      n := n + 1;
    }
    assert groups[..n] == groups;
    r := sb + "\n}\n";
  }

  /** Records, one per line, up to the closing bracket of their array. */
  function ReadRecords(text: string): (r: Option<(seq<Members>, string)>)
    ensures r.Some? ==> |r.value.1| < |text|
    decreases |text|
  {
    var t := Expect("    ", text);
    if t.None? then None
    else
      var o := ReadObject(t.value);
      if o.None? then None
      else
        var after := o.value.1;
        if after != [] && after[0] == ',' then
          var next := Expect(",\n", after);
          if next.None? then None
          else
            var more := ReadRecords(next.value);
            if more.None? then None else Some(([o.value.0] + more.value.0, more.value.1))
        else
          var end := Expect("\n  ]", after);
          if end.None? then None else Some(([o.value.0], end.value))
  }

  function ReadGroup(text: string): (r: Option<(Group, string)>)
    ensures r.Some? ==> |r.value.1| < |text|
  {
    var t := Expect("  ", text);
    if t.None? then None
    else
      var key := ReadString(t.value);
      if key.None? then None
      else
        var open := Expect(": [\n", key.value.1);
        if open.None? then None
        else if open.value != [] && open.value[0] == '\n' then
          var end := Expect("\n  ]", open.value);
          if end.None? then None else Some(((key.value.0, []), end.value))
        else
          var records := ReadRecords(open.value);
          if records.None? then None else Some(((key.value.0, records.value.0), records.value.1))
  }

  function ReadGroups(text: string): (r: Option<(seq<Group>, string)>)
    ensures r.Some? ==> |r.value.1| < |text|
    decreases |text|
  {
    var g := ReadGroup(text);
    if g.None? then None
    else
      var after := g.value.1;
      if after != [] && after[0] == ',' then
        var next := Expect(",\n", after);
        if next.None? then None
        else
          var more := ReadGroups(next.value);
          if more.None? then None else Some(([g.value.0] + more.value.0, more.value.1))
      else
        var end := Expect("\n}\n", after);
        if end.None? then None else Some(([g.value.0], end.value))
  }

  /** A whole document in the layout `toJsonGrouped` writes. */
  function ReadGrouped(text: string): Option<(seq<Group>, string)> {
    var t := Expect("{\n", text);
    if t.None? then None
    else if t.value != [] && t.value[0] == '\n' then
      var end := Expect("\n}\n", t.value);
      if end.None? then None else Some(([], end.value))
    else ReadGroups(t.value)
  }

  /** `ReadRecords` from the results of its steps. */
  lemma ReadRecordsSteps(text: string, obj: Members, after: string, more: Option<(seq<Members>, string)>,
                         records: seq<Members>, rest: string)
    requires Expect("    ", text).Some? && ReadObject(Expect("    ", text).value) == Some((obj, after))
    requires more.None? ==> after != [] && after[0] == '\n' && Expect("\n  ]", after) == Some(rest) && records == [obj]
    requires more.Some? ==> after != [] && after[0] == ',' && Expect(",\n", after).Some?
                            && ReadRecords(Expect(",\n", after).value) == more
                            && records == [obj] + more.value.0 && rest == more.value.1
    ensures ReadRecords(text) == Some((records, rest))
  {
  }

  lemma ReadRecordsLast(obj: Members, rest: string)
    ensures ReadRecords(JoinWith(RecordTexts([obj]), ",\n") + "\n  ]" + rest) == Some(([obj], rest))
  {
    var text := JoinWith(RecordTexts([obj]), ",\n") + "\n  ]" + rest;
    var after := "\n  ]" + rest;
    assert text == "    " + (ObjectText(obj) + after);
    assert Expect("    ", text) == Some(ObjectText(obj) + after) by {
      ExpectPrefix("    ", ObjectText(obj) + after);
    }
    assert ReadObject(ObjectText(obj) + after) == Some((obj, after)) by {
      ReadObjectText(obj, after);
    }
    assert Expect("\n  ]", after) == Some(rest) by {
      ExpectPrefix("\n  ]", rest);
    }
    ReadRecordsSteps(text, obj, after, None, [obj], rest);
  }

  lemma RecordTextsCons(records: seq<Members>)
    requires records != []
    ensures RecordTexts(records) == ["    " + ObjectText(records[0])] + RecordTexts(records[1..])
  {
  }

  lemma Prefixed(pre: string, body: string, x: string)
    ensures (pre + body) + x == pre + (body + x)
  {
  }

  lemma RecordsTextCons(records: seq<Members>, rest: string)
    requires |records| > 1
    ensures JoinWith(RecordTexts(records), ",\n") + "\n  ]" + rest
         == "    " + (ObjectText(records[0]) + (",\n" + (JoinWith(RecordTexts(records[1..]), ",\n") + "\n  ]" + rest)))
  {
    var texts := RecordTexts(records);
    var tail := RecordTexts(records[1..]);
    RecordTextsCons(records);
    assert texts[1..] == tail;
    JoinCons(texts, ",\n", "\n  ]", rest);
    Prefixed("    ", ObjectText(records[0]), ",\n" + (JoinWith(tail, ",\n") + "\n  ]" + rest));
  }

  lemma ReadRecordsCons(records: seq<Members>, rest: string)
    requires |records| > 1
    requires ReadRecords(JoinWith(RecordTexts(records[1..]), ",\n") + "\n  ]" + rest) == Some((records[1..], rest))
    ensures ReadRecords(JoinWith(RecordTexts(records), ",\n") + "\n  ]" + rest) == Some((records, rest))
  {
    var obj := records[0];
    var text := JoinWith(RecordTexts(records), ",\n") + "\n  ]" + rest;
    var tail := JoinWith(RecordTexts(records[1..]), ",\n") + "\n  ]" + rest;
    var after := ",\n" + tail;
    RecordsTextCons(records, rest);
    assert Expect("    ", text) == Some(ObjectText(obj) + after) by {
      ExpectPrefix("    ", ObjectText(obj) + after);
    }
    assert ReadObject(ObjectText(obj) + after) == Some((obj, after)) by {
      ReadObjectText(obj, after);
    }
    assert Expect(",\n", after) == Some(tail) by {
      ExpectPrefix(",\n", tail);
    }
    assert [obj] + records[1..] == records;
    ReadRecordsSteps(text, obj, after, Some((records[1..], rest)), records, rest);
  }

  lemma {:induction false} ReadRecordsText(records: seq<Members>, rest: string)
    requires records != []
    ensures ReadRecords(JoinWith(RecordTexts(records), ",\n") + "\n  ]" + rest) == Some((records, rest))
    decreases |records|
  {
    if |records| == 1 {
      ReadRecordsLast(records[0], rest);
      assert [records[0]] == records;
    } else {
      ReadRecordsText(records[1..], rest);
      ReadRecordsCons(records, rest);
    }
  }

  /** `ReadGroup` from the results of its steps. */
  lemma ReadGroupSteps(text: string, quoted: string, key: string, afterKey: string, body: string,
                       records: seq<Members>, rest: string)
    requires Expect("  ", text) == Some(quoted)
    requires ReadString(quoted) == Some((key, afterKey))
    requires Expect(": [\n", afterKey) == Some(body)
    requires records == [] ==> Expect("\n  ]", body) == Some(rest) && body[0] == '\n'
    requires records != [] ==> body != [] && body[0] == ' ' && ReadRecords(body) == Some((records, rest))
    ensures ReadGroup(text) == Some(((key, records), rest))
  {
  }

  /** The records of a group, their closing bracket and what follows. */
  function RecordsBody(records: seq<Members>, rest: string): string {
    JoinWith(RecordTexts(records), ",\n") + "\n  ]" + rest
  }

  lemma GroupTextSplit(g: Group, rest: string)
    ensures GroupText(g) + rest == "  " + ("\"" + (Escape(g.0) + "\"" + (": [\n" + RecordsBody(g.1, rest))))
  {
    var e, j := Escape(g.0), JoinWith(RecordTexts(g.1), ",\n");
    assert GroupText(g) == "  \"" + e + "\": [\n" + j + "\n  ]";
    assert RecordsBody(g.1, rest) == j + "\n  ]" + rest;
    GroupRegroup(e, j, rest);
  }

  lemma GroupRegroup(e: string, j: string, rest: string)
    ensures "  \"" + e + "\": [\n" + j + "\n  ]" + rest
         == "  " + ("\"" + (e + "\"" + (": [\n" + (j + "\n  ]" + rest))))
  {
    assert "  \"" == "  " + "\"";
    assert "\": [\n" == "\"" + ": [\n";
  }

  lemma GroupHeader(key: string, body: string)
    ensures var afterKey := ": [\n" + body;
      ReadString("\"" + (Escape(key) + "\"" + afterKey)) == Some((key, afterKey))
      && Expect(": [\n", afterKey) == Some(body)
  {
    var afterKey := ": [\n" + body;
    ExpectPrefix("\"", Escape(key) + "\"" + afterKey);
    ReadEscaped(key, afterKey);
    ExpectPrefix(": [\n", body);
  }

  lemma ReadRecordsBody(records: seq<Members>, rest: string)
    ensures var body := RecordsBody(records, rest);
      (records == [] ==> Expect("\n  ]", body) == Some(rest) && body[0] == '\n')
      && (records != [] ==> body != [] && body[0] == ' ' && ReadRecords(body) == Some((records, rest)))
  {
    var body := RecordsBody(records, rest);
    if records == [] {
      assert body == "\n  ]" + rest;
      ExpectPrefix("\n  ]", rest);
    } else {
      var texts := RecordTexts(records);
      assert texts[0] == "    " + ObjectText(records[0]);
      assert JoinWith(texts, ",\n")[0] == ' ';
      ReadRecordsText(records, rest);
    }
  }

  lemma ReadGroupText(g: Group, rest: string)
    ensures ReadGroup(GroupText(g) + rest) == Some((g, rest))
  {
    var body := RecordsBody(g.1, rest);
    var afterKey := ": [\n" + body;
    var quoted := "\"" + (Escape(g.0) + "\"" + afterKey);
    GroupTextSplit(g, rest);
    ExpectPrefix("  ", quoted);
    GroupHeader(g.0, body);
    ReadRecordsBody(g.1, rest);
    ReadGroupSteps(GroupText(g) + rest, quoted, g.0, afterKey, body, g.1, rest);
  }

  /** `ReadGroups` from the results of its steps. */
  lemma ReadGroupsSteps(text: string, g: Group, after: string, more: Option<(seq<Group>, string)>,
                        groups: seq<Group>, rest: string)
    requires ReadGroup(text) == Some((g, after))
    requires more.None? ==> after != [] && after[0] == '\n' && Expect("\n}\n", after) == Some(rest) && groups == [g]
    requires more.Some? ==> after != [] && after[0] == ',' && Expect(",\n", after).Some?
                            && ReadGroups(Expect(",\n", after).value) == more
                            && groups == [g] + more.value.0 && rest == more.value.1
    ensures ReadGroups(text) == Some((groups, rest))
  {
  }

  lemma ReadGroupsLast(g: Group, rest: string)
    ensures ReadGroups(JoinWith(GroupTexts([g]), ",\n") + "\n}\n" + rest) == Some(([g], rest))
  {
    var text := JoinWith(GroupTexts([g]), ",\n") + "\n}\n" + rest;
    var after := "\n}\n" + rest;
    assert text == GroupText(g) + after;
    assert ReadGroup(GroupText(g) + after) == Some((g, after)) by {
      ReadGroupText(g, after);
    }
    assert Expect("\n}\n", after) == Some(rest) by {
      ExpectPrefix("\n}\n", rest);
    }
    ReadGroupsSteps(text, g, after, None, [g], rest);
  }

  lemma GroupsTextCons(groups: seq<Group>, rest: string)
    requires |groups| > 1
    ensures JoinWith(GroupTexts(groups), ",\n") + "\n}\n" + rest
         == GroupText(groups[0]) + (",\n" + (JoinWith(GroupTexts(groups[1..]), ",\n") + "\n}\n" + rest))
  {
    var texts := GroupTexts(groups);
    assert texts[1..] == GroupTexts(groups[1..]);
    JoinCons(texts, ",\n", "\n}\n", rest);
  }

  lemma ReadGroupsCons(groups: seq<Group>, rest: string)
    requires |groups| > 1
    requires ReadGroups(JoinWith(GroupTexts(groups[1..]), ",\n") + "\n}\n" + rest) == Some((groups[1..], rest))
    ensures ReadGroups(JoinWith(GroupTexts(groups), ",\n") + "\n}\n" + rest) == Some((groups, rest))
  {
    var g := groups[0];
    var text := JoinWith(GroupTexts(groups), ",\n") + "\n}\n" + rest;
    var tail := JoinWith(GroupTexts(groups[1..]), ",\n") + "\n}\n" + rest;
    var after := ",\n" + tail;
    assert ReadGroup(text) == Some((g, after)) by {
      GroupsTextCons(groups, rest);
      ReadGroupText(g, after);
    }
    assert after[0] == ',' && Expect(",\n", after) == Some(tail) by {
      ExpectPrefix(",\n", tail);
    }
    assert [g] + groups[1..] == groups;
    ReadGroupsSteps(text, g, after, Some((groups[1..], rest)), groups, rest);
  }

  lemma {:induction false} ReadGroupsText(groups: seq<Group>, rest: string)
    requires groups != []
    ensures ReadGroups(JoinWith(GroupTexts(groups), ",\n") + "\n}\n" + rest) == Some((groups, rest))
    decreases |groups|
  {
    if |groups| == 1 {
      ReadGroupsLast(groups[0], rest);
      assert [groups[0]] == groups;
    } else {
      ReadGroupsText(groups[1..], rest);
      ReadGroupsCons(groups, rest);
    }
  }

  /**
    The document `toJsonGrouped` writes reads back as the same groups, keys, records and
    members, in the same order, with nothing after it.
  */
  lemma GroupedRoundTrip(groups: seq<Group>)
    ensures ReadGrouped(GroupedText(groups)) == Some((groups, ""))
  {
    var joined := JoinWith(GroupTexts(groups), ",\n");
    var body := joined + "\n}\n" + "";
    assert GroupedText(groups) == "{\n" + body;
    ExpectPrefix("{\n", body);
    if groups == [] {
      assert body == "\n}\n" + "";
      ExpectPrefix("\n}\n", "");
    } else {
      GroupsStart(groups);
      assert body[0] == joined[0];
      ReadGroupsText(groups, "");
    }
  }

  /** The written groups start with the indentation of the first one. */
  lemma GroupsStart(groups: seq<Group>)
    requires groups != []
    ensures JoinWith(GroupTexts(groups), ",\n") != [] && JoinWith(GroupTexts(groups), ",\n")[0] == ' '
  {
    var texts := GroupTexts(groups);
    var first := GroupText(groups[0]);
    assert texts[0] == first;
    assert first[0] == ' ';
    if |texts| > 1 {
      assert JoinWith(texts, ",\n") == first + ",\n" + JoinWith(texts[1..], ",\n");
    }
  }
}
