/**
  JavaScript string primitives that the decay registry and the two timelines rely on:
  decimal rendering (`Number.prototype.toString`), `padStart`, `split` on one character,
  `String.prototype.trim`, `parseInt(s, 10)`, and the conversions `String(v)` and
  truthiness of the loosely typed values read out of JSON records.
*/
module Text {
  import opened Wrappers

  // ---------------------------------------------------------------------------
  // Digits and decimal rendering

  predicate IsDigit(c: char) {
    '0' <= c <= '9'
  }

  function DigitValue(c: char): (d: nat)
    requires IsDigit(c)
    ensures d < 10
  {
    c as int - '0' as int
  }

  function DigitChar(d: nat): (c: char)
    requires d < 10
    ensures IsDigit(c) && DigitValue(c) == d
  {
    (d + '0' as int) as char
  }

  /** The decimal digits of `n`, most significant first, without leading zeros. */
  function NatDigits(n: nat): (s: string)
    ensures |s| >= 1
    ensures forall i :: 0 <= i < |s| ==> IsDigit(s[i])
    ensures n < 10 <==> |s| == 1
    decreases n
  {
    if n < 10 then [DigitChar(n)] else NatDigits(n / 10) + [DigitChar(n % 10)]
  }

  /** `n.toString()` for an integral number: an optional minus sign, then the digits. */
  function DecimalString(n: int): (s: string)
    ensures |s| >= 1
  {
    if n < 0 then "-" + NatDigits(-n) else NatDigits(n)
  }

  /** The value of a non-empty run of decimal digits. */
  function DigitsValue(ds: string): nat
    requires forall i :: 0 <= i < |ds| ==> IsDigit(ds[i])
  {
    if ds == [] then 0 else DigitsValue(ds[..|ds| - 1]) * 10 + DigitValue(ds[|ds| - 1])
  }

  /** Reading back the digits of `n` gives `n`. */
  lemma {:induction false} DigitsValueOfNatDigits(n: nat)
    ensures DigitsValue(NatDigits(n)) == n
    decreases n
  {
    if n >= 10 {
      var ds := NatDigits(n);
      assert ds[..|ds| - 1] == NatDigits(n / 10);
      DigitsValueOfNatDigits(n / 10);
    }
  }

  /** A leading zero does not change the value of a digit run. */
  lemma {:induction false} DigitsValueLeadingZero(ds: string)
    requires forall i :: 0 <= i < |ds| ==> IsDigit(ds[i])
    ensures DigitsValue(['0'] + ds) == DigitsValue(ds)
  {
    if ds != [] {
      var zs := ['0'] + ds;
      assert zs[..|zs| - 1] == ['0'] + ds[..|ds| - 1];
      DigitsValueLeadingZero(ds[..|ds| - 1]);
    }
  }

  // ---------------------------------------------------------------------------
  // padStart, split, join

  /** `s.padStart(len, fill)`: prefix `fill` until the length reaches `len`. */
  function PadStart(s: string, len: nat, fill: char): (r: string)
    ensures |r| == if |s| >= len then |s| else len
    ensures r[|r| - |s|..] == s
    ensures forall i :: 0 <= i < |r| - |s| ==> r[i] == fill
  {
    if |s| >= len then s else seq(len - |s|, _ => fill) + s
  }

  /** `s.split(sep)` for a one-character separator (every occurrence splits, empty parts kept). */
  function Split(s: string, sep: char): (parts: seq<string>)
    ensures |parts| >= 1
    ensures forall i :: 0 <= i < |parts| ==> sep !in parts[i]
    ensures Join(parts, sep) == s
  {
    if s == [] then [[]]
    else if s[0] == sep then [[]] + Split(s[1..], sep)
    else
      var rest := Split(s[1..], sep);
      [[s[0]] + rest[0]] + rest[1..]
  }

  /** `parts.join(sep)`. */
  function Join(parts: seq<string>, sep: char): string
    requires |parts| >= 1
  {
    if |parts| == 1 then parts[0] else parts[0] + [sep] + Join(parts[1..], sep)
  }

  /** Splitting a join of separator-free parts gives the parts back. */
  lemma {:induction false} SplitJoin(parts: seq<string>, sep: char)
    requires |parts| >= 1
    requires forall i :: 0 <= i < |parts| ==> sep !in parts[i]
    ensures Split(Join(parts, sep), sep) == parts
    decreases |parts|, |parts[0]|
  {
    var p := parts[0];
    if |parts| == 1 {
      SplitNoSeparator(p, sep);
    } else if p == [] {
      var j := Join(parts[1..], sep);
      assert Join(parts, sep) == [sep] + j;
      SplitJoin(parts[1..], sep);
      assert ([sep] + j)[1..] == j;
    } else {
      var shorter := [p[1..]] + parts[1..];
      var s := Join(parts, sep);
      assert s == [p[0]] + (p[1..] + [sep] + Join(parts[1..], sep));
      assert shorter[1..] == parts[1..];
      assert Join(shorter, sep) == s[1..];
      assert s[0] == p[0] && p[0] != sep;
      SplitJoin(shorter, sep);
      assert [p[0]] + p[1..] == p;
    }
  }

  /** Three separator-free parts joined by the separator split back into those parts. */
  lemma SplitThree(a: string, b: string, c: string, sep: char)
    requires sep !in a && sep !in b && sep !in c
    ensures Split(a + [sep] + b + [sep] + c, sep) == [a, b, c]
  {
    var parts := [a, b, c];
    var bc := [b, c];
    assert parts[1..] == bc;
    assert bc[1..] == [c];
    assert Join([c], sep) == c;
    assert Join(bc, sep) == b + [sep] + c;
    assert Join(parts, sep) == a + [sep] + (b + [sep] + c);
    assert a + [sep] + (b + [sep] + c) == a + [sep] + b + [sep] + c;
    SplitJoin(parts, sep);
  }

  lemma SplitTwo(a: string, b: string, sep: char)
    requires sep !in a && sep !in b
    ensures Split(a + [sep] + b, sep) == [a, b]
  {
    var parts := [a, b];
    assert parts[1..] == [b];
    assert Join([b], sep) == b;
    assert Join(parts, sep) == a + [sep] + b;
    SplitJoin(parts, sep);
  }

  lemma {:induction false} SplitNoSeparator(s: string, sep: char)
    requires sep !in s
    ensures Split(s, sep) == [s]
  {
    if s != [] {
      SplitNoSeparator(s[1..], sep);
    }
  }

  // ---------------------------------------------------------------------------
  // JavaScript white space, trim and parseInt

  /** The code points ECMAScript counts as WhiteSpace or LineTerminator. */
  predicate IsJsSpace(c: char) {
    c == '\t' || c == '\n' || c == '\U{000B}' || c == '\U{000C}' || c == '\r' || c == ' '
    || c == '\U{00A0}' || c == '\U{1680}' || ('\U{2000}' <= c <= '\U{200A}')
    || c == '\U{2028}' || c == '\U{2029}' || c == '\U{202F}' || c == '\U{205F}'
    || c == '\U{3000}' || c == '\U{FEFF}'
  }

  function TrimStartJs(s: string): (r: string)
    ensures |r| <= |s| && r == s[|s| - |r|..]
    ensures r == [] || !IsJsSpace(r[0])
    ensures forall i :: 0 <= i < |s| - |r| ==> IsJsSpace(s[i])
  {
    if s != [] && IsJsSpace(s[0]) then TrimStartJs(s[1..]) else s
  }

  function TrimEndJs(s: string): (r: string)
    ensures |r| <= |s| && r == s[..|r|]
    ensures r == [] || !IsJsSpace(r[|r| - 1])
    ensures forall i :: |r| <= i < |s| ==> IsJsSpace(s[i])
  {
    if s != [] && IsJsSpace(s[|s| - 1]) then TrimEndJs(s[..|s| - 1]) else s
  }

  /** `s.trim()`. */
  function TrimJs(s: string): (r: string)
    ensures r == [] || (!IsJsSpace(r[0]) && !IsJsSpace(r[|r| - 1]))
  {
    TrimEndJs(TrimStartJs(s))
  }

  /** The longest prefix of `s` made of decimal digits. */
  function LeadingDigits(s: string): (ds: string)
    ensures |ds| <= |s| && ds == s[..|ds|]
    ensures forall i :: 0 <= i < |ds| ==> IsDigit(ds[i])
    ensures |ds| == |s| || !IsDigit(s[|ds|])
  {
    if s != [] && IsDigit(s[0]) then [s[0]] + LeadingDigits(s[1..]) else []
  }

  /**
    `parseInt(s, 10)`: skip leading white space, read an optional sign, then the longest
    run of decimal digits; `None` stands for NaN (no digits at all). Negative zero and
    positive zero are both 0, which is all the callers can tell apart (both are falsy).
  */
  function ParseInt(s: string): (r: Option<int>)
  {
    var t := TrimStartJs(s);
    var negative := t != [] && t[0] == '-';
    var body := if t != [] && (t[0] == '-' || t[0] == '+') then t[1..] else t;
    var ds := LeadingDigits(body);
    if ds == [] then None
    else
      var v: int := DigitsValue(ds);
      if negative then Some(-v) else Some(v)
  }

  /** A string made only of decimal digits parses to its digit value. */
  lemma ParseIntOfDigits(ds: string)
    requires ds != []
    requires forall i :: 0 <= i < |ds| ==> IsDigit(ds[i])
    ensures ParseInt(ds) == Some(DigitsValue(ds))
  {
    DigitNotSpace(ds[0]);
    assert TrimStartJs(ds) == ds;
    assert ds[0] != '-' && ds[0] != '+';
    var ld := LeadingDigits(ds);
    assert |ld| == |ds|;
    assert ld == ds;
  }

  lemma DigitNotSpace(c: char)
    requires IsDigit(c)
    ensures !IsJsSpace(c)
  {
  }

  /** `String(n)` read back by `parseInt` is `n`, also after zero padding. */
  lemma ParseIntOfPadded(n: nat, len: nat)
    ensures ParseInt(PadStart(NatDigits(n), len, '0')) == Some(n)
  {
    var ds := NatDigits(n);
    var p := PadStart(ds, len, '0');
    assert forall i :: 0 <= i < |p| ==> IsDigit(p[i]) by {
      forall i | 0 <= i < |p| ensures IsDigit(p[i]) {
        if i >= |p| - |ds| {
          assert p[i] == p[|p| - |ds|..][i - (|p| - |ds|)];
        }
      }
    }
    PaddedValue(ds, len);
    DigitsValueOfNatDigits(n);
    ParseIntOfDigits(p);
  }

  lemma {:induction false} PaddedValue(ds: string, len: nat)
    requires forall i :: 0 <= i < |ds| ==> IsDigit(ds[i])
    ensures forall i :: 0 <= i < |PadStart(ds, len, '0')| ==> IsDigit(PadStart(ds, len, '0')[i])
    ensures DigitsValue(PadStart(ds, len, '0')) == DigitsValue(ds)
    decreases len - |ds|
  {
    var p := PadStart(ds, len, '0');
    assert forall i :: 0 <= i < |p| ==> IsDigit(p[i]) by {
      forall i | 0 <= i < |p| ensures IsDigit(p[i]) {
        if i >= |p| - |ds| {
          assert p[i] == p[|p| - |ds|..][i - (|p| - |ds|)];
        }
      }
    }
    if |ds| < len {
      var ds' := ['0'] + ds;
      assert PadStart(ds', len, '0') == p;
      PaddedValue(ds', len);
      DigitsValueLeadingZero(ds);
    }
  }

  // ---------------------------------------------------------------------------
  // Loosely typed values

  /**
    A value read out of a JSON record or a satellite object. `undefined` and `null` are
    one constructor because every reader in the model treats them alike (`??`, `== null`,
    `typeof`, truthiness). Arrays and objects are only ever converted to text, so they
    carry the text `String(v)` gives for them.
  */
  datatype Value = Null | Bool(b: bool) | Num(n: int) | Str(s: string) | Composite(rendered: string)

  /** `String(v)` for a value that is not null. */
  function ToJsString(v: Value): string
    requires !v.Null?
  {
    match v
    case Bool(b) => if b then "true" else "false"
    case Num(n) => DecimalString(n)
    case Str(s) => s
    case Composite(r) => r
  }

  /** JavaScript truthiness: `null`, `false`, `0` and `""` are falsy. */
  predicate Truthy(v: Value) {
    match v
    case Null => false
    case Bool(b) => b
    case Num(n) => n != 0
    case Str(s) => s != ""
    case Composite(_) => true
  }
}
