/**
 * `JSON.parse` on the part of JSON the examples use: `null`, `true`, `false`,
 * numbers, strings and arrays of these.  Objects and exponents are rejected,
 * and so is a `\u` escape naming a UTF-16 surrogate, even as a valid pair.  Each parser
 * takes the text that starts at the token and returns what it read and the
 * text after it.
 */
module Json {
  import opened Wrappers
  import opened Strings
  import opened Numbers
  import opened Values

  /** The white space JSON allows between tokens. */
  predicate IsJsonSpace(c: char) {
    c == ' ' || c == '\t' || c == '\n' || c == '\r'
  }

  function SkipSpace(s: string): (r: string)
    ensures |r| <= |s| && r == s[|s| - |r|..]
    ensures r == [] || !IsJsonSpace(r[0])
  {
    if s != [] && IsJsonSpace(s[0]) then SkipSpace(s[1..]) else s
  }

  function HexValue(c: char): (d: nat)
    ensures d < 16
  {
    if '0' <= c <= '9' then c as int - '0' as int
    else if 'a' <= c <= 'f' then c as int - 'a' as int + 10
    else if 'A' <= c <= 'F' then c as int - 'A' as int + 10
    else 0
  }

  predicate IsHex(c: char) {
    '0' <= c <= '9' || 'a' <= c <= 'f' || 'A' <= c <= 'F'
  }

  /** The character an escape names; `s` starts after the backslash.  Also returns how many characters the escape took. */
  function Unescape(s: string): (r: Option<(char, nat)>)
    ensures r.Some? ==> 1 <= r.value.1 <= |s|
  {
    if s == [] then None
    else if s[0] == '"' then Some(('"', 1))
    else if s[0] == '\\' then Some(('\\', 1))
    else if s[0] == '/' then Some(('/', 1))
    else if s[0] == 'b' then Some(('\U{0008}', 1))
    else if s[0] == 'f' then Some(('\U{000C}', 1))
    else if s[0] == 'n' then Some(('\n', 1))
    else if s[0] == 'r' then Some(('\r', 1))
    else if s[0] == 't' then Some(('\t', 1))
    else if s[0] == 'u' && |s| >= 5 && IsHex(s[1]) && IsHex(s[2]) && IsHex(s[3]) && IsHex(s[4]) then
      var code := ((HexValue(s[1]) * 16 + HexValue(s[2])) * 16 + HexValue(s[3])) * 16 + HexValue(s[4]);
      if code < 0xD800 || 0xE000 <= code then Some((code as char, 5)) else None
    else None
  }

  /** The body of a string literal up to its closing quote; `s` starts after the opening quote. */
  function ParseString(s: string): (r: Option<(string, string)>)
    ensures r.Some? ==> |r.value.1| < |s|
    decreases |s|
  {
    if s == [] then None
    else if s[0] == '"' then Some(([], s[1..]))
    else if s[0] == '\\' then
      match Unescape(s[1..])
      case None => None
      case Some((c, n)) =>
        match ParseString(s[1 + n..])
        case None => None
        case Some((text, rest)) => Some(([c] + text, rest))
    else if s[0] < ' ' then None
    else
      match ParseString(s[1..])
      case None => None
      case Some((text, rest)) => Some(([s[0]] + text, rest))
  }

  function DigitCount(s: string): (n: nat)
    ensures n <= |s| && forall k :: 0 <= k < n ==> IsDigit(s[k])
    ensures n == |s| || !IsDigit(s[n])
  {
    if s != [] && IsDigit(s[0]) then 1 + DigitCount(s[1..]) else 0
  }

  predicate StartsExponent(s: string) {
    s != [] && (s[0] == 'e' || s[0] == 'E')
  }

  /** What follows the whole digits of a number: an optional fraction, and no exponent. */
  function ParseFraction(whole: string, after: string): (r: Option<(Number, string)>)
    requires forall i :: 0 <= i < |whole| ==> IsDigit(whole[i])
    ensures r.Some? ==> |r.value.1| <= |after| && r.value.0.mant >= 0
  {
    if after != [] && after[0] == '.' then
      var k := DigitCount(after[1..]);
      var rest := after[1 + k..];
      if k == 0 || StartsExponent(rest) then None
      else Some((DecimalValue(whole, after[1..1 + k]), rest))
    else if StartsExponent(after) then None
    else Some((DecimalValue(whole, []), after))
  }

  /** A number without its sign: `0` or digits without a leading zero, then what `ParseFraction` reads. */
  function ParseMagnitude(s: string): (r: Option<(Number, string)>)
    ensures r.Some? ==> |r.value.1| < |s| && r.value.0.mant >= 0
  {
    if s == [] || !IsDigit(s[0]) then None
    else
      var len := if s[0] == '0' then 1 else DigitCount(s);
      ParseFraction(s[..len], s[len..])
  }

  /** A number: an optional `-`, then its magnitude. */
  function ParseNumber(s: string): (r: Option<(Value, string)>)
    ensures r.Some? ==> |r.value.1| < |s|
  {
    if s != [] && s[0] == '-' then
      match ParseMagnitude(s[1..])
      case None => None
      case Some((m, rest)) => Some((Num(Negate(m)), rest))
    else
      match ParseMagnitude(s)
      case None => None
      case Some((m, rest)) => Some((Num(m), rest))
  }

  /** One value; `s` starts at its first character. */
  function ParseValueAt(s: string): (r: Option<(Value, string)>)
    ensures r.Some? ==> |r.value.1| < |s|
    decreases |s|, 1
  {
    if StartsWith(s, "null") then Some((Null, s[4..]))
    else if StartsWith(s, "true") then Some((Bool(true), s[4..]))
    else if StartsWith(s, "false") then Some((Bool(false), s[5..]))
    else if s == [] then None
    else if s[0] == '"' then
      match ParseString(s[1..])
      case None => None
      case Some((text, rest)) => Some((Str(text), rest))
    else if s[0] == '[' then
      var t := SkipSpace(s[1..]);
      if t != [] && t[0] == ']' then Some((Arr([]), t[1..]))
      else ParseElements(t, [])
    else if s[0] == '-' || IsDigit(s[0]) then ParseNumber(s)
    else None
  }

  /** The elements of an array after those in `acc`, and its closing bracket. */
  function ParseElements(s: string, acc: seq<Value>): (r: Option<(Value, string)>)
    ensures r.Some? ==> |r.value.1| < |s|
    decreases |s|, 2
  {
    match ParseValueAt(s)
    case None => None
    case Some((v, rest)) =>
      var t := SkipSpace(rest);
      if t != [] && t[0] == ',' then ParseElements(SkipSpace(t[1..]), acc + [v])
      else if t != [] && t[0] == ']' then Some((Arr(acc + [v]), t[1..]))
      else None
  }

  /** `JSON.parse(s)`: one value, with nothing but white space around it. */
  function Parse(s: string): Option<Value> {
    match ParseValueAt(SkipSpace(s))
    case Some((v, rest)) => if SkipSpace(rest) == [] then Some(v) else None
    case None => None
  }

  // ---------------------------------------------------------------------------
  // JSON.parse reads back what JSON.stringify wrote

  lemma HexRoundTrip(c: char)
    requires c < ' '
    ensures IsHex(HexDigit(c as int / 16)) && IsHex(HexDigit(c as int % 16))
    ensures HexValue(HexDigit(c as int / 16)) * 16 + HexValue(HexDigit(c as int % 16)) == c as int
  {
  }

  lemma ParseEscapedChar(c: char, tail: string)
    ensures ParseString(EscapeChar(c) + tail) ==
      match ParseString(tail)
      case None => None
      case Some((text, rest)) => Some(([c] + text, rest))
  {
    var s := EscapeChar(c) + tail;
    if c == '"' || c == '\\' || c == '\U{0008}' || c == '\U{000C}' || c == '\n' || c == '\r' || c == '\t' {
      assert |EscapeChar(c)| == 2 && s[0] == '\\';
      assert s[2..] == tail;
      assert Unescape(s[1..]) == Some((c, 1));
    } else if c < ' ' {
      HexRoundTrip(c);
      assert |EscapeChar(c)| == 6 && s[0] == '\\';
      assert s[6..] == tail;
      assert s[1..][1] == '0' && s[1..][2] == '0';
      assert Unescape(s[1..]) == Some((c, 5));
    } else {
      assert s[1..] == tail;
    }
  }

  lemma {:induction false} ParseQuoted(text: string, rest: string)
    ensures ParseString(EscapeText(text) + "\"" + rest) == Some((text, rest))
  {
    if text == [] {
      assert EscapeText(text) + "\"" + rest == "\"" + rest;
      assert ("\"" + rest)[1..] == rest;
    } else {
      ParseQuoted(text[1..], rest);
      ParseEscapedChar(text[0], EscapeText(text[1..]) + "\"" + rest);
      assert EscapeText(text) + "\"" + rest == EscapeChar(text[0]) + (EscapeText(text[1..]) + "\"" + rest);
      assert [text[0]] + text[1..] == text;
    }
  }

  /** The text after a value in an array or at the end: no digit, `.`, `e` or `E` follows a number. */
  predicate Ends(rest: string) {
    rest == [] || rest[0] == ',' || rest[0] == ']'
  }

  /** The whole digits `NumberText` writes are read as one run. */
  lemma ParseWhole(whole: string, after: string)
    requires IsCanonicalDigits(whole)
    requires after == [] || !IsDigit(after[0])
    ensures ParseMagnitude(whole + after) == ParseFraction(whole, after)
  {
    var s := whole + after;
    assert s[0] == whole[0];
    if whole[0] != '0' {
      DigitCountOfDigits(whole, after);
    }
    assert s[..|whole|] == whole && s[|whole|..] == after;
  }

  lemma ParseFractionDigits(whole: string, frac: string, rest: string)
    requires forall i :: 0 <= i < |whole| ==> IsDigit(whole[i])
    requires frac != [] && forall i :: 0 <= i < |frac| ==> IsDigit(frac[i])
    requires Ends(rest)
    ensures ParseFraction(whole, "." + frac + rest) == Some((DecimalValue(whole, frac), rest))
  {
    var after := "." + frac + rest;
    assert after[1..] == frac + rest;
    DigitCountOfDigits(frac, rest);
    assert after[1..1 + |frac|] == frac;
    assert after[1 + |frac|..] == rest;
  }

  lemma ParseNoFraction(whole: string, rest: string)
    requires forall i :: 0 <= i < |whole| ==> IsDigit(whole[i])
    requires Ends(rest)
    ensures ParseFraction(whole, rest) == Some((DecimalValue(whole, []), rest))
  {
  }

  lemma MagnitudeRoundTrip(d: Number, rest: string)
    requires Ends(rest)
    ensures ParseMagnitude(MagnitudeText(d) + rest) == Some((Magnitude(d), rest))
  {
    var whole := WholeText(d);
    var frac := FractionText(d);
    DecimalOfNumber(d);
    if d.scale == 0 {
      assert frac == [];
      ParseWhole(whole, rest);
      ParseNoFraction(whole, rest);
    } else {
      var after := "." + frac + rest;
      assert MagnitudeText(d) + rest == whole + after;
      ParseWhole(whole, after);
      ParseFractionDigits(whole, frac, rest);
    }
  }

  lemma ParseNegative(body: string)
    ensures ParseNumber(['-'] + body) ==
      match ParseMagnitude(body)
      case None => None
      case Some((m, rest)) => Some((Num(Negate(m)), rest))
  {
    assert (['-'] + body)[1..] == body;
  }

  lemma NumberRoundTrip(n: Number, rest: string)
    requires Ends(rest)
    ensures ParseNumber(NumberText(n) + rest) == Some((Num(n), rest))
  {
    if n.mant < 0 {
      NegativeRoundTrip(n, rest);
    } else {
      MagnitudeRoundTrip(n, rest);
      var s := MagnitudeText(n) + rest;
      assert s[0] == MagnitudeText(n)[0];
    }
  }

  lemma NegativeRoundTrip(n: Number, rest: string)
    requires Ends(rest) && n.mant < 0
    ensures ParseNumber(NumberText(n) + rest) == Some((Num(n), rest))
  {
    var body := MagnitudeText(n) + rest;
    assert NumberText(n) + rest == ['-'] + body;
    MagnitudeRoundTrip(n, rest);
    ParseNegative(body);
    NegatedMagnitude(n);
  }

  lemma {:induction false} DigitCountOfDigits(digits: string, rest: string)
    requires forall k :: 0 <= k < |digits| ==> IsDigit(digits[k])
    requires rest == [] || !IsDigit(rest[0])
    ensures DigitCount(digits + rest) == |digits|
  {
    if digits != [] {
      assert (digits + rest)[1..] == digits[1..] + rest;
      DigitCountOfDigits(digits[1..], rest);
    }
  }

  lemma NotKeyword(s: string)
    requires s != [] && (s[0] == '"' || s[0] == '[' || s[0] == '-' || IsDigit(s[0]))
    ensures !StartsWith(s, "null") && !StartsWith(s, "true") && !StartsWith(s, "false")
  {
    if |s| >= 4 {
      assert s[..4][0] == s[0];
    }
  }

  lemma KeywordRoundTrip(v: Value, rest: string)
    requires v.Null? || v.Bool?
    ensures ParseValueAt(ValueToCode(v) + rest) == Some((v, rest))
  {
    var s := ValueToCode(v) + rest;
    if v.Null? {
      assert s[..4] == "null" && s[4..] == rest;
    } else if v.b {
      assert s[..4] == "true" && s[4..] == rest;
    } else {
      assert s[..4] != "null" && s[..4] != "true";
      assert s[..5] == "false" && s[5..] == rest;
    }
  }

  lemma StringRoundTrip(text: string, rest: string)
    ensures ParseValueAt(Quote(text) + rest) == Some((Str(text), rest))
  {
    var s := Quote(text) + rest;
    ParseQuoted(text, rest);
    assert s[0] == '"' && s[1..] == EscapeText(text) + "\"" + rest;
    QuotedAt(s, text, rest);
  }

  /** A text opening with a quote is read as the string `ParseString` finds after it. */
  lemma QuotedAt(s: string, text: string, rest: string)
    requires s != [] && s[0] == '"' && ParseString(s[1..]) == Some((text, rest))
    ensures ParseValueAt(s) == Some((Str(text), rest))
  {
    NotKeyword(s);
  }

  lemma {:induction false} ValueRoundTrip(v: Value, rest: string)
    requires Ends(rest)
    ensures ParseValueAt(ValueToCode(v) + rest) == Some((v, rest))
    decreases v, 2
  {
    match v
    case Null => KeywordRoundTrip(v, rest);
    case Bool(_) => KeywordRoundTrip(v, rest);
    case Num(n) =>
      var s := ValueToCode(v) + rest;
      NumberRoundTrip(n, rest);
      assert s[0] == NumberText(n)[0];
      NotKeyword(s);
    case Str(text) => StringRoundTrip(text, rest);
    case Arr(items) => ArrayRoundTrip(items, rest);
  }

  lemma ParseArrayOpen(t: string)
    ensures ParseValueAt(['['] + t) ==
      var u := SkipSpace(t);
      if u != [] && u[0] == ']' then Some((Arr([]), u[1..])) else ParseElements(u, [])
  {
    NotKeyword(['['] + t);
    assert (['['] + t)[1..] == t;
  }

  lemma ParseElementsStep(s: string, acc: seq<Value>, v: Value, rest: string)
    requires ParseValueAt(s) == Some((v, rest))
    ensures ParseElements(s, acc) ==
      var t := SkipSpace(rest);
      if t != [] && t[0] == ',' then ParseElements(SkipSpace(t[1..]), acc + [v])
      else if t != [] && t[0] == ']' then Some((Arr(acc + [v]), t[1..]))
      else None
  {
  }

  /** Text that does not start with white space has none to skip. */
  lemma NoSpaceToSkip(s: string)
    requires s != [] && !IsJsonSpace(s[0])
    ensures SkipSpace(s) == s
  {
  }

  /** An element followed by `]` closes the array. */
  lemma CloseStep(s: string, acc: seq<Value>, v: Value, rest: string)
    requires ParseValueAt(s) == Some((v, "]" + rest))
    ensures ParseElements(s, acc) == Some((Arr(acc + [v]), rest))
  {
    ParseElementsStep(s, acc, v, "]" + rest);
    NoSpaceToSkip("]" + rest);
    assert ("]" + rest)[1..] == rest;
  }

  /** An element followed by `,` and then no white space goes on with the next one. */
  lemma CommaStep(s: string, acc: seq<Value>, v: Value, tail: string)
    requires tail != [] && !IsJsonSpace(tail[0])
    requires ParseValueAt(s) == Some((v, "," + tail))
    ensures ParseElements(s, acc) == ParseElements(tail, acc + [v])
  {
    ParseElementsStep(s, acc, v, "," + tail);
    NoSpaceToSkip("," + tail);
    assert ("," + tail)[1..] == tail;
    NoSpaceToSkip(tail);
  }

  lemma ArrayCode(items: seq<Value>, rest: string)
    ensures ValueToCode(Arr(items)) + rest == ['['] + (ItemsToCode(items) + "]" + rest)
  {
  }

  lemma ItemsCodeUnspaced(items: seq<Value>, rest: string)
    ensures SkipSpace(ItemsToCode(items) + "]" + rest) == ItemsToCode(items) + "]" + rest
  {
    var inner := ItemsToCode(items) + "]" + rest;
    if items != [] {
      assert inner[0] == ItemsToCode(items)[0];
    }
  }

  lemma {:induction false} ArrayRoundTrip(items: seq<Value>, rest: string)
    requires Ends(rest)
    ensures ParseValueAt(ValueToCode(Arr(items)) + rest) == Some((Arr(items), rest))
    decreases Arr(items), 1
  {
    var inner := ItemsToCode(items) + "]" + rest;
    ArrayCode(items, rest);
    ParseArrayOpen(inner);
    ItemsCodeUnspaced(items, rest);
    if items == [] {
      assert inner == "]" + rest;
      assert inner[1..] == rest;
    } else {
      assert inner[0] == ValueToCode(items[0])[0];
      calc {
        ParseValueAt(ValueToCode(Arr(items)) + rest);
        ParseElements(inner, []);
        { ItemsRoundTrip(items, [], rest); }
        Some((Arr([] + items), rest));
        { assert [] + items == items; }
        Some((Arr(items), rest));
      }
    }
  }

  lemma {:induction false} ItemsCodeSplit(items: seq<Value>, rest: string)
    requires items != []
    ensures |items| == 1 ==> ItemsToCode(items) + "]" + rest == ValueToCode(items[0]) + ("]" + rest)
    ensures |items| > 1 ==>
      ItemsToCode(items) + "]" + rest == ValueToCode(items[0]) + ("," + (ItemsToCode(items[1..]) + "]" + rest))
  {
    var head := ValueToCode(items[0]);
    if |items| > 1 {
      var more := ItemsToCode(items[1..]);
      assert ItemsToCode(items) == head + "," + more;
      Regroup(head, more, rest);
    } else {
      assert ItemsToCode(items) == head;
    }
  }

  lemma Regroup(head: string, more: string, rest: string)
    ensures head + "," + more + "]" + rest == head + ("," + (more + "]" + rest))
  {
  }

  lemma LastItemRoundTrip(v: Value, acc: seq<Value>, rest: string)
    ensures ParseElements(ValueToCode(v) + ("]" + rest), acc) == Some((Arr(acc + [v]), rest))
    decreases v, 3
  {
    ValueRoundTrip(v, "]" + rest);
    CloseStep(ValueToCode(v) + ("]" + rest), acc, v, rest);
  }

  lemma ItemThenMore(v: Value, acc: seq<Value>, tail: string)
    requires tail != [] && !IsJsonSpace(tail[0])
    ensures ParseElements(ValueToCode(v) + ("," + tail), acc) == ParseElements(tail, acc + [v])
    decreases v, 3
  {
    ValueRoundTrip(v, "," + tail);
    CommaStep(ValueToCode(v) + ("," + tail), acc, v, tail);
  }

  lemma OneItemRoundTrip(items: seq<Value>, acc: seq<Value>, rest: string)
    requires |items| == 1
    ensures ParseElements(ItemsToCode(items) + "]" + rest, acc) == Some((Arr(acc + items), rest))
    decreases items, 1
  {
    ItemsCodeSplit(items, rest);
    LastItemRoundTrip(items[0], acc, rest);
    assert [items[0]] == items;
  }

  lemma ItemsStep(items: seq<Value>, acc: seq<Value>, rest: string)
    requires |items| > 1
    ensures ParseElements(ItemsToCode(items) + "]" + rest, acc)
         == ParseElements(ItemsToCode(items[1..]) + "]" + rest, acc + [items[0]])
    decreases items, 1
  {
    var more := items[1..];
    var tail := ItemsToCode(more) + "]" + rest;
    ItemsCodeSplit(items, rest);
    ItemsCodeUnspaced(more, rest);
    assert tail[0] == ValueToCode(more[0])[0];
    ItemThenMore(items[0], acc, tail);
  }

  lemma {:induction false} ItemsRoundTrip(items: seq<Value>, acc: seq<Value>, rest: string)
    requires items != []
    ensures ParseElements(ItemsToCode(items) + "]" + rest, acc) == Some((Arr(acc + items), rest))
    decreases items, 2
  {
    if |items| == 1 {
      OneItemRoundTrip(items, acc, rest);
    } else {
      var more := items[1..];
      var acc' := acc + [items[0]];
      assert acc' + more == acc + items;
      var p := ParseElements(ItemsToCode(more) + "]" + rest, acc');
      assert p == Some((Arr(acc + items), rest)) by {
        ItemsRoundTrip(more, acc', rest);
      }
      assert ParseElements(ItemsToCode(items) + "]" + rest, acc) == p by {
        ItemsStep(items, acc, rest);
      }
    }
  }

  /** `JSON.parse(JSON.stringify(v))` is `v`. */
  lemma ParseOfStringify(v: Value)
    ensures Parse(ValueToCode(v)) == Some(v)
  {
    ValueRoundTrip(v, []);
    assert ValueToCode(v) + [] == ValueToCode(v);
  }
}
