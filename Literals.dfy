/**
 * `parseValue` (tools/new-problem.ts): how one piece of example text becomes
 * a value.  The text is trimmed; then it is a keyword, a single-quoted
 * string, a decimal number, JSON, or, when the expected type mentions
 * `string`, the text itself.
 */
module Literals {
  import opened Wrappers
  import opened Strings
  import opened Numbers
  import opened Values
  import Json

  /** `{ ok, value }`; a failed parse carries `null`. */
  datatype Parsed = Parsed(ok: bool, value: Value)

  const Failed := Parsed(false, Null)

  /** `replace(/\\'/g, "'")`: each backslash-quote pair, from left to right, becomes a quote. */
  function UnescapeQuotes(s: string): (r: string)
    ensures |r| <= |s|
  {
    if |s| >= 2 && s[0] == '\\' && s[1] == '\'' then "'" + UnescapeQuotes(s[2..])
    else if s == [] then []
    else [s[0]] + UnescapeQuotes(s[1..])
  }

  /** A backslash before every quote: the text that `UnescapeQuotes` turns back into `s`. */
  function EscapeQuotes(s: string): (r: string)
    ensures |r| >= |s|
    ensures s != [] && s[0] != '\'' ==> r[0] == s[0]
  {
    if s == [] then []
    else if s[0] == '\'' then "\\'" + EscapeQuotes(s[1..])
    else [s[0]] + EscapeQuotes(s[1..])
  }

  /** `/^[-]?\d+(\.\d+)?$/` and then `Number(text)`: a decimal literal, leading zeros allowed. */
  function DecimalLiteral(t: string): (r: Option<Number>)
  {
    var negative := t != [] && t[0] == '-';
    var body := if negative then t[1..] else t;
    var len := Json.DigitCount(body);
    if len == 0 then None
    else
      match Json.ParseFraction(body[..len], body[len..])
      case Some((m, rest)) => if rest == [] then Some(if negative then Negate(m) else m) else None
      case None => None
  }

  /** Text that starts like a JSON array, object or string. */
  predicate LooksJson(t: string) {
    t != [] && (t[0] == '[' || t[0] == '{' || t[0] == '"' || t[0] == '\'')
  }

  /** `parseValue(raw, expectedType)`. */
  function ParseValue(raw: string, expected: string): (r: Parsed)
    ensures !r.ok ==> r.value == Null
    ensures r.ok ==> Trim(raw) != []
  {
    ParseTrimmed(Trim(raw), expected)
  }

  /** What `parseValue` does once the text is trimmed. */
  function ParseTrimmed(t: string, expected: string): (r: Parsed)
    ensures !r.ok ==> r.value == Null
    ensures r.ok ==> t != []
  {
    if t == [] then Failed
    else if t == "null" then Parsed(true, Null)
    else if t == "true" then Parsed(true, Bool(true))
    else if t == "false" then Parsed(true, Bool(false))
    else if StartsWith(t, "'") && EndsWith(t, "'") then
      Parsed(true, Str(UnescapeQuotes(if |t| >= 2 then t[1..|t| - 1] else [])))
    else
      match DecimalLiteral(t)
      case Some(n) => Parsed(true, Num(n))
      case None =>
        var json := if LooksJson(t) then Json.Parse(t) else None;
        if json.Some? then Parsed(true, json.value)
        else if Contains(expected, "string") then Parsed(true, Str(t))
        else Failed
  }

  // ---------------------------------------------------------------------------
  // Properties

  /** Surrounding white space does not change what is read. */
  lemma ParseIgnoresSpace(raw: string, expected: string)
    ensures ParseValue(raw, expected) == ParseValue(Trim(raw), expected)
  {
    TrimIdempotent(raw);
  }

  /** Under a `string` expected type every text that is not blank is accepted. */
  lemma StringTypeAcceptsText(raw: string, expected: string)
    requires Contains(expected, "string") && Trim(raw) != []
    ensures ParseValue(raw, expected).ok
  {
  }

  /**
   * The last step of the chain: a text that is no keyword, no quoted
   * string, no decimal number and no JSON literal is kept as a string
   * exactly when the expected type mentions `string`, and refused otherwise.
   */
  lemma FallbackBranch(raw: string, expected: string)
    requires Trim(raw) != [] && Trim(raw) != "null" && Trim(raw) != "true" && Trim(raw) != "false"
    requires !(StartsWith(Trim(raw), "'") && EndsWith(Trim(raw), "'"))
    requires DecimalLiteral(Trim(raw)) == None
    requires LooksJson(Trim(raw)) ==> Json.Parse(Trim(raw)) == None
    ensures ParseValue(raw, expected) == if Contains(expected, "string") then Parsed(true, Str(Trim(raw))) else Failed
  {
  }

  lemma {:induction false} QuotesRoundTrip(s: string)
    ensures UnescapeQuotes(EscapeQuotes(s)) == s
  {
    if s != [] {
      QuotesRoundTrip(s[1..]);
      var e := EscapeQuotes(s);
      if s[0] == '\'' {
        assert e[2..] == EscapeQuotes(s[1..]);
      } else if s[0] == '\\' && |s| >= 2 && s[1] == '\'' {
        assert e[1..] == EscapeQuotes(s[1..]);
        assert e[1] == '\\';
      } else {
        assert e[1..] == EscapeQuotes(s[1..]);
        assert |e| >= 2 ==> e[1] != '\'';
      }
    }
  }

  lemma QuotedBranch(t: string, expected: string)
    requires |t| >= 2 && IsTrimmed(t) && t[0] == '\'' && t[|t| - 1] == '\''
    ensures ParseValue(t, expected) == Parsed(true, Str(UnescapeQuotes(t[1..|t| - 1])))
  {
    TrimmedIsFixpoint(t);
    NotKeywordText(t);
    assert StartsWith(t, "'") && EndsWith(t, "'");
  }

  /** Text without a backslash has nothing to unescape. */
  lemma {:induction false} PlainTextKept(s: string)
    requires NeedsNoEscape(s)
    ensures UnescapeQuotes(s) == s
  {
    if s != [] {
      PlainTextKept(s[1..]);
    }
  }

  /** A single-quoted literal is read as the string between the quotes. */
  lemma SingleQuotedRoundTrip(s: string, expected: string)
    ensures ParseValue("'" + EscapeQuotes(s) + "'", expected) == Parsed(true, Str(s))
  {
    var t := "'" + EscapeQuotes(s) + "'";
    assert t[1..|t| - 1] == EscapeQuotes(s);
    QuotedBranch(t, expected);
    QuotesRoundTrip(s);
  }

  /** What `String` writes for a number is read back as that number. */
  lemma DecimalOfNumberText(n: Number)
    ensures DecimalLiteral(NumberText(n)) == Some(n)
  {
    MagnitudeDecimal(n);
    if n.mant < 0 {
      assert NumberText(n)[1..] == MagnitudeText(n);
      NegatedMagnitude(n);
    }
  }

  /** The digits and fraction `String` writes for `|n|` are read back, by the decimal pattern, as `|n|`. */
  lemma MagnitudeDecimal(n: Number)
    ensures Json.DigitCount(MagnitudeText(n)) == |WholeText(n)|
    ensures Json.ParseFraction(MagnitudeText(n)[..|WholeText(n)|], MagnitudeText(n)[|WholeText(n)|..])
         == Some((Magnitude(n), []))
  {
    var mag := MagnitudeText(n);
    var whole := WholeText(n);
    var after := mag[|whole|..];
    assert mag == whole + after;
    assert after == [] || after[0] == '.';
    Json.DigitCountOfDigits(whole, after);
    assert mag[..|whole|] == whole;
    Json.ParseWhole(whole, after);
    Json.MagnitudeRoundTrip(n, []);
    assert mag + [] == mag;
  }

  lemma NotKeywordText(t: string)
    requires t != [] && t[0] != 'n' && t[0] != 't' && t[0] != 'f'
    ensures t != "null" && t != "true" && t != "false"
  {
  }

  /** `parseValue` reads back whatever `valueToCode` writes. */
  lemma ParseOfCode(v: Value, expected: string)
    ensures ParseValue(ValueToCode(v), expected) == Parsed(true, v)
  {
    var t := ValueToCode(v);
    match v
    case Null => TrimmedIsFixpoint(t);
    case Bool(_) => TrimmedIsFixpoint(t);
    case Num(n) =>
      DecimalOfNumberText(n);
      NumberBranch(t, expected, n);
    case Str(_) =>
      Json.ParseOfStringify(v);
      JsonBranch(t, expected, v);
    case Arr(_) =>
      Json.ParseOfStringify(v);
      JsonBranch(t, expected, v);
  }

  /** Text that opens like a JSON string or array and is JSON is read as that JSON value. */
  lemma JsonBranch(t: string, expected: string, v: Value)
    requires t != [] && IsTrimmed(t) && (t[0] == '"' || t[0] == '[')
    requires Json.Parse(t) == Some(v)
    ensures ParseValue(t, expected) == Parsed(true, v)
  {
    TrimmedIsFixpoint(t);
    NotKeywordText(t);
    NotDecimal(t);
    NotQuoted(t);
  }

  /** Text that does not open with a quote is not single-quoted. */
  lemma NotQuoted(t: string)
    requires t != [] && t[0] != '\''
    ensures !StartsWith(t, "'")
  {
  }

  /** Text that opens with neither a minus sign nor a digit is not a decimal literal. */
  lemma NotDecimal(t: string)
    requires t != [] && t[0] != '-' && !IsDigit(t[0])
    ensures DecimalLiteral(t) == None
  {
    assert Json.DigitCount(t) == 0;
  }

  // ---------------------------------------------------------------------------
  // What the written literal looks like for some example texts

  lemma NumberBranch(t: string, expected: string, n: Number)
    requires t != [] && IsTrimmed(t) && (t[0] == '-' || IsDigit(t[0]))
    requires DecimalLiteral(t) == Some(n)
    ensures ParseValue(t, expected) == Parsed(true, Num(n))
  {
    TrimmedIsFixpoint(t);
    NotKeywordText(t);
    assert !StartsWith(t, "'") by {
      assert t[0] != '\'';
    }
  }

  /** `k` zero digits. */
  function Zeros(k: nat): string {
    seq(k, _ => '0')
  }

  /** Zero digits appended to a run of digits multiply its value by a power of ten. */
  lemma {:induction false} ZerosValue(digits: string, k: nat)
    requires forall i :: 0 <= i < |digits| ==> IsDigit(digits[i])
    ensures forall i :: 0 <= i < |digits + Zeros(k)| ==> IsDigit((digits + Zeros(k))[i])
    ensures DigitsValue(digits + Zeros(k)) == DigitsValue(digits) * Pow10(k)
  {
    if k > 0 {
      ZerosValue(digits, k - 1);
      var prev := digits + Zeros(k - 1);
      assert digits + Zeros(k) == prev + "0";
      AppendZero(prev, DigitsValue(digits), Pow10(k - 1));
    } else {
      assert digits + Zeros(k) == digits;
    }
  }

  /** One more zero digit multiplies the value by ten. */
  lemma AppendZero(prev: string, v: nat, p: nat)
    requires forall i :: 0 <= i < |prev| ==> IsDigit(prev[i])
    requires DigitsValue(prev) == v * p
    ensures forall i :: 0 <= i < |prev + "0"| ==> IsDigit((prev + "0")[i])
    ensures DigitsValue(prev + "0") == v * (10 * p)
  {
    var s := prev + "0";
    assert s[..|s| - 1] == prev;
    assert DigitsValue(s) == DigitsValue(prev) * 10;
  }

  /** A whole number shifted by `k` places is normalized back to itself. */
  lemma {:induction false} NormalizeShifted(w: int, k: nat)
    ensures Normalize(w * Pow10(k), k) == Decimal(w, 0)
  {
    if k > 0 {
      NormalizeShifted(w, k - 1);
      var m := w * Pow10(k);
      assert m == (w * Pow10(k - 1)) * 10;
      assert m % 10 == 0 && m / 10 == w * Pow10(k - 1);
    }
  }

  /**
   * A whole number written with a fraction of zeros is read as that whole
   * number, in its shortest form.
   */
  lemma ZeroFractionDropped(w: nat, k: nat)
    requires k >= 1
    ensures DecimalLiteral(NatText(w) + "." + Zeros(k)) == Some(Decimal(w, 0))
  {
    var whole := NatText(w);
    var after := "." + Zeros(k);
    var t := whole + after;
    assert t == NatText(w) + "." + Zeros(k);
    assert t[0] == whole[0];
    Json.DigitCountOfDigits(whole, after);
    assert t[..|whole|] == whole && t[|whole|..] == after;
    Json.ParseFractionDigits(whole, Zeros(k), []);
    assert after + [] == after;
    ZerosValue(whole, k);
    DigitsOfNatText(w);
    NormalizeShifted(w, k);
  }

  /** A number with trailing fraction zeros, `2.00000`, is written in its shortest form. */
  lemma TrailingZerosDropped(raw: string, d: Number)
    requires raw == "2.00000" && d == Decimal(2, 0)
    ensures ParseValue(raw, "number") == Parsed(true, Num(d))
    ensures ValueToCode(Num(d)) == "2"
  {
    assert raw == NatText(2) + "." + Zeros(5);
    ZeroFractionDropped(2, 5);
    NumberBranch(raw, "number", d);
    TwoText();
  }

  /**
   * The other direction of the round trip: a text comes back unchanged from
   * `parseValue` and `valueToCode` exactly when it is what `valueToCode`
   * writes for some value.
   */
  lemma TextRoundTrip(x: string, expected: string)
    ensures (exists v :: x == ValueToCode(v)) <==>
      (ParseValue(x, expected).ok && ValueToCode(ParseValue(x, expected).value) == x)
  {
    if exists v :: x == ValueToCode(v) {
      var v :| x == ValueToCode(v);
      ParseOfCode(v, expected);
    }
    if ParseValue(x, expected).ok && ValueToCode(ParseValue(x, expected).value) == x {
      assert x == ValueToCode(ParseValue(x, expected).value);
    }
  }

  /** `-0` is read as the number zero, which is written `0`: not the text read. */
  lemma NegativeZeroDropped(raw: string, d: Number)
    requires raw == "-0" && d == Decimal(0, 0)
    ensures ParseValue(raw, "number") == Parsed(true, Num(d))
    ensures ValueToCode(Num(d)) == "0" != raw
  {
    ZeroLiteral(raw);
    NumberBranch(raw, "number", d);
    assert SplitDigits(0, 0) == (0, 0);
    assert NatText(0) == "0";
  }

  lemma ZeroLiteral(raw: string)
    requires raw == "-0"
    ensures DecimalLiteral(raw) == Some(Decimal(0, 0))
  {
    var digits := raw[1..];
    assert raw == "-" + digits;
    LastDigit(digits);
    WholeLiteral(digits);
  }

  /** An integer with leading zeros, `007`, is read as `7` and written without them. */
  lemma LeadingZerosDropped(raw: string, d: Number)
    requires raw == "007" && d == Decimal(7, 0)
    ensures ParseValue(raw, "number") == Parsed(true, Num(d))
    ensures ValueToCode(Num(d)) == "7" != raw
  {
    LastDigit(raw[..1]);
    LastDigit(raw[..2]);
    assert raw[..2][..1] == raw[..1];
    LastDigit(raw);
    assert raw[..3][..2] == raw[..2];
    WholeLiteral(raw);
    NumberBranch(raw, "number", d);
    assert SplitDigits(7, 0) == (7, 0);
    assert NatText(7) == "7";
  }

  lemma LastDigit(digits: string)
    requires digits != [] && forall i :: 0 <= i < |digits| ==> IsDigit(digits[i])
    ensures DigitsValue(digits) == DigitsValue(digits[..|digits| - 1]) * 10 + DigitValue(digits[|digits| - 1])
  {
  }

  /** Digits alone, or after a minus sign, are read as that whole number. */
  lemma WholeLiteral(digits: string)
    requires digits != [] && forall i :: 0 <= i < |digits| ==> IsDigit(digits[i])
    ensures DecimalLiteral(digits) == Some(Decimal(DigitsValue(digits), 0))
    ensures DecimalLiteral("-" + digits) == Some(Negate(Decimal(DigitsValue(digits), 0)))
  {
    Json.DigitCountOfDigits(digits, []);
    assert digits + [] == digits;
    assert digits[..|digits|] == digits && digits[|digits|..] == [];
    assert ("-" + digits)[1..] == digits;
  }

  lemma TwoText()
    ensures NumberText(Decimal(2, 0)) == "2"
  {
    assert SplitDigits(2, 0) == (2, 0);
    assert NatText(2) == "2";
  }

  /** A single-quoted string, `'abc'`, is written with double quotes. */
  lemma SingleQuotesBecomeDouble(raw: string, s: string)
    requires raw == "'abc'" && s == "abc"
    ensures ParseValue(raw, "string") == Parsed(true, Str(s))
    ensures ValueToCode(Str(s)) == "\"" + s + "\""
  {
    assert raw[1..|raw| - 1] == s;
    PlainTextKept(s);
    QuotedBranch(raw, "string");
    PlainTextUnescaped(s);
  }
}
