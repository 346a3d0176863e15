/**
 * The values the scaffold generator reads from example text and writes back
 * as TypeScript literals, and `valueToCode` (tools/new-problem.ts), which for
 * these values is `JSON.stringify`.
 */
module Values {
  import opened Strings
  import opened Numbers

  /** What `parseValue` can produce; numbers are finite decimals, objects are not modelled. */
  datatype Value =
    | Null
    | Bool(b: bool)
    | Num(n: Number)
    | Str(s: string)
    | Arr(items: seq<Value>)

  /** `typeof value === "object"`: arrays and also `null`. */
  predicate IsObject(v: Value) {
    v.Null? || v.Arr?
  }

  /** A lower-case hexadecimal digit, as `JSON.stringify` writes them. */
  function HexDigit(d: nat): (c: char)
    requires d < 16
  {
    if d < 10 then ('0' as int + d) as char else ('a' as int + d - 10) as char
  }

  /** How `JSON.stringify` writes one character inside a string literal. */
  function EscapeChar(c: char): (r: string)
    ensures |r| >= 1
  {
    if c == '"' then "\\\""
    else if c == '\\' then "\\\\"
    else if c == '\U{0008}' then "\\b"
    else if c == '\U{000C}' then "\\f"
    else if c == '\n' then "\\n"
    else if c == '\r' then "\\r"
    else if c == '\t' then "\\t"
    else if c < ' ' then "\\u00" + [HexDigit(c as int / 16), HexDigit(c as int % 16)]
    else [c]
  }

  function EscapeText(s: string): string {
    if s == [] then [] else EscapeChar(s[0]) + EscapeText(s[1..])
  }

  /** No quote, backslash or control character: nothing that `JSON.stringify` escapes. */
  predicate NeedsNoEscape(s: string) {
    forall i :: 0 <= i < |s| ==> s[i] >= ' ' && s[i] != '"' && s[i] != '\\'
  }

  /** Plain text is written between the quotes unchanged. */
  lemma {:induction false} PlainTextUnescaped(s: string)
    requires NeedsNoEscape(s)
    ensures EscapeText(s) == s
  {
    if s != [] {
      PlainTextUnescaped(s[1..]);
      assert EscapeChar(s[0]) == [s[0]];
    }
  }

  /** `JSON.stringify(s)` for a string. */
  function Quote(s: string): string {
    "\"" + EscapeText(s) + "\""
  }

  /** The characters a value's code can start with. */
  predicate StartsValue(c: char) {
    c == 'n' || c == 't' || c == 'f' || c == '-' || c == '"' || c == '[' || IsDigit(c)
  }

  /** `valueToCode`: JSON text for strings and arrays, `String(v)` for numbers and booleans, `null`. */
  function ValueToCode(v: Value): (code: string)
    ensures |code| >= 1 && !IsSpace(code[0]) && !IsSpace(code[|code| - 1])
    ensures StartsValue(code[0])
    decreases v, 1
  {
    match v
    case Null => "null"
    case Bool(b) => if b then "true" else "false"
    case Num(n) => NumberText(n)
    case Str(s) => Quote(s)
    case Arr(items) => "[" + ItemsToCode(items) + "]"
  }

  /** The elements of an array literal, separated by commas. */
  function ItemsToCode(items: seq<Value>): (code: string)
    ensures items != [] ==> |code| >= 1 && code[0] == ValueToCode(items[0])[0]
    decreases items, 0
  {
    if items == [] then []
    else if |items| == 1 then ValueToCode(items[0])
    else ValueToCode(items[0]) + "," + ItemsToCode(items[1..])
  }
}
