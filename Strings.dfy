/**
 * String primitives of the JavaScript runtime that the scaffold generator
 * relies on: the white-space class shared by `\s` and `String.prototype.trim`,
 * `trim`, `trimEnd`, `split` and `join` on one character, `includes`,
 * `startsWith`, ASCII case folding (regular expressions with the `i` flag)
 * and the decimal text of integers (`String(n)`).
 */
module Strings {

  /** The characters matched by `\s` and removed by `trim()`. */
  predicate IsSpace(c: char) {
    c == ' ' || c == '\t' || c == '\n' || c == '\U{000B}' || c == '\U{000C}' || c == '\r'
    || c == '\U{00A0}' || c == '\U{1680}' || ('\U{2000}' <= c <= '\U{200A}')
    || c == '\U{2028}' || c == '\U{2029}' || c == '\U{202F}' || c == '\U{205F}'
    || c == '\U{3000}' || c == '\U{FEFF}'
  }

  predicate IsDigit(c: char) {
    '0' <= c <= '9'
  }

  /** `[A-Za-z0-9_]`, the class of `\w` and of identifier captures. */
  predicate IsWordChar(c: char) {
    'a' <= c <= 'z' || 'A' <= c <= 'Z' || IsDigit(c) || c == '_'
  }

  /** No white space at either end. */
  predicate IsTrimmed(s: string) {
    s == [] || (!IsSpace(s[0]) && !IsSpace(s[|s| - 1]))
  }

  function TrimStart(s: string): (r: string)
    ensures |r| <= |s| && r == s[|s| - |r|..]
    ensures r == [] || !IsSpace(r[0])
    ensures forall i :: 0 <= i < |s| - |r| ==> IsSpace(s[i])
  {
    if s != [] && IsSpace(s[0]) then
      var r := TrimStart(s[1..]);
      assert s[1..][|s| - 1 - |r|..] == s[|s| - |r|..];
      r
    else s
  }

  /** `trimEnd()`, and the source's `replace(/\s+$/, "")` on a line. */
  function TrimEnd(s: string): (r: string)
    ensures |r| <= |s| && r == s[..|r|]
    ensures r == [] || !IsSpace(r[|r| - 1])
    ensures forall i :: |r| <= i < |s| ==> IsSpace(s[i])
  {
    if s != [] && IsSpace(s[|s| - 1]) then TrimEnd(s[..|s| - 1]) else s
  }

  /** `trim()`: the longest infix of `s` without white space at its ends. */
  function Trim(s: string): (r: string)
    ensures IsTrimmed(r)
    ensures |r| <= |s|
  {
    TrimEnd(TrimStart(s))
  }

  /** The trimmed text is the infix of `s` that starts after the leading white space. */
  lemma TrimIsInfix(s: string) returns (d: nat)
    ensures d + |Trim(s)| <= |s| && Trim(s) == s[d..d + |Trim(s)|]
  {
    var a := TrimStart(s);
    d := |s| - |a|;
    assert Trim(s) == a[..|Trim(s)|];
    assert a[..|Trim(s)|] == s[d..d + |Trim(s)|];
  }

  lemma TrimmedIsFixpoint(s: string)
    requires IsTrimmed(s)
    ensures Trim(s) == s
  {
  }

  lemma TrimIdempotent(s: string)
    ensures Trim(Trim(s)) == Trim(s)
  {
    TrimmedIsFixpoint(Trim(s));
  }

  lemma TrimDropsLeadingSpace(c: char, s: string)
    requires IsSpace(c)
    ensures Trim([c] + s) == Trim(s)
  {
    assert ([c] + s)[1..] == s;
  }

  lemma TrimStartSnoc(s: string, c: char)
    requires IsSpace(c)
    ensures TrimStart(s + [c]) == if TrimStart(s) == [] then [] else TrimStart(s) + [c]
  {
    if s != [] && IsSpace(s[0]) {
      assert (s + [c])[1..] == s[1..] + [c];
      TrimStartSnoc(s[1..], c);
    } else if s == [] {
      assert ([] + [c])[1..] == [];
    }
  }

  lemma TrimDropsTrailingSpace(s: string, c: char)
    requires IsSpace(c)
    ensures Trim(s + [c]) == Trim(s)
  {
    TrimStartSnoc(s, c);
    var t := TrimStart(s);
    if t != [] {
      assert (t + [c])[..|t + [c]| - 1] == t;
    }
  }

  lemma {:induction false} TrimOfTrimEnd(s: string)
    ensures Trim(TrimEnd(s)) == Trim(s)
    decreases |s|
  {
    if s != [] && IsSpace(s[|s| - 1]) {
      var x := s[..|s| - 1];
      var c := s[|s| - 1];
      assert s == x + [c];
      assert TrimEnd(s) == TrimEnd(x);
      calc {
        Trim(TrimEnd(s));
        Trim(TrimEnd(x));
        { TrimOfTrimEnd(x); }
        Trim(x);
        { TrimDropsTrailingSpace(x, c); }
        Trim(s);
      }
    } else {
      assert TrimEnd(s) == s;
    }
  }

  /** `sub` occurs in `s` starting at index `i`. */
  predicate OccursAt(s: string, sub: string, i: int) {
    0 <= i && i + |sub| <= |s| && s[i..i + |sub|] == sub
  }

  /** `s.includes(sub)`. */
  function Contains(s: string, sub: string): (b: bool)
    ensures b <==> exists i :: OccursAt(s, sub, i)
  {
    if |s| < |sub| then false
    else if s[..|sub|] == sub then assert OccursAt(s, sub, 0); true
    else
      var b := Contains(s[1..], sub);
      assert b ==> exists i :: OccursAt(s, sub, i) by {
        if b {
          var j :| OccursAt(s[1..], sub, j);
          OccursAfterFirst(s, sub, j + 1);
        }
      }
      assert (exists i :: OccursAt(s, sub, i)) ==> b by {
        if exists i :: OccursAt(s, sub, i) {
          var i :| OccursAt(s, sub, i);
          assert i != 0;
          OccursAfterFirst(s, sub, i);
        }
      }
      b
  }

  /** An occurrence past the first character is one in the rest of the text, one place earlier. */
  lemma OccursAfterFirst(s: string, sub: string, i: int)
    requires s != [] && i >= 1
    ensures OccursAt(s, sub, i) <==> OccursAt(s[1..], sub, i - 1)
  {
    if i + |sub| <= |s| {
      assert s[i..i + |sub|] == s[1..][i - 1..i - 1 + |sub|];
    }
  }

  predicate StartsWith(s: string, prefix: string) {
    |prefix| <= |s| && s[..|prefix|] == prefix
  }

  predicate EndsWith(s: string, suffix: string) {
    |suffix| <= |s| && s[|s| - |suffix|..] == suffix
  }

  /** ASCII upper-case letters folded to lower case; every other character unchanged. */
  function Lower(c: char): (r: char)
    ensures 'A' <= c <= 'Z' ==> 'a' <= r <= 'z'
    ensures !('A' <= c <= 'Z') ==> r == c
  {
    if 'A' <= c <= 'Z' then (c as int - 'A' as int + 'a' as int) as char else c
  }

  /** `s` starts, at `i`, with `lit` under the `i` flag of a regular expression (ASCII folding). */
  predicate MatchesFoldedAt(s: string, i: nat, lit: string) {
    i + |lit| <= |s| && forall k :: 0 <= k < |lit| ==> Lower(s[i + k]) == Lower(lit[k])
  }

  /** A character that is not a letter only matches itself under folding. */
  lemma FoldedFirst(s: string, i: nat, lit: string)
    requires MatchesFoldedAt(s, i, lit) && lit != []
    requires !('A' <= lit[0] <= 'Z') && !('a' <= lit[0] <= 'z')
    ensures s[i] == lit[0]
  {
    assert Lower(s[i + 0]) == Lower(lit[0]);
  }

  /** `s.split(sep)` for a one-character separator: always at least one piece. */
  function Split(s: string, sep: char): (parts: seq<string>)
    ensures |parts| >= 1
    ensures forall k :: 0 <= k < |parts| ==> sep !in parts[k]
  {
    if s == [] then [[]]
    else if s[0] == sep then [[]] + Split(s[1..], sep)
    else
      var rest := Split(s[1..], sep);
      [[s[0]] + rest[0]] + rest[1..]
  }

  /** `parts.join(sep)` for a one-character separator. */
  function Join(parts: seq<string>, sep: char): string {
    if |parts| == 0 then []
    else if |parts| == 1 then parts[0]
    else parts[0] + [sep] + Join(parts[1..], sep)
  }

  /** `parts.join(sep)` for a separator of any length. */
  function JoinWith(parts: seq<string>, sep: string): string {
    if |parts| == 0 then []
    else if |parts| == 1 then parts[0]
    else parts[0] + sep + JoinWith(parts[1..], sep)
  }

  lemma JoinExtendsFirst(c: char, parts: seq<string>, sep: char)
    requires |parts| >= 1
    ensures Join([[c] + parts[0]] + parts[1..], sep) == [c] + Join(parts, sep)
  {
    var q := [[c] + parts[0]] + parts[1..];
    if |parts| > 1 {
      assert q[1..] == parts[1..];
    }
  }

  /** The joined text begins with the first part. */
  lemma JoinStartsWithFirst(parts: seq<string>, sep: char)
    requires |parts| >= 1
    ensures StartsWith(Join(parts, sep), parts[0])
  {
    if |parts| > 1 {
      assert Join(parts, sep) == parts[0] + ([sep] + Join(parts[1..], sep));
    }
  }

  /** Splitting and joining again on the same character gives the text back. */
  lemma {:induction false} JoinSplit(s: string, sep: char)
    ensures Join(Split(s, sep), sep) == s
  {
    if s == [] {
    } else if s[0] == sep {
      var rest := Split(s[1..], sep);
      JoinSplit(s[1..], sep);
      assert ([[]] + rest)[1..] == rest;
      assert s == [sep] + s[1..];
    } else {
      var rest := Split(s[1..], sep);
      JoinSplit(s[1..], sep);
      JoinExtendsFirst(s[0], rest, sep);
      assert s == [s[0]] + s[1..];
    }
  }

  lemma {:induction false} SplitNoSep(u: string, sep: char)
    requires sep !in u
    ensures Split(u, sep) == [u]
  {
    if u != [] {
      SplitNoSep(u[1..], sep);
      assert [u[0]] + u[1..] == u;
    }
  }

  lemma {:induction false} SplitAtSep(u: string, w: string, sep: char)
    requires sep !in u
    ensures Split(u + [sep] + w, sep) == [u] + Split(w, sep)
  {
    if u == [] {
      assert ([] + [sep] + w)[1..] == w;
    } else {
      assert (u + [sep] + w)[1..] == u[1..] + [sep] + w;
      SplitAtSep(u[1..], w, sep);
      assert [u[0]] + u[1..] == u;
    }
  }

  /** Joining pieces that do not contain the separator and splitting again gives the pieces back. */
  lemma {:induction false} SplitJoin(parts: seq<string>, sep: char)
    requires |parts| >= 1
    requires forall k :: 0 <= k < |parts| ==> sep !in parts[k]
    ensures Split(Join(parts, sep), sep) == parts
  {
    if |parts| == 1 {
      SplitNoSep(parts[0], sep);
    } else {
      SplitJoin(parts[1..], sep);
      SplitAtSep(parts[0], Join(parts[1..], sep), sep);
      assert [parts[0]] + parts[1..] == parts;
    }
  }

  /** Appending one character to a text extends its last piece, or starts a new one. */
  lemma SplitSnoc(s: string, c: char, sep: char)
    ensures var p := Split(s, sep);
            Split(s + [c], sep) == if c == sep then p + [[]] else p[..|p| - 1] + [p[|p| - 1] + [c]]
  {
    if c == sep {
      SplitSnocSep(s, sep);
    } else {
      SplitSnocOther(s, c, sep);
    }
  }

  lemma {:induction false} SplitSnocSep(s: string, sep: char)
    ensures Split(s + [sep], sep) == Split(s, sep) + [[]]
  {
    if s == [] {
      assert [] + [sep] == [sep] && [sep][1..] == [];
    } else {
      var x := s[1..];
      assert (s + [sep])[1..] == x + [sep];
      SplitSnocSep(x, sep);
      var r := Split(x, sep);
      if s[0] == sep {
        assert [[]] + (r + [[]]) == ([[]] + r) + [[]];
      } else {
        var q := r + [[]];
        assert q[0] == r[0] && q[1..] == r[1..] + [[]];
        assert [[s[0]] + r[0]] + (r[1..] + [[]]) == ([[s[0]] + r[0]] + r[1..]) + [[]];
      }
    }
  }

  lemma {:induction false} SplitSnocOther(s: string, c: char, sep: char)
    requires c != sep
    ensures var p := Split(s, sep);
            Split(s + [c], sep) == p[..|p| - 1] + [p[|p| - 1] + [c]]
  {
    if s == [] {
      assert s + [c] == [c] && [c][1..] == [];
      var e: seq<string> := [[]];
      assert Split(s, sep) == e && Split([c][1..], sep) == e;
      assert Split([c], sep) == [[c] + e[0]] + e[1..];
      assert [c] + e[0] == [c] && e[1..] == [];
      assert e[..|e| - 1] + [e[|e| - 1] + [c]] == [[c]];
    } else {
      var x := s[1..];
      assert (s + [c])[0] == s[0] && (s + [c])[1..] == x + [c];
      SplitSnocOther(x, c, sep);
      if s[0] == sep {
        SnocAfterEmptyPart(Split(x, sep), c);
      } else {
        SnocAfterJoinedPart(Split(x, sep), s[0], c);
      }
    }
  }

  /** Appending to the last part is unaffected by an empty part in front. */
  lemma SnocAfterEmptyPart(r: seq<string>, c: char)
    requires |r| >= 1
    ensures var p := [[]] + r;
            [[]] + (r[..|r| - 1] + [r[|r| - 1] + [c]]) == p[..|p| - 1] + [p[|p| - 1] + [c]]
  {
    var p := [[]] + r;
    assert p[..|p| - 1] == [[]] + r[..|r| - 1];
  }

  /** Appending to the last part commutes with prefixing the first part by `h`. */
  lemma SnocAfterJoinedPart(r: seq<string>, h: char, c: char)
    requires |r| >= 1
    ensures var p := [[h] + r[0]] + r[1..];
            var q := r[..|r| - 1] + [r[|r| - 1] + [c]];
            [[h] + q[0]] + q[1..] == p[..|p| - 1] + [p[|p| - 1] + [c]]
  {
    var n := |r|;
    var p := [[h] + r[0]] + r[1..];
    var q := r[..n - 1] + [r[n - 1] + [c]];
    if n == 1 {
      assert q == [r[0] + [c]];
      assert [h] + (r[0] + [c]) == ([h] + r[0]) + [c];
    } else {
      assert q[0] == r[0] && q[1..] == r[1..n - 1] + [r[n - 1] + [c]];
      assert p[..|p| - 1] == [[h] + r[0]] + r[1..n - 1];
    }
  }

  function DigitChar(d: nat): (c: char)
    requires d < 10
    ensures IsDigit(c)
  {
    ('0' as int + d) as char
  }

  function DigitValue(c: char): (d: nat)
    requires IsDigit(c)
    ensures d < 10 && DigitChar(d) == c
  {
    c as int - '0' as int
  }

  /** `String(n)` for a natural number: decimal digits without leading zeros. */
  function NatText(n: nat): (s: string)
    ensures |s| >= 1 && forall k :: 0 <= k < |s| ==> IsDigit(s[k])
    ensures |s| > 1 ==> s[0] != '0'
    decreases n
  {
    if n < 10 then [DigitChar(n)] else NatText(n / 10) + [DigitChar(n % 10)]
  }

  /** The number a run of decimal digits denotes (what `Number` gives for it). */
  function DigitsValue(s: string): (n: nat)
    requires forall k :: 0 <= k < |s| ==> IsDigit(s[k])
  {
    if s == [] then 0 else DigitsValue(s[..|s| - 1]) * 10 + DigitValue(s[|s| - 1])
  }

  lemma {:induction false} DigitsOfNatText(n: nat)
    ensures DigitsValue(NatText(n)) == n
    decreases n
  {
    if n >= 10 {
      DigitsOfNatText(n / 10);
      var s := NatText(n);
      assert s[..|s| - 1] == NatText(n / 10);
    }
  }

  /** A digit run with no superfluous leading zero. */
  predicate IsCanonicalDigits(s: string) {
    |s| >= 1 && (forall k :: 0 <= k < |s| ==> IsDigit(s[k])) && (|s| > 1 ==> s[0] != '0')
  }

  lemma {:induction false} NatTextOfDigits(s: string)
    requires IsCanonicalDigits(s)
    ensures NatText(DigitsValue(s)) == s
    decreases |s|
  {
    var init := s[..|s| - 1];
    var n := DigitsValue(s);
    if |s| == 1 {
      assert n == DigitValue(s[0]);
    } else {
      assert IsCanonicalDigits(init) by {
        assert init[0] == s[0];
      }
      NatTextOfDigits(init);
      LeadingDigitPositive(init);
      assert n / 10 == DigitsValue(init) && n % 10 == DigitValue(s[|s| - 1]);
      assert s == init + [s[|s| - 1]];
    }
  }

  lemma LeadingDigitPositive(s: string)
    requires IsCanonicalDigits(s) && |s| >= 1 && s[0] != '0'
    ensures DigitsValue(s) >= 1
    decreases |s|
  {
    if |s| > 1 {
      LeadingDigitPositive(s[..|s| - 1]);
    }
  }
}
