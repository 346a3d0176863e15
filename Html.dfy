/**
 * The HTML-to-text passes of the scaffold generator (tools/new-problem.ts):
 * `decodeHtml`, `stripTags` and `htmlToText`.  Every regular expression the
 * passes use is one constructor of `Pattern`; `MatchLen` gives the length of
 * its match at the start of a text, and `ReplaceAll` is `String.prototype.replace`
 * with the global flag: it scans from the left, replaces a match and resumes
 * after it.  None of the patterns looks behind or anchors, so a match at index
 * `i` of a text is exactly a match at the start of its suffix from `i`.
 */
module Html {
  import opened Wrappers
  import opened Strings

  datatype Pattern =
    | Literal(text: string)   // a fixed text, case-sensitive: an entity, or "\r"
    | ParagraphEnd            // /<\/p>\s*/i
    | LineBreak               // /<br\s*\/?>/i
    | ItemStart               // /<li>\s*/i
    | ItemEnd                 // /<\/li>\s*/i
    | PreBlock                // /<pre>[\s\S]*?<\/pre>/i
    | Tag                     // /<[^>]+>/
    | BlankBeforeNewline      // /[ \t]+\n/
    | NewlineRun              // /\n{3,}/

  /** The characters a match of `p` can start with. */
  predicate CanStart(p: Pattern, c: char) {
    match p
    case Literal(t) => t != [] && c == t[0]
    case BlankBeforeNewline => c == ' ' || c == '\t'
    case NewlineRun => c == '\n'
    case _ => c == '<'
  }

  /** End of the greedy run of white space that starts at `i`. */
  function SpaceRun(s: string, i: nat): (j: nat)
    requires i <= |s|
    ensures i <= j <= |s|
    ensures forall k :: i <= k < j ==> IsSpace(s[k])
    ensures j == |s| || !IsSpace(s[j])
    decreases |s| - i
  {
    if i < |s| && IsSpace(s[i]) then SpaceRun(s, i + 1) else i
  }

  /** End of the run of characters `c` that starts at `i`. */
  function CharRun(s: string, i: nat, c: char): (j: nat)
    requires i <= |s|
    ensures i <= j <= |s|
    ensures forall k :: i <= k < j ==> s[k] == c
    ensures j == |s| || s[j] != c
    decreases |s| - i
  {
    if i < |s| && s[i] == c then CharRun(s, i + 1, c) else i
  }

  /** End of the run of spaces and tabs that starts at `i`. */
  function BlankRun(s: string, i: nat): (j: nat)
    requires i <= |s|
    ensures i <= j <= |s|
    ensures forall k :: i <= k < j ==> s[k] == ' ' || s[k] == '\t'
    ensures j == |s| || (s[j] != ' ' && s[j] != '\t')
    decreases |s| - i
  {
    if i < |s| && (s[i] == ' ' || s[i] == '\t') then BlankRun(s, i + 1) else i
  }

  /** The first index at or after `from` where `lit` occurs, letters compared without case. */
  function IndexOfFolded(s: string, from: nat, lit: string): (r: Option<nat>)
    requires from <= |s|
    ensures r.Some? ==> from <= r.value && MatchesFoldedAt(s, r.value, lit)
    ensures forall j :: from <= j && (r.None? || j < r.value) ==> !MatchesFoldedAt(s, j, lit)
    decreases |s| - from
  {
    if MatchesFoldedAt(s, from, lit) then Some(from)
    else if from == |s| then None
    else IndexOfFolded(s, from + 1, lit)
  }

  /** A match with none before it, from `from` on, is the one found. */
  lemma FirstFoldedAt(s: string, from: nat, lit: string, n: nat)
    requires from <= n <= |s| && MatchesFoldedAt(s, n, lit)
    requires forall j :: from <= j < n ==> !MatchesFoldedAt(s, j, lit)
    ensures IndexOfFolded(s, from, lit) == Some(n)
  {
    var r := IndexOfFolded(s, from, lit);
    assert r.Some? && r.value <= n;
  }

  /** The first index at or after `from` that holds `c`. */
  function IndexOfChar(s: string, from: nat, c: char): (r: Option<nat>)
    requires from <= |s|
    ensures r.Some? ==> from <= r.value < |s| && s[r.value] == c
    ensures forall j :: from <= j < |s| && (r.None? || j < r.value) ==> s[j] != c
    decreases |s| - from
  {
    if from == |s| then None
    else if s[from] == c then Some(from)
    else IndexOfChar(s, from + 1, c)
  }

  /** Length of the match of `p` at the start of `s`, 0 when `p` does not match there. */
  function MatchLen(p: Pattern, s: string): (n: nat)
    ensures n <= |s|
    ensures n > 0 ==> CanStart(p, s[0])
  {
    match p
    case Literal(t) =>
      if t != [] && StartsWith(s, t) then |t| else 0
    case ParagraphEnd =>
      if MatchesFoldedAt(s, 0, "</p>") then FoldedFirst(s, 0, "</p>"); SpaceRun(s, 4) else 0
    case LineBreak =>
      if MatchesFoldedAt(s, 0, "<br") then
        FoldedFirst(s, 0, "<br");
        var j := SpaceRun(s, 3);
        var k := if j < |s| && s[j] == '/' then j + 1 else j;
        if k < |s| && s[k] == '>' then k + 1 else 0
      else 0
    case ItemStart =>
      if MatchesFoldedAt(s, 0, "<li>") then FoldedFirst(s, 0, "<li>"); SpaceRun(s, 4) else 0
    case ItemEnd =>
      if MatchesFoldedAt(s, 0, "</li>") then FoldedFirst(s, 0, "</li>"); SpaceRun(s, 5) else 0
    case PreBlock =>
      if MatchesFoldedAt(s, 0, "<pre>") then
        FoldedFirst(s, 0, "<pre>");
        match IndexOfFolded(s, 5, "</pre>")
        case Some(k) => k + 6
        case None => 0
      else 0
    case Tag =>
      if s != [] && s[0] == '<' then
        match IndexOfChar(s, 1, '>')
        case Some(k) => if k >= 2 then k + 1 else 0
        case None => 0
      else 0
    case BlankBeforeNewline =>
      var j := BlankRun(s, 0);
      if j >= 1 && j < |s| && s[j] == '\n' then j + 1 else 0
    case NewlineRun =>
      var j := CharRun(s, 0, '\n');
      if j >= 3 then j else 0
  }

  /** `s.replace(p, rep)` with the global flag. */
  function ReplaceAll(p: Pattern, s: string, rep: string): string
    decreases |s|
  {
    if s == [] then []
    else
      var n := MatchLen(p, s);
      if n > 0 then rep + ReplaceAll(p, s[n..], rep)
      else [s[0]] + ReplaceAll(p, s[1..], rep)
  }

  lemma ReplaceAllHit(p: Pattern, s: string, rep: string)
    requires MatchLen(p, s) > 0
    ensures ReplaceAll(p, s, rep) == rep + ReplaceAll(p, s[MatchLen(p, s)..], rep)
  {
  }

  /** A text none of whose characters can start a match is left alone, and so is what follows it. */
  lemma {:induction false} ReplaceAllSkips(p: Pattern, u: string, w: string, rep: string)
    requires forall i :: 0 <= i < |u| ==> !CanStart(p, u[i])
    ensures ReplaceAll(p, u + w, rep) == u + ReplaceAll(p, w, rep)
  {
    if u != [] {
      var s := u + w;
      assert s[0] == u[0] && s[1..] == u[1..] + w;
      ReplaceAllMiss(p, s, rep);
      ReplaceAllSkips(p, u[1..], w, rep);
      assert [u[0]] + (u[1..] + ReplaceAll(p, w, rep)) == u + ReplaceAll(p, w, rep);
    } else {
      assert u + w == w;
    }
  }

  lemma ReplaceAllMiss(p: Pattern, s: string, rep: string)
    requires s != [] && !CanStart(p, s[0])
    ensures ReplaceAll(p, s, rep) == [s[0]] + ReplaceAll(p, s[1..], rep)
  {
    assert MatchLen(p, s) == 0;
  }

  lemma ReplaceAllIdentity(p: Pattern, s: string, rep: string)
    requires forall i :: 0 <= i < |s| ==> !CanStart(p, s[i])
    ensures ReplaceAll(p, s, rep) == s
  {
    ReplaceAllSkips(p, s, [], rep);
    assert s + [] == s;
  }

  /** A replacement no longer than any match never makes the text longer. */
  lemma {:induction false} ReplaceAllShrinks(p: Pattern, s: string, rep: string)
    requires p.Literal? && |rep| <= |p.text|
    ensures |ReplaceAll(p, s, rep)| <= |s|
    decreases |s|
  {
    if s != [] {
      var n := MatchLen(p, s);
      if n > 0 {
        ReplaceAllShrinks(p, s[n..], rep);
      } else {
        ReplaceAllShrinks(p, s[1..], rep);
      }
    }
  }

  /** `decodeHtml`: six entity replacements, in this order. */
  function DecodeHtml(s: string): string {
    var t1 := ReplaceAll(Literal("&lt;"), s, "<");
    var t2 := ReplaceAll(Literal("&gt;"), t1, ">");
    var t3 := ReplaceAll(Literal("&amp;"), t2, "&");
    var t4 := ReplaceAll(Literal("&quot;"), t3, "\"");
    var t5 := ReplaceAll(Literal("&#39;"), t4, "'");
    ReplaceAll(Literal("&nbsp;"), t5, " ")
  }

  /** Decoding never lengthens a text, and a text without `&` is left as it is. */
  lemma DecodeHtmlShrinks(s: string)
    ensures |DecodeHtml(s)| <= |s|
    ensures '&' !in s ==> DecodeHtml(s) == s
  {
    var t1 := ReplaceAll(Literal("&lt;"), s, "<");
    var t2 := ReplaceAll(Literal("&gt;"), t1, ">");
    var t3 := ReplaceAll(Literal("&amp;"), t2, "&");
    var t4 := ReplaceAll(Literal("&quot;"), t3, "\"");
    var t5 := ReplaceAll(Literal("&#39;"), t4, "'");
    ReplaceAllShrinks(Literal("&lt;"), s, "<");
    ReplaceAllShrinks(Literal("&gt;"), t1, ">");
    ReplaceAllShrinks(Literal("&amp;"), t2, "&");
    ReplaceAllShrinks(Literal("&quot;"), t3, "\"");
    ReplaceAllShrinks(Literal("&#39;"), t4, "'");
    ReplaceAllShrinks(Literal("&nbsp;"), t5, " ");
    if '&' !in s {
      ReplaceAllIdentity(Literal("&lt;"), s, "<");
      ReplaceAllIdentity(Literal("&gt;"), t1, ">");
      ReplaceAllIdentity(Literal("&amp;"), t2, "&");
      ReplaceAllIdentity(Literal("&quot;"), t3, "\"");
      ReplaceAllIdentity(Literal("&#39;"), t4, "'");
      ReplaceAllIdentity(Literal("&nbsp;"), t5, " ");
    }
  }

  /** One step of a literal replacement where the text does not start with the literal. */
  lemma LiteralMiss(t: string, s: string, rep: string)
    requires s != [] && !StartsWith(s, t)
    ensures ReplaceAll(Literal(t), s, rep) == [s[0]] + ReplaceAll(Literal(t), s[1..], rep)
  {
  }

  /** One step of a literal replacement where the text starts with the literal. */
  lemma LiteralHit(t: string, s: string, rep: string)
    requires t != [] && StartsWith(s, t)
    ensures ReplaceAll(Literal(t), s, rep) == rep + ReplaceAll(Literal(t), s[|t|..], rep)
  {
  }

  lemma {:induction false} NoAmpersandUnchanged(t: string, s: string, rep: string)
    requires t != [] && t[0] == '&' && '&' !in s
    ensures ReplaceAll(Literal(t), s, rep) == s
  {
    ReplaceAllIdentity(Literal(t), s, rep);
  }

  lemma DecodeOrderFirstPasses(s: string)
    requires s == "&amp;lt;"
    ensures ReplaceAll(Literal("&gt;"), ReplaceAll(Literal("&lt;"), s, "<"), ">") == s
  {
    NoAmpersandUnchanged("&lt;", s[1..], "<");
    NoAmpersandUnchanged("&gt;", s[1..], ">");
    assert s[..4] == "&amp";
    LiteralMiss("&lt;", s, "<");
    LiteralMiss("&gt;", s, ">");
    assert [s[0]] + s[1..] == s;
  }

  lemma DecodeOrderAmp(s: string)
    requires s == "&amp;lt;"
    ensures ReplaceAll(Literal("&amp;"), s, "&") == "&lt;"
  {
    assert s[..5] == "&amp;" && s[5..] == "lt;";
    NoAmpersandUnchanged("&amp;", s[5..], "&");
  }

  lemma DecodeOrderLastPasses(d: string)
    requires d == "&lt;"
    ensures ReplaceAll(Literal("&nbsp;"), ReplaceAll(Literal("&#39;"), ReplaceAll(Literal("&quot;"), d, "\""), "'"), " ") == d
  {
    assert d[1..] == "lt;";
    NoAmpersandUnchanged("&quot;", d[1..], "\"");
    NoAmpersandUnchanged("&#39;", d[1..], "'");
    NoAmpersandUnchanged("&nbsp;", d[1..], " ");
  }

  /** `&lt;` is decoded before `&amp;`, so a doubly escaped `&amp;lt;` becomes `&lt;`, not `<`. */
  lemma DecodeOrder()
    ensures DecodeHtml("&amp;lt;") == "&lt;"
  {
    DecodeOrderFirstPasses("&amp;lt;");
    DecodeOrderAmp("&amp;lt;");
    DecodeOrderLastPasses("&lt;");
  }

  /** The tag pass: every `<`, at least one character other than `>`, then `>`, removed. */
  function RemoveTags(s: string): string {
    ReplaceAll(Tag, s, "")
  }

  /** `stripTags`: tags removed, then entities decoded. */
  function StripTags(s: string): string {
    DecodeHtml(RemoveTags(s))
  }

  /** A tag disappears with everything between its brackets; text before it without `<` stays. */
  lemma RemoveTagsDropsTag(u: string, t: string, w: string)
    requires '<' !in u
    requires t != [] && '>' !in t
    ensures RemoveTags(u) == u
    ensures RemoveTags(u + "<" + t + ">" + w) == u + RemoveTags(w)
  {
    NoTagStart(u);
    ReplaceAllIdentity(Tag, u, "");
    var s := "<" + t + ">" + w;
    assert u + "<" + t + ">" + w == u + s;
    ReplaceAllSkips(Tag, u, s, "");
    TagAtStart(s, t, w);
    ReplaceAllHit(Tag, s, "");
    assert ReplaceAll(Tag, s, "") == RemoveTags(w);
  }

  lemma NoTagStart(u: string)
    requires '<' !in u
    ensures forall i :: 0 <= i < |u| ==> !CanStart(Tag, u[i])
  {
  }

  /** A text that opens with a tag matches the tag pattern up to its closing bracket. */
  lemma TagAtStart(s: string, t: string, w: string)
    requires s == "<" + t + ">" + w
    requires t != [] && '>' !in t
    ensures MatchLen(Tag, s) == |t| + 2 && s[|t| + 2..] == w
  {
    assert s[|t| + 1] == '>';
    assert forall j :: 1 <= j < |t| + 1 ==> s[j] == t[j - 1];
    assert IndexOfChar(s, 1, '>') == Some(|t| + 1);
  }

  /** Text without `<` or `&` passes `stripTags` unchanged, and so does such a text after a tag. */
  lemma StripTagsKeepsPlainText(u: string, t: string, w: string)
    requires '<' !in u && '<' !in w && '&' !in u + w
    requires t != [] && '>' !in t
    ensures StripTags(u) == u
    ensures StripTags(u + "<" + t + ">" + w) == u + w
  {
    RemoveTagsDropsTag(u, t, w);
    ReplaceAllIdentity(Tag, w, "");
    DecodeHtmlShrinks(u);
    DecodeHtmlShrinks(u + w);
  }

  // ---------------------------------------------------------------------------
  // Lines

  function Lines(t: string): seq<string> {
    Split(t, '\n')
  }

  /** `line` does not end in white space. */
  predicate EndsClean(line: string) {
    line == [] || !IsSpace(line[|line| - 1])
  }

  /** `/^Example\s+\d+:\s*$/` */
  predicate IsExampleHeading(t: string) {
    StartsWith(t, "Example") &&
    var j := SpaceRun(t, 7);
    j > 7 &&
    var k := DigitRun(t, j);
    k > j && k < |t| && t[k] == ':' && SpaceRun(t, k + 1) == |t|
  }

  function DigitRun(s: string, i: nat): (j: nat)
    requires i <= |s|
    ensures i <= j <= |s|
    decreases |s| - i
  {
    if i < |s| && IsDigit(s[i]) then DigitRun(s, i + 1) else i
  }

  predicate NoLineEndsInSpace(t: string) {
    forall k :: 0 <= k < |Lines(t)| ==> EndsClean(Lines(t)[k])
  }

  predicate NoExampleHeading(t: string) {
    forall k :: 0 <= k < |Lines(t)| ==> !IsExampleHeading(Trim(Lines(t)[k]))
  }

  /** Three newlines start at `i`. */
  predicate TripleAt(t: string, i: int) {
    0 <= i && i + 2 < |t| && t[i] == '\n' && t[i + 1] == '\n' && t[i + 2] == '\n'
  }

  /** No three newlines in a row. */
  predicate NoTripleNewline(t: string) {
    forall i :: 0 <= i < |t| ==> !TripleAt(t, i)
  }

  lemma TripleAtMeans(t: string, i: int)
    ensures OccursAt(t, "\n\n\n", i) <==> TripleAt(t, i)
  {
    if 0 <= i && i + 3 <= |t| {
      assert t[i..i + 3] == [t[i], t[i + 1], t[i + 2]];
    }
  }

  lemma NoTripleNewlineMeans(t: string)
    ensures NoTripleNewline(t) <==> !Contains(t, "\n\n\n")
  {
    forall i {
      TripleAtMeans(t, i);
    }
  }

  /** The lines that survive the line pass: white space trimmed from their ends. */
  function TrimLineEnds(lines: seq<string>): (r: seq<string>)
    ensures |r| == |lines|
    ensures forall k :: 0 <= k < |r| ==> r[k] == TrimEnd(lines[k])
  {
    if lines == [] then [] else [TrimEnd(lines[0])] + TrimLineEnds(lines[1..])
  }

  /** A line of a split text, with its end trimmed: no newline in it, no white space at its end. */
  predicate PlainLine(line: string) {
    '\n' !in line && EndsClean(line)
  }

  /** `xs.filter(keep)`: the elements `keep` accepts, in their order. */
  function Filter<T>(xs: seq<T>, keep: T -> bool): (r: seq<T>)
    ensures |r| <= |xs|
    ensures forall k :: 0 <= k < |r| ==> keep(r[k]) && r[k] in xs
    ensures forall x :: x in xs && keep(x) ==> x in r
  {
    if xs == [] then []
    else if keep(xs[0]) then [xs[0]] + Filter(xs[1..], keep)
    else Filter(xs[1..], keep)
  }

  /** The test of the heading filter: the trimmed line does not read `Example N:`. */
  predicate NotHeading(line: string) {
    !IsExampleHeading(Trim(line))
  }

  /** `filter((line) => !/^Example\s+\d+:\s*$/.test(line.trim()))`: every line kept is one of the input's and no heading. */
  function DropHeadings(lines: seq<string>): (r: seq<string>)
    ensures |r| <= |lines|
    ensures forall k :: 0 <= k < |r| ==> !IsExampleHeading(Trim(r[k])) && r[k] in lines
    ensures forall x :: x in lines && !IsExampleHeading(Trim(x)) ==> x in r
  {
    Filter(lines, NotHeading)
  }

  /** The line pass of `htmlToText`: split, trim each line's end, drop example headings, join. */
  function CleanLines(text: string): string {
    Join(DropHeadings(TrimLineEnds(Lines(text))), '\n')
  }

  lemma TrimmedLinesArePlain(lines: seq<string>)
    requires forall k :: 0 <= k < |lines| ==> '\n' !in lines[k]
    ensures forall k :: 0 <= k < |TrimLineEnds(lines)| ==> PlainLine(TrimLineEnds(lines)[k])
  {
    var trimmed := TrimLineEnds(lines);
    forall k | 0 <= k < |trimmed| ensures PlainLine(trimmed[k]) {
      var x := lines[k];
      var r := TrimEnd(x);
      assert r == x[..|r|];
      assert forall i :: 0 <= i < |r| ==> r[i] == x[i];
    }
  }

  lemma JoinedPlainLines(kept: seq<string>)
    requires forall k :: 0 <= k < |kept| ==> PlainLine(kept[k]) && !IsExampleHeading(Trim(kept[k]))
    ensures NoLineEndsInSpace(Join(kept, '\n')) && NoExampleHeading(Join(kept, '\n'))
  {
    if kept != [] {
      SplitJoin(kept, '\n');
    } else {
      assert Lines([]) == [[]];
      assert Trim([]) == [];
    }
  }

  lemma KeptLinesArePlain(lines: seq<string>)
    requires forall k :: 0 <= k < |lines| ==> PlainLine(lines[k])
    ensures forall k :: 0 <= k < |DropHeadings(lines)| ==>
      PlainLine(DropHeadings(lines)[k]) && !IsExampleHeading(Trim(DropHeadings(lines)[k]))
  {
    var kept := DropHeadings(lines);
    forall k | 0 <= k < |kept|
      ensures PlainLine(kept[k])
    {
      var j :| 0 <= j < |lines| && lines[j] == kept[k];
    }
  }

  lemma CleanLinesAreClean(text: string)
    ensures NoLineEndsInSpace(CleanLines(text))
    ensures NoExampleHeading(CleanLines(text))
  {
    var trimmed := TrimLineEnds(Lines(text));
    var kept := DropHeadings(trimmed);
    TrimmedLinesArePlain(Lines(text));
    KeptLinesArePlain(trimmed);
    JoinedPlainLines(kept);
    assert CleanLines(text) == Join(kept, '\n');
  }

  // ---------------------------------------------------------------------------
  // The newline-collapsing pass keeps every line except empty ones

  function Collapse(t: string): string {
    ReplaceAll(NewlineRun, t, "\n\n")
  }

  lemma {:induction false} SplitAfterNewlines(t: string, n: nat)
    requires n <= |t| && forall i :: 0 <= i < n ==> t[i] == '\n'
    ensures |Lines(t)| >= n + 1 && Lines(t)[n..] == Lines(t[n..])
  {
    if n > 0 {
      assert Lines(t) == [[]] + Lines(t[1..]);
      SplitAfterNewlines(t[1..], n - 1);
      assert t[1..][n - 1..] == t[n..];
    }
  }

  lemma SplitCons(c: char, x: string)
    ensures c == '\n' ==> Lines([c] + x) == [[]] + Lines(x)
    ensures c != '\n' ==> Lines([c] + x) == [[c] + Lines(x)[0]] + Lines(x)[1..]
  {
    assert ([c] + x)[1..] == x;
  }

  lemma {:induction false} CollapseLines(t: string)
    ensures Lines(Collapse(t))[0] == Lines(t)[0]
    ensures forall k :: 1 <= k < |Lines(Collapse(t))| ==>
              Lines(Collapse(t))[k] == [] || Lines(Collapse(t))[k] in Lines(t)[1..]
    decreases |t|
  {
    if t != [] {
      var n := MatchLen(NewlineRun, t);
      if n > 0 {
        var rest := Collapse(t[n..]);
        CollapseLines(t[n..]);
        assert Collapse(t) == "\n\n" + rest;
        SplitCons('\n', "\n" + rest);
        SplitCons('\n', rest);
        assert ['\n'] + ("\n" + rest) == "\n\n" + rest;
        SplitAfterNewlines(t, n);
        SplitCons('\n', t[1..]);
        assert t == ['\n'] + t[1..];
      } else if t[0] == '\n' {
        var rest := Collapse(t[1..]);
        CollapseLines(t[1..]);
        assert Collapse(t) == ['\n'] + rest;
        SplitCons('\n', rest);
        SplitCons('\n', t[1..]);
        assert t == ['\n'] + t[1..];
      } else {
        var rest := Collapse(t[1..]);
        CollapseLines(t[1..]);
        assert Collapse(t) == [t[0]] + rest;
        SplitCons(t[0], rest);
        SplitCons(t[0], t[1..]);
        assert t == [t[0]] + t[1..];
      }
    }
  }

  lemma CollapseKeepsLines(t: string)
    requires NoLineEndsInSpace(t) && NoExampleHeading(t)
    ensures NoLineEndsInSpace(Collapse(t)) && NoExampleHeading(Collapse(t))
  {
    CollapseLines(t);
    var L := Lines(Collapse(t));
    forall k | 0 <= k < |L| ensures EndsClean(L[k]) && !IsExampleHeading(Trim(L[k])) {
      if k > 0 && L[k] != [] {
        var j :| 0 <= j < |Lines(t)[1..]| && Lines(t)[1..][j] == L[k];
        assert Lines(t)[j + 1] == L[k];
      }
    }
  }

  /** Collapsing leaves a leading newline (and a leading pair) only where the input had one. */
  lemma {:induction false} CollapseHead(t: string)
    ensures |Collapse(t)| >= 1 && Collapse(t)[0] == '\n' <==> |t| >= 1 && t[0] == '\n'
    ensures |Collapse(t)| >= 2 && Collapse(t)[0] == '\n' && Collapse(t)[1] == '\n' ==>
              |t| >= 2 && t[0] == '\n' && t[1] == '\n'
  {
    if t != [] {
      var n := MatchLen(NewlineRun, t);
      if n == 0 {
        CollapseHead(t[1..]);
      }
    }
  }

  lemma {:induction false} CollapseNoTriple(t: string)
    ensures NoTripleNewline(Collapse(t))
    decreases |t|
  {
    var c := Collapse(t);
    if t != [] {
      var n := MatchLen(NewlineRun, t);
      if n > 0 {
        var rest := Collapse(t[n..]);
        CollapseNoTriple(t[n..]);
        CollapseHead(t[n..]);
        assert c == "\n\n" + rest;
        assert c[2..] == rest;
        forall i | 0 <= i < |c| ensures !TripleAt(c, i) {
          if i >= 2 {
            assert TripleAt(c, i) == TripleAt(rest, i - 2);
          }
        }
      } else {
        var rest := Collapse(t[1..]);
        CollapseNoTriple(t[1..]);
        CollapseHead(t[1..]);
        assert c == [t[0]] + rest;
        assert !TripleAt(t, 0);
        forall i | 0 <= i < |c| ensures !TripleAt(c, i) {
          if i >= 1 {
            assert TripleAt(c, i) == TripleAt(rest, i - 1);
          } else {
            assert TripleAt(c, 0) ==> TripleAt(t, 0);
          }
        }
      }
    }
  }

  // ---------------------------------------------------------------------------
  // Trimming keeps what the line properties say

  lemma NewlineStartKeepsLines(x: string)
    requires NoLineEndsInSpace(['\n'] + x) && NoExampleHeading(['\n'] + x)
    ensures NoLineEndsInSpace(x) && NoExampleHeading(x)
  {
    SplitCons('\n', x);
    var L, M := Lines(['\n'] + x), Lines(x);
    forall k | 0 <= k < |M| ensures EndsClean(M[k]) && !IsExampleHeading(Trim(M[k])) {
      assert M[k] == L[k + 1];
    }
  }

  lemma SpaceStartKeepsLines(c: char, x: string)
    requires IsSpace(c) && c != '\n'
    requires NoLineEndsInSpace([c] + x) && NoExampleHeading([c] + x)
    ensures NoLineEndsInSpace(x) && NoExampleHeading(x)
  {
    SplitCons(c, x);
    var L, M := Lines([c] + x), Lines(x);
    TrimDropsLeadingSpace(c, M[0]);
    forall k | 0 <= k < |M| ensures EndsClean(M[k]) && !IsExampleHeading(Trim(M[k])) {
      if k > 0 {
        assert M[k] == L[k];
      } else {
        assert L[0] == [c] + M[0];
        if M[0] != [] {
          assert L[0][|L[0]| - 1] == M[0][|M[0]| - 1];
        }
      }
    }
  }

  lemma {:induction false} TrimStartKeepsLines(t: string)
    requires NoLineEndsInSpace(t) && NoExampleHeading(t)
    ensures NoLineEndsInSpace(TrimStart(t)) && NoExampleHeading(TrimStart(t))
    decreases |t|
  {
    if t != [] && IsSpace(t[0]) {
      var x := t[1..];
      assert t == [t[0]] + x;
      if t[0] == '\n' {
        NewlineStartKeepsLines(x);
      } else {
        SpaceStartKeepsLines(t[0], x);
      }
      TrimStartKeepsLines(x);
    }
  }

  lemma SpaceEndsLastLine(x: string, c: char)
    requires IsSpace(c) && c != '\n'
    ensures !NoLineEndsInSpace(x + [c])
  {
    SplitSnoc(x, c, '\n');
    var p := Lines(x);
    assert Lines(x + [c])[|p| - 1] == p[|p| - 1] + [c];
  }

  lemma NewlineEndKeepsLines(x: string)
    requires NoLineEndsInSpace(x + ['\n']) && NoExampleHeading(x + ['\n'])
    ensures NoLineEndsInSpace(x) && NoExampleHeading(x)
  {
    SplitSnoc(x, '\n', '\n');
    assert Lines(x + ['\n']) == Lines(x) + [[]];
    forall k | 0 <= k < |Lines(x)| ensures EndsClean(Lines(x)[k]) && !IsExampleHeading(Trim(Lines(x)[k])) {
      assert Lines(x)[k] == Lines(x + ['\n'])[k];
    }
  }

  lemma {:induction false} TrimEndKeepsLines(t: string)
    requires NoLineEndsInSpace(t) && NoExampleHeading(t)
    ensures NoLineEndsInSpace(TrimEnd(t)) && NoExampleHeading(TrimEnd(t))
    decreases |t|
  {
    if t != [] && IsSpace(t[|t| - 1]) {
      var x := t[..|t| - 1];
      var c := t[|t| - 1];
      assert t == x + [c];
      if c == '\n' {
        NewlineEndKeepsLines(x);
        TrimEndKeepsLines(x);
      } else {
        SpaceEndsLastLine(x, c);
      }
    }
  }

  lemma TrimKeepsLines(t: string)
    requires NoLineEndsInSpace(t) && NoExampleHeading(t)
    ensures NoLineEndsInSpace(Trim(t)) && NoExampleHeading(Trim(t))
  {
    TrimStartKeepsLines(t);
    TrimEndKeepsLines(TrimStart(t));
  }

  lemma InfixNoTriple(t: string, r: string, d: nat)
    requires NoTripleNewline(t) && d + |r| <= |t| && r == t[d..d + |r|]
    ensures NoTripleNewline(r)
  {
    forall i | 0 <= i < |r| ensures !TripleAt(r, i) {
      assert TripleAt(r, i) ==> TripleAt(t, d + i);
    }
  }

  lemma TrimNoTriple(t: string)
    requires NoTripleNewline(t)
    ensures NoTripleNewline(Trim(t))
  {
    var d := TrimIsInfix(t);
    InfixNoTriple(t, Trim(t), d);
  }

  // ---------------------------------------------------------------------------
  // The blank-before-newline pass changes nothing once lines are trimmed

  lemma FirstLineEndsAt(t: string, j: nat)
    requires j < |t| && t[j] == '\n' && '\n' !in t[..j]
    ensures Lines(t)[0] == t[..j]
  {
    SplitAtSep(t[..j], t[j + 1..], '\n');
    assert t == t[..j] + ['\n'] + t[j + 1..];
  }

  lemma {:induction false} BlankPassIsIdentity(t: string)
    requires NoLineEndsInSpace(t)
    ensures ReplaceAll(BlankBeforeNewline, t, "\n") == t
    decreases |t|
  {
    if t != [] {
      var x := t[1..];
      SplitCons(t[0], x);
      assert t == [t[0]] + x;
      var n := MatchLen(BlankBeforeNewline, t);
      if n > 0 {
        var j := BlankRun(t, 0);
        assert '\n' !in t[..j];
        FirstLineEndsAt(t, j);
        assert false;
      }
      assert NoLineEndsInSpace(x) by {
        forall k | 0 <= k < |Lines(x)| ensures EndsClean(Lines(x)[k]) {
          if t[0] == '\n' {
            assert Lines(x)[k] == Lines(t)[k + 1];
          } else if k > 0 {
            assert Lines(x)[k] == Lines(t)[k];
          } else {
            assert Lines(t)[0] == [t[0]] + Lines(x)[0];
          }
        }
      }
      BlankPassIsIdentity(x);
    }
  }

  // ---------------------------------------------------------------------------
  // The <pre> pass

  /** The lazy `[\s\S]*?` stops at the first `</pre>`. */
  lemma PreBlockMatch(b: string, w: string)
    requires forall i :: 0 <= i < |b| ==> !MatchesFoldedAt(b + "</pre>", i, "</pre>")
    ensures MatchLen(PreBlock, "<pre>" + b + "</pre>" + w) == |b| + 11
  {
    var s := "<pre>" + b + "</pre>" + w;
    assert MatchesFoldedAt(s, 0, "<pre>") by {
      assert forall k :: 0 <= k < 5 ==> s[k] == "<pre>"[k];
    }
    FoldedFirst(s, 0, "<pre>");
    assert MatchesFoldedAt(s, 5 + |b|, "</pre>") by {
      assert forall k :: 0 <= k < 6 ==> s[5 + |b| + k] == "</pre>"[k];
    }
    forall j | 5 <= j < 5 + |b| ensures !MatchesFoldedAt(s, j, "</pre>") {
      assert forall i :: 5 <= i < |s| - |w| ==> s[i] == (b + "</pre>")[i - 5];
      assert !MatchesFoldedAt(b + "</pre>", j - 5, "</pre>");
    }
    FirstFoldedAt(s, 5, "</pre>", 5 + |b|);
  }

  lemma PreBlockDropped(b: string, w: string)
    requires forall i :: 0 <= i < |b| ==> !MatchesFoldedAt(b + "</pre>", i, "</pre>")
    ensures ReplaceAll(PreBlock, "<pre>" + b + "</pre>" + w, "") == ReplaceAll(PreBlock, w, "")
  {
    var s := "<pre>" + b + "</pre>" + w;
    PreBlockMatch(b, w);
    ReplaceAllHit(PreBlock, s, "");
    assert s[|b| + 11..] == w;
  }

  /** A `<pre>` block and everything in it disappears; the text before it, without `<`, stays. */
  lemma PreBlockRemoved(u: string, b: string, w: string)
    requires '<' !in u
    requires forall i :: 0 <= i < |b| ==> !MatchesFoldedAt(b + "</pre>", i, "</pre>")
    ensures ReplaceAll(PreBlock, u + ("<pre>" + b + "</pre>" + w), "") == u + ReplaceAll(PreBlock, w, "")
  {
    ReplaceAllSkips(PreBlock, u, "<pre>" + b + "</pre>" + w, "");
    PreBlockDropped(b, w);
  }

  // ---------------------------------------------------------------------------

  /** `htmlToText`: the passes, in the source's order. */
  function PlainText(html: string): string {
    var t1 := ReplaceAll(ParagraphEnd, html, "\n\n");
    var t2 := ReplaceAll(LineBreak, t1, "\n");
    var t3 := ReplaceAll(ItemStart, t2, "- ");
    var t4 := ReplaceAll(ItemEnd, t3, "\n");
    var t5 := ReplaceAll(PreBlock, t4, "");
    var t6 := DecodeHtml(RemoveTags(t5));
    var t7 := ReplaceAll(Literal("\r"), t6, "");
    FinalPasses(t7)
  }

  /** The line pass, the blank-before-newline pass, the newline collapse and the final trim. */
  function FinalPasses(t: string): string {
    Trim(Collapse(ReplaceAll(BlankBeforeNewline, CleanLines(t), "\n")))
  }

  /**
   * Whatever the input, the text has no white space at its ends, no run of
   * three newlines, no line ending in white space and no line that reads
   * `Example N:`.
   */
  lemma PlainTextIsClean(html: string)
    ensures var r := PlainText(html);
      IsTrimmed(r) && NoTripleNewline(r) && NoLineEndsInSpace(r) && NoExampleHeading(r)
  {
    var t := html;
    t := ReplaceAll(ParagraphEnd, t, "\n\n");
    t := ReplaceAll(LineBreak, t, "\n");
    t := ReplaceAll(ItemStart, t, "- ");
    t := ReplaceAll(ItemEnd, t, "\n");
    t := ReplaceAll(PreBlock, t, "");
    t := ReplaceAll(Literal("\r"), DecodeHtml(RemoveTags(t)), "");
    var c := CleanLines(t);
    CleanLinesAreClean(t);
    BlankPassIsIdentity(c);
    CollapseKeepsLines(c);
    CollapseNoTriple(c);
    TrimKeepsLines(Collapse(c));
    TrimNoTriple(Collapse(c));
  }

  /** The markup and entity passes leave a text without `<`, `&` and carriage returns as it is. */
  lemma MarkupPassesKeepPlainText(html: string)
    requires '<' !in html && '&' !in html && '\r' !in html
    ensures ReplaceAll(Literal("\r"), DecodeHtml(RemoveTags(ReplaceAll(PreBlock,
              ReplaceAll(ItemEnd, ReplaceAll(ItemStart, ReplaceAll(LineBreak,
              ReplaceAll(ParagraphEnd, html, "\n\n"), "\n"), "- "), "\n"), ""))), "") == html
  {
    ReplaceAllIdentity(ParagraphEnd, html, "\n\n");
    ReplaceAllIdentity(LineBreak, html, "\n");
    ReplaceAllIdentity(ItemStart, html, "- ");
    ReplaceAllIdentity(ItemEnd, html, "\n");
    ReplaceAllIdentity(PreBlock, html, "");
    ReplaceAllIdentity(Tag, html, "");
    DecodeHtmlShrinks(html);
    ReplaceAllIdentity(Literal("\r"), html, "");
  }

  lemma CleanLinesOnOneLine(line: string)
    requires '\n' !in line && !IsExampleHeading(Trim(line))
    ensures CleanLines(line) == TrimEnd(line)
  {
    SplitNoSep(line, '\n');
    var y := TrimEnd(line);
    TrimOfTrimEnd(line);
    assert TrimLineEnds([line]) == [y];
    assert DropHeadings([y]) == [y];
  }

  /** A prefix of a text without newlines is a single clean line once its end is trimmed. */
  lemma TrimEndOfOneLine(line: string)
    requires '\n' !in line
    ensures '\n' !in TrimEnd(line) && NoLineEndsInSpace(TrimEnd(line))
  {
    var y := TrimEnd(line);
    assert forall i :: 0 <= i < |y| ==> y[i] == line[i];
    SplitNoSep(y, '\n');
  }

  /** The last passes turn one line into its trimmed self, unless it reads `Example N:`. */
  lemma FinalPassesOnOneLine(line: string)
    requires '\n' !in line && !IsExampleHeading(Trim(line))
    ensures FinalPasses(line) == Trim(line)
  {
    var y := TrimEnd(line);
    TrimEndOfOneLine(line);
    calc {
      FinalPasses(line);
      Trim(Collapse(ReplaceAll(BlankBeforeNewline, CleanLines(line), "\n")));
      { CleanLinesOnOneLine(line); }
      Trim(Collapse(ReplaceAll(BlankBeforeNewline, y, "\n")));
      { BlankPassIsIdentity(y); }
      Trim(Collapse(y));
      { ReplaceAllIdentity(NewlineRun, y, "\n\n"); }
      Trim(y);
      { TrimOfTrimEnd(line); }
      Trim(line);
    }
  }

  /** One line of plain text, without markup, entities or carriage returns, only loses its surrounding white space. */
  lemma PlainLineIsTrimmed(html: string)
    requires '<' !in html && '&' !in html && '\r' !in html && '\n' !in html
    requires !IsExampleHeading(Trim(html))
    ensures PlainText(html) == Trim(html)
  {
    MarkupPassesKeepPlainText(html);
    FinalPassesOnOneLine(html);
  }

  /** `htmlToText`: the text is rewritten by a fixed sequence of passes. */
  method HtmlToText(html: string) returns (text: string)
    ensures text == PlainText(html)
    ensures IsTrimmed(text) && NoTripleNewline(text)
    ensures NoLineEndsInSpace(text) && NoExampleHeading(text)
  {
    text := html;
    text := ReplaceAll(ParagraphEnd, text, "\n\n");
    text := ReplaceAll(LineBreak, text, "\n");
    text := ReplaceAll(ItemStart, text, "- ");
    text := ReplaceAll(ItemEnd, text, "\n");
    text := ReplaceAll(PreBlock, text, "");
    text := RemoveTags(text);
    text := DecodeHtml(text);
    text := ReplaceAll(Literal("\r"), text, "");
    text := CleanLines(text);
    text := ReplaceAll(BlankBeforeNewline, text, "\n");
    text := Collapse(text);
    text := Trim(text);
    PlainTextIsClean(html);
  }
}
