/**
 * What the scaffold generator reads from the TypeScript snippet:
 * `pickFunctionName`, `getFunctionParamCount`, `includesTypeName` and the
 * `isListNodeType` / `isTreeNodeType` type tests (tools/new-problem.ts).
 */
module Signature {
  import opened Wrappers
  import opened Strings
  import opened Patterns

  /** `function\s+([A-Za-z0-9_]+)\s*\(` */
  const FunctionDecl: Pattern :=
    [Lit("function"), Run(Space, 1, false), Run(Word, 1, true), Run(Space, 0, false), Lit("(")]

  /** `const\s+([A-Za-z0-9_]+)\s*=\s*function\s*\(` */
  const FunctionExpr: Pattern :=
    [Lit("const"), Run(Space, 1, false), Run(Word, 1, true), Run(Space, 0, false), Lit("="),
     Run(Space, 0, false), Lit("function"), Run(Space, 0, false), Lit("(")]

  /** `const\s+([A-Za-z0-9_]+)\s*=\s*\(` */
  const ArrowFunction: Pattern :=
    [Lit("const"), Run(Space, 1, false), Run(Word, 1, true), Run(Space, 0, false), Lit("="),
     Run(Space, 0, false), Lit("(")]

  /** The patterns `pickFunctionName` tries, in order. */
  const NamePatterns: seq<Pattern> := [FunctionDecl, FunctionExpr, ArrowFunction]

  /** The first capture of the first pattern that matches anywhere in `code`. */
  function FirstCapture(ps: seq<Pattern>, code: string): Option<string>
    requires forall k :: 0 <= k < |ps| ==> CaptureCount(ps[k], 0) >= 1
  {
    if ps == [] then None
    else
      match Search(ps[0], code)
      case Some(caps) => Some(caps[0])
      case None => FirstCapture(ps[1..], code)
  }

  lemma NameCaptures()
    ensures forall k :: 0 <= k < |NamePatterns| ==> CaptureCount(NamePatterns[k], 0) == 1
  {
    assert CaptureCount(FunctionDecl, 0) == 1;
    assert CaptureCount(FunctionExpr, 0) == 1;
    assert CaptureCount(ArrowFunction, 0) == 1;
  }

  /** The name `pickFunctionName` finds in `code`. */
  function NameOf(code: string): Option<string> {
    NameCaptures();
    FirstCapture(NamePatterns, code)
  }

  /** `pickFunctionName(code)`: try each pattern in turn and return the first capture found. */
  method PickFunctionName(code: string) returns (name: Option<string>)
    ensures name == NameOf(code)
  {
    var patterns := NamePatterns;
    for k := 0 to |patterns|
      invariant FirstCapture(patterns[k..], code) == NameOf(code)
    {
      assert patterns[k..][1..] == patterns[k + 1..];
      var found := Search(patterns[k], code);
      if found.Some? {
        return Some(found.value[0]);
      }
    }
    return None;
  }

  /** The parameter-list patterns of `getFunctionParamCount` for a function called `name`. */
  function ParamPatterns(name: string): seq<Pattern> {
    [
      // function\s+NAME\s*\(([^)]*)\)
      [Lit("function"), Run(Space, 1, false), Lit(name), Run(Space, 0, false), Lit("("),
       Run(NotCloseParen, 0, true), Lit(")")],
      // const\s+NAME\s*=\s*\(([^)]*)\)\s*=>
      [Lit("const"), Run(Space, 1, false), Lit(name), Run(Space, 0, false), Lit("="), Run(Space, 0, false),
       Lit("("), Run(NotCloseParen, 0, true), Lit(")"), Run(Space, 0, false), Lit("=>")],
      // const\s+NAME\s*=\s*function\s*\(([^)]*)\)
      [Lit("const"), Run(Space, 1, false), Lit(name), Run(Space, 0, false), Lit("="), Run(Space, 0, false),
       Lit("function"), Run(Space, 0, false), Lit("("), Run(NotCloseParen, 0, true), Lit(")")]
    ]
  }

  /** A pattern whose only capturing token is `g` has one capture from any token up to `g`. */
  lemma OneGroup(p: Pattern, g: nat, k: nat)
    requires g < |p| && p[g].Run? && p[g].capture && k <= |p|
    requires forall j :: 0 <= j < |p| && j != g ==> !(p[j].Run? && p[j].capture)
    ensures CaptureCount(p, k) == if k <= g then 1 else 0
    decreases |p| - k
  {
    if k < |p| {
      OneGroup(p, g, k + 1);
    }
  }

  lemma ParamCaptures(name: string)
    ensures forall k :: 0 <= k < |ParamPatterns(name)| ==> CaptureCount(ParamPatterns(name)[k], 0) == 1
  {
    var ps := ParamPatterns(name);
    OneGroup(ps[0], 5, 0);
    OneGroup(ps[1], 7, 0);
    OneGroup(ps[2], 9, 0);
  }

  /** `.map((part) => part.trim()).filter(Boolean).length` */
  function NonBlankCount(pieces: seq<string>): (n: nat)
    ensures n <= |pieces|
  {
    if pieces == [] then 0
    else (if Trim(pieces[0]) != [] then 1 else 0) + NonBlankCount(pieces[1..])
  }

  /** The number of parameters in a captured parameter list. */
  function CountInList(list: string): nat {
    var raw := Trim(list);
    if raw == [] then 0 else NonBlankCount(Split(raw, ','))
  }

  /** The parameter count read from the first pattern that matches. */
  function FirstCount(ps: seq<Pattern>, code: string): Option<nat>
    requires forall k :: 0 <= k < |ps| ==> CaptureCount(ps[k], 0) >= 1
  {
    if ps == [] then None
    else
      match Search(ps[0], code)
      case Some(caps) => Some(CountInList(caps[0]))
      case None => FirstCount(ps[1..], code)
  }

  /** What `getFunctionParamCount` returns; an empty name counts as no name. */
  function ParamCountOf(code: string, name: Option<string>): Option<nat> {
    if name.None? || name.value == [] then None
    else
      ParamCaptures(name.value);
      FirstCount(ParamPatterns(name.value), code)
  }

  /** `getFunctionParamCount(code, functionName)`. */
  method GetFunctionParamCount(code: string, name: Option<string>) returns (count: Option<nat>)
    ensures count == ParamCountOf(code, name)
  {
    if name.None? || name.value == [] {
      return None;
    }
    var patterns := ParamPatterns(name.value);
    ParamCaptures(name.value);
    for k := 0 to |patterns|
      invariant FirstCount(patterns[k..], code) == ParamCountOf(code, name)
    {
      assert patterns[k..][1..] == patterns[k + 1..];
      var found := Search(patterns[k], code);
      if found.None? {
        continue;
      }
      var raw := Trim(found.value[0]);
      if raw == [] {
        return Some(0);
      }
      return Some(NonBlankCount(Split(raw, ',')));
    }
    return None;
  }

  /** `isListNodeType`: the type text mentions `ListNode` anywhere. */
  predicate IsListNodeType(t: string): (b: bool)
    ensures b <==> exists i :: OccursAt(t, "ListNode", i)
  {
    Contains(t, "ListNode")
  }

  /** `isTreeNodeType`: the type text mentions `TreeNode` anywhere. */
  predicate IsTreeNodeType(t: string): (b: bool)
    ensures b <==> exists i :: OccursAt(t, "TreeNode", i)
  {
    Contains(t, "TreeNode")
  }

  /** `\bNAME\b` */
  function WholeWord(name: string): Pattern {
    [Boundary, Lit(name), Boundary]
  }

  /** `includesTypeName(code, typeName)`. */
  predicate IncludesTypeName(code: string, typeName: string) {
    Test(WholeWord(typeName), code)
  }

  /** `\bnew\s+NAME\b` */
  function Construction(name: string): Pattern {
    [Boundary, Lit("new"), Run(Space, 1, false), Lit(name), Boundary]
  }

  // ---------------------------------------------------------------------------
  // Properties

  predicate IsIdentifier(name: string) {
    name != [] && forall k :: 0 <= k < |name| ==> IsWordChar(name[k])
  }

  lemma SpaceIsNotWord(c: char)
    ensures IsSpace(c) ==> !IsWordChar(c)
  {
  }

  /**
   * `pickFunctionName`'s first pattern is deterministic, so the greedy
   * matcher finds what JavaScript's backtracking engine finds, from every
   * start.
   */
  lemma FunctionDeclDeterministic()
    ensures Deterministic(FunctionDecl)
    ensures forall s: string, i: nat :: i <= |s| ==> Backtrack(FunctionDecl, 0, s, i) == MatchFrom(FunctionDecl, 0, s, i)
  {
    var p := FunctionDecl;
    forall c: char ensures IsSpace(c) ==> !CanBegin(p, 2, c) {
      SpaceIsNotWord(c);
    }
    forall c: char ensures IsWordChar(c) ==> !CanBegin(p, 3, c) {
      SpaceIsNotWord(c);
    }
    forall c: char ensures IsSpace(c) ==> !CanBegin(p, 4, c) {
    }
    GreedyAgrees(p);
  }

  /** The same for the `const NAME = function (` pattern. */
  lemma FunctionExprDeterministic()
    ensures Deterministic(FunctionExpr)
    ensures forall s: string, i: nat :: i <= |s| ==> Backtrack(FunctionExpr, 0, s, i) == MatchFrom(FunctionExpr, 0, s, i)
  {
    var p := FunctionExpr;
    forall c: char ensures IsSpace(c) ==> !CanBegin(p, 2, c) {
      SpaceIsNotWord(c);
    }
    forall c: char ensures IsWordChar(c) ==> !CanBegin(p, 3, c) {
      SpaceIsNotWord(c);
    }
    forall c: char ensures IsSpace(c) ==> !CanBegin(p, 4, c) {
    }
    forall c: char ensures IsSpace(c) ==> !CanBegin(p, 6, c) {
    }
    forall c: char ensures IsSpace(c) ==> !CanBegin(p, 8, c) {
    }
    GreedyAgrees(p);
  }

  /** The same for the `const NAME = (` pattern. */
  lemma ArrowFunctionDeterministic()
    ensures Deterministic(ArrowFunction)
    ensures forall s: string, i: nat :: i <= |s| ==> Backtrack(ArrowFunction, 0, s, i) == MatchFrom(ArrowFunction, 0, s, i)
  {
    var p := ArrowFunction;
    forall c: char ensures IsSpace(c) ==> !CanBegin(p, 2, c) {
      SpaceIsNotWord(c);
    }
    forall c: char ensures IsWordChar(c) ==> !CanBegin(p, 3, c) {
      SpaceIsNotWord(c);
    }
    forall c: char ensures IsSpace(c) ==> !CanBegin(p, 4, c) {
    }
    forall c: char ensures IsSpace(c) ==> !CanBegin(p, 6, c) {
    }
    GreedyAgrees(p);
  }

  /** Every capturing run of the pattern is `\w+` or longer. */
  predicate WordCaptures(p: Pattern) {
    forall j :: 0 <= j < |p| && p[j].Run? && p[j].capture ==> p[j].cls == Word && p[j].min >= 1
  }

  /** A pattern whose captures are all `\w+` runs captures identifiers only. */
  lemma {:induction false} CaptureIsWord(p: Pattern, k: nat, s: string, i: nat)
    requires k <= |p| && i <= |s| && WordCaptures(p) && MatchFrom(p, k, s, i).Some?
    ensures forall c :: 0 <= c < |MatchFrom(p, k, s, i).value.0| ==> IsIdentifier(MatchFrom(p, k, s, i).value.0[c])
    decreases |p| - k
  {
    if k < |p| {
      match p[k]
      case Lit(text) =>
        CaptureIsWord(p, k + 1, s, i + |text|);
      case Boundary =>
        CaptureIsWord(p, k + 1, s, i);
      case Run(cls, min, capture) =>
        var n := RunLength(s, i, cls);
        CaptureIsWord(p, k + 1, s, i + n);
        if capture {
          assert IsIdentifier(s[i..i + n]);
        }
    }
  }

  /** The first capture `FirstCapture` returns is a capture of a `\w+` run. */
  lemma {:induction false} FirstCaptureIsWord(ps: seq<Pattern>, code: string)
    requires forall k :: 0 <= k < |ps| ==> CaptureCount(ps[k], 0) >= 1 && WordCaptures(ps[k])
    ensures FirstCapture(ps, code).Some? ==> IsIdentifier(FirstCapture(ps, code).value)
  {
    if ps != [] {
      match FirstMatch(ps[0], code, 0)
      case Some(j) =>
        CaptureIsWord(ps[0], 0, code, j);
      case None =>
        FirstCaptureIsWord(ps[1..], code);
    }
  }

  /**
   * Every name `pickFunctionName` returns is an identifier, so it holds no
   * `(`: the side condition of `ParamPatternsDeterministic` and of
   * `Asserts.CalledHelpersUsed`.
   */
  lemma NameIsIdentifier(code: string)
    ensures NameOf(code).Some? ==> IsIdentifier(NameOf(code).value) && '(' !in NameOf(code).value
  {
    NameCaptures();
    assert WordCaptures(FunctionDecl) && WordCaptures(FunctionExpr) && WordCaptures(ArrowFunction);
    FirstCaptureIsWord(NamePatterns, code);
  }

  /**
   * The parameter-list patterns, built around a name `pickFunctionName`
   * found, are deterministic as well.
   */
  lemma ParamPatternsDeterministic(name: string)
    requires IsIdentifier(name)
    ensures forall k :: 0 <= k < |ParamPatterns(name)| ==> Deterministic(ParamPatterns(name)[k])
    ensures forall k, s: string, i: nat :: 0 <= k < |ParamPatterns(name)| && i <= |s| ==>
      Backtrack(ParamPatterns(name)[k], 0, s, i) == MatchFrom(ParamPatterns(name)[k], 0, s, i)
  {
    var ps := ParamPatterns(name);
    SpaceIsNotWord(name[0]);
    DeclParamsDeterministic(ps[0], name);
    ArrowParamsDeterministic(ps[1], name);
    ExprParamsDeterministic(ps[2], name);
    GreedyAgrees(ps[0]);
    GreedyAgrees(ps[1]);
    GreedyAgrees(ps[2]);
  }

  lemma DeclParamsDeterministic(p: Pattern, name: string)
    requires IsIdentifier(name) && !IsSpace(name[0]) && p == ParamPatterns(name)[0]
    ensures Deterministic(p)
  {
    forall c: char ensures IsSpace(c) ==> !CanBegin(p, 2, c) {
    }
    forall c: char ensures IsSpace(c) ==> !CanBegin(p, 4, c) {
    }
    forall c: char ensures c != ')' ==> !CanBegin(p, 6, c) {
    }
  }

  lemma ArrowParamsDeterministic(p: Pattern, name: string)
    requires IsIdentifier(name) && !IsSpace(name[0]) && p == ParamPatterns(name)[1]
    ensures Deterministic(p)
  {
    forall c: char ensures IsSpace(c) ==> !CanBegin(p, 2, c) {
    }
    forall c: char ensures IsSpace(c) ==> !CanBegin(p, 4, c) {
    }
    forall c: char ensures IsSpace(c) ==> !CanBegin(p, 6, c) {
    }
    forall c: char ensures c != ')' ==> !CanBegin(p, 8, c) {
    }
    forall c: char ensures IsSpace(c) ==> !CanBegin(p, 10, c) {
    }
  }

  lemma ExprParamsDeterministic(p: Pattern, name: string)
    requires IsIdentifier(name) && !IsSpace(name[0]) && p == ParamPatterns(name)[2]
    ensures Deterministic(p)
  {
    forall c: char ensures IsSpace(c) ==> !CanBegin(p, 2, c) {
    }
    forall c: char ensures IsSpace(c) ==> !CanBegin(p, 4, c) {
    }
    forall c: char ensures IsSpace(c) ==> !CanBegin(p, 6, c) {
    }
    forall c: char ensures IsSpace(c) ==> !CanBegin(p, 8, c) {
    }
    forall c: char ensures c != ')' ==> !CanBegin(p, 10, c) {
    }
  }

  /** The characters of an identifier found at `i` are word characters. */
  lemma IdentifierAt(s: string, i: nat, name: string)
    requires IsIdentifier(name) && i + |name| <= |s| && s[i..i + |name|] == name
    ensures forall j :: i <= j < i + |name| ==> IsWordChar(s[j])
  {
    forall j | i <= j < i + |name| ensures IsWordChar(s[j]) {
      assert s[j] == s[i..i + |name|][j - i];
    }
  }

  /** A space at `i` followed by a word character: a run of one space. */
  lemma OneSpace(s: string, i: nat)
    requires i + 1 < |s| && s[i] == ' ' && IsWordChar(s[i + 1])
    ensures forall j :: i <= j < i + 1 ==> InClass(s[j], Space)
    ensures !InClass(s[i + 1], Space)
  {
    SpaceIsNotWord(s[i + 1]);
  }

  /** A captured identifier followed by a character that is not a word character. */
  lemma IdentifierCapture(p: Pattern, k: nat, s: string, i: nat, name: string, end: nat)
    requires k < |p| && p[k] == Run(Word, 1, true)
    requires IsIdentifier(name) && i + |name| < |s| && s[i..i + |name|] == name && !IsWordChar(s[i + |name|])
    requires MatchFrom(p, k + 1, s, i + |name|) == Some(([], end))
    ensures MatchFrom(p, k, s, i) == Some(([name], end))
  {
    IdentifierAt(s, i, name);
    CaptureStep(p, k, s, i, |name|, [], end);
    assert [s[i..i + |name|]] + [] == [name];
  }

  /** `\s*\(` right after the name, for tokens `k..k + 1` at the end of the pattern. */
  lemma ParenAfterName(p: Pattern, k: nat, s: string, at: nat)
    requires k + 2 == |p| && p[k] == Run(Space, 0, false) && p[k + 1] == Lit("(")
    requires at < |s| && s[at] == '('
    ensures MatchFrom(p, k, s, at) == Some(([], at + 1))
  {
    assert s[at..at + 1] == "(";
    LitStep(p, k + 1, s, at);
    SkipStep(p, k, s, at, 0);
  }

  /** `function\s+` before the name. */
  lemma DeclaredNameHead(s: string)
    requires 10 <= |s| && s[..9] == "function " && IsWordChar(s[9])
    ensures MatchFrom(FunctionDecl, 0, s, 0) == MatchFrom(FunctionDecl, 2, s, 9)
  {
    var p := FunctionDecl;
    assert s[8] == s[..9][8];
    OneSpace(s, 8);
    SkipStep(p, 1, s, 8, 1);
    assert s[0..8] == s[..9][..8];
    LitStep(p, 0, s, 0);
  }

  lemma DeclaredNameAt(s: string, name: string)
    requires IsIdentifier(name) && 10 + |name| <= |s|
    requires s[..9] == "function " && s[9..9 + |name|] == name && s[9 + |name|] == '('
    ensures MatchFrom(FunctionDecl, 0, s, 0) == Some(([name], 10 + |name|))
  {
    NameThenParen(FunctionDecl, 2, s, 9, name);
    NameStartsWord(s, 9, name);
    DeclaredNameHead(s);
  }

  /** A name found at `i` puts a word character there. */
  lemma NameStartsWord(s: string, i: nat, name: string)
    requires IsIdentifier(name) && i + |name| <= |s| && s[i..i + |name|] == name
    ensures IsWordChar(s[i])
  {
    assert s[i] == name[0];
  }

  /** `([A-Za-z0-9_]+)\s*\(` from `i`, for tokens `k..k + 2` at the end of the pattern. */
  lemma NameThenParen(p: Pattern, k: nat, s: string, i: nat, name: string)
    requires k + 3 == |p| && p[k] == Run(Word, 1, true) && p[k + 1] == Run(Space, 0, false) && p[k + 2] == Lit("(")
    requires IsIdentifier(name) && i + |name| < |s| && s[i..i + |name|] == name && s[i + |name|] == '('
    ensures MatchFrom(p, k, s, i) == Some(([name], i + |name| + 1))
  {
    ParenAfterName(p, k + 1, s, i + |name|);
    IdentifierCapture(p, k, s, i, name, i + |name| + 1);
  }

  /** A `function` declaration names the function `pickFunctionName` reports. */
  lemma DeclaredName(name: string, rest: string)
    requires IsIdentifier(name)
    ensures NameOf("function " + name + "(" + rest) == Some(name)
  {
    var s := "function " + name + "(" + rest;
    assert s[..9] == "function " && s[9..9 + |name|] == name && s[9 + |name|] == '(';
    DeclaredNameAt(s, name);
    SearchAtStart(FunctionDecl, s);
    NameCaptures();
  }

  /** The characters of a text without `)` are in `[^)]`. */
  lemma NoCloseParenAt(s: string, i: nat, list: string)
    requires ')' !in list && i + |list| <= |s| && s[i..i + |list|] == list
    ensures forall j :: i <= j < i + |list| ==> InClass(s[j], NotCloseParen)
  {
    forall j | i <= j < i + |list| ensures InClass(s[j], NotCloseParen) {
      assert s[j] == s[i..i + |list|][j - i];
    }
  }

  /** `\s*\(([^)]*)\)` from `at`, for tokens `k..k + 3` at the end of the pattern. */
  lemma ParamListTail(p: Pattern, k: nat, s: string, at: nat, list: string)
    requires k + 4 == |p|
    requires p[k] == Run(Space, 0, false) && p[k + 1] == Lit("(") && p[k + 2] == Run(NotCloseParen, 0, true)
    requires p[k + 3] == Lit(")")
    requires ')' !in list && at + |list| + 2 <= |s|
    requires s[at] == '(' && s[at + 1..at + 1 + |list|] == list && s[at + 1 + |list|] == ')'
    ensures MatchFrom(p, k, s, at) == Some(([list], at + 2 + |list|))
  {
    ParamCapture(p, k, s, at, list);
    assert s[at..at + 1] == "(";
    LitStep(p, k + 1, s, at);
    SkipStep(p, k, s, at, 0);
  }

  /** `([^)]*)\)` from just after the opening parenthesis. */
  lemma ParamCapture(p: Pattern, k: nat, s: string, at: nat, list: string)
    requires k + 4 == |p|
    requires p[k + 2] == Run(NotCloseParen, 0, true) && p[k + 3] == Lit(")")
    requires ')' !in list && at + |list| + 2 <= |s|
    requires s[at + 1..at + 1 + |list|] == list && s[at + 1 + |list|] == ')'
    ensures MatchFrom(p, k + 2, s, at + 1) == Some(([list], at + 2 + |list|))
  {
    var l := |list|;
    assert s[at + 1 + l..at + 2 + l] == ")";
    LitStep(p, k + 3, s, at + 1 + l);
    NoCloseParenAt(s, at + 1, list);
    CaptureStep(p, k + 2, s, at + 1, l, [], at + 2 + l);
    assert [s[at + 1..at + 1 + l]] + [] == [list];
  }

  /** `function\s+NAME` at the start. */
  lemma ParamListHead(p: Pattern, s: string, name: string)
    requires |p| >= 3 && p[0] == Lit("function") && p[1] == Run(Space, 1, false) && p[2] == Lit(name)
    requires IsIdentifier(name) && 10 + |name| <= |s|
    requires s[..9] == "function " && s[9..9 + |name|] == name
    ensures MatchFrom(p, 0, s, 0) == MatchFrom(p, 3, s, 9 + |name|)
  {
    assert s[9] == s[9..9 + |name|][0];
    assert s[8] == s[..9][8];
    OneSpace(s, 8);
    LitStep(p, 2, s, 9);
    SkipStep(p, 1, s, 8, 1);
    assert s[0..8] == s[..9][..8];
    LitStep(p, 0, s, 0);
  }

  /** `getFunctionParamCount` counts the parameters declared for `name`. */
  lemma DeclaredParams(name: string, list: string, rest: string)
    requires IsIdentifier(name) && ')' !in list
    ensures ParamCountOf("function " + name + "(" + list + ")" + rest, Some(name)) == Some(CountInList(list))
  {
    var s := "function " + name + "(" + list + ")" + rest;
    DeclarationSlices(s, name, list, rest);
    FunctionParamMatch(ParamPatterns(name)[0], s, name, list);
    ParamCaptures(name);
  }

  /** Where the name and the parameter list of a `function` declaration lie. */
  lemma DeclarationSlices(s: string, name: string, list: string, rest: string)
    requires s == "function " + name + "(" + list + ")" + rest
    ensures 11 + |name| + |list| <= |s|
    ensures s[..9] == "function " && s[9..9 + |name|] == name && s[9 + |name|] == '('
    ensures s[10 + |name|..10 + |name| + |list|] == list && s[10 + |name| + |list|] == ')'
  {
  }

  /** The `function` pattern captures the parameter list of a declaration at the start. */
  lemma FunctionParamMatch(p: Pattern, s: string, name: string, list: string)
    requires |p| == 7 && p[0] == Lit("function") && p[1] == Run(Space, 1, false) && p[2] == Lit(name)
    requires p[3] == Run(Space, 0, false) && p[4] == Lit("(") && p[5] == Run(NotCloseParen, 0, true) && p[6] == Lit(")")
    requires IsIdentifier(name) && ')' !in list && 11 + |name| + |list| <= |s|
    requires s[..9] == "function " && s[9..9 + |name|] == name && s[9 + |name|] == '('
    requires s[10 + |name|..10 + |name| + |list|] == list && s[10 + |name| + |list|] == ')'
    ensures Search(p, s) == Some([list])
  {
    ParamListTail(p, 3, s, 9 + |name|, list);
    ParamListHead(p, s, name);
    SearchAtStart(p, s);
  }

  /** Every piece counts when none is blank. */
  lemma {:induction false} NonBlankAll(pieces: seq<string>)
    requires forall k :: 0 <= k < |pieces| ==> Trim(pieces[k]) != []
    ensures NonBlankCount(pieces) == |pieces|
  {
    if pieces != [] {
      NonBlankAll(pieces[1..]);
    }
  }

  /** A trimmed, comma-separated list of parameters, none of them blank, has one count per parameter. */
  lemma CountOfJoined(params: seq<string>)
    requires |params| >= 1 && IsTrimmed(Join(params, ','))
    requires forall k :: 0 <= k < |params| ==> ',' !in params[k] && Trim(params[k]) != []
    ensures CountInList(Join(params, ',')) == |params|
  {
    var list := Join(params, ',');
    TrimmedIsFixpoint(list);
    SplitJoin(params, ',');
    NonBlankAll(params);
    assert Trim(params[0]) != [];
    assert list != [] by {
      assert Split(list, ',') == params;
    }
  }

  /** An empty or blank parameter list counts as none. */
  lemma BlankListCountsNone(list: string)
    requires Trim(list) == []
    ensures CountInList(list) == 0
  {
  }

  /** A name at the start of the code, not followed by a word character, is found as a whole word. */
  lemma WholeWordAtStart(name: string, rest: string)
    requires IsIdentifier(name) && (rest == [] || !IsWordChar(rest[0]))
    ensures IncludesTypeName(name + rest, name)
  {
    var s := name + rest;
    var p := WholeWord(name);
    var n := |name|;
    assert s[..n] == name;
    assert IsBoundary(s, n) by {
      assert s[n - 1] == name[n - 1];
      assert n < |s| ==> s[n] == rest[0];
    }
    assert IsBoundary(s, 0) by {
      assert s[0] == name[0];
    }
    BoundaryStep(p, 2, s, n);
    LitStep(p, 1, s, 0);
    BoundaryStep(p, 0, s, 0);
    SearchAtStart(p, s);
  }

  /** A whole-word match is in particular an occurrence of the name. */
  lemma WholeWordOccurs(code: string, name: string)
    requires IncludesTypeName(code, name)
    ensures Contains(code, name)
  {
    var p := WholeWord(name);
    var j := FirstMatch(p, code, 0).value;
    assert MatchFrom(p, 0, code, j).Some?;
    assert MatchFrom(p, 1, code, j).Some?;
    assert OccursAt(code, name, j);
  }
}
