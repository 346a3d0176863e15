/**
 * The regular expressions the scaffold generator runs over a code snippet:
 * sequences of literal text, runs of one character class (optionally
 * captured) and word boundaries.  `String.prototype.match` is the leftmost
 * position where the whole sequence matches.
 *
 * Runs are matched greedily (`MatchFrom`).  A backtracking engine such as
 * JavaScript's (`Backtrack`) gives characters of a run back when the rest
 * of the pattern fails; `BacktrackIsGreedy` proves the two agree whenever no
 * run's class contains a character the tokens after it can begin with
 * (`Deterministic`), which holds for the patterns used here.
 */
module Patterns {
  import opened Wrappers
  import opened Strings

  /** `\s`, `[A-Za-z0-9_]` and `[^)]`. */
  datatype Class = Space | Word | NotCloseParen

  predicate InClass(c: char, cls: Class) {
    match cls
    case Space => IsSpace(c)
    case Word => IsWordChar(c)
    case NotCloseParen => c != ')'
  }

  /** Literal text; a run of at least `min` characters of a class, captured or not; `\b`. */
  datatype Token =
    | Lit(text: string)
    | Run(cls: Class, min: nat, capture: bool)
    | Boundary

  type Pattern = seq<Token>

  /** The length of the longest prefix of `s[i..]` in the class. */
  function RunLength(s: string, i: nat, cls: Class): (n: nat)
    requires i <= |s|
    ensures i + n <= |s|
    ensures forall k :: i <= k < i + n ==> InClass(s[k], cls)
    ensures i + n == |s| || !InClass(s[i + n], cls)
    decreases |s| - i
  {
    if i < |s| && InClass(s[i], cls) then 1 + RunLength(s, i + 1, cls) else 0
  }

  /** `\b` at position `i`: a word character on exactly one side. */
  predicate IsBoundary(s: string, i: nat)
    requires i <= |s|
  {
    (i > 0 && IsWordChar(s[i - 1])) != (i < |s| && IsWordChar(s[i]))
  }

  /** Tokens `k..` of the pattern matched from position `i`: the captures, in order, and where the match ends. */
  function MatchFrom(p: Pattern, k: nat, s: string, i: nat): (r: Option<(seq<string>, nat)>)
    requires k <= |p| && i <= |s|
    ensures r.Some? ==> i <= r.value.1 <= |s| && |r.value.0| == CaptureCount(p, k)
    decreases |p| - k
  {
    if k == |p| then Some(([], i))
    else
      match p[k]
      case Lit(text) =>
        if i + |text| <= |s| && s[i..i + |text|] == text then MatchFrom(p, k + 1, s, i + |text|) else None
      case Boundary =>
        if IsBoundary(s, i) then MatchFrom(p, k + 1, s, i) else None
      case Run(cls, min, capture) =>
        var n := RunLength(s, i, cls);
        if n < min then None
        else
          match MatchFrom(p, k + 1, s, i + n)
          case None => None
          case Some((caps, end)) => Some((if capture then [s[i..i + n]] + caps else caps, end))
  }

  /** The leftmost position at or after `i` where the pattern matches. */
  function FirstMatch(p: Pattern, s: string, i: nat): (r: Option<nat>)
    requires i <= |s|
    ensures r.Some? ==> i <= r.value <= |s| && MatchFrom(p, 0, s, r.value).Some?
    ensures forall j :: i <= j <= |s| && (r.None? || j < r.value) ==> MatchFrom(p, 0, s, j).None?
    decreases |s| - i
  {
    if MatchFrom(p, 0, s, i).Some? then Some(i)
    else if i == |s| then None
    else FirstMatch(p, s, i + 1)
  }

  /** `s.match(p)`: the captures of the leftmost match, if any. */
  function Search(p: Pattern, s: string): (r: Option<seq<string>>)
    ensures r.Some? ==> |r.value| == CaptureCount(p, 0)
  {
    match FirstMatch(p, s, 0)
    case Some(j) => Some(MatchFrom(p, 0, s, j).value.0)
    case None => None
  }

  /** `p.test(s)`. */
  predicate Test(p: Pattern, s: string) {
    Search(p, s).Some?
  }

  /** The number of capturing runs among tokens `k..`. */
  function CaptureCount(p: Pattern, k: nat): nat
    requires k <= |p|
    decreases |p| - k
  {
    if k == |p| then 0
    else (if p[k].Run? && p[k].capture then 1 else 0) + CaptureCount(p, k + 1)
  }

  /** `c` can be the first character of a match of tokens `k..` (none left: anything can follow). */
  predicate CanBegin(p: Pattern, k: nat, c: char)
    requires k <= |p|
    decreases |p| - k
  {
    if k == |p| then true
    else
      match p[k]
      case Lit(text) => if text == [] then CanBegin(p, k + 1, c) else c == text[0]
      case Run(cls, min, _) => InClass(c, cls) || (min == 0 && CanBegin(p, k + 1, c))
      case Boundary => CanBegin(p, k + 1, c)
  }

  /** What follows token `k`, a run of `cls`, can never start with a character of `cls`. */
  predicate Excludes(p: Pattern, k: nat, cls: Class)
    requires k < |p|
  {
    k + 1 == |p| || forall c: char :: InClass(c, cls) ==> !CanBegin(p, k + 1, c)
  }

  /**
   * Greedy matching is exact: whatever follows a run can never begin with a
   * character of the run's class, so a shorter run would leave a character
   * that the rest of the pattern cannot consume.
   */
  predicate Deterministic(p: Pattern) {
    forall k :: 0 <= k < |p| && p[k].Run? ==> Excludes(p, k, p[k].cls)
  }

  /**
   * Tokens `k..` matched from `i` by a backtracking engine: a run first takes
   * every character of its class it can and, while the rest of the pattern
   * fails, gives them back one at a time down to its minimum.
   */
  function Backtrack(p: Pattern, k: nat, s: string, i: nat): Option<(seq<string>, nat)>
    requires k <= |p| && i <= |s|
    decreases |p| - k, 1, 0
  {
    if k == |p| then Some(([], i))
    else
      match p[k]
      case Lit(text) =>
        if i + |text| <= |s| && s[i..i + |text|] == text then Backtrack(p, k + 1, s, i + |text|) else None
      case Boundary =>
        if IsBoundary(s, i) then Backtrack(p, k + 1, s, i) else None
      case Run(cls, _, _) => TryRuns(p, k, s, i, RunLength(s, i, cls))
  }

  /** The run at token `k` tried with `n` characters, then with fewer. */
  function TryRuns(p: Pattern, k: nat, s: string, i: nat, n: nat): Option<(seq<string>, nat)>
    requires k < |p| && p[k].Run? && i + n <= |s|
    decreases |p| - k, 0, n
  {
    if n < p[k].min then None
    else
      match Backtrack(p, k + 1, s, i + n)
      case Some((caps, end)) => Some((if p[k].capture then [s[i..i + n]] + caps else caps, end))
      case None => if n == 0 then None else TryRuns(p, k, s, i, n - 1)
  }

  // ---------------------------------------------------------------------------
  // Properties

  /**
   * On a deterministic pattern the greedy matcher finds exactly what the
   * backtracking engine finds, from every position: the same captures, the
   * same end, and a failure exactly when it fails.
   */
  lemma {:induction false} BacktrackIsGreedy(p: Pattern, k: nat, s: string, i: nat)
    requires Deterministic(p) && k <= |p| && i <= |s|
    ensures Backtrack(p, k, s, i) == MatchFrom(p, k, s, i)
    decreases |p| - k
  {
    if k < |p| {
      match p[k]
      case Lit(text) =>
        if i + |text| <= |s| && s[i..i + |text|] == text {
          BacktrackIsGreedy(p, k + 1, s, i + |text|);
        }
      case Boundary =>
        if IsBoundary(s, i) {
          BacktrackIsGreedy(p, k + 1, s, i);
        }
      case Run(cls, _, _) =>
        BacktrackIsGreedy(p, k + 1, s, i + RunLength(s, i, cls));
        RunAgrees(p, k, s, i);
    }
  }

  /** The run step of `BacktrackIsGreedy`, given agreement on the tokens after the run. */
  lemma RunAgrees(p: Pattern, k: nat, s: string, i: nat)
    requires Deterministic(p) && k < |p| && p[k].Run? && i <= |s|
    requires Backtrack(p, k + 1, s, i + RunLength(s, i, p[k].cls)) == MatchFrom(p, k + 1, s, i + RunLength(s, i, p[k].cls))
    ensures Backtrack(p, k, s, i) == MatchFrom(p, k, s, i)
  {
    var n := RunLength(s, i, p[k].cls);
    if p[k].min <= n && MatchFrom(p, k + 1, s, i + n).None? && n > 0 {
      NoShorterRun(p, k, s, i, n - 1);
    }
    LongestRunFirst(p, k, s, i, n);
  }

  /** Trying the longest run gives the greedy match, when shorter runs all fail. */
  lemma LongestRunFirst(p: Pattern, k: nat, s: string, i: nat, n: nat)
    requires k < |p| && p[k].Run? && i <= |s| && n == RunLength(s, i, p[k].cls)
    requires Backtrack(p, k + 1, s, i + n) == MatchFrom(p, k + 1, s, i + n)
    requires p[k].min <= n && MatchFrom(p, k + 1, s, i + n).None? && n > 0 ==> TryRuns(p, k, s, i, n - 1).None?
    ensures Backtrack(p, k, s, i) == MatchFrom(p, k, s, i)
  {
    assert Backtrack(p, k, s, i) == TryRuns(p, k, s, i, n);
  }

  /** A deterministic pattern matches the same way from every start, greedy or backtracking. */
  lemma GreedyAgrees(p: Pattern)
    requires Deterministic(p)
    ensures forall s: string, i: nat :: i <= |s| ==> Backtrack(p, 0, s, i) == MatchFrom(p, 0, s, i)
  {
    forall s: string, i: nat | i <= |s|
      ensures Backtrack(p, 0, s, i) == MatchFrom(p, 0, s, i)
    {
      BacktrackIsGreedy(p, 0, s, i);
    }
  }

  /** Once the longest run failed, no shorter run of a deterministic pattern succeeds. */
  lemma {:induction false} NoShorterRun(p: Pattern, k: nat, s: string, i: nat, n: nat)
    requires Deterministic(p) && k + 1 < |p| && p[k].Run?
    requires i <= |s| && n < RunLength(s, i, p[k].cls)
    ensures TryRuns(p, k, s, i, n).None?
    decreases n
  {
    if p[k].min <= n {
      assert InClass(s[i + n], p[k].cls);
      assert Excludes(p, k, p[k].cls);
      if Backtrack(p, k + 1, s, i + n).Some? {
        BacktrackBegins(p, k + 1, s, i + n);
        assert false;
      }
      if n > 0 {
        NoShorterRun(p, k, s, i, n - 1);
      }
    }
  }

  /** A backtracking match of tokens `k..` from before the end starts with a character they can begin with. */
  lemma {:induction false} BacktrackBegins(p: Pattern, k: nat, s: string, i: nat)
    requires k <= |p| && i < |s| && Backtrack(p, k, s, i).Some?
    ensures CanBegin(p, k, s[i])
    decreases |p| - k
  {
    if k < |p| {
      match p[k]
      case Lit(text) =>
        if text == [] {
          BacktrackBegins(p, k + 1, s, i);
        } else {
          assert s[i..i + |text|][0] == s[i];
        }
      case Boundary =>
        BacktrackBegins(p, k + 1, s, i);
      case Run(cls, min, _) =>
        var n := TriedRun(p, k, s, i, RunLength(s, i, cls));
        if n == 0 {
          BacktrackBegins(p, k + 1, s, i);
        }
    }
  }

  /** The run length at which a successful backtracking run stopped. */
  lemma {:induction false} TriedRun(p: Pattern, k: nat, s: string, i: nat, n: nat) returns (m: nat)
    requires k < |p| && p[k].Run? && i + n <= |s| && TryRuns(p, k, s, i, n).Some?
    ensures p[k].min <= m <= n && Backtrack(p, k + 1, s, i + m).Some?
    decreases n
  {
    if Backtrack(p, k + 1, s, i + n).Some? {
      m := n;
    } else {
      m := TriedRun(p, k, s, i, n - 1);
    }
  }

  /** A run of the class followed by a character outside it has exactly the run's length. */
  lemma RunOf(s: string, i: nat, n: nat, cls: Class)
    requires i + n <= |s|
    requires forall k :: i <= k < i + n ==> InClass(s[k], cls)
    requires i + n == |s| || !InClass(s[i + n], cls)
    ensures RunLength(s, i, cls) == n
    decreases n
  {
    if n > 0 {
      RunOf(s, i + 1, n - 1, cls);
    }
  }

  /** A literal token that is present at `i` is passed over. */
  lemma LitStep(p: Pattern, k: nat, s: string, i: nat)
    requires k < |p| && p[k].Lit? && i + |p[k].text| <= |s| && s[i..i + |p[k].text|] == p[k].text
    ensures MatchFrom(p, k, s, i) == MatchFrom(p, k + 1, s, i + |p[k].text|)
  {
  }

  /** A word boundary at `i` is passed over. */
  lemma BoundaryStep(p: Pattern, k: nat, s: string, i: nat)
    requires k < |p| && p[k] == Boundary && i <= |s| && IsBoundary(s, i)
    ensures MatchFrom(p, k, s, i) == MatchFrom(p, k + 1, s, i)
  {
  }

  /** A non-capturing run of exactly `n` characters at `i` is passed over. */
  lemma SkipStep(p: Pattern, k: nat, s: string, i: nat, n: nat)
    requires k < |p| && p[k].Run? && !p[k].capture && p[k].min <= n && i + n <= |s|
    requires forall j :: i <= j < i + n ==> InClass(s[j], p[k].cls)
    requires i + n == |s| || !InClass(s[i + n], p[k].cls)
    ensures MatchFrom(p, k, s, i) == MatchFrom(p, k + 1, s, i + n)
  {
    RunOf(s, i, n, p[k].cls);
    assert p[k] == Run(p[k].cls, p[k].min, false);
  }

  /** A capturing run of exactly `n` characters at `i` is captured. */
  lemma CaptureStep(p: Pattern, k: nat, s: string, i: nat, n: nat, caps: seq<string>, end: nat)
    requires k < |p| && p[k].Run? && p[k].capture && p[k].min <= n && i + n <= |s|
    requires forall j :: i <= j < i + n ==> InClass(s[j], p[k].cls)
    requires i + n == |s| || !InClass(s[i + n], p[k].cls)
    requires MatchFrom(p, k + 1, s, i + n) == Some((caps, end))
    ensures MatchFrom(p, k, s, i) == Some(([s[i..i + n]] + caps, end))
  {
    RunOf(s, i, n, p[k].cls);
    assert p[k] == Run(p[k].cls, p[k].min, true);
  }

  /** A match at the start is the leftmost one. */
  lemma SearchAtStart(p: Pattern, s: string)
    requires MatchFrom(p, 0, s, 0).Some?
    ensures Search(p, s) == Some(MatchFrom(p, 0, s, 0).value.0)
  {
  }
}
