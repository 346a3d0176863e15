/**
 * `extractOutputs` (tools/new-problem.ts): the expected outputs of a
 * problem's examples, read from the `<pre>` blocks of its description.  Each
 * block is stripped of tags and entities and of carriage returns; the first
 * `Output:` line (letters in any case) gives one output, trimmed.
 */
module Outputs {
  import opened Wrappers
  import opened Strings
  import opened Html

  /** A match of `<pre>…</pre>` is at least as long as its two tags. */
  lemma PreBlockLength(s: string)
    ensures MatchLen(PreBlock, s) == 0 || MatchLen(PreBlock, s) >= 11
  {
  }

  /** `[...content.matchAll(/<pre>([\s\S]*?)<\/pre>/gi)].map((m) => m[1])`, from the left. */
  function PreBlocks(s: string): seq<string>
    decreases |s|
  {
    if s == [] then []
    else
      var n := MatchLen(PreBlock, s);
      if n > 0 then
        PreBlockLength(s);
        [s[5..n - 6]] + PreBlocks(s[n..])
      else PreBlocks(s[1..])
  }

  /** Where the line holding position `i` ends: the next `\n`, or the end of the text. */
  function LineEnd(t: string, i: nat): (e: nat)
    requires i <= |t|
    ensures i <= e <= |t| && (e == |t| || t[e] == '\n')
    ensures forall k :: i <= k < e ==> t[k] != '\n'
  {
    match IndexOfChar(t, i, '\n')
    case Some(k) => k
    case None => |t|
  }

  /** The last position in `[from, to)` that does not hold `\n`. */
  function LastNotNewline(t: string, lo: nat, hi: nat): (r: Option<nat>)
    requires lo <= hi <= |t|
    ensures r.Some? ==> lo <= r.value < hi && t[r.value] != '\n'
    ensures forall k :: lo <= k < hi && (r.None? || r.value < k) ==> t[k] == '\n'
    decreases hi - lo
  {
    if hi == lo then None
    else if t[hi - 1] != '\n' then Some(hi - 1)
    else LastNotNewline(t, lo, hi - 1)
  }

  /**
   * `\s*([^\n]+)` from `j`.  The greedy `\s*` takes every white-space
   * character; when that leaves nothing for `[^\n]+`, it gives characters back
   * from the right until one that is not `\n` can start the capture.
   */
  function CaptureAfter(t: string, j: nat): (r: Option<string>)
    requires j <= |t|
    ensures r.Some? ==> r.value != [] && '\n' !in r.value
  {
    var m := SpaceRun(t, j);
    if m < |t| then
      Some(t[m..LineEnd(t, m)])
    else
      match LastNotNewline(t, j, m)
      case Some(q) => Some(t[q..LineEnd(t, q)])
      case None => None
  }

  /** `text.match(/Output:\s*([^\n]+)/i)[1]` for the leftmost match at or after `from`. */
  function OutputCapture(t: string, from: nat): (r: Option<string>)
    requires from <= |t|
    ensures r.Some? ==> r.value != [] && '\n' !in r.value
    decreases |t| - from
  {
    match IndexOfFolded(t, from, "output:")
    case None => None
    case Some(i) =>
      match CaptureAfter(t, i + 7)
      case Some(c) => Some(c)
      case None => OutputCapture(t, i + 1)
  }

  /** `stripTags(block).replace(/\r/g, "")`. */
  function BlockText(block: string): string {
    ReplaceAll(Literal("\r"), StripTags(block), "")
  }

  /** What one block contributes: its output line's value, trimmed. */
  function BlockOutput(block: string): (r: Option<string>)
    ensures r.Some? ==> IsTrimmed(r.value) && '\n' !in r.value
  {
    match OutputCapture(BlockText(block), 0)
    case Some(c) =>
      TrimKeepsOut(c, '\n');
      Some(Trim(c))
    case None => None
  }

  /** What each block gives, in block order. */
  function BlockOutputs(blocks: seq<string>): (r: seq<Option<string>>)
    ensures |r| == |blocks| && forall k :: 0 <= k < |r| ==> r[k] == BlockOutput(blocks[k])
  {
    seq(|blocks|, k requires 0 <= k < |blocks| => BlockOutput(blocks[k]))
  }

  /** The values found, in order; a block without an output line contributes nothing. */
  function Collect(found: seq<Option<string>>): (r: seq<string>)
    ensures |r| <= |found|
  {
    if found == [] then []
    else
      var last := found[|found| - 1];
      Collect(found[..|found| - 1]) + (if last.Some? then [last.value] else [])
  }

  /** The outputs `extractOutputs` returns for these blocks. */
  function OutputsOf(blocks: seq<string>): (r: seq<string>)
    ensures |r| <= |blocks|
  {
    Collect(BlockOutputs(blocks))
  }

  /** `extractOutputs(content)`. */
  method ExtractOutputs(content: string) returns (outputs: seq<string>)
    ensures outputs == OutputsOf(PreBlocks(content))
  {
    outputs := [];
    var blocks := PreBlocks(content);
    ghost var found := BlockOutputs(blocks);
    for k := 0 to |blocks|
      invariant outputs == Collect(found[..k])
    {
      assert found[..k + 1][..k] == found[..k];
      var text := BlockText(blocks[k]);
      var m := OutputCapture(text, 0);
      assert found[k] == if m.Some? then Some(Trim(m.value)) else None;
      if m.Some? {
        outputs := outputs + [Trim(m.value)];
      }
    }
    assert found[..|blocks|] == found;
  }

  // ---------------------------------------------------------------------------
  // Properties

  /** Trimming only removes characters. */
  lemma TrimKeepsOut(s: string, c: char)
    requires c !in s
    ensures c !in Trim(s)
  {
    var a := TrimStart(s);
    assert c !in a by {
      assert forall k :: 0 <= k < |a| ==> a[k] == s[|s| - |a| + k];
    }
    var b := TrimEnd(a);
    assert forall k :: 0 <= k < |b| ==> b[k] == a[k];
  }

  /** Every value collected was found, in some block. */
  lemma {:induction false} CollectFound(found: seq<Option<string>>)
    ensures forall k :: 0 <= k < |Collect(found)| ==>
      exists j :: 0 <= j < |found| && found[j] == Some(Collect(found)[k])
  {
    if found == [] {
      assert Collect(found) == [];
    } else {
      var init := found[..|found| - 1];
      var last := found[|found| - 1];
      assert Collect(found) == Collect(init) + (if last.Some? then [last.value] else []);
      CollectFound(init);
      forall k | 0 <= k < |Collect(found)|
        ensures exists j :: 0 <= j < |found| && found[j] == Some(Collect(found)[k])
      {
        if k < |Collect(init)| {
          var j :| 0 <= j < |init| && init[j] == Some(Collect(init)[k]);
          assert found[j] == init[j] && Collect(found)[k] == Collect(init)[k];
        } else {
          assert found[|found| - 1] == Some(Collect(found)[k]);
        }
      }
    }
  }

  /** Every output is trimmed and lies on one line. */
  lemma OutputsAreClean(blocks: seq<string>)
    ensures forall k :: 0 <= k < |OutputsOf(blocks)| ==>
      IsTrimmed(OutputsOf(blocks)[k]) && '\n' !in OutputsOf(blocks)[k]
  {
    var found := BlockOutputs(blocks);
    CollectFound(found);
    forall k | 0 <= k < |OutputsOf(blocks)|
      ensures IsTrimmed(OutputsOf(blocks)[k]) && '\n' !in OutputsOf(blocks)[k]
    {
      var j :| 0 <= j < |found| && found[j] == Some(Collect(found)[k]);
      assert BlockOutput(blocks[j]) == Some(OutputsOf(blocks)[k]);
    }
  }

  /** Values are collected in order: collecting two runs concatenates what each gives. */
  lemma {:induction false} CollectAppend(xs: seq<Option<string>>, ys: seq<Option<string>>)
    ensures Collect(xs + ys) == Collect(xs) + Collect(ys)
    decreases |ys|
  {
    if ys == [] {
      assert xs + ys == xs;
    } else {
      var init := ys[..|ys| - 1];
      var all := xs + ys;
      assert all[..|all| - 1] == xs + init;
      assert all[|all| - 1] == ys[|ys| - 1];
      CollectAppend(xs, init);
    }
  }

  /** The outputs of two runs of blocks are the outputs of the first, then of the second. */
  lemma OutputsOfAppend(xs: seq<string>, ys: seq<string>)
    ensures OutputsOf(xs + ys) == OutputsOf(xs) + OutputsOf(ys)
  {
    assert BlockOutputs(xs + ys) == BlockOutputs(xs) + BlockOutputs(ys);
    CollectAppend(BlockOutputs(xs), BlockOutputs(ys));
  }

  /** No `<pre>` starts at a character other than `<`. */
  lemma NoPreBlockAt(s: string)
    requires s != [] && s[0] != '<'
    ensures MatchLen(PreBlock, s) == 0
  {
    assert !MatchesFoldedAt(s, 0, "<pre>") by {
      assert Lower("<pre>"[0]) == '<';
      assert Lower(s[0]) != '<';
    }
  }

  /** `Output:` reads as `output:` under the `i` flag. */
  lemma OutputWord(s: string, i: nat)
    requires i + 7 <= |s| && s[i..i + 7] == "Output:"
    ensures MatchesFoldedAt(s, i, "output:")
  {
    forall k | 0 <= k < 7 ensures Lower(s[i + k]) == Lower("output:"[k]) {
      assert s[i + k] == "Output:"[k];
    }
  }

  /** Text before a block that holds no `<` is passed over. */
  lemma {:induction false} PreBlocksSkip(u: string, w: string)
    requires '<' !in u
    ensures PreBlocks(u + w) == PreBlocks(w)
    decreases |u|
  {
    if u == [] {
      assert u + w == w;
    } else {
      var s := u + w;
      assert s[0] == u[0];
      NoPreBlockAt(s);
      assert s[1..] == u[1..] + w;
      PreBlocksSkip(u[1..], w);
    }
  }

  /** A `<pre>` block yields its contents, and the scan goes on after `</pre>`. */
  lemma PreBlocksFound(b: string, w: string)
    requires forall i :: 0 <= i < |b| ==> !MatchesFoldedAt(b + "</pre>", i, "</pre>")
    ensures PreBlocks("<pre>" + b + "</pre>" + w) == [b] + PreBlocks(w)
  {
    var s := "<pre>" + b + "</pre>" + w;
    PreBlockMatch(b, w);
    PreBlocksStep(s);
    PreBlockParts(b, w);
  }

  lemma PreBlockParts(b: string, w: string)
    ensures ("<pre>" + b + "</pre>" + w)[5..|b| + 5] == b
    ensures ("<pre>" + b + "</pre>" + w)[|b| + 11..] == w
  {
    var s := "<pre>" + b + "</pre>" + w;
    assert s[5..|b| + 5] == b;
    assert s[|b| + 11..] == w;
  }

  /** A block matched at the start is taken, and the scan goes on after it. */
  lemma PreBlocksStep(s: string)
    requires MatchLen(PreBlock, s) > 0
    ensures var n := MatchLen(PreBlock, s);
      n >= 11 && PreBlocks(s) == [s[5..n - 6]] + PreBlocks(s[n..])
  {
    PreBlockLength(s);
  }

  /** The value after `Output:` is captured up to the end of its line. */
  lemma CaptureOfValue(t: string, j: nat, v: string, rest: string)
    requires j <= |t| && t == t[..j] + " " + v + rest
    requires v != [] && !IsSpace(v[0]) && '\n' !in v && (rest == [] || rest[0] == '\n')
    ensures CaptureAfter(t, j) == Some(v)
  {
    var n := |v|;
    assert t[j] == ' ';
    assert t[j + 1] == v[0];
    assert SpaceRun(t, j + 1) == j + 1;
    assert SpaceRun(t, j) == j + 1;
    forall k | j + 1 <= k < j + 1 + n ensures t[k] != '\n' {
      assert t[k] == v[k - j - 1];
    }
    assert j + 1 + n == |t| || t[j + 1 + n] == '\n';
    assert LineEnd(t, j + 1) == j + 1 + n;
    assert t[j + 1..j + 1 + n] == v;
  }

  /** Whether `lit` matches inside a prefix does not depend on what follows the prefix. */
  lemma FoldedPrefix(s: string, w: string, i: nat, lit: string)
    requires |w| <= |s| && s[..|w|] == w && i + |lit| <= |w|
    ensures MatchesFoldedAt(s, i, lit) == MatchesFoldedAt(w, i, lit)
  {
    forall j | i <= j < i + |lit| ensures s[j] == w[j] {
      assert s[j] == s[..|w|][j];
    }
  }

  /** An `Output:` line gives its value when no earlier text reads as `output:`. */
  lemma OutputOfLine(u: string, v: string, rest: string)
    requires forall i :: 0 <= i < |u| ==> !MatchesFoldedAt(u + "Output:", i, "output:")
    requires v != [] && !IsSpace(v[0]) && '\n' !in v && (rest == [] || rest[0] == '\n')
    ensures OutputCapture(u + "Output: " + v + rest, 0) == Some(v)
  {
    var pre := u + "Output:";
    assert u + "Output: " + v + rest == pre + (" " + v + rest);
    OutputWordAfter(u, " " + v + rest);
    CaptureAfterLabel(pre, v, rest);
  }

  /** The value after the label and one space is captured. */
  lemma CaptureAfterLabel(pre: string, v: string, rest: string)
    requires v != [] && !IsSpace(v[0]) && '\n' !in v && (rest == [] || rest[0] == '\n')
    ensures CaptureAfter(pre + (" " + v + rest), |pre|) == Some(v)
  {
    var t := pre + (" " + v + rest);
    assert t == t[..|pre|] + " " + v + rest;
    CaptureOfValue(t, |pre|, v, rest);
  }

  /** The first `output:`, in any case, is the `Output:` after text that holds none. */
  lemma OutputWordAfter(u: string, tail: string)
    requires forall i :: 0 <= i < |u| ==> !MatchesFoldedAt(u + "Output:", i, "output:")
    ensures IndexOfFolded(u + "Output:" + tail, 0, "output:") == Some(|u|)
  {
    var t := u + "Output:" + tail;
    var n := |u|;
    assert t[..n + 7] == u + "Output:";
    forall i | 0 <= i < n ensures !MatchesFoldedAt(t, i, "output:") {
      assert !MatchesFoldedAt(u + "Output:", i, "output:");
      FoldedPrefix(t, u + "Output:", i, "output:");
    }
    assert t[n..n + 7] == "Output:";
    OutputWord(t, n);
    FirstFoldedAt(t, 0, "output:", n);
  }

  /** A block without tags, entities or carriage returns is read as it is. */
  lemma PlainBlockText(b: string)
    requires '<' !in b && '&' !in b && '\r' !in b
    ensures BlockText(b) == b
  {
    StripTagsKeepsPlainText(b, "p", "");
    ReplaceAllIdentity(Literal("\r"), b, "");
  }

  /** A plain-text block with an `Output:` line gives the line's value. */
  lemma PlainBlockOutput(u: string, v: string, rest: string)
    requires forall i :: 0 <= i < |u| ==> !MatchesFoldedAt(u + "Output:", i, "output:")
    requires v != [] && IsTrimmed(v) && '\n' !in v && (rest == [] || rest[0] == '\n')
    requires var b := u + "Output: " + v + rest; '<' !in b && '&' !in b && '\r' !in b
    ensures BlockOutput(u + "Output: " + v + rest) == Some(v)
  {
    PlainBlockText(u + "Output: " + v + rest);
    OutputOfLine(u, v, rest);
    TrimmedIsFixpoint(v);
  }

  /** The blank after `Output: ` at the end of a text is given back to `[^\n]+`. */
  lemma BlankCapture()
    ensures CaptureAfter("Output: ", 7) == Some(" ")
  {
    var t := "Output: ";
    assert SpaceRun(t, 8) == 8;
    assert SpaceRun(t, 7) == 8;
    assert LastNotNewline(t, 7, 8) == Some(7);
    assert LineEnd(t, 7) == 8;
    assert t[7..8] == " ";
  }

  /** The `Output:` at the start of a text is the leftmost one. */
  lemma OutputWordAtStart(t: string)
    requires 7 <= |t| && t[..7] == "Output:"
    ensures IndexOfFolded(t, 0, "output:") == Some(0)
  {
    assert t[0..7] == "Output:";
    OutputWord(t, 0);
  }

  lemma BlankOutputCapture()
    ensures OutputCapture("Output: ", 0) == Some(" ")
  {
    OutputWordAtStart("Output: ");
    BlankCapture();
  }

  /** An `Output:` followed by nothing but blanks still matches, and is pushed as an empty output. */
  lemma BlankOutputKept()
    ensures BlockOutput("Output: ") == Some("")
  {
    PlainBlockText("Output: ");
    BlankOutputCapture();
    TrimDropsLeadingSpace(' ', []);
  }

  /** Only line breaks after `Output:` leave `[^\n]+` nothing to match. */
  lemma NewlineCapture()
    ensures CaptureAfter("Output:\n", 7) == None
  {
    var t := "Output:\n";
    assert SpaceRun(t, 8) == 8;
    assert SpaceRun(t, 7) == 8;
    assert LastNotNewline(t, 7, 7) == None;
    assert LastNotNewline(t, 7, 8) == None;
  }

  lemma NewlineOutputCapture()
    ensures OutputCapture("Output:\n", 0) == None
  {
    var t := "Output:\n";
    assert IndexOfFolded(t, 1, "output:") == None by {
      assert Lower(t[1 + 0]) != Lower("output:"[0]);
    }
    OutputWordAtStart(t);
    NewlineCapture();
  }

  /** An `Output:` followed only by line breaks gives nothing. */
  lemma NewlineOutputDropped()
    ensures BlockOutput("Output:\n") == None
  {
    PlainBlockText("Output:\n");
    NewlineOutputCapture();
  }
}
