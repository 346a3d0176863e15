/**
 * The scaffold generator's own logic (tools/new-problem.ts): the command
 * line, the JSDoc header, and the pure steps of `main` that decide how many
 * lines make one example, which helpers and node classes are imported and
 * how the generated file is laid out.
 */
module Scaffold {
  import opened Wrappers
  import opened Strings
  import opened Patterns
  import opened Html
  import opened Signature
  import opened Outputs
  import opened Chunking
  import opened Asserts

  // ---------------------------------------------------------------------------
  // parseArgs

  /** The options record; `target` is `null` until an operand is seen. */
  datatype Options = Options(outDir: string, force: bool, help: bool, target: Option<string>)

  const Defaults := Options("src/problems", false, false, None)

  predicate IsHelpFlag(arg: string) {
    arg == "--help" || arg == "-h"
  }

  predicate IsOutFlag(arg: string) {
    arg == "--out" || arg == "-o"
  }

  predicate IsForceFlag(arg: string) {
    arg == "--force" || arg == "-f"
  }

  predicate IsDashed(arg: string) {
    StartsWith(arg, "-")
  }

  /** `value && !value.startsWith("-")` for `rawArgs[i]`, which is `undefined` past the end. */
  predicate IsOutValue(args: seq<string>, i: nat) {
    i < |args| && args[i] != [] && !IsDashed(args[i])
  }

  /** `options.target` is truthy: set, and not the empty text. */
  predicate HasTarget(o: Options) {
    o.target.Some? && o.target.value != []
  }

  /** The options after the arguments from position `i` on are read into `o`. */
  function OptionsFrom(args: seq<string>, i: nat, o: Options): Options
    requires i <= |args|
    decreases |args| - i
  {
    if i == |args| then o
    else
      var arg := args[i];
      if IsHelpFlag(arg) then OptionsFrom(args, i + 1, o.(help := true))
      else if IsOutFlag(arg) then
        if IsOutValue(args, i + 1) then OptionsFrom(args, i + 2, o.(outDir := args[i + 1]))
        else OptionsFrom(args, i + 1, o)
      else if IsForceFlag(arg) then OptionsFrom(args, i + 1, o.(force := true))
      else if !IsDashed(arg) && !HasTarget(o) then OptionsFrom(args, i + 1, o.(target := Some(arg)))
      else OptionsFrom(args, i + 1, o)
  }

  function OptionsOf(args: seq<string>): Options {
    OptionsFrom(args, 0, Defaults)
  }

  /** `parseArgs(rawArgs)`. */
  method ParseArgs(args: seq<string>) returns (options: Options)
    ensures options == OptionsOf(args)
  {
    options := Defaults;
    var i := 0;
    while i < |args|
      invariant i <= |args|
      invariant OptionsFrom(args, i, options) == OptionsOf(args)
      decreases |args| - i
    {
      var arg := args[i];
      if IsHelpFlag(arg) {
        options := options.(help := true);
        i := i + 1;
        continue;
      }
      if IsOutFlag(arg) {
        if i + 1 < |args| && args[i + 1] != [] && !IsDashed(args[i + 1]) {
          options := options.(outDir := args[i + 1]);
          i := i + 1;
        }
        i := i + 1;
        continue;
      }
      if IsForceFlag(arg) {
        options := options.(force := true);
        i := i + 1;
        continue;
      }
      if !IsDashed(arg) && !HasTarget(options) {
        options := options.(target := Some(arg));
      }
      i := i + 1;
    }
  }

  /** Reading from position `i` on sets `help` and `force` exactly when a flag for them is among those arguments. */
  lemma {:induction false} FlagsFrom(args: seq<string>, i: nat, o: Options)
    requires i <= |args|
    ensures OptionsFrom(args, i, o).help <==> o.help || exists k :: i <= k < |args| && IsHelpFlag(args[k])
    ensures OptionsFrom(args, i, o).force <==> o.force || exists k :: i <= k < |args| && IsForceFlag(args[k])
    decreases |args| - i
  {
    if i < |args| {
      var arg := args[i];
      if IsHelpFlag(arg) {
        FlagsFrom(args, i + 1, o.(help := true));
      } else if IsOutFlag(arg) {
        if IsOutValue(args, i + 1) {
          FlagsFrom(args, i + 2, o.(outDir := args[i + 1]));
          assert !IsHelpFlag(args[i + 1]) && !IsForceFlag(args[i + 1]);
        } else {
          FlagsFrom(args, i + 1, o);
        }
      } else if IsForceFlag(arg) {
        FlagsFrom(args, i + 1, o.(force := true));
      } else if !IsDashed(arg) && !HasTarget(o) {
        FlagsFrom(args, i + 1, o.(target := Some(arg)));
      } else {
        FlagsFrom(args, i + 1, o);
      }
    }
  }

  /** `--help` and `--force` (or `-h`, `-f`) count wherever they appear: no `--out` can swallow them. */
  lemma FlagsAnywhere(args: seq<string>)
    ensures OptionsOf(args).help <==> exists k :: 0 <= k < |args| && IsHelpFlag(args[k])
    ensures OptionsOf(args).force <==> exists k :: 0 <= k < |args| && IsForceFlag(args[k])
  {
    FlagsFrom(args, 0, Defaults);
  }

  /** The first argument from position `i` on that is not empty and does not start with a dash. */
  function FirstOperand(args: seq<string>, i: nat): (r: Option<string>)
    requires i <= |args|
    ensures r.Some? ==> r.value != [] && !IsDashed(r.value)
    decreases |args| - i
  {
    if i == |args| then None
    else if args[i] != [] && !IsDashed(args[i]) then Some(args[i])
    else FirstOperand(args, i + 1)
  }

  /** Without `--out`, the target is the first operand; an earlier operand is never replaced. */
  lemma {:induction false} TargetFrom(args: seq<string>, i: nat, o: Options)
    requires i <= |args|
    requires forall k :: i <= k < |args| ==> !IsOutFlag(args[k])
    ensures HasTarget(o) ==> OptionsFrom(args, i, o).target == o.target
    ensures !HasTarget(o) && FirstOperand(args, i).Some? ==> OptionsFrom(args, i, o).target == FirstOperand(args, i)
    ensures !HasTarget(o) && FirstOperand(args, i).None? ==> !HasTarget(OptionsFrom(args, i, o))
    decreases |args| - i
  {
    if i < |args| {
      var arg := args[i];
      if IsHelpFlag(arg) {
        TargetFrom(args, i + 1, o.(help := true));
      } else if IsForceFlag(arg) {
        TargetFrom(args, i + 1, o.(force := true));
      } else if !IsDashed(arg) && !HasTarget(o) {
        TargetFrom(args, i + 1, o.(target := Some(arg)));
      } else {
        TargetFrom(args, i + 1, o);
      }
    }
  }

  /** Without `--out`, the target is the first argument that is neither empty nor a flag. */
  lemma TargetIsFirstOperand(args: seq<string>)
    requires forall k :: 0 <= k < |args| ==> !IsOutFlag(args[k])
    ensures FirstOperand(args, 0).Some? ==> OptionsOf(args).target == FirstOperand(args, 0)
    ensures FirstOperand(args, 0).None? ==> !HasTarget(OptionsOf(args))
  {
    TargetFrom(args, 0, Defaults);
  }

  /** The value after `--out` becomes the directory and is not taken as the target. */
  lemma OutValueIsNotTarget(flag: string, dir: string, target: string)
    requires IsOutFlag(flag)
    requires dir != [] && !IsDashed(dir) && target != [] && !IsDashed(target)
    ensures OptionsOf([flag, dir, target]) == Options(dir, false, false, Some(target))
  {
    var args := [flag, dir, target];
    assert IsOutValue(args, 1);
    assert !IsHelpFlag(target) && !IsOutFlag(target) && !IsForceFlag(target);
    var o := Defaults.(outDir := dir);
    assert OptionsFrom(args, 3, o.(target := Some(target))) == Options(dir, false, false, Some(target));
    assert OptionsFrom(args, 2, o) == Options(dir, false, false, Some(target));
  }

  /** A flag after `--out` is not taken as the directory: it keeps its own meaning. */
  lemma OutBeforeFlag(flag: string, next: string)
    requires IsOutFlag(flag) && IsForceFlag(next)
    ensures OptionsOf([flag, next]) == Defaults.(force := true)
  {
    var args := [flag, next];
    assert !IsOutValue(args, 1);
    assert OptionsFrom(args, 2, Defaults.(force := true)) == Defaults.(force := true);
    assert OptionsFrom(args, 1, Defaults) == Defaults.(force := true);
  }

  // ---------------------------------------------------------------------------
  // formatJSDoc

  /** ` * line`, or ` *` for an empty line. */
  function DocLine(line: string): string {
    if line == [] then " *" else " * " + line
  }

  /** The text a comment line holds: `DocLine` undone. */
  function Uncommented(line: string): string {
    if |line| >= 3 then line[3..] else []
  }

  function DocLines(lines: seq<string>): (r: seq<string>)
    ensures |r| == |lines|
  {
    seq(|lines|, k requires 0 <= k < |lines| => DocLine(lines[k]))
  }

  /** The lines the comment holds: `title (#id)`, the URL, a blank line, then the description's lines. */
  function DocContent(title: string, id: string, description: string, url: string): seq<string> {
    [title + " (#" + id + ")", url, ""] + Split(description, '\n')
  }

  /** `formatJSDoc(title, id, description, url)`. */
  function FormatJSDoc(title: string, id: string, description: string, url: string): string {
    "/**\n" + Join(DocLines(DocContent(title, id, description, url)), '\n') + "\n */"
  }

  /** Every comment line starts with ` *` and gives its text back. */
  lemma DocLineInverse(line: string)
    ensures StartsWith(DocLine(line), " *")
    ensures Uncommented(DocLine(line)) == line
    ensures '\n' !in line ==> '\n' !in DocLine(line)
  {
    if line != [] {
      assert DocLine(line)[3..] == line;
    }
  }

  /** No piece of a split text holds the separator. */
  lemma {:induction false} SplitPiecesFree(s: string, sep: char)
    ensures forall k :: 0 <= k < |Split(s, sep)| ==> sep !in Split(s, sep)[k]
  {
    if s != [] {
      SplitPiecesFree(s[1..], sep);
      if s[0] != sep {
        var rest := Split(s[1..], sep);
        assert Split(s, sep) == [[s[0]] + rest[0]] + rest[1..];
        assert forall k :: 1 <= k < |Split(s, sep)| ==> Split(s, sep)[k] == rest[k];
      } else {
        assert Split(s, sep) == [[]] + Split(s[1..], sep);
      }
    }
  }

  lemma JoinCons(a: string, parts: seq<string>, sep: char)
    requires |parts| >= 1
    ensures Join([a] + parts, sep) == a + [sep] + Join(parts, sep)
  {
    assert ([a] + parts)[1..] == parts;
  }

  lemma {:induction false} JoinSnoc(parts: seq<string>, b: string, sep: char)
    requires |parts| >= 1
    ensures Join(parts + [b], sep) == Join(parts, sep) + [sep] + b
    decreases |parts|
  {
    if |parts| > 1 {
      JoinSnoc(parts[1..], b, sep);
      assert (parts + [b])[1..] == parts[1..] + [b];
    }
  }

  // The comment, cut into lines, is the opening line, one line per content
  // line each giving its text back, and the closing line, provided title, id
  // and URL are one line each.
  lemma JSDocLines(title: string, id: string, description: string, url: string)
    requires '\n' !in title && '\n' !in id && '\n' !in url
    ensures var lines := Split(FormatJSDoc(title, id, description, url), '\n');
            var content := DocContent(title, id, description, url);
            |lines| == |Split(description, '\n')| + 5 &&
            lines[0] == "/**" && lines[|lines| - 1] == " */" &&
            forall k :: 0 <= k < |content| ==> StartsWith(lines[k + 1], " *") && Uncommented(lines[k + 1]) == content[k]
  {
    var content := DocContent(title, id, description, url);
    var body := DocLines(content);
    ContentLinesFree(title, id, description, url);
    DocLinesInverse(content);
    var all := ["/**"] + body + [" */"];
    JSDocJoin(body);
    assert forall k :: 0 <= k < |all| ==> '\n' !in all[k];
    SplitJoin(all, '\n');
    assert forall k :: 0 <= k < |content| ==> all[k + 1] == body[k];
  }

  /** The comment's content lines hold no line break when the title, id and URL hold none. */
  lemma ContentLinesFree(title: string, id: string, description: string, url: string)
    requires '\n' !in title && '\n' !in id && '\n' !in url
    ensures forall k :: 0 <= k < |DocContent(title, id, description, url)| ==>
      '\n' !in DocContent(title, id, description, url)[k]
  {
    var content := DocContent(title, id, description, url);
    assert content[0] == title + " (#" + id + ")";
    SplitPiecesFree(description, '\n');
    assert forall k :: 3 <= k < |content| ==> content[k] == Split(description, '\n')[k - 3];
  }

  /** Each comment line starts with ` *`, gives its content line back and adds no line break. */
  lemma DocLinesInverse(content: seq<string>)
    requires forall k :: 0 <= k < |content| ==> '\n' !in content[k]
    ensures forall k :: 0 <= k < |content| ==>
      StartsWith(DocLines(content)[k], " *") && Uncommented(DocLines(content)[k]) == content[k] &&
      '\n' !in DocLines(content)[k]
  {
    forall k | 0 <= k < |content|
      ensures StartsWith(DocLines(content)[k], " *") && Uncommented(DocLines(content)[k]) == content[k]
      ensures '\n' !in DocLines(content)[k]
    {
      DocLineInverse(content[k]);
    }
  }

  /** The comment is its lines between the opening and the closing line, joined by line breaks. */
  lemma JSDocJoin(body: seq<string>)
    requires body != []
    ensures "/**\n" + Join(body, '\n') + "\n */" == Join(["/**"] + body + [" */"], '\n')
  {
    JoinCons("/**", body + [" */"], '\n');
    JoinSnoc(body, " */", '\n');
    assert ["/**"] + (body + [" */"]) == ["/**"] + body + [" */"];
  }

  // ---------------------------------------------------------------------------
  // The pure steps of main

  /** `params.length || 1`. */
  function DeclaredCount(types: seq<string>): (n: nat)
    ensures n >= 1 && (types != [] ==> n == |types|)
  {
    if |types| == 0 then 1 else |types|
  }

  /** `functionParamCount ?? paramCount`: a count of 0 read from the snippet is kept. */
  function InferredCount(fromSnippet: Option<nat>, types: seq<string>): nat {
    match fromSnippet
    case Some(n) => n
    case None => DeclaredCount(types)
  }

  /** Trimmed lines, without the blank ones. */
  function NonBlank(lines: seq<string>): (r: seq<string>)
    ensures |r| <= |lines|
    ensures forall k :: 0 <= k < |r| ==> r[k] != [] && IsTrimmed(r[k])
  {
    if lines == [] then []
    else
      var t := Trim(lines[0]);
      (if t == [] then [] else [t]) + NonBlank(lines[1..])
  }

  /** `exampleLines`: the test-case text split into lines, trimmed, blank lines dropped. */
  function TestcaseLines(testcases: string): (r: seq<string>)
    ensures forall k :: 0 <= k < |r| ==> r[k] != [] && IsTrimmed(r[k])
  {
    if testcases == [] then [] else NonBlank(Split(testcases, '\n'))
  }

  /** Lines that are already trimmed and not blank are all kept. */
  lemma {:induction false} NonBlankKeeps(lines: seq<string>)
    requires forall k :: 0 <= k < |lines| ==> lines[k] != [] && IsTrimmed(lines[k])
    ensures NonBlank(lines) == lines
  {
    if lines != [] {
      TrimmedIsFixpoint(lines[0]);
      NonBlankKeeps(lines[1..]);
      assert [lines[0]] + lines[1..] == lines;
    }
  }

  /** Test cases written one trimmed value per line are read back line by line. */
  lemma TestcaseLinesOfJoin(lines: seq<string>)
    requires forall k :: 0 <= k < |lines| ==> lines[k] != [] && IsTrimmed(lines[k]) && '\n' !in lines[k]
    ensures TestcaseLines(Join(lines, '\n')) == lines
  {
    if lines != [] {
      SplitJoin(lines, '\n');
      NonBlankKeeps(lines);
    }
  }

  /** Some parameter, the return type or the snippet mentions the node type. */
  predicate UsesNode(node: string, types: seq<string>, returnType: string, snippet: string) {
    (exists k :: 0 <= k < |types| && Contains(types[k], node)) || Contains(returnType, node) ||
    IncludesTypeName(snippet, node)
  }

  /** `/\bnew\s+NODE\b/.test(snippet)`. */
  predicate ConstructsNode(snippet: string, node: string) {
    Test(Construction(node), snippet)
  }

  /** `listCyclePair`: one list parameter, and twice as many test-case lines as outputs. */
  predicate ListCyclePair(usesList: bool, inferred: nat, outputCount: nat, lineCount: nat) {
    usesList && inferred == 1 && outputCount > 0 && lineCount == 2 * outputCount
  }

  function ChunkSize(pair: bool, inferred: nat): nat {
    if pair then 2 else inferred
  }

  /** With a list and its cycle position, the lines are cut into one pair per output. */
  lemma CyclePairGroups(lines: seq<string>, outputs: seq<string>, usesList: bool, inferred: nat)
    requires ListCyclePair(usesList, inferred, |outputs|, |lines|)
    ensures var groups := Chunks(lines, ChunkSize(true, inferred));
            |groups| == |outputs| && Flatten(groups) == lines &&
            forall k :: 0 <= k < |groups| ==> groups[k] == [lines[2 * k], lines[2 * k + 1]]
  {
    PairsFromEvenLength(lines, |outputs|);
    ChunkGroups(lines, 2);
    var groups := Chunks(lines, 2);
    forall k | 0 <= k < |groups|
      ensures groups[k] == [lines[2 * k], lines[2 * k + 1]]
    {
      assert (k + 1) * 2 == 2 * k + 2;
      assert groups[k] == lines[2 * k..2 * k + 2];
    }
  }

  /** Otherwise one example takes as many lines as the function has parameters. */
  lemma ParameterGroups(lines: seq<string>, pair: bool, inferred: nat)
    requires !pair && inferred > 0
    ensures |Chunks(lines, ChunkSize(pair, inferred))| == |lines| / inferred
    ensures forall k :: 0 <= k < |Chunks(lines, inferred)| ==> |Chunks(lines, inferred)[k]| == inferred
  {
    ChunkCount(lines, inferred);
    ChunkGroups(lines, inferred);
  }

  /**
   * A snippet declaring `function NAME()` has its name picked and a
   * parameter count of 0, which `??` keeps: the examples are cut into
   * groups of size 0.
   */
  lemma EmptyParameterListGivesSizeZero(name: string, rest: string, types: seq<string>,
                                        usesList: bool, outputCount: nat, lineCount: nat)
    requires IsIdentifier(name)
    ensures var snippet := "function " + name + "()" + rest;
            NameOf(snippet) == Some(name) &&
            ParamCountOf(snippet, NameOf(snippet)) == Some(0) &&
            InferredCount(ParamCountOf(snippet, NameOf(snippet)), types) == 0 &&
            ChunkSize(ListCyclePair(usesList, 0, outputCount, lineCount), 0) == 0
  {
    var snippet := "function " + name + "()" + rest;
    assert snippet == "function " + name + "(" + (")" + rest);
    DeclaredName(name, ")" + rest);
    assert snippet == "function " + name + "(" + "" + ")" + rest;
    DeclaredParams(name, "", rest);
    BlankListCountsNone("");
  }

  // ---------------------------------------------------------------------------
  // Import lines

  const AssertImport := "import assert from \"node:assert\";"
  const HelperModule := "@/tools/leetcode-helpers"

  /** `helperValueImports`: the helpers in use, then each node class that the snippet constructs. */
  function ValueImports(helpers: seq<string>, listValue: bool, treeValue: bool): seq<string> {
    var withList := if listValue && "ListNode" !in helpers then helpers + ["ListNode"] else helpers;
    if treeValue && "TreeNode" !in withList then withList + ["TreeNode"] else withList
  }

  /** `helperTypeImports`: each node class in use that is not imported as a value. */
  function TypeImports(values: seq<string>, usesList: bool, usesTree: bool, listValue: bool, treeValue: bool)
    : seq<string>
  {
    (if usesList && !listValue && "ListNode" !in values then ["ListNode"] else []) +
    (if usesTree && !treeValue && "TreeNode" !in values then ["TreeNode"] else [])
  }

  /** `importLines`. */
  function ImportLines(helpers: seq<string>, usesList: bool, usesTree: bool, listValue: bool, treeValue: bool)
    : seq<string>
  {
    var values := ValueImports(helpers, listValue, treeValue);
    var types := TypeImports(values, usesList, usesTree, listValue, treeValue);
    [AssertImport] +
    (if values == [] then [] else ["import { " + JoinWith(values, ", ") + " } from \"" + HelperModule + "\";"]) +
    (if types == [] then [] else ["import type { " + JoinWith(types, ", ") + " } from \"" + HelperModule + "\";"])
  }

  /**
   * Every helper in use is imported as a value, in order and once; each node
   * class in use or constructed is imported exactly once, as a value when
   * the snippet constructs it and as a type otherwise.
   */
  lemma ImportsOnce(helpers: seq<string>, usesList: bool, usesTree: bool, listValue: bool, treeValue: bool)
    requires KnownHelpers(helpers)
    ensures var values := ValueImports(helpers, listValue, treeValue);
            var types := TypeImports(values, usesList, usesTree, listValue, treeValue);
            helpers <= values && Distinct(values) && Distinct(types) &&
            ("ListNode" in values <==> listValue) && ("TreeNode" in values <==> treeValue) &&
            ("ListNode" in types <==> usesList && !listValue) && ("TreeNode" in types <==> usesTree && !treeValue)
  {
    assert "ListNode" !in helpers && "TreeNode" !in helpers;
  }

  /** The assert import always comes first, followed by at most one value and one type import. */
  lemma ImportLinesShape(helpers: seq<string>, usesList: bool, usesTree: bool, listValue: bool, treeValue: bool)
    ensures var lines := ImportLines(helpers, usesList, usesTree, listValue, treeValue);
            1 <= |lines| <= 3 && lines[0] == AssertImport &&
            (|lines| == 1 <==> helpers == [] && !listValue && !treeValue && !usesList && !usesTree)
  {
  }

  // ---------------------------------------------------------------------------
  // The generated file

  /** `contentParts.join("\n")`. */
  function FileContent(jsdoc: string, imports: seq<string>, snippet: string, asserts: string): string {
    Join(FileFront(jsdoc, imports, snippet) + [asserts, ""], '\n')
  }

  /** The parts before the asserts: the comment, a blank line, the imports, a blank line, the snippet, a blank line. */
  function FileFront(jsdoc: string, imports: seq<string>, snippet: string): seq<string> {
    [jsdoc, ""] + imports + ["", Trim(snippet), ""]
  }

  /** The file opens with the comment and ends with a line break after the asserts. */
  lemma FileContentShape(jsdoc: string, imports: seq<string>, snippet: string, asserts: string)
    ensures StartsWith(FileContent(jsdoc, imports, snippet, asserts), jsdoc)
    ensures EndsWith(FileContent(jsdoc, imports, snippet, asserts), asserts + "\n")
  {
    var front := FileFront(jsdoc, imports, snippet);
    JoinStartsWithFirst(front + [asserts, ""], '\n');
    JoinEndsWithLast(front, asserts, '\n');
  }

  /** Parts ending with `last` and an empty part join to text ending with `last` and a separator. */
  lemma JoinEndsWithLast(front: seq<string>, last: string, sep: char)
    requires |front| >= 1
    ensures EndsWith(Join(front + [last, ""], sep), last + [sep])
  {
    JoinSnoc(front, last, sep);
    assert front + [last, ""] == (front + [last]) + [""];
    JoinSnoc(front + [last], "", sep);
    var content := Join(front + [last, ""], sep);
    assert content == Join(front, sep) + [sep] + (last + [sep]);
  }

  /** What `main` reads from the problem: its metadata, statement, snippet and test cases. */
  datatype Question = Question(id: string, title: string, slug: string, content: string, snippet: string,
                               testcases: string, types: seq<string>, returnType: string)

  function ProblemUrl(slug: string): string {
    "https://leetcode.com/problems/" + slug + "/"
  }

  /** What `main` works out from the problem before generating code. */
  datatype Plan = Plan(name: Option<string>, inferred: nat, lines: seq<string>, outputs: seq<string>,
                       usesList: bool, usesTree: bool, pair: bool)

  function PlanOf(q: Question): Plan {
    var name := NameOf(q.snippet);
    var inferred := InferredCount(ParamCountOf(q.snippet, name), q.types);
    var lines := TestcaseLines(q.testcases);
    var outputs := OutputsOf(PreBlocks(q.content));
    var usesList := UsesNode("ListNode", q.types, q.returnType, q.snippet);
    var usesTree := UsesNode("TreeNode", q.types, q.returnType, q.snippet);
    Plan(name, inferred, lines, outputs, usesList, usesTree, ListCyclePair(usesList, inferred, |outputs|, |lines|))
  }

  /** The example groups, cut by `Chunks`. */
  function GroupsOf(p: Plan): seq<seq<string>> {
    Chunks(p.lines, ChunkSize(p.pair, p.inferred))
  }

  /** The comment for the problem, given its statement as plain text. */
  function CommentOf(q: Question, description: string): string {
    FormatJSDoc(q.title, q.id, description, ProblemUrl(q.slug))
  }

  function ImportsOf(q: Question, p: Plan, helpers: seq<string>): seq<string> {
    ImportLines(helpers, p.usesList, p.usesTree,
                ConstructsNode(q.snippet, "ListNode"), ConstructsNode(q.snippet, "TreeNode"))
  }

  /** The file for the problem, its statement as text, its plan and the code generated for its examples. */
  function FileFrom(q: Question, description: string, p: Plan, generated: Generated): string {
    FileContent(CommentOf(q, description), ImportsOf(q, p, generated.helpers), q.snippet, generated.code)
  }

  /** The file `main` writes for the problem. */
  function FileOf(q: Question): string {
    var p := PlanOf(q);
    FileFrom(q, PlainText(q.content), p, AssertsOf(p.name, GroupsOf(p), p.outputs, q.types, q.returnType, p.pair))
  }

  /** The steps of `main` between fetching the problem and writing the file. */
  method Generate(q: Question) returns (content: string)
    ensures content == FileOf(q)
  {
    var name := PickFunctionName(q.snippet);
    var count := GetFunctionParamCount(q.snippet, name);
    var inferred := InferredCount(count, q.types);
    var lines := TestcaseLines(q.testcases);
    var outputs := ExtractOutputs(q.content);
    var usesList := UsesNode("ListNode", q.types, q.returnType, q.snippet);
    var usesTree := UsesNode("TreeNode", q.types, q.returnType, q.snippet);
    var pair := ListCyclePair(usesList, inferred, |outputs|, |lines|);
    var groups := Chunk(lines, ChunkSize(pair, inferred));
    var description := HtmlToText(q.content);
    var doc := FormatJSDoc(q.title, q.id, description, ProblemUrl(q.slug));
    var generated := GenerateAsserts(name, groups, outputs, q.types, q.returnType, pair);
    var imports := ImportLines(generated.helpers, usesList, usesTree,
                               ConstructsNode(q.snippet, "ListNode"), ConstructsNode(q.snippet, "TreeNode"));
    content := FileContent(doc, imports, q.snippet, generated.code);
  }

  /** The comment opens with its own opening line. */
  lemma CommentOpens(title: string, id: string, description: string, url: string)
    ensures StartsWith(FormatJSDoc(title, id, description, url), "/**\n")
  {
    var doc := FormatJSDoc(title, id, description, url);
    assert doc[..4] == "/**\n";
  }

  /**
   * The written file opens with the problem's comment, imports `assert`
   * before anything else, and ends with the generated asserts and a line break.
   */
  lemma FileShape(q: Question, description: string, p: Plan, generated: Generated)
    ensures StartsWith(FileFrom(q, description, p, generated), "/**\n")
    ensures EndsWith(FileFrom(q, description, p, generated), generated.code + "\n")
    ensures ImportsOf(q, p, generated.helpers)[0] == AssertImport
  {
    var doc := CommentOf(q, description);
    FileContentShape(doc, ImportsOf(q, p, generated.helpers), q.snippet, generated.code);
    CommentOpens(q.title, q.id, description, ProblemUrl(q.slug));
    ImportLinesShape(generated.helpers, p.usesList, p.usesTree,
                     ConstructsNode(q.snippet, "ListNode"), ConstructsNode(q.snippet, "TreeNode"));
  }
}
