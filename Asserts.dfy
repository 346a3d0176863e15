/**
 * `generateAsserts` (tools/new-problem.ts): one block of test code per
 * example that has both an input group and an output, and the set of
 * helpers from tools/leetcode-helpers.ts that the code calls, kept in the
 * order each was first added.
 */
module Asserts {
  import opened Wrappers
  import opened Strings
  import opened Numbers
  import opened Values
  import opened Literals
  import opened Signature

  /** The generated code and `helpersUsed`, an insertion-ordered set. */
  datatype Generated = Generated(code: string, helpers: seq<string>)

  const NoFunctionTodo := "// TODO: Add asserts for class-based or custom API problems."
  const NoExamplesTodo := "// TODO: Add asserts for examples."

  /** The helpers the generated code can call. */
  predicate IsHelperName(h: string) {
    h == "buildList" || h == "buildTree" || h == "buildListWithCycle" || h == "listToArray" || h == "treeToArray"
  }

  predicate Distinct(xs: seq<string>) {
    forall i, j :: 0 <= i < j < |xs| ==> xs[i] != xs[j]
  }

  /** `helpersUsed.add(h)`. */
  function Add(helpers: seq<string>, h: string): (r: seq<string>)
    ensures h in r && (r == helpers || r == helpers + [h])
    ensures Distinct(helpers) ==> Distinct(r)
  {
    if h in helpers then helpers else helpers + [h]
  }

  /** `params[idx]?.type ?? ""`. */
  function TypeAt(types: seq<string>, idx: nat): string {
    if idx < |types| then types[idx] else ""
  }

  /** `rawInputs[idx] ?? ""`. */
  function RawAt(raw: seq<string>, idx: nat): string {
    if idx < |raw| then raw[idx] else ""
  }

  function ExampleHeader(i: nat): string {
    "// Example " + NatText(i + 1)
  }

  function InputTodo(i: nat): string {
    "// TODO: Unable to parse example input " + NatText(i + 1) + "."
  }

  function OutputTodo(i: nat): string {
    "// TODO: Unable to parse example output " + NatText(i + 1) + "."
  }

  /** `assert.<check>(<actual>, <expected>);` */
  function AssertLine(check: string, actual: string, expected: string): string {
    "assert." + check + "(" + actual + ", " + expected + ");"
  }

  /** `typeof v === "object" || Array.isArray(v)`: arrays and `null` are compared deeply. */
  function AssertMethod(v: Value): string {
    if IsObject(v) then "deepStrictEqual" else "strictEqual"
  }

  /** A `null` expected list or tree is compared as an empty array. */
  function EmptyIfNull(v: Value): Value {
    if v.Null? then Arr([]) else v
  }

  /** The code for one argument of type `t`; `None` when a list or tree argument is not an array. */
  function ArgCode(v: Value, t: string, helpers: seq<string>): (r: (Option<string>, seq<string>))
  {
    if IsListNodeType(t) then
      if v.Null? then (Some("null"), helpers)
      else if !v.Arr? then (None, helpers)
      else (Some("buildList(" + ValueToCode(v) + ")"), Add(helpers, "buildList"))
    else if IsTreeNodeType(t) then
      if v.Null? then (Some("null"), helpers)
      else if !v.Arr? then (None, helpers)
      else (Some("buildTree(" + ValueToCode(v) + ")"), Add(helpers, "buildTree"))
    else (Some(ValueToCode(v)), helpers)
  }

  /** `parsedInputs.map(...)`: every argument is mapped, left to right, even after one that fails. */
  function ArgCodes(parsed: seq<Parsed>, types: seq<string>, helpers: seq<string>): (r: (seq<Option<string>>, seq<string>))
    ensures |r.0| == |parsed|
  {
    if parsed == [] then ([], helpers)
    else
      var n := |parsed| - 1;
      var init := ArgCodes(parsed[..n], types, helpers);
      var last := ArgCode(parsed[n].value, TypeAt(types, n), init.1);
      (init.0 + [last.0], last.1)
  }

  /** `rawInputs.map((raw, idx) => parseValue(raw, params[idx]?.type ?? ""))`. */
  function ParseInputs(raw: seq<string>, types: seq<string>): (r: seq<Parsed>)
    ensures |r| == |raw|
  {
    seq(|raw|, k requires 0 <= k < |raw| => ParseValue(raw[k], TypeAt(types, k)))
  }

  predicate AllParsed(parsed: seq<Parsed>) {
    forall k :: 0 <= k < |parsed| ==> parsed[k].ok
  }

  predicate AllMapped(args: seq<Option<string>>) {
    forall k :: 0 <= k < |args| ==> args[k].Some?
  }

  function Unwrapped(args: seq<Option<string>>): (r: seq<string>)
    requires AllMapped(args)
    ensures |r| == |args| && forall k :: 0 <= k < |r| ==> args[k] == Some(r[k])
  {
    seq(|args|, k requires 0 <= k < |args| => args[k].value)
  }

  /** The argument list of an example, or the helpers in use when it cannot be built. */
  datatype Arguments = Built(args: seq<string>, helpers: seq<string>) | Unbuilt(helpers: seq<string>)

  /** The first parameter is a linked list given with its cycle position. */
  predicate CycleCall(cycle: bool, types: seq<string>) {
    cycle && |types| >= 1 && IsListNodeType(types[0])
  }

  /** An example's input texts, read: a list and its cycle position, or one value per parameter. */
  datatype Inputs = CycleInputs(list: Parsed, pos: Parsed) | ListedInputs(parsed: seq<Parsed>)

  /** An example read: its inputs and its output. */
  datatype Reading = Reading(inputs: Inputs, out: Parsed)

  function ReadInputs(raw: seq<string>, types: seq<string>, cycle: bool): Inputs {
    if CycleCall(cycle, types) then
      CycleInputs(ParseValue(RawAt(raw, 0), types[0]), ParseValue(RawAt(raw, 1), "number"))
    else ListedInputs(ParseInputs(raw, types))
  }

  function ReadExample(raw: seq<string>, output: string, types: seq<string>, returnType: string, cycle: bool): Reading {
    Reading(ReadInputs(raw, types, cycle), ParseValue(output, returnType))
  }

  /** The first `min(examples.length, outputs.length)` examples, read. */
  function Readings(examples: seq<seq<string>>, outputs: seq<string>, types: seq<string>,
                    returnType: string, cycle: bool): (r: seq<Reading>)
    ensures |r| == Min(|examples|, |outputs|)
  {
    seq(Min(|examples|, |outputs|),
        k requires 0 <= k < Min(|examples|, |outputs|) => ReadExample(examples[k], outputs[k], types, returnType, cycle))
  }

  /** The single argument of an example whose list is given with its cycle position. */
  function CycleArguments(list: Parsed, pos: Parsed, helpers: seq<string>): Arguments {
    if !list.ok || !pos.ok || !list.value.Arr? || !pos.value.Num? then Unbuilt(helpers)
    else
      Built(["buildListWithCycle(" + ValueToCode(list.value) + ", " + NumberText(pos.value.n) + ")"],
            Add(helpers, "buildListWithCycle"))
  }

  /** The arguments of an example whose inputs are read one per parameter. */
  function MappedArguments(parsed: seq<Parsed>, types: seq<string>, helpers: seq<string>): Arguments {
    if !AllParsed(parsed) then Unbuilt(helpers)
    else
      var mapped := ArgCodes(parsed, types, helpers);
      if !AllMapped(mapped.0) then Unbuilt(mapped.1) else Built(Unwrapped(mapped.0), mapped.1)
  }

  function InputArguments(inputs: Inputs, types: seq<string>, helpers: seq<string>): Arguments {
    match inputs
    case CycleInputs(list, pos) => CycleArguments(list, pos, helpers)
    case ListedInputs(parsed) => MappedArguments(parsed, types, helpers)
  }

  /** The arguments of one example. */
  function ExampleArguments(raw: seq<string>, types: seq<string>, cycle: bool, helpers: seq<string>): Arguments {
    InputArguments(ReadInputs(raw, types, cycle), types, helpers)
  }

  /** The line for example `i` once its arguments and its output are read. */
  function Assertion(name: string, i: nat, a: Arguments, out: Parsed, returnType: string): (r: (string, seq<string>))
  {
    match a
    case Unbuilt(h) => (InputTodo(i), h)
    case Built(args, h) =>
      if !out.ok then (OutputTodo(i), h)
      else
        var call := name + "(" + JoinWith(args, ", ") + ")";
        if IsListNodeType(returnType) then
          (AssertLine("deepStrictEqual", "listToArray(" + call + ")", ValueToCode(EmptyIfNull(out.value))),
           Add(h, "listToArray"))
        else if IsTreeNodeType(returnType) then
          (AssertLine("deepStrictEqual", "treeToArray(" + call + ")", ValueToCode(EmptyIfNull(out.value))),
           Add(h, "treeToArray"))
        else (AssertLine(AssertMethod(out.value), call, ValueToCode(out.value)), h)
  }

  /** The line that follows an example's header, and the helpers in use after it. */
  function ExampleBody(name: string, i: nat, reading: Reading, types: seq<string>, returnType: string,
                       helpers: seq<string>): (r: (string, seq<string>))
  {
    Assertion(name, i, InputArguments(reading.inputs, types, helpers), reading.out, returnType)
  }

  /**
   * What an example adds after its header, as a function of its index, its
   * reading and the helpers in use before it: a line, and the helpers after it.
   */
  type Body = (nat, Reading, seq<string>) -> (string, seq<string>)

  /** `ExampleBody` for one function name, parameter list and return type. */
  function BodyOf(name: string, types: seq<string>, returnType: string): Body {
    (i: nat, reading: Reading, helpers: seq<string>) => ExampleBody(name, i, reading, types, returnType, helpers)
  }

  /** The lines of the first `n` examples, each a header and what `body` gives, and the helpers they use. */
  function Lines(readings: seq<Reading>, body: Body, n: nat): (r: (seq<string>, seq<string>))
    requires n <= |readings|
    ensures |r.0| == 2 * n
  {
    if n == 0 then ([], [])
    else
      var before := Lines(readings, body, n - 1);
      var last := body(n - 1, readings[n - 1], before.1);
      (before.0 + [ExampleHeader(n - 1), last.0], last.1)
  }

  function Min(a: nat, b: nat): nat {
    if a <= b then a else b
  }

  /** What `generateAsserts` returns. */
  function AssertsOf(name: Option<string>, examples: seq<seq<string>>, outputs: seq<string>, types: seq<string>,
                     returnType: string, cycle: bool): Generated
  {
    if name.None? || name.value == [] then Generated(NoFunctionTodo, [])
    else
      var readings := Readings(examples, outputs, types, returnType, cycle);
      var lines := Lines(readings, BodyOf(name.value, types, returnType), |readings|);
      Generated(if lines.0 == [] then NoExamplesTodo else Join(lines.0, '\n'), lines.1)
  }

  /** The arguments of one example, as the loop body of `generateAsserts` builds them. */
  method BuildArguments(raw: seq<string>, types: seq<string>, cycle: bool, helpers: seq<string>)
    returns (a: Arguments)
    ensures a == ExampleArguments(raw, types, cycle, helpers)
  {
    if CycleCall(cycle, types) {
      var list := ParseValue(RawAt(raw, 0), types[0]);
      var pos := ParseValue(RawAt(raw, 1), "number");
      if !list.ok || !pos.ok || !list.value.Arr? || !pos.value.Num? {
        return Unbuilt(helpers);
      }
      var code := "buildListWithCycle(" + ValueToCode(list.value) + ", " + NumberText(pos.value.n) + ")";
      return Built([code], Add(helpers, "buildListWithCycle"));
    }
    var parsed := ParseInputs(raw, types);
    if !AllParsed(parsed) {
      return Unbuilt(helpers);
    }
    var codes := ArgCodes(parsed, types, helpers);
    if !AllMapped(codes.0) {
      return Unbuilt(codes.1);
    }
    return Built(Unwrapped(codes.0), codes.1);
  }

  /** The line after the header of example `i`, and the helpers in use after it. */
  method BuildExample(name: string, i: nat, raw: seq<string>, output: string, types: seq<string>,
                      returnType: string, cycle: bool, helpers: seq<string>)
    returns (line: string, used: seq<string>)
    ensures (line, used) == ExampleBody(name, i, ReadExample(raw, output, types, returnType, cycle), types,
                                        returnType, helpers)
  {
    var a := BuildArguments(raw, types, cycle, helpers);
    used := a.helpers;
    if a.Unbuilt? {
      return InputTodo(i), used;
    }
    var out := ParseValue(output, returnType);
    if !out.ok {
      return OutputTodo(i), used;
    }
    var call := name + "(" + JoinWith(a.args, ", ") + ")";
    if IsListNodeType(returnType) {
      used := Add(used, "listToArray");
      line := AssertLine("deepStrictEqual", "listToArray(" + call + ")", ValueToCode(EmptyIfNull(out.value)));
    } else if IsTreeNodeType(returnType) {
      used := Add(used, "treeToArray");
      line := AssertLine("deepStrictEqual", "treeToArray(" + call + ")", ValueToCode(EmptyIfNull(out.value)));
    } else {
      line := AssertLine(AssertMethod(out.value), call, ValueToCode(out.value));
    }
  }

  /** The loop of `generateAsserts`: a header and a line per example, and the helpers in use after them. */
  method ExampleLoop(fn: string, examples: seq<seq<string>>, outputs: seq<string>,
                     types: seq<string>, returnType: string, cycle: bool) returns (lines: seq<string>, helpers: seq<string>)
    ensures (lines, helpers)
         == Lines(Readings(examples, outputs, types, returnType, cycle), BodyOf(fn, types, returnType), Min(|examples|, |outputs|))
  {
    helpers, lines := [], [];
    ghost var readings := Readings(examples, outputs, types, returnType, cycle);
    for i: nat := 0 to Min(|examples|, |outputs|)
      invariant (lines, helpers) == Lines(readings, BodyOf(fn, types, returnType), i)
    {
      var raw, output := examples[i], outputs[i];
      assert readings[i] == ReadExample(raw, output, types, returnType, cycle);
      var line, used := BuildExample(fn, i, raw, output, types, returnType, cycle, helpers);
      ExampleLinesStep(readings, fn, types, returnType, i, line, used);
      lines, helpers := lines + [ExampleHeader(i), line], used;
    }
  }

  /** One more example adds its header and the line its body gives. */
  lemma ExampleLinesStep(readings: seq<Reading>, fn: string, types: seq<string>, returnType: string,
                         i: nat, line: string, used: seq<string>)
    requires i < |readings|
    requires ExampleBody(fn, i, readings[i], types, returnType, Lines(readings, BodyOf(fn, types, returnType), i).1)
          == (line, used)
    ensures Lines(readings, BodyOf(fn, types, returnType), i + 1)
         == (Lines(readings, BodyOf(fn, types, returnType), i).0 + [ExampleHeader(i), line], used)
  {
  }

  /** `generateAsserts(functionName, examples, outputs, params, returnType, listCyclePair)`. */
  method GenerateAsserts(name: Option<string>, examples: seq<seq<string>>, outputs: seq<string>,
                         types: seq<string>, returnType: string, cycle: bool) returns (g: Generated)
    ensures g == AssertsOf(name, examples, outputs, types, returnType, cycle)
  {
    if name.None? || name.value == [] {
      return Generated(NoFunctionTodo, []);
    }
    var lines, helpers := ExampleLoop(name.value, examples, outputs, types, returnType, cycle);
    if lines == [] {
      return Generated(NoExamplesTodo, helpers);
    }
    return Generated(Join(lines, '\n'), helpers);
  }

  // ---------------------------------------------------------------------------
  // Properties

  /** Every name in `helpersUsed` is a helper of tools/leetcode-helpers.ts, and none is listed twice. */
  predicate KnownHelpers(helpers: seq<string>) {
    Distinct(helpers) && forall k :: 0 <= k < |helpers| ==> IsHelperName(helpers[k])
  }

  /** Mapping the arguments only ever adds known helpers. */
  lemma {:induction false} ArgCodesHelpers(parsed: seq<Parsed>, types: seq<string>, helpers: seq<string>)
    requires KnownHelpers(helpers)
    ensures KnownHelpers(ArgCodes(parsed, types, helpers).1)
    ensures helpers <= ArgCodes(parsed, types, helpers).1
  {
    if parsed != [] {
      var n := |parsed| - 1;
      ArgCodesHelpers(parsed[..n], types, helpers);
      ArgCodeHelpers(parsed[n].value, TypeAt(types, n), ArgCodes(parsed[..n], types, helpers).1);
    }
  }

  /** Mapping one argument adds at most the helper that builds it, which is a known one. */
  lemma ArgCodeHelpers(v: Value, t: string, helpers: seq<string>)
    requires KnownHelpers(helpers)
    ensures KnownHelpers(ArgCode(v, t, helpers).1)
    ensures helpers <= ArgCode(v, t, helpers).1
  {
    if v.Arr? {
      if IsListNodeType(t) {
        AddKnown(helpers, "buildList");
      } else if IsTreeNodeType(t) {
        AddKnown(helpers, "buildTree");
      }
    }
  }

  /** Reading the arguments only ever adds known helpers. */
  lemma InputArgumentsHelpers(inputs: Inputs, types: seq<string>, helpers: seq<string>)
    requires KnownHelpers(helpers)
    ensures KnownHelpers(InputArguments(inputs, types, helpers).helpers)
    ensures helpers <= InputArguments(inputs, types, helpers).helpers
  {
    if inputs.ListedInputs? {
      ArgCodesHelpers(inputs.parsed, types, helpers);
    }
  }

  /** One example only ever adds known helpers to those in use before it. */
  lemma BodyHelpers(name: string, i: nat, reading: Reading, types: seq<string>, returnType: string,
                    helpers: seq<string>)
    requires KnownHelpers(helpers)
    ensures KnownHelpers(ExampleBody(name, i, reading, types, returnType, helpers).1)
    ensures helpers <= ExampleBody(name, i, reading, types, returnType, helpers).1
  {
    var a := InputArguments(reading.inputs, types, helpers);
    InputArgumentsHelpers(reading.inputs, types, helpers);
    AssertionHelpers(name, i, a, reading.out, returnType);
  }

  /** The assertion line adds at most the helper that reads its result back, which is a known one. */
  lemma AssertionHelpers(name: string, i: nat, a: Arguments, out: Parsed, returnType: string)
    requires KnownHelpers(a.helpers)
    ensures KnownHelpers(Assertion(name, i, a, out, returnType).1)
    ensures a.helpers <= Assertion(name, i, a, out, returnType).1
  {
    if a.Built? && out.ok {
      if IsListNodeType(returnType) {
        AddKnown(a.helpers, "listToArray");
      } else if IsTreeNodeType(returnType) {
        AddKnown(a.helpers, "treeToArray");
      }
    }
  }

  /** Adding a known helper keeps the helpers known, and only appends. */
  lemma AddKnown(helpers: seq<string>, h: string)
    requires KnownHelpers(helpers) && IsHelperName(h)
    ensures KnownHelpers(Add(helpers, h)) && helpers <= Add(helpers, h)
  {
  }

  /** Each example adds a header and one line; the lines of fewer examples come first. */
  lemma {:induction false} LinesGrow(readings: seq<Reading>, body: Body, k: nat, n: nat)
    requires k <= n <= |readings|
    ensures Lines(readings, body, k).0 == Lines(readings, body, n).0[..2 * k]
  {
    if k < n {
      LinesGrow(readings, body, k, n - 1);
      assert Lines(readings, body, n).0[..2 * (n - 1)] == Lines(readings, body, n - 1).0;
    }
  }

  /** `body` only ever adds known helpers to those in use. */
  ghost predicate KeepsKnown(body: Body) {
    forall i, reading, helpers :: KnownHelpers(helpers) ==>
      KnownHelpers(body(i, reading, helpers).1) && helpers <= body(i, reading, helpers).1
  }

  /** The helpers in use only ever grow, and stay known. */
  lemma {:induction false} LinesHelpersGrow(readings: seq<Reading>, body: Body, k: nat, n: nat)
    requires KeepsKnown(body)
    requires k <= n <= |readings|
    ensures KnownHelpers(Lines(readings, body, n).1)
    ensures Lines(readings, body, k).1 <= Lines(readings, body, n).1
  {
    if n > 0 {
      LinesHelpersGrow(readings, body, if k < n then k else n - 1, n - 1);
    } else {
      assert KnownHelpers([]);
    }
  }

  /** Every example only ever adds known helpers. */
  lemma BodyKeepsKnown(name: string, types: seq<string>, returnType: string)
    ensures KeepsKnown(BodyOf(name, types, returnType))
  {
    forall i, reading, helpers | KnownHelpers(helpers)
      ensures KnownHelpers(BodyOf(name, types, returnType)(i, reading, helpers).1)
      ensures helpers <= BodyOf(name, types, returnType)(i, reading, helpers).1
    {
      BodyHelpers(name, i, reading, types, returnType, helpers);
    }
  }

  /** Line `2k` is the header of example `k + 1`, and line `2k + 1` is what `body` gives for that example. */
  lemma LineAt(readings: seq<Reading>, body: Body, k: nat, n: nat)
    requires k < n <= |readings|
    ensures Lines(readings, body, n).0[2 * k] == ExampleHeader(k)
    ensures Lines(readings, body, n).0[2 * k + 1] == body(k, readings[k], Lines(readings, body, k).1).0
  {
    LinesGrow(readings, body, k + 1, n);
    var upTo := Lines(readings, body, k + 1).0;
    assert Lines(readings, body, n).0[2 * k] == upTo[2 * k];
    assert Lines(readings, body, n).0[2 * k + 1] == upTo[2 * k + 1];
  }

  /** `helpersUsed` only ever names helpers that exist, each once. */
  lemma AssertsHelpers(name: Option<string>, examples: seq<seq<string>>, outputs: seq<string>,
                       types: seq<string>, returnType: string, cycle: bool)
    ensures KnownHelpers(AssertsOf(name, examples, outputs, types, returnType, cycle).helpers)
  {
    if name.Some? && name.value != [] {
      var readings := Readings(examples, outputs, types, returnType, cycle);
      BodyKeepsKnown(name.value, types, returnType);
      LinesHelpersGrow(readings, BodyOf(name.value, types, returnType), |readings|, |readings|);
    } else {
      assert KnownHelpers([]);
    }
  }

  /** With a function name and at least one example, the code opens with the header of the first example. */
  lemma AssertsOpenWithFirstExample(name: string, examples: seq<seq<string>>, outputs: seq<string>,
                                    types: seq<string>, returnType: string, cycle: bool)
    requires name != [] && |examples| >= 1 && |outputs| >= 1
    ensures StartsWith(AssertsOf(Some(name), examples, outputs, types, returnType, cycle).code, ExampleHeader(0))
  {
    var readings := Readings(examples, outputs, types, returnType, cycle);
    var lines := Lines(readings, BodyOf(name, types, returnType), |readings|).0;
    LineAt(readings, BodyOf(name, types, returnType), 0, |readings|);
    JoinStartsWithFirst(lines, '\n');
  }

  /** Without any example and output pair, the code is the placeholder comment. */
  lemma NoExamplesPlaceholder(name: string, examples: seq<seq<string>>, outputs: seq<string>,
                              types: seq<string>, returnType: string, cycle: bool)
    requires name != [] && (examples == [] || outputs == [])
    ensures AssertsOf(Some(name), examples, outputs, types, returnType, cycle) == Generated(NoExamplesTodo, [])
  {
  }

  /** The code of each value, in order. */
  function Codes(vs: seq<Value>): (codes: seq<string>)
    ensures |codes| == |vs|
  {
    seq(|vs|, k requires 0 <= k < |vs| => ValueToCode(vs[k]))
  }

  /** A parameter that is neither a linked list nor a tree. */
  predicate PlainType(t: string) {
    !IsListNodeType(t) && !IsTreeNodeType(t)
  }

  /** Plain arguments are passed as their own code, and no helper is added. */
  lemma {:induction false} PlainArgCodes(parsed: seq<Parsed>, types: seq<string>, helpers: seq<string>)
    requires forall k :: 0 <= k < |parsed| ==> PlainType(TypeAt(types, k))
    ensures ArgCodes(parsed, types, helpers).1 == helpers
    ensures forall k :: 0 <= k < |parsed| ==> ArgCodes(parsed, types, helpers).0[k] == Some(ValueToCode(parsed[k].value))
  {
    if parsed != [] {
      var n := |parsed| - 1;
      PlainArgCodes(parsed[..n], types, helpers);
      PlainArgCode(parsed[n].value, TypeAt(types, n), helpers);
    }
  }

  /** A plain argument is passed as its own code, and no helper is added. */
  lemma PlainArgCode(v: Value, t: string, helpers: seq<string>)
    requires PlainType(t)
    ensures ArgCode(v, t, helpers) == (Some(ValueToCode(v)), helpers)
  {
  }

  /** Inputs written as the code of their values are read back as those values. */
  lemma ReadCodes(vs: seq<Value>, types: seq<string>)
    ensures ParseInputs(Codes(vs), types) == seq(|vs|, k requires 0 <= k < |vs| => Parsed(true, vs[k]))
  {
    forall k | 0 <= k < |vs|
      ensures ParseInputs(Codes(vs), types)[k] == Parsed(true, vs[k])
    {
      ParseOfCode(vs[k], TypeAt(types, k));
    }
  }

  /** Plain values, read, are passed on as their own code. */
  lemma PlainArguments(vs: seq<Value>, types: seq<string>, helpers: seq<string>)
    requires forall k :: 0 <= k < |vs| ==> PlainType(TypeAt(types, k))
    ensures MappedArguments(seq(|vs|, k requires 0 <= k < |vs| => Parsed(true, vs[k])), types, helpers)
         == Built(Codes(vs), helpers)
  {
    var parsed := seq(|vs|, k requires 0 <= k < |vs| => Parsed(true, vs[k]));
    PlainArgCodes(parsed, types, helpers);
    var args := ArgCodes(parsed, types, helpers).0;
    assert Unwrapped(args) == Codes(vs);
  }

  /**
   * An example written as the code of its values, for plain parameter and
   * return types, becomes one assertion that calls the function on exactly
   * that code and expects the output's code.
   */
  lemma PlainExample(name: string, i: nat, vs: seq<Value>, w: Value, types: seq<string>,
                     returnType: string, cycle: bool, helpers: seq<string>)
    requires !CycleCall(cycle, types) && PlainType(returnType)
    requires forall k :: 0 <= k < |vs| ==> PlainType(TypeAt(types, k))
    ensures ExampleBody(name, i, ReadExample(Codes(vs), ValueToCode(w), types, returnType, cycle), types, returnType, helpers)
         == (AssertLine(AssertMethod(w), name + "(" + JoinWith(Codes(vs), ", ") + ")", ValueToCode(w)), helpers)
  {
    var reading := ReadExample(Codes(vs), ValueToCode(w), types, returnType, cycle);
    PlainReading(vs, w, types, returnType, cycle);
    PlainArguments(vs, types, helpers);
    PlainAssertion(name, i, Codes(vs), w, returnType, helpers);
  }

  /** Codes of values, read back for a call without a cycle, give those values. */
  lemma PlainReading(vs: seq<Value>, w: Value, types: seq<string>, returnType: string, cycle: bool)
    requires !CycleCall(cycle, types)
    ensures ReadExample(Codes(vs), ValueToCode(w), types, returnType, cycle)
         == Reading(ListedInputs(seq(|vs|, k requires 0 <= k < |vs| => Parsed(true, vs[k]))), Parsed(true, w))
  {
    ReadCodes(vs, types);
    ParseOfCode(w, returnType);
  }

  /** Built arguments and a read output of a plain type make one assertion on the output's code. */
  lemma PlainAssertion(name: string, i: nat, args: seq<string>, w: Value, returnType: string, helpers: seq<string>)
    requires PlainType(returnType)
    ensures Assertion(name, i, Built(args, helpers), Parsed(true, w), returnType)
         == (AssertLine(AssertMethod(w), name + "(" + JoinWith(args, ", ") + ")", ValueToCode(w)), helpers)
  {
  }

  /** A `null` expected list is compared, after `listToArray`, with an empty array. */
  lemma NullListOutput(name: string, i: nat, args: seq<string>, used: seq<string>, returnType: string)
    requires IsListNodeType(returnType)
    ensures Assertion(name, i, Built(args, used), ParseValue("null", returnType), returnType)
         == (AssertLine("deepStrictEqual", "listToArray(" + (name + "(" + JoinWith(args, ", ") + ")") + ")", "[]"),
             Add(used, "listToArray"))
  {
    ParseOfCode(Null, returnType);
    assert ValueToCode(Arr([])) == "[]";
  }

  /** A list with a cycle position is built by one call that takes both texts' values. */
  lemma CycleCallArguments(raw: seq<string>, items: seq<Value>, pos: Number, types: seq<string>, helpers: seq<string>)
    requires CycleCall(true, types)
    requires |raw| >= 2 && raw[0] == ValueToCode(Arr(items)) && raw[1] == NumberText(pos)
    ensures ExampleArguments(raw, types, true, helpers)
         == Built(["buildListWithCycle(" + raw[0] + ", " + raw[1] + ")"], Add(helpers, "buildListWithCycle"))
  {
    assert RawAt(raw, 0) == ValueToCode(Arr(items)) && RawAt(raw, 1) == ValueToCode(Num(pos));
    ParseOfCode(Arr(items), types[0]);
    ParseOfCode(Num(pos), "number");
    assert ReadInputs(raw, types, true) == CycleInputs(Parsed(true, Arr(items)), Parsed(true, Num(pos)));
  }

  /** One more argument is mapped after those before it. */
  lemma ArgCodesSnoc(parsed: seq<Parsed>, p: Parsed, types: seq<string>, helpers: seq<string>)
    ensures ArgCodes(parsed + [p], types, helpers)
         == (ArgCodes(parsed, types, helpers).0 + [ArgCode(p.value, TypeAt(types, |parsed|), ArgCodes(parsed, types, helpers).1).0],
             ArgCode(p.value, TypeAt(types, |parsed|), ArgCodes(parsed, types, helpers).1).1)
  {
    assert (parsed + [p])[..|parsed|] == parsed;
  }

  /** A list argument that is not an array stops the example after `buildList` was added for an earlier one. */
  lemma UnmappedListArgument(items: seq<Value>, n: Number, t0: string, t1: string, helpers: seq<string>)
    requires IsListNodeType(t0) && IsListNodeType(t1)
    ensures MappedArguments([Parsed(true, Arr(items)), Parsed(true, Num(n))], [t0, t1], helpers)
         == Unbuilt(Add(helpers, "buildList"))
  {
    var a := Parsed(true, Arr(items));
    var b := Parsed(true, Num(n));
    ArgCodesSnoc([], a, [t0, t1], helpers);
    assert [] + [a] == [a];
    var first := ArgCodes([a], [t0, t1], helpers);
    assert first.1 == Add(helpers, "buildList");
    ArgCodesSnoc([a], b, [t0, t1], helpers);
    assert [a] + [b] == [a, b];
    var all := ArgCodes([a, b], [t0, t1], helpers);
    assert all.0[1] == None;
  }

  /**
   * An example whose second list argument is not an array is skipped, yet
   * `buildList`, added while mapping the first argument, stays in use.
   */
  lemma SkippedExampleKeepsHelper(items: seq<Value>, n: Number, t0: string, t1: string, helpers: seq<string>)
    requires IsListNodeType(t0) && IsListNodeType(t1)
    ensures ExampleArguments([ValueToCode(Arr(items)), ValueToCode(Num(n))], [t0, t1], false, helpers)
         == Unbuilt(Add(helpers, "buildList"))
  {
    var raw := [ValueToCode(Arr(items)), ValueToCode(Num(n))];
    var parsed := [Parsed(true, Arr(items)), Parsed(true, Num(n))];
    ParsePair(Arr(items), Num(n), t0, t1);
    assert ReadInputs(raw, [t0, t1], false) == ListedInputs(parsed);
    UnmappedListArgument(items, n, t0, t1, helpers);
  }

  /** Two values written as code read back as themselves, whatever the parameter types. */
  lemma ParsePair(a: Value, b: Value, t0: string, t1: string)
    ensures ParseInputs([ValueToCode(a), ValueToCode(b)], [t0, t1]) == [Parsed(true, a), Parsed(true, b)]
  {
    ParseOfCode(a, t0);
    ParseOfCode(b, t1);
    ParseInputsPair(ValueToCode(a), ValueToCode(b), t0, t1);
  }

  /** `ParseInputs` on two texts reads each with its own parameter's type. */
  lemma ParseInputsPair(r0: string, r1: string, t0: string, t1: string)
    ensures ParseInputs([r0, r1], [t0, t1]) == [ParseValue(r0, t0), ParseValue(r1, t1)]
  {
    var parsed := ParseInputs([r0, r1], [t0, t1]);
    assert TypeAt([t0, t1], 0) == t0 && TypeAt([t0, t1], 1) == t1;
    assert parsed[0] == ParseValue(r0, t0) && parsed[1] == ParseValue(r1, t1);
  }

  // ---------------------------------------------------------------------------
  // Calls of helpers in the generated code

  /** `s` opens with a call of `f`. */
  predicate OpensCall(s: string, f: string) {
    StartsWith(s, f + "(")
  }

  /** The value an assertion line checks is a call of `f`. */
  predicate AssertsOnCall(line: string, f: string) {
    OpensCall(line, "assert.strictEqual(" + f) || OpensCall(line, "assert.deepStrictEqual(" + f)
  }

  /** Two names without parentheses that open the same text before a `(` are the same name. */
  lemma SameCallee(a: string, b: string, x: string, y: string)
    requires '(' !in a && '(' !in b
    requires StartsWith(a + "(" + x, b + "(" + y)
    ensures a == b && StartsWith(x, y)
  {
    var s, p := a + "(" + x, b + "(" + y;
    assert forall j :: 0 <= j < |p| ==> s[j] == p[j] by {
      assert s[..|p|] == p;
    }
    FirstParen(a, x);
    FirstParen(b, y);
    if |a| != |b| {
      assert false;
    } else {
      assert a == s[..|a|] == p[..|a|] == b;
      assert x[..|y|] == s[|a| + 1..|p|] == p[|a| + 1..] == y;
    }
  }

  /** The first `(` of `a + "(" + x` is the one after `a`. */
  lemma FirstParen(a: string, x: string)
    requires '(' !in a
    ensures (a + "(" + x)[|a|] == '('
    ensures forall j :: 0 <= j < |a| ==> (a + "(" + x)[j] != '('
  {
    forall j | 0 <= j < |a|
      ensures (a + "(" + x)[j] != '('
    {
      assert (a + "(" + x)[j] == a[j];
    }
  }

  /** A call of a name without parentheses opens with a call of no other name. */
  lemma CalleeOf(a: string, x: string, h: string)
    requires '(' !in a && '(' !in h && OpensCall(a + "(" + x, h)
    ensures a == h
  {
    assert h + "(" == h + "(" + [];
    SameCallee(a, h, x, []);
  }

  lemma InPrefix(h: string, xs: seq<string>, ys: seq<string>)
    requires h in xs && xs <= ys
    ensures h in ys
  {
    var k :| 0 <= k < |xs| && xs[k] == h;
    assert ys[k] == h;
  }

  /** No value's code opens with a call: it is a keyword, a number, a string or an array. */
  lemma CodeCallsNothing(v: Value, h: string)
    requires IsHelperName(h)
    ensures !OpensCall(ValueToCode(v), h)
  {
  }

  /** An argument that opens with a call of a helper was built by it, and the helper is in use. */
  lemma ArgCodeCalls(v: Value, t: string, helpers: seq<string>, h: string)
    requires IsHelperName(h)
    ensures var r := ArgCode(v, t, helpers);
      helpers <= r.1 && (r.0.Some? && OpensCall(r.0.value, h) ==> h in r.1)
  {
    var r := ArgCode(v, t, helpers);
    if IsListNodeType(t) && v.Arr? {
      BuilderCalls("buildList(", ValueToCode(v), h);
      assert "buildList("[..9] == "buildList";
    } else if IsTreeNodeType(t) && v.Arr? {
      BuilderCalls("buildTree(", ValueToCode(v), h);
      assert "buildTree("[..9] == "buildTree";
    } else if !PlainType(t) && v.Null? {
      assert r.0 == Some("null") && OpensCall("null", h) ==> |h| < 4;
    } else {
      CodeCallsNothing(v, h);
    }
  }

  /** `buildList(x)` or `buildTree(x)` opens with a call of that builder and of no other helper. */
  lemma BuilderCalls(opening: string, x: string, h: string)
    requires opening == "buildList(" || opening == "buildTree("
    requires IsHelperName(h)
    ensures OpensCall(opening + x + ")", h) ==> h == opening[..|opening| - 1]
  {
    var builder := opening[..|opening| - 1];
    assert opening + x + ")" == builder + "(" + (x + ")");
    if OpensCall(opening + x + ")", h) {
      CalleeOf(builder, x + ")", h);
    }
  }

  /** Every mapped argument that opens with a call of a helper has that helper in use. */
  lemma {:induction false} ArgCodesCalls(parsed: seq<Parsed>, types: seq<string>, helpers: seq<string>, h: string)
    requires IsHelperName(h)
    ensures var r := ArgCodes(parsed, types, helpers);
      helpers <= r.1 && forall k :: 0 <= k < |parsed| && r.0[k].Some? && OpensCall(r.0[k].value, h) ==> h in r.1
  {
    if parsed != [] {
      var n := |parsed| - 1;
      var init := ArgCodes(parsed[..n], types, helpers);
      ArgCodesCalls(parsed[..n], types, helpers, h);
      var last := ArgCode(parsed[n].value, TypeAt(types, n), init.1);
      ArgCodeCalls(parsed[n].value, TypeAt(types, n), init.1, h);
      var r := ArgCodes(parsed, types, helpers);
      assert r == (init.0 + [last.0], last.1);
      forall k | 0 <= k < n && r.0[k].Some? && OpensCall(r.0[k].value, h)
        ensures h in r.1
      {
        assert r.0[k] == init.0[k];
        InPrefix(h, init.1, last.1);
      }
    }
  }

  /** Every built argument that opens with a call of a helper has that helper in use. */
  lemma ArgumentsCalls(inputs: Inputs, types: seq<string>, helpers: seq<string>, h: string)
    requires IsHelperName(h)
    ensures var a := InputArguments(inputs, types, helpers);
      a.Built? ==> forall k :: 0 <= k < |a.args| && OpensCall(a.args[k], h) ==> h in a.helpers
  {
    match inputs
    case CycleInputs(list, pos) =>
      CycleArgumentsCalls(list, pos, helpers, h);
    case ListedInputs(parsed) =>
      MappedArgumentsCalls(parsed, types, helpers, h);
  }

  lemma CycleArgumentsCalls(list: Parsed, pos: Parsed, helpers: seq<string>, h: string)
    requires IsHelperName(h)
    ensures var a := CycleArguments(list, pos, helpers);
      a.Built? ==> forall k :: 0 <= k < |a.args| && OpensCall(a.args[k], h) ==> h in a.helpers
  {
    if CycleArguments(list, pos, helpers).Built? {
      CycleBuilderCalls(ValueToCode(list.value), NumberText(pos.value.n), h);
    }
  }

  /** `buildListWithCycle(x, y)` opens with a call of `buildListWithCycle` and of no other helper. */
  lemma CycleBuilderCalls(x: string, y: string, h: string)
    requires IsHelperName(h)
    ensures OpensCall("buildListWithCycle(" + x + ", " + y + ")", h) ==> h == "buildListWithCycle"
  {
    assert "buildListWithCycle(" + x + ", " + y + ")" == "buildListWithCycle" + "(" + (x + ", " + y + ")");
    if OpensCall("buildListWithCycle(" + x + ", " + y + ")", h) {
      CalleeOf("buildListWithCycle", x + ", " + y + ")", h);
    }
  }

  lemma MappedArgumentsCalls(parsed: seq<Parsed>, types: seq<string>, helpers: seq<string>, h: string)
    requires IsHelperName(h)
    ensures var a := MappedArguments(parsed, types, helpers);
      a.Built? ==> forall k :: 0 <= k < |a.args| && OpensCall(a.args[k], h) ==> h in a.helpers
  {
    ArgCodesCalls(parsed, types, helpers, h);
  }

  /** The value an assertion line checks is what opens the text after `assert.<check>(`. */
  lemma CheckedValue(check: string, actual: string, expected: string, h: string)
    requires check == "strictEqual" || check == "deepStrictEqual"
    requires AssertsOnCall(AssertLine(check, actual, expected), h)
    ensures OpensCall(actual + ", " + expected + ");", h)
  {
    var tail := actual + ", " + expected + ");";
    var pre := "assert." + check + "(";
    var y := h + "(";
    LineParts(check, actual, expected);
    ChecksDiffer(tail, y);
    assert "assert.strictEqual(" + h + "(" == "assert.strictEqual(" + y;
    assert "assert.deepStrictEqual(" + h + "(" == "assert.deepStrictEqual(" + y;
    AfterPrefix(pre, tail, y);
  }

  /** An assertion line is its opening, `assert.<check>(`, and what follows. */
  lemma LineParts(check: string, actual: string, expected: string)
    requires check == "strictEqual" || check == "deepStrictEqual"
    ensures AssertLine(check, actual, expected) == ("assert." + check + "(") + (actual + ", " + expected + ");")
    ensures "assert." + check + "(" == if check == "strictEqual" then "assert.strictEqual(" else "assert.deepStrictEqual("
  {
  }

  /** A text that opens with one of the two assertions does not open with the other. */
  lemma ChecksDiffer(t: string, y: string)
    ensures !StartsWith("assert.strictEqual(" + t, "assert.deepStrictEqual(" + y)
    ensures !StartsWith("assert.deepStrictEqual(" + t, "assert.strictEqual(" + y)
  {
    var strict, deep := "assert.strictEqual(" + t, "assert.deepStrictEqual(" + y;
    assert strict[7] == 's' && deep[7] == 'd';
    var strict', deep' := "assert.strictEqual(" + y, "assert.deepStrictEqual(" + t;
    assert strict'[7] == 's' && deep'[7] == 'd';
  }

  /** What follows a common prefix. */
  lemma AfterPrefix(pre: string, tail: string, y: string)
    requires StartsWith(pre + tail, pre + y)
    ensures StartsWith(tail, y)
  {
    assert tail[..|y|] == (pre + tail)[..|pre + y|][|pre|..];
  }

  /**
   * An assertion whose checked value is a call of a helper wraps the call in
   * that helper, which is then in use; the helpers of its arguments stay in use.
   */
  lemma AssertionCalls(name: string, i: nat, a: Arguments, out: Parsed, returnType: string, h: string)
    requires '(' !in name && IsHelperName(h)
    ensures var r := Assertion(name, i, a, out, returnType);
      a.helpers <= r.1 && (h != name && AssertsOnCall(r.0, h) ==> h in r.1)
  {
    if a.Built? && out.ok {
      var call := name + "(" + JoinWith(a.args, ", ") + ")";
      if IsListNodeType(returnType) {
        var expected := ValueToCode(EmptyIfNull(out.value));
        ReaderCalls("listToArray(", call, expected, h);
        assert "listToArray("[..11] == "listToArray";
      } else if IsTreeNodeType(returnType) {
        var expected := ValueToCode(EmptyIfNull(out.value));
        ReaderCalls("treeToArray(", call, expected, h);
        assert "treeToArray("[..11] == "treeToArray";
      } else if h != name {
        PlainCallCalls(name, a.args, AssertMethod(out.value), ValueToCode(out.value), h);
      }
    } else {
      TodoCallsNothing(Assertion(name, i, a, out, returnType).0, i, h);
    }
  }

  /** A placeholder comment asserts nothing. */
  lemma TodoCallsNothing(line: string, i: nat, h: string)
    requires line == InputTodo(i) || line == OutputTodo(i)
    ensures !AssertsOnCall(line, h)
  {
    assert line[0] == '/';
  }

  /** An assertion on `reader(call)` checks a call of `reader` and of no other helper. */
  lemma ReaderCalls(opening: string, call: string, expected: string, h: string)
    requires opening == "listToArray(" || opening == "treeToArray("
    requires IsHelperName(h)
    ensures AssertsOnCall(AssertLine("deepStrictEqual", opening + call + ")", expected), h) ==> h == opening[..|opening| - 1]
  {
    var reader := opening[..|opening| - 1];
    var rest := call + ")" + ", " + expected + ");";
    assert opening + call + ")" + ", " + expected + ");" == reader + "(" + rest;
    if AssertsOnCall(AssertLine("deepStrictEqual", opening + call + ")", expected), h) {
      CheckedValue("deepStrictEqual", opening + call + ")", expected, h);
      CalleeOf(reader, rest, h);
    }
  }

  /** An assertion on the bare call of the function checks a call of no helper named otherwise. */
  lemma PlainCallCalls(name: string, args: seq<string>, check: string, expected: string, h: string)
    requires check == "strictEqual" || check == "deepStrictEqual"
    requires '(' !in name && IsHelperName(h) && h != name
    ensures !AssertsOnCall(AssertLine(check, name + "(" + JoinWith(args, ", ") + ")", expected), h)
  {
    var call := name + "(" + JoinWith(args, ", ") + ")";
    var rest := JoinWith(args, ", ") + ")" + ", " + expected + ");";
    assert call + ", " + expected + ");" == name + "(" + rest;
    if AssertsOnCall(AssertLine(check, call, expected), h) {
      CheckedValue(check, call, expected, h);
      CalleeOf(name, rest, h);
    }
  }

  /**
   * Every helper one example calls is in use after it: the one wrapping the
   * checked call, and the one building each argument.
   */
  lemma ExampleCalls(name: string, i: nat, reading: Reading, types: seq<string>, returnType: string,
                     helpers: seq<string>, h: string)
    requires '(' !in name && IsHelperName(h)
    ensures var a := InputArguments(reading.inputs, types, helpers);
      var r := ExampleBody(name, i, reading, types, returnType, helpers);
      (h != name && AssertsOnCall(r.0, h) ==> h in r.1) &&
      (a.Built? ==> forall k :: 0 <= k < |a.args| && OpensCall(a.args[k], h) ==> h in r.1)
  {
    var a := InputArguments(reading.inputs, types, helpers);
    var r := ExampleBody(name, i, reading, types, returnType, helpers);
    ArgumentsCalls(reading.inputs, types, helpers, h);
    AssertionCalls(name, i, a, reading.out, returnType, h);
    if a.Built? && h in a.helpers {
      InPrefix(h, a.helpers, r.1);
    }
  }

  /**
   * `helpersUsed` names every helper the generated code calls: for each
   * example, the helper wrapping the checked call on the line after its
   * header, and the helper building each of its arguments.
   */
  lemma CalledHelpersUsed(name: string, examples: seq<seq<string>>, outputs: seq<string>, types: seq<string>,
                          returnType: string, cycle: bool, k: nat, h: string)
    requires name != [] && '(' !in name && IsHelperName(h)
    requires k < Min(|examples|, |outputs|)
    ensures var readings := Readings(examples, outputs, types, returnType, cycle);
      var body := BodyOf(name, types, returnType);
      var a := InputArguments(readings[k].inputs, types, Lines(readings, body, k).1);
      var used := AssertsOf(Some(name), examples, outputs, types, returnType, cycle).helpers;
      (h != name && AssertsOnCall(Lines(readings, body, |readings|).0[2 * k + 1], h) ==> h in used) &&
      (a.Built? ==> forall j :: 0 <= j < |a.args| && OpensCall(a.args[j], h) ==> h in used)
  {
    var readings := Readings(examples, outputs, types, returnType, cycle);
    var body := BodyOf(name, types, returnType);
    var before := Lines(readings, body, k).1;
    var after := ExampleBody(name, k, readings[k], types, returnType, before).1;
    var used := Lines(readings, body, |readings|).1;
    LineAt(readings, body, k, |readings|);
    ExampleCalls(name, k, readings[k], types, returnType, before, h);
    BodyKeepsKnown(name, types, returnType);
    LinesHelpersGrow(readings, body, k + 1, |readings|);
    assert Lines(readings, body, k + 1).1 == after;
    if h in after {
      InPrefix(h, after, used);
    }
  }

  /**
   * `helpersUsed` follows the calls the code makes, not the text it holds: a
   * string argument that reads `buildTree(` is written into the line, and no
   * helper is put in use.
   */
  lemma StringMentionsHelper(name: string, i: nat, s: string, types: seq<string>, returnType: string)
    requires s == "buildTree(" && types == ["string"] && returnType == "boolean"
    ensures var r := ExampleBody(name, i, ReadExample([ValueToCode(Str(s))], ValueToCode(Bool(true)), types, returnType, false),
                                 types, returnType, []);
      Contains(r.0, s) && r.1 == []
  {
    assert NeedsNoEscape(s);
    assert PlainType(types[0]) && PlainType(returnType);
    StringArgumentWritten(name, i, s, Bool(true), types, returnType, []);
  }

  /** A string argument with nothing to escape appears, as it is, in the line of its example. */
  lemma StringArgumentWritten(name: string, i: nat, s: string, w: Value, types: seq<string>, returnType: string,
                              helpers: seq<string>)
    requires NeedsNoEscape(s) && |types| == 1 && PlainType(types[0]) && PlainType(returnType)
    ensures var r := ExampleBody(name, i, ReadExample([ValueToCode(Str(s))], ValueToCode(w), types, returnType, false),
                                 types, returnType, helpers);
      Contains(r.0, s) && r.1 == helpers
  {
    assert Codes([Str(s)]) == [ValueToCode(Str(s))];
    PlainExample(name, i, [Str(s)], w, types, returnType, false, helpers);
    QuotedArgumentOccurs(AssertMethod(w), name, s, ValueToCode(w));
  }

  lemma QuotedArgumentOccurs(check: string, name: string, s: string, expected: string)
    requires NeedsNoEscape(s)
    ensures Contains(AssertLine(check, name + "(" + JoinWith([ValueToCode(Str(s))], ", ") + ")", expected), s)
  {
    PlainTextUnescaped(s);
    assert JoinWith([ValueToCode(Str(s))], ", ") == "\"" + s + "\"";
    var before := "assert." + check + "(" + name + "(" + "\"";
    var after := "\"" + ")" + ", " + expected + ");";
    var line := AssertLine(check, name + "(" + JoinWith([ValueToCode(Str(s))], ", ") + ")", expected);
    assert line == before + s + after;
    assert OccursAt(line, s, |before|) by {
      assert (before + s + after)[|before|..|before| + |s|] == s;
    }
  }
}
