# A verified model of a LeetCode practice template's scaffold generator, helpers and test runner

The repository is a TypeScript template for solving LeetCode problems locally.
This project models its three core pieces in Dafny and proves properties of them.

- **The scaffold generator** (`tools/new-problem.ts`). It turns a fetched problem into a TypeScript file in five steps:
  - the problem statement becomes a plain-text doc comment (`htmlToText`, `stripTags`, `decodeHtml`, `formatJSDoc`);
  - the function name and parameter count are read from the TypeScript snippet (`pickFunctionName`, `getFunctionParamCount`, `includesTypeName`);
  - the example test cases are cut into groups, one per example (`chunk`);
  - the expected outputs are read out of the `<pre>` blocks (`extractOutputs`);
  - each example becomes one `assert` line (`parseValue`, `valueToCode`, `generateAsserts`), and the file is assembled from the comment, the import lines, the snippet and the asserts (the pure part of `main`).

  Command-line options are read by `parseArgs`.
- **The data-structure helpers** (`tools/leetcode-helpers.ts`). These are the `ListNode` and `TreeNode` classes and their builders and readers:
  - `buildList`, `buildListWithCycle` and `listToArray`;
  - `buildTree` and `treeToArray`.

  They are modelled as Dafny classes on the heap. Each builder is proved to make fresh nodes of the described shape. Each reader is proved to give the values back, so the round trips are proved too.
- **The test runner** (`setup.ts`). This covers:
  - the shared `RunnerState` tally;
  - the wrappers that `patchAssert` puts around `assert.strictEqual` and `assert.deepStrictEqual`;
  - the summary status printed once by `printSummary`;
  - the error hooks;
  - `getSourceLine`.

Regular expressions are modelled one by one:
- `Html.Pattern` covers the HTML passes;
- `Patterns.Pattern` covers the snippet patterns, as a fragment of regular expressions matched greedily, and proved to match as a backtracking engine does on the patterns used;
- `Outputs` covers the `Output:` capture, including the case where the greedy `\s*` gives back characters.

JavaScript values are `Values.Value`: `null`, booleans, finite decimal numbers, strings and arrays. JSON text is read by a parser (`Json`) and written by `ValueToCode`, and each is proved to be the inverse of the other.

Behaviour of the code worth noting:
- `valueToCode` writes a string parsed from `'abc'` as `"abc"`, with double quotes; it does not write the original text back (`Literals.SingleQuotesBecomeDouble`).
- A number such as `2.00000` comes back as `2` (`Literals.TrailingZerosDropped`).
- `treeToArray` has no guard against cycles, so only finite trees are modelled.
- `getSourceLine` returns the second trimmed line of the stack even when it is empty (`??` keeps `""`).
- `helpersUsed` can name a helper that only a skipped example needed (`Asserts.SkippedExampleKeepsHelper`).
- `pickFunctionName` tries `function NAME(` first, then `const NAME = function(`, then `const NAME = (`.
- `generateAsserts` has no branch for functions that return nothing or change their argument in place.
- `extractOutputs` reads only the `Output:` line of each example; `Input:` and `Explanation:` lines are not read.
- `formatJSDoc` does not wrap long lines.

## Model

| member | source | states |
|---|---|---|
| Strings.Trim | tools/new-problem.ts:168 | `trim()`: the result has no white space (the `\s` set) at either end and is no longer than the input |
| Strings.TrimIdempotent | tools/new-problem.ts:168 | trimming twice is trimming once |
| Strings.TrimIsInfix | tools/new-problem.ts:168 | the trimmed text is a contiguous part of the input |
| Strings.TrimEnd | tools/new-problem.ts:54 | `replace(/\s+$/, "")`: the result is a prefix of the line, and only white space was removed |
| Strings.Split | tools/new-problem.ts:53 | `split("\n")`: at least one piece, and no piece holds the separator |
| Strings.JoinSplit | tools/new-problem.ts:52-56 | joining the pieces of a split with the same separator gives the text back |
| Strings.SplitJoin | tools/new-problem.ts:381-385 | splitting pieces that were joined, none holding the separator, gives the pieces back |
| Strings.NatText | tools/new-problem.ts:296 | `String(i + 1)`: decimal digits without a leading zero |
| Strings.DigitsOfNatText | tools/new-problem.ts:296 | the digits written for a natural number denote it |
| Numbers.Normalize | tools/new-problem.ts:179-180 | `Number(text)` keeps no trailing fraction zero: `m / 10^k` is written in its shortest form with the same value |
| Numbers.NumberText | tools/new-problem.ts:204 | `String(n)`: an optional minus sign, then digits, ending in a digit |
| Numbers.DigitsOfNumber | tools/new-problem.ts:204 | the digits `String(n)` writes denote the magnitude of `n` |
| Numbers.DecimalOfNumber | tools/new-problem.ts:179-180 | reading the whole and fraction digits of `String(n)` gives back the magnitude of `n` |
| Numbers.NegatedMagnitude | tools/new-problem.ts:179-180 | negating the magnitude of a negative number gives it back |
| Values.EscapeChar | tools/new-problem.ts:202 | `JSON.stringify` writes every character of a string as at least one character |
| Values.ValueToCode | tools/new-problem.ts:201-206 | `valueToCode`: non-empty code with no white space at either end, starting with a character that can start a value |
| Values.ItemsToCode | tools/new-problem.ts:205 | the elements of an array are written starting with the first element's code |
| Values.PlainTextUnescaped | tools/new-problem.ts:202 | `JSON.stringify` writes a text without control characters, quotes or backslashes unchanged between its quotes |
| Json.ParseString | tools/new-problem.ts:187 | the string-literal reader of `JSON.parse` always consumes input |
| Json.ParseNumber | tools/new-problem.ts:187 | the number reader of `JSON.parse` always consumes input |
| Json.ParseValueAt | tools/new-problem.ts:187 | the value reader of `JSON.parse` always consumes input |
| Json.ParseElements | tools/new-problem.ts:187 | the array-element reader of `JSON.parse` always consumes input |
| Json.ParseQuoted | tools/new-problem.ts:187-202 | a string escaped as `JSON.stringify` does is read back up to its closing quote |
| Json.NumberRoundTrip | tools/new-problem.ts:187-204 | `JSON.parse` reads `String(n)` back as `n` |
| Json.NegativeRoundTrip | tools/new-problem.ts:187-204 | `JSON.parse` reads `String(n)` of a negative `n` back as `n`, through its minus sign |
| Json.StringRoundTrip | tools/new-problem.ts:187-202 | `JSON.parse` reads `JSON.stringify(s)` back as `s` |
| Json.KeywordRoundTrip | tools/new-problem.ts:187-204 | `null`, `true` and `false` are read back as themselves |
| Json.ValueRoundTrip | tools/new-problem.ts:187-206 | `JSON.parse` reads the code of any value back as that value, whatever separator follows |
| Json.ArrayRoundTrip | tools/new-problem.ts:187-205 | the code of an array is read back as that array |
| Json.ItemsRoundTrip | tools/new-problem.ts:187-205 | the elements of an array, written and then read, are appended to those already read |
| Json.ParseOfStringify | tools/new-problem.ts:187-206 | `JSON.parse(valueToCode(v))` is `v` for every value |
| Literals.UnescapeQuotes | tools/new-problem.ts:176 | `replace(/\\'/g, "'")` never lengthens the text |
| Literals.EscapeQuotes | tools/new-problem.ts:176 | not a function of the source: the inverse partner of `UnescapeQuotes` (the `replace(/\\'/g, "'")`), with `QuotesRoundTrip` proving that unescaping an escaped text gives it back; escaping never shortens the text |
| Literals.QuotesRoundTrip | tools/new-problem.ts:176 | unescaping an escaped text gives it back |
| Literals.PlainTextKept | tools/new-problem.ts:176 | a text without a backslash is left as it is by the unescaping |
| Literals.ParseValue | tools/new-problem.ts:167-199 | `parseValue`: a failure carries `null`, and a success needs a non-blank input |
| Literals.ParseIgnoresSpace | tools/new-problem.ts:168 | white space around the input does not change what is read |
| Literals.StringTypeAcceptsText | tools/new-problem.ts:194-196 | under an expected type that mentions `string`, every non-blank text is accepted |
| Literals.FallbackBranch | tools/new-problem.ts:194-198 | a non-blank text that is no keyword, no `'…'` string, no decimal number and no JSON literal reads as that text when the expected type mentions `string`, and fails otherwise |
| Literals.QuotedBranch | tools/new-problem.ts:175-177 | a single-quoted text is read as the unescaped text between its quotes |
| Literals.SingleQuotedRoundTrip | tools/new-problem.ts:175-177 | a single-quoted, escaped string is read as that string |
| Literals.NumberBranch | tools/new-problem.ts:179-181 | a decimal literal is read as its number |
| Literals.DecimalOfNumberText | tools/new-problem.ts:179-204 | the number regex and `Number` read `String(n)` back as `n` |
| Literals.NormalizeShifted | tools/new-problem.ts:179-180 | a whole number followed by `k` fraction zeros has the shortest form of that whole number |
| Literals.ZeroFractionDropped | tools/new-problem.ts:179-180 | the number regex and `Number` read `w.000` (one or more zeros) as the whole number `w` |
| Literals.ParseOfCode | tools/new-problem.ts:167-206 | `parseValue(valueToCode(v))` succeeds with `v` for every value, whatever the expected type |
| Literals.TrailingZerosDropped | tools/new-problem.ts:179-204 | `2.00000` is read as 2 and written as `2` |
| Literals.SingleQuotesBecomeDouble | tools/new-problem.ts:175-202 | `'abc'` is read as the string `abc` and written as `"abc"` |
| Literals.TextRoundTrip | tools/new-problem.ts:167-206 | a text is written back unchanged after being read exactly when it is what `valueToCode` writes for some value |
| Literals.NegativeZeroDropped | tools/new-problem.ts:178-204 | `-0` is read as the number 0 and written as `0`, not as the text read |
| Literals.LeadingZerosDropped | tools/new-problem.ts:178-204 | `007` is read as 7 and written as `7`, without its leading zeros |
| Literals.WholeLiteral | tools/new-problem.ts:178-179 | a run of digits, with or without a leading minus sign, is read by the number regex and `Number` as that whole number |
| Patterns.MatchFrom | tools/new-problem.ts:208-219 | a match of the remaining tokens ends inside the text and yields one capture per capturing token |
| Patterns.FirstMatch | tools/new-problem.ts:214 | `match` finds the leftmost position where the pattern matches, and none before it |
| Patterns.Search | tools/new-problem.ts:214 | the captures of a match are as many as the pattern's capturing groups |
| Patterns.SearchAtStart | tools/new-problem.ts:214 | a match at the start of the text is the one `match` reports |
| Patterns.BacktrackIsGreedy | tools/new-problem.ts:214 | on a deterministic pattern, the greedy matcher and a backtracking matcher that gives back run characters one at a time agree from every token and position |
| Signature.PickFunctionName | tools/new-problem.ts:208-219 | `pickFunctionName`: the loop returns the first capture of the first of the three patterns that matches |
| Signature.DeclaredName | tools/new-problem.ts:210 | a snippet that opens `function NAME(` has `NAME` picked |
| Signature.FunctionDeclDeterministic | tools/new-problem.ts:210 | `function\s+(\w+)\s*\(` is deterministic, so from every start the greedy match equals the backtracking match: same captures, same end, same failures |
| Signature.FunctionExprDeterministic | tools/new-problem.ts:211 | the same for `const\s+(\w+)\s*=\s*function\s*\(` |
| Signature.ArrowFunctionDeterministic | tools/new-problem.ts:212 | the same for `const\s+(\w+)\s*=\s*\(` |
| Signature.ParamPatternsDeterministic | tools/new-problem.ts:256-260 | the same for the three parameter-list patterns built around an identifier, which is every name `pickFunctionName` can return (`Signature.NameIsIdentifier`) |
| Signature.CaptureIsWord | tools/new-problem.ts:209-213 | a pattern whose capturing groups are all `[A-Za-z0-9_]+` captures only non-empty runs of word characters |
| Signature.FirstCaptureIsWord | tools/new-problem.ts:214-218 | the first capture of the first matching pattern is such a run when every pattern's groups are |
| Signature.NameIsIdentifier | tools/new-problem.ts:208-219 | every name `pickFunctionName` returns is a non-empty run of word characters, so it holds no `(` |
| Signature.GetFunctionParamCount | tools/new-problem.ts:254-272 | `getFunctionParamCount`: no count without a name; otherwise the count of non-blank comma-separated pieces of the first parameter list found |
| Signature.DeclaredParams | tools/new-problem.ts:254-272 | for `function NAME(list)` the count is the count of the list's pieces |
| Signature.FunctionParamMatch | tools/new-problem.ts:257-262 | the `function` pattern captures exactly the parameter list of a declaration at the start of the code |
| Signature.CountOfJoined | tools/new-problem.ts:264-269 | a list of `n` non-blank parameters joined by commas counts `n` |
| Signature.BlankListCountsNone | tools/new-problem.ts:264-265 | an empty or blank parameter list counts 0 |
| Signature.IsListNodeType | tools/new-problem.ts:249 | `isListNodeType` holds exactly when `ListNode` occurs in the type text |
| Signature.IsTreeNodeType | tools/new-problem.ts:250 | `isTreeNodeType` holds exactly when `TreeNode` occurs in the type text |
| Signature.WholeWordAtStart | tools/new-problem.ts:253 | a name at the start of the code, followed by no word character, is found by `\bNAME\b` |
| Signature.WholeWordOccurs | tools/new-problem.ts:253 | a whole-word match is an occurrence of the name |
| Html.DecodeHtmlShrinks | tools/new-problem.ts:33-40 | `decodeHtml` never lengthens a text and leaves a text without `&` unchanged |
| Html.DecodeOrder | tools/new-problem.ts:33-40 | the order of the replacements matters: `&amp;lt;` becomes `&lt;`, not `<` |
| Html.NoAmpersandUnchanged | tools/new-problem.ts:35-40 | an entity replacement leaves a text without `&` as it is |
| Html.ReplaceAllShrinks | tools/new-problem.ts:35-40 | a global replacement by no longer a text never lengthens the input |
| Html.ReplaceAllIdentity | tools/new-problem.ts:44-51 | a global replacement leaves a text alone when none of its characters can start a match |
| Html.ReplaceAllSkips | tools/new-problem.ts:44-51 | a global replacement passes over a prefix none of whose characters can start a match and goes on after it |
| Html.RemoveTagsDropsTag | tools/new-problem.ts:49 | `replace(/<[^>]+>/g, "")` removes a tag and what is between its brackets, and keeps the text around it |
| Html.StripTagsKeepsPlainText | tools/new-problem.ts:62 | `stripTags` keeps plain text and removes the tags between plain text |
| Html.PreBlockRemoved | tools/new-problem.ts:48 | a `<pre>` block disappears up to the first `</pre>`, with the text before it kept |
| Html.CleanLinesAreClean | tools/new-problem.ts:52-56 | after the line pass, no line ends in white space and no line reads `Example N:` |
| Html.CollapseNoTriple | tools/new-problem.ts:58 | after `replace(/\n{3,}/g, "\n\n")` no three newlines are in a row |
| Html.CollapseKeepsLines | tools/new-problem.ts:58 | collapsing newlines keeps the lines clean |
| Html.BlankPassIsIdentity | tools/new-problem.ts:57 | on text whose lines do not end in white space, `replace(/[ \t]+\n/g, "\n")` changes nothing |
| Html.TrimKeepsLines | tools/new-problem.ts:59 | the final trim keeps the lines clean |
| Html.TrimNoTriple | tools/new-problem.ts:59 | the final trim creates no run of three newlines |
| Html.PlainTextIsClean | tools/new-problem.ts:42-60 | for every input, the text is trimmed, has no run of three newlines, no line ending in white space and no `Example N:` line |
| Html.MarkupPassesKeepPlainText | tools/new-problem.ts:44-51 | the markup and entity passes leave text without `<`, `&` and `\r` unchanged |
| Html.PlainLineIsTrimmed | tools/new-problem.ts:42-60 | one line of plain text only loses its surrounding white space |
| Html.HtmlToText | tools/new-problem.ts:42-60 | `htmlToText`: the passes in the source's order, and the text they give is clean |
| Outputs.PreBlocksFound | tools/new-problem.ts:223 | `matchAll(/<pre>([\s\S]*?)<\/pre>/gi)` yields a block's contents up to the first `</pre>`, then goes on after it |
| Outputs.PreBlocksSkip | tools/new-problem.ts:223 | text without `<` before the blocks is passed over |
| Outputs.CaptureAfter | tools/new-problem.ts:226 | the capture of `\s*([^\n]+)` is non-empty and holds no newline |
| Outputs.OutputCapture | tools/new-problem.ts:226 | the capture of the leftmost `Output:` match is non-empty and holds no newline |
| Outputs.OutputOfLine | tools/new-problem.ts:226 | an `Output: v` line gives `v` when no earlier text reads as `output:` |
| Outputs.BlockOutput | tools/new-problem.ts:225-227 | what a block contributes is trimmed and holds no newline |
| Outputs.PlainBlockOutput | tools/new-problem.ts:225-227 | a plain block with an `Output:` line gives the line's value |
| Outputs.BlankOutputKept | tools/new-problem.ts:226-227 | `Output: ` followed only by a blank still matches and is pushed as an empty output |
| Outputs.NewlineOutputDropped | tools/new-problem.ts:226-227 | `Output:` followed by a line break gives nothing |
| Outputs.Collect | tools/new-problem.ts:227 | no more outputs than blocks |
| Outputs.CollectFound | tools/new-problem.ts:227 | every output pushed was found in some block |
| Outputs.CollectAppend | tools/new-problem.ts:224-228 | outputs are pushed in block order |
| Outputs.OutputsOfAppend | tools/new-problem.ts:224-228 | the outputs of two runs of blocks are those of the first, then those of the second |
| Outputs.OutputsAreClean | tools/new-problem.ts:221-230 | every output is trimmed and lies on one line |
| Outputs.ExtractOutputs | tools/new-problem.ts:221-230 | `extractOutputs`: the loop pushes, in order, the trimmed output of each block that has one |
| Chunking.Chunk | tools/new-problem.ts:232-238 | `chunk`, corrected for size 0: the loop pushes exactly the groups `Chunks` describes |
| Chunking.ChunkIterations | tools/new-problem.ts:232-238 | the loop as written, turn by turn: its index never passes the end of the array |
| Chunking.ZeroSizeNeverStops | tools/new-problem.ts:234 | with size 0 the loop guard holds after every number of turns, each turn pushing one more empty group |
| Chunking.IterationsReachChunks | tools/new-problem.ts:232-238 | for a size that is not zero, after `n` turns the loop has pushed the first `n` groups |
| Chunking.LoopEndsAfterChunks | tools/new-problem.ts:234 | once every group is pushed the guard fails, so the loop ends |
| Chunking.ChunkBounds | tools/new-problem.ts:232-238 | the groups use up all but fewer than `size` elements |
| Chunking.ChunkCount | tools/new-problem.ts:232-238 | there are `length / size` groups |
| Chunking.ChunkGroups | tools/new-problem.ts:235 | group `k` is the slice from `k * size` to `(k + 1) * size` |
| Chunking.FlattenChunks | tools/new-problem.ts:232-238 | joined back together, the groups are the input without its incomplete tail |
| Chunking.PairsFromEvenLength | tools/new-problem.ts:447-449 | an even number of lines cut by 2 gives one pair per two lines and loses none |
| Asserts.Add | tools/new-problem.ts:282 | `helpersUsed.add(h)`: `h` is in the set afterwards, it is appended only if new, and no name repeats |
| Asserts.ParseInputs | tools/new-problem.ts:316 | each raw input is read with the type of its parameter, or `""` past the parameters |
| Asserts.ArgCodes | tools/new-problem.ts:322-338 | every parsed input is mapped to one argument, left to right |
| Asserts.ArgCodesSnoc | tools/new-problem.ts:322-338 | the arguments are mapped left to right, each one seeing the helpers added before it |
| Asserts.Unwrapped | tools/new-problem.ts:344 | with every argument mapped, the arguments keep their order |
| Asserts.BuildArguments | tools/new-problem.ts:301-344 | the arguments the loop body builds for one example: a list with its cycle position, or one argument per parameter |
| Asserts.CycleCallArguments | tools/new-problem.ts:301-314 | a list and its cycle position become one `buildListWithCycle(list, pos)` argument |
| Asserts.UnmappedListArgument | tools/new-problem.ts:322-341 | a list argument that is not an array stops the example after `buildList` was added for an earlier argument |
| Asserts.SkippedExampleKeepsHelper | tools/new-problem.ts:316-341 | an example skipped for its second list argument still leaves `buildList` in use |
| Asserts.BuildExample | tools/new-problem.ts:295-372 | the line after an example's header, and the helpers in use after it, as the loop body builds them |
| Asserts.NullListOutput | tools/new-problem.ts:353-359 | a `null` expected list is compared, after `listToArray`, with `[]` |
| Asserts.PlainExample | tools/new-problem.ts:369-372 | an example of plain values becomes one assertion calling the function on exactly their code and expecting the output's code, with `deepStrictEqual` exactly for arrays and `null` |
| Asserts.ReadCodes | tools/new-problem.ts:316 | inputs written as the code of values are read back as those values |
| Asserts.PlainArguments | tools/new-problem.ts:338 | plain values are passed on as their own code, with no helper added |
| Asserts.Codes | tools/new-problem.ts:338 | one code per value |
| Asserts.InputArgumentsHelpers | tools/new-problem.ts:301-344 | reading an example's arguments only adds known helpers, never removes one |
| Asserts.BodyHelpers | tools/new-problem.ts:295-372 | one example only adds known helpers to those in use before it |
| Asserts.ArgCodesHelpers | tools/new-problem.ts:322-338 | mapping the arguments keeps the helpers already in use and adds only known ones |
| Asserts.AssertionHelpers | tools/new-problem.ts:346-372 | the assertion for an output adds at most `listToArray` or `treeToArray` to the helpers in use |
| Asserts.BodyKeepsKnown | tools/new-problem.ts:295-372 | the body of every example keeps the helpers in use and adds only known ones |
| Asserts.LinesGrow | tools/new-problem.ts:292-296 | the lines of the first `k` examples are a prefix of the lines of the first `n`: every example adds its header and one line after those before it |
| Asserts.LinesHelpersGrow | tools/new-problem.ts:292-372 | the helpers in use only grow from example to example, and stay known |
| Asserts.LineAt | tools/new-problem.ts:295-372 | line `2k` is the header of example `k + 1`, and line `2k + 1` is what that example's body gives with the helpers of the examples before it |
| Asserts.ExampleLoop | tools/new-problem.ts:292-373 | the loop over the examples builds exactly the lines and helpers that `Lines` describes for the first `min(examples, outputs)` examples |
| Asserts.PlainReading | tools/new-problem.ts:316-346 | inputs and an output written as the code of values are read back as those values |
| Asserts.ExampleLinesStep | tools/new-problem.ts:292-296 | one more example appends its header and its line, and its helpers become those in use |
| Asserts.GenerateAsserts | tools/new-problem.ts:274-379 | `generateAsserts`: the loop builds exactly the code and the helpers that `AssertsOf` describes |
| Asserts.AssertsHelpers | tools/new-problem.ts:274-379 | `helpersUsed` only names helpers of tools/leetcode-helpers.ts, each once |
| Asserts.CalledHelpersUsed | tools/new-problem.ts:274-379 | `helpersUsed` names every helper the code calls: the helper wrapping the checked call on each example's assertion line, and the helper building each of its arguments |
| Asserts.ExampleCalls | tools/new-problem.ts:307-371 | after one example, the helper wrapping its checked call and the helper building each of its arguments are in use |
| Asserts.AssertionCalls | tools/new-problem.ts:346-372 | an assertion line whose checked value is a helper call is a `listToArray` or `treeToArray` line, and that reader is added |
| Asserts.ArgumentsCalls | tools/new-problem.ts:307-341 | every built argument that opens with a helper call was built by that helper, which is added |
| Asserts.StringMentionsHelper | tools/new-problem.ts:322-338 | a string argument reading `buildTree(` is written into the line and puts no helper in use: `helpersUsed` follows calls, not text |
| Asserts.AssertsOpenWithFirstExample | tools/new-problem.ts:292-296 | with a name and at least one example, the code opens with `// Example 1` |
| Asserts.NoExamplesPlaceholder | tools/new-problem.ts:375-377 | without an example and output pair the code is the placeholder comment and no helper is used |
| Scaffold.ParseArgs | tools/new-problem.ts:75-112 | `parseArgs`: the loop reads the arguments as `OptionsOf` describes |
| Scaffold.FlagsAnywhere | tools/new-problem.ts:88-105 | `help` and `force` are set exactly when one of their flags is among the arguments |
| Scaffold.TargetIsFirstOperand | tools/new-problem.ts:106-108 | without `--out`, the target is the first argument that is not empty and does not start with a dash |
| Scaffold.OutValueIsNotTarget | tools/new-problem.ts:94-101 | the value after `--out` becomes the directory, and the next operand is the target |
| Scaffold.OutBeforeFlag | tools/new-problem.ts:94-105 | a flag after `--out` is not taken as the directory |
| Scaffold.DocLineInverse | tools/new-problem.ts:383 | every comment line starts with ` *` and gives its text back |
| Scaffold.JSDocLines | tools/new-problem.ts:381-385 | the comment has an opening line, one line per content line giving it back, and a closing line |
| Scaffold.CommentOpens | tools/new-problem.ts:384 | the comment starts with `/**` and a line break |
| Scaffold.DeclaredCount | tools/new-problem.ts:429 | the parameter count defaulting to 1: at least 1, and the number of parameters when there are any |
| Scaffold.TestcaseLines | tools/new-problem.ts:430-433 | every example line is trimmed and not blank |
| Scaffold.TestcaseLinesOfJoin | tools/new-problem.ts:430-433 | test cases written one trimmed value per line are read back line by line |
| Scaffold.CyclePairGroups | tools/new-problem.ts:447-449 | for a list with a cycle position, the lines are cut into one pair per output, in order |
| Scaffold.ParameterGroups | tools/new-problem.ts:449 | otherwise each example takes as many lines as there are parameters |
| Scaffold.EmptyParameterListGivesSizeZero | tools/new-problem.ts:435-449 | a snippet declaring `function NAME()` gives a parameter count of 0, which `??` keeps, so the group size is 0 |
| Scaffold.ImportsOnce | tools/new-problem.ts:467-490 | every helper in use is imported as a value; each node class in use is imported exactly once, as a value when the snippet constructs it and as a type otherwise |
| Scaffold.ImportLinesShape | tools/new-problem.ts:467-490 | the `assert` import comes first, followed by at most one value and one type import |
| Scaffold.FileContentShape | tools/new-problem.ts:491-492 | the file starts with the comment and ends with the asserts and a line break |
| Scaffold.FileShape | tools/new-problem.ts:451-492 | the written file starts with the comment, imports `assert` first, and ends with the generated asserts and a line break |
| Scaffold.Generate | tools/new-problem.ts:426-492 | the steps of `main` from the fetched problem to the file content, each through the modelled operation |
| ListHelpers.ListNode.constructor | tools/leetcode-helpers.ts:5-8 | an absent value is 0 and an absent link is `null` |
| ListHelpers.BuildList | tools/leetcode-helpers.ts:11-20 | `buildList`: fresh, distinct nodes holding the values in order, the last ending the list; `null` for a `null` or empty array |
| ListHelpers.BuildListWithCycle | tools/leetcode-helpers.ts:22-32 | `buildListWithCycle`: the same, with the last node linking back to node `pos` when `pos` is a position of the list |
| ListHelpers.ListToArray | tools/leetcode-helpers.ts:34-43 | `listToArray`: the values along the path from `head`, stopping at the end, at a node met before or at the limit; on a described list, its values cut off at the limit |
| ListHelpers.ListRoundTrip | tools/leetcode-helpers.ts:11-43 | `listToArray(buildList(xs))` is `xs` within the limit |
| ListHelpers.CycleRoundTrip | tools/leetcode-helpers.ts:22-43 | `listToArray(buildListWithCycle(xs, pos))` is `xs` within the limit, cycle or not |
| TreeHelpers.TreeNode.constructor | tools/leetcode-helpers.ts:49-53 | an absent value is 0 and an absent child is `null` |
| TreeHelpers.BuildTree | tools/leetcode-helpers.ts:56-83 | `buildTree`: `null` exactly for a `null` or empty array or a missing root; otherwise fresh nodes in the shape the array spells level by level |
| TreeHelpers.Grow | tools/leetcode-helpers.ts:61-82 | the queue loop gives each queued node, in order, the next two present values as children |
| TreeHelpers.TakeChildren | tools/leetcode-helpers.ts:66-79 | one turn of the loop: the present values of the next two slots become the node's new left and right children, queued in that order |
| TreeHelpers.StepReads | tools/leetcode-helpers.ts:66-79 | a turn of the loop keeps every node's value and links as the array spells them |
| TreeHelpers.CanonicalCount | tools/leetcode-helpers.ts:85-103 | a tree spelled by a canonical array has one node per value present |
| TreeHelpers.PendingGrows | tools/leetcode-helpers.ts:91-94 | queueing a node's two children queues the nodes of the next two slots |
| TreeHelpers.NodeOfSlot | tools/leetcode-helpers.ts:89-97 | the node met at slot `e` holds that slot's value, and its children are the nodes of the slots read after it |
| TreeHelpers.LevelOrder | tools/leetcode-helpers.ts:87-98 | the breadth-first loop writes each slot's value, or `null` for a missing child, through every slot of the array |
| TreeHelpers.TreeToArray | tools/leetcode-helpers.ts:85-103 | `treeToArray`: `[]` for no tree; for a tree spelled by a canonical array, exactly that array |
| TreeHelpers.TreeRoundTrip | tools/leetcode-helpers.ts:56-103 | `treeToArray(buildTree(values))` is `values` for every canonical array |
| Runner.StatusOf | setup.ts:67-86 | the summary's status: a runtime error outranks failures, failures outrank an empty run, and only a run with assertions and no failure passes (each as an if-and-only-if) |
| Runner.CountsAddUp | setup.ts:111-126 | every counted assertion either held, failed, or threw something else |
| Runner.CountPositive | setup.ts:115-118 | a kind of outcome is counted exactly when it occurred |
| Runner.RunStatus | setup.ts:62-87 | without a runtime error the run fails exactly when an assertion failed, is empty exactly when none ran, and passes otherwise |
| Runner.TallyBound | setup.ts:111-126 | `passed + failed <= total`, with equality exactly when no assertion threw something else |
| Runner.RunnerState.constructor | setup.ts:21-30 | a new record: counters 0, no runtime error, not finalized |
| Runner.RunnerState.Record | setup.ts:111-126 | a wrapped assertion counts the call, then a pass or a failure; a failure sets the exit code to 1 and is swallowed; any other error propagates |
| Runner.RunnerState.PrintSummary | setup.ts:62-87 | `printSummary`: the first call finalizes and reports the status; later calls report nothing; no counter changes |
| Runner.RunnerState.OnRuntimeError | setup.ts:136-156 | the error hooks mark a runtime error and set the exit code to 1, counters untouched |
| Runner.Globals.constructor | setup.ts:16-19 | a fresh process: no record, not patched |
| Runner.Globals.PatchAssert | setup.ts:100-132 | `patchAssert` wraps the assertions only once: a second call adds no layer of wrappers |
| Runner.Globals.Load | setup.ts:21-134 | loading the runner once or many times leaves one shared record, kept when it exists, and one layer of wrappers |
| Runner.FirstProblemLine | setup.ts:58 | `lines.find(...)`: the first line containing `src/problems/`, or none when no line does |
| Runner.StackLines | setup.ts:57 | the stack's lines, each trimmed |
| Runner.GetSourceLine | setup.ts:55-60 | `getSourceLine`: nothing for a missing or empty stack, and otherwise a trimmed line if any |
| Runner.SourceLineChoice | setup.ts:55-60 | a line in a problem's file is returned whenever there is one, and it is the first such line; otherwise the second line, if any |

## Left out

- Network and file I/O are not modelled: `fetchQuestion`, the `stat` check for an existing file, `ensureDir`, `writeFile`, and the console messages and `process.exit` calls of `main` and of the help and usage paths. `Scaffold.Generate` takes the fetched problem as a `Question` value whose parameter types and return type are already read.
- `parseSlug` (URL parsing with the `URL` class) and `parseMeta` (a full `JSON.parse` of the metadata) are not modelled. The TypeScript snippet lookup (`codeSnippets.find`) is not modelled either.
- `hasClassDefinition` is never called, so it is not modelled.
- Literals.ParseValue: JSON objects (`{...}`) are not modelled, so an object literal falls through to the `string` fallback or fails. JSON exponents (`1e5`) and `\u` escapes naming a UTF-16 surrogate (even as a valid pair) are rejected.
- Asserts.CalledHelpersUsed: stated for a function name without `(`, which every name `pickFunctionName` returns (`Signature.NameIsIdentifier`), and for helpers other than the function's own name; text inside a string argument is not a call (`Asserts.StringMentionsHelper`).
- Numbers.NumberText: numbers are exact decimals. Floating-point rounding and the exponent notation `String(n)` uses for very large or very small magnitudes are not modelled.
- ListHelpers.ListNode.constructor: values are unbounded integers, not JavaScript doubles.
- ListHelpers.ListToArray: the default limit of 10000 is a parameter, and the ghost description of the list (`nodes`, `pos`) is supplied by the caller.
- TreeHelpers.TreeToArray: it requires a tree that a canonical array spells. `treeToArray` on a cyclic structure does not terminate in the source. On a shared, acyclic structure it terminates and writes the shape as if each shared node were copied once per path. Neither kind of structure is modelled.
- TreeHelpers.BuildTree: the `if (!node) continue` branch cannot be taken, because the queue only ever holds nodes, so it has no counterpart.
- Runner.RunnerState.PrintSummary: the console output (colours, elapsed time from `Date.now`, `startedAt`) is not modelled. The method returns the status instead.
- Runner.RunnerState.Record: `printAssertionFailure` and the formatting of values with `util.inspect` are not modelled.
- Runner.RunnerState.OnRuntimeError: the printed error and the `replace(/^at\s+/, "")` on the source line are not modelled. Registering the hooks with `process.on` is not modelled. The `beforeExit` hook is `PrintSummary`. `process.exitCode` is a field in which 0 stands for unset.
- Runner.Globals.PatchAssert: the wrappers themselves are represented by a ghost count of layers; the wrapped call's behaviour is `RunnerState.Record`.
- The lodash global (`globalThis._`) is not modelled.
- Regular expressions are modelled pattern by pattern, not by a general engine. The Unicode `\s` set is listed character by character, and the `i` flag folds ASCII letters only.

## Findings

| source | as written | input that shows it | evidently intended | confidence | as-written member | corrected member |
|---|---|---|---|---|---|---|
| tools/new-problem.ts:232-238 | `chunk(arr, size)` loops `for (let i = 0; i + size <= arr.length; i += size)`, which never ends for `size == 0` | a snippet `function solve() {}`: `getFunctionParamCount` returns 0, `?? paramCount` keeps the 0, and `chunk(exampleLines, 0)` runs forever, pushing empty groups (`Scaffold.EmptyParameterListGivesSizeZero`) | the loop stops for every size, with no groups for size 0 | not executed | Chunking.ZeroSizeNeverStops | Chunking.Chunk |
