# no-usememo-generics, modelled in Dafny

`no-usememo-generics` is an ESLint rule for TypeScript React code. It flags a
declaration `const x = useMemo<T>(factory, deps)` whose first argument is an
arrow function or a function expression. If the factory has no return type,
the rule reports `moveGenericToReturnType` and plans a fix that removes `<T>`
and inserts `: T` after the factory's empty parameter list. If the factory
already has a return type, it reports `removeGeneric` and plans a fix that
only removes `<T>`.

The model has six modules:

- `Wrappers` holds `Option`.
- `Ast` holds the slice of the TypeScript syntax tree the rule reads. Every node carries a character range. `GetText` is `sourceCode.getText`. `WellFormed` states what the parser guarantees about how ranges nest.
- `Scanner` holds `getReturnTypePosition`. It is a hand-written matcher for the regular expression `/(function)?\s*\(\s*\)/`. The module also states which text spans the pattern matches, declaratively, and proves that the matcher finds the leftmost one, as `String.prototype.match` does.
- `Fixer` holds the text edits a fix callback returns (`fixer.remove`, `fixer.insertTextAfterRange`). It also shows how the host splices an ordered, non-overlapping list of edits into the source.
- `Rule` holds the `VariableDeclarator` visitor and the two fix callbacks, together with lemmas on what a fix does to the source text.
- `TestVectors` holds the rule's test suite. Each case is paired with the syntax tree the parser gives for it. For each case the module proves the report and the fixed output.

The rule's code and the doc comment of `getReturnTypePosition` (rule.js:99-101) disagree on one point, and the model follows the code. The doc comment says the function returns "the position of the return type in the function string", that is, the offset just past the empty parameter list. The code (rule.js:110) returns `match[0].length`, the length of the match. The two agree only when the match starts at the first character of the factory's text. That holds for `() => …` and `function() …`, which are the shapes in the test suite. `Scanner.PositionIsEndOffsetIffAnchored` states when the two agree. `TestVectors.ScanAsyncArrow` gives a case where they differ: for `async () => x` the match ` ()` starts at index 5, the value is 3, and the fix would insert the return type inside the word `async`. The model keeps the code's behaviour everywhere.

## Model

| member | source | states |
|---|---|---|
| Ast.GetText | rule.js:47-49 | The text of a node is the slice of the source over its range, whenever the range lies inside the source. It is never longer than the source. |
| Scanner.IsWhiteSpace | rule.js:105 | The class `\s`: ECMAScript WhiteSpace and LineTerminator. None of `(`, `)` and `f` is in it, which is why greedy `\s*` never has to give back a character. |
| Scanner.SkipWhiteSpace | rule.js:105 | The greedy `\s*` stops at the first character that is not ECMAScript white space or a line terminator, or at the end of the text. Every character it skips is white space. |
| Scanner.EmptyParamsAt | rule.js:105 | An anchored match of `\s*\(\s*\)` is at least two characters long and stays inside the text. |
| Scanner.MatchAt | rule.js:105 | An anchored match of the whole pattern is at least two characters long and stays inside the text. |
| Scanner.FirstMatch | rule.js:107 | The search from index `from` reports a match that starts at or after `from`, is at least two characters long and ends inside the text. |
| Scanner.ReturnTypePosition | rule.js:103-114 | The result is -1, or a length from 2 to the length of the factory's text. |
| Scanner.EmptyParamsAtExact | rule.js:105 | The anchored `\s*\(\s*\)` matcher ends at `e` if and only if the span from `i` to `e` is white space, `(`, white space, `)`. |
| Scanner.MatchAtExact | rule.js:105 | The anchored matcher ends at `e` if and only if the span from `i` to `e` is in the language of `(function)?\s*\(\s*\)`. Trying `function` first and the bare alternative second cannot change the result. |
| Scanner.NoneMeansNoMatchAt | rule.js:105-107 | When the anchored matcher fails at `m`, no span starting at `m` is in the pattern's language. |
| Scanner.MatchAtIsOnlyMatch | rule.js:105-107 | When the anchored matcher succeeds at `m`, the end it gives is the only end a match starting at `m` can have. |
| Scanner.FirstMatchNone | rule.js:107-113 | When the search from `from` fails, the anchored matcher fails at every index from `from` to the end of the text. |
| Scanner.FirstMatchSome | rule.js:107-111 | The search reports the first index from `from` on where the anchored matcher succeeds, together with the end the matcher gives there. |
| Scanner.SearchFindsLeftmost | rule.js:107-111 | The match the search reports is the leftmost match of the pattern, and its end is unique. |
| Scanner.SearchFailsEverywhere | rule.js:107-113 | When the search fails, no span of the text anywhere is in the pattern's language. |
| Scanner.ReturnTypePositionIsLeftmostMatch | rule.js:103-114 | The result is -1 if and only if no part of the text matches the pattern. Otherwise it is the length of the leftmost match. |
| Scanner.PositionIsEndOffsetIffAnchored | rule.js:98-111 | The reported match ends with `)`. The result is the offset just past that `)` exactly when the leftmost match starts at index 0. |
| Fixer.Ordered | rule.js:55-76 | The predicate defines an edit list in which each edit starts at or after the end of the one before it, and all edits lie in a text of length `n`. Its ensures states that such a list can exist only when the starting offset `from` is at most `n`. |
| Fixer.ApplyOne | rule.js:84-86 | One edit inside the source: the output is the text before the edit, the edit's text, then the text after it. |
| Fixer.ApplyTwo | rule.js:55-76 | Two edits in order: the output keeps the text between them and splices each edit's text in at its own place. |
| Fixer.ApplyRemove | rule.js:84-86 | `fixer.remove` of a range inside the source deletes exactly that range. |
| Fixer.ApplyRemoveThenInsert | rule.js:55-73 | A removal followed by an insertion at a later offset deletes the range and inserts the text at that offset. Nothing else changes. |
| Rule.RemoveFix | rule.js:84-86 | The `removeGeneric` fix is a single edit. It deletes exactly the range of the generic-argument list and inserts nothing. |
| Rule.MoveFix | rule.js:54-77 | The `moveGenericToReturnType` fix starts with the removal of the generic-argument list. It has a second edit exactly when `returnTypePosition != -1`. That edit inserts `": "` plus the text of the first generic argument at `functionNode.range[0] + returnTypePosition`. |
| Rule.VisitDeclarator | rule.js:19-92 | There is a report exactly when the declarator is `const`, is initialised by a call of the identifier `useMemo` with a non-empty generic list, and has an arrow or function expression as its first argument. The report is anchored at the declarator. The message is `moveGenericToReturnType` exactly when the factory has no return type. A `removeGeneric` fix is the removal of the generic list. A `moveGenericToReturnType` fix starts with that removal. It has a second edit exactly when the scanner found the parameter list: the insertion of `": "` plus the first generic argument's text, at the factory's start plus the scanner's value. |
| Rule.TargetRanges | rule.js:57-71 | On a well-formed tree, the generic list ends before the factory starts, the factory lies inside the source, and so does the first generic argument. |
| Rule.InsertionInsideFactory | rule.js:60-66 | When the scanner succeeds, the insertion offset lies after the removed generic list and inside the factory, at least two characters past the factory's start. |
| Rule.MoveFixEdits | rule.js:55-76 | A move fix with a scanner result is exactly the removal, then the insertion. |
| Rule.MoveGenericEffect | rule.js:54-77 | A complete move fix is ordered and in range. Applied, it deletes `<T>` and inserts `: T` at the insertion offset, where `T` is the first generic argument's source text. All other text is unchanged. |
| Rule.PartialMoveEffect | rule.js:55-76 | When the scanner finds no empty parameter list, the move fix only deletes the generic list. |
| Rule.RemoveGenericEffect | rule.js:79-87 | A `removeGeneric` fix deletes the generic list. All other text, including the existing return type, is unchanged. |
| Rule.FixIsOrdered | rule.js:54-87 | Every fix the rule plans on a well-formed tree is an ordered, non-overlapping list of edits inside the source. |
| TestVectors.ScanArrow | tests.js:34 | The scanner gives 2 on `() => true`. |
| TestVectors.ScanFunction | tests.js:52 | The scanner gives 10 on `function() { return true; }`. |
| TestVectors.ScanAsyncArrow | rule.js:110 | The scanner gives 3 on `async () => x`. That value is the length of the match ` ()`, not its end. |
| TestVectors.MoveArrowCase | tests.js:33-37 | `const test = useMemo<boolean>(() => true, []);` is reported with `moveGenericToReturnType`. The fix yields exactly `const test = useMemo((): boolean => true, []);`, the valid input of tests.js:19, which the tree of `ValidTypedArrowCase` fits and which gets no report. |
| TestVectors.RemoveArrowCase | tests.js:40-44 | `const test = useMemo<boolean>((): boolean => true, []);` is reported with `removeGeneric`. The fix yields exactly `const test = useMemo((): boolean => true, []);`, the valid input of tests.js:19, which the tree of `ValidTypedArrowCase` fits and which gets no report. |
| TestVectors.MoveFunctionCase | tests.js:51-55 | `const test = useMemo<boolean>(function() { return true; }, []);` is reported with `moveGenericToReturnType`. The fix yields exactly `const test = useMemo(function(): boolean { return true; }, []);`, the valid input of tests.js:25, which the tree of `ValidTypedFunctionCase` fits and which gets no report. |
| TestVectors.RemoveFunctionCase | tests.js:58-62 | `const test = useMemo<boolean>(function(): boolean { return true; }, []);` is reported with `removeGeneric`. The fix yields exactly `const test = useMemo(function(): boolean { return true; }, []);`, the valid input of tests.js:25, which the tree of `ValidTypedFunctionCase` fits and which gets no report. |
| TestVectors.ValidArrowCase | tests.js:18 | The tree fits the text, and without a generic there is no report. |
| TestVectors.ValidTypedArrowCase | tests.js:19 | The tree fits the text, and without a generic there is no report. The two arrow cases above call this lemma on their fixed output. |
| TestVectors.ValidFunctionCase | tests.js:24 | The tree fits the text, and without a generic there is no report. |
| TestVectors.ValidTypedFunctionCase | tests.js:25 | The tree fits the text, and without a generic there is no report. The two function cases above call this lemma on their fixed output. |

## Left out

- The `meta` object (rule.js:1-14) is descriptive data: rule type, documentation, message texts and schema. Only its two message ids are modelled, as `Rule.MessageId`.
- ESLint's traversal, which calls the visitor on every `VariableDeclarator`, belongs to the host and is not modelled. So is `context.report`, which the model replaces with returning a `Finding`. `context.report` calls the fix callback at once, and the model computes the edits at the same point. The inputs are never mutated, so the moment at which the callback runs cannot change its edits.
- The parser is not modelled. Syntax trees are inputs, and `Ast.WellFormed` states the parser's guarantees about their ranges. The expression kinds the rule does not tell apart are folded into `Other`. `node.parent.kind` travels on the declarator as `kind`.
- `fixer.insertTextAfterRange` receives a range. Only the range's end affects the edit, so `Fixer.Insert` stores just that offset.
- How ESLint merges the edits of one report, and of several reports in one file, is not modelled. `Fixer.ApplyEdits` applies one report's edits once they are ordered and disjoint, which `Rule.FixIsOrdered` proves.
- Source positions are character indices. ESLint counts UTF-16 code units, which agree only for text within the Basic Multilingual Plane.
- The scanner models only the pattern `/(function)?\s*\(\s*\)/`, not a general regular-expression engine. `\s` is the ECMAScript set of white space and line terminators.
- The test harness wiring in tests.js (lines 1-13 and 64) is not modelled. Its cases are proved as lemmas, with their syntax trees written out by hand rather than produced by the parser. RuleTester's repeated fix passes are covered only by proving that each fixed output is a valid input that gets no report.
- TestVectors.MoveArrowCase: the source text is written as a concatenation of pieces; joined, they are the literal at tests.js:34. The expected output is the literal itself.
- TestVectors.RemoveArrowCase: the same, for the source literal at tests.js:41.
- TestVectors.MoveFunctionCase: the same, for the source literal at tests.js:52.
- TestVectors.RemoveFunctionCase: the same, for the source literal at tests.js:59.
