# prefer-de-morgan-law, modelled in Dafny

This project models the ESLint rule `prefer-de-morgan-law`. The rule looks at
every `LogicalExpression`. When the node is an `||` chain, the chain is not
nested in another logical expression, and every operand is a negation (`!x` or
`a !== b`), it reports the chain once. It also offers to replace the chain with
`!(p1 && p2 && ... && pn)`. Each `pi` is the "positive" text of operand `i`.

The model is spread over five files:

- `estree.dfy` (module `Estree`) holds the part of the syntax tree the rule reads.
  - It has unary, binary and logical nodes with their operators and children.
  - It has every other node type as an opaque kind.
  - It has each node's verbatim source text `src`. This stands in for `sourceCode.getText(node)`.
- `text.dfy` (module `Text`) holds `Array.prototype.join` as `Join` and `slice(1)` as `DropFirst`.
- `rule.dfy` (module `PreferDeMorganLaw`) holds the rule itself.
  - The classifier `IsNegationExpression` and `NeedsParentheses`.
  - `formatOperand`: the function `FormatOperandText`, and the method `FormatOperand`. The method reassigns its local text the way the source does.
  - The flattening: the function `Flatten`, and the methods `FlattenOrOperands` and `FlattenInto`. `FlattenInto` is the recursive closure that pushes onto an accumulated sequence.
  - `AreAllOperandsNegated`, the operand mapping, and the handler `HandleLogicalExpression`. The handler returns `Option<Diagnostic>`.
- `properties.dfy` (module `DeMorganProperties`) holds what the rule promises.
  - Parser-built chains (`OrChain`, left-grouped, and `RightOrChain`) flatten back to their operands in source order.
  - A chain is reported at most once, at its root.
  - Each operand contributes a fixed kind of text.
  - The replacement depends only on the flattened operands.
- `test_cases.dfy` (module `RuleTestCases`) holds the input/output pairs of the rule's test file, proved about the model.

The parent of the handled node is an explicit parameter `parentType`, which is the parent's `type`.

The model follows the code as written, including these behaviours:

- The parent test rejects a parent that is any `LogicalExpression`, whatever its operator. It is not limited to an `||` parent.
- For an operand `!X`, `formatOperand` is given `X`, not the negation. So the parenthesising branch fires only when `X` is itself `!Y` with `Y` of a complex type.
- When that branch fires, it drops the first character of `X`'s text, which is `X`'s own `!`. So `!!(a && b)` contributes `((a && b))`. See `DoubleNegationDropsInnerBang`.
- No unary expression is in the parenthesis-needing list. So the extra test `operand.type !== 'UnaryExpression'` never changes the outcome. See `NeedsParenthesesExcludesUnary`.
- For `!(L !== R)`, the inner comparison is also rewritten, to `L === R`.

An informal reading of the rule differs from the code in two places. The model follows the code:

- The rule is meant to skip a disjunction nested in another disjunction. The code skips any logical parent.
- Complex operands of `!` are meant to be wrapped in parentheses. The code wraps only in the double-negation case above, and drops a character when it does.

## Model

| member | source | states |
|---|---|---|
| `DeMorganProperties.NegationClassification` | lib/prefer-de-morgan-law.js:27-41 | A node is a negation exactly when it is a `UnaryExpression` with `!` or a `BinaryExpression` with `!==`. No other operator or node type is a negation. |
| `DeMorganProperties.NeedsParenthesesExcludesUnary` | lib/prefer-de-morgan-law.js:46-59 | Parentheses are needed exactly for logical, binary, conditional, assignment, call and member expressions. So never for a unary expression, which makes the guard on line 75 redundant. |
| `PreferDeMorganLaw.FormatOperand` | lib/prefer-de-morgan-law.js:64-86 | The method that starts from the verbatim text and overwrites it in the `!` and `!==` branches returns `FormatOperandText`. Any node that is neither `!` nor `!==` comes back verbatim. |
| `PreferDeMorganLaw.Flatten` | lib/prefer-de-morgan-law.js:91-105 | Flattening gives at least one operand. A node that is not `\|\|` gives exactly `[node]`. An `\|\|` node gives at least two. No operand is an `\|\|` node. |
| `PreferDeMorganLaw.FlattenInto` | lib/prefer-de-morgan-law.js:94-101 | The recursive closure leaves the accumulated operands followed by the flattening of the sub-node: left side first, then right side. |
| `PreferDeMorganLaw.FlattenOrOperands` | lib/prefer-de-morgan-law.js:91-105 | Starting from an empty array, the result is the flattening of the node. So two calls on one node give the same list. |
| `DeMorganProperties.FlattenOrChain` | lib/prefer-de-morgan-law.js:94-100 | Flattening a left-grouped chain `o1 \|\| ... \|\| on`, as the parser builds it, gives back `[o1, ..., on]` in source order. |
| `DeMorganProperties.FlattenRightOrChain` | lib/prefer-de-morgan-law.js:94-100 | Flattening a right-grouped chain gives back the same operands in the same order, so grouping does not matter. |
| `DeMorganProperties.OrChainSource` | lib/prefer-de-morgan-law.js:135 | The `original` text of a parser-built chain is its operands' texts joined by ` \|\| `. |
| `DeMorganProperties.AllNegatedSplit` | lib/prefer-de-morgan-law.js:110-113 | On `l \|\| r`, all operands are negated if and only if that holds for `l` and for `r`. |
| `DeMorganProperties.AllNegatedLeaf` | lib/prefer-de-morgan-law.js:110-113 | On a node that is not `\|\|`, all operands are negated if and only if the node itself is a negation. |
| `DeMorganProperties.MixedChainIsSilent` | lib/prefer-de-morgan-law.js:118-119 | If any flattened operand is not a negation, no report is made, whatever the parent. |
| `PreferDeMorganLaw.HandleLogicalExpression` | lib/prefer-de-morgan-law.js:116-143 | It reports if and only if three things hold: the operator is `\|\|`, every operand is negated, and the parent is not a `LogicalExpression`. A report names the node, has message id `preferDeMorgan` and data left/right/original equal to the verbatim texts of `node.left`, `node.right` and `node`. Its fix replaces the whole node with a text of the form `!(...)`. |
| `DeMorganProperties.LogicalParentSuppresses` | lib/prefer-de-morgan-law.js:121 | A logical node whose parent is a logical expression of any operator, on either side, is never reported. |
| `DeMorganProperties.InnerLinksAreSilent` | lib/prefer-de-morgan-law.js:118-121 | No link of an `\|\|` skeleton reports when it sits under a logical parent. |
| `DeMorganProperties.ReportedOncePerChain` | lib/prefer-de-morgan-law.js:116-143 | Over all links of a chain, the reports are exactly the root's report. So there is at most one report per chain. |
| `PreferDeMorganLaw.PositiveOperands` | lib/prefer-de-morgan-law.js:125-127 | The mapping keeps the number and order of operands. Entry `i` is the text of operand `i`: `formatOperand` of the argument of a unary operand, or of the operand itself otherwise. |
| `DeMorganProperties.PositiveOfComparison` | lib/prefer-de-morgan-law.js:81-82 | `L !== R` contributes `text(L) === text(R)`, with both sides verbatim. |
| `DeMorganProperties.PositiveOfPlainNegation` | lib/prefer-de-morgan-law.js:69 | `!X` contributes `text(X)` verbatim when `X` is neither `!Y` nor `!==`. So member accesses and calls get no parentheses. |
| `DeMorganProperties.PositiveOfNegatedComparison` | lib/prefer-de-morgan-law.js:81-82 | `!(L !== R)` contributes `text(L) === text(R)`: the inner comparison is flipped. |
| `DeMorganProperties.PositiveOfDoubleNegation` | lib/prefer-de-morgan-law.js:72-77 | `!!Y` contributes `"(" + text(!Y)[1..] + ")"` when `Y` needs parentheses. Otherwise it contributes `text(!Y)` verbatim. |
| `DeMorganProperties.DoubleNegationDropsInnerBang` | lib/prefer-de-morgan-law.js:76 | `!!(a && b)` contributes `((a && b))`: the slice removes the inner `!`. |
| `DeMorganProperties.ParenthesesOnlyForDoubleNegation` | lib/prefer-de-morgan-law.js:125-127 | For every negation operand other than `!!Y`, the text is either the verbatim argument or a flipped comparison. A `!==` operand always gives the flipped comparison. |
| `DeMorganProperties.ConjunctionOfOr` | lib/prefer-de-morgan-law.js:137-140 | The conjunction inside the fix for `l \|\| r` is the conjunction for `l`, then ` && `, then the conjunction for `r`. |
| `DeMorganProperties.ReplacementIgnoresGrouping` | lib/prefer-de-morgan-law.js:137-140 | Left- and right-grouped chains of the same operands get the same replacement text. |
| `DeMorganProperties.ReportOnChain` | lib/prefer-de-morgan-law.js:129-140 | This case covers a parser-built chain of two or more negations under a non-logical parent. It gets exactly one report. Its data is the last link's two sides and the whole chain's text. Its fix replaces the chain with `!(` + the operands' positive texts joined by ` && ` in source order + `)`. |
| `Text.Join` | lib/prefer-de-morgan-law.js:139 | Joining one part gives that part, and joining none gives the empty string. |
| `Text.JoinAppend` | lib/prefer-de-morgan-law.js:139 | Joining two non-empty lists gives each one joined, with the separator between them. |
| `Text.DropFirst` | lib/prefer-de-morgan-law.js:76 | `slice(1)` gives the text after its first character, and an empty text stays empty. |
| `RuleTestCases.SimpleCase` | test/prefer-de-morgan-law.test.js:20-21 | `!isAdmin \|\| !isEnabled` is reported, with fix `!(isAdmin && isEnabled)`. |
| `RuleTestCases.MultipleConditions` | test/prefer-de-morgan-law.test.js:26-27 | `!a \|\| !b \|\| !c` is reported once over the whole chain, with fix `!(a && b && c)`. |
| `RuleTestCases.Comparisons` | test/prefer-de-morgan-law.test.js:32-33 | `x !== 0 \|\| y !== 10` is reported, with fix `!(x === 0 && y === 10)`. |
| `RuleTestCases.ComplexObjectConditions` | test/prefer-de-morgan-law.test.js:38-39 | `!user.isLoggedIn \|\| !user.hasPermission('edit')` is reported, with fix `!(user.isLoggedIn && user.hasPermission('edit'))`. |
| `RuleTestCases.ValidCases` | test/prefer-de-morgan-law.test.js:12-15 | `isAdmin \|\| isEnabled`, `a && b`, and the `&&` inside `!(isAdmin && isEnabled)` are not reported. |
| `RuleTestCases.OneOperandNotNegated` | lib/prefer-de-morgan-law.js:118-119 | `isAdmin \|\| !isEnabled` is not reported. |

## Left out

- The `meta` descriptor (type, docs, `fixable`, empty schema, message table) is constant registration data. Only the message id `preferDeMorgan` is modelled.
- The host API is replaced.
  - `context.getSourceCode` and `sourceCode.getText` become each node's `src` field.
  - `context.report` becomes the returned `Option<Diagnostic>`.
  - The lazily called `fix(fixer)` and `fixer.replaceText` become an eagerly computed `ReplaceText(node, text)`.
  - Source ranges, and how the host applies a fix, are not modelled.
- The model does not require a node's `src` to agree with its children's texts. The tree gets that agreement from the parser. Only the chains built by `OrChain` and `RightOrChain` build their texts from their parts.
- `{{left}}`/`{{right}}`/`{{original}}` interpolation into the message template is done by the host and is not modelled.
- The `if (!node)` guards in `isNegationExpression`, `needsParentheses` and `formatOperand` are not modelled. A well-formed tree never hands those functions a missing node, and a model node is never absent.
- The meaning of the rewrite is not modelled, because the rule produces text, not a tree, and does not preserve meaning in general. For example, `!(a || b) || !c` yields `!(a || b && c)`.
- That re-running the rule on its own output finds nothing is not modelled. It needs a JavaScript parser.
- The host's traversal order, and processing many files at once, are not modelled. Which nodes are visited, and when, is the host's business. `ChainReports` visits only the `||` skeleton of one chain.
