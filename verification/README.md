# prefix2infix front end in Dafny

This project models the text front end of `prefix2infix.py`, the tool that reads the
prefix formulas printed by the genetic-programming search (`mul(A, add(B, add(C, 1)))`),
parses them and renders them as fully parenthesised infix (`(a*(b + (c + 1)))`).

It has three parts. Each has a Dafny module.

- `tokenize` becomes `Tokenizer.Tokenize`.
  - It lower-cases the line and pads each of `( ) , - + * / #` with spaces.
  - It splits on the single space character and drops the empty fields.
  - The eight `str.replace` calls are modelled one after another (`PadEach`) and proved equal to a single padding pass (`Pad`).
  - `str.split(" ")` is modelled with Python's semantics: empty fields are kept, then filtered.
- `PrefixParser` becomes the `Parser` module.
  - The cursor `(self.i, self.token)` is a position `p` in the token list.
  - `Cur` reads `tokens[p]`, or the end-of-line token `""` once `p` has reached the end.
  - `Next` advances and stays at the end. This is the same state as the source's, because once `_next_token` runs out it no longer moves `i` and only sets `token` to `""`.
  - `Parser.SourceFirst` and `Parser.SourceNext` model the source's `(i, token)` pair directly. `Parser.FirstAgrees` and `Parser.NextAgrees` prove that the two cursors move in step.
  - `_expect_token` becomes `Expect`, `_parse_formula` becomes `ParseFormula`, and its argument loop becomes `ParseArgList`.
  - `parse_line` is `ParseLine`, which is `ParseTokens` applied to the tokenized line.
  - A raised `RuntimeError` is a `Failure` carrying a `ParseError`. The error holds the expected token and the token found, or for a bad negative number the token after `-`. A `None` result is `Success(None)`.
- `prefix_to_infix` becomes `Infix.Render`.
  - Its ordered string-equality simplifications are `Infix.Simplified`, and the symbol table is `Infix.Symbol`.
  - The inputs that make it raise are excluded by the precondition `Infix.Renderable`. These are an `assert` on the child count, a `KeyError` for an operator outside the table, and an `IndexError` for `protected_sqrt` without an argument.
  - `Infix.RenderChecked` is the same renderer with those exceptions as `RenderError` values, raised in the order the source meets them.

The partner of the parser is the prefix printer. `Syntax.Print` writes `name(child1, child2)`,
the layout in which the search engine prints an individual (calcai.py:84). The proofs go in both directions:

- Soundness: a parsed formula is exactly the tokens it was read from (`Parser.FormulaSound`, `Parser.LineSound`).
- Completeness: every lower-case well-formed formula is read back from its printed text (`Printing.ParsePrint`).
- Text in capitals, such as the variables `A`, `B`, `C` and the primitive `protectedDiv` that the search names (calcai.py:26, 31-33), is read as its lower-cased form (`Parser.ParseIgnoresCase`). So `protectedDiv(A, B)` becomes the node `protecteddiv` with leaves `a` and `b`.

The partner of the renderer is a reference definition.

- `Infix.Reduce` applies the rules to the tree bottom-up.
- `Infix.Plain` prints infix with no rules.
- `Infix.RenderIsPlainOfReduce` proves that rendering equals the two in sequence.
- `Infix.CombineRules` states each of the eight rules on its own. It holds whatever the order, so rules that apply to the same operands never disagree.
- `Infix.RenderChecked` gives the renderer's exceptions as values. It succeeds exactly on `Infix.Renderable` formulas.

Some facts about the code that a reader might not expect:

- Splitting is on the space character `' '` only (prefix2infix.py:10). A tab stays inside a token.
- The top level of an infix rendering is parenthesised too, as in `(a*(b + (c + 1)))` (prefix2infix.py:115).
- Rendered names are lower case, because the tokenizer lower-cases the line first (prefix2infix.py:7).
- A call may have no arguments: `f()` parses to a node with no children, because the argument loop is skipped when `)` follows `(` (prefix2infix.py:63).

## Model

| member | source | states |
|---|---|---|
| Tokenizer.Tokenize | prefix2infix.py:6-10 | every token is non-empty, free of spaces and lower case; a separator character occurs only as a one-character token of its own; the tokens concatenated give the lower-cased line with its spaces removed |
| Tokenizer.Lower | prefix2infix.py:7 | lower-casing keeps the length, leaves every character but the ASCII capitals alone, and leaves no capital |
| Tokenizer.Replace | prefix2infix.py:8-9 | a replacement leaves a string without the separator unchanged, and afterwards every occurrence of a non-space separator has a space on each side |
| Tokenizer.NonEmpty | prefix2infix.py:10 | the filter keeps no empty field and never makes the list longer |
| Tokenizer.NonEmptyConcat | prefix2infix.py:10 | the filter loses no text: the kept fields concatenate to the same string |
| Tokenizer.PadEachIsPad | prefix2infix.py:8-9 | the eight replacements applied one after another pad every separator exactly once, as a single left-to-right pass would |
| Tokenizer.Split | prefix2infix.py:10 | `split(" ")` always yields at least one field and no field contains a space |
| Tokenizer.SplitJoin | prefix2infix.py:10 | splitting loses nothing: the fields joined with `" "` give the string back |
| Tokenizer.ScanSeparator | prefix2infix.py:8-10 | a separator character is always a token of its own, and the text on each side is tokenized independently |
| Tokenizer.ScanSpace | prefix2infix.py:10 | a space only separates tokens: the text on each side is tokenized independently and the space disappears |
| Tokenizer.ScanAreTokens | prefix2infix.py:8-10 | every token of a lower-case text is non-empty, space-free, lower case, and a separator only on its own |
| Tokenizer.ScanConcat | prefix2infix.py:8-10 | the tokens hold exactly the non-space characters of the text, in order |
| Tokenizer.TokenizeIdempotent | prefix2infix.py:6-10 | joining the tokens with single spaces normalises the spacing: tokenizing that text gives the same tokens |
| Tokenizer.TokenizeLower | prefix2infix.py:7 | tokenizing a lower-cased line gives the same tokens as the line itself |
| Parser.FirstAgrees | prefix2infix.py:17-22 | `_first_token` puts the source's cursor in the state of position 0: the first token, or the end of line when there are none |
| Parser.NextAgrees | prefix2infix.py:24-29 | `_next_token` and `Next` move in step: same current token, with the index stopping at the last token once the tokens run out |
| Parser.Expect | prefix2infix.py:31-34 | on success the current token is the expected one and the cursor moves one token on, never past the end |
| Parser.ParseFormula | prefix2infix.py:40-72 | a successful parse consumes at least one token and stays within the token list |
| Parser.ParseArgList | prefix2infix.py:63-69 | a successful argument loop reads at least one formula and consumes at least one token |
| Parser.ParseTokens | prefix2infix.py:77-83 | no formula exactly when the first token is `#` or the line is empty; a formula is returned only when it ends at the end of the line |
| Parser.ParseLine | prefix2infix.py:74-83 | `None` exactly when there are no tokens or the first is `#`; a returned formula consumes every token |
| Parser.LineOutcome | prefix2infix.py:31-34 | otherwise the line fails with the formula's own error, or with end of line expected and the first leftover token found, or returns the formula |
| Parser.ParseIgnoresCase | prefix2infix.py:7 | a line and its lower-cased form parse identically |
| Parser.ParseLeaves | prefix2infix.py:42-57 | digits and `a`/`b`/`c` are leaves of themselves, `zero`/`one`/`ten` become `0`/`1`/`10`, `-` then digits is a negative leaf, `-` then anything else is an error naming that token |
| Parser.ParseCalls | prefix2infix.py:58-70 | any other token is an operator: a missing `(` is an error naming the token found; `f()` has no children; otherwise comma-separated arguments in order, then `)` or an error naming the token found |
| Parser.FormulaSound | prefix2infix.py:40-72 | a parsed formula's tokens are exactly the tokens consumed, up to the spelling of the named constants |
| Parser.LineSound | prefix2infix.py:74-83 | a formula returned for a line has exactly the line's tokens, up to the spelling of the named constants |
| Parser.FormulaComplete | prefix2infix.py:40-72 | the tokens of any lower-case well-formed formula parse back to that formula and end right after its tokens |
| Parser.TokensComplete | prefix2infix.py:77-83 | the tokens of any lower-case well-formed formula are read as a line holding exactly that formula |
| Printing.TokenizePrint | prefix2infix.py:6-10 | tokenizing a printed formula gives exactly the formula's tokens |
| Printing.ParsePrint | prefix2infix.py:74-83 | a printed lower-case well-formed formula parses back to itself |
| Infix.Combine | prefix2infix.py:98-115 | a binary node renders to `0`, `1`, one of its operands unchanged, or the parenthesised operation, and never to anything longer |
| Infix.Simplified | prefix2infix.py:98-113 | a rule that fires yields `0`, `1`, or one of the rendered operands unchanged |
| Infix.CombineRules | prefix2infix.py:98-115 | each rule taken alone: when its condition holds the node renders as that rule says, so the order never changes the result; with no condition true the node is the parenthesised operation |
| Infix.SymbolInjective | prefix2infix.py:114 | no two operators of the symbol table share a spelling |
| Infix.RenderChecked | prefix2infix.py:86-118 | the renderer raises exactly on formulas that are not renderable (a binary node without two children, `protected_sqrt()`, an operator outside the table), and otherwise gives the rendering |
| Infix.Render | prefix2infix.py:86-118 | the rendering is never longer than the unsimplified infix text |
| Infix.Reduce | prefix2infix.py:98-113 | simplifying the tree leaves no node that any rule applies to |
| Infix.RenderIsPlainOfReduce | prefix2infix.py:86-118 | rendering equals simplifying the tree bottom-up and then printing it without rules |
| Infix.ReduceIdempotent | prefix2infix.py:98-113 | simplifying twice is simplifying once |
| Infix.IrreducibleRendersPlain | prefix2infix.py:86-118 | a tree no rule applies to renders as its plain infix text |
| Infix.RenderReduce | prefix2infix.py:86-118 | rendering an already simplified tree gives the same text as rendering the original |
| Scenarios.WorkedExample | prefix2infix.py:74-83 | `mul(A, add(B, add(C, 1)))` parses to the nested call node of `mul`, `a`, `add`, `b`, `add`, `c`, `1` |
| Scenarios.RenderExample | prefix2infix.py:86-118 | that formula renders as `(a*(b + (c + 1)))` |
| Scenarios.ParseSub | prefix2infix.py:58-70 | `sub(a, a)` parses to the `sub` node of two `a` leaves |
| Scenarios.ParseDiv | prefix2infix.py:58-70 | `protected_div(b, b)` parses to the `protected_div` node of two `b` leaves |
| Scenarios.SelfCancels | prefix2infix.py:98-103 | `sub(a, a)` renders as `0` and `protected_div(b, b)` as `1` |
| Scenarios.Identities | prefix2infix.py:100-113 | `mul(a, 0)` and `mul(1, 0)` render as `0`, `add(0, c)` as `c`, `sub(b, 0)` as `b`, `mul(1, b)` as `b` |
| Scenarios.Unclosed | prefix2infix.py:62-70 | `add(a, b` fails expecting `)` and finding the end of the line, `""` |

## Left out

- `evaluate` and `compute_rmse` (prefix2infix.py:130-166) are left out. They are floating-point arithmetic and `float()` parsing, and the guarded operators they call are not part of this model.
- `read_examples`, `convert_prefix_to_infix` and the `__main__` block are left out. They are file I/O, printing, and catching the parse error per line.
- `_parse_end_of_line` (prefix2infix.py:36-38) is left out because nothing calls it. `parse_line` uses `_expect_token(self.end_of_line)` instead, and that is modelled.
- The printing of a malformed node before the `assert` (prefix2infix.py:92-93) is left out, as output only.
- calcai.py and cmaes.py are not part of this model. calcai.py is the genetic-programming search: library-driven random tree generation, genetic operators, and floating-point fitness. cmaes.py is a CMA-ES optimiser over real-valued vectors.
- The text of the `RuntimeError` messages is left out. An error is a `ParseError` value carrying the expected token and the token found.
- Tokenizer.Tokenize: `str.lower` is modelled on ASCII letters only, and `str.isdigit` (in `Syntax.IsDigits`) on ASCII digits only. Non-ASCII letters and digits are out of scope.
- Infix.Render: the inputs on which `prefix_to_infix` raises are a precondition (`Infix.Renderable`). `Infix.RenderChecked` models those exceptions as error values: the `assert` on the child count, the `KeyError` for an unknown operator, and the `IndexError` for `protected_sqrt()`.
- Syntax.Print: the prefix printer stands in for the search library's string form of an individual, which is not part of this model. Only its layout, as shown at calcai.py:84, is modelled, and only for lower-case names. The round trip `Printing.ParsePrint` therefore covers lower-case well-formed formulas. Capitalised text reads back lower-cased (`Parser.ParseIgnoresCase`).
- Parser.ParseFormula: Python's recursion limit (1000 frames by default) is not modelled. A formula nested about a thousand deep makes `_parse_formula` (prefix2infix.py:65) raise `RecursionError`, which is a `RuntimeError` and is reported as a line error (prefix2infix.py:182-183). The model has no depth bound and parses such a formula.
- Infix.Render: the same limit applies to `prefix_to_infix` (prefix2infix.py:89, 96-97). `Infix.Render` and `Infix.RenderChecked` render a formula of any depth.
