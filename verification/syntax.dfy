/** The parsed formula, parse errors, and the prefix text form of a formula. */
module Syntax {
  import Tokenizer

  /** A parsed formula. A leaf holds its text (a number, `-` followed by a
      number, or a variable); a call node holds the operator name and its
      arguments in source order. */
  datatype Ast = Leaf(text: string) | Call(op: string, args: seq<Ast>)

  /** Why a line does not parse: a token was expected and another was found
      (the end of the line is found as ""), or a minus sign is not followed by
      a number. */
  datatype ParseError =
    | Expected(expected: string, found: string)
    | NumberExpected(found: string)

  /** Python's `str.isdigit`, restricted to ASCII digits. */
  predicate IsDigits(t: string) {
    |t| > 0 && forall i :: 0 <= i < |t| ==> '0' <= t[i] <= '9'
  }

  /** The tokens the parser reads as a complete leaf on their own. */
  predicate IsAtom(t: string) {
    IsDigits(t) || t in {"a", "b", "c", "zero", "one", "ten"}
  }

  /** The leaf text of an atom: the named constants become their numerals. */
  function AtomValue(t: string): string {
    if t == "zero" then "0"
    else if t == "one" then "1"
    else if t == "ten" then "10"
    else t
  }

  /** The token sequence a formula is read from. A negative number is two
      tokens, because the tokenizer splits off the minus sign. */
  function Tokens(a: Ast): seq<string> {
    match a
    case Leaf(s) => if |s| > 0 && s[0] == '-' then ["-", s[1..]] else [s]
    case Call(op, args) => [op, "("] + ArgTokens(args) + [")"]
  }

  function ArgTokens(args: seq<Ast>): seq<string> {
    if |args| == 0 then []
    else if |args| == 1 then Tokens(args[0])
    else Tokens(args[0]) + [","] + ArgTokens(args[1..])
  }

  /** The prefix text of a formula, `name(child1, child2)`: the layout in which
      the search engine prints an individual, here with lower-case names. */
  function Print(a: Ast): string {
    match a
    case Leaf(s) => s
    case Call(op, args) => op + "(" + PrintArgs(args) + ")"
  }

  function PrintArgs(args: seq<Ast>): string {
    if |args| == 0 then []
    else if |args| == 1 then Print(args[0])
    else Print(args[0]) + ", " + PrintArgs(args[1..])
  }

  /** A leaf the parser can produce from text: a number, a negative number or a variable. */
  predicate IsLeafText(s: string) {
    || IsDigits(s)
    || s in {"a", "b", "c"}
    || (|s| >= 2 && s[0] == '-' && IsDigits(s[1..]))
  }

  /** An operator name that the tokenizer keeps in one piece and the parser
      does not mistake for a leaf. */
  predicate IsOperatorName(op: string) {
    && op != []
    && ' ' !in op
    && Tokenizer.IsLower(op)
    && (forall i :: 0 <= i < |op| ==> !Tokenizer.IsSeparator(op[i]))
    && !IsAtom(op)
  }

  /** A lower-case formula whose leaves and operator names the tokenizer keeps
      whole and the parser reads back as they are. */
  predicate WellFormed(a: Ast) {
    match a
    case Leaf(s) => IsLeafText(s)
    case Call(op, args) => IsOperatorName(op) && AllWellFormed(args)
  }

  predicate AllWellFormed(args: seq<Ast>) {
    |args| == 0 || (WellFormed(args[0]) && AllWellFormed(args[1..]))
  }
}
