/** Prefix text in the search engine's layout, read back by the front end:
    printing a well-formed formula and parsing the line gives the formula back. */
module Printing {
  import opened Wrappers
  import opened Syntax
  import Tokenizer
  import Parser

  // ---------------------------------------------------------------------------
  // Printed text is lower case

  lemma LeafIsLower(s: string)
    requires IsLeafText(s)
    ensures Tokenizer.IsLower(s)
  {
  }

  lemma {:induction false} PrintIsLower(a: Ast)
    requires WellFormed(a)
    ensures Tokenizer.IsLower(Print(a))
    decreases |Print(a)|, 0
  {
    match a
    case Leaf(s) => LeafIsLower(s);
    case Call(op, args) =>
      PrintArgsIsLower(args);
      Tokenizer.LowerAppend(op, "(");
      Tokenizer.LowerAppend(op + "(", PrintArgs(args));
      Tokenizer.LowerAppend(op + "(" + PrintArgs(args), ")");
  }

  lemma {:induction false} PrintArgsIsLower(args: seq<Ast>)
    requires AllWellFormed(args)
    ensures Tokenizer.IsLower(PrintArgs(args))
    decreases |PrintArgs(args)|, 1
  {
    if |args| == 1 {
      PrintIsLower(args[0]);
    } else if |args| > 1 {
      var x, rest := Print(args[0]), PrintArgs(args[1..]);
      PrintIsLower(args[0]);
      PrintArgsIsLower(args[1..]);
      Tokenizer.LowerAppend(x, ", ");
      Tokenizer.LowerAppend(x + ", ", rest);
    }
  }

  // ---------------------------------------------------------------------------
  // Printed text scans to the formula's tokens

  lemma ScanLeaf(s: string)
    requires IsLeafText(s)
    ensures Tokenizer.Scan(s) == Tokens(Leaf(s))
  {
    if IsDigits(s) || s in {"a", "b", "c"} {
      assert s[0] != '-';
      Tokenizer.ScanWord(s);
    } else {
      var d := s[1..];
      assert s == [] + ['-'] + d;
      Tokenizer.ScanSeparator([], '-', d);
      Tokenizer.ScanEmpty();
      assert forall i :: 0 <= i < |d| ==> '0' <= d[i] <= '9';
      Tokenizer.ScanWord(d);
    }
  }

  /** `op(` ... `)` scans to the operator, both parentheses and what lies between. */
  lemma ScanCall(op: string, inner: string)
    requires IsOperatorName(op)
    ensures Tokenizer.Scan(op + "(" + inner + ")") == [op, "("] + Tokenizer.Scan(inner) + [")"]
  {
    assert op + "(" + inner + ")" == op + ['('] + (inner + [')']);
    ScanOpen(op, inner + [')']);
    ScanClose(inner);
  }

  lemma ScanOpen(op: string, y: string)
    requires op != [] && ' ' !in op
    requires forall i :: 0 <= i < |op| ==> !Tokenizer.IsSeparator(op[i])
    ensures Tokenizer.Scan(op + ['('] + y) == [op, "("] + Tokenizer.Scan(y)
  {
    Tokenizer.ScanWord(op);
    Tokenizer.ScanSeparator(op, '(', y);
  }

  lemma ScanClose(x: string)
    ensures Tokenizer.Scan(x + [')']) == Tokenizer.Scan(x) + [")"]
  {
    assert x + [')'] == x + [')'] + [];
    Tokenizer.ScanSeparator(x, ')', []);
    Tokenizer.ScanEmpty();
  }

  /** `x, rest` scans to the tokens of `x`, a comma, and the tokens of `rest`. */
  lemma ScanComma(x: string, rest: string)
    ensures Tokenizer.Scan(x + ", " + rest) == Tokenizer.Scan(x) + [","] + Tokenizer.Scan(rest)
  {
    assert x + ", " + rest == x + [','] + ([' '] + rest);
    Tokenizer.ScanSeparator(x, ',', [' '] + rest);
    ScanLeadingSpace(rest);
  }

  lemma ScanLeadingSpace(s: string)
    ensures Tokenizer.Scan([' '] + s) == Tokenizer.Scan(s)
  {
    assert [] + [' '] + s == [' '] + s;
    Tokenizer.ScanSpace([], s);
    Tokenizer.ScanEmpty();
  }

  lemma {:induction false} ScanPrint(a: Ast)
    requires WellFormed(a)
    ensures Tokenizer.Scan(Print(a)) == Tokens(a)
    decreases |Print(a)|, 0
  {
    match a
    case Leaf(s) => ScanLeaf(s);
    case Call(op, args) =>
      ScanPrintArgs(args);
      ScanCall(op, PrintArgs(args));
  }

  lemma {:induction false} ScanPrintArgs(args: seq<Ast>)
    requires AllWellFormed(args)
    ensures Tokenizer.Scan(PrintArgs(args)) == ArgTokens(args)
    decreases |PrintArgs(args)|, 1
  {
    if |args| == 0 {
      Tokenizer.ScanEmpty();
    } else if |args| == 1 {
      ScanPrint(args[0]);
    } else {
      ScanPrint(args[0]);
      ScanPrintArgs(args[1..]);
      ScanComma(Print(args[0]), PrintArgs(args[1..]));
    }
  }

  /** Tokenizing a printed formula gives exactly the formula's tokens. */
  lemma {:induction false} TokenizePrint(a: Ast)
    requires WellFormed(a)
    ensures Tokenizer.Tokenize(Print(a)) == Tokens(a)
  {
    PrintIsLower(a);
    Tokenizer.LowerOfLower(Print(a));
    Tokenizer.TokenizeIsScan(Print(a));
    ScanPrint(a);
  }

  /** The round trip: a printed well-formed formula parses back to itself. */
  lemma ParsePrint(a: Ast)
    requires WellFormed(a)
    ensures Parser.ParseLine(Print(a)) == Success(Some(a))
  {
    TokenizePrint(a);
    Parser.TokensComplete(a);
  }
}
