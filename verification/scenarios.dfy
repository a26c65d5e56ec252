/** Concrete lines and what the front end makes of them. */
module Scenarios {
  import opened Wrappers
  import opened Syntax
  import Tokenizer
  import Parser
  import Printing
  import Infix

  /** `add(c, 1)`, `add(b, add(c, 1))` and `mul(a, add(b, add(c, 1)))`. */
  const Inner: Ast := Call("add", [Leaf("c"), Leaf("1")])
  const Middle: Ast := Call("add", [Leaf("b"), Inner])
  const Example: Ast := Call("mul", [Leaf("a"), Middle])

  lemma PrintBinary(op: string, x: Ast, y: Ast)
    ensures Print(Call(op, [x, y])) == op + "(" + Print(x) + ", " + Print(y) + ")"
  {
    assert PrintArgs([x, y]) == Print(x) + ", " + Print(y) by {
      assert [x, y][1..] == [y];
    }
  }

  lemma PrintInner()
    ensures Print(Inner) == "add(c, 1)"
  {
    PrintBinary("add", Leaf("c"), Leaf("1"));
  }

  lemma PrintMiddle()
    ensures Print(Middle) == "add(b, add(c, 1))"
  {
    PrintInner();
    PrintBinary("add", Leaf("b"), Inner);
  }

  lemma PrintExample()
    ensures Print(Example) == "mul(a, add(b, add(c, 1)))"
  {
    PrintMiddle();
    PrintBinary("mul", Leaf("a"), Middle);
  }



  /** A lower-case name that is not a leaf is an operator name. */
  lemma LetterName(op: string)
    requires op != [] && 'a' <= op[0] <= 'z'
    requires forall i :: 0 <= i < |op| ==> 'a' <= op[i] <= 'z' || op[i] == '_'
    requires op !in {"a", "b", "c", "zero", "one", "ten"}
    ensures IsOperatorName(op)
  {
  }

  /** Every operator of the symbol table is a name the tokenizer keeps whole
      and the parser reads as an operator. */
  lemma BinaryOperatorName(op: string)
    requires Infix.IsBinary(op)
    ensures IsOperatorName(op)
  {
    LetterName(op);
  }

  lemma WellFormedBinary(op: string, x: Ast, y: Ast)
    requires IsOperatorName(op) && WellFormed(x) && WellFormed(y)
    ensures WellFormed(Call(op, [x, y]))
  {
    assert AllWellFormed([y]) by {
      assert [y][1..] == [];
    }
    assert [x, y][1..] == [y];
    assert AllWellFormed([x, y]);
  }

  lemma ExampleWellFormed()
    ensures WellFormed(Example)
  {
    BinaryOperatorName("add");
    BinaryOperatorName("mul");
    assert IsLeafText("1") by {
      assert IsDigits("1");
    }
    WellFormedBinary("add", Leaf("c"), Leaf("1"));
    WellFormedBinary("add", Leaf("b"), Inner);
    WellFormedBinary("mul", Leaf("a"), Middle);
  }

  const ExampleLine: string := "mul(A, add(B, add(C, 1)))"

  /** The optimum the search looks for, written in capitals, is read back lower-cased. */
  lemma WorkedExample()
    ensures Parser.ParseLine(ExampleLine) == Success(Some(Example))
  {
    var line := ExampleLine;
    assert Tokenizer.Lower(line) == "mul(a, add(b, add(c, 1)))";
    PrintExample();
    Tokenizer.TokenizeLower(line);
    ExampleWellFormed();
    Printing.ParsePrint(Example);
  }

  lemma RenderInner()
    ensures Infix.Render(Inner) == "(c + 1)"
  {
  }

  lemma RenderMiddle()
    ensures Infix.Render(Middle) == "(b + (c + 1))"
  {
    RenderInner();
  }

  /** ... and rendered as fully parenthesised infix. */
  lemma RenderExample()
    ensures Infix.Render(Example) == "(a*(b + (c + 1)))"
  {
    RenderMiddle();
  }

  const SubLine: string := "sub(a, a)"
  const DivLine: string := "protected_div(b, b)"



  /** A printed binary node of two variables parses back to itself. */
  lemma ParseBinary(line: string, op: string, x: string, y: string)
    requires IsOperatorName(op) && x in {"a", "b", "c"} && y in {"a", "b", "c"}
    requires line == op + "(" + x + ", " + y + ")"
    ensures Parser.ParseLine(line) == Success(Some(Call(op, [Leaf(x), Leaf(y)])))
  {
    PrintBinary(op, Leaf(x), Leaf(y));
    WellFormedBinary(op, Leaf(x), Leaf(y));
    Printing.ParsePrint(Call(op, [Leaf(x), Leaf(y)]));
  }

  lemma ParseSub()
    ensures Parser.ParseLine(SubLine) == Success(Some(Call("sub", [Leaf("a"), Leaf("a")])))
  {
    BinaryOperatorName("sub");
    assert SubLine == "sub" + "(" + "a" + ", " + "a" + ")";
    ParseBinary(SubLine, "sub", "a", "a");
  }

  lemma ParseDiv()
    ensures Parser.ParseLine(DivLine) == Success(Some(Call("protected_div", [Leaf("b"), Leaf("b")])))
  {
    BinaryOperatorName("protected_div");
    assert DivLine == "protected_div" + "(" + "b" + ", " + "b" + ")";
    ParseBinary(DivLine, "protected_div", "b", "b");
  }

  /** Equal operands cancel, compared as rendered text. */
  lemma SelfCancels()
    ensures Infix.Render(Call("sub", [Leaf("a"), Leaf("a")])) == "0"
    ensures Infix.Render(Call("protected_div", [Leaf("b"), Leaf("b")])) == "1"
  {
  }

  /** A zero factor absorbs the other operand; zero and one are identities. */
  lemma Identities()
    ensures Infix.Render(Call("mul", [Leaf("a"), Leaf("0")])) == "0"
    ensures Infix.Render(Call("mul", [Leaf("1"), Leaf("0")])) == "0"
    ensures Infix.Render(Call("add", [Leaf("0"), Leaf("c")])) == "c"
    ensures Infix.Render(Call("sub", [Leaf("b"), Leaf("0")])) == "b"
    ensures Infix.Render(Call("mul", [Leaf("1"), Leaf("b")])) == "b"
  {
  }

  /** A formula cut short fails expecting `)` and finding the end of the line. */
  const UnclosedLine: string := "add(a, b"

  /** An operator, `(`, and two words separated by a comma. */
  lemma ScanVariable(x: string)
    requires x in {"a", "b", "c"}
    ensures Tokenizer.Scan(x) == [x]
  {
    Printing.ScanLeaf(x);
  }

  lemma ScanOpenPair(op: string, x: string, y: string)
    requires IsOperatorName(op) && Tokenizer.Scan(x) == [x] && Tokenizer.Scan(y) == [y]
    ensures Tokenizer.Scan(op + ['('] + (x + ", " + y)) == [op, "(", x, ",", y]
  {
    Printing.ScanOpen(op, x + ", " + y);
    Printing.ScanComma(x, y);
    assert [op, "("] + ([x] + [","] + [y]) == [op, "(", x, ",", y];
  }

  lemma UnclosedTokenize()
    ensures Tokenizer.Tokenize(UnclosedLine) == ["add", "(", "a", ",", "b"]
  {
    var line := UnclosedLine;
    assert line == "add" + ['('] + ("a" + ", " + "b");
    Tokenizer.LowerOfLower(line);
    Tokenizer.TokenizeIsScan(line);
    BinaryOperatorName("add");
    ScanVariable("a");
    ScanVariable("b");
    ScanOpenPair("add", "a", "b");
  }

  lemma UnclosedTokens(ts: seq<string>)
    requires ts == ["add", "(", "a", ",", "b"]
    ensures Parser.ParseTokens(ts) == Failure(Expected(")", ""))
  {
    Parser.ParseLeaves(ts, 2);
    Parser.ParseLeaves(ts, 4);
    Parser.ArgListOne(ts, 4, Leaf("b"), 5);
    Parser.ArgListCons(ts, 2, Leaf("a"), 3, [Leaf("b")], 5);
    assert !IsDigits("add") by { assert "add"[0] == 'a'; }
    Parser.ParseCalls(ts, 0);
  }

  lemma Unclosed()
    ensures Parser.ParseLine(UnclosedLine) == Failure(Expected(")", ""))
  {
    UnclosedTokenize();
    UnclosedTokens(Tokenizer.Tokenize(UnclosedLine));
  }
}
