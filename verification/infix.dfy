/** `prefix_to_infix`: renders a parsed formula as fully parenthesised infix,
    simplifying on the way by comparing the rendered operands as strings. */
module Infix {
  import opened Wrappers
  import opened Syntax

  /** The one unary operator; every other operator node is binary. */
  const Sqrt: string := "protected_sqrt"

  /** The operators of the symbol table. */
  predicate IsBinary(op: string) {
    op in {"add", "sub", "mul", "protected_div", "protected_power"}
  }

  /** The symbol table: the infix spelling of each binary operator. */
  function Symbol(op: string): (s: string)
    requires IsBinary(op)
    ensures |s| >= 1
  {
    if op == "add" then " + "
    else if op == "sub" then " - "
    else if op == "mul" then "*"
    else if op == "protected_div" then "/"
    else "^"
  }

  /** The formulas rendered without raising: a `protected_sqrt` node needs a
      first child (further children are ignored), any other node needs exactly
      two children and an operator of the symbol table. */
  predicate Renderable(a: Ast) {
    match a
    case Leaf(_) => true
    case Call(op, args) =>
      if op == Sqrt then |args| >= 1 && Renderable(args[0])
      else |args| == 2 && IsBinary(op) && Renderable(args[0]) && Renderable(args[1])
  }

  /** The simplification rules in the order they are tried, on the rendered
      operands; `None` when no rule fires. A rule that fires yields a constant
      or one of the operands unchanged. */
  function Simplified(op: string, l: string, r: string): (s: Option<string>)
    ensures s.Some? ==> s.value == "0" || s.value == "1" || s.value == l || s.value == r
  {
    if op == "sub" && l == r then Some("0")
    else if op == "mul" && (l == "0" || r == "0") then Some("0")
    else if op == "protected_div" && l == r then Some("1")
    else if op == "add" && l == "0" then Some(r)
    else if op == "add" && r == "0" then Some(l)
    else if op == "sub" && r == "0" then Some(l)
    else if op == "mul" && l == "1" then Some(r)
    else if op == "mul" && r == "1" then Some(l)
    else None
  }

  /** One binary node from its rendered operands. The result is a constant,
      one operand unchanged, or the parenthesised operation, and never longer
      than the parenthesised operation. */
  function Combine(op: string, l: string, r: string): (s: string)
    requires IsBinary(op)
    ensures s == "0" || s == "1" || s == l || s == r || s == "(" + l + Symbol(op) + r + ")"
    ensures |s| <= |l| + |Symbol(op)| + |r| + 2
  {
    match Simplified(op, l, r)
    case Some(t) => t
    case None => "(" + l + Symbol(op) + r + ")"
  }

  /** `prefix_to_infix`. Simplifying never makes the text longer than the
      unsimplified rendering. */
  function Render(a: Ast): (s: string)
    requires Renderable(a)
    ensures |s| <= |Plain(a)|
  {
    match a
    case Leaf(t) => t
    case Call(op, args) =>
      if op == Sqrt then "sqrt(" + Render(args[0]) + ")"
      else Combine(op, Render(args[0]), Render(args[1]))
  }

  /** Each rule on its own, whatever the order: whenever a rule's condition
      holds, the node renders as that rule says, so no two rules that apply to
      the same operands disagree. When no condition holds the node is the
      parenthesised operation. */
  lemma CombineRules(op: string, l: string, r: string)
    requires IsBinary(op)
    ensures op == "sub" && l == r ==> Combine(op, l, r) == "0"
    ensures op == "mul" && (l == "0" || r == "0") ==> Combine(op, l, r) == "0"
    ensures op == "protected_div" && l == r ==> Combine(op, l, r) == "1"
    ensures op == "add" && l == "0" ==> Combine(op, l, r) == r
    ensures op == "add" && r == "0" ==> Combine(op, l, r) == l
    ensures op == "sub" && r == "0" ==> Combine(op, l, r) == l
    ensures op == "mul" && l == "1" ==> Combine(op, l, r) == r
    ensures op == "mul" && r == "1" ==> Combine(op, l, r) == l
    ensures !(op == "sub" && (l == r || r == "0")) && !(op == "protected_div" && l == r)
            && !(op == "mul" && (l == "0" || r == "0" || l == "1" || r == "1"))
            && !(op == "add" && (l == "0" || r == "0")) ==>
              Combine(op, l, r) == "(" + l + Symbol(op) + r + ")"
  {
  }

  /** The symbol table has no two operators with the same spelling. */
  lemma SymbolInjective(op1: string, op2: string)
    requires IsBinary(op1) && IsBinary(op2) && Symbol(op1) == Symbol(op2)
    ensures op1 == op2
  {
  }

  // ---------------------------------------------------------------------------
  // The exceptions of `prefix_to_infix`

  /** Why `prefix_to_infix` raises: the `assert` on the child count of a binary
      node, the `IndexError` of `protected_sqrt()`, or the `KeyError` of an
      operator outside the symbol table. */
  datatype RenderError =
    | ChildCount(op: string, count: nat)
    | MissingArgument
    | UnknownOperator(op: string)

  /** `prefix_to_infix` with its exceptions as values, checked in the order
      the source meets them: the child count first, then the children left to
      right, then the rules, then the symbol table. It succeeds exactly on the
      renderable formulas, and then gives their rendering. */
  function RenderChecked(a: Ast): (r: Result<string, RenderError>)
    ensures r.Success? <==> Renderable(a)
    ensures r.Success? ==> r.value == Render(a)
  {
    match a
    case Leaf(t) => Success(t)
    case Call(op, args) =>
      if op == Sqrt then
        if |args| == 0 then Failure(MissingArgument)
        else
          var s :- RenderChecked(args[0]);
          Success("sqrt(" + s + ")")
      else if |args| != 2 then Failure(ChildCount(op, |args|))
      else
        var l :- RenderChecked(args[0]);
        var r :- RenderChecked(args[1]);
        match Simplified(op, l, r)
        case Some(t) => Success(t)
        case None => if IsBinary(op) then Success("(" + l + Symbol(op) + r + ")") else Failure(UnknownOperator(op))
  }

  // ---------------------------------------------------------------------------
  // Reference definition: simplify the tree, then print it without rules

  /** The fully parenthesised infix text, with no simplification. */
  function Plain(a: Ast): string
    requires Renderable(a)
  {
    match a
    case Leaf(t) => t
    case Call(op, args) =>
      if op == Sqrt then "sqrt(" + Plain(args[0]) + ")"
      else "(" + Plain(args[0]) + Symbol(op) + Plain(args[1]) + ")"
  }

  /** The rules on trees whose operands are already simplified: the node is
      replaced by a constant leaf or by one of its operands. */
  function Rule(op: string, x: Ast, y: Ast): (r: Option<Ast>)
    requires Renderable(x) && Renderable(y)
    ensures r.Some? ==> r.value == Leaf("0") || r.value == Leaf("1") || r.value == x || r.value == y
  {
    var l, r := Plain(x), Plain(y);
    if op == "sub" && l == r then Some(Leaf("0"))
    else if op == "mul" && (l == "0" || r == "0") then Some(Leaf("0"))
    else if op == "protected_div" && l == r then Some(Leaf("1"))
    else if op == "add" && l == "0" then Some(y)
    else if op == "add" && r == "0" then Some(x)
    else if op == "sub" && r == "0" then Some(x)
    else if op == "mul" && l == "1" then Some(y)
    else if op == "mul" && r == "1" then Some(x)
    else None
  }

  /** No rule fires anywhere in the tree, and every square root has one child. */
  predicate Irreducible(a: Ast)
    requires Renderable(a)
  {
    match a
    case Leaf(_) => true
    case Call(op, args) =>
      if op == Sqrt then |args| == 1 && Irreducible(args[0])
      else Irreducible(args[0]) && Irreducible(args[1]) && Rule(op, args[0], args[1]).None?
  }

  /** The tree with every rule applied bottom-up. */
  function Reduce(a: Ast): (r: Ast)
    requires Renderable(a)
    ensures Renderable(r) && Irreducible(r)
  {
    match a
    case Leaf(_) => a
    case Call(op, args) =>
      if op == Sqrt then Call(Sqrt, [Reduce(args[0])])
      else
        var x, y := Reduce(args[0]), Reduce(args[1]);
        match Rule(op, x, y)
        case Some(t) => t
        case None => Call(op, [x, y])
  }

  /** The string rules and the tree rules agree. */
  lemma RuleAgrees(op: string, x: Ast, y: Ast)
    requires IsBinary(op) && Renderable(x) && Renderable(y)
    ensures Rule(op, x, y).Some? ==> Plain(Rule(op, x, y).value) == Combine(op, Plain(x), Plain(y))
    ensures Rule(op, x, y).None? ==> Combine(op, Plain(x), Plain(y)) == Plain(Call(op, [x, y]))
  {
  }

  /** Rendering is simplifying the tree and then printing it without rules. */
  lemma {:induction false} RenderIsPlainOfReduce(a: Ast)
    requires Renderable(a)
    ensures Render(a) == Plain(Reduce(a))
  {
    match a
    case Leaf(_) =>
    case Call(op, args) =>
      RenderIsPlainOfReduce(args[0]);
      if op != Sqrt {
        RenderIsPlainOfReduce(args[1]);
        RuleAgrees(op, Reduce(args[0]), Reduce(args[1]));
      }
  }

  /** Simplifying leaves a tree with nothing to simplify unchanged. */
  lemma {:induction false} ReduceIrreducible(a: Ast)
    requires Renderable(a) && Irreducible(a)
    ensures Reduce(a) == a
  {
    match a
    case Leaf(_) =>
    case Call(op, args) =>
      ReduceIrreducible(args[0]);
      if op == Sqrt {
        assert [args[0]] == args;
      } else {
        ReduceIrreducible(args[1]);
        assert [args[0], args[1]] == args;
      }
  }

  lemma {:induction false} ReduceIdempotent(a: Ast)
    requires Renderable(a)
    ensures Reduce(Reduce(a)) == Reduce(a)
  {
    ReduceIrreducible(Reduce(a));
  }

  /** When no rule fires anywhere, the rendering is the plain infix text. */
  lemma {:induction false} IrreducibleRendersPlain(a: Ast)
    requires Renderable(a) && Irreducible(a)
    ensures Render(a) == Plain(a)
  {
    RenderIsPlainOfReduce(a);
    ReduceIrreducible(a);
  }

  /** Rendering the simplified tree gives the same text as rendering the original. */
  lemma {:induction false} RenderReduce(a: Ast)
    requires Renderable(a)
    ensures Render(Reduce(a)) == Render(a)
  {
    RenderIsPlainOfReduce(a);
    IrreducibleRendersPlain(Reduce(a));
  }
}
