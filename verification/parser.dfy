/** `PrefixParser` of prefix2infix.py: a recursive-descent parser over the
    token list, with the cursor modelled as a position in that list. */
module Parser {
  import opened Wrappers
  import opened Syntax
  import Tokenizer

  /** `end_of_line`: the token seen once the input has run out. */
  const EndOfLine: string := ""

  /** `self.token` when the cursor is at position `p`; a position at or past
      the end reads as the end of the line. */
  function Cur(toks: seq<string>, p: nat): string {
    if p < |toks| then toks[p] else EndOfLine
  }

  /** `_next_token`: advance by one, staying at the end once it is reached. */
  function Next(toks: seq<string>, p: nat): nat {
    if p < |toks| then p + 1 else p
  }

  /** The cursor as the source keeps it: the index `i` and the current `token`. */
  datatype SourceCursor = SourceCursor(i: nat, token: string)

  /** `_first_token`. With no tokens `i` is left as it was; any `i` will do. */
  function SourceFirst(toks: seq<string>, i: nat): SourceCursor {
    if |toks| > 0 then SourceCursor(0, toks[0]) else SourceCursor(i, EndOfLine)
  }

  /** `_next_token`: past the last token `i` stays put and the token is the end of line. */
  function SourceNext(toks: seq<string>, c: SourceCursor): SourceCursor {
    if |toks| > c.i + 1 then SourceCursor(c.i + 1, toks[c.i + 1]) else SourceCursor(c.i, EndOfLine)
  }

  /** The source's cursor and position `p` stand for the same parser state: the
      same current token, with `i` at `p` while tokens remain and at the last
      token once they have run out. */
  predicate Agrees(toks: seq<string>, c: SourceCursor, p: nat) {
    && c.token == Cur(toks, p)
    && (p < |toks| ==> c.i == p)
    && (p >= |toks| > 0 ==> c.i == |toks| - 1)
  }

  lemma FirstAgrees(toks: seq<string>, i: nat)
    ensures Agrees(toks, SourceFirst(toks, i), 0)
    ensures SourceFirst(toks, i).token == Cur(toks, 0)
  {
  }

  /** `Next` makes the same move as `_next_token`, so the parser never needs `i`. */
  lemma NextAgrees(toks: seq<string>, c: SourceCursor, p: nat)
    requires p <= |toks| && Agrees(toks, c, p)
    ensures Agrees(toks, SourceNext(toks, c), Next(toks, p))
    ensures SourceNext(toks, c).token == Cur(toks, Next(toks, p))
  {
  }

  /** `_expect_token`: the current token must be `expected`; then advance. */
  function Expect(toks: seq<string>, p: nat, expected: string): (r: Result<nat, ParseError>)
    requires p <= |toks|
    ensures r.Success? ==> Cur(toks, p) == expected && r.value == Next(toks, p) <= |toks|
  {
    if Cur(toks, p) != expected then Failure(Expected(expected, Cur(toks, p)))
    else Success(Next(toks, p))
  }

  /** `_parse_formula`: parses one formula starting at `p` and returns it with
      the position after it. */
  function ParseFormula(toks: seq<string>, p: nat): (r: Result<(Ast, nat), ParseError>)
    requires p <= |toks|
    ensures r.Success? ==> p < r.value.1 <= |toks|
    decreases |toks| - p, 0
  {
    var t := Cur(toks, p);
    if IsAtom(t) then
      Success((Leaf(AtomValue(t)), Next(toks, p)))
    else if t == "-" then
      var q := Next(toks, p);
      if !IsDigits(Cur(toks, q)) then Failure(NumberExpected(Cur(toks, q)))
      else Success((Leaf("-" + Cur(toks, q)), Next(toks, q)))
    else
      var q :- Expect(toks, Next(toks, p), "(");
      var inner :- if Cur(toks, q) != ")" then ParseArgList(toks, q) else Success(([], q));
      var r :- Expect(toks, inner.1, ")");
      Success((Call(t, inner.0), r))
  }

  /** The argument loop of `_parse_formula`: formulas separated by commas. */
  function ParseArgList(toks: seq<string>, p: nat): (r: Result<(seq<Ast>, nat), ParseError>)
    requires p <= |toks|
    ensures r.Success? ==> p < r.value.1 <= |toks| && |r.value.0| >= 1
    decreases |toks| - p, 1
  {
    var first :- ParseFormula(toks, p);
    if Cur(toks, first.1) == "," then
      var rest :- ParseArgList(toks, Next(toks, first.1));
      Success(([first.0] + rest.0, rest.1))
    else
      Success(([first.0], first.1))
  }

  /** `parse_line` after tokenizing: `None` for a blank or comment line,
      otherwise one formula followed by the end of the line. */
  function ParseTokens(toks: seq<string>): (r: Result<Option<Ast>, ParseError>)
    ensures r == Success(None) <==> Cur(toks, 0) == "#" || Cur(toks, 0) == EndOfLine
    ensures r.Success? && r.value.Some? ==>
              && ParseFormula(toks, 0).Success?
              && ParseFormula(toks, 0).value.0 == r.value.value
              && Cur(toks, ParseFormula(toks, 0).value.1) == EndOfLine
  {
    var t := Cur(toks, 0);
    if t == "#" || t == EndOfLine then Success(None)
    else
      var f :- ParseFormula(toks, 0);
      var done :- Expect(toks, f.1, EndOfLine);
      Success(Some(f.0))
  }

  /** `parse_line`. A formula is returned only when it takes up the whole line. */
  function ParseLine(line: string): (r: Result<Option<Ast>, ParseError>)
    ensures var ts := Tokenizer.Tokenize(line);
            r == Success(None) <==> |ts| == 0 || ts[0] == "#"
    ensures var ts := Tokenizer.Tokenize(line);
            r.Success? && r.value.Some? ==> ParseFormula(ts, 0) == Success((r.value.value, |ts|))
  {
    ParseTokens(Tokenizer.Tokenize(line))
  }

  /** What becomes of a line that is not blank or a comment: the formula's
      error, an error naming the first token left over, or the formula. */
  lemma {:induction false} LineOutcome(line: string)
    requires var ts := Tokenizer.Tokenize(line); |ts| > 0 && ts[0] != "#"
    ensures var ts := Tokenizer.Tokenize(line);
            match ParseFormula(ts, 0)
            case Failure(e) => ParseLine(line) == Failure(e)
            case Success((a, q)) =>
              if q < |ts| then ParseLine(line) == Failure(Expected(EndOfLine, ts[q]))
              else ParseLine(line) == Success(Some(a))
  {
    TokensOutcome(Tokenizer.Tokenize(line));
  }

  lemma TokensOutcome(ts: seq<string>)
    requires |ts| > 0 && ts[0] != "#"
    requires forall k :: 0 <= k < |ts| ==> ts[k] != EndOfLine
    ensures ParseFormula(ts, 0).Failure? ==> ParseTokens(ts) == Failure(ParseFormula(ts, 0).error)
    ensures ParseFormula(ts, 0).Success? && ParseFormula(ts, 0).value.1 < |ts| ==>
              ParseTokens(ts) == Failure(Expected(EndOfLine, ts[ParseFormula(ts, 0).value.1]))
    ensures ParseFormula(ts, 0).Success? && ParseFormula(ts, 0).value.1 >= |ts| ==>
              ParseTokens(ts) == Success(Some(ParseFormula(ts, 0).value.0))
  {
    assert Cur(ts, 0) == ts[0];
    var r := ParseFormula(ts, 0);
    if r.Success? {
      var q := r.value.1;
      if q < |ts| {
        assert Expect(ts, q, EndOfLine) == Failure(Expected(EndOfLine, ts[q]));
      } else {
        assert Expect(ts, q, EndOfLine).Success?;
      }
    }
  }

  /** Case does not matter: the line is lower-cased first. */
  lemma ParseIgnoresCase(line: string)
    ensures ParseLine(Tokenizer.Lower(line)) == ParseLine(line)
  {
    Tokenizer.TokenizeLower(line);
  }

  // ---------------------------------------------------------------------------
  // The grammar, case by case

  /** Leaves: numbers and variables stand for themselves, the named constants
      for their numerals, and `-` must be followed by a number. */
  lemma ParseLeaves(toks: seq<string>, p: nat)
    requires p < |toks|
    ensures IsDigits(toks[p]) || toks[p] in {"a", "b", "c"} ==>
              ParseFormula(toks, p) == Success((Leaf(toks[p]), p + 1))
    ensures toks[p] == "zero" ==> ParseFormula(toks, p) == Success((Leaf("0"), p + 1))
    ensures toks[p] == "one" ==> ParseFormula(toks, p) == Success((Leaf("1"), p + 1))
    ensures toks[p] == "ten" ==> ParseFormula(toks, p) == Success((Leaf("10"), p + 1))
    ensures toks[p] == "-" && IsDigits(Cur(toks, p + 1)) ==>
              ParseFormula(toks, p) == Success((Leaf("-" + toks[p + 1]), p + 2))
    ensures toks[p] == "-" && !IsDigits(Cur(toks, p + 1)) ==>
              ParseFormula(toks, p) == Failure(NumberExpected(Cur(toks, p + 1)))
  {
    var t := toks[p];
    if IsDigits(t) {
      assert t != "zero" && t != "one" && t != "ten" by {
        assert !('0' <= 'z' <= '9') && !('0' <= 'o' <= '9') && !('0' <= 't' <= '9');
        assert t[0] != 'z' && t[0] != 'o' && t[0] != 't';
      }
    }
    if t == "-" {
      assert !IsDigits(t) by {
        assert t[0] == '-';
      }
    }
  }

  /** Every other token starts a call node: the token, `(`, the arguments, `)`.
      A missing parenthesis is reported with the token found in its place. */
  lemma ParseCalls(toks: seq<string>, p: nat)
    requires p <= |toks|
    requires !IsAtom(Cur(toks, p)) && Cur(toks, p) != "-"
    ensures Cur(toks, p + 1) != "(" ==>
              ParseFormula(toks, p) == Failure(Expected("(", Cur(toks, p + 1)))
    ensures Cur(toks, p + 1) == "(" && Cur(toks, p + 2) == ")" ==>
              ParseFormula(toks, p) == Success((Call(toks[p], []), p + 3))
    ensures Cur(toks, p + 1) == "(" && Cur(toks, p + 2) != ")" ==>
              match ParseArgList(toks, p + 2)
              case Failure(e) => ParseFormula(toks, p) == Failure(e)
              case Success((args, q)) =>
                if Cur(toks, q) == ")" then ParseFormula(toks, p) == Success((Call(toks[p], args), q + 1))
                else ParseFormula(toks, p) == Failure(Expected(")", Cur(toks, q)))
    ensures ParseFormula(toks, p).Success? ==> ParseFormula(toks, p).value.0 == Call(toks[p], ParseFormula(toks, p).value.0.args)
  {
  }

  // ---------------------------------------------------------------------------
  // Soundness: a parsed formula is exactly the tokens it was read from

  /** The tokens with each named constant replaced by its numeral. */
  function Canon(toks: seq<string>): seq<string> {
    seq(|toks|, i requires 0 <= i < |toks| => AtomValue(toks[i]))
  }

  lemma AtomLeaf(t: string)
    requires IsAtom(t)
    ensures Tokens(Leaf(AtomValue(t))) == [AtomValue(t)]
  {
    var v := AtomValue(t);
    if IsDigits(t) && v == t {
      assert v[0] != '-';
    }
  }

  /** Reading a formula consumes exactly its own tokens, up to the spelling of
      the named constants. */
  lemma {:induction false} FormulaSound(toks: seq<string>, p: nat)
    requires p <= |toks|
    ensures ParseFormula(toks, p).Success? ==>
              Tokens(ParseFormula(toks, p).value.0) == Canon(toks)[p..ParseFormula(toks, p).value.1]
    decreases |toks| - p, 2
  {
    var r := ParseFormula(toks, p);
    if r.Success? {
      var t := toks[p];
      if IsAtom(t) {
        AtomSound(toks, p);
      } else if t == "-" {
        MinusSound(toks, p);
      } else {
        CallSound(toks, p);
      }
    }
  }

  lemma AtomSound(toks: seq<string>, p: nat)
    requires p < |toks| && IsAtom(toks[p])
    ensures ParseFormula(toks, p) == Success((Leaf(AtomValue(toks[p])), p + 1))
    ensures Tokens(Leaf(AtomValue(toks[p]))) == Canon(toks)[p..p + 1]
  {
    AtomLeaf(toks[p]);
    assert Canon(toks)[p..p + 1] == [Canon(toks)[p]];
  }

  lemma MinusSound(toks: seq<string>, p: nat)
    requires p < |toks| && toks[p] == "-" && ParseFormula(toks, p).Success?
    ensures p + 1 < |toks| && ParseFormula(toks, p) == Success((Leaf("-" + toks[p + 1]), p + 2))
    ensures Tokens(Leaf("-" + toks[p + 1])) == Canon(toks)[p..p + 2]
  {
    ParseLeaves(toks, p);
    var d := toks[p + 1];
    assert ("-" + d)[1..] == d;
    assert AtomValue(d) == d by {
      assert d[0] != 'z' && d[0] != 'o' && d[0] != 't';
    }
    assert Canon(toks)[p..p + 2] == [Canon(toks)[p], Canon(toks)[p + 1]];
  }

  lemma {:induction false} CallSound(toks: seq<string>, p: nat)
    requires p < |toks| && !IsAtom(toks[p]) && toks[p] != "-"
    ensures ParseFormula(toks, p).Success? ==>
              Tokens(ParseFormula(toks, p).value.0) == Canon(toks)[p..ParseFormula(toks, p).value.1]
    decreases |toks| - p, 1
  {
    ParseCalls(toks, p);
    if ParseFormula(toks, p).Success? {
      if Cur(toks, p + 2) == ")" {
        CallEmptySound(toks, p);
      } else {
        var al := ParseArgList(toks, p + 2);
        CallArgsSound(toks, p, al.value.0, al.value.1);
      }
    }
  }

  lemma CallEmptySound(toks: seq<string>, p: nat)
    requires p + 2 < |toks| && !IsAtom(toks[p]) && toks[p + 1] == "(" && toks[p + 2] == ")"
    ensures Tokens(Call(toks[p], [])) == Canon(toks)[p..p + 3]
  {
    var c := Canon(toks);
    assert c[p] == toks[p] && c[p + 1] == "(" && c[p + 2] == ")";
    assert c[p..p + 3] == [c[p], c[p + 1], c[p + 2]];
  }

  lemma {:induction false} CallArgsSound(toks: seq<string>, p: nat, args: seq<Ast>, q: nat)
    requires p + 2 <= q < |toks| && !IsAtom(toks[p]) && toks[p + 1] == "(" && toks[q] == ")"
    requires ParseArgList(toks, p + 2) == Success((args, q))
    ensures Tokens(Call(toks[p], args)) == Canon(toks)[p..q + 1]
    decreases |toks| - p, 0
  {
    ArgListSound(toks, p + 2);
    CanonKeeps(toks, p);
    CanonKeeps(toks, p + 1);
    CanonKeeps(toks, q);
    CallTokens(Canon(toks), toks[p], args, p, q);
  }

  /** Only the named constants are respelled. */
  lemma CanonKeeps(toks: seq<string>, i: nat)
    requires i < |toks| && (!IsAtom(toks[i]) || toks[i] in {"(", ")"})
    ensures Canon(toks)[i] == toks[i]
  {
  }

  lemma CallTokens(c: seq<string>, op: string, args: seq<Ast>, p: nat, q: nat)
    requires p + 2 <= q < |c| && c[p] == op && c[p + 1] == "(" && c[q] == ")"
    requires ArgTokens(args) == c[p + 2..q]
    ensures Tokens(Call(op, args)) == c[p..q + 1]
  {
    SliceAround(c, p, q);
  }

  lemma SliceAround(c: seq<string>, p: nat, q: nat)
    requires p + 2 <= q < |c|
    ensures c[p..q + 1] == [c[p], c[p + 1]] + c[p + 2..q] + [c[q]]
  {
  }

  lemma {:induction false} ArgListSound(toks: seq<string>, p: nat)
    requires p <= |toks|
    ensures ParseArgList(toks, p).Success? ==>
              ArgTokens(ParseArgList(toks, p).value.0) == Canon(toks)[p..ParseArgList(toks, p).value.1]
    decreases |toks| - p, 3
  {
    ParseArgs(toks, p);
    if ParseArgList(toks, p).Success? {
      FormulaSound(toks, p);
      var f, q1 := ParseFormula(toks, p).value.0, ParseFormula(toks, p).value.1;
      if Cur(toks, q1) == "," {
        ArgListSound(toks, q1 + 1);
        var rest, q := ParseArgList(toks, q1 + 1).value.0, ParseArgList(toks, q1 + 1).value.1;
        ConsSound(Canon(toks), f, rest, p, q1, q);
      } else {
        assert [f][0] == f;
      }
    }
  }

  /** The tokens of `f, rest` lie side by side when those of `f` and of `rest` do. */
  lemma ConsSound(c: seq<string>, f: Ast, rest: seq<Ast>, p: nat, q1: nat, q: nat)
    requires p <= q1 < q <= |c| && c[q1] == ","
    requires Tokens(f) == c[p..q1] && |rest| >= 1 && ArgTokens(rest) == c[q1 + 1..q]
    ensures ArgTokens([f] + rest) == c[p..q]
  {
    ArgTokensCons(f, rest);
    SliceAt(c, p, q1, q);
  }

  lemma ArgTokensCons(f: Ast, rest: seq<Ast>)
    requires |rest| >= 1
    ensures ArgTokens([f] + rest) == Tokens(f) + [","] + ArgTokens(rest)
  {
    var args := [f] + rest;
    assert args[0] == f && args[1..] == rest;
  }

  lemma SliceAt(c: seq<string>, p: nat, m: nat, q: nat)
    requires p <= m < q <= |c|
    ensures c[p..q] == c[p..m] + [c[m]] + c[m + 1..q]
  {
  }

  /** A formula read from a line is exactly the line's tokens. */
  lemma {:induction false} LineSound(line: string)
    ensures ParseLine(line).Success? && ParseLine(line).value.Some? ==>
              Tokens(ParseLine(line).value.value) == Canon(Tokenizer.Tokenize(line))
  {
    var ts := Tokenizer.Tokenize(line);
    FormulaSound(ts, 0);
    assert Canon(ts)[0..|ts|] == Canon(ts);
  }

  // ---------------------------------------------------------------------------
  // Completeness: every lower-case well-formed formula is read back

  /** The tokens of a well-formed formula parse back to it, and
      nothing follows it. */
  lemma TokensComplete(a: Ast)
    requires WellFormed(a)
    ensures ParseTokens(Tokens(a)) == Success(Some(a))
  {
    var ts := Tokens(a);
    assert ts[0..|ts|] == ts;
    FormulaComplete(a, ts, 0);
    FirstToken(a);
  }

  lemma OperatorFacts(op: string)
    requires IsOperatorName(op)
    ensures !IsAtom(op) && op != "-" && op != ")" && op != "," && op != "#" && op != EndOfLine
  {
    assert op[0] != '-' && op[0] != ')' && op[0] != ',' && op[0] != '#';
  }

  lemma FirstToken(a: Ast)
    requires WellFormed(a)
    ensures |Tokens(a)| >= 1
    ensures Tokens(a)[0] != ")" && Tokens(a)[0] != "," && Tokens(a)[0] != "#" && Tokens(a)[0] != EndOfLine
  {
    match a
    case Call(op, _) => OperatorFacts(op);
    case Leaf(s) =>
      if IsDigits(s) {
        assert s[0] != '-' && '0' <= s[0] <= '9';
      }
  }

  lemma ArgTokensFirst(args: seq<Ast>)
    requires |args| >= 1 && AllWellFormed(args)
    ensures |ArgTokens(args)| >= 1 && ArgTokens(args)[0] != ")"
  {
    FirstToken(args[0]);
  }

  /** The parts of a call node's tokens. */
  lemma CallSlices(toks: seq<string>, p: nat, op: string, inner: seq<string>)
    requires p + |inner| + 3 <= |toks|
    requires toks[p..p + |inner| + 3] == [op, "("] + inner + [")"]
    ensures toks[p] == op && toks[p + 1] == "(" && toks[p + 2 + |inner|] == ")"
    ensures toks[p + 2..p + 2 + |inner|] == inner
  {
    var w := toks[p..p + |inner| + 3];
    assert toks[p] == w[0] && toks[p + 1] == w[1] && toks[p + 2 + |inner|] == w[2 + |inner|];
    var mid := toks[p + 2..p + 2 + |inner|];
    forall k | 0 <= k < |inner|
      ensures mid[k] == inner[k]
    {
      assert mid[k] == w[k + 2];
    }
  }

  /** The parts of an argument list's tokens. */
  lemma ArgSlices(toks: seq<string>, p: nat, first: seq<string>, rest: seq<string>)
    requires p + |first| + 1 + |rest| <= |toks|
    requires toks[p..p + |first| + 1 + |rest|] == first + [","] + rest
    ensures toks[p..p + |first|] == first && toks[p + |first|] == ","
    ensures toks[p + |first| + 1..p + |first| + 1 + |rest|] == rest
  {
    var w := toks[p..p + |first| + 1 + |rest|];
    assert toks[p..p + |first|] == w[..|first|];
    assert toks[p + |first|] == w[|first|];
    assert toks[p + |first| + 1..p + |first| + 1 + |rest|] == w[|first| + 1..];
  }

  lemma {:induction false} FormulaComplete(a: Ast, toks: seq<string>, p: nat)
    requires WellFormed(a)
    requires p + |Tokens(a)| <= |toks| && toks[p..p + |Tokens(a)|] == Tokens(a)
    ensures ParseFormula(toks, p) == Success((a, p + |Tokens(a)|))
    decreases |Tokens(a)|, 2
  {
    match a
    case Leaf(s) => LeafComplete(s, toks, p);
    case Call(op, args) => CallComplete(op, args, toks, p);
  }

  lemma LeafComplete(s: string, toks: seq<string>, p: nat)
    requires IsLeafText(s)
    requires p + |Tokens(Leaf(s))| <= |toks| && toks[p..p + |Tokens(Leaf(s))|] == Tokens(Leaf(s))
    ensures ParseFormula(toks, p) == Success((Leaf(s), p + |Tokens(Leaf(s))|))
  {
    var ts := Tokens(Leaf(s));
    assert toks[p] == ts[0] by {
      assert toks[p..p + |ts|][0] == toks[p];
    }
    ParseLeaves(toks, p);
    if IsDigits(s) || s in {"a", "b", "c"} {
      assert s[0] != '-';
    } else {
      assert ts == ["-", s[1..]];
      assert toks[p + 1] == s[1..] by {
        assert toks[p..p + |ts|][1] == toks[p + 1];
      }
      assert "-" + s[1..] == s;
    }
  }

  lemma {:induction false} CallComplete(op: string, args: seq<Ast>, toks: seq<string>, p: nat)
    requires IsOperatorName(op) && AllWellFormed(args)
    requires p + |ArgTokens(args)| + 3 <= |toks|
    requires toks[p..p + |ArgTokens(args)| + 3] == [op, "("] + ArgTokens(args) + [")"]
    ensures ParseFormula(toks, p) == Success((Call(op, args), p + |ArgTokens(args)| + 3))
    decreases |ArgTokens(args)| + 3, 1
  {
    if |args| == 0 {
      CallSlices(toks, p, op, []);
      OperatorFacts(op);
      CallEmptyParses(toks, p, op);
    } else {
      CallArgsComplete(op, args, toks, p, |ArgTokens(args)|);
    }
  }

  lemma {:induction false} CallArgsComplete(op: string, args: seq<Ast>, toks: seq<string>, p: nat, n: nat)
    requires IsOperatorName(op) && |args| >= 1 && AllWellFormed(args) && n == |ArgTokens(args)|
    requires p + n + 3 <= |toks|
    requires toks[p..p + n + 3] == [op, "("] + ArgTokens(args) + [")"]
    ensures ParseFormula(toks, p) == Success((Call(op, args), p + n + 3))
    decreases n + 3, 0
  {
    CallSlices(toks, p, op, ArgTokens(args));
    OperatorFacts(op);
    ArgTokensFirst(args);
    CallArgsInside(op, args, toks, p, n);
  }

  /** The operator and `(` have been matched; the arguments and `)` follow. */
  lemma {:induction false} CallArgsInside(op: string, args: seq<Ast>, toks: seq<string>, p: nat, n: nat)
    requires |args| >= 1 && AllWellFormed(args) && n == |ArgTokens(args)|
    requires p + 2 + n < |toks| && toks[p] == op && !IsAtom(op) && op != "-"
    requires toks[p + 1] == "(" && toks[p + 2] != ")"
    requires toks[p + 2..p + 2 + n] == ArgTokens(args) && toks[p + 2 + n] == ")"
    ensures ParseFormula(toks, p) == Success((Call(op, args), p + n + 3))
    decreases n + 2, 0
  {
    ArgListComplete(args, toks, p + 2);
    CallArgsParses(toks, p, op, args, n);
  }

  lemma CallEmptyParses(toks: seq<string>, p: nat, op: string)
    requires p + 2 < |toks| && toks[p] == op && !IsAtom(op) && op != "-"
    requires toks[p + 1] == "(" && toks[p + 2] == ")"
    ensures ParseFormula(toks, p) == Success((Call(op, []), p + 3))
  {
  }

  lemma CallArgsParses(toks: seq<string>, p: nat, op: string, args: seq<Ast>, n: nat)
    requires p + 2 + n < |toks| && toks[p] == op && !IsAtom(op) && op != "-"
    requires toks[p + 1] == "(" && toks[p + 2] != ")"
    requires ParseArgList(toks, p + 2) == Success((args, p + 2 + n)) && toks[p + 2 + n] == ")"
    ensures ParseFormula(toks, p) == Success((Call(op, args), p + n + 3))
  {
  }

  lemma {:induction false} ArgListComplete(args: seq<Ast>, toks: seq<string>, p: nat)
    requires |args| >= 1 && AllWellFormed(args)
    requires p + |ArgTokens(args)| <= |toks| && toks[p..p + |ArgTokens(args)|] == ArgTokens(args)
    requires Cur(toks, p + |ArgTokens(args)|) != ","
    ensures ParseArgList(toks, p) == Success((args, p + |ArgTokens(args)|))
    decreases |ArgTokens(args)|, 4
  {
    if |args| == 1 {
      ArgListSingle(args[0], toks, p);
      assert [args[0]] == args;
    } else {
      var x, rest := args[0], args[1..];
      assert ArgTokens(args) == Tokens(x) + [","] + ArgTokens(rest);
      ArgSlices(toks, p, Tokens(x), ArgTokens(rest));
      assert [x] + rest == args;
      ArgListMore(args, x, rest, toks, p, |Tokens(x)|, |ArgTokens(rest)|);
    }
  }

  /** A list of two or more arguments: the first formula, a comma, then the rest. */
  lemma {:induction false} ArgListMore(args: seq<Ast>, x: Ast, rest: seq<Ast>, toks: seq<string>, p: nat, m: nat, n: nat)
    requires args == [x] + rest && WellFormed(x) && |rest| >= 1 && AllWellFormed(rest)
    requires m == |Tokens(x)| && n == |ArgTokens(rest)|
    requires p + m + 1 + n <= |toks|
    requires toks[p..p + m] == Tokens(x) && toks[p + m] == ","
    requires toks[p + m + 1..p + m + 1 + n] == ArgTokens(rest)
    requires Cur(toks, p + m + 1 + n) != ","
    ensures ParseArgList(toks, p) == Success((args, p + m + 1 + n))
    decreases m + 1 + n, 3
  {
    FormulaComplete(x, toks, p);
    ArgListTail(args, x, rest, toks, p, m, p + m + 1 + n);
  }

  lemma {:induction false} ArgListSingle(x: Ast, toks: seq<string>, p: nat)
    requires WellFormed(x)
    requires p + |Tokens(x)| <= |toks| && toks[p..p + |Tokens(x)|] == Tokens(x)
    requires Cur(toks, p + |Tokens(x)|) != ","
    ensures ParseArgList(toks, p) == Success(([x], p + |Tokens(x)|))
    decreases |Tokens(x)|, 3
  {
    FormulaComplete(x, toks, p);
    ArgListOne(toks, p, x, p + |Tokens(x)|);
  }

  /** The first argument has been read; the rest of the list follows a comma. */
  lemma {:induction false} ArgListTail(args: seq<Ast>, x: Ast, rest: seq<Ast>, toks: seq<string>, p: nat, m: nat, r: nat)
    requires args == [x] + rest && |rest| >= 1 && AllWellFormed(rest)
    requires r == p + m + 1 + |ArgTokens(rest)| && r <= |toks| && toks[p + m] == ","
    requires ParseFormula(toks, p) == Success((x, p + m))
    requires toks[p + m + 1..p + m + 1 + |ArgTokens(rest)|] == ArgTokens(rest)
    requires Cur(toks, p + m + 1 + |ArgTokens(rest)|) != ","
    ensures ParseArgList(toks, p) == Success((args, r))
    decreases |ArgTokens(rest)|, 5
  {
    ArgListComplete(rest, toks, p + m + 1);
    ArgListJoin(args, toks, p, x, m, rest, r);
  }

  lemma ArgListJoin(args: seq<Ast>, toks: seq<string>, p: nat, x: Ast, m: nat, rest: seq<Ast>, r: nat)
    requires args == [x] + rest && p + m < r <= |toks| && toks[p + m] == ","
    requires ParseFormula(toks, p) == Success((x, p + m))
    requires ParseArgList(toks, p + m + 1) == Success((rest, r))
    ensures ParseArgList(toks, p) == Success((args, r))
  {
    ArgListCons(toks, p, x, p + m, rest, r);
  }

  lemma ArgListOne(toks: seq<string>, p: nat, f: Ast, q: nat)
    requires p <= |toks| && ParseFormula(toks, p) == Success((f, q)) && Cur(toks, q) != ","
    ensures ParseArgList(toks, p) == Success(([f], q))
  {
  }

  lemma ArgListCons(toks: seq<string>, p: nat, f: Ast, q: nat, rest: seq<Ast>, r: nat)
    requires p <= q < |toks| && ParseFormula(toks, p) == Success((f, q)) && toks[q] == ","
    requires ParseArgList(toks, q + 1) == Success((rest, r))
    ensures ParseArgList(toks, p) == Success(([f] + rest, r))
  {
  }

  /** Arguments are read in source order, separated by commas. */
  lemma ParseArgs(toks: seq<string>, p: nat)
    requires p <= |toks|
    ensures match ParseFormula(toks, p)
            case Failure(e) => ParseArgList(toks, p) == Failure(e)
            case Success((f, q)) =>
              if Cur(toks, q) != "," then ParseArgList(toks, p) == Success(([f], q))
              else match ParseArgList(toks, q + 1)
                   case Failure(e) => ParseArgList(toks, p) == Failure(e)
                   case Success((rest, r)) => ParseArgList(toks, p) == Success(([f] + rest, r))
  {
  }
}
