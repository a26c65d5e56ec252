/** The tokenizer of the prefix-formula front end (`tokenize` in prefix2infix.py). */
module Tokenizer {

  /** The characters `tokenize` surrounds with spaces, in the order it pads them. */
  const Separators: seq<char> := ['(', ')', ',', '-', '+', '*', '/', '#']

  predicate IsSeparator(c: char) {
    c in Separators
  }

  predicate IsUpper(c: char) {
    'A' <= c <= 'Z'
  }

  /** Python's `str.lower`, restricted to ASCII letters. */
  function LowerChar(c: char): char {
    if IsUpper(c) then (c as int + 32) as char else c
  }

  /** Only the ASCII capitals change, each to the small letter 32 code points on. */
  function Lower(s: string): (r: string)
    ensures |r| == |s| && IsLower(r)
    ensures forall i :: 0 <= i < |s| && !IsUpper(s[i]) ==> r[i] == s[i]
    ensures forall i :: 0 <= i < |s| && IsUpper(s[i]) ==> 'a' <= r[i] <= 'z' && r[i] as int == s[i] as int + 32
  {
    seq(|s|, i requires 0 <= i < |s| => LowerChar(s[i]))
  }

  predicate IsLower(s: string) {
    forall i :: 0 <= i < |s| ==> !IsUpper(s[i])
  }

  /** Python's `s.replace(c, " " + c + " ")` for a one-character pattern. */
  function Replace(s: string, c: char): (r: string)
    ensures c !in s ==> r == s
    ensures c != ' ' ==> forall k :: 0 <= k < |r| && r[k] == c ==> 0 < k < |r| - 1 && r[k - 1] == ' ' && r[k + 1] == ' '
  {
    if s == [] then []
    else (if s[0] == c then [' ', c, ' '] else [s[0]]) + Replace(s[1..], c)
  }

  /** The padding loop of `tokenize`: one `replace` per separator, in order. */
  function PadEach(s: string, seps: seq<char>): string
    decreases |seps|
  {
    if seps == [] then s else PadEach(Replace(s, seps[0]), seps[1..])
  }

  /** One-pass padding: every character of `seps` is surrounded by spaces. */
  function PadChar(c: char, seps: seq<char>): string {
    if c in seps then [' ', c, ' '] else [c]
  }

  function PadIn(s: string, seps: seq<char>): string {
    if s == [] then [] else PadChar(s[0], seps) + PadIn(s[1..], seps)
  }

  function Pad(s: string): string {
    PadIn(s, Separators)
  }

  /** Python's `s.split(" ")`: empty fields are kept and there is always at least one field. */
  function Split(s: string): (r: seq<string>)
    ensures |r| >= 1
    ensures forall k :: 0 <= k < |r| ==> ' ' !in r[k]
  {
    if s == [] then [[]]
    else
      var rest := Split(s[1..]);
      if s[0] == ' ' then [[]] + rest else [[s[0]] + rest[0]] + rest[1..]
  }

  /** Python's `sep.join(ts)`. */
  function Join(ts: seq<string>, sep: string): string {
    if |ts| == 0 then []
    else if |ts| == 1 then ts[0]
    else ts[0] + sep + Join(ts[1..], sep)
  }

  /** The comprehension `[t for t in ts if t != '']`. */
  /** The filter of `tokenize`: the empty fields dropped, the others kept in order. */
  function NonEmpty(ts: seq<string>): (r: seq<string>)
    ensures |r| <= |ts|
    ensures forall k :: 0 <= k < |r| ==> r[k] != []
  {
    if ts == [] then []
    else (if ts[0] == [] then [] else [ts[0]]) + NonEmpty(ts[1..])
  }

  function Concat(ts: seq<string>): string {
    if ts == [] then [] else ts[0] + Concat(ts[1..])
  }

  /** `s` with every space removed. */
  function Squeeze(s: string): string {
    if s == [] then []
    else (if s[0] == ' ' then [] else [s[0]]) + Squeeze(s[1..])
  }

  /** A token as `tokenize` produces it: non-empty, without spaces, lower-case,
      and either a separator on its own or free of separators. */
  predicate IsToken(t: string) {
    && t != []
    && ' ' !in t
    && IsLower(t)
    && (forall i :: 0 <= i < |t| && IsSeparator(t[i]) ==> t == [t[i]])
  }

  /** Splitting and filtering an already lower-cased line, once it is padded. */
  function Scan(s: string): seq<string> {
    NonEmpty(Split(Pad(s)))
  }

  /** `tokenize(line)`. */
  function Tokenize(line: string): (r: seq<string>)
    ensures AllTokens(r)
    ensures Concat(r) == Squeeze(Lower(line))
  {
    PadEachIsPad(Lower(line));
    ScanAreTokens(Lower(line));
    ScanConcat(Lower(line));
    NonEmpty(Split(PadEach(Lower(line), Separators)))
  }

  // ---------------------------------------------------------------------------
  // Padding: the eight sequential replacements equal one pass

  lemma {:induction false} PadInAppend(x: string, y: string, seps: seq<char>)
    ensures PadIn(x + y, seps) == PadIn(x, seps) + PadIn(y, seps)
  {
    if x == [] {
      assert x + y == y;
    } else {
      PadInCons(x, y, seps);
      PadInAppend(x[1..], y, seps);
    }
  }

  lemma PadInCons(x: string, y: string, seps: seq<char>)
    requires x != []
    ensures PadIn(x + y, seps) == PadChar(x[0], seps) + PadIn(x[1..] + y, seps)
  {
    assert (x + y)[0] == x[0];
    assert (x + y)[1..] == x[1..] + y;
  }

  lemma PadInOne(c: char, seps: seq<char>)
    ensures PadIn([c], seps) == PadChar(c, seps)
  {
    assert [c][1..] == [];
  }

  lemma {:induction false} ReplaceThenPad(s: string, c: char, rest: seq<char>)
    requires c != ' ' && c !in rest && ' ' !in rest
    ensures PadIn(Replace(s, c), rest) == PadIn(s, [c] + rest)
  {
    if s != [] {
      var head := if s[0] == c then [' ', c, ' '] else [s[0]];
      PadInAppend(head, Replace(s[1..], c), rest);
      ReplaceThenPad(s[1..], c, rest);
      if s[0] == c {
        assert head == [' '] + [c] + [' '];
        PadInAppend([' '] + [c], [' '], rest);
        PadInAppend([' '], [c], rest);
        PadInOne(' ', rest);
        PadInOne(c, rest);
        assert PadIn(head, rest) == [' ', c, ' '];
      } else {
        PadInOne(s[0], rest);
      }
      assert s == [s[0]] + s[1..];
    }
  }

  lemma {:induction false} PadInNone(s: string)
    ensures PadIn(s, []) == s
  {
    if s != [] {
      PadInNone(s[1..]);
      assert [s[0]] + s[1..] == s;
    }
  }

  predicate Distinct(seps: seq<char>) {
    forall i, j :: 0 <= i < j < |seps| ==> seps[i] != seps[j]
  }

  lemma {:induction false} PadEachIsPadIn(s: string, seps: seq<char>)
    requires ' ' !in seps && Distinct(seps)
    ensures PadEach(s, seps) == PadIn(s, seps)
    decreases |seps|
  {
    if seps == [] {
      PadInNone(s);
    } else {
      assert seps == [seps[0]] + seps[1..];
      assert seps[0] != ' ';
      assert ' ' !in seps[1..];
      assert Distinct(seps[1..]) by {
        forall i, j | 0 <= i < j < |seps[1..]| ensures seps[1..][i] != seps[1..][j] {
          assert seps[1..][i] == seps[i + 1] && seps[1..][j] == seps[j + 1];
        }
      }
      assert seps[0] !in seps[1..] by {
        forall j | 0 <= j < |seps[1..]| ensures seps[1..][j] != seps[0] {
          assert seps[1..][j] == seps[j + 1];
        }
      }
      PadEachIsPadIn(Replace(s, seps[0]), seps[1..]);
      ReplaceThenPad(s, seps[0], seps[1..]);
      calc {
        PadEach(s, seps);
        PadEach(Replace(s, seps[0]), seps[1..]);
        PadIn(Replace(s, seps[0]), seps[1..]);
        PadIn(s, [seps[0]] + seps[1..]);
        PadIn(s, seps);
      }
    }
  }

  /** The separators are distinct and none is a space, so the order of the
      eight replacements does not matter: together they pad every separator once. */
  lemma PadEachIsPad(s: string)
    ensures PadEach(s, Separators) == Pad(s)
  {
    PadEachIsPadIn(s, Separators);
  }

  // ---------------------------------------------------------------------------
  // Splitting on the space character

  lemma {:induction false} SplitJoin(s: string)
    ensures Join(Split(s), " ") == s
  {
    if s != [] {
      SplitJoin(s[1..]);
      var rest := Split(s[1..]);
      if s[0] == ' ' {
        assert s == [' '] + s[1..];
      } else {
        var r := [[s[0]] + rest[0]] + rest[1..];
        if |rest| == 1 {
          assert s == [s[0]] + s[1..];
        } else {
          assert r[1..] == rest[1..];
          assert Join(rest, " ") == rest[0] + " " + Join(rest[1..], " ");
          assert s == [s[0]] + s[1..];
        }
      }
    }
  }

  lemma {:induction false} SplitSpace(a: string, b: string)
    ensures Split(a + [' '] + b) == Split(a) + Split(b)
  {
    if a == [] {
      assert a + [' '] + b == [' '] + b;
      assert ([' '] + b)[1..] == b;
    } else {
      assert (a + [' '] + b)[1..] == a[1..] + [' '] + b;
      SplitSpace(a[1..], b);
    }
  }

  lemma {:induction false} SplitWord(w: string)
    requires ' ' !in w
    ensures Split(w) == [w]
  {
    if w != [] {
      SplitWord(w[1..]);
      assert [w[0]] + w[1..] == w;
    }
  }

  lemma {:induction false} NonEmptyAppend(x: seq<string>, y: seq<string>)
    ensures NonEmpty(x + y) == NonEmpty(x) + NonEmpty(y)
  {
    if x == [] {
      assert x + y == y;
    } else {
      NonEmptyCons(x, y);
      NonEmptyAppend(x[1..], y);
    }
  }

  lemma NonEmptyCons(x: seq<string>, y: seq<string>)
    requires x != []
    ensures NonEmpty(x + y) == (if x[0] == [] then [] else [x[0]]) + NonEmpty(x[1..] + y)
  {
    assert (x + y)[0] == x[0];
    assert (x + y)[1..] == x[1..] + y;
  }

  /** Dropping the empty fields loses no text. */
  lemma {:induction false} NonEmptyConcat(ts: seq<string>)
    ensures Concat(NonEmpty(ts)) == Concat(ts)
  {
    if ts != [] {
      NonEmptyConcat(ts[1..]);
      var h := if ts[0] == [] then [] else [ts[0]];
      ConcatAppend(h, NonEmpty(ts[1..]));
      assert Concat(h) == ts[0] by {
        if h != [] {
          assert h[1..] == [];
        }
      }
    }
  }

  lemma {:induction false} ConcatAppend(x: seq<string>, y: seq<string>)
    ensures Concat(x + y) == Concat(x) + Concat(y)
  {
    if x == [] {
      assert x + y == y;
    } else {
      assert (x + y)[0] == x[0];
      assert (x + y)[1..] == x[1..] + y;
      ConcatAppend(x[1..], y);
      calc {
        Concat(x + y);
        x[0] + Concat(x[1..] + y);
        x[0] + (Concat(x[1..]) + Concat(y));
        (x[0] + Concat(x[1..])) + Concat(y);
      }
    }
  }

  lemma {:induction false} SqueezeAppend(x: string, y: string)
    ensures Squeeze(x + y) == Squeeze(x) + Squeeze(y)
  {
    if x == [] {
      assert x + y == y;
    } else {
      assert (x + y)[0] == x[0];
      assert (x + y)[1..] == x[1..] + y;
      SqueezeAppend(x[1..], y);
      var h := if x[0] == ' ' then [] else [x[0]];
      calc {
        Squeeze(x + y);
        h + Squeeze(x[1..] + y);
        h + (Squeeze(x[1..]) + Squeeze(y));
        (h + Squeeze(x[1..])) + Squeeze(y);
      }
    }
  }

  lemma {:induction false} SqueezeWord(w: string)
    requires ' ' !in w
    ensures Squeeze(w) == w
  {
    if w != [] {
      SqueezeWord(w[1..]);
      assert [w[0]] + w[1..] == w;
    }
  }

  lemma {:induction false} PadWord(w: string)
    requires forall i :: 0 <= i < |w| ==> !IsSeparator(w[i])
    ensures Pad(w) == w
  {
    if w != [] {
      PadWord(w[1..]);
      assert [w[0]] + w[1..] == w;
    }
  }

  // ---------------------------------------------------------------------------
  // Scanning a string piece by piece

  lemma ScanEmpty()
    ensures Scan([]) == []
  {
  }

  lemma PadAround(x: string, c: char, y: string)
    requires IsSeparator(c)
    ensures Pad(x + [c] + y) == Pad(x) + [' '] + ([c] + [' '] + Pad(y))
  {
    PadInAppend(x + [c], y, Separators);
    PadInAppend(x, [c], Separators);
    PadInOne(c, Separators);
  }

  lemma SplitAround(px: string, c: char, py: string)
    requires c != ' '
    ensures Split(px + [' '] + ([c] + [' '] + py)) == Split(px) + [[c]] + Split(py)
  {
    var r := [c] + [' '] + py;
    SplitSpace([c], py);
    SplitWord([c]);
    assert Split(r) == [[c]] + Split(py);
    SplitSpace(px, r);
  }

  lemma NonEmptyAround(sx: seq<string>, c: char, sy: seq<string>)
    ensures NonEmpty(sx + [[c]] + sy) == NonEmpty(sx) + [[c]] + NonEmpty(sy)
  {
    NonEmptyAppend(sx + [[c]], sy);
    NonEmptyAppend(sx, [[c]]);
    assert NonEmpty([[c]]) == [[c]] by {
      assert [[c]][1..] == [];
    }
  }

  /** A separator always becomes a token of its own. */
  lemma ScanSeparator(x: string, c: char, y: string)
    requires IsSeparator(c)
    ensures Scan(x + [c] + y) == Scan(x) + [[c]] + Scan(y)
  {
    PadAround(x, c, y);
    SplitAround(Pad(x), c, Pad(y));
    NonEmptyAround(Split(Pad(x)), c, Split(Pad(y)));
  }

  /** A space only separates tokens. */
  lemma ScanSpace(x: string, y: string)
    ensures Scan(x + [' '] + y) == Scan(x) + Scan(y)
  {
    PadSpace(x, y);
    SplitSpace(Pad(x), Pad(y));
    NonEmptyAppend(Split(Pad(x)), Split(Pad(y)));
  }

  lemma PadSpace(x: string, y: string)
    ensures Pad(x + [' '] + y) == Pad(x) + [' '] + Pad(y)
  {
    PadInAppend(x + [' '], y, Separators);
    PadInAppend(x, [' '], Separators);
    PadInOne(' ', Separators);
  }

  /** A run of ordinary characters is one token. */
  lemma ScanWord(w: string)
    requires w != [] && ' ' !in w
    requires forall i :: 0 <= i < |w| ==> !IsSeparator(w[i])
    ensures Scan(w) == [w]
  {
    PadWord(w);
    SplitWord(w);
    assert NonEmpty([w]) == [w] by {
      assert [w][1..] == [];
    }
  }

  lemma LowerSlices(x: string, i: nat)
    requires IsLower(x) && i < |x|
    ensures IsLower(x[..i]) && IsLower(x[i + 1..])
  {
    var b := x[i + 1..];
    forall j | 0 <= j < |b|
      ensures !IsUpper(b[j])
    {
      assert b[j] == x[i + 1 + j];
    }
  }

  predicate AllTokens(ts: seq<string>) {
    forall k :: 0 <= k < |ts| ==> IsToken(ts[k])
  }

  lemma AllTokensAppend(x: seq<string>, y: seq<string>)
    requires AllTokens(x) && AllTokens(y)
    ensures AllTokens(x + y)
  {
    assert forall k :: 0 <= k < |x + y| ==> (x + y)[k] == if k < |x| then x[k] else y[k - |x|];
  }

  /** A special character splits the string into a shorter prefix and suffix. */
  predicate IsSpecial(c: char) {
    c == ' ' || IsSeparator(c)
  }

  /** Every token of a lower-case line is a well-formed token. */
  lemma {:induction false} ScanAreTokens(x: string)
    requires IsLower(x)
    ensures AllTokens(Scan(x))
    decreases |x|
  {
    if i :| 0 <= i < |x| && IsSpecial(x[i]) {
      var a, c, b := x[..i], x[i], x[i + 1..];
      assert x == a + [c] + b;
      LowerSlices(x, i);
      ScanAreTokens(a);
      ScanAreTokens(b);
      if c == ' ' {
        ScanSpace(a, b);
        AllTokensAppend(Scan(a), Scan(b));
      } else {
        ScanSeparator(a, c, b);
        assert IsToken([c]);
        AllTokensAppend(Scan(a), [[c]]);
        AllTokensAppend(Scan(a) + [[c]], Scan(b));
      }
    } else if x == [] {
      ScanEmpty();
    } else {
      ScanWord(x);
    }
  }

  /** The tokens hold exactly the non-space characters of the line, in order. */
  lemma {:induction false} ScanConcat(x: string)
    ensures Concat(Scan(x)) == Squeeze(x)
    decreases |x|
  {
    if i :| 0 <= i < |x| && IsSpecial(x[i]) {
      var a, c, b := x[..i], x[i], x[i + 1..];
      assert x == a + [c] + b;
      ScanConcat(a);
      ScanConcat(b);
      ConcatAround(a, c, b);
    } else if x == [] {
      ScanEmpty();
    } else {
      ScanWord(x);
      SqueezeWord(x);
      assert Concat([x]) == x by {
        assert [x][1..] == [];
      }
    }
  }

  lemma ConcatAround(a: string, c: char, b: string)
    requires IsSpecial(c)
    requires Concat(Scan(a)) == Squeeze(a) && Concat(Scan(b)) == Squeeze(b)
    ensures Concat(Scan(a + [c] + b)) == Squeeze(a + [c] + b)
  {
    SqueezeAround(a, c, b);
    if c == ' ' {
      ScanSpace(a, b);
      ConcatAppend(Scan(a), Scan(b));
    } else {
      ConcatAroundSeparator(a, c, b);
    }
  }

  lemma SqueezeAround(a: string, c: char, b: string)
    ensures Squeeze(a + [c] + b) == Squeeze(a) + (if c == ' ' then [] else [c]) + Squeeze(b)
  {
    SqueezeAppend(a + [c], b);
    SqueezeAppend(a, [c]);
    assert [c][1..] == [];
  }

  lemma ConcatAroundSeparator(a: string, c: char, b: string)
    requires IsSeparator(c)
    ensures Concat(Scan(a + [c] + b)) == Concat(Scan(a)) + [c] + Concat(Scan(b))
  {
    ScanSeparator(a, c, b);
    ConcatAppend(Scan(a) + [[c]], Scan(b));
    ConcatAppend(Scan(a), [[c]]);
    assert Concat([[c]]) == [c] by {
      assert [[c]][1..] == [];
    }
  }



  // ---------------------------------------------------------------------------
  // Normalised spacing

  /** `tokenize` is the one-pass scan of the lower-cased line. */
  lemma TokenizeIsScan(line: string)
    ensures Tokenize(line) == Scan(Lower(line))
  {
    PadEachIsPad(Lower(line));
  }

  lemma LowerIsLower(s: string)
    ensures IsLower(Lower(s)) && Lower(Lower(s)) == Lower(s)
  {
  }

  /** Case does not matter to the tokenizer. */
  lemma TokenizeLower(line: string)
    ensures Tokenize(Lower(line)) == Tokenize(line)
  {
    LowerIsLower(line);
    TokenizeIsScan(line);
    TokenizeIsScan(Lower(line));
  }

  lemma LowerAppend(x: string, y: string)
    ensures IsLower(x + y) <==> IsLower(x) && IsLower(y)
  {
    assert forall i :: 0 <= i < |x| ==> (x + y)[i] == x[i];
    assert forall i :: 0 <= i < |y| ==> (x + y)[|x| + i] == y[i];
  }

  lemma LowerOfLower(s: string)
    requires IsLower(s)
    ensures Lower(s) == s
  {
  }

  lemma {:induction false} JoinIsLower(ts: seq<string>)
    requires AllTokens(ts)
    ensures IsLower(Join(ts, " "))
  {
    if |ts| > 1 {
      JoinIsLower(ts[1..]);
    }
  }

  /** A token scans to itself. */
  lemma TokenScan(t: string)
    requires IsToken(t)
    ensures Scan(t) == [t]
  {
    if i :| 0 <= i < |t| && IsSeparator(t[i]) {
      assert t == [t[i]];
      ScanSeparator([], t[i], []);
      ScanEmpty();
      assert [] + [t[i]] + [] == t;
    } else {
      ScanWord(t);
    }
  }

  /** Tokens joined by single spaces scan back to the same tokens. */
  lemma {:induction false} ScanJoin(ts: seq<string>)
    requires AllTokens(ts)
    ensures Scan(Join(ts, " ")) == ts
  {
    if |ts| == 0 {
      ScanEmpty();
    } else {
      var t := ts[0];
      var tail := if |ts| == 1 then [] else Join(ts[1..], " ");
      if |ts| > 1 {
        ScanJoin(ts[1..]);
        assert Join(ts, " ") == t + [' '] + tail;
        ScanSpace(t, tail);
      } else {
        assert Join(ts, " ") == t + [] ;
      }
      TokenScan(t);
      if |ts| > 1 {
        assert ts == [t] + ts[1..];
      } else {
        assert ts == [t];
      }
    }
  }

  /** Joining the tokens with spaces gives the line with its spacing normalised:
      tokenizing that text again gives the same tokens. */
  lemma TokenizeIdempotent(line: string)
    ensures Tokenize(Join(Tokenize(line), " ")) == Tokenize(line)
  {
    var ts := Tokenize(line);
    var j := Join(ts, " ");
    JoinIsLower(ts);
    LowerOfLower(j);
    PadEachIsPad(j);
    ScanJoin(ts);
  }
}
