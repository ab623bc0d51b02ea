/**
 * Splitting a `//go:build` expression into tokens (backend/app/graph/go_variants.py:50, 315-328).
 */
module GoTokens {
  import opened Wrappers

  /** How evaluating an expression can go wrong. */
  datatype Failure =
    | Unsupported     // the code's own GoBuildConstraintUnsupportedError
    | AttributeError  // Python's, for calling a method that does not exist

  const OPERATORS: set<string> := {"&&", "||", "!", "(", ")"}

  predicate IsWordChar(c: char) {
    'A' <= c <= 'Z' || 'a' <= c <= 'z' || '0' <= c <= '9' || c == '_' || c == '.'
  }

  /** What `\s` matches in a Python string pattern. */
  predicate IsSpace(c: char) {
    var u := c as int;
    || 9 <= u <= 13 || 28 <= u <= 32 || u == 0x85 || u == 0xA0 || u == 0x1680
    || 0x2000 <= u <= 0x200A || u == 0x2028 || u == 0x2029 || u == 0x202F || u == 0x205F || u == 0x3000
  }

  predicate IsWord(t: string) {
    t != "" && forall i :: 0 <= i < |t| ==> IsWordChar(t[i])
  }

  predicate IsToken(t: string) {
    t in OPERATORS || IsWord(t)
  }

  function SpaceRun(s: string): (n: nat)
    ensures n <= |s|
    ensures forall i :: 0 <= i < n ==> IsSpace(s[i])
    ensures n < |s| ==> !IsSpace(s[n])
  {
    if s != "" && IsSpace(s[0]) then 1 + SpaceRun(s[1..]) else 0
  }

  function WordRun(s: string): (n: nat)
    ensures n <= |s|
    ensures forall i :: 0 <= i < n ==> IsWordChar(s[i])
    ensures n < |s| ==> !IsWordChar(s[n])
  {
    if s != "" && IsWordChar(s[0]) then 1 + WordRun(s[1..]) else 0
  }

  /** Length of the token `s` begins with; 0 if it begins with none. */
  function TokenLength(s: string): (n: nat)
    ensures n <= |s|
    ensures n > 0 ==> IsToken(s[..n])
  {
    if "&&" <= s then
      assert s[..2] == "&&";
      2
    else if "||" <= s then
      assert s[..2] == "||";
      2
    else if s != "" && s[0] in {'!', '(', ')'} then
      assert s[..1] == [s[0]];
      1
    else WordRun(s)
  }

  function Prepend(t: seq<string>, r: Result<seq<string>, Failure>): Result<seq<string>, Failure> {
    if r.Ok? then Ok(t + r.value) else r
  }

  /** The first token of `s` and what follows it. */
  function FirstToken(s: string): (r: Result<(string, string), Failure>)
    ensures r.Ok? ==> IsToken(r.value.0) && |r.value.1| < |s|
  {
    var rest := s[SpaceRun(s)..];
    var n := TokenLength(rest);
    if n == 0 then Err(Unsupported) else Ok((rest[..n], rest[n..]))
  }

  function TokensOf(s: string): Result<seq<string>, Failure>
    decreases |s|
  {
    if s == "" then Ok([])
    else
      match FirstToken(s)
      case Err(e) => Err(e)
      case Ok((t, rest)) => Prepend([t], TokensOf(rest))
  }

  lemma PrependTwice(a: seq<string>, b: seq<string>, r: Result<seq<string>, Failure>)
    ensures Prepend(a, Prepend(b, r)) == Prepend(a + b, r)
  {
    if r.Ok? {
      assert a + (b + r.value) == a + b + r.value;
    }
  }

  lemma PrependNothing(r: Result<seq<string>, Failure>)
    ensures Prepend([], r) == r
  {
    if r.Ok? {
      assert [] + r.value == r.value;
    }
  }

  /** One match of the token pattern at `position`: the token and where it ends. */
  method MatchToken(expression: string, position: nat) returns (r: Result<(string, nat), Failure>)
    requires position < |expression|
    ensures match FirstToken(expression[position..])
            case Err(e) => r == Err(e)
            case Ok((t, rest)) => r.Ok? && r.value.0 == t && position < r.value.1 <= |expression|
                                  && expression[r.value.1..] == rest
  {
    var s := expression[position..];
    var k := SpaceRun(s);
    var n := TokenLength(s[k..]);
    if n == 0 {
      return Err(Unsupported);
    }
    assert s[k..][n..] == expression[position + k + n..];
    return Ok((s[k..][..n], position + k + n));
  }

  method Tokenize(expression: string) returns (r: Result<seq<string>, Failure>)
    ensures r == TokensOf(expression)
  {
    var tokens: seq<string> := [];
    var position := 0;
    assert expression[0..] == expression;
    PrependNothing(TokensOf(expression));
    while position < |expression|
      invariant 0 <= position <= |expression|
      invariant TokensOf(expression) == Prepend(tokens, TokensOf(expression[position..]))
    {
      var m := MatchToken(expression, position);
      if m.Err? {
        return Err(m.error);
      }
      PrependTwice(tokens, [m.value.0], TokensOf(expression[m.value.1..]));
      tokens := tokens + [m.value.0];
      position := m.value.1;
    }
    assert tokens + [] == tokens;
    return Ok(tokens);
  }

  // ---- Tokens survive being written out ----

  /** The tokens one after another, each preceded by its own white space. */
  function Render(tokens: seq<string>, gaps: seq<string>): string
    requires |gaps| == |tokens|
  {
    if tokens == [] then "" else gaps[0] + tokens[0] + Render(tokens[1..], gaps[1..])
  }

  ghost predicate Spaced(tokens: seq<string>, gaps: seq<string>) {
    && |gaps| == |tokens|
    && (forall i :: 0 <= i < |tokens| ==> IsToken(tokens[i]))
    && (forall i, c :: 0 <= i < |gaps| && c in gaps[i] ==> IsSpace(c))
    && (forall i :: 0 < i < |gaps| && IsWord(tokens[i - 1]) && IsWord(tokens[i]) ==> gaps[i] != "")
  }

  lemma {:induction false} SpaceRunOf(gap: string, rest: string)
    requires (forall c :: c in gap ==> IsSpace(c)) && (rest != "" ==> !IsSpace(rest[0]))
    ensures SpaceRun(gap + rest) == |gap|
  {
    if gap == "" {
      assert gap + rest == rest;
    } else {
      assert gap[0] in gap;
      assert (gap + rest)[1..] == gap[1..] + rest;
      SpaceRunOf(gap[1..], rest);
    }
  }

  lemma {:induction false} WordRunOf(word: string, rest: string)
    requires (forall i :: 0 <= i < |word| ==> IsWordChar(word[i])) && (rest != "" ==> !IsWordChar(rest[0]))
    ensures WordRun(word + rest) == |word|
  {
    if word == "" {
      assert word + rest == rest;
    } else {
      assert (word + rest)[1..] == word[1..] + rest;
      WordRunOf(word[1..], rest);
    }
  }

  lemma TokenLengthOf(t: string, rest: string)
    requires IsToken(t) && (IsWord(t) && rest != "" ==> !IsWordChar(rest[0]))
    ensures TokenLength(t + rest) == |t|
    ensures !IsSpace(t[0])
  {
    var s := t + rest;
    assert s[0] == t[0];
    if IsWord(t) {
      assert !("&&" <= s) && !("||" <= s);
      WordRunOf(t, rest);
    } else if |t| == 2 {
      assert s[..2] == t;
    } else {
      assert |t| == 1 && t[0] in {'!', '(', ')'};
    }
  }

  lemma SpaceIsNoWord(c: char)
    requires IsSpace(c)
    ensures !IsWordChar(c)
  {
  }

  lemma OperatorIsNoWord(t: string)
    requires t in OPERATORS
    ensures t != "" && !IsWordChar(t[0])
  {
  }

  lemma FirstCharAfterWord(tokens: seq<string>, gaps: seq<string>)
    requires Spaced(tokens, gaps) && |tokens| >= 2 && IsWord(tokens[0])
    ensures var rest := Render(tokens[1..], gaps[1..]);
            rest != "" && !IsWordChar(rest[0])
  {
    var next, gap := tokens[1], gaps[1];
    var tail := Render(tokens[1..][1..], gaps[1..][1..]);
    var rest := Render(tokens[1..], gaps[1..]);
    assert rest == gap + next + tail;
    assert IsToken(next);
    if gap != "" {
      assert rest[0] == gap[0] && gap[0] in gaps[1];
      SpaceIsNoWord(gap[0]);
    } else {
      OperatorIsNoWord(next);
      assert rest[0] == next[0];
    }
  }

  lemma FirstTokenOf(gap: string, t: string, rest: string)
    requires (forall c :: c in gap ==> IsSpace(c)) && IsToken(t)
    requires IsWord(t) && rest != "" ==> !IsWordChar(rest[0])
    ensures FirstToken(gap + t + rest) == Ok((t, rest))
  {
    var body := t + rest;
    TokenLengthOf(t, rest);
    assert body[0] == t[0];
    SpaceRunOf(gap, body);
    assert gap + t + rest == gap + body;
    assert (gap + body)[|gap|..] == body && body[..|t|] == t && body[|t|..] == rest;
  }

  lemma FirstReadBack(tokens: seq<string>, gaps: seq<string>)
    requires Spaced(tokens, gaps) && tokens != []
    ensures Render(tokens, gaps) != ""
    ensures FirstToken(Render(tokens, gaps)) == Ok((tokens[0], Render(tokens[1..], gaps[1..])))
    ensures Spaced(tokens[1..], gaps[1..])
  {
    hide FirstToken, IsWordChar, IsSpace;
    var rest := Render(tokens[1..], gaps[1..]);
    if |tokens| >= 2 && IsWord(tokens[0]) {
      FirstCharAfterWord(tokens, gaps);
    }
    assert IsToken(tokens[0]);
    FirstTokenOf(gaps[0], tokens[0], rest);
  }

  /** Reading back written tokens gives them again, however they were spaced. */
  lemma {:induction false} TokensRoundTrip(tokens: seq<string>, gaps: seq<string>)
    requires Spaced(tokens, gaps)
    ensures TokensOf(Render(tokens, gaps)) == Ok(tokens)
    decreases |tokens|
  {
    hide Spaced, FirstToken, TokensOf, Render;
    SameLength(tokens, gaps);
    if tokens == [] {
      NoTokens();
    } else {
      FirstReadBack(tokens, gaps);
      NextTokens(tokens, gaps);
      TokensRoundTrip(tokens[1..], gaps[1..]);
      assert tokens == [tokens[0]] + tokens[1..];
    }
  }

  lemma NoTokens()
    ensures Render([], []) == "" && TokensOf("") == Ok([])
  {
  }

  lemma SameLength(tokens: seq<string>, gaps: seq<string>)
    requires Spaced(tokens, gaps)
    ensures |gaps| == |tokens|
  {
  }

  lemma NextTokens(tokens: seq<string>, gaps: seq<string>)
    requires |tokens| == |gaps| && tokens != [] && Render(tokens, gaps) != ""
    requires FirstToken(Render(tokens, gaps)) == Ok((tokens[0], Render(tokens[1..], gaps[1..])))
    ensures TokensOf(Render(tokens, gaps)) == Prepend([tokens[0]], TokensOf(Render(tokens[1..], gaps[1..])))
  {
    hide FirstToken, Render;
  }

  // ---- And only written tokens are read ----

  /** A word is read to its end. */
  lemma LongestWord(body: string)
    requires TokenLength(body) > 0 && IsWord(body[..TokenLength(body)])
    ensures TokenLength(body) < |body| ==> !IsWordChar(body[TokenLength(body)])
  {
    var t := body[..TokenLength(body)];
    assert IsWordChar(t[0]) && t[0] == body[0];
    assert !("&&" <= body) && !("||" <= body);
  }

  lemma InThree(s: string, k: nat, n: nat)
    requires k <= |s| && n <= |s| - k
    ensures s == s[..k] + s[k..][..n] + s[k..][n..]
  {
  }

  lemma FirstTokenIs(s: string)
    requires FirstToken(s).Ok?
    ensures var (t, rest) := FirstToken(s).value;
            var gap := s[..SpaceRun(s)];
            && s == gap + t + rest && (forall c :: c in gap ==> IsSpace(c)) && IsToken(t)
            && (IsWord(t) && rest != "" ==> !IsWordChar(rest[0]))
  {
    hide IsSpace, IsWordChar, IsWord, IsToken, TokenLength;
    var body := s[SpaceRun(s)..];
    var n := TokenLength(body);
    InThree(s, SpaceRun(s), n);
    if IsWord(body[..n]) {
      LongestWord(body);
    }
  }

  /** A text that is read as tokens is those tokens, spaced so that no two words run together. */
  lemma {:induction false} ReadTokensWereWritten(s: string) returns (gaps: seq<string>)
    requires TokensOf(s).Ok?
    ensures Spaced(TokensOf(s).value, gaps) && Render(TokensOf(s).value, gaps) == s
    decreases |s|
  {
    if s == "" {
      gaps := [];
    } else {
      hide FirstToken, IsSpace, IsWordChar, IsToken;
      FirstTokenIs(s);
      var (t, rest) := FirstToken(s).value;
      var more := ReadTokensWereWritten(rest);
      var gap := s[..SpaceRun(s)];
      var tokens := TokensOf(rest).value;
      gaps := [gap] + more;
      assert ([t] + tokens)[1..] == tokens && gaps[1..] == more;
      assert Render([t] + tokens, gaps) == gap + t + rest;
      SpacedMore(gap, t, rest, tokens, more);
    }
  }

  lemma SpacedMore(gap: string, t: string, rest: string, tokens: seq<string>, gaps: seq<string>)
    requires IsToken(t) && (forall c :: c in gap ==> IsSpace(c))
    requires Spaced(tokens, gaps) && rest == Render(tokens, gaps)
    requires IsWord(t) && rest != "" ==> !IsWordChar(rest[0])
    ensures Spaced([t] + tokens, [gap] + gaps)
  {
    hide IsSpace, IsWordChar;
    if tokens != [] {
      assert IsToken(tokens[0]);
      assert rest == gaps[0] + tokens[0] + Render(tokens[1..], gaps[1..]);
      if gaps[0] == "" {
        assert rest[0] == tokens[0][0];
      }
    }
  }
}
