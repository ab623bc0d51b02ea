/**
 * The recursive-descent evaluator of `//go:build` expressions
 * (backend/app/graph/go_variants.py:302-386).
 *
 * A parenthesis makes the code call `self._parse_expression()`, a method the class does not
 * have (line 369; the method is named `parse_expression`).  Every result is therefore stated
 * for both readings of that call.
 */
module GoParser {
  import opened Wrappers
  import opened GoTruth
  import opened GoExpressions
  import opened GoTokens

  /** What line 369 calls: nothing, as it is spelled, or `parse_expression`. */
  datatype Call369 = AsWritten | AsIntended

  datatype Grammar = Grammar(profile: Profile, call: Call369)

  type Parsed = Result<(Truth, seq<string>), Failure>

  predicate Peek(ts: seq<string>, t: string) {
    ts != [] && ts[0] == t
  }

  // ---- The evaluator as a function of the tokens still to be read ----

  function ParseOr(g: Grammar, ts: seq<string>): (r: Parsed)
    ensures r.Ok? ==> |r.value.1| < |ts|
    decreases |ts|, 3
  {
    match ParseAnd(g, ts)
    case Err(e) => Err(e)
    case Ok((v, rest)) => OrTail(g, v, rest)
  }

  function OrTail(g: Grammar, v: Truth, ts: seq<string>): (r: Parsed)
    ensures r.Ok? ==> |r.value.1| <= |ts|
    decreases |ts|, 0
  {
    if Peek(ts, "||") then
      match ParseAnd(g, ts[1..])
      case Err(e) => Err(e)
      case Ok((w, rest)) => OrTail(g, Or(v, w), rest)
    else Ok((v, ts))
  }

  function ParseAnd(g: Grammar, ts: seq<string>): (r: Parsed)
    ensures r.Ok? ==> |r.value.1| < |ts|
    decreases |ts|, 2
  {
    match ParseUnary(g, ts)
    case Err(e) => Err(e)
    case Ok((v, rest)) => AndTail(g, v, rest)
  }

  function AndTail(g: Grammar, v: Truth, ts: seq<string>): (r: Parsed)
    ensures r.Ok? ==> |r.value.1| <= |ts|
    decreases |ts|, 0
  {
    if Peek(ts, "&&") then
      match ParseUnary(g, ts[1..])
      case Err(e) => Err(e)
      case Ok((w, rest)) => AndTail(g, And(v, w), rest)
    else Ok((v, ts))
  }

  function ParseUnary(g: Grammar, ts: seq<string>): (r: Parsed)
    ensures r.Ok? ==> |r.value.1| < |ts|
    decreases |ts|, 1
  {
    if Peek(ts, "!") then
      match ParseUnary(g, ts[1..])
      case Err(e) => Err(e)
      case Ok((v, rest)) => Ok((Not(v), rest))
    else ParsePrimary(g, ts)
  }

  /** Any other token, an operator included, is taken for an identifier. */
  function ParsePrimary(g: Grammar, ts: seq<string>): (r: Parsed)
    ensures r.Ok? ==> |r.value.1| < |ts|
    decreases |ts|, 0
  {
    if ts == [] then Err(Unsupported)
    else if ts[0] == "(" then
      if g.call.AsWritten? then Err(AttributeError)
      else
        match ParseOr(g, ts[1..])
        case Err(e) => Err(e)
        case Ok((v, rest)) => if Peek(rest, ")") then Ok((v, rest[1..])) else Err(Unsupported)
    else Ok((EvaluateIdentifier(ts[0], g.profile), ts[1..]))
  }

  // ---- The stateful parser ----

  class TokenParser {
    const tokens: seq<string>
    const g: Grammar
    var position: nat

    constructor (tokens: seq<string>, g: Grammar)
      ensures this.tokens == tokens && this.g == g && position == 0
    {
      this.tokens, this.g, this.position := tokens, g, 0;
    }

    ghost predicate Valid()
      reads this
    {
      position <= |tokens|
    }

    function Remaining(): seq<string>
      requires Valid()
      reads this
    {
      tokens[position..]
    }

    /** The outcome and the tokens left over are those of the function. */
    ghost predicate Agrees(r: Result<Truth, Failure>, spec: Parsed)
      reads this
    {
      match spec
      case Err(e) => r == Err(e)
      case Ok((v, rest)) => Valid() && r == Ok(v) && Remaining() == rest
    }

    method DoParseOr() returns (r: Result<Truth, Failure>)
      requires Valid()
      modifies this
      ensures Agrees(r, ParseOr(g, old(Remaining())))
      decreases |tokens| - position, 3
    {
      ghost var start := Remaining();
      r := DoParseAnd();
      if r.Err? {
        return;
      }
      var value := r.value;
      while position < |tokens| && tokens[position] == "||"
        invariant Valid() && |Remaining()| < |start|
        invariant ParseOr(g, start) == OrTail(g, value, Remaining())
        decreases |tokens| - position
      {
        assert Remaining()[1..] == tokens[position + 1..];
        position := position + 1;
        r := DoParseAnd();
        if r.Err? {
          return;
        }
        value := Or(value, r.value);
      }
      r := Ok(value);
    }

    method DoParseAnd() returns (r: Result<Truth, Failure>)
      requires Valid()
      modifies this
      ensures Agrees(r, ParseAnd(g, old(Remaining())))
      decreases |tokens| - position, 2
    {
      ghost var start := Remaining();
      r := DoParseUnary();
      if r.Err? {
        return;
      }
      var value := r.value;
      while position < |tokens| && tokens[position] == "&&"
        invariant Valid() && |Remaining()| < |start|
        invariant ParseAnd(g, start) == AndTail(g, value, Remaining())
        decreases |tokens| - position
      {
        assert Remaining()[1..] == tokens[position + 1..];
        position := position + 1;
        r := DoParseUnary();
        if r.Err? {
          return;
        }
        value := And(value, r.value);
      }
      r := Ok(value);
    }

    method DoParseUnary() returns (r: Result<Truth, Failure>)
      requires Valid()
      modifies this
      ensures Agrees(r, ParseUnary(g, old(Remaining())))
      decreases |tokens| - position, 1
    {
      if position < |tokens| && tokens[position] == "!" {
        assert Remaining()[1..] == tokens[position + 1..];
        position := position + 1;
        r := DoParseUnary();
        if r.Ok? {
          r := Ok(Not(r.value));
        }
      } else {
        r := DoParsePrimary();
      }
    }

    method DoParsePrimary() returns (r: Result<Truth, Failure>)
      requires Valid()
      modifies this
      ensures Agrees(r, ParsePrimary(g, old(Remaining())))
      decreases |tokens| - position, 0
    {
      if position >= |tokens| {
        return Err(Unsupported);
      }
      assert Remaining()[1..] == tokens[position + 1..];
      var token := tokens[position];
      position := position + 1;
      if token != "(" {
        return Ok(EvaluateIdentifier(token, g.profile));
      }
      if g.call.AsWritten? {
        return Err(AttributeError);
      }
      r := DoParseOr();
      if r.Err? {
        return;
      }
      if position >= |tokens| || tokens[position] != ")" {
        return Err(Unsupported);
      }
      assert Remaining()[1..] == tokens[position + 1..];
      position := position + 1;
    }
  }

  /** The whole evaluation of one expression. */
  function EvaluateText(text: string, g: Grammar): Result<Truth, Failure> {
    match TokensOf(text)
    case Err(e) => Err(e)
    case Ok(tokens) =>
      if tokens == [] then Err(Unsupported)
      else
        match ParseOr(g, tokens)
        case Err(e) => Err(e)
        case Ok((v, rest)) => if rest == [] then Ok(v) else Err(Unsupported)
  }

  method EvaluateBuildExpression(text: string, g: Grammar) returns (r: Result<Truth, Failure>)
    ensures r == EvaluateText(text, g)
  {
    var tokens := Tokenize(text);
    if tokens.Err? {
      return Err(tokens.error);
    }
    if tokens.value == [] {
      return Err(Unsupported);
    }
    var parser := new TokenParser(tokens.value, g);
    assert parser.Remaining() == tokens.value;
    r := parser.DoParseOr();
    if r.Ok? && parser.position < |tokens.value| {
      return Err(Unsupported);
    }
  }

  // ---- Writing a tree with the parentheses it needs ----

  function PrintOr(e: Expr): seq<string>
    decreases e, 2
  {
    match e
    case Disj(l, r) => PrintOr(l) + ["||"] + PrintAnd(r)
    case _ => PrintAnd(e)
  }

  function PrintAnd(e: Expr): seq<string>
    decreases e, if e.Disj? then 4 else 1
  {
    match e
    case Conj(l, r) => PrintAnd(l) + ["&&"] + PrintUnary(r)
    case _ => PrintUnary(e)
  }

  function PrintUnary(e: Expr): seq<string>
    decreases e, if e.Tag? || e.Neg? then 0 else 3
  {
    match e
    case Tag(name) => [name]
    case Neg(e) => ["!"] + PrintUnary(e)
    case _ => ["("] + PrintOr(e) + [")"]
  }

  ghost predicate WellNamed(e: Expr) {
    match e
    case Tag(name) => IsWord(name)
    case Neg(e) => WellNamed(e)
    case Conj(l, r) => WellNamed(l) && WellNamed(r)
    case Disj(l, r) => WellNamed(l) && WellNamed(r)
  }

  /** What evaluating the printed form of `e` in front of `rest` must come to. */
  function Outcome(g: Grammar, e: Expr, printed: seq<string>, onwards: Parsed): Parsed {
    if g.call.AsWritten? && "(" in printed then Err(AttributeError) else onwards
  }

  lemma {:induction false} OrReadsBack(g: Grammar, e: Expr, rest: seq<string>)
    requires WellNamed(e) && !Peek(rest, "&&")
    ensures ParseOr(g, PrintOr(e) + rest) == Outcome(g, e, PrintOr(e), OrTail(g, Eval(e, g.profile), rest))
    decreases e, 2
  {
    match e
    case Disj(l, r) =>
      var more := ["||"] + (PrintAnd(r) + rest);
      assert PrintOr(e) + rest == PrintOr(l) + more;
      OrReadsBack(g, l, more);
      assert more[1..] == PrintAnd(r) + rest;
      AndReadsBack(g, r, rest);
    case _ =>
      AndReadsBack(g, e, rest);
  }

  lemma {:induction false} AndReadsBack(g: Grammar, e: Expr, rest: seq<string>)
    requires WellNamed(e)
    ensures ParseAnd(g, PrintAnd(e) + rest) == Outcome(g, e, PrintAnd(e), AndTail(g, Eval(e, g.profile), rest))
    decreases e, if e.Disj? then 4 else 1
  {
    match e
    case Conj(l, r) =>
      var more := ["&&"] + (PrintUnary(r) + rest);
      assert PrintAnd(e) + rest == PrintAnd(l) + more;
      AndReadsBack(g, l, more);
      assert more[1..] == PrintUnary(r) + rest;
      UnaryReadsBack(g, r, rest);
    case _ =>
      UnaryReadsBack(g, e, rest);
  }

  lemma {:induction false} UnaryReadsBack(g: Grammar, e: Expr, rest: seq<string>)
    requires WellNamed(e)
    ensures ParseUnary(g, PrintUnary(e) + rest) == Outcome(g, e, PrintUnary(e), Ok((Eval(e, g.profile), rest)))
    decreases e, if e.Tag? || e.Neg? then 0 else 3
  {
    match e
    case Tag(name) =>
      assert ([name] + rest)[1..] == rest;
      assert name[0] != '!' && name[0] != '(';
    case Neg(e') =>
      assert PrintUnary(e) + rest == ["!"] + (PrintUnary(e') + rest);
      assert (["!"] + (PrintUnary(e') + rest))[1..] == PrintUnary(e') + rest;
      UnaryReadsBack(g, e', rest);
    case _ =>
      var close := [")"] + rest;
      var ts := ["("] + (PrintOr(e) + close);
      assert PrintUnary(e) + rest == ts;
      assert ts[1..] == PrintOr(e) + close;
      assert "(" in PrintUnary(e) by { assert PrintUnary(e)[0] == "("; }
      if g.call.AsIntended? {
        OrReadsBack(g, e, close);
        assert close[1..] == rest;
      }
  }

  /** Whether writing `e` takes parentheses. */
  predicate NeedsParentheses(e: Expr) {
    "(" in PrintOr(e)
  }

  lemma {:induction false} PrintedAreTokens(e: Expr)
    requires WellNamed(e)
    ensures PrintOr(e) != [] && forall t :: t in PrintOr(e) ==> IsToken(t)
    ensures PrintAnd(e) != [] && forall t :: t in PrintAnd(e) ==> IsToken(t)
    ensures PrintUnary(e) != [] && forall t :: t in PrintUnary(e) ==> IsToken(t)
  {
    match e
    case Tag(_) =>
      assert PrintOr(e) == PrintAnd(e) == PrintUnary(e);
    case Neg(e') =>
      PrintedAreTokens(e');
      assert PrintOr(e) == PrintAnd(e) == PrintUnary(e);
    case Conj(l, r) => PrintedAreTokens(l); PrintedAreTokens(r);
    case Disj(l, r) => PrintedAreTokens(l); PrintedAreTokens(r);
  }

  /** One space before each token is spacing enough. */
  lemma SingleSpacesSuffice(e: Expr)
    requires WellNamed(e)
    ensures Spaced(PrintOr(e), seq(|PrintOr(e)|, _ => " "))
  {
    PrintedAreTokens(e);
  }

  /**
   * Write any expression with the parentheses it needs and any spacing that keeps words
   * apart: with line 369 as intended the evaluator reads back its Kleene value.  As written
   * it does so exactly when no parenthesis is needed, and otherwise dies on the missing method.
   */
  lemma EvaluationRoundTrip(g: Grammar, e: Expr, gaps: seq<string>)
    requires WellNamed(e) && |gaps| == |PrintOr(e)|
    requires Spaced(PrintOr(e), gaps)
    ensures EvaluateText(Render(PrintOr(e), gaps), g)
            == if g.call.AsWritten? && NeedsParentheses(e) then Err(AttributeError) else Ok(Eval(e, g.profile))
  {
    PrintedAreTokens(e);
    TokensRoundTrip(PrintOr(e), gaps);
    OrReadsBack(g, e, []);
    assert PrintOr(e) + [] == PrintOr(e);
  }

  /** `!(linux || darwin)`, a constraint that the code as written cannot evaluate. */
  lemma ParenthesesDefeatTheCode(p: Profile)
    ensures var e := Neg(Disj(Tag("linux"), Tag("darwin")));
            && ParseOr(Grammar(p, AsWritten), PrintOr(e)) == Err(AttributeError)
            && ParseOr(Grammar(p, AsIntended), PrintOr(e)) == Ok((Eval(e, p), []))
  {
    var e := Neg(Disj(Tag("linux"), Tag("darwin")));
    OrReadsBack(Grammar(p, AsWritten), e, []);
    OrReadsBack(Grammar(p, AsIntended), e, []);
    assert PrintOr(e) + [] == PrintOr(e);
    assert PrintOr(e)[1] == "(";
  }

  // ---- What is rejected, and what is not ----

  /** Tokens after a complete expression are an error. */
  lemma LeftoverRejected(g: Grammar, e: Expr, rest: seq<string>, gaps: seq<string>)
    requires WellNamed(e) && rest != [] && !Peek(rest, "&&") && !Peek(rest, "||")
    requires Spaced(PrintOr(e) + rest, gaps) && (g.call.AsIntended? || "(" !in PrintOr(e))
    ensures EvaluateText(Render(PrintOr(e) + rest, gaps), g) == Err(Unsupported)
  {
    TokensRoundTrip(PrintOr(e) + rest, gaps);
    OrReadsBack(g, e, rest);
  }

  /** So is an operator without its right operand, */
  lemma MissingOperandRejected(g: Grammar, e: Expr)
    requires WellNamed(e) && (g.call.AsIntended? || "(" !in PrintOr(e))
    ensures ParseOr(g, PrintOr(e) + ["||"]) == Err(Unsupported) && ParseOr(g, ["!"]) == Err(Unsupported)
    ensures ParseOr(g, []) == Err(Unsupported) && EvaluateText("", g) == Err(Unsupported)
  {
    OrReadsBack(g, e, ["||"]);
    assert ["||"][1..] == [] && ["!"][1..] == [];
  }

  /** and a parenthesis that is not closed. */
  lemma UnclosedRejected(g: Grammar, e: Expr)
    requires WellNamed(e) && g.call.AsIntended?
    ensures ParseOr(g, ["("] + PrintOr(e)) == Err(Unsupported)
  {
    OrReadsBack(g, e, []);
    var ts := ["("] + PrintOr(e);
    assert ts[1..] == PrintOr(e) + [] && ts[0] == "(";
    assert ParsePrimary(g, ts) == Err(Unsupported);
    FromPrimary(g, ts);
  }

  /** Unless a `!` comes first, an expression begins with a primary. */
  lemma FromPrimary(g: Grammar, ts: seq<string>)
    requires !Peek(ts, "!")
    ensures ParsePrimary(g, ts).Err? ==> ParseOr(g, ts) == ParsePrimary(g, ts)
    ensures ParsePrimary(g, ts).Ok? && ParsePrimary(g, ts).value.1 == [] ==> ParseOr(g, ts) == ParsePrimary(g, ts)
  {
    hide ParsePrimary;
    assert ParseUnary(g, ts) == ParsePrimary(g, ts);
    if ParsePrimary(g, ts).Ok? && ParsePrimary(g, ts).value.1 == [] {
      var (v, rest) := ParsePrimary(g, ts).value;
      assert AndTail(g, v, rest) == Ok((v, rest)) && OrTail(g, v, rest) == Ok((v, rest));
      assert ParseAnd(g, ts) == Ok((v, rest));
    }
  }

  /** But an operator where an operand should be is taken for a tag, one that nobody passes. */
  lemma StrayOperatorIsTag(g: Grammar, t: string)
    requires t in {"&&", "||", ")"}
    ensures ParseOr(g, [t]) == Ok((FALSE, []))
  {
    StrayOperatorAbsent(t, g.profile);
    assert [t][1..] == [] && [t][0] == t;
    assert t != "(" && t != "!";
    FromPrimary(g, [t]);
  }

  lemma StrayOperatorAbsent(t: string, p: Profile)
    requires t in {"&&", "||", ")"}
    ensures EvaluateIdentifier(t, p) == FALSE
  {
    NotAWordHere(t);
    OtherTags(t, p);
  }

  lemma NotAWordHere(t: string)
    requires t in {"&&", "||", ")"}
    ensures t !in SUPPORTED_GOOS + SUPPORTED_GOARCH + KNOWN_GOOS + KNOWN_GOARCH
                    + {"unix", "gc", "gccgo", "cgo", "nocgo"}
    ensures !("go1." <= t) && '.' !in t
  {
    assert t[0] in {'&', '|', ')'};
  }

  // ---- Selecting files ----

  /** A file name's verdict, then the build expression if the name has not already ruled the file out. */
  function FileSelection(filename: Truth, guard: Option<string>, g: Grammar): Result<Truth, Failure> {
    if filename.FALSE? then Ok(FALSE)
    else
      match guard
      case None => Ok(filename)
      case Some(text) =>
        match EvaluateText(text, g)
        case Err(e) => Err(e)
        case Ok(v) => Ok(And(filename, v))
  }

  /** A file is selected when neither its name nor its constraint stands in the way, and left out when one does. */
  lemma SelectionMeans(filename: Truth, guard: Option<string>, g: Grammar)
    ensures FileSelection(filename, guard, g) == Ok(TRUE)
            <==> filename == TRUE && (guard.None? || EvaluateText(guard.value, g) == Ok(TRUE))
    ensures FileSelection(filename, guard, g) == Ok(FALSE)
            <==> filename == FALSE || (guard.Some? && EvaluateText(guard.value, g) == Ok(FALSE))
    ensures FileSelection(filename, guard, g).Err?
            <==> filename != FALSE && guard.Some? && EvaluateText(guard.value, g).Err?
  {
    hide EvaluateText;
  }

  /**
   * Two files whose constraints are an expression and its negation are never both selected;
   * if neither name rules its file out and the expression is decided, exactly one is.
   */
  lemma OppositeGuards(g: Grammar, e: Expr, gaps1: seq<string>, gaps2: seq<string>, name1: Truth, name2: Truth)
    requires WellNamed(e) && Spaced(PrintOr(e), gaps1) && Spaced(PrintOr(Neg(e)), gaps2)
    ensures var one := FileSelection(name1, Some(Render(PrintOr(e), gaps1)), g);
            var other := FileSelection(name2, Some(Render(PrintOr(Neg(e)), gaps2)), g);
            && !(one == Ok(TRUE) && other == Ok(TRUE))
            && (name1.TRUE? && name2.TRUE? && one.Ok? && other.Ok? ==> other.value == Not(one.value))
  {
    EvaluationRoundTrip(g, e, gaps1);
    EvaluationRoundTrip(g, Neg(e), gaps2);
  }
}
