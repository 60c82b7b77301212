/**
 Where the conditions of `PrepareMeaning` bite in headers: words that are replaced where they spell a key, where they
 close a brace, here and not there, or where their value no longer splits; with the texts on which the code then fails.
 */
module HeaderLimits {
  import opened References
  import opened Prepare
  import opened DockerfileRuns
  import opened PrepareMeaning
  import H = HeaderReading
  import L = PrepareLimits
  import M = Materializer
  import R = Rewriter
  import W = WordSplitting

  // ---- A word that is replaced where it spells a key ----

  /** An instruction that is not expanded is always ordinary, whatever it mentions. */
  lemma VerbatimIsOrdinary(cfg: Config, st: State, header: string, o: Frame)
    ensures Ordinary(cfg, st, Other(Verbatim, header, [], [], [], []), o)
    ensures Process(cfg, st, Other(Verbatim, header, [], [], [], []))
            == Ok((st, OutOther({}, Verbatim, header, [])))
  {
    hide M.Materialize, M.Segments, M.UsedBy, M.Emit, R.Rewrite;
    var step := Other(Verbatim, header, [], [], [], []);
    NothingPlanned(cfg, step, st.active);
    DeclareNothing(cfg, st);
    assert RewriteDocs([], map[]) == [];
  }

  /** With no word to replace nothing can go wrong. */
  lemma {:induction false} NoCandidateClosesNothing(s: string, prev: bool, y: Syntax, q: Quote, close: Close)
    ensures M.NothingClosed(s, prev, y, q, close, [])
    decreases |s|
  {
    hide TokenAt, ParseTo;
    var k := TokenAt(s, y, q);
    if !IsLast(k, q, close) {
      var rest, prev' := s[Len(k)..], M.IsBoundary(s[Len(k) - 1]);
      if k.Open? {
        NoCandidateClosesNothing(rest, prev', y, q, Brace(q));
        var w := ParseTo(rest, y, q, Brace(q));
        if w.Parsed? {
          NoCandidateClosesNothing(w.rest, false, y, q, close);
        }
      } else {
        NoCandidateClosesNothing(rest, prev', y, NextQuote(k, y, q), close);
      }
    }
  }

  lemma NoCandidateIsKept(cfg: Config, step: Step, active: map<string, string>, pl: Plan)
    requires step.Other? && PlanStep(cfg, step, active) == Ok(pl) && pl.exprs == []
    ensures WordsKept(cfg, step, active, pl)
  {
    hide ParseTo, H.NothingSwallowed, M.NothingClosed, W.NothingJoined, PlanStep, NamedIn, ExprAlias, Eval, Names;
    var y := HeaderSyntax(cfg, step.kind);
    NoCandidateClosesNothing(step.header, true, y, Bare, Top);
    PlanIsGood(cfg, step, active);
    M.MaterializeNothing(step.header, true, y, Bare);
    M.UsedInIsUsedBy(step.header, true, y, Bare, []);
    if Parse(pl.header, y).Parsed? {
      H.UnmarkedSwallowsNothing(Parse(pl.header, y).text, map[], HeaderShape(step.kind));
      W.NothingToJoin(Parse(pl.header, y).text, active);
    }
  }

  /** What is read assigns something exactly when it holds a noticed `=`. */
  lemma {:induction false} AssignsIffEquals(outs: seq<Out>, key: string, inValue: bool, value: string)
    ensures H.Assign(outs, key, inValue, value) != map[] <==> inValue || Sep('=') in outs
    decreases |outs|
  {
    if outs == [] {
      assert inValue ==> key in H.Pair(key, inValue, value);
    } else {
      assert outs == [outs[0]] + outs[1..];
      match outs[0]
      case Ch(c) =>
        AssignsIffEquals(outs[1..], if inValue then key else key + [c], inValue, if inValue then value + [c] else []);
      case Sep(c) =>
        if c != '=' {
          AssignsIffEquals(outs[1..], [], false, []);
          if inValue {
            assert key in H.Pair(key, inValue, value);
            assert key in H.Assign(outs, key, inValue, value);
          }
        } else {
          AssignsIffEquals(outs[1..], key, true, value);
        }
    }
  }

  lemma AssignsNothingIff(outs: seq<Out>)
    ensures H.Assignments(outs) == map[] <==> Sep('=') !in outs
  {
    AssignsIffEquals(outs, [], false, []);
  }

  function EnvKeyword(): string { "ENV " }

  /** After a keyword and its blank a text is read as by itself. */
  lemma AfterKeyword(k: string, s: string, y: Syntax)
    requires ValidSyntax(y) && !y.raw && y.marks && Parse(s, y).Parsed? && forall i | 0 <= i < |k| :: IsNameChar(k[i])
    ensures Parse(k + (" " + s), y) == Parsed(Join(Literal(k), Char(' ', true, Parse(s, y).text)), [], Bare)
  {
    hide ParseTo, Literal;
    assert (" " + s)[1..] == s;
    L.ParseName(k, " " + s, y);
    ParseSimple(" " + s, y, Bare, Top, Token.Plain(' '));
  }

  /** Read after the keyword of an `ENV`, a tree gives what its first word and the others come to. */
  lemma ReadAfterKeyword(k: string, t: Text, env: Env)
    requires k != []
    ensures Eval(H.Settle(Join(Literal(k), Char(' ', true, t)), H.InKeyword(false, true)), env)
            == Chars(k) + ([Sep(' ')] + Eval(H.Settle(t, H.InFirst(false)), env))
  {
    hide Eval, Literal, Chars;
    var u := Char(' ', true, t);
    H.LiteralSettles(k, H.InKeyword(false, true));
    LiteralIsText(k);
    H.UnnoticedIsPlain(Literal(k), H.InKeyword(false, true));
    H.SettleJoin(Literal(k), u, H.InKeyword(false, true));
    var v := H.Settle(u, H.InKeyword(true, true));
    assert v == Char(' ', true, H.Settle(t, H.InFirst(false)));
    EvalJoin(Literal(k), v, env);
    LiteralMeans(k, env);
    EvalStep(v, End, env);
  }

  lemma LiteralIsText(k: string)
    requires k != []
    ensures !Literal(k).End?
  {
  }

  /**
   A captured word such as `X=$B`, the value of `V=X=$B`, may also be spelled out as an assignment of its own, here
   `ENV X=$B`. It is replaced whole, and nothing is assigned any more.
   */
  lemma AssignmentIsSwallowed(cfg: Config, e: M.Expression, env: Env)
    requires ValidConfig(cfg) && ValidArgName(e.alias) && e.source == "X=$B"
    ensures var y := HeaderSyntax(cfg, Kind.Env);
            var s := EnvKeyword() + e.source;
            var r := M.Materialize(s, true, y, Bare, [e]);
            && r == EnvKeyword() + M.AliasReference(e)
            && ReadHeader(cfg, Kind.Env, s, env).Gives? && ReadHeader(cfg, Kind.Env, r, env).Gives?
            && H.Assignments(ReadHeader(cfg, Kind.Env, s, env).out) != map[]
            && H.Assignments(ReadHeader(cfg, Kind.Env, r, env).out) == map[]
  {
    hide ParseTo, M.Materialize, Eval, H.Settle, M.AliasReference, H.Assign, Literal, Chars, Join;
    var y := HeaderSyntax(cfg, Kind.Env);
    var d := Char('X', false, Char('=', true, Value("B", true, End)));
    EnvWordReplaced(e, y);
    WordTree(y);
    WordIsAssignment(env);
    assert EnvKeyword() + e.source == "ENV" + (" " + e.source);
    AfterKeyword("ENV", e.source, y);
    ReadAfterKeyword("ENV", d, env);
    NoEquals("ENV", Eval(H.Settle(d, H.InFirst(false)), env));
    assert M.AliasReference(e) + [] == M.AliasReference(e);
    assert EnvKeyword() + M.AliasReference(e) == "ENV" + (" " + M.AliasReference(e));
    M.AliasParsed(e, "", y, Top);
    ParseLast("", y, Bare, Top, Eot);
    AfterKeyword("ENV", M.AliasReference(e), y);
    ReadAfterKeyword("ENV", Value(e.alias, e.unquoted, End), env);
    AliasOut(e.alias, e.unquoted, env);
    NoEquals("ENV", Chars(Lookup(e.alias, env)));
    CharsHoldNoMark(Lookup(e.alias, env));
    AssignsNothingIff(ReadHeader(cfg, Kind.Env, EnvKeyword() + e.source, env).out);
    AssignsNothingIff(ReadHeader(cfg, Kind.Env, EnvKeyword() + M.AliasReference(e), env).out);
  }

  /** The keyword and its blank are no `=`. */
  lemma NoEquals(k: string, outs: seq<Out>)
    ensures Sep('=') in Chars(k) + ([Sep(' ')] + outs) <==> Sep('=') in outs
  {
    var all := Chars(k) + ([Sep(' ')] + outs);
    if Sep('=') in outs {
      var i :| 0 <= i < |outs| && outs[i] == Sep('=');
      assert all[|k| + 1 + i] == Sep('=');
    }
  }

  lemma CharsHoldNoMark(v: string)
    ensures Sep('=') !in Chars(v)
  {
  }

  lemma AliasOut(alias: string, bare: bool, env: Env)
    ensures Eval(H.Settle(Value(alias, bare, End), H.InFirst(false)), env) == Chars(Lookup(alias, env))
  {
    assert H.Settle(Value(alias, bare, End), H.InFirst(false)) == Value(alias, false, End);
    L.ReferenceOut(alias, env);
  }

  lemma WordTree(y: Syntax)
    requires ValidSyntax(y) && !y.raw && y.marks
    ensures Parse("X=$B", y) == Parsed(Char('X', false, Char('=', true, Value("B", true, End))), [], Bare)
  {
    hide ParseTo, NameLen, DollarToken;
    var a, b, c := "X=$B", "=$B", "$B";
    assert a[1..] == b && b[1..] == c && c == "$" + ("B" + "") && c[2..] == "";
    NameLenOfName("B", "");
    DollarNameToken("B", "");
    DollarTokenAt(c, y, Bare);
    ParseSimple(a, y, Bare, Top, Token.Plain('X'));
    ParseSimple(b, y, Bare, Top, Token.Plain('='));
    ParseSimple(c, y, Bare, Top, Ref("B", 2));
    ParseLast("", y, Bare, Top, Eot);
  }

  /** At the front of an `ENV` the word is a key and its value. */
  lemma WordIsAssignment(env: Env)
    ensures Sep('=') in Eval(H.Settle(Char('X', false, Char('=', true, Value("B", true, End))), H.InFirst(false)), env)
  {
    var d := Char('=', true, Value("B", true, End));
    var u := Char('=', true, Value("B", false, End));
    assert H.Settle(d, H.InFirst(true)) == u;
    assert H.Settle(Char('X', false, d), H.InFirst(false)) == Char('X', false, u);
    assert Eval(u, env)[0] == Sep('=');
    assert Eval(Char('X', false, u), env)[1] == Sep('=');
  }

  lemma EnvWordReplaced(e: M.Expression, y: Syntax)
    requires ValidSyntax(y) && !y.raw && e.source == "X=$B"
    ensures M.Materialize(EnvKeyword() + e.source, true, y, Bare, [e]) == EnvKeyword() + M.AliasReference(e)
  {
    hide M.Materialize, M.AliasReference;
    var exprs := [e];
    var s := EnvKeyword() + e.source;
    var p := EnvKeyword()[1..];
    assert s[1..] == p + e.source && s[..1] == "E" && s[0] == 'E' && e.source[0] == 'X';
    M.MaterializeStep(s, true, y, Bare, exprs);
    CopiedRun(p, e.source, y, exprs);
    assert M.Eligible(e.source, exprs[0]);
    M.MaterializeStep(e.source, true, y, Bare, exprs);
    assert e.source[4..] == [];
    M.MaterializeEmpty(M.IsBoundary(e.source[3]), y, Bare, exprs);
    assert M.AliasReference(e) + [] == M.AliasReference(e);
    assert "E" + (p + M.AliasReference(e)) == EnvKeyword() + M.AliasReference(e);
  }

  // ---- A word that closes a brace ----

  /** Where no boundary precedes, no word is replaced. */
  lemma {:induction false} CopiedRun(p: string, rest: string, y: Syntax, exprs: seq<M.Expression>)
    requires M.AllNonEmpty(exprs) && p != []
    requires forall k | 0 <= k < |p| ::
            p[k] != y.escape && p[k] != '\'' && p[k] != '"' && (k < |p| - 1 ==> !M.IsBoundary(p[k]))
    ensures M.Materialize(p + rest, false, y, Bare, exprs)
            == p + M.Materialize(rest, M.IsBoundary(p[|p| - 1]), y, Bare, exprs)
    ensures M.UsedIn(p + rest, false, y, Bare, exprs) == M.UsedIn(rest, M.IsBoundary(p[|p| - 1]), y, Bare, exprs)
  {
    hide M.Materialize, M.UsedIn;
    var s := p + rest;
    assert s[1..] == p[1..] + rest && s[..1] == p[..1] && s[0] == p[0];
    M.MaterializeStep(s, false, y, Bare, exprs);
    M.UsedStep(s, false, y, Bare, exprs);
    if |p| > 1 {
      CopiedRun(p[1..], rest, y, exprs);
      assert p == p[..1] + p[1..];
    } else {
      assert p[1..] + rest == rest && p[..1] == p;
    }
  }

  function Opening(): string { "${X:-=" }

  lemma OpeningToken(rest: string, y: Syntax)
    requires ValidSyntax(y)
    ensures TokenAt(Opening() + rest, y, Bare) == Open("X", true, false, 5) && (Opening() + rest)[5..] == "=" + rest
  {
    var s := Opening() + rest;
    var u := s[2..];
    assert u[0] == 'X' && u[1] == ':' && u[2] == '-';
    assert WordLen(u[1..]) == 0 && WordLen(u) == 1 && NameLen(u) == 1;
    assert u[..1] == "X" && s[2..3] == "X" && s[3..][0] == ':' && s[3..][1..][0] == '-';
  }

  /**
   A captured word may begin by closing a brace, as `}$K` in `ENV B=}$K A=${X:-=}$K`. Replaced inside a conditional it
   takes the brace away, and a well-formed text becomes malformed.
   */
  lemma ClosingWordBreaksHeader(e: M.Expression, y: Syntax)
    requires ValidSyntax(y) && !y.raw && ValidArgName(e.alias) && e.source == "}$K"
    ensures Parse(Opening() + e.source, y).Parsed?
    ensures Parse(M.Materialize(Opening() + e.source, true, y, Bare, [e]), y).Malformed?
    ensures !M.NothingClosed(Opening() + e.source, true, y, Bare, Top, [e])
  {
    hide M.NothingClosed, ParseTo, Opening, M.Materialize;
    ClosingWordParses(y);
    ClosingWordReplaced(e, "", y);
    assert e.source + "" == e.source && M.AliasReference(e) + "" == M.AliasReference(e);
    UnclosedIsMalformed(e, y);
    KTree(y);
    if M.NothingClosed(Opening() + e.source, true, y, Bare, Top, [e]) {
      var defs := map[e.alias := Parse(e.source, y).text];
      assert M.Reads(defs, [e], y);
      M.MaterializeReads(Opening() + e.source, true, y, Bare, Top, [e], defs);
    }
  }

  /**
   Or another brace, further on, closes it instead: `${X:-=}$K }` stays well formed, but where `X` is set to some text
   the rest of the line is gone. So well-formedness does not tell the headers that keep their reading from those that
   do not.
   */
  lemma ClosingWordMovesBrace(e: M.Expression, y: Syntax, env: Env)
    requires ValidSyntax(y) && !y.raw && ValidArgName(e.alias) && e.source == "}$K" && "X" in env && env["X"] != []
    ensures var s := Opening() + (e.source + " }");
            var p, r := Expand(s, y, env), Expand(M.Materialize(s, true, y, Bare, [e]), y, env);
            p.Gives? && r.Gives? && r.out == Chars(env["X"]) && |p.out| > |r.out|
  {
    hide ParseTo, Opening, M.Materialize, Eval;
    var s := Opening() + (e.source + " }");
    ClosingWordReplaced(e, " }", y);
    ClosedHere(y);
    ClosedLater(e, y);
    var later := ParseTo("=" + (M.AliasReference(e) + " }"), y, Bare, Brace(Bare));
    CondOut(y.marks, "=", Value("K", y.marks, Char(' ', y.marks, Char('}', false, End))), env);
    WordOut(y.marks, later.text, env);
  }

  lemma WordOut(bare: bool, word: Text, env: Env)
    requires "X" in env && env["X"] != []
    ensures Eval(Cond("X", true, false, bare, word, End), env) == Chars(env["X"])
  {
    assert Chars(env["X"]) + [] == Chars(env["X"]);
  }

  lemma CondOut(bare: bool, word: string, rest: Text, env: Env)
    requires "X" in env && env["X"] != [] && rest.Value? && rest.rest.Char?
    ensures |Eval(Cond("X", true, false, bare, Literal(word), rest), env)| > |env["X"]|
  {
    assert |Eval(rest.rest, env)| > 0;
    assert |Eval(rest, env)| >= |Eval(rest.rest, env)|;
  }

  /** The rest of the text as it is written, and as it is read once the word is replaced. */
  lemma ClosedHere(y: Syntax)
    requires ValidSyntax(y) && !y.raw
    ensures Parse(Opening() + ("}$K" + " }"), y) ==
            Parsed(Cond("X", true, false, y.marks, Literal("="),
                        Value("K", y.marks, Char(' ', y.marks, Char('}', false, End)))), [], Bare)
  {
    hide ParseTo, Opening, TokenAt;
    var tail := "}$K" + " }";
    var s := Opening() + tail;
    OpeningToken(tail, y);
    ParseOpen(s, y, Bare, Top, Open("X", true, false, 5));
    SmallTokens(y);
    TailTokens(y);
    ParseSimple("=" + tail, y, Bare, Brace(Bare), Token.Plain('='));
    assert ("=" + tail)[1..] == tail && tail[1..] == "$K }";
    ParseLast(tail, y, Bare, Brace(Bare), Token.Plain('}'));
    TailTree(y);
    assert Literal("=") == Char('=', false, End);
  }

  lemma TailTree(y: Syntax)
    requires ValidSyntax(y) && !y.raw
    ensures Parse("$K }", y) == Parsed(Value("K", y.marks, Char(' ', y.marks, Char('}', false, End))), [], Bare)
  {
    hide ParseTo, TokenAt;
    TailTokens(y);
    SmallTokens(y);
    assert "$K }"[2..] == " }" && " }"[1..] == "}" && "}"[1..] == "";
    ParseSimple("$K }", y, Bare, Top, Ref("K", 2));
    ParseSimple(" }", y, Bare, Top, Token.Plain(' '));
    ParseSimple("}", y, Bare, Top, Token.Plain('}'));
    ParseLast("", y, Bare, Top, Eot);
  }

  lemma TailTokens(y: Syntax)
    requires ValidSyntax(y) && !y.raw
    ensures TokenAt("}$K" + " }", y, Bare) == Token.Plain('}') && TokenAt(" }", y, Bare) == Token.Plain(' ')
    ensures TokenAt("}", y, Bare) == Token.Plain('}') && TokenAt("$K }", y, Bare) == Ref("K", 2)
  {
    hide NameLen, DollarToken;
    NameLenOfName("K", " }");
    DollarNameToken("K", " }");
    assert "$K }" == "$" + ("K" + " }");
    DollarTokenAt("$K }", y, Bare);
  }

  lemma ClosedLater(e: M.Expression, y: Syntax)
    requires ValidSyntax(y) && !y.raw && ValidArgName(e.alias)
    ensures var word := ParseTo("=" + (M.AliasReference(e) + " }"), y, Bare, Brace(Bare));
            && word.Parsed?
            && Parse(Opening() + (M.AliasReference(e) + " }"), y)
               == Parsed(Cond("X", true, false, y.marks, word.text, End), [], Bare)
  {
    hide ParseTo, Opening, TokenAt, M.AliasReference;
    var x := M.AliasReference(e) + " }";
    OpeningToken(x, y);
    ParseOpen(Opening() + x, y, Bare, Top, Open("X", true, false, 5));
    SmallTokens(y);
    TailTokens(y);
    ParseSimple("=" + x, y, Bare, Brace(Bare), Token.Plain('='));
    assert ("=" + x)[1..] == x && " }"[1..] == "}" && "}"[1..] == "";
    M.AliasParsed(e, " }", y, Brace(Bare));
    ParseSimple(" }", y, Bare, Brace(Bare), Token.Plain(' '));
    ParseLast("}", y, Bare, Brace(Bare), Token.Plain('}'));
    ParseLast("", y, Bare, Top, Eot);
  }

  lemma KTree(y: Syntax)
    requires ValidSyntax(y) && !y.raw
    ensures Parse("}$K", y).Parsed?
  {
    hide ParseTo, TokenAt;
    SmallTokens(y);
    assert "}$K"[1..] == "$K" && "$K"[2..] == "";
    ParseSimple("}$K", y, Bare, Top, Token.Plain('}'));
    ParseSimple("$K", y, Bare, Top, Ref("K", 2));
    ParseLast("", y, Bare, Top, Eot);
  }

  lemma ClosingWordParses(y: Syntax)
    requires ValidSyntax(y) && !y.raw
    ensures Parse(Opening() + "}$K", y).Parsed?
  {
    hide ParseTo, Opening, TokenAt;
    var s := Opening() + "}$K";
    OpeningToken("}$K", y);
    ParseOpen(s, y, Bare, Top, Open("X", true, false, 5));
    SmallTokens(y);
    ParseSimple("=" + "}$K", y, Bare, Brace(Bare), Token.Plain('='));
    assert ("=" + "}$K")[1..] == "}$K" && "}$K"[1..] == "$K" && "$K"[2..] == "";
    ParseLast("}$K", y, Bare, Brace(Bare), Token.Plain('}'));
    ParseSimple("$K", y, Bare, Top, Ref("K", 2));
    ParseLast("", y, Bare, Top, Eot);
  }

  lemma SmallTokens(y: Syntax)
    requires ValidSyntax(y) && !y.raw
    ensures forall rest: string :: TokenAt("=" + rest, y, Bare) == Token.Plain('=')
    ensures TokenAt("}$K", y, Bare)
            == Token.Plain('}') && TokenAt("$K", y, Bare) == Ref("K", 2) && TokenAt("", y, Bare) == Eot
  {
    var u := "$K"[1..];
    assert u == "K" && WordLen(u[1..]) == 0 && WordLen(u) == 1 && NameLen(u) == 1 && u[..1] == "K";
  }

  lemma ClosingWordReplaced(e: M.Expression, x: string, y: Syntax)
    requires ValidSyntax(y) && !y.raw && e.source == "}$K" && (x == "" || x == " }")
    ensures M.Materialize(Opening() + (e.source + x), true, y, Bare, [e]) == Opening() + (M.AliasReference(e) + x)
  {
    hide M.Materialize, M.AliasReference;
    var exprs := [e];
    var s := Opening() + (e.source + x);
    var p := Opening()[1..];
    assert s[1..] == p + (e.source + x) && s[..1] == "$" && s[0] == '$' && e.source[0] == '}';
    M.MaterializeStep(s, true, y, Bare, exprs);
    CopiedRun(p, e.source + x, y, exprs);
    var w := e.source + x;
    assert w[..3] == e.source && w[3..] == x && (x != "" ==> w[3] == ' ');
    assert M.Eligible(w, exprs[0]);
    M.MaterializeStep(w, true, y, Bare, exprs);
    TailCopied(x, e, y);
    assert "$" + (p + (M.AliasReference(e) + x)) == Opening() + (M.AliasReference(e) + x);
  }

  lemma TailCopied(x: string, e: M.Expression, y: Syntax)
    requires ValidSyntax(y) && e.source == "}$K" && (x == "" || x == " }")
    ensures M.Materialize(x, false, y, Bare, [e]) == x
  {
    hide M.Materialize;
    M.MaterializeEmpty(false, y, Bare, [e]);
    M.MaterializeStep(x, false, y, Bare, [e]);
    if x != "" {
      assert x[1..] == "}" && "}"[1..] == "" && x[..1] == " " && "}"[..1] == "}";
      assert !M.Eligible("}", [e][0]);
      M.MaterializeStep("}", true, y, Bare, [e]);
      assert " " + "}" == x;
    }
  }

  lemma UnclosedIsMalformed(e: M.Expression, y: Syntax)
    requires ValidSyntax(y) && !y.raw && ValidArgName(e.alias)
    ensures Parse(Opening() + M.AliasReference(e), y).Malformed?
  {
    hide ParseTo, Opening, TokenAt, M.AliasReference;
    var x := M.AliasReference(e);
    OpeningToken(x, y);
    ParseOpen(Opening() + x, y, Bare, Top, Open("X", true, false, 5));
    SmallTokens(y);
    ParseSimple("=" + x, y, Bare, Brace(Bare), Token.Plain('='));
    assert ("=" + x)[1..] == x && x + "" == x;
    M.AliasParsed(e, "", y, Brace(Bare));
    ParseLast("", y, Bare, Brace(Bare), Eot);
  }

  // ---- A word that is replaced here and not there ----

  /**
   Main result: rewritten as well, the header looks up no input that is still active, and none of them is there to be
   looked up in the prepared build, if and only if nothing is forgotten.
   */
  lemma LooksUpNoInputIff(cfg: Config, step: Step, active: map<string, string>, pl: Plan)
    requires ValidConfig(cfg) && step.Other? && PlanStep(cfg, step, active) == Ok(pl)
            && SpelledAsRead(cfg, step, active)
    requires GoodPlan(cfg, step, active, pl) && Submap(active, cfg.values) && forall k | k in pl.needed ::
            ValidArgName(k)
    requires TreesMatch(cfg, step, pl) && HeaderWords(cfg, step)
    ensures var y := HeaderSyntax(cfg, step.kind);
            (forall n | n in active :: !NamedIn(R.Rewrite(pl.header, BindingsFor(pl.needed), y, Bare), y, n))
            <==> NothingForgotten(cfg, step, active, pl)
  {
    hide PlanStep, GoodPlan, TreesMatch, HeaderWords, SpelledAsRead, NothingForgotten, R.Rewrite, ParseTo, ValidArgName,
        Names, KeyAlias, Reserved;
    var y, b := HeaderSyntax(cfg, step.kind), BindingsFor(pl.needed);
    CoveredIff(cfg, step, active, pl);
    BindingsAreValid(cfg, pl.needed);
    R.RewriteIsRename(pl.header, b, y);
    var r := Parse(pl.header, y);
    if r.Parsed? {
      R.RenamedNames(r.text, b);
      forall n | n in active
        ensures NamedIn(R.Rewrite(pl.header, b, y, Bare), y, n) <==> NamedIn(pl.header, y, n) && n !in pl.needed
      {
        RenamedInput(cfg, active, pl, r.text, n);
      }
    }
  }

  /** Renaming leaves an active input in a text exactly when it is not bound. */
  lemma RenamedInput(cfg: Config, active: map<string, string>, pl: Plan, t: Text, n: string)
    requires ValidConfig(cfg) && Submap(active, cfg.values) && n in active
    requires forall m :: m in Names(R.Rename(t, BindingsFor(pl.needed))) <==>
                         exists k :: k in Names(t) && m == R.RenameName(k, BindingsFor(pl.needed))
    ensures n in Names(R.Rename(t, BindingsFor(pl.needed))) <==> n in Names(t) && n !in pl.needed
  {
    hide Names, KeyAlias, ValidConfig;
    var b := BindingsFor(pl.needed);
    InputIsNoAlias(cfg, active, n);
    forall k | k in b ensures R.RenameName(k, b) != n {
      AliasesAreNames(cfg, k);
    }
    if n in Names(t) && n !in pl.needed {
      assert n == R.RenameName(n, b);
    }
  }

  const TWICE := "$K $K\\\n"

  /** `$K $K`, and an escaped line end that no boundary precedes. */
  lemma TwiceReads(y: Syntax)
    requires ValidSyntax(y) && y.escape == '\\' && !y.raw && !y.marks
    ensures Parse(TWICE, y) == Parsed(Value("K", false, Char(' ', false, Value("K", false, End))), [], Bare)
    ensures Parse("$K", y) == Parsed(Value("K", false, End), [], Bare)
  {
    hide ParseTo, TokenAt;
    var s, t, u := " $K\\\n", "$K\\\n", "\\\n";
    KTokens(y);
    assert TWICE[2..] == s && s[1..] == t && t[2..] == u && u[2..] == "" && "$K"[2..] == "";
    ParseSimple(TWICE, y, Bare, Top, Ref("K", 2));
    ParseSimple(s, y, Bare, Top, Token.Plain(' '));
    ParseSimple(t, y, Bare, Top, Ref("K", 2));
    ParseSimple(u, y, Bare, Top, Escaped('\n'));
    ParseSimple("$K", y, Bare, Top, Ref("K", 2));
    ParseLast("", y, Bare, Top, Eot);
  }

  lemma KTokens(y: Syntax)
    requires ValidSyntax(y) && y.escape == '\\' && !y.raw
    ensures TokenAt(TWICE, y, Bare) == Ref("K", 2) && TokenAt(" $K\\\n", y, Bare) == Token.Plain(' ')
    ensures TokenAt("$K\\\n", y, Bare) == Ref("K", 2) && TokenAt("\\\n", y, Bare) == Escaped('\n')
    ensures TokenAt("$K", y, Bare) == Ref("K", 2) && TokenAt("", y, Bare) == Eot
  {
    hide NameLen, DollarToken;
    KToken(" $K\\\n", y);
    KToken("\\\n", y);
    KToken("", y);
    assert TWICE == "$" + ("K" + " $K\\\n") && "$K\\\n" == "$" + ("K" + "\\\n") && "$K" == "$" + ("K" + "");
  }

  lemma KToken(rest: string, y: Syntax)
    requires ValidSyntax(y) && Detached(rest)
    ensures TokenAt("$" + ("K" + rest), y, Bare) == Ref("K", 2)
  {
    hide NameLen, DollarToken;
    NameLenOfName("K", rest);
    DollarNameToken("K", rest);
    DollarTokenAt("$" + ("K" + rest), y, Bare);
  }

  /** The first is replaced; the second is not, since no boundary follows it. */
  lemma TwiceReplaced(e: M.Expression, exprs: seq<M.Expression>, y: Syntax)
    requires ValidSyntax(y) && y.escape == '\\' && e.source == "$K" && exprs == [e, e]
    ensures M.Materialize(TWICE, true, y, Bare, exprs) == M.AliasReference(e) + " $K\\\n"
    ensures M.UsedIn(TWICE, true, y, Bare, exprs) == {e.alias}
  {
    hide M.Materialize, M.AliasReference, M.UsedIn, M.BestOf;
    var s, t := " $K\\\n", "$K\\\n";
    assert TWICE[2..] == s && s[1..] == t && s[..1] == " ";
    var m := FirstMatches(e, exprs, y);
    M.MatchedWord(TWICE, true, y, Bare, exprs, m);
    M.MaterializeStep(s, false, y, Bare, exprs);
    M.UsedStep(s, false, y, Bare, exprs);
    SecondKept(exprs, e, y);
    assert M.AliasReference(e) + (" " + t) == M.AliasReference(e) + s;
  }

  lemma FirstMatches(e: M.Expression, exprs: seq<M.Expression>, y: Syntax) returns (m: int)
    requires ValidSyntax(y) && y.escape == '\\' && e.source == "$K" && exprs == [e, e]
    ensures m == M.MatchAt(TWICE, true, y, Bare, exprs) >= 0 && exprs[m] == e
  {
    hide M.BestOf;
    assert TWICE[..2] == "$K" && TWICE[2] == ' ' && M.Eligible(TWICE, e) && exprs[0] == e;
    m := M.BestOf(TWICE, exprs, 2);
    assert m != -1;
  }

  lemma SecondKept(exprs: seq<M.Expression>, e: M.Expression, y: Syntax)
    requires ValidSyntax(y) && y.escape == '\\' && e.source == "$K" && exprs == [e, e]
    ensures M.Materialize("$K\\\n", true, y, Bare, exprs) == "$K\\\n"
    ensures M.UsedIn("$K\\\n", true, y, Bare, exprs) == {}
  {
    hide M.Materialize, M.UsedIn, M.BestOf;
    var s, t, u := "$K\\\n", "K\\\n", "\\\n";
    assert s[1..] == t && t[1..] == u && u[2..] == "" && s[..1] == "$" && t[..1] == "K" && u[..2] == u;
    assert s[2] == '\\' && !M.Eligible(s, e);
    assert exprs[0] == e && exprs[1] == e;
    M.MaterializeStep(s, true, y, Bare, exprs);
    M.UsedStep(s, true, y, Bare, exprs);
    M.MaterializeStep(t, false, y, Bare, exprs);
    M.UsedStep(t, false, y, Bare, exprs);
    M.MaterializeStep(u, false, y, Bare, exprs);
    M.UsedStep(u, false, y, Bare, exprs);
    M.MaterializeEmpty(true, y, Bare, exprs);
    assert "K" + u == t && "$" + t == s && u + [] == u;
  }

  /** An instruction of the kind of `COPY` that refers to `K` twice, the second time at the end of a continued line. */
  function TwiceStep(): Step {
    Other(Misc, TWICE, [Spelling("$K", "$K"), Spelling("$K", "$K")], [], [], [])
  }

  lemma OneCandidate(cfg: Config, c: Captured, kind: Kind, header: string, w: Word, active: map<string, string>,
      name: string)
    requires Parse(w.text, WordSyntax(cfg)) == Parsed(Value(name, false, End), [], Bare)
    requires name in active && Contains(header, w.needle)
    ensures var e := KnownExpression(cfg, kind, w, Value(name, false, End), active);
            CaptureWord(cfg, c, kind, header, w, active) == Ok(c.(exprs := c.exprs + [e]))
            && e.references == {name}
  {
    hide ParseTo, Contains, Eval, PortWords;
    var t := Value(name, false, End);
    assert Names(t) == {name} + Names(End) && Names(End) == {};
    assert Names(t) == {name};
    assert {name} * active.Keys == {name};
  }

  lemma TwicePlanned(cfg: Config, active: map<string, string>)
    requires ValidConfig(cfg) && cfg.escape == '\\' && "K" in active
    ensures var a := ExprAlias(cfg, "$K");
            PlanStep(cfg, TwiceStep(), active).Ok?
            && var pl := PlanStep(cfg, TwiceStep(), active).value;
               && pl.needed == {} && pl.used == {a} && pl.header == ("\"${" + a + "}\"") + " $K\\\n"
  {
    hide ParseTo, M.Segments, M.UsedBy, M.Emit, ExprAlias, Contains, CaptureWord, PortWords;
    var w: Word := Spelling("$K", "$K");
    var y := HeaderSyntax(cfg, Misc);
    TwiceReads(y);
    TwiceContains();
    var e := KnownExpression(cfg, Misc, w, Value("K", false, End), active);
    OneCandidate(cfg, NOTHING, Misc, TWICE, w, active, "K");
    OneCandidate(cfg, Captured({}, [e]), Misc, TWICE, w, active, "K");
    assert NOTHING.exprs + [e] == [e] && [e] + [e] == [e, e];
    assert [w, w][1..] == [w] && [w][1..] == [];
    assert CaptureWords(cfg, Captured({}, [e]), Misc, TWICE, [w], active) == Ok(Captured({}, [e, e]));
    assert CaptureStep(cfg, TwiceStep(), active) == Ok(Captured({}, [e, e]));
    TwiceReplaced(e, [e, e], y);
    M.UsedInIsUsedBy(TWICE, true, y, Bare, [e, e]);
    assert Unreplaced([e, e], {e.alias}) == {};
  }

  lemma TwiceContains()
    ensures Contains(TWICE, "$K")
  {
    assert TWICE[0..] == TWICE && "$K" <= TWICE[0..];
  }

  /**
   Its references all stand in its words, which are captured and count as replaced; so nothing is needed, and the
   reference left is to an input the prepared build does not have. The instruction no longer comes to what it came to.
   */
  lemma SecondOccurrenceIsForgotten(cfg: Config, active: map<string, string>, e1: Env, e2: Env)
    requires ValidConfig(cfg) && cfg.escape == '\\' && "K" in active
    requires "K" in e1 && e1["K"] == active["K"] != [] && "K" !in e2
    requires ExprAlias(cfg, "$K") in e2 && e2[ExprAlias(cfg, "$K")] == active["K"]
    ensures HeaderWords(cfg, TwiceStep()) && PlanStep(cfg, TwiceStep(), active).Ok?
    ensures var pl := PlanStep(cfg, TwiceStep(), active).value;
            var y := HeaderSyntax(cfg, Misc);
            && IsForgotten(cfg, TwiceStep(), active, pl, "K")
            && R.Rewrite(pl.header, BindingsFor(pl.needed), y, Bare) == pl.header
            && ReadHeader(cfg, Misc, TWICE, e1) == Gives(Chars(e1["K"] + (" " + e1["K"])))
            && ReadHeader(cfg, Misc, pl.header, e2) == Gives(Chars(e1["K"] + " "))
  {
    hide ParseTo, R.Rewrite, ExprAlias, PlanStep, ReadHeader, NamedIn, StandsUnreplaced, StandsInWord;
    TwicePlanned(cfg, active);
    var pl := PlanStep(cfg, TwiceStep(), active).value;
    TwiceNames(cfg);
    TwiceForgotten(cfg, active, pl);
    assert BindingsFor({}) == map[];
    R.RewriteNothing(pl.header, HeaderSyntax(cfg, Misc), Bare);
    TwiceRead(cfg, e1);
    LeftRead(cfg, ExprAlias(cfg, "$K"), e2);
  }

  lemma TwiceForgotten(cfg: Config, active: map<string, string>, pl: Plan)
    requires ValidConfig(cfg) && cfg.escape == '\\' && "K" in active && pl.used == {ExprAlias(cfg, "$K")}
    requires pl.header == ("\"${" + ExprAlias(cfg, "$K") + "}\"") + " $K\\\n"
    ensures HeaderWords(cfg, TwiceStep()) && IsForgotten(cfg, TwiceStep(), active, pl, "K")
  {
    hide ParseTo, ExprAlias, NamedIn;
    TwiceNames(cfg);
    var w: Word := Spelling("$K", "$K");
    assert w in TwiceStep().words && NamedIn(w.text, WordSyntax(cfg), "K");
    LeftNamed(cfg, ExprAlias(cfg, "$K"));
  }

  lemma LeftNamed(cfg: Config, a: string)
    requires ValidConfig(cfg) && cfg.escape == '\\' && a == ExprAlias(cfg, "$K")
    ensures NamedIn(("\"${" + a + "}\"") + " $K\\\n", HeaderSyntax(cfg, Misc), "K")
  {
    hide ParseTo, ExprAlias;
    AliasesAreNames(cfg, "$K");
    LeftReads(a, HeaderSyntax(cfg, Misc));
    var one := Value("K", false, End);
    assert "K" in Names(one) && "K" in Names(Char(' ', false, one));
  }

  lemma TwiceRead(cfg: Config, env: Env)
    requires ValidConfig(cfg) && cfg.escape == '\\' && "K" in env
    ensures ReadHeader(cfg, Misc, TWICE, env) == Gives(Chars(env["K"] + (" " + env["K"])))
  {
    hide ParseTo, Eval, H.Settle;
    TwiceReads(HeaderSyntax(cfg, Misc));
    TwiceOut(env);
  }

  lemma LeftRead(cfg: Config, a: string, env: Env)
    requires ValidConfig(cfg) && cfg.escape == '\\' && a == ExprAlias(cfg, "$K") && a in env && "K" !in env
    ensures ReadHeader(cfg, Misc, ("\"${" + a + "}\"") + " $K\\\n", env) == Gives(Chars(env[a] + " "))
  {
    hide ParseTo, Eval, H.Settle, ExprAlias;
    AliasesAreNames(cfg, "$K");
    LeftReads(a, HeaderSyntax(cfg, Misc));
    LeftOut(a, env);
  }

  lemma TwiceNames(cfg: Config)
    requires ValidConfig(cfg) && cfg.escape == '\\'
    ensures forall n :: NamedIn(TWICE, HeaderSyntax(cfg, Misc), n) <==> n == "K"
    ensures forall n :: NamedIn("$K", WordSyntax(cfg), n) <==> n == "K"
    ensures forall w :: w in TwiceStep().words <==> w == Spelling("$K", "$K")
  {
    hide ParseTo;
    TwiceReads(HeaderSyntax(cfg, Misc));
    var one := Value("K", false, End);
    assert Names(one) == {"K"} + {};
    assert Names(Char(' ', false, one)) == Names(one);
    assert Names(Value("K", false, Char(' ', false, one))) == {"K"} + Names(one);
  }

  lemma LeftReads(a: string, y: Syntax)
    requires ValidSyntax(y) && y.escape == '\\' && !y.raw && !y.marks && ValidArgName(a)
    ensures Parse(("\"${" + a + "}\"") + " $K\\\n", y)
            == Parsed(Value(a, false, Char(' ', false, Value("K", false, End))), [], Bare)
  {
    hide ParseTo, TokenAt;
    var e := M.Expression("$K", a, "", {}, false);
    assert M.AliasReference(e) == "\"${" + a + "}\"";
    var s, t, u := " $K\\\n", "$K\\\n", "\\\n";
    KTokens(y);
    assert s[1..] == t && t[2..] == u && u[2..] == "";
    M.AliasParsed(e, s, y, Top);
    ParseSimple(s, y, Bare, Top, Token.Plain(' '));
    ParseSimple(t, y, Bare, Top, Ref("K", 2));
    ParseSimple(u, y, Bare, Top, Escaped('\n'));
    ParseLast("", y, Bare, Top, Eot);
  }

  /** Read as a whole, without marks a tree comes to its characters. */
  lemma WholeOut(t: Text, env: Env)
    requires NoSeparators(t)
    ensures Eval(H.Settle(t, H.Whole), env) == Chars(Flat(Eval(t, env)))
  {
    hide Eval, Chars, Flat;
    H.PlainSettles(t, H.Whole);
    H.UnnoticedIsPlain(t, H.Whole);
    H.UnmarkedEval(t, env);
  }

  lemma TwiceOut(env: Env)
    requires "K" in env
    ensures Eval(H.Settle(Value("K", false, Char(' ', false, Value("K", false, End))), H.Whole), env)
            == Chars(env["K"] + (" " + env["K"]))
  {
    var one := Value("K", false, End);
    var two := Char(' ', false, one);
    WholeOut(Value("K", false, two), env);
    assert Flat(Eval(one, env)) == env["K"];
    assert Flat(Eval(two, env)) == " " + env["K"];
    assert Flat(Eval(Value("K", false, two), env)) == env["K"] + (" " + env["K"]);
  }

  lemma LeftOut(a: string, env: Env)
    requires a in env && "K" !in env
    ensures Eval(H.Settle(Value(a, false, Char(' ', false, Value("K", false, End))), H.Whole), env)
            == Chars(env[a] + " ")
  {
    var one := Value("K", false, End);
    var two := Char(' ', false, one);
    WholeOut(Value(a, false, two), env);
    assert Flat(Eval(one, env)) == "";
    assert Flat(Eval(two, env)) == " ";
    assert Flat(Eval(Value(a, false, two), env)) == env[a] + " ";
  }

  // ---- A port whose value no longer splits ----

  const PORT := "EXPOSE $P"

  function PortStep(): Step {
    Other(Expose, PORT, [Spelling("$P", "$P")], [], [], [])
  }

  lemma PortReads(y: Syntax)
    requires ValidSyntax(y) && !y.raw && y.marks
    ensures Parse("$P", y) == Parsed(Value("P", true, End), [], Bare)
    ensures Parse("$P", Unmarked(y)) == Parsed(Value("P", false, End), [], Bare)
  {
    hide ParseTo, NameLen, DollarToken;
    NameLenOfName("P", "");
    DollarNameToken("P", "");
    assert "$P" == "$" + ("P" + "") && "$P"[2..] == "";
    DollarTokenAt("$P", y, Bare);
    ParseSimple("$P", y, Bare, Top, Ref("P", 2));
    ParseLast("", y, Bare, Top, Eot);
    ParseUnmarked("$P", y, Bare, Top);
  }

  lemma {:induction false} LiteralSpread(v: string, env: Env)
    ensures W.Spread(Literal(v), env) == Chars(v)
  {
    if v != [] {
      LiteralSpread(v[1..], env);
      assert Chars(v) == [Ch(v[0])] + Chars(v[1..]);
    } else {
      assert Chars(v) == [];
    }
  }

  /** A word ends at a mark. */
  lemma {:induction false} WordEnds(v: string, c: char, rest: seq<Out>, word: string)
    ensures W.WordsFrom(Chars(v) + ([Sep(c)] + rest), word) == W.Whole(word + v) + W.WordsFrom(rest, [])
    decreases |v|
  {
    var outs := Chars(v) + ([Sep(c)] + rest);
    if v == [] {
      assert outs == [Sep(c)] + rest && outs[1..] == rest && word + v == word;
    } else {
      assert outs[0] == Ch(v[0]) && outs[1..] == Chars(v[1..]) + ([Sep(c)] + rest);
      WordEnds(v[1..], c, rest, word + [v[0]]);
      assert (word + [v[0]]) + v[1..] == word + v;
    }
  }

  /** The words after the keyword. */
  lemma PortsOf(t: Text, env: Env)
    ensures W.Words(Join(Literal("EXPOSE"), Char(' ', true, t)), env) == ["EXPOSE"] + W.Words(t, env)
  {
    hide W.WordsFrom, Literal;
    var u := Char(' ', true, t);
    LiteralSpread("EXPOSE", env);
    W.SpreadJoin(Literal("EXPOSE"), u, env);
    assert W.Spread(u, env) == [Sep(' ')] + W.Spread(t, env);
    WordEnds("EXPOSE", ' ', W.Spread(t, env), []);
    assert [] + "EXPOSE" == "EXPOSE";
  }

  lemma ValueWords(name: string, bare: bool, env: Env)
    ensures W.Words(Value(name, bare, End), env) == W.WordsFrom(W.Pieces(Lookup(name, env), bare), [])
  {
    hide W.WordsFrom, W.Pieces, Flat, Chars;
    var v, t := Lookup(name, env), Value(name, bare, End);
    M.FlatChars(v);
    assert W.Spread(End, env) == [] && FirstOut(t, env) == Chars(v);
    assert W.Spread(t, env) == W.Pieces(v, bare) + [];
    assert W.Pieces(v, bare) + [] == W.Pieces(v, bare);
  }

  /** A blank at the front of an unquoted value goes; in a quoted one it is part of the word. */
  lemma LeadingBlank(v: string)
    requires forall k | 0 <= k < |v| :: !W.IsBlank(v[k])
    ensures W.WordsFrom(W.Pieces(" " + v, true), []) == W.Whole(v)
    ensures W.WordsFrom(W.Pieces(" " + v, false), []) == [" " + v]
  {
    var outs := W.Pieces(" " + v, true);
    assert outs == Chars([]) + ([Sep(' ')] + Chars(v));
    WordEnds([], ' ', Chars(v), []);
    W.WordsOfChars(v, []);
    W.WordsOfChars(" " + v, []);
    assert [] + v == v && [] + (" " + v) == " " + v && W.Whole([]) + W.Whole(v) == W.Whole(v);
  }

  lemma PortPlanned(cfg: Config, active: map<string, string>)
    requires ValidConfig(cfg) && "P" in active
    requires !W.StaysUnquoted(W.WordsFrom(W.Pieces(active["P"], true), []))
    ensures var a := ExprAlias(cfg, "$P");
            PlanStep(cfg, PortStep(), active).Ok?
            && var pl := PlanStep(cfg, PortStep(), active).value;
               pl.needed == {} && pl.used == {a} && pl.header == "EXPOSE " + ("\"${" + a + "}\"")
  {
    hide ParseTo, M.Segments, M.UsedBy, M.Emit, ExprAlias, Contains, CaptureWord, W.Words, W.WordsFrom,
        W.StaysUnquoted, W.Pieces;
    var w: Word := Spelling("$P", "$P");
    var y := HeaderSyntax(cfg, Expose);
    assert Unmarked(y) == WordSyntax(cfg);
    PortReads(y);
    ValueWords("P", true, active);
    PortContains();
    var e := KnownExpression(cfg, Expose, w, Value("P", false, End), active);
    assert PortWords(cfg, "$P", active) == W.Words(Value("P", true, End), active);
    OneCandidate(cfg, NOTHING, Expose, PORT, w, active, "P");
    assert NOTHING.exprs + [e] == [e] && [w][1..] == [];
    assert CaptureStep(cfg, PortStep(), active) == Ok(Captured({}, [e]));
    PortReplaced(e, y);
    M.UsedInIsUsedBy(PORT, true, y, Bare, [e]);
    assert Unreplaced([e], {e.alias}) == {};
  }

  lemma PortContains()
    ensures Contains(PORT, "$P")
  {
    assert "$P" <= PORT[7..];
  }

  lemma PortReplaced(e: M.Expression, y: Syntax)
    requires ValidSyntax(y) && !y.raw && e.source == "$P" && y.escape != 'E'
    ensures M.Materialize(PORT, true, y, Bare, [e]) == "EXPOSE " + M.AliasReference(e)
    ensures M.UsedIn(PORT, true, y, Bare, [e]) == {e.alias}
  {
    hide M.Materialize, M.AliasReference, M.UsedIn;
    var exprs := [e];
    var p := "XPOSE ";
    assert PORT[1..] == p + "$P" && PORT[..1] == "E";
    M.MaterializeStep(PORT, true, y, Bare, exprs);
    M.UsedStep(PORT, true, y, Bare, exprs);
    CopiedRun(p, "$P", y, exprs);
    assert M.Eligible("$P", exprs[0]) && "$P"[2..] == "";
    M.MatchedWord("$P", true, y, Bare, exprs, 0);
    M.MaterializeEmpty(M.IsBoundary('P'), y, Bare, exprs);
    assert M.AliasReference(e) + [] == M.AliasReference(e);
    assert "E" + (p + M.AliasReference(e)) == "EXPOSE " + M.AliasReference(e);
  }

  /**
   `EXPOSE $P` with `P` a blank and a port: one word, so its alias is quoted, and the blank that was split off is part
   of the word then.
   */
  lemma LeadingBlankIsKept(cfg: Config, active: map<string, string>, e1: Env, e2: Env, v: string)
    requires ValidConfig(cfg) && "P" in active && active["P"] == " " + v
    requires v != [] && forall k | 0 <= k < |v| :: !W.IsBlank(v[k])
    requires "P" in e1 && e1["P"] == active["P"]
    requires ExprAlias(cfg, "$P") in e2 && e2[ExprAlias(cfg, "$P")] == active["P"]
    ensures PlanStep(cfg, PortStep(), active).Ok?
    ensures var pl := PlanStep(cfg, PortStep(), active).value;
            var y := HeaderSyntax(cfg, Expose);
            && R.Rewrite(pl.header, BindingsFor(pl.needed), y, Bare) == pl.header
            && ReadHeader(cfg, Expose, PORT, e1) == Gives(W.Listed(["EXPOSE", v]))
            && ReadHeader(cfg, Expose, pl.header, e2) == Gives(W.Listed(["EXPOSE", " " + v]))
  {
    hide ParseTo, R.Rewrite, ExprAlias, PlanStep, ReadHeader, W.WordsFrom, W.Pieces;
    LeadingBlank(v);
    PortPlanned(cfg, active);
    var pl := PlanStep(cfg, PortStep(), active).value;
    assert BindingsFor({}) == map[];
    R.RewriteNothing(pl.header, HeaderSyntax(cfg, Expose), Bare);
    PortRead(cfg, e1);
    AliasRead(cfg, ExprAlias(cfg, "$P"), e2);
  }

  lemma PortRead(cfg: Config, env: Env)
    requires ValidConfig(cfg)
    ensures ReadHeader(cfg, Expose, PORT, env)
            == Gives(W.Listed(["EXPOSE"] + W.WordsFrom(W.Pieces(Lookup("P", env), true), [])))
  {
    hide ParseTo, W.Words, W.WordsFrom, W.Pieces, W.Listed, Literal;
    var y := HeaderSyntax(cfg, Expose);
    PortReads(y);
    assert PORT == "EXPOSE" + (" " + "$P");
    AfterKeyword("EXPOSE", "$P", y);
    PortsOf(Value("P", true, End), env);
    ValueWords("P", true, env);
  }

  lemma AliasRead(cfg: Config, a: string, env: Env)
    requires ValidConfig(cfg) && a == ExprAlias(cfg, "$P")
    ensures ReadHeader(cfg, Expose, "EXPOSE " + ("\"${" + a + "}\""), env)
            == Gives(W.Listed(["EXPOSE"] + W.WordsFrom(W.Pieces(Lookup(a, env), false), [])))
  {
    hide ParseTo, W.Words, W.WordsFrom, W.Pieces, W.Listed, Literal, ExprAlias;
    var y := HeaderSyntax(cfg, Expose);
    AliasesAreNames(cfg, "$P");
    var e := M.Expression("$P", a, "", {}, false);
    var s := "\"${" + a + "}\"";
    assert M.AliasReference(e) == s && s + "" == s;
    M.AliasParsed(e, "", y, Top);
    ParseLast("", y, Bare, Top, Eot);
    assert "EXPOSE " + s == "EXPOSE" + (" " + s);
    AfterKeyword("EXPOSE", s, y);
    PortsOf(Value(a, false, End), env);
    ValueWords(a, false, env);
  }
}
