/**
 Comment lines inside a continued instruction: the build drops them before it reads the instruction, while the scans of
 the code read them with it. What they do to the text that follows is to leave, or not, the quote state they were met
 in.
 */
module CommentLines {
  import opened References
  import opened Rewriter
  import M = Materializer

  predicate EndsLine(u: string) {
    u != [] && u[|u| - 1] == '\n'
  }

  /** The quote state in which a scan leaves a text. */
  function StateAfter(s: string, y: Syntax, q: Quote): Quote
    decreases |s|
  {
    if s == [] then q
    else if IsEscapePair(s, y, q) then StateAfter(s[2..], y, q)
    else StateAfter(s[1..], y, Toggle(s[0], y, q))
  }

  lemma {:induction false} StateAfterPlain(p: string, rest: string, y: Syntax, q: Quote)
    requires forall k | 0 <= k < |p| :: IsPlainChar(p[k], y)
    ensures StateAfter(p + rest, y, q) == StateAfter(rest, y, q)
    decreases |p|
  {
    if p == [] {
      assert p + rest == rest;
    } else {
      assert (p + rest)[1..] == p[1..] + rest && (p + rest)[0] == p[0];
      StateAfterPlain(p[1..], rest, y, q);
    }
  }

  // ---- Renaming ----

  lemma {:induction false} WordLenWithin(u: string, v: string)
    requires WordLen(u) < |u|
    ensures WordLen(u + v) == WordLen(u)
    decreases |u|
  {
    if IsNameChar(u[0]) {
      assert (u + v)[1..] == u[1..] + v;
      WordLenWithin(u[1..], v);
    }
  }

  /** A name ends within a text that ends its line. */
  lemma NameWithin(u: string, v: string)
    requires EndsLine(u) && u[0] == '$'
    ensures NameEnd(u) < |u| && NameEnd(u + v) == NameEnd(u) && NameStart(u + v) == NameStart(u)
    ensures ScannedName(u + v) == ScannedName(u)
  {
    hide WordLen;
    var n := NameStart(u);
    assert |u| > 1 && (u + v)[1] == u[1] && (u + v)[0] == u[0];
    assert (u + v)[n..] == u[n..] + v;
    assert u[n..] != [] ==> u[n..][|u| - n - 1] == '\n';
    WordLenWithin(u[n..], v);
    assert NameEnd(u + v) == NameEnd(u);
    assert (u + v)[n..NameEnd(u)] == u[n..NameEnd(u)];
  }

  lemma ReferenceIsPlain(u: string, y: Syntax)
    requires ValidSyntax(y) && u != [] && u[0] == '$'
    ensures forall k | 1 <= k < NameEnd(u) :: IsPlainChar(u[k], y)
    ensures 1 <= NameEnd(u) <= |u|
  {
    hide WordLen;
  }

  /** The scan of a text that ends its line is done with it before it goes on. */
  lemma {:induction false} RewriteSplit(u: string, v: string, b: Bindings, y: Syntax, q: Quote)
    requires ValidSyntax(y) && (u == [] || EndsLine(u))
    ensures Rewrite(u + v, b, y, q) == Rewrite(u, b, y, q) + Rewrite(v, b, y, StateAfter(u, y, q))
    decreases |u|
  {
    hide Rewrite, StateAfter, ScannedName, NameEnd, IsEscapePair, IsDollar, AliasText, EndsLine;
    var s := u + v;
    RewriteStep(s, b, y, q);
    RewriteStep(u, b, y, q);
    StateStep(u, y, q);
    if u == [] {
      assert s == v;
    } else {
      FrontWithin(u, v, y, q);
      if IsEscapePair(u, y, q) {
        RewriteSplit(u[2..], v, b, y, q);
        Reassociate(u[..2], Rewrite(u[2..], b, y, q), Rewrite(v, b, y, StateAfter(u, y, q)));
      } else if IsDollar(u, q) && ScannedName(u) in b {
        var n := NameEnd(u);
        SkipReference(u, y, q);
        RewriteSplit(u[n..], v, b, y, q);
        Reassociate(AliasText(u, b[ScannedName(u)]), Rewrite(u[n..], b, y, q), Rewrite(v, b, y, StateAfter(u, y, q)));
      } else {
        var q' := Toggle(u[0], y, q);
        RewriteSplit(u[1..], v, b, y, q');
        Reassociate([u[0]], Rewrite(u[1..], b, y, q'), Rewrite(v, b, y, StateAfter(u, y, q)));
      }
    }
  }

  lemma RewriteStep(s: string, b: Bindings, y: Syntax, q: Quote)
    ensures s == [] ==> Rewrite(s, b, y, q) == []
    ensures s != [] ==>
              Rewrite(s, b, y, q)
              == if IsEscapePair(s, y, q) then s[..2] + Rewrite(s[2..], b, y, q)
                 else if IsDollar(s, q) && ScannedName(s) in b then
                   AliasText(s, b[ScannedName(s)]) + Rewrite(s[NameEnd(s)..], b, y, q)
                 else [s[0]] + Rewrite(s[1..], b, y, Toggle(s[0], y, q))
  {
    hide ScannedName, NameEnd, AliasText;
  }

  lemma StateStep(s: string, y: Syntax, q: Quote)
    ensures s == [] ==> StateAfter(s, y, q) == q
    ensures s != [] ==>
              StateAfter(s, y, q)
              == if IsEscapePair(s, y, q) then StateAfter(s[2..], y, q)
                 else StateAfter(s[1..], y, Toggle(s[0], y, q))
  {
  }

  /** Whatever follows, the front of a text that ends its line is the same; what is left ends its line or is gone. */
  lemma FrontWithin(u: string, v: string, y: Syntax, q: Quote)
    requires ValidSyntax(y) && EndsLine(u)
    ensures var s := u + v;
            && s != [] && s[0] == u[0] && s[1..] == u[1..] + v && (u[1..] == [] || EndsLine(u[1..]))
            && (IsEscapePair(s, y, q) <==> IsEscapePair(u, y, q))
            && (IsEscapePair(u, y, q) ==>
                  |u| >= 2 && s[..2] == u[..2] && s[2..] == u[2..] + v && (u[2..] == [] || EndsLine(u[2..])))
            && (IsDollar(s, q) <==> IsDollar(u, q))
            && (IsDollar(u, q) ==>
                  && ScannedName(s) == ScannedName(u) && NameEnd(s) == NameEnd(u) < |u|
                  && s[NameEnd(s)..] == u[NameEnd(u)..] + v && EndsLine(u[NameEnd(u)..])
                  && forall alias :: AliasText(s, alias) == AliasText(u, alias))
  {
    hide WordLen, ScannedName, NameEnd;
    if IsDollar(u, q) {
      NameWithin(u, v);
    }
  }

  lemma SkipReference(u: string, y: Syntax, q: Quote)
    requires ValidSyntax(y) && EndsLine(u) && IsDollar(u, q)
    ensures StateAfter(u, y, q) == StateAfter(u[NameEnd(u)..], y, q)
  {
    hide StateAfter, NameEnd;
    ReferenceIsPlain(u, y);
    var n := NameEnd(u);
    StateStep(u, y, q);
    assert u[1..] == u[1..n] + u[n..];
    StateAfterPlain(u[1..n], u[n..], y, q);
  }

  /** A text that is rewritten otherwise in another quote state. */
  function Telling(key: string, q1: Quote, q2: Quote): string {
    if q1.Single? || q2.Single? then "$" + key else "'" + ("$" + key)
  }

  lemma StatesDiffer(b: Bindings, key: string, y: Syntax, q1: Quote, q2: Quote)
    requires ValidSyntax(y) && !y.raw && ValidBindings(b) && key in b && q1 != q2
    ensures Rewrite(Telling(key, q1, q2), b, y, q1) != Rewrite(Telling(key, q1, q2), b, y, q2)
  {
    hide Rewrite;
    var s := "$" + key;
    ReferenceRewritten(b, key, y);
    if !q1.Single? && !q2.Single? {
      var t := "'" + s;
      assert t[1..] == s;
      RewriteStep(t, b, y, q1);
      RewriteStep(t, b, y, q2);
      assert ("'" + Rewrite(s, b, y, Single))[1..] == Rewrite(s, b, y, Single);
      assert ("'" + Rewrite(s, b, y, Double))[1..] == Rewrite(s, b, y, Double);
    }
  }

  /** In single quotes the reference stays; elsewhere it becomes its alias's. */
  lemma ReferenceRewritten(b: Bindings, key: string, y: Syntax)
    requires ValidSyntax(y) && !y.raw && ValidBindings(b) && key in b
    ensures forall q | q != Single :: Rewrite("$" + key, b, y, q) == ("${" + b[key] + "}") + []
    ensures Rewrite("$" + key, b, y, Single) == "$" + key
    ensures forall x: string :: "$" + key != ("${" + x + "}") + []
  {
    hide Rewrite, WordLen, NameLen;
    var s := "$" + key;
    NameLenOfName(key, "");
    assert key + "" == key && s[1..] == key && s[1] == key[0] && key[..|key|] == key && key[|key|..] == [];
    forall q | q != Single ensures Rewrite(s, b, y, q) == ("${" + b[key] + "}") + [] {
      RewriteBound(s, b, y, q, key, |key|);
      RewriteStep([], b, y, q);
    }
    RewriteStep(s, b, y, Single);
    NameIsPlain(key, y);
    RewritePlain(key, "", b, y, Single);
    RewriteStep("", b, y, Single);
  }

  /**
   Main result: with references to rename, whatever follows a comment line is rewritten as it would be without the
   comment if and only if the comment leaves the quote state it was met in.
   */
  lemma CommentIsHarmlessIff(a: string, c: string, b: Bindings, y: Syntax)
    requires ValidSyntax(y) && !y.raw && ValidBindings(b) && b != map[]
    requires (a == [] || EndsLine(a)) && EndsLine(c)
    ensures var q := StateAfter(a, y, Bare);
            (forall v :: Rewrite(a + (c + v), b, y, Bare)
                         == Rewrite(a, b, y, Bare) + (Rewrite(c, b, y, q) + Rewrite(v, b, y, q)))
            <==> StateAfter(c, y, q) == q
    ensures forall v :: Rewrite(a + v, b, y, Bare)
                        == Rewrite(a, b, y, Bare) + Rewrite(v, b, y, StateAfter(a, y, Bare))
  {
    hide Rewrite, StateAfter;
    var q := StateAfter(a, y, Bare);
    var q' := StateAfter(c, y, q);
    forall v ensures Rewrite(a + v, b, y, Bare) == Rewrite(a, b, y, Bare) + Rewrite(v, b, y, q) {
      RewriteSplit(a, v, b, y, Bare);
    }
    forall v ensures Rewrite(a + (c + v), b, y, Bare)
                     == Rewrite(a, b, y, Bare) + (Rewrite(c, b, y, q) + Rewrite(v, b, y, q'))
    {
      RewriteSplit(c, v, b, y, q);
    }
    if q' != q {
      var key :| key in b;
      var v := Telling(key, q, q');
      StatesDiffer(b, key, y, q, q');
      var front, back := Rewrite(a, b, y, Bare), Rewrite(c, b, y, q);
      assert (front + (back + Rewrite(v, b, y, q)))[|front|..][|back|..] == Rewrite(v, b, y, q);
      assert (front + (back + Rewrite(v, b, y, q')))[|front|..][|back|..] == Rewrite(v, b, y, q');
    }
  }

  /** The apostrophe of `# don't` opens a quote, so a comment with it is not harmless. */
  lemma DontOpensQuote(y: Syntax)
    requires ValidSyntax(y) && !y.raw
    ensures StateAfter("# don't\n", y, Bare) == Single
  {
    hide StateAfter;
    StateAfterPlain("# don", "'t\n", y, Bare);
    assert "# don" + "'t\n" == "# don't\n";
    StateStep("'t\n", y, Bare);
    assert "'t\n"[1..] == "t\n" + "";
    StateAfterPlain("t\n", "", y, Single);
    StateStep("", y, Single);
  }

  // ---- Replacing words ----

  /** Words hold no line end. */
  predicate OnOneLine(exprs: seq<M.Expression>) {
    forall j, k | 0 <= j < |exprs| && 0 <= k < |exprs[j].source| :: exprs[j].source[k] != '\n'
  }

  /** The quote state in which the replacing scan leaves a text: a replaced word leaves it outside quotes. */
  function ReplacingState(s: string, prev: bool, y: Syntax, q: Quote, exprs: seq<M.Expression>): Quote
    requires M.AllNonEmpty(exprs)
    decreases |s|
  {
    if s == [] then q
    else if IsEscapePair(s, y, q) then ReplacingState(s[2..], M.IsBoundary(s[1]), y, q, exprs)
    else
      var m := M.MatchAt(s, prev, y, q, exprs);
      if m >= 0 then
        var n := |exprs[m].source|;
        ReplacingState(s[n..], M.IsBoundary(s[n - 1]), y, Bare, exprs)
      else ReplacingState(s[1..], M.IsBoundary(s[0]), y, Toggle(s[0], y, q), exprs)
  }

  lemma EligibleWithin(u: string, v: string, e: M.Expression)
    requires EndsLine(u) && forall k | 0 <= k < |e.source| :: e.source[k] != '\n'
    ensures M.Eligible(u + v, e) <==> M.Eligible(u, e)
    ensures M.Eligible(u, e) ==> |e.source| < |u|
  {
    var n := |e.source|;
    if n >= |u| {
      assert e.source[|u| - 1] != '\n' && (u + v)[|u| - 1] == u[|u| - 1] == '\n';
    } else {
      assert (u + v)[n] == u[n] && (u + v)[..n] == u[..n];
    }
  }

  lemma {:induction false} BestWithin(u: string, v: string, exprs: seq<M.Expression>, n: nat)
    requires EndsLine(u) && OnOneLine(exprs) && n <= |exprs|
    ensures M.BestOf(u + v, exprs, n) == M.BestOf(u, exprs, n)
    decreases n
  {
    hide M.Eligible, M.IsBest;
    if n > 0 {
      BestWithin(u, v, exprs, n - 1);
      EligibleWithin(u, v, exprs[n - 1]);
    }
  }

  lemma ReplacingStep(s: string, prev: bool, y: Syntax, q: Quote, exprs: seq<M.Expression>)
    requires M.AllNonEmpty(exprs)
    ensures var r, m := ReplacingState(s, prev, y, q, exprs), M.MatchAt(s, prev, y, q, exprs);
            if s == [] then r == q
            else if IsEscapePair(s, y, q) then r == ReplacingState(s[2..], M.IsBoundary(s[1]), y, q, exprs)
            else if m >= 0 then
              var n := |exprs[m].source|;
              r == ReplacingState(s[n..], M.IsBoundary(s[n - 1]), y, Bare, exprs)
            else r == ReplacingState(s[1..], M.IsBoundary(s[0]), y, Toggle(s[0], y, q), exprs)
  {
  }

  lemma MatchWithin(u: string, v: string, prev: bool, y: Syntax, q: Quote, exprs: seq<M.Expression>)
    requires ValidSyntax(y) && EndsLine(u) && OnOneLine(exprs) && M.AllNonEmpty(exprs)
    ensures var m := M.MatchAt(u, prev, y, q, exprs);
            && M.MatchAt(u + v, prev, y, q, exprs) == m
            && (m >= 0 ==> 0 < |exprs[m].source| < |u|)
    ensures IsEscapePair(u + v, y, q) <==> IsEscapePair(u, y, q)
  {
    hide M.Eligible, M.BestOf, M.IsBest;
    BestWithin(u, v, exprs, |exprs|);
    var m := M.MatchAt(u, prev, y, q, exprs);
    if m >= 0 {
      EligibleWithin(u, v, exprs[m]);
    }
  }

  /** The replacing scan is done with a text that ends its line as well. */
  lemma {:induction false} MaterializeSplit(u: string, v: string, prev: bool, y: Syntax, q: Quote,
      exprs: seq<M.Expression>)
    requires ValidSyntax(y) && EndsLine(u) && OnOneLine(exprs) && M.AllNonEmpty(exprs)
    ensures M.Materialize(u + v, prev, y, q, exprs)
            == M.Materialize(u, prev, y, q, exprs)
               + M.Materialize(v, true, y, ReplacingState(u, prev, y, q, exprs), exprs)
    decreases |u|
  {
    hide M.Materialize, ReplacingState, M.MatchAt, OnOneLine, M.AliasReference;
    var s := u + v;
    M.MaterializeStep(s, prev, y, q, exprs);
    M.MaterializeStep(u, prev, y, q, exprs);
    ReplacingStep(u, prev, y, q, exprs);
    MatchWithin(u, v, prev, y, q, exprs);
    var m := M.MatchAt(u, prev, y, q, exprs);
    var last := M.Materialize(v, true, y, ReplacingState(u, prev, y, q, exprs), exprs);
    if IsEscapePair(u, y, q) {
      assert s[..2] == u[..2] && s[2..] == u[2..] + v && s[1] == u[1];
      SplitRest(u, v, 2, y, q, exprs);
      Reassociate(u[..2], M.Materialize(u[2..], M.IsBoundary(u[1]), y, q, exprs), last);
    } else if m >= 0 {
      var n := |exprs[m].source|;
      assert s[n..] == u[n..] + v && s[n - 1] == u[n - 1];
      SplitRest(u, v, n, y, Bare, exprs);
      Reassociate(M.AliasReference(exprs[m]), M.Materialize(u[n..], M.IsBoundary(u[n - 1]), y, Bare, exprs), last);
    } else {
      var q' := Toggle(u[0], y, q);
      assert s[..1] == u[..1] && s[1..] == u[1..] + v && s[0] == u[0];
      SplitRest(u, v, 1, y, q', exprs);
      Reassociate(u[..1], M.Materialize(u[1..], M.IsBoundary(u[0]), y, q', exprs), last);
    }
  }

  lemma SplitRest(u: string, v: string, n: nat, y: Syntax, q: Quote, exprs: seq<M.Expression>)
    requires ValidSyntax(y) && EndsLine(u) && OnOneLine(exprs) && M.AllNonEmpty(exprs) && 1 <= n <= |u|
    ensures var prev := M.IsBoundary(u[n - 1]);
            M.Materialize(u[n..] + v, prev, y, q, exprs)
            == M.Materialize(u[n..], prev, y, q, exprs)
               + M.Materialize(v, true, y, ReplacingState(u[n..], prev, y, q, exprs), exprs)
    decreases |u|, 0
  {
    hide M.Materialize, ReplacingState;
    if n == |u| {
      assert u[n..] == [] && u[n..] + v == v;
      M.MaterializeEmpty(true, y, q, exprs);
      ReplacingStep([], true, y, q, exprs);
    } else {
      MaterializeSplit(u[n..], v, M.IsBoundary(u[n - 1]), y, q, exprs);
    }
  }

  /**
   So a comment line that leaves the state outside or inside quotes as it was does not touch what is replaced after it.
   */
  lemma CommentKeepsWords(a: string, c: string, v: string, y: Syntax, exprs: seq<M.Expression>)
    requires ValidSyntax(y) && OnOneLine(exprs) && M.AllNonEmpty(exprs) && EndsLine(a) && EndsLine(c)
    requires var q := ReplacingState(a, true, y, Bare, exprs); ReplacingState(c, true, y, q, exprs) == q
    ensures var q := ReplacingState(a, true, y, Bare, exprs);
            && M.Materialize(a + (c + v), true, y, Bare, exprs)
               == M.Materialize(a, true, y, Bare, exprs)
                  + (M.Materialize(c, true, y, q, exprs) + M.Materialize(v, true, y, q, exprs))
            && M.Materialize(a + v, true, y, Bare, exprs)
               == M.Materialize(a, true, y, Bare, exprs) + M.Materialize(v, true, y, q, exprs)
  {
    hide M.Materialize, ReplacingState, OnOneLine;
    var q := ReplacingState(a, true, y, Bare, exprs);
    MaterializeSplit(a, c + v, true, y, Bare, exprs);
    MaterializeSplit(c, v, true, y, q, exprs);
    MaterializeSplit(a, v, true, y, Bare, exprs);
  }
}
