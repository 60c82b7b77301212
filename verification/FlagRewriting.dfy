/**
 The flags of a `RUN`: references in them are renamed by a scan that takes quotes and escapes as ordinary characters,
 and the build then expands them with quotes and escapes honoured. The two readings part exactly where a bound
 reference is shielded, by single quotes or by an escape.
 */
module FlagRewriting {
  import opened References
  import opened Rewriter
  import Prepare

  /** The flag as `Prepare` rewrites it. */
  function Raw(s: string, b: Bindings): string {
    Rewrite(s, b, Prepare.FlagSyntax(), Bare)
  }

  predicate NoZero(s: string) {
    forall k | 0 <= k < |s| :: s[k] != '\0'
  }

  /** A bound reference stands at the front, but the build reads no reference there. */
  predicate ShieldedHere(s: string, b: Bindings, y: Syntax, q: Quote)
    requires s != []
  {
    if IsEscapePair(s, y, q) then s[1] == '$' && ScannedName(s[1..]) in b
    else q == Single && s[0] == '$' && ScannedName(s) in b
  }

  /** Somewhere in the flag, read from quote state `q`, a bound reference is shielded. */
  predicate Shielded(s: string, b: Bindings, y: Syntax, q: Quote)
    decreases |s|
  {
    s != []
    && (ShieldedHere(s, b, y, q)
        || if IsEscapePair(s, y, q) then Shielded(s[2..], b, y, q)
           else if IsDollar(s, q) && ScannedName(s) in b then Shielded(s[NameEnd(s)..], b, y, q)
           else Shielded(s[1..], b, y, Toggle(s[0], y, q)))
  }

  lemma RawStep(s: string, b: Bindings)
    requires s != [] && NoZero(s)
    ensures Raw(s, b) == if s[0] == '$' && ScannedName(s) in b
            then AliasText(s, b[ScannedName(s)]) + Raw(s[NameEnd(s)..], b)
                         else [s[0]] + Raw(s[1..], b)
  {
    hide ScannedName, NameEnd, AliasText;
  }

  /** With nothing shielded the flag is rewritten as the build reads it. */
  lemma {:induction false} RawIsRewrite(s: string, b: Bindings, y: Syntax, q: Quote)
    requires ValidSyntax(y) && NoZero(s) && !Shielded(s, b, y, q)
    ensures Raw(s, b) == Rewrite(s, b, y, q)
    decreases |s|
  {
    hide ScannedName, NameEnd, AliasText, Raw;
    if s != [] {
      RawStep(s, b);
      if IsEscapePair(s, y, q) {
        RawStep(s[1..], b);
        RawIsRewrite(s[2..], b, y, q);
        assert s[1..][1..] == s[2..] && s[..2] == [s[0]] + [s[1]];
      } else if IsDollar(s, q) && ScannedName(s) in b {
        RawIsRewrite(s[NameEnd(s)..], b, y, q);
      } else {
        RawIsRewrite(s[1..], b, y, Toggle(s[0], y, q));
      }
    } else {
      assert Raw(s, b) == [] by { RawOfNothing(b); }
    }
  }

  lemma RawOfNothing(b: Bindings)
    ensures Raw([], b) == []
  {
  }

  /** So such a flag keeps its meaning, conditionals and all. */
  lemma UnshieldedFlagMeans(s: string, b: Bindings, y: Syntax, e1: Env, e2: Env)
    requires ValidSyntax(y) && ValidBindings(b) && NoZero(s) && !Shielded(s, b, y, Bare)
    requires Parse(s, y).Parsed? ==> Agree(b, e1, e2, Names(Parse(s, y).text))
    ensures Expand(Raw(s, b), y, e2) == Expand(s, y, e1)
  {
    hide Raw, Shielded;
    RawIsRewrite(s, b, y, Bare);
    RewritePreservesMeaning(s, b, y, e1, e2);
  }

  // ---- And where something is shielded ----

  predicate NoConditional(t: Text) {
    match t
    case End => true
    case Char(_, _, rest) => NoConditional(rest)
    case Value(_, _, rest) => NoConditional(rest)
    case Cond(_, _, _, _, _, _) => false
  }

  /** Aliases are longer than the names they stand for. */
  predicate Longer(b: Bindings) {
    forall k | k in b :: |b[k]| > |k|
  }

  /** Read in state `q`, the character stands for itself. */
  predicate LiteralIn(c: char, y: Syntax, q: Quote) {
    (c != y.escape || q == Single) && Toggle(c, y, q) == q && (c != '$' || q == Single)
  }

  /** The length of what a reading comes to. */
  function Size(p: Parsed, env: Env): nat {
    if p.Malformed? then 0 else |Eval(p.text, env)|
  }

  predicate Simple(p: Parsed) {
    p.Parsed? && NoConditional(p.text)
  }

  lemma {:induction false} LiteralRun(p: string, rest: string, y: Syntax, q: Quote, env: Env)
    requires forall k | 0 <= k < |p| :: LiteralIn(p[k], y, q)
    ensures var all, tail := ParseTo(p + rest, y, q, Top), ParseTo(rest, y, q, Top);
            && (all.Parsed? <==> tail.Parsed?) && (Simple(all) <==> Simple(tail))
            && (tail.Parsed? ==> Size(all, env) == |p| + Size(tail, env))
  {
    hide ParseTo;
    if p == [] {
      assert p + rest == rest;
    } else {
      var s := p + rest;
      assert s[1..] == p[1..] + rest && s[0] == p[0];
      ParseSimple(s, y, q, Top, Plain(p[0]));
      LiteralRun(p[1..], rest, y, q, env);
    }
  }

  /** Where nothing is shielded at the front, both rewritings begin with the same token and go on after it. */
  predicate SameFront(s: string, b: Bindings, y: Syntax, q: Quote)
    requires s != []
  {
    var r, w := Raw(s, b), Rewrite(s, b, y, q);
    var k, k1, k2 := TokenAt(s, y, q), TokenAt(r, y, q), TokenAt(w, y, q);
    && (if k.Ref? then k1.Ref? && k2.Ref? && k1.name == k2.name else k1 == k && k2 == k)
    && r[Len(k1)..] == Raw(s[Len(k)..], b)
    && w[Len(k2)..] == Rewrite(s[Len(k)..], b, y, NextQuote(k, y, q))
    && (Shielded(s, b, y, q) <==> Shielded(s[Len(k)..], b, y, NextQuote(k, y, q)))
  }

  lemma {:induction false} ShieldedAfterPlain(p: string, rest: string, b: Bindings, y: Syntax, q: Quote)
    requires forall k | 0 <= k < |p| :: IsPlainChar(p[k], y)
    ensures Shielded(p + rest, b, y, q) <==> Shielded(rest, b, y, q)
  {
    if p == [] {
      assert p + rest == rest;
    } else {
      var s := p + rest;
      assert s[1..] == p[1..] + rest && s[0] == p[0];
      ShieldedAfterPlain(p[1..], rest, b, y, q);
    }
  }

  lemma ShieldedInPlain(s: string, m: nat, n: nat, b: Bindings, y: Syntax, q: Quote)
    requires 1 <= m <= n <= |s| && forall k | 1 <= k < n :: IsPlainChar(s[k], y)
    ensures Shielded(s[m..], b, y, q) <==> Shielded(s[n..], b, y, q)
  {
    hide Shielded, IsPlainChar;
    assert s[m..] == s[m..n] + s[n..];
    ShieldedAfterPlain(s[m..n], s[n..], b, y, q);
  }

  lemma ShieldedStep(s: string, b: Bindings, y: Syntax, q: Quote)
    requires ValidSyntax(y) && IsDollar(s, q)
    ensures Shielded(s, b, y, q) <==>
            if ScannedName(s) in b then Shielded(s[NameEnd(s)..], b, y, q) else Shielded(s[1..], b, y, q)
  {
    hide ScannedName, NameEnd;
  }

  lemma ShieldedAfterDollar(s: string, b: Bindings, y: Syntax, q: Quote)
    requires ValidSyntax(y) && ValidBindings(b) && IsDollar(s, q) && (DollarToken(s).Ref? || DollarToken(s).Plain?)
    ensures Shielded(s, b, y, q) <==> Shielded(s[Len(DollarToken(s))..], b, y, q)
  {
    hide Shielded, ScannedName, NameEnd, DollarToken, IsPlainChar;
    var n := Len(DollarToken(s));
    DollarParts(s, y, b);
    ShieldedStep(s, b, y, q);
    if ScannedName(s) in b {
      ShieldedInPlain(s, NameEnd(s), n, b, y, q);
    } else {
      ShieldedInPlain(s, 1, n, b, y, q);
    }
  }

  /** After its dollar a simple reference is plain characters; a bound name ends within it. */
  lemma DollarParts(s: string, y: Syntax, b: Bindings)
    requires ValidSyntax(y) && ValidBindings(b) && s != [] && s[0] == '$'
            && (DollarToken(s).Ref? || DollarToken(s).Plain?)
    ensures var n := Len(DollarToken(s));
            && 1 <= n <= |s| && (forall k | 1 <= k < n :: IsPlainChar(s[k], y))
            && (ScannedName(s) in b ==> 1 <= NameEnd(s) <= n)
  {
    hide WordLen, NameLen;
    var u := s[NameStart(s)..];
    ScannedNameAgrees(u, b);
    assert ScannedName(s) == u[..WordLen(u)];
  }

  lemma SameFrontDollar(s: string, b: Bindings, y: Syntax, q: Quote)
    requires ValidSyntax(y) && ValidBindings(b) && IsDollar(s, q) && (DollarToken(s).Ref? || DollarToken(s).Plain?)
    ensures SameFront(s, b, y, q)
  {
    hide Rewrite, DollarToken, Shielded;
    var z := Prepare.FlagSyntax();
    ShieldedAfterDollar(s, b, y, q);
    RewriteToken(s, b, y, q);
    RewriteToken(s, b, z, Bare);
    RewriteHead(s, b, y, q);
    RewriteHead(s, b, z, Bare);
    DollarTokenAt(s, y, q);
    DollarTokenAt(s, z, Bare);
    DollarTokenAt(Raw(s, b), y, q);
    DollarTokenAt(Raw(s, b), z, Bare);
    DollarTokenAt(Rewrite(s, b, y, q), y, q);
  }

  lemma SameFrontOther(s: string, b: Bindings, y: Syntax, q: Quote)
    requires ValidSyntax(y) && NoZero(s) && s != [] && !IsDollar(s, q) && !ShieldedHere(s, b, y, q)
    requires !TokenAt(s, y, q).Bad?
    ensures SameFront(s, b, y, q)
  {
    hide ScannedName, NameEnd, AliasText, Raw;
    RawStep(s, b);
    RewriteTokenOther(s, b, y, q);
    if IsEscapePair(s, y, q) {
      RawStep(s[1..], b);
      assert s[1..][1..] == s[2..];
      assert Raw(s, b) == [s[0], s[1]] + Raw(s[2..], b);
    } else {
      assert Raw(s, b)[1..] == Raw(s[1..], b);
    }
  }

  lemma SameFrontSimple(s: string, b: Bindings, y: Syntax, q: Quote)
    requires ValidSyntax(y) && !y.raw && ValidBindings(b) && NoZero(s) && s != []
    requires Simple(ParseTo(s, y, q, Top)) && !ShieldedHere(s, b, y, q)
    ensures SameFront(s, b, y, q) && !TokenAt(s, y, q).Bad? && !TokenAt(s, y, q).Open? && !TokenAt(s, y, q).Eot?
  {
    hide SameFront, DollarToken, Shielded;
    if IsDollar(s, q) {
      DollarTokenAt(s, y, q);
      DollarIsNoMark(s);
      SameFrontDollar(s, b, y, q);
    } else {
      SameFrontOther(s, b, y, q);
    }
  }

  lemma DollarIsNoMark(s: string)
    requires s != []
    ensures var k := DollarToken(s); k.Ref? || k.Plain? || k.Bad? || k.Open?
  {
  }

  /** Both rewritings read, and the first comes to no less than the second; to more, if something is shielded. */
  ghost predicate RawComesToMore(s: string, b: Bindings, y: Syntax, q: Quote, env: Env) {
    var r, w := ParseTo(Raw(s, b), y, q, Top), ParseTo(Rewrite(s, b, y, q), y, q, Top);
    && r.Parsed? && w.Parsed?
    && Size(r, env) >= Size(w, env) && (Shielded(s, b, y, q) ==> Size(r, env) > Size(w, env))
  }

  lemma EscapedSize(c: char, y: Syntax, q: Quote, t: Text, env: Env)
    ensures NoConditional(EscapedText(c, y, q, t)) == NoConditional(t)
    ensures |Eval(EscapedText(c, y, q, t), env)| == Adds(Escaped(c), y, q, env) + |Eval(t, env)|
  {
    var one := Char(c, false, t);
    assert |Eval(one, env)| == 1 + |Eval(t, env)| && NoConditional(one) == NoConditional(t);
  }

  lemma SimpleStep(s: string, y: Syntax, q: Quote, k: Token)
    requires k == TokenAt(s, y, q) && !k.Eot? && !k.Bad? && !k.Open?
    ensures var all, rest := ParseTo(s, y, q, Top), ParseTo(s[Len(k)..], y, NextQuote(k, y, q), Top);
            (all.Parsed? <==> rest.Parsed?) && (Simple(all) <==> Simple(rest))
  {
    hide ParseTo, TokenAt, Eval, EscapedText;
    ParseSimple(s, y, q, Top, k);
    var rest := ParseTo(s[Len(k)..], y, NextQuote(k, y, q), Top);
    if k.Escaped? && rest.Parsed? {
      EscapedSize(k.c, y, q, rest.text, map[]);
    }
  }

  /** How much the first token of a reading adds to what the rest comes to. */
  function Adds(k: Token, y: Syntax, q: Quote, env: Env): nat {
    match k
    case Escaped(c) =>
      if c == '\n' && !y.raw then 0 else if q == Double && c != '"' && c != '$' && c != y.escape then 2 else 1
    case Plain(_) => 1
    case Ref(name, _) => |Lookup(name, env)|
    case _ => 0
  }

  lemma SizeStep(s: string, y: Syntax, q: Quote, k: Token, env: Env)
    requires k == TokenAt(s, y, q) && !k.Eot? && !k.Bad? && !k.Open?
    ensures var all, rest := ParseTo(s, y, q, Top), ParseTo(s[Len(k)..], y, NextQuote(k, y, q), Top);
            (all.Parsed? <==> rest.Parsed?) && (rest.Parsed? ==> Size(all, env) == Adds(k, y, q, env) + Size(rest, env))
  {
    hide ParseTo, TokenAt, EscapedText;
    ParseSimple(s, y, q, Top, k);
    var rest := ParseTo(s[Len(k)..], y, NextQuote(k, y, q), Top);
    if k.Escaped? && rest.Parsed? {
      EscapedSize(k.c, y, q, rest.text, env);
    }
  }

  lemma SameFrontCompares(s: string, b: Bindings, y: Syntax, q: Quote, env: Env)
    requires s != [] && SameFront(s, b, y, q)
    requires var k := TokenAt(s, y, q);
            !k.Bad? && !k.Open? && !k.Eot? && RawComesToMore(s[Len(k)..], b, y, NextQuote(k, y, q), env)
    ensures RawComesToMore(s, b, y, q, env)
  {
    hide Raw, Rewrite, Shielded, TokenAt, ParseTo, Size;
    var k, r, w := TokenAt(s, y, q), Raw(s, b), Rewrite(s, b, y, q);
    var k1, k2 := TokenAt(r, y, q), TokenAt(w, y, q);
    SizeStep(r, y, q, k1, env);
    SizeStep(w, y, q, k2, env);
  }

  /** In single quotes the alias is longer than the name it hides. */
  lemma SingleCompares(s: string, b: Bindings, y: Syntax, env: Env)
    requires ValidSyntax(y) && !y.raw && ValidBindings(b) && Longer(b) && NoZero(s)
    requires s != [] && s[0] == '$' && ScannedName(s) in b && RawComesToMore(s[NameEnd(s)..], b, y, Single, env)
    ensures RawComesToMore(s, b, y, Single, env)
  {
    hide Raw, Rewrite, ParseTo, Size, Shielded, Toggle;
    var n, alias := NameEnd(s), b[ScannedName(s)];
    RawStep(s, b);
    SingleCopies(s, b, y);
    AliasIsLonger(s, alias);
    LiteralChars(s, alias, y, Single);
    LiteralRun(AliasText(s, alias), Raw(s[n..], b), y, Single, env);
    LiteralRun(s[..n], Rewrite(s[n..], b, y, Single), y, Single, env);
  }

  lemma AliasIsLonger(s: string, alias: string)
    requires s != [] && |alias| > |ScannedName(s)|
    ensures |AliasText(s, alias)| > NameEnd(s)
  {
    hide WordLen;
  }

  /**
   Past its dollar the reference, and the alias in its place, stand for themselves; in single quotes all of it does.
   */
  lemma LiteralChars(s: string, alias: string, y: Syntax, q: Quote)
    requires ValidSyntax(y) && s != [] && s[0] == '$' && ValidArgName(alias)
    ensures var n, text := NameEnd(s), AliasText(s, alias);
            && text[0] == '$'
            && (forall k | 1 <= k < n :: LiteralIn(s[k], y, q))
              && (forall k | 1 <= k < |text| :: LiteralIn(text[k], y, q))
            && (q == Single ==> LiteralIn('$', y, q))
            && forall k | 1 <= k < n :: IsPlainChar(s[k], y)
  {
    hide WordLen;
  }

  lemma SingleCopies(s: string, b: Bindings, y: Syntax)
    requires ValidSyntax(y) && !y.raw && s != [] && s[0] == '$'
    ensures Rewrite(s, b, y, Single) == s[..NameEnd(s)] + Rewrite(s[NameEnd(s)..], b, y, Single)
  {
    hide Rewrite, WordLen;
    var n := NameEnd(s);
    RewriteInSingle(s, b, y);
    LiteralChars(s, "a", y, Single);
    assert s[1..] == s[1..n] + s[n..];
    RewritePlain(s[1..n], s[n..], b, y, Single);
    assert s[..n] == [s[0]] + s[1..n];
  }

  lemma RewriteInSingle(s: string, b: Bindings, y: Syntax)
    requires s != [] && s[0] == '$'
    ensures Rewrite(s, b, y, Single) == [s[0]] + Rewrite(s[1..], b, y, Single)
  {
    hide WordLen;
  }

  /** After an escaped dollar too. */
  lemma EscapeCompares(s: string, b: Bindings, y: Syntax, q: Quote, env: Env)
    requires ValidSyntax(y) && !y.raw && ValidBindings(b) && Longer(b) && NoZero(s)
    requires IsEscapePair(s, y, q) && s[1] == '$' && ScannedName(s[1..]) in b
    requires RawComesToMore(s[1..][NameEnd(s[1..])..], b, y, q, env)
    ensures RawComesToMore(s, b, y, q, env)
  {
    hide Raw, Rewrite, ParseTo, Size, Shielded, Toggle, AliasText, ScannedName, NameEnd, LiteralIn, IsPlainChar,
        ValidBindings, Longer;
    var d := s[1..];
    var n, text := NameEnd(d), AliasText(d, b[ScannedName(d)]);
    var raw, rewritten := Raw(d[n..], b), Rewrite(d[n..], b, y, q);
    AliasOf(b, d);
    AliasIsLonger(d, b[ScannedName(d)]);
    LiteralChars(d, b[ScannedName(d)], y, q);
    RawAtEscape(s, b, y, q);
    EscapeCopies(s, b, y, q);
    LiteralRun(text[1..], raw, y, q, env);
    LiteralRun(d[1..n], rewritten, y, q, env);
    EscapedDollar(s[0], text[1..] + raw, y, q, env);
    EscapedDollar(s[0], d[1..n] + rewritten, y, q, env);
  }

  lemma AliasOf(b: Bindings, d: string)
    requires ValidBindings(b) && Longer(b) && d != [] && ScannedName(d) in b
    ensures ValidArgName(b[ScannedName(d)]) && |b[ScannedName(d)]| > |ScannedName(d)|
  {
  }

  lemma RawAtEscape(s: string, b: Bindings, y: Syntax, q: Quote)
    requires ValidSyntax(y) && NoZero(s) && ValidBindings(b) && IsEscapePair(s, y, q) && s[1] == '$'
            && ScannedName(s[1..]) in b
    ensures var d := s[1..];
            var text := AliasText(d, b[ScannedName(d)]);
            text != [] && Raw(s, b) == [s[0], '$'] + (text[1..] + Raw(d[NameEnd(d)..], b))
  {
    hide Raw, ScannedName, NameEnd, AliasText;
    var d := s[1..];
    assert NoZero(d);
    RawStep(s, b);
    RawStep(d, b);
    AliasBegins(d, b[ScannedName(d)]);
    FirstMoved(s[0], AliasText(d, b[ScannedName(d)]), Raw(d[NameEnd(d)..], b));
  }

  lemma AliasBegins(s: string, alias: string)
    requires s != []
    ensures AliasText(s, alias) != [] && AliasText(s, alias)[0] == '$'
  {
  }

  lemma FirstMoved(c: char, text: string, rest: string)
    requires text != []
    ensures [c] + (text + rest) == [c, text[0]] + (text[1..] + rest)
  {
  }

  lemma EscapedDollar(e: char, rest: string, y: Syntax, q: Quote, env: Env)
    requires e == y.escape && q != Single
    ensures var all, tail := ParseTo([e, '$'] + rest, y, q, Top), ParseTo(rest, y, q, Top);
            (all.Parsed? <==> tail.Parsed?) && (tail.Parsed? ==> Size(all, env) == 1 + Size(tail, env))
  {
    hide ParseTo;
    var s := [e, '$'] + rest;
    assert s[2..] == rest;
    SizeStep(s, y, q, Escaped('$'), env);
  }

  lemma EscapeCopies(s: string, b: Bindings, y: Syntax, q: Quote)
    requires ValidSyntax(y) && IsEscapePair(s, y, q) && s[1] == '$'
    ensures var d := s[1..];
            Rewrite(s, b, y, q) == [s[0], '$'] + (d[1..NameEnd(d)] + Rewrite(d[NameEnd(d)..], b, y, q))
  {
    hide Rewrite, WordLen;
    var d := s[1..];
    var n := NameEnd(d);
    RewriteAtPair(s, b, y, q);
    LiteralChars(d, "a", y, q);
    assert s[2..] == d[1..n] + d[n..];
    RewritePlain(d[1..n], d[n..], b, y, q);
    assert s[..2] == [s[0], '$'];
  }

  lemma RewriteAtPair(s: string, b: Bindings, y: Syntax, q: Quote)
    requires IsEscapePair(s, y, q)
    ensures Rewrite(s, b, y, q) == s[..2] + Rewrite(s[2..], b, y, q)
  {
  }

  /** What follows a shielded reference reads simply if the whole does. */
  lemma AfterShielded(s: string, b: Bindings, y: Syntax, q: Quote) returns (tail: string)
    requires ValidSyntax(y) && !y.raw && s != [] && ShieldedHere(s, b, y, q) && Simple(ParseTo(s, y, q, Top))
    ensures |tail| < |s| && Simple(ParseTo(tail, y, q, Top)) && forall c | c in tail :: c in s
    ensures IsEscapePair(s, y, q) ==> s[1] == '$' && ScannedName(s[1..]) in b && tail == s[1..][NameEnd(s[1..])..]
    ensures !IsEscapePair(s, y, q) ==> q == Single && s[0] == '$' && ScannedName(s) in b && tail == s[NameEnd(s)..]
  {
    hide ParseTo, WordLen, IsPlainChar, Toggle;
    if IsEscapePair(s, y, q) {
      var d := s[1..];
      var n := NameEnd(d);
      tail := d[n..];
      SimpleStep(s, y, q, Escaped('$'));
      LiteralChars(d, "a", y, q);
      assert s[2..] == d[1..n] + tail;
      LiteralRun(d[1..n], tail, y, q, map[]);
    } else {
      var n := NameEnd(s);
      tail := s[n..];
      LiteralChars(s, "a", y, q);
      assert s == s[..n] + tail;
      LiteralRun(s[..n], tail, y, q, map[]);
    }
  }

  lemma NothingComesToNothing(b: Bindings, y: Syntax, q: Quote, env: Env)
    requires Simple(ParseTo([], y, q, Top))
    ensures RawComesToMore([], b, y, q, env)
  {
  }

  lemma {:induction false} RawCompares(s: string, b: Bindings, y: Syntax, q: Quote, env: Env)
    requires ValidSyntax(y) && !y.raw && ValidBindings(b) && Longer(b) && NoZero(s)
    requires Simple(ParseTo(s, y, q, Top))
    ensures RawComesToMore(s, b, y, q, env)
    decreases |s|
  {
    hide ParseTo, RawComesToMore, ShieldedHere, SameFront, TokenAt, Simple, ValidBindings, Longer, ScannedName, NameEnd;
    if s == [] {
      NothingComesToNothing(b, y, q, env);
    } else if ShieldedHere(s, b, y, q) {
      var tail := AfterShielded(s, b, y, q);
      NoZeroWithin(s, tail);
      RawCompares(tail, b, y, q, env);
      if IsEscapePair(s, y, q) {
        EscapeCompares(s, b, y, q, env);
      } else {
        SingleCompares(s, b, y, env);
      }
    } else {
      SameFrontSimple(s, b, y, q);
      var k := TokenAt(s, y, q);
      SimpleStep(s, y, q, k);
      RawCompares(s[Len(k)..], b, y, NextQuote(k, y, q), env);
      SameFrontCompares(s, b, y, q, env);
    }
  }

  lemma NoZeroWithin(s: string, tail: string)
    requires NoZero(s) && forall c | c in tail :: c in s
    ensures NoZero(tail)
  {
    forall k | 0 <= k < |tail| ensures tail[k] != '\0' {
      assert tail[k] in tail;
    }
  }

  /**
   Main result: a well-formed flag without conditionals keeps its meaning exactly when it shields no bound reference.
   */
  lemma FlagKeepsMeaningIff(s: string, b: Bindings, y: Syntax, e1: Env, e2: Env)
    requires ValidSyntax(y) && !y.raw && ValidBindings(b) && Longer(b) && NoZero(s)
    requires Simple(Parse(s, y)) && Agree(b, e1, e2, Names(Parse(s, y).text))
    ensures Expand(Raw(s, b), y, e2) == Expand(s, y, e1) <==> !Shielded(s, b, y, Bare)
  {
    hide ParseTo, Raw, Rewrite, Shielded, Eval;
    RawCompares(s, b, y, Bare, e2);
    RewritePreservesMeaning(s, b, y, e1, e2);
    if !Shielded(s, b, y, Bare) {
      RawIsRewrite(s, b, y, Bare);
    }
  }
}
