/**
 The reference meaning of Dockerfile text: the grammar of the "Environment replacement" section of the
 Dockerfile reference, read as a parser into a small syntax tree and an evaluator over it.

 A text is a `string` whose characters stand for its bytes. `$name`, `${name}`, `${name-word}`,
 `${name:-word}`, `${name+word}` and `${name:+word}` are references; `word` is any text, references
 included; an escape character protects the next one; quotes are removed, and single quotes keep `$` literal.
 Quoting is one flat state: a `${...}` inherits it and its word ends at the first unescaped `}` seen in the
 state the word began in.
 */
module References {

  datatype Quote = Bare | Single | Double

  /**
   How a text is read: its escape character, whether quotes are ordinary characters (heredoc bodies), and
   whether unquoted separators and references are told apart from quoted ones (instructions made of several words).
   */
  datatype Syntax = Syntax(escape: char, raw: bool, marks: bool)

  /** The Dockerfile `escape` directive allows these two; zero stands for no escape character at all. */
  predicate ValidSyntax(y: Syntax) {
    y.escape == '\\' || y.escape == '`' || y.escape == '\0'
  }

  predicate IsDigit(c: char) { '0' <= c <= '9' }

  predicate IsNameChar(c: char) {
    c == '_' || 'a' <= c <= 'z' || 'A' <= c <= 'Z' || IsDigit(c)
  }

  /** The characters that separate the words and the `key=value` halves of an instruction. */
  predicate IsSeparator(c: char) {
    c == ' ' || c == '\t' || c == '\r' || c == '\n' || c == '='
  }

  predicate ValidArgName(name: string) {
    && name != []
    && !IsDigit(name[0])
    && forall k | 0 <= k < |name| :: IsNameChar(name[k])
  }

  /** The length of the longest run of name characters at the front of `s`. */
  function WordLen(s: string): (n: nat)
    ensures n <= |s|
    ensures forall k | 0 <= k < n :: IsNameChar(s[k])
    ensures n < |s| ==> !IsNameChar(s[n])
  {
    if s == [] || !IsNameChar(s[0]) then 0 else 1 + WordLen(s[1..])
  }

  function DigitsLen(s: string): (n: nat)
    ensures n <= |s|
    ensures forall k | 0 <= k < n :: IsDigit(s[k])
    ensures n < |s| ==> !IsDigit(s[n])
  {
    if s == [] || !IsDigit(s[0]) then 0 else 1 + DigitsLen(s[1..])
  }

  /** The length of the variable name at the front of `s`; a positional name is a run of digits only. */
  function NameLen(s: string): (n: nat)
    ensures n <= |s|
    ensures forall k | 0 <= k < n :: IsNameChar(s[k])
  {
    if s != [] && IsDigit(s[0]) then DigitsLen(s) else WordLen(s)
  }

  function Toggle(c: char, y: Syntax, q: Quote): Quote {
    if y.raw then q
    else if c == '\'' && q != Double then (if q == Single then Bare else Single)
    else if c == '"' && q != Single then (if q == Double then Bare else Double)
    else q
  }

  /** An escape character and what it protects. */
  predicate IsEscapePair(s: string, y: Syntax, q: Quote) {
    |s| >= 2 && s[0] == y.escape && q != Single
  }

  // ---- Tokens ----

  datatype Token =
    | Eot
    | Bad
    | Escaped(c: char)
    | Mark(c: char)
    | Plain(c: char)
    | Ref(name: string, len: nat)
    | Open(name: string, nullUnset: bool, alternate: bool, len: nat)

  function Len(k: Token): nat {
    match k
    case Eot => 0
    case Bad => 0
    case Escaped(_) => 2
    case Mark(_) => 1
    case Plain(_) => 1
    case Ref(_, len) => len
    case Open(_, _, _, len) => len
  }

  /** The first token of `s`, read in quote state `q`. */
  function TokenAt(s: string, y: Syntax, q: Quote): (k: Token)
    ensures Len(k) <= |s|
    ensures !k.Eot? && !k.Bad? ==> 0 < Len(k)
  {
    if s == [] then Eot
    else if s[0] == y.escape && q != Single then (if |s| == 1 then Bad else Escaped(s[1]))
    else if Toggle(s[0], y, q) != q then Mark(s[0])
    else if s[0] == '$' && q != Single then DollarToken(s)
    else Plain(s[0])
  }

  function DollarToken(s: string): (k: Token)
    requires s != []
    ensures Len(k) <= |s|
    ensures !k.Eot? && (!k.Bad? ==> 0 < Len(k))
  {
    if |s| >= 2 && s[1] == '{' then
      var n := NameLen(s[2..]);
      BraceToken(s[2..2 + n], s[2 + n..])
    else
      var n := NameLen(s[1..]);
      if n == 0 then Plain('$') else Ref(s[1..1 + n], 1 + n)
  }

  /** `${name` followed by `tail`. */
  function BraceToken(name: string, tail: string): (k: Token)
    ensures Len(k) <= 2 + |name| + |tail|
    ensures !k.Eot? && (!k.Bad? ==> 0 < Len(k))
  {
    if name == [] || tail == [] then Bad
    else if tail[0] == '}' then Ref(name, 3 + |name|)
    else if tail[0] == ':' then OperatorToken(name, true, tail[1..], 3 + |name|)
    else OperatorToken(name, false, tail, 2 + |name|)
  }

  function OperatorToken(name: string, nullUnset: bool, ops: string, before: nat): (k: Token)
    ensures Len(k) <= before + |ops|
    ensures !k.Eot? && (!k.Bad? ==> 0 < Len(k))
  {
    if ops == [] || (ops[0] != '-' && ops[0] != '+') then Bad
    else Open(name, nullUnset, ops[0] == '+', before + 1)
  }

  // ---- Syntax trees ----

  datatype Text =
    | End
    | Char(c: char, sep: bool, rest: Text)
    | Value(name: string, bare: bool, rest: Text)
    | Cond(name: string, nullUnset: bool, alternate: bool, bare: bool, word: Text, rest: Text)

  /** What ends the text being read: the end of the source, or a `}` seen in the given quote state. */
  datatype Close = Top | Brace(at: Quote)

  datatype Parsed = Malformed | Parsed(text: Text, rest: string, quote: Quote)

  /**
   An escaped character; inside double quotes the escape itself stays unless it protects `"`, `$` or itself. An escaped
   line end continues an instruction on its next line, and is nothing; in a heredoc body it is a character like others.
   */
  function EscapedText(c: char, y: Syntax, q: Quote, rest: Text): Text {
    if c == '\n' && !y.raw then rest
    else if q == Double && c != '"' && c != '$' && c != y.escape
    then Char(y.escape, false, Char(c, false, rest))
    else Char(c, false, rest)
  }

  function NextQuote(k: Token, y: Syntax, q: Quote): Quote {
    if k.Mark? then Toggle(k.c, y, q) else q
  }

  /** Where separators are told apart from other characters, and bare references from quoted ones. */
  predicate IsMarked(y: Syntax, q: Quote, close: Close) {
    y.marks && close.Top? && q == Bare
  }

  /** The tree of a simple token and of what follows it. */
  function Extend(k: Token, y: Syntax, q: Quote, close: Close, p: Parsed): Parsed {
    if p.Malformed? then p
    else match k
      case Escaped(c) => p.(text := EscapedText(c, y, q, p.text))
      case Plain(c) => p.(text := Char(c, IsMarked(y, q, close) && IsSeparator(c), p.text))
      case Ref(name, _) => p.(text := Value(name, IsMarked(y, q, close), p.text))
      case _ => p
  }

  function ExtendCond(k: Token, y: Syntax, q: Quote, close: Close, word: Text, p: Parsed): Parsed
    requires k.Open?
  {
    if p.Malformed? then p
    else p.(text := Cond(k.name, k.nullUnset, k.alternate, IsMarked(y, q, close), word, p.text))
  }

  /** The reading stops here: at the end, at a bad token, or at the closing brace. */
  predicate IsLast(k: Token, q: Quote, close: Close) {
    k.Eot? || k.Bad? || (k == Plain('}') && close == Brace(q))
  }

  function LastParsed(k: Token, rest: string, q: Quote, close: Close): Parsed {
    match k
    case Eot => if close.Top? && q == Bare then Parsed(End, [], Bare) else Malformed
    case Plain(_) => Parsed(End, rest, q)
    case _ => Malformed
  }

  function ParseTo(s: string, y: Syntax, q: Quote, close: Close): (p: Parsed)
    ensures p.Parsed? && close.Top? ==> p.rest == [] && p.quote == Bare
    ensures p.Parsed? && close.Brace? ==> |p.rest| < |s| && p.quote == close.at
    decreases |s|
  {
    var k := TokenAt(s, y, q);
    var rest := s[Len(k)..];
    if IsLast(k, q, close) then LastParsed(k, rest, q, close)
    else if k.Open? then
      var w := ParseTo(rest, y, q, Brace(q));
      if w.Malformed? then Malformed
      else
        ExtendCond(k, y, q, close, w.text, ParseTo(w.rest, y, q, close))
    else Extend(k, y, q, close, ParseTo(rest, y, NextQuote(k, y, q), close))
  }

  lemma DollarTokenAt(s: string, y: Syntax, q: Quote)
    requires ValidSyntax(y) && q != Single && s != [] && s[0] == '$'
    ensures TokenAt(s, y, q) == DollarToken(s)
  {
  }

  lemma Reassociate<T>(a: seq<T>, b: seq<T>, c: seq<T>)
    ensures a + (b + c) == (a + b) + c
  {
  }

  lemma ParseLast(s: string, y: Syntax, q: Quote, close: Close, k: Token)
    requires k == TokenAt(s, y, q) && IsLast(k, q, close)
    ensures ParseTo(s, y, q, close) == LastParsed(k, s[Len(k)..], q, close)
  {
  }

  lemma ParseSimple(s: string, y: Syntax, q: Quote, close: Close, k: Token)
    requires k == TokenAt(s, y, q) && !IsLast(k, q, close) && !k.Open?
    ensures ParseTo(s, y, q, close) == Extend(k, y, q, close, ParseTo(s[Len(k)..], y, NextQuote(k, y, q), close))
  {
  }

  lemma ParseOpen(s: string, y: Syntax, q: Quote, close: Close, k: Token)
    requires k == TokenAt(s, y, q) && k.Open?
    ensures var w := ParseTo(s[Len(k)..], y, q, Brace(q));
            ParseTo(s, y, q, close)
            == if w.Malformed? then w else ExtendCond(k, y, q, close, w.text, ParseTo(w.rest, y, q, close))
  {
  }

  function Parse(s: string, y: Syntax): Parsed {
    ParseTo(s, y, Bare, Top)
  }

  // ---- Meaning ----

  type Env = map<string, string>

  /** One expanded character; a separator the author wrote outside quotes is kept apart from all others. */
  datatype Out = Sep(c: char) | Ch(c: char)

  function Chars(s: string): (r: seq<Out>) {
    seq(|s|, i requires 0 <= i < |s| => Ch(s[i]))
  }

  predicate IsSet(name: string, nullUnset: bool, env: Env) {
    name in env && (nullUnset ==> env[name] != [])
  }

  function Lookup(name: string, env: Env): string {
    if name in env then env[name] else []
  }

  function Eval(t: Text, env: Env): seq<Out> {
    match t
    case End => []
    case Char(c, sep, rest) => [if sep then Sep(c) else Ch(c)] + Eval(rest, env)
    case Value(name, _, rest) => Chars(Lookup(name, env)) + Eval(rest, env)
    case Cond(name, nullUnset, alternate, _, word, rest) =>
      (if IsSet(name, nullUnset, env) == alternate then Eval(word, env)
       else if alternate then []
       else Chars(Lookup(name, env))) + Eval(rest, env)
  }

  datatype Expansion = Fails | Gives(out: seq<Out>)

  function Expand(s: string, y: Syntax, env: Env): Expansion {
    var p := Parse(s, y);
    if p.Malformed? then Fails else Gives(Eval(p.text, env))
  }

  function Literal(v: string): Text {
    if v == [] then End else Char(v[0], false, Literal(v[1..]))
  }

  lemma {:induction false} LiteralMeans(v: string, env: Env)
    ensures Eval(Literal(v), env) == Chars(v)
  {
    if v != [] {
      LiteralMeans(v[1..], env);
    }
  }

  /** The names a text looks up, whichever branches its conditions take. */
  function Names(t: Text): set<string> {
    match t
    case End => {}
    case Char(_, _, rest) => Names(rest)
    case Value(name, _, rest) => {name} + Names(rest)
    case Cond(name, _, _, _, word, rest) => {name} + Names(word) + Names(rest)
  }

  predicate SameValue(name: string, e1: Env, name': string, e2: Env) {
    (name in e1 <==> name' in e2) && (name in e1 && name' in e2 ==> e1[name] == e2[name'])
  }

  /** A text depends on the environment only through the names it looks up. */
  lemma {:induction false} EvalDependsOnNames(t: Text, e1: Env, e2: Env)
    requires forall n | n in Names(t) :: SameValue(n, e1, n, e2)
    ensures Eval(t, e1) == Eval(t, e2)
  {
    match t
    case End =>
    case Char(_, _, rest) => EvalDependsOnNames(rest, e1, e2);
    case Value(name, _, rest) =>
      assert SameValue(name, e1, name, e2);
      EvalDependsOnNames(rest, e1, e2);
    case Cond(name, _, _, _, word, rest) =>
      assert SameValue(name, e1, name, e2);
      EvalDependsOnNames(word, e1, e2);
      EvalDependsOnNames(rest, e1, e2);
  }

  // ---- Names and tokens of copied text ----

  lemma {:induction false} WordLenOfName(v: string, x: string)
    requires forall k | 0 <= k < |v| :: IsNameChar(v[k])
    requires x == [] || !IsNameChar(x[0])
    ensures WordLen(v + x) == |v|
  {
    if v == [] {
      assert v + x == x;
    } else {
      assert (v + x)[1..] == v[1..] + x;
      WordLenOfName(v[1..], x);
    }
  }

  lemma NameLenOfName(v: string, x: string)
    requires ValidArgName(v)
    requires x == [] || !IsNameChar(x[0])
    ensures NameLen(v + x) == |v|
  {
    WordLenOfName(v, x);
    assert (v + x)[0] == v[0];
  }

  lemma {:induction false} DigitsLenCopy(u: string, x: string, n: nat)
    requires n == DigitsLen(u)
    requires (n == |u| && (x == [] || !IsNameChar(x[0]))) || (n < |u| && x != [] && x[0] == u[n])
    ensures DigitsLen(u[..n] + x) == n
  {
    if n == 0 {
      assert u[..n] + x == x;
    } else {
      assert (u[..n] + x)[1..] == u[1..][..n - 1] + x;
      DigitsLenCopy(u[1..], x, n - 1);
    }
  }

  /** A name keeps its length when what follows it keeps its first character, or ends the name anyway. */
  lemma NameLenCopy(u: string, x: string, n: nat)
    requires n == NameLen(u)
    requires (n == |u| && (x == [] || !IsNameChar(x[0]))) || (n < |u| && x != [] && x[0] == u[n])
    ensures NameLen(u[..n] + x) == n
  {
    if u != [] && IsDigit(u[0]) {
      DigitsLenCopy(u, x, n);
    } else {
      WordLenOfName(u[..n], x);
      if n == 0 {
        assert u[..n] + x == x;
      }
    }
  }

  /** `a` and `b` look the same to the reader of what follows a braced name. */
  predicate SameLead(a: string, b: string) {
    && (a == [] <==> b == [])
    && (a != [] ==> a[0] == b[0])
    && (a != [] && a[0] == ':' ==> (|a| == 1 <==> |b| == 1) && (|a| > 1 ==> a[1] == b[1]))
  }

  function Renamed(k: Token, name: string): Token {
    match k
    case Ref(was, len) => if |was| <= len then Ref(name, len - |was| + |name|) else k
    case Open(was, nullUnset, alternate, len) =>
      if |was| <= len then Open(name, nullUnset, alternate, len - |was| + |name|) else k
    case _ => k
  }

  lemma BraceTokenLead(name: string, tail: string, name': string, tail': string)
    requires SameLead(tail, tail') && (name == [] <==> name' == [])
    ensures BraceToken(name', tail') == Renamed(BraceToken(name, tail), name')
  {
  }

  lemma DollarNameToken(name: string, x: string)
    requires NameLen(name + x) == |name| && (name == [] ==> x == [] || x[0] != '{')
    ensures DollarToken("$" + (name + x)) == if name == [] then Plain('$') else Ref(name, 1 + |name|)
    ensures ("$" + (name + x))[1 + |name|..] == x
  {
    var s := "$" + (name + x);
    assert s[1..] == name + x && s[1..1 + |name|] == name;
    assert name != [] ==> IsNameChar((name + x)[0]);
  }

  lemma DollarBraceToken(name: string, x: string)
    requires NameLen(name + x) == |name|
    ensures DollarToken("${" + (name + x)) == BraceToken(name, x)
  {
    var s := "${" + (name + x);
    assert s[2..] == name + x && s[2..2 + |name|] == name && s[2 + |name|..] == x;
  }

  // ---- Reading one text after another ----

  /** `x` cannot prolong a token that ends just before it. */
  predicate Detached(x: string) {
    x == [] || (!IsNameChar(x[0]) && x[0] != '{')
  }

  /** A whole token is read the same whatever comes after it. */
  lemma TokenAppend(v: string, x: string, y: Syntax, q: Quote, k: Token)
    requires k == TokenAt(v, y, q) && !k.Eot? && !k.Bad?
    requires Len(k) < |v| || Detached(x) || k == Plain('}')
    ensures TokenAt(v + x, y, q) == k && (v + x)[Len(k)..] == v[Len(k)..] + x
  {
    hide DollarToken, Detached;
    assert (v + x)[0] == v[0] && (|v| > 1 ==> (v + x)[1] == v[1]);
    assert (v + x)[Len(k)..] == v[Len(k)..] + x;
    if v[0] == '$' && q != Single && v[0] != y.escape {
      DollarIsNotBrace(v);
      DollarAppend(v, x, k);
    }
  }

  lemma DollarIsNotBrace(v: string)
    requires v != []
    ensures DollarToken(v) != Plain('}')
  {
  }

  lemma DollarAppend(v: string, x: string, k: Token)
    requires v != [] && v[0] == '$' && k == DollarToken(v) && !k.Bad?
    requires Len(k) < |v| || Detached(x)
    ensures DollarToken(v + x) == k
  {
    if |v| >= 2 && v[1] == '{' {
      BracedAppend(v, x, v[2..], NameLen(v[2..]));
    } else {
      UnbracedAppend(v, x, v[1..], NameLen(v[1..]));
    }
  }

  lemma BracedAppend(v: string, x: string, u: string, n: nat)
    requires |v| >= 2 && v[..2] == "${" && u == v[2..] && n == NameLen(u) && !DollarToken(v).Bad?
    ensures DollarToken(v + x) == DollarToken(v)
  {
    hide NameLen, DollarToken;
    var name, tail := u[..n], u[n..];
    assert u == name + tail && v == "${" + (name + tail);
    DollarBraceToken(name, tail);
    NameLenCopy(u, tail + x, n);
    DollarBraceToken(name, tail + x);
    assert v + x == "${" + (name + (tail + x));
    BraceTokenLead(name, tail, name, tail + x);
  }

  lemma UnbracedAppend(v: string, x: string, u: string, n: nat)
    requires |v| >= 1 && v[0] == '$' && u == v[1..] && n == NameLen(u) && (u == [] || u[0] != '{')
    requires Len(DollarToken(v)) < |v| || Detached(x)
    ensures DollarToken(v + x) == DollarToken(v)
  {
    hide NameLen, DollarToken;
    var name, tail := u[..n], u[n..];
    assert u == name + tail && v == "$" + (name + tail);
    DollarNameToken(name, tail);
    NameLenCopy(u, tail + x, n);
    assert v + x == "$" + (name + (tail + x));
    DollarNameToken(name, tail + x);
  }

  /** A word that closes its brace is read the same whatever comes after the brace. */
  lemma {:induction false} ParseWordAppend(v: string, x: string, y: Syntax, q: Quote, c: Quote)
    requires ParseTo(v, y, q, Brace(c)).Parsed?
    ensures ParseTo(v + x, y, q, Brace(c)) == ParseTo(v, y, q, Brace(c)).(rest := ParseTo(v, y, q, Brace(c)).rest + x)
    decreases |v|
  {
    hide TokenAt, ParseTo;
    var close := Brace(c);
    var k := TokenAt(v, y, q);
    var rest := v[Len(k)..];
    if IsLast(k, q, close) {
      ParseLast(v, y, q, close, k);
      TokenAppend(v, x, y, q, k);
      ParseLast(v + x, y, q, close, k);
    } else if k.Open? {
      ParseOpen(v, y, q, close, k);
      EmptyIsUnclosed(y, q, q);
      TokenAppend(v, x, y, q, k);
      ParseOpen(v + x, y, q, close, k);
      ParseWordAppend(rest, x, y, q, q);
      ParseWordAppend(ParseTo(rest, y, q, Brace(q)).rest, x, y, q, c);
    } else {
      ParseSimple(v, y, q, close, k);
      EmptyIsUnclosed(y, NextQuote(k, y, q), c);
      TokenAppend(v, x, y, q, k);
      ParseSimple(v + x, y, q, close, k);
      ParseWordAppend(rest, x, y, NextQuote(k, y, q), c);
    }
  }

  lemma EmptyIsUnclosed(y: Syntax, q: Quote, c: Quote)
    ensures ParseTo([], y, q, Brace(c)).Malformed?
  {
  }

  function Join(t: Text, u: Text): Text {
    match t
    case End => u
    case Char(c, sep, rest) => Char(c, sep, Join(rest, u))
    case Value(name, bare, rest) => Value(name, bare, Join(rest, u))
    case Cond(name, nullUnset, alternate, bare, word, rest) =>
      Cond(name, nullUnset, alternate, bare, word, Join(rest, u))
  }

  /** What the first element of a text comes to. */
  function FirstOut(t: Text, env: Env): seq<Out>
    requires !t.End?
  {
    match t
    case Char(c, sep, _) => [if sep then Sep(c) else Ch(c)]
    case Value(name, _, _) => Chars(Lookup(name, env))
    case Cond(name, nullUnset, alternate, _, word, _) =>
      if IsSet(name, nullUnset, env) == alternate then Eval(word, env)
      else if alternate then []
      else Chars(Lookup(name, env))
  }

  lemma EvalStep(t: Text, u: Text, env: Env)
    requires !t.End?
    ensures Eval(t, env) == FirstOut(t, env) + Eval(t.rest, env)
    ensures !Join(t, u).End? && FirstOut(Join(t, u), env) == FirstOut(t, env) && Join(t, u).rest == Join(t.rest, u)
  {
  }

  lemma {:induction false} EvalJoin(t: Text, u: Text, env: Env)
    ensures Eval(Join(t, u), env) == Eval(t, env) + Eval(u, env)
  {
    if !t.End? {
      hide Eval, FirstOut, Join;
      EvalJoin(t.rest, u, env);
      EvalStep(t, u, env);
      EvalStep(Join(t, u), u, env);
      Reassociate(FirstOut(t, env), Eval(t.rest, env), Eval(u, env));
    }
  }

  lemma {:induction false} NamesJoin(t: Text, u: Text)
    ensures Names(Join(t, u)) == Names(t) + Names(u)
  {
    match t
    case End =>
    case Char(_, _, rest) => NamesJoin(rest, u);
    case Value(_, _, rest) => NamesJoin(rest, u);
    case Cond(_, _, _, _, _, rest) => NamesJoin(rest, u);
  }

  function JoinParsed(t: Text, p: Parsed): Parsed {
    if p.Malformed? then p else p.(text := Join(t, p.text))
  }

  /** No separator stands outside quotes and braces. */
  predicate NoSeparators(t: Text) {
    match t
    case End => true
    case Char(_, sep, rest) => !sep && NoSeparators(rest)
    case Value(_, _, rest) => NoSeparators(rest)
    case Cond(_, _, _, _, word, rest) => NoSeparators(word) && NoSeparators(rest)
  }

  /** The expanded characters, separators no longer told apart. */
  function Flat(out: seq<Out>): (s: string)
    ensures |s| == |out|
  {
    seq(|out|, i requires 0 <= i < |out| => out[i].c)
  }

  lemma {:induction false} EvalPlain(t: Text, env: Env)
    requires NoSeparators(t)
    ensures Eval(t, env) == Chars(Flat(Eval(t, env)))
  {
    forall i | 0 <= i < |Eval(t, env)| ensures Eval(t, env)[i].Ch? { EvalHasNoSep(t, env, i); }
  }

  lemma {:induction false} EvalHasNoSep(t: Text, env: Env, i: nat)
    requires NoSeparators(t) && i < |Eval(t, env)|
    ensures Eval(t, env)[i].Ch?
  {
    match t
    case End =>
    case Char(_, _, rest) => if i > 0 { EvalHasNoSep(rest, env, i - 1); }
    case Value(name, _, rest) =>
      var n := |Lookup(name, env)|;
      if i >= n { EvalHasNoSep(rest, env, i - n); }
    case Cond(_, _, _, _, word, rest) =>
      var n := |Eval(t, env)| - |Eval(rest, env)|;
      if i >= n { EvalHasNoSep(rest, env, i - n); }
      else if n == |Eval(word, env)| && Eval(t, env)[..n] == Eval(word, env) { EvalHasNoSep(word, env, i); }
  }

  lemma ExtendJoin(k: Token, y: Syntax, q: Quote, close: Close, p: Parsed, r: Parsed)
    requires p.Parsed? && (close.Top? || !y.marks)
    ensures Extend(k, y, q, close, JoinParsed(p.text, r)) == JoinParsed(Extend(k, y, q, Top, p).text, r)
  {
    if k.Escaped? && r.Parsed? {
      assert Join(Char(k.c, false, p.text), r.text) == Char(k.c, false, Join(p.text, r.text));
    }
  }

  /** A whole word followed by a text is read as the word and then the text, also inside a brace it does not close. */
  lemma {:induction false} ParseConcat(w: string, x: string, y: Syntax, q: Quote, close: Close)
    requires ParseTo(w, y, q, Top).Parsed? && (close.Top? || !y.marks)
    requires close.Brace? ==> ParseTo(w, y, q, close).Malformed?
    requires Detached(x)
    ensures ParseTo(w + x, y, q, close) == JoinParsed(ParseTo(w, y, q, Top).text, ParseTo(x, y, Bare, close))
    decreases |w|
  {
    hide TokenAt, ParseTo, Extend, Detached;
    var k := TokenAt(w, y, q);
    var rest := w[Len(k)..];
    if IsLast(k, q, Top) {
      ParseLast(w, y, q, Top, k);
      assert k.Eot?;
      EotIsEmpty(w, y, q);
      assert w + x == x;
    } else {
      TokenAppend(w, x, y, q, k);
      if IsLast(k, q, close) {
        ParseLast(w, y, q, close, k);
        assert false;
      } else if k.Open? {
        ParseOpen(w, y, q, Top, k);
        ParseOpen(w, y, q, close, k);
        ParseOpen(w + x, y, q, close, k);
        var v := ParseTo(rest, y, q, Brace(q));
        ParseWordAppend(rest, x, y, q, q);
        ParseConcat(v.rest, x, y, q, close);
      } else {
        var q' := NextQuote(k, y, q);
        ParseSimple(w, y, q, Top, k);
        ParseSimple(w, y, q, close, k);
        ParseSimple(w + x, y, q, close, k);
        ExtendParsed(k, y, q, Top, ParseTo(rest, y, q', Top));
        ExtendParsed(k, y, q, close, ParseTo(rest, y, q', close));
        ExtendJoin(k, y, q, close, ParseTo(rest, y, q', Top), ParseTo(x, y, Bare, close));
        ParseConcat(rest, x, y, q', close);
      }
    }
  }

  lemma EotIsEmpty(w: string, y: Syntax, q: Quote)
    ensures TokenAt(w, y, q).Eot? <==> w == []
  {
  }

  lemma ExtendParsed(k: Token, y: Syntax, q: Quote, close: Close, p: Parsed)
    ensures Extend(k, y, q, close, p).Parsed? <==> p.Parsed?
  {
  }

  // ---- Separators ----

  function Unmarked(y: Syntax): Syntax { y.(marks := false) }

  /** The same text with no separator told apart. */
  function Unmark(t: Text): Text {
    match t
    case End => End
    case Char(c, _, rest) => Char(c, false, Unmark(rest))
    case Value(name, _, rest) => Value(name, false, Unmark(rest))
    case Cond(name, nullUnset, alternate, _, word, rest) =>
      Cond(name, nullUnset, alternate, false, Unmark(word), Unmark(rest))
  }

  function UnmarkParsed(p: Parsed): Parsed {
    if p.Malformed? then p else p.(text := Unmark(p.text))
  }

  lemma UnmarkExtend(k: Token, y: Syntax, q: Quote, close: Close, p: Parsed)
    ensures Extend(k, Unmarked(y), q, close, UnmarkParsed(p)) == UnmarkParsed(Extend(k, y, q, close, p))
  {
    if k.Escaped? && p.Parsed? {
      assert Unmark(Char(k.c, false, p.text)) == Char(k.c, false, Unmark(p.text));
    }
  }

  lemma UnmarkExtendCond(k: Token, y: Syntax, q: Quote, close: Close, word: Text, p: Parsed)
    requires k.Open?
    ensures ExtendCond(k, Unmarked(y), q, close, Unmark(word), UnmarkParsed(p))
            == UnmarkParsed(ExtendCond(k, y, q, close, word, p))
    ensures close.Brace? ==> ExtendCond(k, Unmarked(y), q, close, word, p) == ExtendCond(k, y, q, close, word, p)
  {
  }

  lemma TokenUnmarked(s: string, y: Syntax, q: Quote)
    ensures TokenAt(s, Unmarked(y), q) == TokenAt(s, y, q)
    ensures NextQuote(TokenAt(s, y, q), Unmarked(y), q) == NextQuote(TokenAt(s, y, q), y, q)
  {
  }

  /** Without marks the same tree is read, its marks gone; inside a brace nothing is marked to begin with. */
  lemma {:induction false} ParseUnmarked(s: string, y: Syntax, q: Quote, close: Close)
    ensures ParseTo(s, Unmarked(y), q, close) == UnmarkParsed(ParseTo(s, y, q, close))
    ensures close.Brace? ==> ParseTo(s, Unmarked(y), q, close) == ParseTo(s, y, q, close)
    decreases |s|
  {
    hide TokenAt, ParseTo, Extend, Unmarked, NextQuote;
    var k := TokenAt(s, y, q);
    var rest := s[Len(k)..];
    TokenUnmarked(s, y, q);
    if IsLast(k, q, close) {
      ParseLast(s, y, q, close, k);
      ParseLast(s, Unmarked(y), q, close, k);
    } else if k.Open? {
      ParseOpen(s, y, q, close, k);
      ParseOpen(s, Unmarked(y), q, close, k);
      ParseUnmarked(rest, y, q, Brace(q));
      var w := ParseTo(rest, y, q, Brace(q));
      if w.Parsed? {
        ParseUnmarked(w.rest, y, q, close);
        UnmarkExtendCond(k, y, q, close, w.text, ParseTo(w.rest, y, q, close));
      }
    } else {
      var q' := NextQuote(k, y, q);
      ParseSimple(s, y, q, close, k);
      ParseSimple(s, Unmarked(y), q, close, k);
      ParseUnmarked(rest, y, q', close);
      UnmarkExtend(k, y, q, close, ParseTo(rest, y, q', close));
      ExtendInBrace(k, y, q, close, ParseTo(rest, y, q', close));
    }
  }

  lemma ExtendInBrace(k: Token, y: Syntax, q: Quote, close: Close, p: Parsed)
    ensures close.Brace? ==> Extend(k, Unmarked(y), q, close, p) == Extend(k, y, q, close, p)
  {
  }

  lemma {:induction false} UnmarkHasNone(t: Text)
    ensures NoSeparators(Unmark(t)) && Names(Unmark(t)) == Names(t)
  {
    match t
    case End =>
    case Char(_, _, rest) => UnmarkHasNone(rest);
    case Value(_, _, rest) => UnmarkHasNone(rest);
    case Cond(_, _, _, _, word, rest) => UnmarkHasNone(word); UnmarkHasNone(rest);
  }

  lemma FlatJoin(a: seq<Out>, b: seq<Out>)
    ensures Flat(a + b) == Flat(a) + Flat(b)
  {
  }

  /** Marks do not change what a text comes to. */
  lemma {:induction false} EvalUnmark(t: Text, env: Env)
    ensures Flat(Eval(Unmark(t), env)) == Flat(Eval(t, env))
  {
    if !t.End? {
      hide Eval, Flat, FirstOut;
      if t.Cond? {
        EvalUnmark(t.word, env);
      }
      EvalUnmark(t.rest, env);
      FirstUnmark(t, env);
      EvalStep(t, End, env);
      EvalStep(Unmark(t), End, env);
      FlatJoin(FirstOut(t, env), Eval(t.rest, env));
      FlatJoin(FirstOut(Unmark(t), env), Eval(Unmark(t.rest), env));
    }
  }

  lemma FirstUnmark(t: Text, env: Env)
    requires !t.End? && (t.Cond? ==> Flat(Eval(Unmark(t.word), env)) == Flat(Eval(t.word, env)))
    ensures !Unmark(t).End? && Unmark(t).rest == Unmark(t.rest)
    ensures Flat(FirstOut(Unmark(t), env)) == Flat(FirstOut(t, env))
  {
  }
}
