/**
 `rewriteReferences`: renames the bound variable references of a text to their aliases. The scanning loop is
 `RewriteReferences`; the function `Rewrite` is what it computes; the theorems say that rewriting the text is
 renaming its syntax tree, and hence that it keeps the meaning.
 */
module Rewriter {
  import opened References

  type Bindings = map<string, string>

  /** `Prepare` binds only valid ARG names, to aliases that are themselves valid names. */
  predicate ValidBindings(b: Bindings) {
    forall k | k in b :: ValidArgName(k) && ValidArgName(b[k])
  }

  function RenameName(name: string, b: Bindings): string {
    if name in b then b[name] else name
  }

  function Rename(t: Text, b: Bindings): Text {
    match t
    case End => End
    case Char(c, sep, rest) => Char(c, sep, Rename(rest, b))
    case Value(name, bare, rest) => Value(RenameName(name, b), bare, Rename(rest, b))
    case Cond(name, nullUnset, alternate, bare, word, rest) =>
      Cond(RenameName(name, b), nullUnset, alternate, bare, Rename(word, b), Rename(rest, b))
  }

  /** Whether a live `$` starts `s`, the length of what precedes the name, and the name as scanned. */
  predicate IsDollar(s: string, q: Quote) { s != [] && s[0] == '$' && q != Single }

  function NameStart(s: string): (n: nat)
    requires s != []
    ensures 1 <= n <= |s| && n <= 2
  {
    if |s| >= 2 && s[1] == '{' then 2 else 1
  }

  function NameEnd(s: string): (n: nat)
    requires s != []
    ensures NameStart(s) <= n <= |s|
  {
    NameStart(s) + WordLen(s[NameStart(s)..])
  }

  function ScannedName(s: string): string
    requires s != []
  {
    s[NameStart(s)..NameEnd(s)]
  }

  function AliasText(s: string, alias: string): string
    requires s != []
  {
    if NameStart(s) == 2 then "${" + alias else "${" + alias + "}"
  }

  function Rewrite(s: string, b: Bindings, y: Syntax, q: Quote): string
    decreases |s|
  {
    if s == [] then []
    else if IsEscapePair(s, y, q) then s[..2] + Rewrite(s[2..], b, y, q)
    else if IsDollar(s, q) && ScannedName(s) in b then
      AliasText(s, b[ScannedName(s)]) + Rewrite(s[NameEnd(s)..], b, y, q)
    else [s[0]] + Rewrite(s[1..], b, y, Toggle(s[0], y, q))
  }

  function QuoteOf(single: bool, double: bool): Quote {
    if single then Single else if double then Double else Bare
  }

  /** The scanning loop, with its index, its two quote flags and its output buffer. */
  method RewriteReferences(source: string, bindings: Bindings, y: Syntax) returns (out: string)
    requires ValidSyntax(y)
    ensures out == Rewrite(source, bindings, y, Bare)
  {
    hide Rewrite, Scanned, WordLen;
    out := "";
    var single, double := false, false;
    var i := 0;
    ScanStart(source, bindings, y);
    while i < |source|
      invariant 0 <= i <= |source|
      invariant !(single && double)
      invariant y.raw ==> !single && !double
      invariant Scanned(out, i, source, bindings, y, QuoteOf(single, double))
    {
      ghost var q := QuoteOf(single, double);
      var ch := source[i];
      if ch == y.escape && !single && i + 1 < |source| {
        ScanEscape(out, i, source, bindings, y, q);
        out := out + source[i..i + 2];
        i := i + 2;
        continue;
      }
      if ch == '\'' && !double && !y.raw {
        single := !single;
      }
      if ch == '"' && !single && !y.raw {
        double := !double;
      }
      if ch != '$' || single {
        ScanOne(out, i, source, bindings, y, q);
        out := out + [ch];
        i := i + 1;
        continue;
      }
      var start := i + 1;
      var braced := start < |source| && source[start] == '{';
      if braced {
        start := start + 1;
      }
      var end := ScanName(source, start);
      if source[start..end] in bindings {
        var alias := bindings[source[start..end]];
        ScanReference(out, i, source, bindings, y, q, start, end);
        if braced {
          out := out + ("${" + alias);
        } else {
          out := out + ("${" + alias + "}");
        }
        i := end;
      } else {
        ScanDollar(out, i, source, bindings, y, q, start, end);
        out := out + [ch];
        i := i + 1;
      }
    }
    ScanEnd(out, source, bindings, y, QuoteOf(single, double));
  }

  /** The loop's invariant: what is written and the rewriting of what is left make up the whole rewriting. */
  ghost predicate Scanned(out: string, i: nat, source: string, b: Bindings, y: Syntax, q: Quote)
    requires i <= |source|
  {
    out + Rewrite(source[i..], b, y, q) == Rewrite(source, b, y, Bare)
  }

  lemma ScanStart(source: string, b: Bindings, y: Syntax)
    ensures Scanned("", 0, source, b, y, Bare)
  {
    assert source[0..] == source;
  }

  lemma ScanEnd(out: string, source: string, b: Bindings, y: Syntax, q: Quote)
    requires Scanned(out, |source|, source, b, y, q)
    ensures out == Rewrite(source, b, y, Bare)
  {
    assert source[|source|..] == [];
  }

  lemma ScanEscape(out: string, i: nat, source: string, b: Bindings, y: Syntax, q: Quote)
    requires i < |source| && Scanned(out, i, source, b, y, q) && IsEscapePair(source[i..], y, q)
    ensures Scanned(out + source[i..i + 2], i + 2, source, b, y, q)
  {
    var s := source[i..];
    assert s[..2] == source[i..i + 2] && s[2..] == source[i + 2..];
    Reassociate(out, s[..2], Rewrite(s[2..], b, y, q));
  }

  lemma ScanOne(out: string, i: nat, source: string, b: Bindings, y: Syntax, q: Quote)
    requires i < |source| && Scanned(out, i, source, b, y, q)
    requires var s := source[i..]; !IsEscapePair(s, y, q) && !(IsDollar(s, q) && ScannedName(s) in b)
    ensures Scanned(out + [source[i]], i + 1, source, b, y, Toggle(source[i], y, q))
  {
    var s := source[i..];
    assert s[1..] == source[i + 1..];
    Reassociate(out, [s[0]], Rewrite(s[1..], b, y, Toggle(s[0], y, q)));
  }

  lemma ScannedNameAt(i: nat, source: string, start: nat, end: nat)
    requires i < |source| && start == i + NameStart(source[i..]) && end == start + WordLen(source[start..])
    ensures ScannedName(source[i..]) == source[start..end] && NameEnd(source[i..]) == end - i
    ensures source[i..][end - i..] == source[end..]
  {
    SliceOfSuffix(source, i, start, end);
    SliceOfSuffix(source, i, start, |source|);
    SliceOfSuffix(source, i, end, |source|);
  }

  /** A part of a suffix is a part of the text. */
  lemma SliceOfSuffix(s: string, i: nat, a: nat, b: nat)
    requires i <= a <= b <= |s|
    ensures s[i..][a - i..b - i] == s[a..b]
    ensures b == |s| ==> s[i..][a - i..] == s[a..]
  {
  }

  lemma ScanDollar(out: string, i: nat, source: string, b: Bindings, y: Syntax, q: Quote, start: nat, end: nat)
    requires i < |source| && Scanned(out, i, source, b, y, q)
    requires start == i + NameStart(source[i..]) && end == start + WordLen(source[start..])
    requires source[i] == '$' && !IsEscapePair(source[i..], y, q) && source[start..end] !in b
    ensures Scanned(out + [source[i]], i + 1, source, b, y, q)
  {
    ScannedNameAt(i, source, start, end);
    ScanOne(out, i, source, b, y, q);
  }

  lemma RewriteHit(s: string, b: Bindings, y: Syntax, q: Quote)
    requires s != [] && IsDollar(s, q) && !IsEscapePair(s, y, q) && ScannedName(s) in b
    ensures Rewrite(s, b, y, q) == AliasText(s, b[ScannedName(s)]) + Rewrite(s[NameEnd(s)..], b, y, q)
  {
    hide AliasText, ScannedName, NameEnd, IsEscapePair, IsDollar;
  }

  lemma ScanReference(out: string, i: nat, source: string, b: Bindings, y: Syntax, q: Quote, start: nat, end: nat)
    requires i < |source| && Scanned(out, i, source, b, y, q)
    requires start == i + NameStart(source[i..]) && end == start + WordLen(source[start..])
    requires IsDollar(source[i..], q) && !IsEscapePair(source[i..], y, q) && source[start..end] in b
    ensures Scanned(out + AliasText(source[i..], b[source[start..end]]), end, source, b, y, q)
  {
    hide AliasText, NameStart, WordLen, ScannedName, NameEnd, IsEscapePair;
    ScannedNameAt(i, source, start, end);
    RewriteHit(source[i..], b, y, q);
    Reassociate(out, AliasText(source[i..], b[source[start..end]]), Rewrite(source[end..], b, y, q));
  }

  /** The inner loop: the end of the run of name characters that begins at `start`. */
  method ScanName(source: string, start: nat) returns (end: nat)
    requires start <= |source|
    ensures end == start + WordLen(source[start..])
  {
    end := start;
    while end < |source| && IsNameChar(source[end])
      invariant start <= end <= |source|
      invariant WordLen(source[start..]) == end - start + WordLen(source[end..])
    {
      assert source[end..][1..] == source[end + 1..];
      end := end + 1;
    }
  }

  /** The scanner leaves the first character of what it reads in place. */
  lemma RewriteHead(s: string, b: Bindings, y: Syntax, q: Quote)
    ensures s == [] <==> Rewrite(s, b, y, q) == []
    ensures s != [] ==> Rewrite(s, b, y, q)[0] == s[0]
  {
  }

  predicate IsPlainChar(c: char, y: Syntax) {
    c != y.escape && c != '$' && c != '\'' && c != '"'
  }

  lemma RewriteCopies(c: char, rest: string, b: Bindings, y: Syntax, q: Quote)
    requires IsPlainChar(c, y)
    ensures Rewrite([c] + rest, b, y, q) == [c] + Rewrite(rest, b, y, q)
  {
    assert ([c] + rest)[1..] == rest;
  }

  lemma {:induction false} RewritePlain(p: string, rest: string, b: Bindings, y: Syntax, q: Quote)
    requires forall k | 0 <= k < |p| :: IsPlainChar(p[k], y)
    ensures Rewrite(p + rest, b, y, q) == p + Rewrite(rest, b, y, q)
  {
    hide Rewrite;
    if p == [] {
      assert p + rest == rest;
    } else {
      assert p + rest == [p[0]] + (p[1..] + rest);
      RewriteCopies(p[0], p[1..] + rest, b, y, q);
      RewritePlain(p[1..], rest, b, y, q);
      assert p == [p[0]] + p[1..];
    }
  }

  lemma NameIsPlain(name: string, y: Syntax)
    requires ValidSyntax(y) && forall k | 0 <= k < |name| :: IsNameChar(name[k])
    ensures forall k | 0 <= k < |name| :: IsPlainChar(name[k], y)
  {
  }

  /** The name the scanner reads is bound exactly when the name the grammar reads is, and then they agree. */
  lemma ScannedNameAgrees(u: string, b: Bindings)
    requires ValidBindings(b)
    ensures u[..WordLen(u)] in b ==> NameLen(u) == WordLen(u)
    ensures u[..WordLen(u)] !in b ==> u[..NameLen(u)] !in b
  {
    if u != [] && IsDigit(u[0]) {
      assert u[..WordLen(u)][0] == u[0];
      assert NameLen(u) > 0 && u[..NameLen(u)][0] == u[0];
    }
  }

  lemma RewriteBound(s: string, b: Bindings, y: Syntax, q: Quote, u: string, n: nat)
    requires ValidSyntax(y) && ValidBindings(b) && IsDollar(s, q)
    requires u == s[NameStart(s)..] && n == NameLen(u) && u[..n] in b
    ensures Rewrite(s, b, y, q) == AliasText(s, b[u[..n]]) + Rewrite(u[n..], b, y, q)
    ensures n < |u| ==> !IsNameChar(u[n])
  {
    ScannedNameAgrees(u, b);
    assert ScannedName(s) == u[..WordLen(u)];
    assert s[NameEnd(s)..] == u[n..];
  }

  /** A reference to an unbound name is copied, up to and including its name. */
  lemma RewriteUnbound(s: string, b: Bindings, y: Syntax, q: Quote, u: string, n: nat)
    requires ValidSyntax(y) && ValidBindings(b) && IsDollar(s, q)
    requires u == s[NameStart(s)..] && n == NameLen(u) && u[..n] !in b
    ensures Rewrite(s, b, y, q) == s[..NameStart(s)] + (u[..n] + Rewrite(u[n..], b, y, q))
  {
    hide NameLen, WordLen;
    ScannedNameAgrees(u, b);
    assert ScannedName(s) == u[..WordLen(u)];
    assert Rewrite(s, b, y, q) == "$" + Rewrite(s[1..], b, y, q);
    UnboundTail(s, b, y, q, u, n);
  }

  lemma UnboundTail(s: string, b: Bindings, y: Syntax, q: Quote, u: string, n: nat)
    requires ValidSyntax(y) && IsDollar(s, q)
    requires u == s[NameStart(s)..] && n == NameLen(u)
    ensures "$" + Rewrite(s[1..], b, y, q) == s[..NameStart(s)] + (u[..n] + Rewrite(u[n..], b, y, q))
  {
    hide Rewrite, NameLen;
    assert u == u[..n] + u[n..];
    NameIsPlain(u[..n], y);
    RewritePlain(u[..n], u[n..], b, y, q);
    if NameStart(s) == 2 {
      assert s[1..] == ['{'] + u;
      RewriteCopies('{', u, b, y, q);
      Reassociate("$", ['{'], Rewrite(u, b, y, q));
      assert s[..2] == "$" + ['{'];
    } else {
      assert s[..1] == "$" && s[1..] == u;
    }
  }

  lemma RewriteLead(s: string, b: Bindings, y: Syntax, q: Quote)
    requires ValidSyntax(y)
    ensures SameLead(s, Rewrite(s, b, y, q))
  {
    RewriteHead(s, b, y, q);
    if s != [] && s[0] == ':' {
      assert s == [':'] + s[1..];
      RewriteCopies(':', s[1..], b, y, q);
      RewriteHead(s[1..], b, y, q);
    }
  }

  // ---- Token by token ----

  /** `r` is the rewriting of `s`: it starts with the renamed first token, and goes on with the rewritten rest. */
  predicate TokenRewritten(s: string, r: string, b: Bindings, y: Syntax, q: Quote) {
    var k, k' := TokenAt(s, y, q), TokenAt(r, y, q);
    && (match k
        case Ref(name, _) => k'.Ref? && k'.name == RenameName(name, b)
        case Open(name, nullUnset, alternate, _) => k' == Open(RenameName(name, b), nullUnset, alternate, Len(k'))
        case _ => k' == k)
    && (!k.Bad? ==> r[Len(k')..] == Rewrite(s[Len(k)..], b, y, NextQuote(k, y, q)))
  }

  lemma RewriteToken(s: string, b: Bindings, y: Syntax, q: Quote)
    requires ValidSyntax(y) && ValidBindings(b)
    ensures TokenRewritten(s, Rewrite(s, b, y, q), b, y, q)
  {
    hide TokenRewritten;
    if IsDollar(s, q) {
      RewriteTokenDollar(s, b, y, q, s[NameStart(s)..], NameLen(s[NameStart(s)..]));
    } else {
      RewriteTokenOther(s, b, y, q);
    }
  }

  lemma RewriteTokenOther(s: string, b: Bindings, y: Syntax, q: Quote)
    requires ValidSyntax(y) && !IsDollar(s, q)
    ensures TokenRewritten(s, Rewrite(s, b, y, q), b, y, q)
  {
    var r := Rewrite(s, b, y, q);
    if s == [] {
    } else if IsEscapePair(s, y, q) {
      var x := Rewrite(s[2..], b, y, q);
      assert r == s[..2] + x && r[2..] == x;
    } else {
      var x := Rewrite(s[1..], b, y, Toggle(s[0], y, q));
      RewriteHead(s[1..], b, y, Toggle(s[0], y, q));
      assert r == [s[0]] + x && r[1..] == x;
    }
  }

  lemma RewriteTokenDollar(s: string, b: Bindings, y: Syntax, q: Quote, u: string, n: nat)
    requires ValidSyntax(y) && ValidBindings(b) && IsDollar(s, q)
    requires u == s[NameStart(s)..] && n == NameLen(u)
    ensures TokenRewritten(s, Rewrite(s, b, y, q), b, y, q)
  {
    hide Rewrite, NameLen, DollarToken, TokenRewritten;
    assert u == u[..n] + u[n..];
    if NameStart(s) == 2 {
      assert s == "${" + u;
      RewriteTokenBraced(s, b, y, q, u, n);
    } else {
      assert s == "$" + u;
      RewriteTokenUnbraced(s, b, y, q, u, n);
    }
  }

  lemma RewriteTokenBraced(s: string, b: Bindings, y: Syntax, q: Quote, u: string, n: nat)
    requires ValidSyntax(y) && ValidBindings(b) && IsDollar(s, q) && NameStart(s) == 2
    requires s == "${" + u && u == s[2..] && n == NameLen(u)
    ensures TokenRewritten(s, Rewrite(s, b, y, q), b, y, q)
  {
    hide Rewrite, NameLen, DollarToken, TokenRewritten;
    var name, tail := u[..n], u[n..];
    var x := Rewrite(tail, b, y, q);
    RewriteLead(tail, b, y, q);
    assert u == name + tail && s[..2] == "${";
    if name in b {
      RewriteBound(s, b, y, q, u, n);
      NameLenOfName(b[name], x);
      Reassociate("${", b[name], x);
      RewriteTokenTail(name, tail, b[name], x, b, y, q);
    } else {
      RewriteUnbound(s, b, y, q, u, n);
      NameLenCopy(u, x, n);
      RewriteTokenTail(name, tail, name, x, b, y, q);
    }
  }

  lemma RewriteTokenUnbraced(s: string, b: Bindings, y: Syntax, q: Quote, u: string, n: nat)
    requires ValidSyntax(y) && ValidBindings(b) && IsDollar(s, q) && NameStart(s) != 2
    requires s == "$" + u && u == s[NameStart(s)..] && n == NameLen(u)
    ensures TokenRewritten(s, Rewrite(s, b, y, q), b, y, q)
  {
    hide Rewrite, NameLen, DollarToken, TokenRewritten;
    var name, tail := u[..n], u[n..];
    var x := Rewrite(tail, b, y, q);
    RewriteLead(tail, b, y, q);
    assert u == name + tail && s[..1] == "$";
    if name in b {
      RewriteBound(s, b, y, q, u, n);
      assert ("${" + b[name] + "}") + x == "${" + (b[name] + ("}" + x));
      ClosedAlias(name, b[name], tail, x, b, y, q);
    } else {
      RewriteUnbound(s, b, y, q, u, n);
      NameLenCopy(u, x, n);
      CopiedName(name, tail, x, b, y, q);
    }
  }

  lemma ClosedAlias(name: string, alias: string, tail: string, x: string, b: Bindings, y: Syntax, q: Quote)
    requires ValidSyntax(y) && q != Single && ValidArgName(alias) && name in b && b[name] == alias && name != []
    requires x == Rewrite(tail, b, y, q) && NameLen(name + tail) == |name|
    ensures TokenRewritten("$" + (name + tail), "${" + (alias + ("}" + x)), b, y, q)
  {
    hide Rewrite, NameLen, DollarToken;
    NameLenOfName(alias, "}" + x);
    DollarBraceToken(alias, "}" + x);
    DollarNameToken(name, tail);
    assert ("${" + (alias + ("}" + x)))[3 + |alias|..] == x;
  }

  lemma CopiedName(name: string, tail: string, x: string, b: Bindings, y: Syntax, q: Quote)
    requires ValidSyntax(y) && q != Single && name !in b
    requires x == Rewrite(tail, b, y, q) && SameLead(tail, x)
    requires NameLen(name + tail) == |name| && NameLen(name + x) == |name|
    requires name == [] ==> tail == [] || tail[0] != '{'
    ensures TokenRewritten("$" + (name + tail), "$" + (name + x), b, y, q)
  {
    hide Rewrite, NameLen, DollarToken;
    DollarNameToken(name, tail);
    DollarNameToken(name, x);
  }

  lemma RewriteTokenTail(name: string, tail: string, name': string, x: string, b: Bindings, y: Syntax, q: Quote)
    requires ValidSyntax(y) && q != Single && x == Rewrite(tail, b, y, q) && name' == RenameName(name, b)
    requires NameLen(name + tail) == |name| && NameLen(name' + x) == |name'| && (name' == [] <==> name == [])
    ensures TokenRewritten("${" + (name + tail), "${" + (name' + x), b, y, q)
  {
    hide Rewrite, DollarToken, NameLen, TokenAt, SameLead, BraceToken, Renamed, ValidSyntax, IsPlainChar, RenameName;
    var s, r := "${" + (name + tail), "${" + (name' + x);
    DollarTokenAt(s, y, q);
    DollarTokenAt(r, y, q);
    DollarBraceToken(name, tail);
    DollarBraceToken(name', x);
    RewriteLead(tail, b, y, q);
    BraceTokenLead(name, tail, name', x);
    BraceTokenParts(name, tail, name', y, q);
    if !BraceToken(name, tail).Bad? {
      RewriteTokenRest(name, tail, name', x, b, y, q, Len(BraceToken(name, tail)) - 2 - |name|);
    }
  }

  /** The token of a brace: its name, and after it plain characters. */
  lemma BraceTokenParts(name: string, tail: string, name': string, y: Syntax, q: Quote)
    requires ValidSyntax(y)
    ensures var k, k' := BraceToken(name, tail), Renamed(BraceToken(name, tail), name');
            if k.Bad? then k' == k
            else
              var h := Len(k) - 2 - |name|;
              && 0 <= h <= |tail| && (forall i | 0 <= i < h :: IsPlainChar(tail[i], y))
              && Len(k') == 2 + |name'| + h && NextQuote(k, y, q) == q
              && if k.Open? then k.name == name && k' == Open(name', k.nullUnset, k.alternate, Len(k'))
                 else k == Ref(name, Len(k)) && k' == Ref(name', Len(k'))
  {
  }

  lemma RewriteTokenRest(name: string, tail: string, name': string, x: string, b: Bindings, y: Syntax, q: Quote, h: int)
    requires ValidSyntax(y) && x == Rewrite(tail, b, y, q) && 0 <= h <= |tail|
    requires forall k | 0 <= k < h :: IsPlainChar(tail[k], y)
    ensures ("${" + (name + tail))[2 + |name| + h..] == tail[h..]
    ensures 2 + |name'| + h <= |"${" + (name' + x)|
    ensures ("${" + (name' + x))[2 + |name'| + h..] == Rewrite(tail[h..], b, y, q)
  {
    hide Rewrite;
    assert tail == tail[..h] + tail[h..];
    RewritePlain(tail[..h], tail[h..], b, y, q);
  }

  function RenameParsed(p: Parsed, b: Bindings, y: Syntax): Parsed {
    if p.Malformed? then p else Parsed(Rename(p.text, b), Rewrite(p.rest, b, y, p.quote), p.quote)
  }

  lemma ExtendRenamed(k: Token, k': Token, y: Syntax, q: Quote, close: Close, p: Parsed, b: Bindings)
    requires if k.Ref? then k'.Ref? && k'.name == RenameName(k.name, b) else k' == k
    ensures RenameParsed(Extend(k, y, q, close, p), b, y) == Extend(k', y, q, close, RenameParsed(p, b, y))
  {
    if k.Escaped? && p.Parsed? {
      assert Rename(Char(k.c, false, p.text), b) == Char(k.c, false, Rename(p.text, b));
    }
  }

  lemma ExtendCondRenamed(k: Token, k': Token, y: Syntax, q: Quote, close: Close, word: Text, p: Parsed, b: Bindings)
    requires k.Open? && k' == Open(RenameName(k.name, b), k.nullUnset, k.alternate, Len(k'))
    ensures RenameParsed(ExtendCond(k, y, q, close, word, p), b, y)
            == ExtendCond(k', y, q, close, Rename(word, b), RenameParsed(p, b, y))
  {
  }

  lemma RewriteRenamesLast(k: Token, rest: string, b: Bindings, y: Syntax, q: Quote, close: Close)
    requires IsLast(k, q, close)
    ensures LastParsed(k, Rewrite(rest, b, y, q), q, close) == RenameParsed(LastParsed(k, rest, q, close), b, y)
  {
  }

  /** The heart of the matter: parsing a rewritten text gives the renamed tree, and stops at the same place. */
  lemma {:induction false} RewriteRenames(s: string, b: Bindings, y: Syntax, q: Quote, close: Close)
    requires ValidSyntax(y) && ValidBindings(b)
    ensures ParseTo(Rewrite(s, b, y, q), y, q, close) == RenameParsed(ParseTo(s, y, q, close), b, y)
    decreases |s|
  {
    hide TokenAt, Rewrite, Extend, ParseTo, Rename;
    var r := Rewrite(s, b, y, q);
    var k, k' := TokenAt(s, y, q), TokenAt(r, y, q);
    var rest := s[Len(k)..];
    RewriteToken(s, b, y, q);
    if IsLast(k, q, close) {
      ParseLast(s, y, q, close, k);
      ParseLast(r, y, q, close, k');
      RewriteRenamesLast(k, rest, b, y, q, close);
    } else if k.Open? {
      ParseOpen(s, y, q, close, k);
      ParseOpen(r, y, q, close, k');
      RewriteRenames(rest, b, y, q, Brace(q));
      var w := ParseTo(rest, y, q, Brace(q));
      if w.Parsed? {
        RewriteRenames(w.rest, b, y, q, close);
        ExtendCondRenamed(k, k', y, q, close, w.text, ParseTo(w.rest, y, q, close), b);
      }
    } else {
      ParseSimple(s, y, q, close, k);
      ParseSimple(r, y, q, close, k');
      RewriteRenames(rest, b, y, NextQuote(k, y, q), close);
      ExtendRenamed(k, k', y, q, close, ParseTo(rest, y, NextQuote(k, y, q), close), b);
    }
  }

  /**
   What `e1` must share with `e2` for a text to mean in `e1` what its renaming means in `e2`: unbound names
   agree, and the alias of each bound name holds what that name held. In `e2` a bound name may hold anything.
   */
  predicate Agree(b: Bindings, e1: Env, e2: Env, names: set<string>) {
    forall n | n in names :: SameValue(n, e1, RenameName(n, b), e2)
  }

  lemma {:induction false} RenameKeepsMeaning(t: Text, b: Bindings, e1: Env, e2: Env)
    requires Agree(b, e1, e2, Names(t))
    ensures Eval(Rename(t, b), e2) == Eval(t, e1)
  {
    match t
    case End =>
    case Char(_, _, rest) => RenameKeepsMeaning(rest, b, e1, e2);
    case Value(name, _, rest) =>
      assert SameValue(name, e1, RenameName(name, b), e2);
      RenameKeepsMeaning(rest, b, e1, e2);
    case Cond(name, _, _, _, word, rest) =>
      assert SameValue(name, e1, RenameName(name, b), e2);
      RenameKeepsMeaning(word, b, e1, e2);
      RenameKeepsMeaning(rest, b, e1, e2);
  }

  /** Rewriting a text is renaming its syntax tree; a malformed text stays malformed. */
  lemma RewriteIsRename(s: string, b: Bindings, y: Syntax)
    requires ValidSyntax(y) && ValidBindings(b)
    ensures Parse(s, y).Malformed? <==> Parse(Rewrite(s, b, y, Bare), y).Malformed?
    ensures Parse(s, y).Parsed? ==> Parse(Rewrite(s, b, y, Bare), y).text == Rename(Parse(s, y).text, b)
  {
    RewriteRenames(s, b, y, Bare, Top);
  }

  /** Main result: renaming references preserves meaning, for every text, escape character and quoting mode. */
  lemma RewritePreservesMeaning(s: string, b: Bindings, y: Syntax, e1: Env, e2: Env)
    requires ValidSyntax(y) && ValidBindings(b)
    requires Parse(s, y).Parsed? ==> Agree(b, e1, e2, Names(Parse(s, y).text))
    ensures Expand(Rewrite(s, b, y, Bare), y, e2) == Expand(s, y, e1)
  {
    RewriteIsRename(s, b, y);
    if Parse(s, y).Parsed? {
      RenameKeepsMeaning(Parse(s, y).text, b, e1, e2);
    }
  }

  /** With nothing bound the text is left alone, byte for byte. */
  lemma {:induction false} RewriteNothing(s: string, y: Syntax, q: Quote)
    ensures Rewrite(s, map[], y, q) == s
    decreases |s|
  {
    if s == [] {
    } else if IsEscapePair(s, y, q) {
      RewriteNothing(s[2..], y, q);
    } else {
      RewriteNothing(s[1..], y, Toggle(s[0], y, q));
    }
  }

  lemma RewriteCopiesQuote(rest: string, b: Bindings, y: Syntax)
    requires ValidSyntax(y) && y.raw
    ensures Rewrite("'" + rest, b, y, Bare) == "'" + Rewrite(rest, b, y, Bare)
  {
    assert ("'" + rest)[1..] == rest;
  }

  lemma RewriteKey(key: string, rest: string, b: Bindings, y: Syntax)
    requires ValidSyntax(y) && ValidBindings(b) && key in b && (rest == [] || (!IsNameChar(rest[0]) && rest[0] != '{'))
    ensures Rewrite("$" + (key + rest), b, y, Bare) == ("${" + b[key] + "}") + Rewrite(rest, b, y, Bare)
  {
    hide Rewrite, WordLen, NameLen;
    var s := "$" + (key + rest);
    assert s[1..] == key + rest && s[1] == key[0];
    NameLenOfName(key, rest);
    assert (key + rest)[..|key|] == key && (key + rest)[|key|..] == rest;
    RewriteBound(s, b, y, Bare, key + rest, |key|);
  }

  lemma {:induction false} RenamedNames(t: Text, b: Bindings)
    ensures forall n :: n in Names(Rename(t, b)) <==> exists m :: m in Names(t) && n == RenameName(m, b)
  {
    match t
    case End =>
    case Char(_, _, rest) => RenamedNames(rest, b);
    case Value(name, _, rest) => RenamedNames(rest, b);
    case Cond(name, _, _, _, word, rest) => RenamedNames(word, b); RenamedNames(rest, b);
  }

  /** No live reference to a bound name survives, unless that name is itself some reference's alias. */
  lemma NoBoundReferenceSurvives(s: string, b: Bindings, y: Syntax, k: string)
    requires ValidSyntax(y) && ValidBindings(b) && k in b
    requires Parse(s, y).Parsed?
    requires forall m | m in b :: b[m] != k
    ensures Parse(Rewrite(s, b, y, Bare), y).Parsed?
    ensures k !in Names(Parse(Rewrite(s, b, y, Bare), y).text)
  {
    RewriteIsRename(s, b, y);
    RenamedNames(Parse(s, y).text, b);
  }
}
