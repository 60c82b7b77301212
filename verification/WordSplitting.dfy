/**
 How the words of an `EXPOSE` come about: an instruction is expanded and then split at the blanks that stand, or come
 from a value that stands, outside quotes. Empty words go.
 */
module WordSplitting {
  import opened References
  import M = Materializer
  import R = Rewriter

  predicate IsBlank(c: char) {
    c == ' ' || c == '\t' || c == '\r' || c == '\n'
  }

  function Split(v: string): (outs: seq<Out>)
    ensures |outs| == |v|
  {
    seq(|v|, i requires 0 <= i < |v| => if IsBlank(v[i]) then Sep(v[i]) else Ch(v[i]))
  }

  /** A value's blanks split if its reference stands outside quotes. */
  function Pieces(v: string, bare: bool): seq<Out> {
    if bare then Split(v) else Chars(v)
  }

  function SpreadFirst(t: Text, env: Env): seq<Out>
    requires !t.End?
  {
    if t.Char? then [if t.sep && IsBlank(t.c) then Sep(t.c) else Ch(t.c)] else Pieces(Flat(FirstOut(t, env)), t.bare)
  }

  /** What a text comes to, the blanks that split it marked. */
  function Spread(t: Text, env: Env): seq<Out> {
    if t.End? then [] else SpreadFirst(t, env) + Spread(t.rest, env)
  }

  /** The words so marked; `word` is what has been read of the first. */
  function WordsFrom(outs: seq<Out>, word: string): seq<string>
    decreases |outs|
  {
    if outs == [] then Whole(word)
    else match outs[0]
      case Ch(c) => WordsFrom(outs[1..], word + [c])
      case Sep(_) => Whole(word) + WordsFrom(outs[1..], [])
  }

  /** A value as its only word, if it is one. */
  function Whole(v: string): seq<string> {
    if v == [] then [] else [v]
  }

  function Words(t: Text, env: Env): seq<string> {
    WordsFrom(Spread(t, env), [])
  }

  /** The code keeps an alias unquoted where there are several words, none of which holds a blank. */
  predicate StaysUnquoted(words: seq<string>) {
    |words| > 1 && forall i, k | 0 <= i < |words| && 0 <= k < |words[i]| :: !IsBlank(words[i][k])
  }

  /** Words, each ended by a mark. */
  function Listed(words: seq<string>): seq<Out> {
    if words == [] then [] else (Chars(words[0]) + [Sep(' ')]) + Listed(words[1..])
  }

  /** What the build reads in such an instruction. */
  function ReadWords(s: string, y: Syntax, env: Env): Expansion {
    var p := Parse(s, y);
    if p.Malformed? then Fails else Gives(Listed(Words(p.text, env)))
  }

  lemma {:induction false} ListedInjective(v: seq<string>, w: seq<string>)
    ensures Listed(v) == Listed(w) <==> v == w
    decreases |v|
  {
    if v != [] && w != [] {
      FirstListed(v, w);
      ListedInjective(v[1..], w[1..]);
      assert v == [v[0]] + v[1..] && w == [w[0]] + w[1..];
    }
  }

  lemma FirstListed(v: seq<string>, w: seq<string>)
    requires v != [] && w != []
    ensures Listed(v) == Listed(w) ==> v[0] == w[0] && Listed(v[1..]) == Listed(w[1..])
  {
    var m, n := |v[0]|, |w[0]|;
    assert Listed(v)[m] == Sep(' ') && Listed(w)[n] == Sep(' ');
    assert m < n ==> Listed(w)[m].Ch?;
    assert n < m ==> Listed(v)[n].Ch?;
    if Listed(v) == Listed(w) {
      forall k | 0 <= k < m ensures v[0][k] == w[0][k] {
        assert Listed(v)[k] == Ch(v[0][k]) && Listed(w)[k] == Ch(w[0][k]);
      }
      assert v[0] == w[0];
      assert Listed(v)[m + 1..] == Listed(v[1..]) && Listed(w)[m + 1..] == Listed(w[1..]);
    }
  }

  // ---- Marks and characters ----

  lemma {:induction false} FlatSpread(t: Text, env: Env)
    ensures Flat(Spread(t, env)) == Flat(Eval(t, env))
  {
    if !t.End? {
      hide Eval, Flat;
      FlatSpread(t.rest, env);
      FlatFirst(t, env);
      EvalStep(t, End, env);
      FlatJoin(FirstOut(t, env), Eval(t.rest, env));
      FlatJoin(SpreadFirst(t, env), Spread(t.rest, env));
    } else {
      hide Flat;
    }
  }

  lemma FlatFirst(t: Text, env: Env)
    requires !t.End?
    ensures Flat(SpreadFirst(t, env)) == Flat(FirstOut(t, env))
  {
  }

  lemma {:induction false} SpreadJoin(t: Text, u: Text, env: Env)
    ensures Spread(Join(t, u), env) == Spread(t, env) + Spread(u, env)
  {
    if !t.End? {
      hide Eval, SpreadFirst;
      SpreadJoin(t.rest, u, env);
      JoinFirst(t, u, env);
      Reassociate(SpreadFirst(t, env), Spread(t.rest, env), Spread(u, env));
    }
  }

  lemma JoinFirst(t: Text, u: Text, env: Env)
    requires !t.End?
    ensures !Join(t, u).End? && Join(t, u).rest == Join(t.rest, u)
    ensures SpreadFirst(Join(t, u), env) == SpreadFirst(t, env)
  {
  }

  /** How many characters the words hold. */
  function Held(outs: seq<Out>): nat {
    if outs == [] then 0 else (if outs[0].Ch? then 1 else 0) + Held(outs[1..])
  }

  function Total(words: seq<string>): nat {
    if words == [] then 0 else |words[0]| + Total(words[1..])
  }

  lemma {:induction false} HeldJoin(a: seq<Out>, b: seq<Out>)
    ensures Held(a + b) == Held(a) + Held(b)
    decreases |a|
  {
    if a == [] {
      assert a + b == b;
    } else {
      assert (a + b)[1..] == a[1..] + b && (a + b)[0] == a[0];
      HeldJoin(a[1..], b);
    }
  }

  lemma {:induction false} HeldBound(outs: seq<Out>)
    ensures Held(outs) <= |outs|
    ensures Held(outs) == |outs| <==> outs == Chars(Flat(outs))
    decreases |outs|
  {
    if outs == [] {
      assert Chars(Flat(outs)) == [];
    } else {
      var all, rest := Chars(Flat(outs)), outs[1..];
      HeldBound(rest);
      assert Flat(rest) == Flat(outs)[1..];
      assert all[1..] == Chars(Flat(rest));
      assert outs == [outs[0]] + rest && all == [all[0]] + all[1..];
      if rest == all[1..] && outs[0].Ch? {
        assert outs == all;
      }
    }
  }

  lemma {:induction false} TotalIsHeld(outs: seq<Out>, word: string)
    ensures Total(WordsFrom(outs, word)) == |word| + Held(outs)
    decreases |outs|
  {
    if outs != [] {
      match outs[0]
      case Ch(c) => TotalIsHeld(outs[1..], word + [c]);
      case Sep(_) =>
        TotalIsHeld(outs[1..], []);
        var rest := WordsFrom(outs[1..], []);
        if word == [] {
          assert [] + rest == rest;
        } else {
          assert ([word] + rest)[1..] == rest;
        }
    }
  }

  lemma {:induction false} WordsOfChars(v: string, word: string)
    ensures WordsFrom(Chars(v), word) == Whole(word + v)
    decreases |v|
  {
    if v == [] {
      assert word + v == word;
    } else {
      assert Chars(v)[0] == Ch(v[0]) && Chars(v)[1..] == Chars(v[1..]);
      WordsOfChars(v[1..], word + [v[0]]);
      assert (word + [v[0]]) + v[1..] == word + v;
    }
  }

  /** The value is the only word exactly when no blank of it splits. */
  predicate OneWord(t: Text, env: Env) {
    Words(t, env) == Whole(Flat(Eval(t, env)))
  }

  lemma OneWordIff(t: Text, env: Env)
    ensures OneWord(t, env) <==> Spread(t, env) == Chars(Flat(Eval(t, env)))
    ensures OneWord(t, env) <==> Held(Spread(t, env)) == |Flat(Eval(t, env))|
  {
    hide Eval, Spread, WordsFrom;
    var outs, v := Spread(t, env), Flat(Eval(t, env));
    FlatSpread(t, env);
    HeldBound(outs);
    TotalIsHeld(outs, []);
    assert [] + v == v;
    WordsOfChars(v, []);
  }

  // ---- Values that stay unquoted ----

  /** Marks stand at blanks. */
  ghost predicate MarksAreBlank(outs: seq<Out>) {
    forall i | 0 <= i < |outs| :: outs[i].Sep? ==> IsBlank(outs[i].c)
  }

  predicate BlankFree(word: string) {
    forall k | 0 <= k < |word| :: !IsBlank(word[k])
  }

  lemma {:induction false} SpreadMarks(t: Text, env: Env)
    ensures MarksAreBlank(Spread(t, env))
  {
    if !t.End? {
      SpreadMarks(t.rest, env);
    }
  }

  /** Words without blanks leave no blank unmarked. */
  lemma {:induction false} BlankFreeWords(outs: seq<Out>, word: string)
    requires forall i | 0 <= i < |WordsFrom(outs, word)| :: BlankFree(WordsFrom(outs, word)[i])
    ensures BlankFree(word) && forall i | 0 <= i < |outs| :: outs[i].Ch? ==> !IsBlank(outs[i].c)
    decreases |outs|
  {
    var words := WordsFrom(outs, word);
    if outs == [] {
      assert word != [] ==> BlankFree(words[0]);
    } else {
      match outs[0]
      case Ch(c) =>
        BlankFreeWords(outs[1..], word + [c]);
        assert (word + [c])[|word|] == c && forall k | 0 <= k < |word| :: (word + [c])[k] == word[k];
        assert forall i | 1 <= i < |outs| :: outs[i] == outs[1..][i - 1];
      case Sep(_) =>
        var rest := WordsFrom(outs[1..], []);
        assert words == Whole(word) + rest;
        forall i | 0 <= i < |rest| ensures BlankFree(rest[i]) {
          assert rest[i] == words[|Whole(word)| + i];
        }
        assert word != [] ==> BlankFree(words[0]);
        BlankFreeWords(outs[1..], []);
        assert forall i | 1 <= i < |outs| :: outs[i] == outs[1..][i - 1];
    }
  }

  /** So an unquoted alias splits where its word did. */
  lemma UnquotedSplits(t: Text, env: Env)
    requires StaysUnquoted(Words(t, env))
    ensures Spread(t, env) == Split(Flat(Eval(t, env)))
  {
    hide Eval, Spread, WordsFrom;
    var outs, v := Spread(t, env), Flat(Eval(t, env));
    FlatSpread(t, env);
    SpreadMarks(t, env);
    forall i | 0 <= i < |WordsFrom(outs, [])| ensures BlankFree(WordsFrom(outs, [])[i]) {
    }
    BlankFreeWords(outs, []);
    assert |outs| == |v|;
    forall i | 0 <= i < |outs| ensures outs[i] == Split(v)[i] {
      assert v[i] == outs[i].c;
    }
  }

  lemma {:induction false} NoBlankHeld(outs: seq<Out>, word: string)
    requires BlankFree(word) && forall i | 0 <= i < |outs| :: outs[i].Ch? ==> !IsBlank(outs[i].c)
    ensures forall i | 0 <= i < |WordsFrom(outs, word)| :: BlankFree(WordsFrom(outs, word)[i])
    decreases |outs|
  {
    if outs != [] {
      match outs[0]
      case Ch(c) => NoBlankHeld(outs[1..], word + [c]);
      case Sep(_) => NoBlankHeld(outs[1..], []);
    }
  }

  /** The words of an unquoted value hold no blank, so its alias is unquoted as soon as there are several. */
  lemma SplitStaysUnquotedIff(v: string)
    ensures StaysUnquoted(WordsFrom(Split(v), [])) <==> |WordsFrom(Split(v), [])| > 1
  {
    hide WordsFrom;
    var words := WordsFrom(Split(v), []);
    NoBlankHeld(Split(v), []);
    forall i, k | 0 <= i < |words| && 0 <= k < |words[i]| ensures !IsBlank(words[i][k]) {
      assert BlankFree(words[i]);
    }
  }

  // ---- Reading renamed and replaced trees ----

  lemma {:induction false} SpreadRenamed(t: Text, b: R.Bindings, e1: Env, e2: Env)
    requires R.Agree(b, e1, e2, Names(t))
    ensures Spread(R.Rename(t, b), e2) == Spread(t, e1)
  {
    if !t.End? {
      hide Eval, Pieces;
      FirstRenamed(t, b, e1, e2);
      SpreadRenamed(t.rest, b, e1, e2);
    }
  }

  lemma FirstRenamed(t: Text, b: R.Bindings, e1: Env, e2: Env)
    requires !t.End? && R.Agree(b, e1, e2, Names(t))
    ensures var u := R.Rename(t, b);
            && !u.End? && u.rest == R.Rename(t.rest, b) && SpreadFirst(u, e2) == SpreadFirst(t, e1)
            && R.Agree(b, e1, e2, Names(t.rest))
  {
    match t
    case Char(_, _, _) =>
    case Value(name, _, _) => assert SameValue(name, e1, R.RenameName(name, b), e2);
    case Cond(name, _, _, _, word, _) =>
      assert SameValue(name, e1, R.RenameName(name, b), e2);
      R.RenameKeepsMeaning(word, b, e1, e2);
  }

  lemma RewriteKeepsWords(s: string, b: R.Bindings, y: Syntax, e1: Env, e2: Env)
    requires ValidSyntax(y) && R.ValidBindings(b)
    requires Parse(s, y).Parsed? ==> R.Agree(b, e1, e2, Names(Parse(s, y).text))
    ensures ReadWords(R.Rewrite(s, b, y, Bare), y, e2) == ReadWords(s, y, e1)
  {
    hide ParseTo, R.Rewrite, Spread;
    R.RewriteIsRename(s, b, y);
    if Parse(s, y).Parsed? {
      SpreadRenamed(Parse(s, y).text, b, e1, e2);
    }
  }

  lemma {:induction false} SpreadDependsOnNames(t: Text, e1: Env, e2: Env)
    requires forall n | n in Names(t) :: SameValue(n, e1, n, e2)
    ensures Spread(t, e1) == Spread(t, e2)
  {
    if !t.End? {
      hide Eval, Pieces;
      FirstDependsOnNames(t, e1, e2);
      SpreadDependsOnNames(t.rest, e1, e2);
    }
  }

  lemma FirstDependsOnNames(t: Text, e1: Env, e2: Env)
    requires !t.End? && forall n | n in Names(t) :: SameValue(n, e1, n, e2)
    ensures FirstOut(t, e1) == FirstOut(t, e2) && Names(t.rest) <= Names(t)
  {
    match t
    case Char(_, _, _) =>
    case Value(name, _, _) => assert SameValue(name, e1, name, e2);
    case Cond(name, _, _, _, word, _) =>
      assert SameValue(name, e1, name, e2);
      EvalDependsOnNames(word, e1, e2);
  }

  lemma WordsDependOnNames(s: string, y: Syntax, e1: Env, e2: Env)
    requires Parse(s, y).Parsed? ==> forall n | n in Names(Parse(s, y).text) :: SameValue(n, e1, n, e2)
    ensures ReadWords(s, y, e1) == ReadWords(s, y, e2)
  {
    hide ParseTo, Spread, SameValue;
    if Parse(s, y).Parsed? {
      SpreadDependsOnNames(Parse(s, y).text, e1, e2);
    }
  }

  /** Every quoted alias stands for a word whose value, if any, is its only word. */
  predicate NothingJoined(r: Text, defs: M.Defs, env: Env) {
    match r
    case End => true
    case Char(_, _, rest) => NothingJoined(rest, defs, env)
    case Value(name, bare, rest) => (name in defs && !bare ==> OneWord(defs[name], env))
        && NothingJoined(rest, defs, env)
    case Cond(_, _, _, _, _, rest) => NothingJoined(rest, defs, env)
  }

  /** Every unquoted alias stands for a word that splits where its value does. */
  ghost predicate UnquotedRightly(r: Text, defs: M.Defs, env: Env) {
    match r
    case End => true
    case Char(_, _, rest) => UnquotedRightly(rest, defs, env)
    case Value(name, bare, rest) =>
      && (name in defs && bare ==> Spread(defs[name], env) == Split(Flat(Eval(defs[name], env))))
      && UnquotedRightly(rest, defs, env)
    case Cond(_, _, _, _, _, rest) => UnquotedRightly(rest, defs, env)
  }

  lemma {:induction false} NothingToJoin(r: Text, env: Env)
    ensures NothingJoined(r, map[], env)
  {
    if !r.End? {
      NothingToJoin(r.rest, env);
    }
  }

  lemma SameSpreadFirst(r: Text, defs: M.Defs, env: Env)
    requires M.Holds(defs, env) && !r.End? && !(r.Value? && r.name in defs)
    ensures var t := M.Unfold(r, defs);
            !t.End? && t.rest == M.Unfold(r.rest, defs) && SpreadFirst(t, env) == SpreadFirst(r, env)
  {
    hide M.Holds, Pieces, Flat;
    if r.Cond? {
      M.InnerHolds(defs, env);
      M.UnfoldKeepsMeaning(r.word, M.Inner(defs), env);
      M.UnfoldFirst(r, defs, env);
    }
  }

  lemma AliasSpread(r: Text, defs: M.Defs, env: Env)
    requires r.Value? && r.name in defs && M.Holds(defs, env)
    ensures var d, v := defs[r.name], Flat(Eval(defs[r.name], env));
            && Spread(M.Unfold(r, defs), env) == Spread(d, env) + Spread(M.Unfold(r.rest, defs), env)
            && Spread(r, env) == Pieces(v, r.bare) + Spread(r.rest, env)
  {
    hide Pieces, Eval;
    SpreadJoin(defs[r.name], M.Unfold(r.rest, defs), env);
    M.FlatChars(env[r.name]);
  }

  lemma {:induction false} SpreadsCompare(r: Text, defs: M.Defs, env: Env)
    requires M.Holds(defs, env) && UnquotedRightly(r, defs, env)
    ensures Held(Spread(M.Unfold(r, defs), env)) <= Held(Spread(r, env))
    ensures NothingJoined(r, defs, env) ==> Spread(M.Unfold(r, defs), env) == Spread(r, env)
    ensures !NothingJoined(r, defs, env) ==> Held(Spread(M.Unfold(r, defs), env)) < Held(Spread(r, env))
    decreases r
  {
    if !r.End? {
      hide Eval, Spread, M.Unfold, M.Holds, OneWord, SpreadFirst, Split, Chars, Flat;
      SpreadsCompare(r.rest, defs, env);
      SpreadStep(r, env);
      if r.Value? && r.name in defs {
        AliasSpread(r, defs, env);
        var d, v := defs[r.name], Flat(Eval(defs[r.name], env));
        HeldJoin(Spread(d, env), Spread(M.Unfold(r.rest, defs), env));
        HeldJoin(Pieces(v, r.bare), Spread(r.rest, env));
        OneWordIff(d, env);
        SpreadHeld(d, env, v);
      } else {
        SameSpreadFirst(r, defs, env);
        SpreadStep(M.Unfold(r, defs), env);
        HeldJoin(SpreadFirst(r, env), Spread(M.Unfold(r.rest, defs), env));
        HeldJoin(SpreadFirst(r, env), Spread(r.rest, env));
      }
    }
  }

  lemma SpreadStep(t: Text, env: Env)
    requires !t.End?
    ensures Spread(t, env) == SpreadFirst(t, env) + Spread(t.rest, env)
  {
  }

  lemma SpreadHeld(d: Text, env: Env, v: string)
    requires v == Flat(Eval(d, env))
    ensures Held(Chars(v)) == |v| && Held(Spread(d, env)) <= |v|
  {
    hide Eval, Spread;
    FlatSpread(d, env);
    HeldBound(Spread(d, env));
    HeldBound(Chars(v));
    M.FlatChars(v);
  }

  /**
   Main result: with words replaced by aliases that hold their values, an instruction comes to the words it came to if
   and only if every word whose alias is quoted has its value as its only word, or comes to nothing.
   */
  lemma WordsAlikeIff(r: Text, defs: M.Defs, env: Env)
    requires M.Holds(defs, env) && UnquotedRightly(r, defs, env)
    ensures Words(M.Unfold(r, defs), env) == Words(r, env) <==> NothingJoined(r, defs, env)
  {
    hide Eval, Spread, M.Unfold, M.Holds, OneWord, WordsFrom, UnquotedRightly, NothingJoined;
    SpreadsCompare(r, defs, env);
    TotalIsHeld(Spread(M.Unfold(r, defs), env), []);
    TotalIsHeld(Spread(r, env), []);
  }
}
