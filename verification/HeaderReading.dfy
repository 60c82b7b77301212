/**
 How an instruction made of `key=value` words is read: which of the separators outside quotes end a word or a key, and
 which belong to what is written. The words are told apart before anything is expanded, so the reading is a marking of
 the syntax tree: `Settle` keeps the mark of exactly the separators that the reading notices.
 */
module HeaderReading {
  import opened References
  import M = Materializer
  import R = Rewriter

  /**
   Where in an instruction the reader is. `started` says that something of the keyword, key or value has been seen. An
   instruction read as a `Whole` notices no separator. After `ENV` or `LABEL`, a first word without `=` takes all that
   follows as its value, in the form `ENV key value`.
   */
  datatype Shape =
    | Whole
    | InKeyword(started: bool, legacy: bool)
    | InFirst(started: bool)
    | InKey(started: bool)
    | InValue
    | InLegacy(started: bool)

  /** The separator `c` ends something here. */
  predicate Notices(h: Shape, c: char) {
    match h
    case Whole => false
    case InKeyword(_, _) => c != '='
    case InFirst(_) => true
    case InKey(_) => true
    case InValue => c != '='
    case InLegacy(started) => !started && c != '='
  }

  /** After a separator that was noticed. */
  function After(h: Shape, c: char): Shape {
    match h
    case Whole => Whole
    case InKeyword(started, legacy) => if !started then h else if legacy then InFirst(false) else InKey(false)
    case InFirst(started) => if c == '=' then InValue else if started then InLegacy(false) else h
    case InKey(_) => if c == '=' then InValue else InKey(false)
    case InValue => InKey(false)
    case InLegacy(_) => h
  }

  /** After anything else. */
  function AfterPiece(h: Shape): Shape {
    match h
    case InKeyword(_, legacy) => InKeyword(true, legacy)
    case InFirst(_) => InFirst(true)
    case InKey(_) => InKey(true)
    case InLegacy(_) => InLegacy(true)
    case _ => h
  }

  /** The blanks between a legacy key and its value are read as `=`. */
  function Noted(h: Shape, c: char): char {
    if h == InFirst(true) || h.InLegacy? then '=' else c
  }

  function Settle(t: Text, h: Shape): Text {
    match t
    case End => End
    case Char(c, sep, rest) =>
      if sep && Notices(h, c) then Char(Noted(h, c), true, Settle(rest, After(h, c)))
      else Char(c, false, Settle(rest, AfterPiece(h)))
    case Value(name, _, rest) => Value(name, false, Settle(rest, AfterPiece(h)))
    case Cond(name, nullUnset, alternate, _, word, rest) =>
      Cond(name, nullUnset, alternate, false, Unmark(word), Settle(rest, AfterPiece(h)))
  }

  /** What a reader starting at `h` gets from a text: its words, with the separators that part them and their keys. */
  function Read(s: string, y: Syntax, h: Shape, env: Env): Expansion {
    var p := Parse(s, y);
    if p.Malformed? then Fails else Gives(Eval(Settle(p.text, h), env))
  }

  // ---- `key=value` words ----

  /** The assignments of what was read: the word read so far is `key`, or `key=value` once `inValue`. */
  function Assign(outs: seq<Out>, key: string, inValue: bool, value: string): map<string, string>
    decreases |outs|
  {
    if outs == [] then Pair(key, inValue, value)
    else match outs[0]
      case Ch(c) =>
        if inValue then Assign(outs[1..], key, true, value + [c]) else Assign(outs[1..], key + [c], false, [])
      case Sep(c) =>
        if c != '=' then Pair(key, inValue, value) + Assign(outs[1..], [], false, [])
        else Assign(outs[1..], key, true, value)
  }

  function Pair(key: string, inValue: bool, value: string): map<string, string> {
    if inValue then map[key := value] else map[]
  }

  function Assignments(outs: seq<Out>): map<string, string> {
    Assign(outs, [], false, [])
  }

  lemma {:induction false} AssignValue(v: string, key: string, value: string)
    ensures Assign(Chars(v), key, true, value) == map[key := value + v]
    decreases |v|
  {
    if v == [] {
      assert value + v == value;
    } else {
      assert Chars(v)[1..] == Chars(v[1..]) && Chars(v)[0] == Ch(v[0]);
      AssignValue(v[1..], key, value + [v[0]]);
      assert (value + [v[0]]) + v[1..] == value + v;
    }
  }

  lemma {:induction false} AssignPair(k: string, v: string, key: string)
    ensures Assign(Chars(k) + ([Sep('=')] + Chars(v)), key, false, []) == map[key + k := v]
    decreases |k|
  {
    var outs := Chars(k) + ([Sep('=')] + Chars(v));
    if k == [] {
      assert outs == [Sep('=')] + Chars(v) && outs[1..] == Chars(v);
      AssignValue(v, key, []);
      assert key + k == key && [] + v == v;
    } else {
      assert outs[0] == Ch(k[0]) && outs[1..] == Chars(k[1..]) + ([Sep('=')] + Chars(v));
      AssignPair(k[1..], v, key + [k[0]]);
      assert (key + [k[0]]) + k[1..] == key + k;
    }
  }

  // ---- Reading renamed trees ----

  lemma {:induction false} UnmarkRename(t: Text, b: R.Bindings)
    ensures Unmark(R.Rename(t, b)) == R.Rename(Unmark(t), b)
  {
    match t
    case End =>
    case Char(_, _, rest) => UnmarkRename(rest, b);
    case Value(_, _, rest) => UnmarkRename(rest, b);
    case Cond(_, _, _, _, word, rest) => UnmarkRename(word, b); UnmarkRename(rest, b);
  }

  /** Renaming changes neither what is noticed nor anything but the names. */
  lemma {:induction false} SettleRename(t: Text, h: Shape, b: R.Bindings)
    ensures Settle(R.Rename(t, b), h) == R.Rename(Settle(t, h), b)
    decreases t
  {
    hide Notices, After, AfterPiece, Noted;
    match t
    case End =>
    case Char(c, sep, rest) => SettleRename(rest, if sep && Notices(h, c) then After(h, c) else AfterPiece(h), b);
    case Value(_, _, rest) => SettleRename(rest, AfterPiece(h), b);
    case Cond(_, _, _, _, word, rest) => UnmarkRename(word, b); SettleRename(rest, AfterPiece(h), b);
  }

  lemma {:induction false} SettleNames(t: Text, h: Shape)
    ensures Names(Settle(t, h)) == Names(t)
    decreases t
  {
    hide Notices, After, AfterPiece, Noted;
    match t
    case End =>
    case Char(c, sep, rest) => SettleNames(rest, if sep && Notices(h, c) then After(h, c) else AfterPiece(h));
    case Value(_, _, rest) => SettleNames(rest, AfterPiece(h));
    case Cond(_, _, _, _, word, rest) => UnmarkHasNone(word); SettleNames(rest, AfterPiece(h));
  }

  /** A rewritten text is read as the text is. */
  lemma RewriteKeepsReading(s: string, b: R.Bindings, y: Syntax, h: Shape, e1: Env, e2: Env)
    requires ValidSyntax(y) && R.ValidBindings(b)
    requires Parse(s, y).Parsed? ==> R.Agree(b, e1, e2, Names(Parse(s, y).text))
    ensures Read(R.Rewrite(s, b, y, Bare), y, h, e2) == Read(s, y, h, e1)
  {
    hide ParseTo, R.Rewrite, Settle;
    R.RewriteIsRename(s, b, y);
    if Parse(s, y).Parsed? {
      var t := Parse(s, y).text;
      SettleRename(t, h, b);
      SettleNames(t, h);
      R.RenameKeepsMeaning(Settle(t, h), b, e1, e2);
    }
  }

  lemma ReadDependsOnNames(s: string, y: Syntax, h: Shape, e1: Env, e2: Env)
    requires Parse(s, y).Parsed? ==> forall n | n in Names(Parse(s, y).text) :: SameValue(n, e1, n, e2)
    ensures Read(s, y, h, e1) == Read(s, y, h, e2)
  {
    hide ParseTo, Settle, SameValue;
    if Parse(s, y).Parsed? {
      SettleNames(Parse(s, y).text, h);
      EvalDependsOnNames(Settle(Parse(s, y).text, h), e1, e2);
    }
  }

  // ---- Reading replaced words ----

  function ShapeAfter(t: Text, h: Shape): Shape {
    match t
    case End => h
    case Char(c, sep, rest) => ShapeAfter(rest, if sep && Notices(h, c) then After(h, c) else AfterPiece(h))
    case Value(_, _, rest) => ShapeAfter(rest, AfterPiece(h))
    case Cond(_, _, _, _, _, rest) => ShapeAfter(rest, AfterPiece(h))
  }

  lemma {:induction false} SettleJoin(t: Text, u: Text, h: Shape)
    ensures Settle(Join(t, u), h) == Join(Settle(t, h), Settle(u, ShapeAfter(t, h)))
    decreases t
  {
    hide Notices, After, AfterPiece, Noted;
    match t
    case End =>
    case Char(c, sep, rest) => SettleJoin(rest, u, if sep && Notices(h, c) then After(h, c) else AfterPiece(h));
    case Value(_, _, rest) => SettleJoin(rest, u, AfterPiece(h));
    case Cond(_, _, _, _, _, rest) => SettleJoin(rest, u, AfterPiece(h));
  }

  /**
   No replaced word holds a separator that is noticed where the word stands. `r` is the tree of the header with the
   words replaced.
   */
  predicate NothingSwallowed(r: Text, defs: M.Defs, h: Shape) {
    match r
    case End => true
    case Char(c, sep, rest) => NothingSwallowed(rest, defs, if sep && Notices(h, c) then After(h, c) else AfterPiece(h))
    case Value(name, _, rest) =>
      (name in defs ==> NoSeparators(Settle(defs[name], h))) && NothingSwallowed(rest, defs, AfterPiece(h))
    case Cond(_, _, _, _, _, rest) => NothingSwallowed(rest, defs, AfterPiece(h))
  }

  /** A text nothing of which is noticed reads as it would without marks, and leaves the reader amid what it was in. */
  lemma {:induction false} UnnoticedIsPlain(t: Text, h: Shape)
    requires NoSeparators(Settle(t, h))
    ensures Settle(t, h) == Unmark(t) && (!t.End? ==> ShapeAfter(t, h) == AfterPiece(h))
    decreases t
  {
    hide Notices, After, Noted;
    if !t.End? {
      assert AfterPiece(AfterPiece(h)) == AfterPiece(h);
      UnnoticedIsPlain(t.rest, AfterPiece(h));
    }
  }

  lemma UnmarkedEval(t: Text, env: Env)
    ensures Eval(Unmark(t), env) == Chars(Flat(Eval(t, env)))
  {
    hide Flat, Eval, Chars;
    UnmarkHasNone(t);
    EvalPlain(Unmark(t), env);
    EvalUnmark(t, env);
  }

  lemma SettleStep(t: Text, h: Shape)
    requires !t.End?
    ensures var u := Settle(t, h);
            !u.End? && u.rest
            == Settle(t.rest, if t.Char? && t.sep && Notices(h, t.c) then After(h, t.c) else AfterPiece(h))
  {
  }

  lemma FirstSettled(t: Text, h: Shape, env: Env)
    requires !t.End?
    ensures |FirstOut(Settle(t, h), env)| == |FirstOut(t, env)|
  {
    if t.Cond? {
      EvalUnmark(t.word, env);
      assert |Flat(Eval(t.word, env))| == |Flat(Eval(Unmark(t.word), env))|;
    }
  }

  lemma {:induction false} SettleKeepsLength(t: Text, h: Shape, env: Env)
    ensures |Eval(Settle(t, h), env)| == |Eval(t, env)|
    decreases t
  {
    if !t.End? {
      hide Eval, Settle, FirstOut, Notices, After, AfterPiece;
      SettleStep(t, h);
      FirstSettled(t, h, env);
      EvalStep(t, End, env);
      EvalStep(Settle(t, h), End, env);
      SettleKeepsLength(t.rest, if t.Char? && t.sep && Notices(h, t.c) then After(h, t.c) else AfterPiece(h), env);
    }
  }

  /** Where something is noticed, there is a mark. */
  lemma {:induction false} NoticedIsMarked(t: Text, h: Shape, env: Env) returns (i: nat)
    requires !NoSeparators(Settle(t, h))
    ensures i < |Eval(Settle(t, h), env)| && Eval(Settle(t, h), env)[i].Sep?
    decreases t
  {
    hide Notices, After, AfterPiece, Noted;
    if t.Char? && t.sep && Notices(h, t.c) {
      i := 0;
    } else {
      if t.Cond? {
        UnmarkHasNone(t.word);
      }
      var j := NoticedIsMarked(t.rest, AfterPiece(h), env);
      var u := Settle(t, h);
      EvalStep(u, End, env);
      i := |FirstOut(u, env)| + j;
    }
  }

  ghost predicate NoneEmpty(defs: M.Defs) {
    forall a | a in defs :: !defs[a].End?
  }

  lemma SameFirst(r: Text, defs: M.Defs, h: Shape, env: Env)
    requires M.Holds(defs, env) && !r.End? && !(r.Value? && r.name in defs)
    ensures var t, u := Settle(M.Unfold(r, defs), h), Settle(r, h);
            && !M.Unfold(r, defs).End? && M.Unfold(r, defs).rest == M.Unfold(r.rest, defs)
            && !t.End? && !u.End? && FirstOut(t, env) == FirstOut(u, env)
            && var g := if r.Char? && r.sep && Notices(h, r.c) then After(h, r.c) else AfterPiece(h);
               t.rest == Settle(M.Unfold(r.rest, defs), g) && u.rest == Settle(r.rest, g)
  {
    hide Notices, After, AfterPiece, Noted, M.Holds, Chars, Flat;
    if r.Cond? {
      M.InnerHolds(defs, env);
      M.UnfoldKeepsMeaning(r.word, M.Inner(defs), env);
      UnmarkedEval(r.word, env);
      UnmarkedEval(M.Unfold(r.word, M.Inner(defs)), env);
    }
  }

  lemma SameTail<T>(a: seq<T>, b: seq<T>, c: seq<T>)
    ensures a + b == a + c <==> b == c
  {
    assert (a + b)[|a|..] == b && (a + c)[|a|..] == c;
  }

  /** The word in an alias's place: read alike if nothing of it is noticed, and never else. */
  lemma WordReadIff(d: Text, v: string, x: seq<Out>, z: seq<Out>, h: Shape, env: Env)
    requires v == Flat(Eval(d, env))
    ensures NoSeparators(Settle(d, h)) ==> Eval(Settle(d, h), env) == Chars(v)
    ensures !NoSeparators(Settle(d, h)) ==> Eval(Settle(d, h), env) + x != Chars(v) + z
  {
    hide Settle, Eval, NoSeparators;
    if NoSeparators(Settle(d, h)) {
      UnnoticedIsPlain(d, h);
      UnmarkedEval(d, env);
    } else {
      var i := NoticedIsMarked(d, h, env);
      SettleKeepsLength(d, h, env);
      assert (Eval(Settle(d, h), env) + x)[i].Sep? && (Chars(v) + z)[i].Ch?;
    }
  }

  /**
   Main result: where each alias holds its word's value, a tree with words replaced is read as the tree with the words
   put back, if and only if no replaced word holds a separator that is noticed where it stands.
   */
  lemma {:induction false} ReadsAlikeIff(r: Text, defs: M.Defs, h: Shape, env: Env)
    requires M.Holds(defs, env) && NoneEmpty(defs)
    ensures Eval(Settle(M.Unfold(r, defs), h), env) == Eval(Settle(r, h), env) <==> NothingSwallowed(r, defs, h)
    decreases r
  {
    hide Eval, Settle, M.Unfold, FirstOut, Notices, After, AfterPiece, M.Holds, NoneEmpty, NothingSwallowed,
        NoSeparators;
    var t, u := Settle(M.Unfold(r, defs), h), Settle(r, h);
    SwallowedStep(r, defs, h);
    if r.End? {
    } else if r.Value? && r.name in defs {
      var d := defs[r.name];
      AliasParts(r, defs, h, env);
      var g := AfterPiece(h);
      EvalJoin(Settle(d, h), Settle(M.Unfold(r.rest, defs), ShapeAfter(d, h)), env);
      var x, z := Eval(Settle(M.Unfold(r.rest, defs), ShapeAfter(d, h)), env), Eval(Settle(r.rest, g), env);
      WordReadIff(d, env[r.name], x, z, h, env);
      if NoSeparators(Settle(d, h)) {
        UnnoticedIsPlain(d, h);
        ReadsAlikeIff(r.rest, defs, g, env);
        SameTail(Chars(env[r.name]), x, z);
      }
    } else {
      SameFirst(r, defs, h, env);
      EvalStep(t, End, env);
      EvalStep(u, End, env);
      var g := if r.Char? && r.sep && Notices(h, r.c) then After(h, r.c) else AfterPiece(h);
      ReadsAlikeIff(r.rest, defs, g, env);
      SameTail(FirstOut(t, env), Eval(t.rest, env), Eval(u.rest, env));
    }
  }

  lemma SwallowedStep(r: Text, defs: M.Defs, h: Shape)
    ensures r.End? ==> NothingSwallowed(r, defs, h) && M.Unfold(r, defs) == r
    ensures !r.End? ==>
              (NothingSwallowed(r, defs, h) <==>
                && (r.Value? && r.name in defs ==> NoSeparators(Settle(defs[r.name], h)))
                && NothingSwallowed(r.rest, defs,
                                    if r.Char? && r.sep && Notices(h, r.c) then After(h, r.c) else AfterPiece(h)))
  {
    hide Settle, Notices, After, AfterPiece, NoSeparators;
  }

  lemma AliasParts(r: Text, defs: M.Defs, h: Shape, env: Env)
    requires r.Value? && r.name in defs && M.Holds(defs, env) && NoneEmpty(defs)
    ensures var d := defs[r.name];
            && r.name in env && env[r.name] == Flat(Eval(d, env)) && !d.End?
            && Settle(M.Unfold(r, defs), h)
               == Join(Settle(d, h), Settle(M.Unfold(r.rest, defs), ShapeAfter(d, h)))
            && Eval(Settle(r, h), env) == Chars(env[r.name]) + Eval(Settle(r.rest, AfterPiece(h)), env)
  {
    SettleJoin(defs[r.name], M.Unfold(r.rest, defs), h);
  }

  /** With no separator told apart, none is swallowed. */
  lemma {:induction false} UnmarkedSwallowsNothing(r: Text, defs: M.Defs, h: Shape)
    requires forall a | a in defs :: NoSeparators(defs[a])
    ensures NothingSwallowed(r, defs, h)
    decreases r
  {
    hide Notices, After, AfterPiece;
    match r
    case End =>
    case Char(c, sep, rest) =>
      UnmarkedSwallowsNothing(rest, defs, if sep && Notices(h, c) then After(h, c) else AfterPiece(h));
    case Value(name, _, rest) =>
      if name in defs {
        PlainSettles(defs[name], h);
      }
      UnmarkedSwallowsNothing(rest, defs, AfterPiece(h));
    case Cond(_, _, _, _, _, rest) => UnmarkedSwallowsNothing(rest, defs, AfterPiece(h));
  }

  lemma {:induction false} PlainSettles(t: Text, h: Shape)
    requires NoSeparators(t)
    ensures NoSeparators(Settle(t, h))
    decreases t
  {
    hide Notices, After, AfterPiece, Noted;
    if !t.End? {
      PlainSettles(t.rest, AfterPiece(h));
      if t.Cond? {
        UnmarkHasNone(t.word);
      }
    }
  }

  /** An instruction read as a whole notices nothing, so no word of it is swallowed. */
  lemma {:induction false} WholeSwallowsNothing(r: Text, defs: M.Defs)
    ensures NothingSwallowed(r, defs, Whole)
    decreases r
  {
    if !r.End? {
      WholeSwallowsNothing(r.rest, defs);
      if r.Value? && r.name in defs {
        WholeNoticesNothing(defs[r.name]);
      }
    }
  }

  lemma {:induction false} WholeNoticesNothing(t: Text)
    ensures NoSeparators(Settle(t, Whole))
  {
    if !t.End? {
      WholeNoticesNothing(t.rest);
      if t.Cond? {
        UnmarkHasNone(t.word);
      }
    }
  }

  /** Every separator outside quotes and braces is an `=`. */
  predicate OnlyEquals(t: Text) {
    match t
    case End => true
    case Char(c, sep, rest) => (sep ==> c == '=') && OnlyEquals(rest)
    case Value(_, _, rest) => OnlyEquals(rest)
    case Cond(_, _, _, _, _, rest) => OnlyEquals(rest)
  }

  /** In a value an `=` is a character like any other: a word with no unquoted blank is never swallowed there. */
  lemma {:induction false} ValueKeepsEquals(t: Text)
    requires OnlyEquals(t)
    ensures NoSeparators(Settle(t, InValue))
  {
    if !t.End? {
      ValueKeepsEquals(t.rest);
      if t.Cond? {
        UnmarkHasNone(t.word);
      }
    }
  }

  /** In a legacy value every separator is a character. */
  lemma {:induction false} LegacyKeepsAll(t: Text)
    ensures NoSeparators(Settle(t, InLegacy(true)))
  {
    if !t.End? {
      LegacyKeepsAll(t.rest);
      if t.Cond? {
        UnmarkHasNone(t.word);
      }
    }
  }

  /** In a key every separator is noticed. */
  lemma {:induction false} KeySwallowsIff(t: Text, started: bool)
    ensures NoSeparators(Settle(t, InKey(started))) <==> NoMarks(t)
  {
    if !t.End? {
      KeySwallowsIff(t.rest, true);
      if t.Cond? {
        UnmarkHasNone(t.word);
      }
    }
  }

  predicate NoMarks(t: Text) {
    match t
    case End => true
    case Char(_, sep, rest) => !sep && NoMarks(rest)
    case Value(_, _, rest) => NoMarks(rest)
    case Cond(_, _, _, _, _, rest) => NoMarks(rest)
  }

  // ---- What is assigned ----

  lemma {:induction false} LiteralSettles(k: string, h: Shape)
    ensures Settle(Literal(k), h) == Literal(k) && NoSeparators(Literal(k))
    decreases |k|
  {
    hide AfterPiece;
    if k != [] {
      LiteralSettles(k[1..], AfterPiece(h));
    }
  }

  /** A key, its separator and a value nothing of which is noticed. */
  lemma KeyAndValue(k: string, c: char, t: Text, h: Shape, g: Shape, env: Env)
    requires k != [] && AfterPiece(h) == g && Notices(g, c) && Noted(g, c) == '='
    requires NoSeparators(Settle(t, After(g, c)))
    ensures Eval(Settle(Join(Literal(k), Char(c, true, t)), h), env)
            == Chars(k) + ([Sep('=')] + Chars(Flat(Eval(t, env))))
  {
    hide Notices, After, AfterPiece, Noted, Flat, Chars;
    var rest := Char(c, true, t);
    LiteralSettles(k, h);
    UnnoticedIsPlain(Literal(k), h);
    SettleJoin(Literal(k), rest, h);
    UnnoticedIsPlain(t, After(g, c));
    UnmarkedEval(t, env);
    EvalJoin(Literal(k), Settle(rest, g), env);
    LiteralMeans(k, env);
  }

  /** `key=value`, in an `ENV`, `LABEL` or `ARG`: the key is given the value, in which a later `=` is a character. */
  lemma PairIsRead(k: string, t: Text, h: Shape, env: Env)
    requires k != [] && OnlyEquals(t) && (h == InFirst(false) || h == InKey(false))
    ensures Assignments(Eval(Settle(Join(Literal(k), Char('=', true, t)), h), env)) == map[k := Flat(Eval(t, env))]
  {
    hide Settle, Eval, Flat, Chars, Assign;
    ValueKeepsEquals(t);
    KeyAndValue(k, '=', t, h, AfterPiece(h), env);
    AssignPair(k, Flat(Eval(t, env)), []);
    assert [] + k == k;
  }

  /** `ENV key value`: the key is given all that follows, blanks and `=` included. */
  lemma LegacyIsRead(k: string, t: Text, env: Env)
    requires k != [] && !t.End? && (t.Char? && t.sep ==> t.c == '=')
    ensures Assignments(Eval(Settle(Join(Literal(k), Char(' ', true, t)), InFirst(false)), env))
            == map[k := Flat(Eval(t, env))]
  {
    hide Eval, Flat, Chars, Assign;
    LegacyKeepsAll(t.rest);
    if t.Cond? {
      UnmarkHasNone(t.word);
    }
    KeyAndValue(k, ' ', t, InFirst(false), InFirst(true), env);
    AssignPair(k, Flat(Eval(t, env)), []);
    assert [] + k == k;
  }
}
