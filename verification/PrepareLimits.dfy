/**
 Where the conditions of `PrepareMeaning` bite in flags, keys and mounts: texts on which the code does not keep the
 meaning, and for each kind exactly when it does.
 */
module PrepareLimits {
  import opened References
  import opened Prepare
  import opened DockerfileRuns
  import opened PrepareMeaning
  import M = Materializer
  import R = Rewriter
  import F = FlagRewriting
  import S = PrepareSecrets

  /** Inside single quotes everything is literal. */
  lemma {:induction false} ParseSingleQuoted(v: string, y: Syntax)
    requires !y.raw && '\'' !in v
    ensures ParseTo(v + "'", y, Single, Top) == Parsed(Literal(v), [], Bare)
  {
    if v == [] {
      assert v + "'" == "'";
      ParseSimple("'", y, Single, Top, Mark('\''));
    } else {
      assert v[0] in v;
      assert (v + "'")[1..] == v[1..] + "'";
      ParseSimple(v + "'", y, Single, Top, Token.Plain(v[0]));
      ParseSingleQuoted(v[1..], y);
    }
  }

  lemma QuotedMeans(v: string, y: Syntax, env: Env)
    requires ValidSyntax(y) && !y.raw && '\'' !in v
    ensures Expand("'" + (v + "'"), y, env) == Gives(Chars(v))
  {
    hide ParseTo;
    var s := "'" + (v + "'");
    assert s[1..] == v + "'";
    ParseSimple(s, y, Bare, Top, Mark('\''));
    ParseSingleQuoted(v, y);
    LiteralMeans(v, env);
  }

  /**
   A `RUN` flag is rewritten with quotes ordinary but expanded with quotes honoured: a single-quoted reference to
   a bound name means itself before, and the text of its alias after.
   */
  lemma QuotedFlagChangesMeaning(cfg: Config, key: string, b: R.Bindings, env: Env)
    requires ValidConfig(cfg) && R.ValidBindings(b) && key in b
    ensures Expand("'" + ("$" + (key + "'")), WordSyntax(cfg), env) == Gives(Chars("$" + key))
    ensures Expand(R.Rewrite("'" + ("$" + (key + "'")), b, FlagSyntax(), Bare), WordSyntax(cfg), env)
            == Gives(Chars("${" + b[key] + "}"))
    ensures Chars("$" + key) != Chars("${" + b[key] + "}")
  {
    hide ParseTo, R.Rewrite, WordLen, NameLen;
    var s, alias := "'" + ("$" + (key + "'")), b[key];
    var y := FlagSyntax();
    assert "$" + (key + "'") == ("$" + key) + "'";
    QuotedMeans("$" + key, WordSyntax(cfg), env);
    R.RewriteCopiesQuote("$" + (key + "'"), b, y);
    R.RewriteKey(key, "'", b, y);
    R.RewriteCopiesQuote("", b, y);
    R.RewriteHead("", b, y, Bare);
    assert "'" + "" == "'";
    assert R.Rewrite("'", b, y, Bare) == "'" + R.Rewrite("", b, y, Bare);
    assert R.Rewrite("'", b, y, Bare) == "'";
    assert R.Rewrite(s, b, y, Bare) == "'" + (("${" + alias + "}") + "'");
    QuotedMeans("${" + alias + "}", WordSyntax(cfg), env);
    assert Chars("$" + key)[1] == Ch(key[0]) && Chars("${" + alias + "}")[1] == Ch('{');
  }

  lemma AliasesAreLonger(needed: set<string>)
    ensures F.Longer(BindingsFor(needed))
  {
    forall k | k in needed ensures |KeyAlias(k)| > |k| {
      HexIsLonger(k);
    }
  }

  lemma {:induction false} HexIsLonger(s: string)
    ensures |Hex(s)| >= |s|
  {
    if s != [] {
      HexIsLonger(s[1..]);
    }
  }

  /** Well-formed flags without conditionals keep their meaning exactly when they are `PlainFlag`s. */
  lemma FlagMeansIff(cfg: Config, needed: set<string>, f: string, e1: Env, e2: Env)
    requires ValidConfig(cfg) && (forall k | k in needed :: ValidArgName(k)) && F.NoZero(f)
    requires F.Simple(Parse(f, WordSyntax(cfg)))
    requires R.Agree(BindingsFor(needed), e1, e2, Names(Parse(f, WordSyntax(cfg)).text))
    ensures Expand(R.Rewrite(f, BindingsFor(needed), FlagSyntax(), Bare), WordSyntax(cfg), e2)
            == Expand(f, WordSyntax(cfg), e1)
            <==> PlainFlag(cfg, f, needed)
  {
    hide ParseTo, R.Rewrite, F.Shielded, F.Longer;
    BindingsAreValid(cfg, needed);
    AliasesAreLonger(needed);
    F.FlagKeepsMeaningIff(f, BindingsFor(needed), WordSyntax(cfg), e1, e2);
  }

  // ---- The keys of an `ENV`, and the names of env mounts ----

  /** `${X}` names what `X` holds. */
  lemma ReferenceValue(cfg: Config, x: string, env: Env)
    requires ValidConfig(cfg) && ValidArgName(x)
    ensures var key := "${" + (x + ("}" + ""));
            Parse(key, WordSyntax(cfg)).Parsed? && KeyName(cfg, key, env) == Lookup(x, env)
  {
    hide ParseTo;
    M.AliasTokens(x, "", WordSyntax(cfg), Bare, Top);
    ParseLast("", WordSyntax(cfg), Bare, Top, Eot);
    assert Eval(Value(x, false, End), env) == Chars(Lookup(x, env));
    assert Flat(Chars(Lookup(x, env))) == Lookup(x, env);
  }

  lemma {:induction false} ParseName(p: string, rest: string, y: Syntax)
    requires ValidSyntax(y) && (forall k | 0 <= k < |p| :: IsNameChar(p[k]))
    ensures ParseTo(p + rest, y, Bare, Top) == JoinParsed(Literal(p), ParseTo(rest, y, Bare, Top))
  {
    hide ParseTo;
    if p == [] {
      assert p + rest == rest;
    } else {
      assert (p + rest)[1..] == p[1..] + rest && (p + rest)[0] == p[0];
      ParseSimple(p + rest, y, Bare, Top, Token.Plain(p[0]));
      ParseName(p[1..], rest, y);
    }
  }

  /** `P${X}` names `P` and then what `X` holds. */
  lemma PrefixedValue(cfg: Config, p: string, x: string, env: Env)
    requires ValidConfig(cfg) && ValidArgName(p) && ValidArgName(x)
    ensures var key := p + ("${" + (x + ("}" + "")));
            Parse(key, WordSyntax(cfg)).Parsed? && KeyName(cfg, key, env) == p + Lookup(x, env)
  {
    hide ParseTo, Eval;
    var y := WordSyntax(cfg);
    M.AliasTokens(x, "", y, Bare, Top);
    ParseLast("", y, Bare, Top, Eot);
    ParseName(p, "${" + (x + ("}" + "")), y);
    EvalJoin(Literal(p), Value(x, false, End), env);
    LiteralMeans(p, env);
    ReferenceOut(x, env);
    M.FlatChars(p);
    M.FlatChars(Lookup(x, env));
    FlatJoin(Chars(p), Chars(Lookup(x, env)));
  }

  lemma ReferenceOut(x: string, env: Env)
    ensures Eval(Value(x, false, End), env) == Chars(Lookup(x, env))
  {
  }

  lemma OverrideOne(cfg: Config, active: map<string, string>, key: string)
    requires Override(cfg, active, [key]).Ok?
    ensures Override(cfg, active, [key]).value == active - {KeyName(cfg, key, active)}
  {
    hide ParseTo, Eval;
    var left := active - {KeyName(cfg, key, active)};
    assert [key][1..] == [] && Override(cfg, left, []) == Ok(left);
  }

  lemma SameRemoval(active: map<string, string>, n: string, m: string)
    ensures active - {n} == active - {m} <==> n == m || (n !in active && m !in active)
  {
    if n in active && n != m {
      assert n !in active - {n} && n in active - {m};
    }
    if m in active && n != m {
      assert m !in active - {m} && m in active - {n};
    }
  }

  /**
   `Prepare` reads an `ENV` key among the active inputs alone. It drops the input that the `ENV` assigns, and no other,
   if and only if the key names there what it names in the build, `env`, or neither names an active input.
   */
  lemma KeyDroppedIff(cfg: Config, key: string, active: map<string, string>, env: Env)
    requires Override(cfg, active, [key]).Ok?
    ensures Override(cfg, active, [key]).value == active - {KeyName(cfg, key, env)} <==>
            NamedRight(cfg, key, active, env)
  {
    hide ParseTo, KeyName, Override;
    OverrideOne(cfg, active, key);
    SameRemoval(active, KeyName(cfg, key, active), KeyName(cfg, key, env));
  }

  lemma {:induction false} OverridePrefix(cfg: Config, active: map<string, string>, keys: seq<string>, i: nat)
    requires Override(cfg, active, keys).Ok? && i <= |keys|
    ensures Override(cfg, active, keys[..i]).Ok?
    decreases |keys|
  {
    hide Expand, Flat;
    if i > 0 {
      assert keys[..i][0] == keys[0] && keys[..i][1..] == keys[1..][..i - 1];
      var out := Expand(keys[0], WordSyntax(cfg), active).out;
      OverridePrefix(cfg, active - {Flat(out)}, keys[1..], i - 1);
    }
  }

  /** After the first `i` keys, exactly the names those keys assign are gone. */
  ghost predicate DroppedSoFar(cfg: Config, keys: seq<string>, active: map<string, string>, env: Env, i: nat)
    requires i <= |keys|
  {
    var left := Override(cfg, active, keys[..i]);
    left.Ok? && left.value == active - KeyNames(cfg, keys[..i], env)
  }

  /** Over all keys of an `ENV`: after each of them the right inputs are gone if and only if all of them agree. */
  lemma {:induction false} KeysDroppedIff(cfg: Config, keys: seq<string>, active: map<string, string>, env: Env)
    requires Override(cfg, active, keys).Ok?
    ensures KeysAgree(cfg, keys, active, env) <==>
            forall i | 0 <= i <= |keys| :: DroppedSoFar(cfg, keys, active, env, i)
    decreases |keys|
  {
    hide KeyName, Override, DroppedSoFar, NamedRight, Expand, Flat;
    NothingDropped(cfg, keys, active, env);
    if keys != [] {
      var next := active - {KeyName(cfg, keys[0], active)};
      FirstDropped(cfg, keys, active, env);
      KeysDroppedIff(cfg, keys[1..], next, env);
      if NamedRight(cfg, keys[0], active, env) {
        forall i | 1 <= i <= |keys|
          ensures DroppedSoFar(cfg, keys, active, env, i) <==> DroppedSoFar(cfg, keys[1..], next, env, i - 1)
        {
          DroppedShift(cfg, keys, active, env, i);
        }
        if forall i | 0 <= i <= |keys| :: DroppedSoFar(cfg, keys, active, env, i) {
          forall i | 0 <= i <= |keys| - 1 ensures DroppedSoFar(cfg, keys[1..], next, env, i) {
            assert DroppedSoFar(cfg, keys, active, env, i + 1);
          }
        }
      } else {
        assert !DroppedSoFar(cfg, keys, active, env, 1);
      }
    }
  }

  lemma NothingDropped(cfg: Config, keys: seq<string>, active: map<string, string>, env: Env)
    ensures DroppedSoFar(cfg, keys, active, env, 0)
  {
    hide KeyName;
    assert keys[..0] == [] && KeyNames(cfg, [], env) == {};
    assert active - {} == active;
  }

  /** The first key decides the first turn, and what the others start from. */
  lemma FirstDropped(cfg: Config, keys: seq<string>, active: map<string, string>, env: Env)
    requires keys != [] && Override(cfg, active, keys).Ok?
    ensures Override(cfg, active - {KeyName(cfg, keys[0], active)}, keys[1..]).Ok?
    ensures DroppedSoFar(cfg, keys, active, env, 1) <==> NamedRight(cfg, keys[0], active, env)
  {
    hide KeyName, NamedRight, Expand, Flat;
    OverridePrefix(cfg, active, keys, 1);
    assert keys[..1] == [keys[0]];
    KeyDroppedIff(cfg, keys[0], active, env);
    KeyNamesStep(cfg, keys[..1], env);
    assert keys[..1][1..] == [] && KeyNames(cfg, [], env) == {};
    assert KeyNames(cfg, keys[..1], env) == {KeyName(cfg, keys[0], env)};
    ExpandedKey(cfg, keys[0], active);
  }

  lemma ExpandedKey(cfg: Config, key: string, active: map<string, string>)
    ensures Expand(key, WordSyntax(cfg), active).Gives? ==>
              Flat(Expand(key, WordSyntax(cfg), active).out) == KeyName(cfg, key, active)
  {
  }

  lemma DroppedShift(cfg: Config, keys: seq<string>, active: map<string, string>, env: Env, i: nat)
    requires 1 <= i <= |keys| && Override(cfg, active, keys).Ok? && NamedRight(cfg, keys[0], active, env)
    ensures DroppedSoFar(cfg, keys, active, env, i) <==>
            DroppedSoFar(cfg, keys[1..], active - {KeyName(cfg, keys[0], active)}, env, i - 1)
  {
    hide KeyName, Expand, Flat, KeyNames;
    assert keys[..i][0] == keys[0] && keys[..i][1..] == keys[1..][..i - 1];
    ExpandedKey(cfg, keys[0], active);
    KeyNamesStep(cfg, keys[..i], env);
    var n, m, rest := KeyName(cfg, keys[0], active), KeyName(cfg, keys[0], env), KeyNames(cfg, keys[1..][..i - 1], env);
    SameRemoval(active, n, m);
    assert (active - {m}) - rest == active - ({m} + rest);
  }

  /**
   `ENV ${X}=...`, with `X` no active input: the code drops nothing, and goes on mounting the input that `X` holds the
   name of, if any. `ENV P${X}=...`: it drops the input `P`, which the instruction does not assign.
   */
  lemma ReferenceKeyDropsNothing(cfg: Config, x: string, active: map<string, string>, env: Env)
    requires ValidConfig(cfg) && ValidArgName(x) && x !in active && [] !in active
    ensures var key := "${" + (x + ("}" + ""));
            && Override(cfg, active, [key]).Ok? && Override(cfg, active, [key]).value == active
            && KeyName(cfg, key, env) == Lookup(x, env)
            && (NamedRight(cfg, key, active, env) <==> Lookup(x, env) !in active)
  {
    hide ParseTo, KeyName;
    var key := "${" + (x + ("}" + ""));
    ReferenceValue(cfg, x, env);
    ReferenceValue(cfg, x, active);
    OverrideReads(cfg, active, key);
    OverrideOne(cfg, active, key);
  }

  lemma PrefixedKeyDropsAnother(cfg: Config, p: string, x: string, active: map<string, string>, env: Env)
    requires ValidConfig(cfg) && ValidArgName(p) && ValidArgName(x)
    requires x !in active && p in active && x in env && env[x] != []
    ensures var key := p + ("${" + (x + ("}" + "")));
            && Override(cfg, active, [key]).Ok? && Override(cfg, active, [key]).value == active - {p}
            && KeyName(cfg, key, env) == p + env[x] != p
            && !NamedRight(cfg, key, active, env)
  {
    hide ParseTo, KeyName;
    var key := p + ("${" + (x + ("}" + "")));
    PrefixedValue(cfg, p, x, env);
    PrefixedValue(cfg, p, x, active);
    assert p + [] == p;
    OverrideReads(cfg, active, key);
    OverrideOne(cfg, active, key);
  }

  lemma OverrideReads(cfg: Config, active: map<string, string>, key: string)
    requires Parse(key, WordSyntax(cfg)).Parsed?
    ensures Override(cfg, active, [key]).Ok?
  {
    hide ParseTo, Eval;
  }

  /**
   The names of a `RUN`'s own env mounts are read the same way. Of the active inputs each is mounted once, by the
   author or by `Prepare`, if and only if the names agree on them.
   */
  lemma MountedOnceIff(cfg: Config, secrets: map<string, string>, mounts: seq<string>, active: map<string, string>,
      env: Env)
    requires ValidConfig(cfg) && S.GoodSecrets(cfg, secrets) && Explicit(cfg, {}, mounts, active).Ok?
    ensures Explicit(cfg, {}, mounts, env).Ok?
    ensures var mounted := MountSecrets(cfg, secrets, [], cfg.order(active.Keys), active,
                                        Explicit(cfg, {}, mounts, active).value).1;
            (forall k | k in active :: S.IsMounted(mounted, k) <==> k !in Explicit(cfg, {}, mounts, env).value)
            <==> MountsAgree(cfg, mounts, active, env)
  {
    hide Explicit, MountSecrets, KeyNames, S.IsMounted, S.MountsInput, S.GoodSecrets, ParseTo, ValidConfig;
    ExplicitIs(cfg, {}, mounts, active);
    ExplicitIs(cfg, {}, mounts, env);
    S.MountsAreExact(cfg, secrets, active, Explicit(cfg, {}, mounts, active).value);
    var e1, e2 := KeyNames(cfg, mounts, active), KeyNames(cfg, mounts, env);
    if forall k | k in active :: k !in e1 <==> k !in e2 {
      assert e1 * active.Keys == e2 * active.Keys;
    }
    if e1 * active.Keys == e2 * active.Keys {
      forall k | k in active ensures k in e1 <==> k in e2 {
        assert k in e1 * active.Keys <==> k in e2 * active.Keys;
      }
    }
  }

  /** Mounts each of which is named right are; and of a single mount there is no other way. */
  lemma MountsNamedRight(cfg: Config, mounts: seq<string>, active: map<string, string>, env: Env)
    ensures (forall m | m in mounts :: NamedRight(cfg, m, active, env)) ==> MountsAgree(cfg, mounts, active, env)
    ensures |mounts| == 1 && MountsAgree(cfg, mounts, active, env) ==> NamedRight(cfg, mounts[0], active, env)
  {
    hide KeyName;
    var e1, e2 := KeyNames(cfg, mounts, active), KeyNames(cfg, mounts, env);
    if |mounts| == 1 {
      var n, m := KeyName(cfg, mounts[0], active), KeyName(cfg, mounts[0], env);
      assert mounts == [mounts[0]];
      assert e1 == {n} && e2 == {m};
      assert n in active ==> n in e1 * active.Keys;
      assert m in active ==> m in e2 * active.Keys;
    }
  }

  /**
   `RUN --mount=type=secret,env=${N}`, with `N` an `ARG` that holds the name of an active input: it is mounted twice.
   */
  lemma ReferencedMountIsDoubled(cfg: Config, n: string, secrets: map<string, string>, active: map<string, string>,
      env: Env)
    requires ValidConfig(cfg) && S.GoodSecrets(cfg, secrets) && ValidArgName(n)
    requires n !in active && [] !in active && n in env && env[n] in active
    ensures var mount := "${" + (n + ("}" + ""));
            && Explicit(cfg, {}, [mount], active).Ok? && Explicit(cfg, {}, [mount], env).Ok?
            && env[n] in Explicit(cfg, {}, [mount], env).value
            && S.IsMounted(MountSecrets(cfg, secrets, [], cfg.order(active.Keys), active,
                                        Explicit(cfg, {}, [mount], active).value).1, env[n])
  {
    hide ParseTo, Explicit, MountSecrets, KeyName, S.IsMounted, S.MountsInput, S.GoodSecrets, ValidConfig;
    var mount := "${" + (n + ("}" + ""));
    ReferenceValue(cfg, n, env);
    ReferenceValue(cfg, n, active);
    ExplicitIs(cfg, {}, [mount], active);
    ExplicitIs(cfg, {}, [mount], env);
    assert mount in [mount] && KeyName(cfg, mount, env) in KeyNames(cfg, [mount], env);
    assert env[n] !in KeyNames(cfg, [mount], active);
    S.MountsAreExact(cfg, secrets, active, Explicit(cfg, {}, [mount], active).value);
  }
}
