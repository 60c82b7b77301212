/**
 Theorems about `Prepare`: whole prepared files mean what the originals mean, and no alias ever has two values.
 */
module PrepareMeaning {
  import opened References
  import opened Prepare
  import opened DockerfileRuns
  import M = Materializer
  import R = Rewriter
  import F = FlagRewriting
  import H = HeaderReading
  import S = PrepareSecrets
  import W = WordSplitting

  // ---- The build arguments only grow, and agree ----

  lemma CapturedArg(cfg: Config, kind: Kind, active: map<string, string>, e: M.Expression, w: Word)
    requires Submap(active, cfg.values) && CapturedFrom(cfg, kind, active, e, w)
    ensures IsExprArg(cfg, e.alias, e.value, w.text)
  {
    var t := Parse(w.text, WordSyntax(cfg)).text;
    assert forall n | n in Names(t) :: n in active && SameValue(n, active, n, cfg.values);
    EvalDependsOnNames(t, active, cfg.values);
  }

  /** Declaring expressions adds build arguments, each good if the expression is, and changes none. */
  lemma {:induction false} DeclareExprsKeeps(cfg: Config, st: State, args: set<string>, exprs: seq<M.Expression>,
      used: set<string>)
    requires ValidConfig(cfg) && GoodArgs(cfg, st.buildArgs)
    requires forall e | e in exprs :: GoodArg(cfg, e.alias, e.value)
    ensures var (s, _) := DeclareExprs(st, args, exprs, used);
            s.active == st.active && GoodArgs(cfg, s.buildArgs) && Submap(st.buildArgs, s.buildArgs)
    decreases |exprs|
  {
    hide GoodArg, ValidConfig;
    if exprs != [] {
      var e := exprs[0];
      var (next, more) := DeclareOne(st, args, e, used);
      if e.alias in st.buildArgs && next != st {
        ArgValueUnique(cfg, e.alias, st.buildArgs[e.alias], e.value);
      }
      DeclareExprsKeeps(cfg, next, more, exprs[1..], used);
    }
  }

  function DeclareOne(st: State, args: set<string>, e: M.Expression, used: set<string>): (State, set<string>) {
    if e.alias in used && e.alias !in st.declared
    then (st.(declared := st.declared + {e.alias}, buildArgs := st.buildArgs[e.alias := e.value]), args + {e.alias})
    else (st, args)
  }

  /** Every used alias ends up declared, and whatever is newly declared has an `ARG` line and a build argument. */
  lemma {:induction false} DeclareExprsDeclares(st: State, args: set<string>, exprs: seq<M.Expression>,
      used: set<string>)
    ensures var (s, a) := DeclareExprs(st, args, exprs, used);
            && st.declared <= s.declared && args <= a && st.buildArgs.Keys <= s.buildArgs.Keys
            && s.declared <= st.declared + (a * used)
            && a <= args + s.buildArgs.Keys * s.declared
            && forall i | 0 <= i < |exprs| :: exprs[i].alias in used ==> exprs[i].alias in s.declared
    decreases |exprs|
  {
    if exprs != [] {
      var (next, more) := DeclareOne(st, args, exprs[0], used);
      DeclareExprsDeclares(next, more, exprs[1..], used);
      var (s, a) := DeclareExprs(st, args, exprs, used);
      forall i | 0 <= i < |exprs| && exprs[i].alias in used ensures exprs[i].alias in s.declared {
        if i > 0 {
          assert exprs[i] == exprs[1..][i - 1];
        }
      }
    }
  }

  lemma DeclareKeysKeeps(cfg: Config, st: State, needed: set<string>)
    requires ValidConfig(cfg) && GoodArgs(cfg, st.buildArgs)
    requires needed <= cfg.values.Keys && forall k | k in needed :: ValidArgName(k)
    ensures var (s, a) := DeclareKeys(cfg, st, needed);
            && s.active == st.active
            && GoodArgs(cfg, s.buildArgs) && Submap(st.buildArgs, s.buildArgs)
            && a <= s.buildArgs.Keys && a == KeyAliases(needed - st.declared)
            && s.declared == st.declared + needed
  {
    hide KeyAlias, KeyOf, ValidArgName;
    var (s, args) := DeclareKeys(cfg, st, needed);
    forall a | a in args ensures s.buildArgs[a] == InputValue(cfg, KeyOf(a)) && GoodArg(cfg, a, s.buildArgs[a]) {
      var k :| k in needed - st.declared && a == KeyAlias(k);
      ArgNameIsBytes(k);
      KeyAliasRoundTrip(k);
      assert IsKeyArg(cfg, a, s.buildArgs[a], k);
    }
    forall a | a in st.buildArgs && a in args ensures s.buildArgs[a] == st.buildArgs[a] {
      ArgValueUnique(cfg, a, st.buildArgs[a], s.buildArgs[a]);
    }
  }

  lemma {:induction false} OverrideShrinks(cfg: Config, active: map<string, string>, keys: seq<string>)
    requires Override(cfg, active, keys).Ok?
    ensures Submap(Override(cfg, active, keys).value, active)
    decreases |keys|
  {
    if keys != [] {
      var out := Expand(keys[0], WordSyntax(cfg), active).out;
      OverrideShrinks(cfg, active - {Flat(out)}, keys[1..]);
    }
  }

  function ArgsOf(out: OutStep): set<string> {
    if out.OutFrom? then {} else out.args
  }

  lemma UsedAreAliases(exprs: seq<M.Expression>, segs: seq<M.Segment>)
    requires M.InRange(segs, exprs)
    ensures forall a | a in M.UsedBy(segs, exprs) :: exists j :: 0 <= j < |exprs| && exprs[j].alias == a
  {
    forall a | a in M.UsedBy(segs, exprs) ensures exists j :: 0 <= j < |exprs| && exprs[j].alias == a {
      var k :| 0 <= k < |segs| && segs[k].Word? && exprs[segs[k].index].alias == a;
      assert exprs[segs[k].index].alias == a;
    }
  }

  /** What one processed instruction does to the declarations and the build arguments. */
  lemma ProcessDeclares(cfg: Config, st: State, step: Step)
    requires ValidConfig(cfg) && GoodArgs(cfg, st.buildArgs) && Submap(st.active, cfg.values)
    requires !step.From? && Process(cfg, st, step).Ok?
    ensures var (next, out) := Process(cfg, st, step).value;
            && PlanStep(cfg, step, st.active).Ok?
            && var pl := PlanStep(cfg, step, st.active).value;
            && GoodPlan(cfg, step, st.active, pl)
            && (forall k | k in pl.needed :: ValidArgName(k))
            && GoodArgs(cfg, next.buildArgs) && Submap(st.buildArgs, next.buildArgs)
            && Submap(next.active, st.active)
            && ArgsOf(out) <= next.buildArgs.Keys
            && ArgsOf(out) <= next.declared + KeyAliases(pl.needed)
            && pl.needed + pl.used <= next.declared
            && next.declared <= st.declared + ArgsOf(out) * pl.used + pl.needed
            && KeyAliases(pl.needed - st.declared - pl.used) <= ArgsOf(out)
  {
    hide M.Segments, M.UsedBy, M.Emit, R.Rewrite, DeclareExprs, Override, Explicit, GoodArg, PlanStep, MountSecrets,
        ValidConfig, ValidArgName, KeyAlias, RewriteAll, RewriteDocs;
    PlanIsGood(cfg, step, st.active);
    var pl := PlanStep(cfg, step, st.active).value;
    PlanArgsAreGood(cfg, step, st.active, pl);
    DeclareExprsKeeps(cfg, st, {}, pl.exprs, pl.used);
    DeclareExprsDeclares(st, {}, pl.exprs, pl.used);
    UsedAreDeclared(cfg, st, step, pl);
    DeclareKeysKeeps(cfg, DeclareExprs(st, {}, pl.exprs, pl.used).0, pl.needed);
    if step.Other? && step.kind.Env? {
      OverrideShrinks(cfg, st.active, step.keys);
    }
  }

  lemma PlanArgsAreGood(cfg: Config, step: Step, active: map<string, string>, pl: Plan)
    requires ValidConfig(cfg) && !step.From? && Submap(active, cfg.values) && GoodPlan(cfg, step, active, pl)
    ensures forall e | e in pl.exprs :: GoodArg(cfg, e.alias, e.value)
  {
    hide GoodArg, CapturedFrom;
    forall e | e in pl.exprs ensures GoodArg(cfg, e.alias, e.value) {
      var w :| w in step.words && CapturedFrom(cfg, step.kind, active, e, w);
      CapturedArg(cfg, step.kind, active, e, w);
      ExprArgIsGood(cfg, e.alias, e.value, w.text);
    }
  }

  lemma UsedAreDeclared(cfg: Config, st: State, step: Step, pl: Plan)
    requires !step.From? && GoodPlan(cfg, step, st.active, pl)
    ensures pl.used <= DeclareExprs(st, {}, pl.exprs, pl.used).0.declared
  {
    hide M.Segments, M.UsedBy, DeclareExprs;
    DeclareExprsDeclares(st, {}, pl.exprs, pl.used);
    if step.Other? {
      var segs := M.Segments(step.header, true, HeaderSyntax(cfg, step.kind), Bare, pl.exprs);
      UsedAreAliases(pl.exprs, segs);
      forall a | a in pl.used ensures a in DeclareExprs(st, {}, pl.exprs, pl.used).0.declared {
        var j :| 0 <= j < |pl.exprs| && pl.exprs[j].alias == a;
      }
    }
  }

  lemma ExprArgIsGood(cfg: Config, a: string, v: string, w: string)
    requires IsExprArg(cfg, a, v, w)
    ensures GoodArg(cfg, a, v)
  {
  }

  /** One step keeps every build argument good, changes none, and leaves only inputs active. */
  lemma ProcessKeepsArgs(cfg: Config, st: State, step: Step)
    requires ValidConfig(cfg) && GoodArgs(cfg, st.buildArgs) && Submap(st.active, cfg.values)
    requires Process(cfg, st, step).Ok?
    ensures var (next, _) := Process(cfg, st, step).value;
            GoodArgs(cfg, next.buildArgs) && Submap(st.buildArgs, next.buildArgs) && Submap(next.active, cfg.values)
  {
    if !step.From? {
      hide Process;
      ProcessDeclares(cfg, st, step);
    }
  }

  /** Over any run, the shared build arguments never give an alias two values. */
  lemma {:induction false} BuildArgsAgree(cfg: Config, st: State, steps: seq<Step>)
    requires ValidConfig(cfg) && GoodArgs(cfg, st.buildArgs) && Submap(st.active, cfg.values)
    requires ProcessAll(cfg, st, steps).Ok?
    ensures var (last, _) := ProcessAll(cfg, st, steps).value;
            GoodArgs(cfg, last.buildArgs) && Submap(st.buildArgs, last.buildArgs) && Submap(last.active, cfg.values)
    decreases |steps|
  {
    hide Process, GoodArg;
    if steps != [] {
      ProcessKeepsArgs(cfg, st, steps[0]);
      BuildArgsAgree(cfg, Process(cfg, st, steps[0]).value.0, steps[1..]);
    }
  }

  // ---- The two builds run in step ----

  /**
   `o` is the original build with the inputs injected, `w` the prepared build: they differ at most in the inputs
   still active, which `o` holds and `w` may hold anyhow, and in the aliases, which only `w` holds.
   */
  ghost predicate InStep(cfg: Config, st: State, o: Frame, w: Frame, buildArgs: map<string, string>) {
    && InputsHeld(cfg, st.active, o)
    && Alike(st.active.Keys, o.env, w.env)
    && Alike({}, o.args, w.args)
    && NoReserved(o.env) && NoReserved(o.args) && NoReserved(w.env)
    && AliasesHeld(w.args, buildArgs)
    && (forall d | d in st.declared :: (if Reserved(d) then d else KeyAlias(d)) in w.args)
    && StagesAlike(cfg, o.stages, w.stages)
  }

  ghost predicate InputsHeld(cfg: Config, active: map<string, string>, o: Frame) {
    && Submap(active, cfg.values)
    && forall n | n in active :: n in o.env && o.env[n] == cfg.values[n]
  }

  ghost predicate Alike(except: set<string>, e1: Env, e2: Env) {
    forall n :: !Reserved(n) && n !in except ==> SameValue(n, e1, n, e2)
  }

  ghost predicate NoReserved(e: Env) {
    forall n | n in e :: !Reserved(n)
  }

  ghost predicate AliasesHeld(args: Env, buildArgs: map<string, string>) {
    forall a | a in args && Reserved(a) :: a in buildArgs && args[a] == buildArgs[a]
  }

  ghost predicate StagesAlike(cfg: Config, s1: seq<Env>, s2: seq<Env>) {
    && |s1| == |s2|
    && forall i | 0 <= i < |s1| :: Alike(cfg.values.Keys, s1[i], s2[i]) && NoReserved(s1[i]) && NoReserved(s2[i])
  }

  /** Every live reference to an active input was captured, and no reserved name is mentioned but `allowed`. */
  ghost predicate Covered(t: Text, active: set<string>, needed: set<string>, allowed: set<string>) {
    && Names(t) * active <= needed
    && forall n | n in Names(t) && Reserved(n) :: n in allowed
  }

  /** Renaming from the original's view to the prepared build's: `env` is that view with the used aliases set. */
  lemma ViewsAgree(cfg: Config, st: State, o: Frame, w: Frame, buildArgs: map<string, string>,
                   needed: set<string>, env: Env, t: Text, allowed: set<string>)
    requires ValidConfig(cfg) && GoodArgs(cfg, buildArgs) && InStep(cfg, st, o, w, buildArgs)
    requires needed <= st.active.Keys && forall k | k in needed :: ValidArgName(k) && KeyAlias(k) in w.args
    requires Alike({}, View(o), env)
    requires forall a | a in allowed ::
            Reserved(a) && a in w.args && a in buildArgs && a in env && env[a] == buildArgs[a]
    requires Covered(t, st.active.Keys, needed, allowed)
    ensures R.Agree(BindingsFor(needed), env, View(w), Names(t))
  {
    var b := BindingsFor(needed);
    forall n | n in Names(t) ensures SameValue(n, env, R.RenameName(n, b), View(w)) {
      if n in needed {
        BoundValue(cfg, n, buildArgs);
        assert Reserved(KeyAlias(n));
        assert SameValue(n, View(o), n, env);
      } else if !Reserved(n) {
        assert SameValue(n, View(o), n, env);
        assert SameValue(n, o.env, n, w.env) && SameValue(n, o.args, n, w.args);
      }
    }
  }

  /** The build argument of an input's alias is that input's value. */
  lemma BoundValue(cfg: Config, k: string, buildArgs: map<string, string>)
    requires ValidConfig(cfg) && GoodArgs(cfg, buildArgs) && ValidArgName(k) && k in cfg.values
    ensures KeyAlias(k) in buildArgs ==> buildArgs[KeyAlias(k)] == cfg.values[k]
  {
    if KeyAlias(k) in buildArgs {
      assert IsKeyArg(cfg, KeyAlias(k), cfg.values[k], k);
      ArgValueUnique(cfg, KeyAlias(k), cfg.values[k], buildArgs[KeyAlias(k)]);
    }
  }

  lemma BindingsAreValid(cfg: Config, needed: set<string>)
    requires ValidConfig(cfg) && forall k | k in needed :: ValidArgName(k)
    ensures R.ValidBindings(BindingsFor(needed))
  {
    forall k | k in needed ensures ValidArgName(KeyAlias(k)) {
      AliasesAreNames(cfg, k);
    }
  }

  /** A rewritten text expands in the prepared build to what the text expands to in the original, and is read alike. */
  lemma RewrittenMeans(cfg: Config, st: State, o: Frame, w: Frame, buildArgs: map<string, string>,
                       needed: set<string>, env: Env, s: string, y: Syntax, allowed: set<string>, h: H.Shape)
    requires ValidConfig(cfg) && GoodArgs(cfg, buildArgs) && InStep(cfg, st, o, w, buildArgs) && ValidSyntax(y)
    requires needed <= st.active.Keys && forall k | k in needed :: ValidArgName(k) && KeyAlias(k) in w.args
    requires Alike({}, View(o), env)
    requires forall a | a in allowed ::
            Reserved(a) && a in w.args && a in buildArgs && a in env && env[a] == buildArgs[a]
    requires Parse(s, y).Parsed? ==> Covered(Parse(s, y).text, st.active.Keys, needed, allowed)
    ensures Expand(R.Rewrite(s, BindingsFor(needed), y, Bare), y, View(w)) == Expand(s, y, env)
    ensures H.Read(R.Rewrite(s, BindingsFor(needed), y, Bare), y, h, View(w)) == H.Read(s, y, h, env)
    ensures W.ReadWords(R.Rewrite(s, BindingsFor(needed), y, Bare), y, View(w)) == W.ReadWords(s, y, env)
  {
    hide R.Rewrite, ParseTo, InStep, GoodArgs, H.Read, W.ReadWords;
    BindingsAreValid(cfg, needed);
    if Parse(s, y).Parsed? {
      ViewsAgree(cfg, st, o, w, buildArgs, needed, env, Parse(s, y).text, allowed);
    }
    R.RewritePreservesMeaning(s, BindingsFor(needed), y, env, View(w));
    H.RewriteKeepsReading(s, BindingsFor(needed), y, h, env, View(w));
    W.RewriteKeepsWords(s, BindingsFor(needed), y, env, View(w));
  }

  // ---- Declaring the aliases of a step ----

  lemma GoodArgIsReserved(cfg: Config, a: string, v: string)
    requires ValidConfig(cfg) && GoodArg(cfg, a, v)
    ensures Reserved(a)
  {
    if k :| IsKeyArg(cfg, a, v, k) {
      AliasesAreNames(cfg, k);
    } else {
      var w :| IsExprArg(cfg, a, v, w);
      AliasesAreNames(cfg, w);
    }
  }

  lemma UsedAreReserved(cfg: Config, st: State, step: Step, pl: Plan)
    requires ValidConfig(cfg) && !step.From? && GoodPlan(cfg, step, st.active, pl)
    ensures forall a | a in pl.used :: Reserved(a)
  {
    hide M.Segments, M.UsedBy, M.Emit;
    if step.Other? {
      UsedAreAliases(pl.exprs, M.Segments(step.header, true, HeaderSyntax(cfg, step.kind), Bare, pl.exprs));
      forall a | a in pl.used ensures Reserved(a) {
        var j :| 0 <= j < |pl.exprs| && pl.exprs[j].alias == a;
        var e := pl.exprs[j];
        assert e in pl.exprs;
        var w :| w in step.words && CapturedFrom(cfg, step.kind, st.active, e, w);
        AliasesAreNames(cfg, w.text);
      }
    }
  }

  /** The `ARG` lines a step adds keep the builds in step, and every alias the step may use is then set. */
  lemma DeclareInStep(cfg: Config, st: State, step: Step, o: Frame, w: Frame, buildArgs: map<string, string>)
    requires ValidConfig(cfg) && GoodArgs(cfg, st.buildArgs) && GoodArgs(cfg, buildArgs)
    requires InStep(cfg, st, o, w, buildArgs)
    requires !step.From? && Process(cfg, st, step).Ok?
    requires Submap(Process(cfg, st, step).value.0.buildArgs, buildArgs)
    ensures var (next, out) := Process(cfg, st, step).value;
            var v := Declare(w, ArgsOf(out), buildArgs);
            && PlanStep(cfg, step, st.active).Ok?
            && var pl := PlanStep(cfg, step, st.active).value;
            && GoodPlan(cfg, step, st.active, pl)
            && InStep(cfg, next.(active := st.active), o, v, buildArgs)
            && (forall k | k in pl.needed :: ValidArgName(k) && KeyAlias(k) in v.args)
            && (forall a | a in pl.used :: Reserved(a) && a in v.args && a in buildArgs)
  {
    hide Process, GoodPlan, PlanStep, GoodArg, InStep, Declare, KeyAlias, Reserved;
    InStepInputs(cfg, st, o, w, buildArgs);
    ProcessDeclares(cfg, st, step);
    var (next, out) := Process(cfg, st, step).value;
    var pl := PlanStep(cfg, step, st.active).value;
    UsedAreReserved(cfg, st, step, pl);
    forall a | a in ArgsOf(out) ensures Reserved(a) && a in buildArgs {
      GoodArgIsReserved(cfg, a, next.buildArgs[a]);
    }
    NeededAreInputs(cfg, step, st.active, pl);
    forall k | k in pl.needed && k !in st.declared ensures KeyAlias(k) in ArgsOf(out) {
      assert k in pl.needed - st.declared - pl.used;
      assert KeyAlias(k) in KeyAliases(pl.needed - st.declared - pl.used);
    }
    forall d | d in next.declared && d !in st.declared ensures Written(ArgsOf(out), d) {
    }
    DeclareAliases(cfg, st, next.(active := st.active), o, w, ArgsOf(out), buildArgs);
    DeclaredAreSet(cfg, next.(active := st.active), o, Declare(w, ArgsOf(out), buildArgs), buildArgs, pl.needed,
        pl.used);
  }

  /** The alias of a declared name, or the declared alias itself, is among `args`. */
  predicate Written(args: set<string>, d: string) {
    (if Reserved(d) then d else KeyAlias(d)) in args
  }

  lemma DeclareAliases(cfg: Config, st: State, next: State, o: Frame, w: Frame, args: set<string>,
      buildArgs: map<string, string>)
    requires InStep(cfg, st, o, w, buildArgs) && next.active == st.active
    requires forall a | a in args :: Reserved(a) && a in buildArgs
    requires forall d | d in next.declared && d !in st.declared :: Written(args, d)
    ensures InStep(cfg, next, o, Declare(w, args, buildArgs), buildArgs)
  {
    hide Reserved, KeyAlias, StagesAlike, InputsHeld;
    var v := Declare(w, args, buildArgs);
    assert v.env == w.env && v.stages == w.stages;
    assert forall n | !Reserved(n) :: SameValue(n, w.args, n, v.args);
    forall n | !Reserved(n) ensures SameValue(n, o.args, n, v.args) {
      assert SameValue(n, o.args, n, w.args);
    }
    forall d | d in next.declared ensures (if Reserved(d) then d else KeyAlias(d)) in v.args {
      if d !in st.declared {
        assert Written(args, d);
      }
    }
  }

  lemma DeclaredAreSet(cfg: Config, st: State, o: Frame, w: Frame, buildArgs: map<string, string>,
      needed: set<string>, used: set<string>)
    requires InStep(cfg, st, o, w, buildArgs) && needed + used <= st.declared
    requires (forall k | k in needed :: !Reserved(k)) && (forall a | a in used :: Reserved(a))
    ensures (forall k | k in needed :: KeyAlias(k) in w.args) && (forall a | a in used :: a in w.args && a in buildArgs)
  {
    hide Reserved, KeyAlias, StagesAlike, InputsHeld, Alike;
    forall k | k in needed ensures KeyAlias(k) in w.args {
      assert k in st.declared;
    }
    forall a | a in used ensures a in w.args && a in buildArgs {
      assert a in st.declared;
    }
  }

  lemma InStepInputs(cfg: Config, st: State, o: Frame, w: Frame, buildArgs: map<string, string>)
    requires InStep(cfg, st, o, w, buildArgs)
    ensures Submap(st.active, cfg.values) && InputsHeld(cfg, st.active, o)
  {
  }

  lemma NeededAreInputs(cfg: Config, step: Step, active: map<string, string>, pl: Plan)
    requires ValidConfig(cfg) && !step.From? && GoodPlan(cfg, step, active, pl) && Submap(active, cfg.values)
    ensures pl.needed <= active.Keys && forall k | k in pl.needed :: k in cfg.values && !Reserved(k)
  {
  }

  // ---- Replaced words ----

  /** The aliases of the captured words, each set to its word's value. */
  function AliasEnv(exprs: seq<M.Expression>): Env {
    if exprs == [] then map[] else AliasEnv(exprs[1..])[exprs[0].alias := exprs[0].value]
  }

  lemma {:induction false} AliasEnvHolds(cfg: Config, exprs: seq<M.Expression>)
    requires ValidConfig(cfg) && forall e | e in exprs :: GoodArg(cfg, e.alias, e.value)
    ensures forall e | e in exprs :: e.alias in AliasEnv(exprs) && AliasEnv(exprs)[e.alias] == e.value
    ensures forall a | a in AliasEnv(exprs) :: Reserved(a) && GoodArg(cfg, a, AliasEnv(exprs)[a])
  {
    if exprs != [] {
      var f := exprs[0];
      AliasEnvHolds(cfg, exprs[1..]);
      GoodArgIsReserved(cfg, f.alias, f.value);
      forall e | e in exprs && e.alias == f.alias ensures e.value == f.value {
        ArgValueUnique(cfg, f.alias, e.value, f.value);
      }
    }
  }

  /** The word's spelling in the header reads as the word, marks aside. */
  ghost predicate ReadsAsWord(cfg: Config, kind: Kind, w: Word) {
    var n, t := Parse(w.needle, HeaderSyntax(cfg, kind)), Parse(w.text, WordSyntax(cfg));
    n.Parsed? && t.Parsed? && Unmark(n.text) == t.text
  }

  predicate KnownWord(cfg: Config, w: Word, active: map<string, string>) {
    Parse(w.text, WordSyntax(cfg)).Parsed? && FullyKnown(Parse(w.text, WordSyntax(cfg)).text, active)
  }

  /**
   A word has one spelling, and one spelled otherwise than it is written, in the JSON form, reads as the word. `EXPOSE`
   has no such form.
   */
  ghost predicate SpelledAsRead(cfg: Config, step: Step, active: map<string, string>)
    requires step.Other?
  {
    && OneSpelling(step.words)
    && (step.kind.Expose? ==> forall w | w in step.words :: w.needle == w.text)
    && (forall w | w in step.words && w.needle != w.text && KnownWord(cfg, w, active) ::
          ReadsAsWord(cfg, step.kind, w))
  }

  lemma CapturedReadsAsWord(cfg: Config, step: Step, active: map<string, string>, e: M.Expression, w: Word)
    requires step.Other? && SpelledAsRead(cfg, step, active)
    requires w in step.words && CapturedFrom(cfg, step.kind, active, e, w)
    ensures ReadsAsWord(cfg, step.kind, w)
  {
    hide ParseTo;
    var y := HeaderSyntax(cfg, step.kind);
    assert Unmarked(y) == WordSyntax(cfg);
    ParseUnmarked(w.text, y, Bare, Top);
  }

  /** The trees of the captured words, each under its alias. */
  function DefsOf(exprs: seq<M.Expression>, y: Syntax): M.Defs {
    if exprs == [] then map[]
    else
      var p := Parse(exprs[0].source, y);
      if p.Malformed? then DefsOf(exprs[1..], y) else DefsOf(exprs[1..], y)[exprs[0].alias := p.text]
  }

  lemma {:induction false} DefsAre(exprs: seq<M.Expression>, y: Syntax)
    requires forall e | e in exprs :: Parse(e.source, y).Parsed?
    requires forall e, f | e in exprs && f in exprs && e.alias == f.alias :: e.source == f.source
    ensures forall e | e in exprs :: e.alias in DefsOf(exprs, y) && DefsOf(exprs, y)[e.alias] == Parse(e.source, y).text
    ensures forall a | a in DefsOf(exprs, y) :: exists e :: e in exprs && e.alias == a
  {
    hide ParseTo;
    if exprs != [] {
      assert exprs[0] in exprs && forall e | e in exprs[1..] :: e in exprs;
      DefsAre(exprs[1..], y);
      forall e | e in exprs
        ensures e.alias in DefsOf(exprs, y) && DefsOf(exprs, y)[e.alias] == Parse(e.source, y).text
      {
        if e.alias != exprs[0].alias {
          assert e in exprs[1..];
        }
      }
    }
  }

  /** A candidate's word, and how it reads in the header. */
  lemma CapturedWord(cfg: Config, step: Step, active: map<string, string>, e: M.Expression) returns (w: Word)
    requires ValidConfig(cfg) && step.Other? && SpelledAsRead(cfg, step, active)
    requires exists w | w in step.words :: CapturedFrom(cfg, step.kind, active, e, w)
    ensures w in step.words && CapturedFrom(cfg, step.kind, active, e, w) && ReadsAsWord(cfg, step.kind, w)
    ensures e.source == w.needle && e.alias == ExprAlias(cfg, w.text)
    ensures ValidArgName(e.alias) && Reserved(e.alias)
  {
    w :| w in step.words && CapturedFrom(cfg, step.kind, active, e, w);
    CapturedReadsAsWord(cfg, step, active, e, w);
    AliasesAreNames(cfg, w.text);
  }

  /** Each alias stands for its word's tree as the header spells it, which comes to the captured value. */
  lemma DefsRead(cfg: Config, step: Step, active: map<string, string>, pl: Plan)
    requires ValidConfig(cfg) && step.Other? && GoodPlan(cfg, step, active, pl) && SpelledAsRead(cfg, step, active)
    ensures var y := HeaderSyntax(cfg, step.kind);
            var defs := DefsOf(pl.exprs, y);
            && M.Reads(defs, pl.exprs, y)
            && (forall a | a in defs :: Reserved(a) && exists e :: e in pl.exprs && e.alias == a)
            && (forall e | e in pl.exprs :: e.alias in defs && defs[e.alias] == Parse(e.source, y).text)
  {
    hide ParseTo, CapturedFrom, SpelledAsRead, ReadsAsWord, M.Segments, M.UsedBy, M.Emit, ValidConfig, Reserved,
        ValidArgName, ExprAlias;
    var y := HeaderSyntax(cfg, step.kind);
    forall e | e in pl.exprs ensures Parse(e.source, y).Parsed? && ValidArgName(e.alias) && Reserved(e.alias) {
      var w := CapturedWord(cfg, step, active, e);
      SpellingParses(cfg, step.kind, w);
    }
    forall e, f | e in pl.exprs && f in pl.exprs && e.alias == f.alias ensures e.source == f.source {
      var v := CapturedWord(cfg, step, active, e);
      var w := CapturedWord(cfg, step, active, f);
      DigestsAreGood(cfg);
      ExprAliasInjective(cfg, v.text, w.text);
      SameSpelling(cfg, step, active, v, w);
    }
    DefsAre(pl.exprs, y);
    WholeReads(pl.exprs, y);
  }

  lemma SpellingParses(cfg: Config, kind: Kind, w: Word)
    requires ReadsAsWord(cfg, kind, w)
    ensures Parse(w.needle, HeaderSyntax(cfg, kind)).Parsed?
  {
  }

  lemma SameSpelling(cfg: Config, step: Step, active: map<string, string>, v: Word, w: Word)
    requires step.Other? && SpelledAsRead(cfg, step, active) && v in step.words && w in step.words && v.text == w.text
    ensures v.needle == w.needle
  {
  }

  lemma WholeReads(exprs: seq<M.Expression>, y: Syntax)
    requires forall e | e in exprs ::
               && Parse(e.source, y).Parsed? && ValidArgName(e.alias)
               && e.alias in DefsOf(exprs, y) && DefsOf(exprs, y)[e.alias] == Parse(e.source, y).text
    ensures M.Reads(DefsOf(exprs, y), exprs, y)
  {
    hide ParseTo, DefsOf, ValidArgName;
    forall j | 0 <= j < |exprs|
      ensures ValidArgName(exprs[j].alias) && exprs[j].alias in DefsOf(exprs, y)
      ensures Parse(exprs[j].source, y) == Parsed(DefsOf(exprs, y)[exprs[j].alias], [], Bare)
    {
      assert exprs[j] in exprs;
    }
  }

  /** A captured word comes to its captured value wherever the active inputs have theirs. */
  lemma CapturedValue(cfg: Config, kind: Kind, active: map<string, string>, e: M.Expression, w: Word, env: Env)
    requires CapturedFrom(cfg, kind, active, e, w) && ReadsAsWord(cfg, kind, w) && Submap(active, env)
    ensures var n := Parse(w.needle, HeaderSyntax(cfg, kind));
            Flat(Eval(n.text, env)) == e.value && !n.text.End?
  {
    hide ParseTo, Eval, Flat;
    var n, t := Parse(w.needle, HeaderSyntax(cfg, kind)).text, Parse(w.text, WordSyntax(cfg)).text;
    assert forall m | m in Names(t) :: m in active && SameValue(m, active, m, env);
    EvalDependsOnNames(t, active, env);
    EvalUnmark(n, env);
    assert Names(t) != {};
  }

  lemma DefsHold(cfg: Config, step: Step, active: map<string, string>, pl: Plan, env: Env)
    requires ValidConfig(cfg) && step.Other? && GoodPlan(cfg, step, active, pl) && SpelledAsRead(cfg, step, active)
    requires Submap(active, env) && forall e | e in pl.exprs :: e.alias in env && env[e.alias] == e.value
    ensures var defs := DefsOf(pl.exprs, HeaderSyntax(cfg, step.kind)); M.Holds(defs, env) && H.NoneEmpty(defs)
  {
    hide ParseTo, CapturedFrom, SpelledAsRead, ReadsAsWord, M.Segments, M.UsedBy, M.Emit, ValidConfig, Reserved,
        ValidArgName, ExprAlias, DefsOf, Submap, Eval, Flat;
    var y := HeaderSyntax(cfg, step.kind);
    var defs := DefsOf(pl.exprs, y);
    DefsRead(cfg, step, active, pl);
    forall a | a in defs ensures a in env && env[a] == Flat(Eval(defs[a], env)) && !defs[a].End? {
      var e :| e in pl.exprs && e.alias == a;
      var w := CapturedWord(cfg, step, active, e);
      CapturedValue(cfg, step.kind, active, e, w, env);
    }
  }

  // ---- What an ordinary instruction is ----

  /**
   No reference to one of these names stands in single quotes or after an escape, where the flag's rewriting renames it.
   */
  predicate PlainFlag(cfg: Config, f: string, needed: set<string>) {
    F.NoZero(f) && !F.Shielded(f, BindingsFor(needed), WordSyntax(cfg), Bare)
  }

  /** The text mentions no alias, and each name it refers to stands in one of the words. */
  ghost predicate Linked(s: string, y: Syntax, words: seq<string>, z: Syntax) {
    forall n | NamedIn(s, y, n) :: !Reserved(n) && exists t | t in words :: NamedIn(t, z, n)
  }

  function KeyName(cfg: Config, key: string, env: Env): string {
    var p := Parse(key, WordSyntax(cfg));
    if p.Malformed? then [] else Flat(Eval(p.text, env))
  }

  /**
   Read among the active inputs alone, the text names what it names in the build, or neither names an active input.
   */
  predicate NamedRight(cfg: Config, text: string, active: map<string, string>, env: Env) {
    || KeyName(cfg, text, active) == KeyName(cfg, text, env)
    || (KeyName(cfg, text, active) !in active && KeyName(cfg, text, env) !in active)
  }

  /** So does each `ENV` key, among the inputs that are still active when it is reached. */
  predicate KeysAgree(cfg: Config, keys: seq<string>, active: map<string, string>, env: Env)
    decreases |keys|
  {
    keys != [] ==>
      && NamedRight(cfg, keys[0], active, env)
      && KeysAgree(cfg, keys[1..], active - {KeyName(cfg, keys[0], active)}, env)
  }

  function KeyNames(cfg: Config, keys: seq<string>, env: Env): set<string> {
    set key | key in keys :: KeyName(cfg, key, env)
  }

  /** The active inputs that a `RUN` asks for itself are those that `Prepare` finds it asking for. */
  predicate MountsAgree(cfg: Config, mounts: seq<string>, active: map<string, string>, env: Env) {
    KeyNames(cfg, mounts, active) * active.Keys == KeyNames(cfg, mounts, env) * active.Keys
  }

  ghost predicate OrdinaryRun(cfg: Config, st: State, step: Step, o: Frame)
    requires step.Run? && PlanStep(cfg, step, st.active).Ok?
  {
    var pl := PlanStep(cfg, step, st.active).value;
    && (forall f | f in step.flags + step.mounts ::
          PlainFlag(cfg, f, pl.needed) && Linked(f, WordSyntax(cfg), step.flagWords, WordSyntax(cfg)))
    && MountsAgree(cfg, step.mounts, st.active, View(o))
  }

  predicate StandsInWord(cfg: Config, step: Step, n: string)
    requires step.Other?
  {
    exists w | w in step.words :: NamedIn(w.text, WordSyntax(cfg), n)
  }

  /** Each name the header refers to stands in one of the words the parser gives for it. */
  ghost predicate HeaderWords(cfg: Config, step: Step)
    requires step.Other?
  {
    forall n | NamedIn(step.header, HeaderSyntax(cfg, step.kind), n) :: StandsInWord(cfg, step, n)
  }

  /**
   With its words replaced the header still refers to an active input, though every word that refers to it is replaced
   at some place, and no heredoc does: it is replaced here and not there.
   */
  ghost predicate IsForgotten(cfg: Config, step: Step, active: map<string, string>, pl: Plan, n: string)
    requires step.Other?
  {
    && n in active && NamedIn(pl.header, HeaderSyntax(cfg, step.kind), n)
    && StandsInWord(cfg, step, n) && !StandsUnreplaced(cfg, step, pl.used, n)
  }

  ghost predicate NothingForgotten(cfg: Config, step: Step, active: map<string, string>, pl: Plan)
    requires step.Other?
  {
    forall n :: !IsForgotten(cfg, step, active, pl, n)
  }

  /**
   No replaced word holds a separator that is noticed where it stands; of an `EXPOSE`, no word whose alias is quoted
   comes to anything but its value as its only word.
   */
  predicate NothingLost(cfg: Config, step: Step, active: map<string, string>, pl: Plan)
    requires step.Other?
  {
    var y := HeaderSyntax(cfg, step.kind);
    var r := Parse(pl.header, y);
    r.Parsed? ==>
      if step.kind.Expose? then W.NothingJoined(r.text, DefsOf(pl.exprs, y), active)
      else H.NothingSwallowed(r.text, DefsOf(pl.exprs, y), HeaderShape(step.kind))
  }

  /** Nothing the build reads in the header is lost when its words are replaced. */
  ghost predicate WordsKept(cfg: Config, step: Step, active: map<string, string>, pl: Plan)
    requires step.Other? && M.AllNonEmpty(pl.exprs)
  {
    && M.NothingClosed(step.header, true, HeaderSyntax(cfg, step.kind), Bare, Top, pl.exprs)
    && NothingForgotten(cfg, step, active, pl)
    && NothingLost(cfg, step, active, pl)
  }

  /**
   The header mentions no alias, every reference of the instruction belongs to one of its words, and replacing words
   loses nothing. An instruction that is not expanded has no words to begin with.
   */
  ghost predicate OrdinaryHeader(cfg: Config, st: State, step: Step)
    requires step.Other? && PlanStep(cfg, step, st.active).Ok?
  {
    if step.kind.Verbatim? then step.words == [] && step.rawWords == [] && step.docs == []
    else
      var pl := PlanStep(cfg, step, st.active).value;
      var y := HeaderSyntax(cfg, step.kind);
      && (forall n | NamedIn(step.header, y, n) :: !Reserved(n))
      && SpelledAsRead(cfg, step, st.active)
      && HeaderWords(cfg, step)
      && M.AllNonEmpty(pl.exprs) && WordsKept(cfg, step, st.active, pl)
      && (forall d | d in step.docs && d.expand :: Linked(d.text, DocSyntax(), step.rawWords, DocSyntax()))
  }

  /** An `ENV` assigns exactly its keys, each of which names what it names among the active inputs. */
  ghost predicate KeysRight(cfg: Config, active: map<string, string>, step: Step, o: Frame)
    requires step.Other?
  {
    var h := ReadHeader(cfg, step.kind, step.header, View(o));
    h.Gives? && step.kind.Env? ==>
      KeysAgree(cfg, step.keys, active, View(o)) && H.Assignments(h.out).Keys == KeyNames(cfg, step.keys, View(o))
  }

  /** And no alias is assigned. */
  ghost predicate OrdinaryAssignments(cfg: Config, st: State, step: Step, o: Frame)
    requires step.Other?
  {
    var h := ReadHeader(cfg, step.kind, step.header, View(o));
    && KeysRight(cfg, st.active, step, o)
    && (h.Gives? && (step.kind.Env? || step.kind.Arg?) ==> NoReserved(H.Assignments(h.out)))
  }

  ghost predicate Ordinary(cfg: Config, st: State, step: Step, o: Frame) {
    match step
    case From(Image(env)) => NoReserved(env)
    case From(_) => true
    case Run(_, _, _, _) => PlanStep(cfg, step, st.active).Ok? && OrdinaryRun(cfg, st, step, o)
    case Other(_, _, _, _, _, _) =>
      PlanStep(cfg, step, st.active).Ok? && OrdinaryHeader(cfg, st, step) && OrdinaryAssignments(cfg, st, step, o)
  }

  // ---- Each kind of step keeps the builds in step and shows the same ----

  lemma FromInStep(cfg: Config, st: State, o: Frame, w: Frame, buildArgs: map<string, string>, source: Source)
    requires ValidConfig(cfg) && InStep(cfg, st, o, w, buildArgs)
    requires source.Image? ==> NoReserved(source.env)
    ensures var o', w' := ExecOriginal(cfg, o, From(source)).value,
            ExecPrepared(cfg, w, OutFrom(source), buildArgs, map[]).value;
            o'.1 == w'.1 && InStep(cfg, st.(active := cfg.values, declared := {}), o'.0, w'.0, buildArgs)
  {
    hide Reserved, KeyAlias, Alike, NoReserved, StagesAlike;
    var b1, b2 := BaseEnv(o, source), BaseEnv(w, source);
    AlikeWithout(st.active.Keys, cfg.values.Keys, o.env, w.env);
    StagesGrow(cfg, o.stages, w.stages, o.env, w.env);
    BasesAlike(cfg, o, w, source);
    InputsAlike(cfg, b1, b2);
    NothingAlike();
  }

  lemma NothingAlike()
    ensures Alike({}, map[], map[]) && NoReserved(map[])
  {
  }

  lemma BasesAlike(cfg: Config, o: Frame, w: Frame, source: Source)
    requires StagesAlike(cfg, o.stages + [o.env], w.stages + [w.env]) && (source.Image? ==> NoReserved(source.env))
    ensures Alike(cfg.values.Keys, BaseEnv(o, source), BaseEnv(w, source))
    ensures NoReserved(BaseEnv(o, source)) && NoReserved(BaseEnv(w, source))
  {
    hide Reserved;
    if source.Stage? {
      var s1, s2 := o.stages + [o.env], w.stages + [w.env];
      assert source.index < |s1| ==> BaseEnv(o, source) == s1[source.index] && BaseEnv(w, source) == s2[source.index];
    }
  }

  lemma AlikeWithout(some: set<string>, more: set<string>, e1: Env, e2: Env)
    requires Alike(some, e1, e2) && some <= more
    ensures Alike(more, e1, e2)
  {
    hide Reserved, SameValue;
  }

  /** Injecting the inputs on one side only makes a difference at the inputs. */
  lemma InputsAlike(cfg: Config, e1: Env, e2: Env)
    requires ValidConfig(cfg) && Alike(cfg.values.Keys, e1, e2) && NoReserved(e1)
    ensures Alike(cfg.values.Keys, e1 + cfg.values, e2) && NoReserved(e1 + cfg.values)
  {
    hide Reserved;
    forall n | !Reserved(n) && n !in cfg.values ensures SameValue(n, e1 + cfg.values, n, e2) {
      assert SameValue(n, e1, n, e2);
    }
  }

  lemma StagesGrow(cfg: Config, s1: seq<Env>, s2: seq<Env>, e1: Env, e2: Env)
    requires StagesAlike(cfg, s1, s2) && Alike(cfg.values.Keys, e1, e2) && NoReserved(e1) && NoReserved(e2)
    ensures StagesAlike(cfg, s1 + [e1], s2 + [e2])
  {
    hide Alike, NoReserved;
  }

  /** What is known of a header's tree and of the tree of its replacement. */
  ghost predicate TreesMatch(cfg: Config, step: Step, pl: Plan)
    requires step.Other?
  {
    var y := HeaderSyntax(cfg, step.kind);
    var p, r := Parse(step.header, y), Parse(pl.header, y);
    var defs := DefsOf(pl.exprs, y);
    if p.Malformed? then r.Malformed?
    else
      && r.Parsed? && M.Unfold(r.text, defs) == p.text
      && M.BareRightly(r.text, pl.exprs, defs)
      && Names(r.text) * defs.Keys == pl.used && Names(r.text) - defs.Keys <= Names(p.text)
  }

  /** The trees match where no brace is closed and the header mentions no alias. */
  lemma TreesDoMatch(cfg: Config, step: Step, active: map<string, string>, pl: Plan)
    requires ValidConfig(cfg) && step.Other? && GoodPlan(cfg, step, active, pl) && SpelledAsRead(cfg, step, active)
    requires forall n | NamedIn(step.header, HeaderSyntax(cfg, step.kind), n) :: !Reserved(n)
    requires M.NothingClosed(step.header, true, HeaderSyntax(cfg, step.kind), Bare, Top, pl.exprs)
    ensures TreesMatch(cfg, step, pl)
  {
    hide ParseTo, M.Segments, M.UsedBy, M.Emit, M.NothingClosed, CapturedFrom, DefsOf, SpelledAsRead, Reserved, M.Reads,
        M.Unfold, Names, M.BareRightly;
    var y := HeaderSyntax(cfg, step.kind);
    var defs := DefsOf(pl.exprs, y);
    DefsRead(cfg, step, active, pl);
    if Parse(step.header, y).Malformed? {
      M.MaterializeMalformed(step.header, y, pl.exprs, defs);
    } else {
      var t := Parse(step.header, y).text;
      forall n | n in Names(t) ensures n !in defs {
        assert NamedIn(step.header, y, n);
      }
      assert M.Fresh(t, defs);
      M.MaterializeReadsIff(step.header, y, pl.exprs, defs);
      M.MaterializedNames(step.header, y, pl.exprs, defs);
    }
  }

  /**
   Of the inputs still active the replaced header refers to needed ones only, if and only if none is forgotten: no
   occurrence that is not replaced refers to an active input all of whose words are.
   */
  lemma CoveredIff(cfg: Config, step: Step, active: map<string, string>, pl: Plan)
    requires ValidConfig(cfg) && step.Other? && PlanStep(cfg, step, active) == Ok(pl)
            && SpelledAsRead(cfg, step, active)
    requires GoodPlan(cfg, step, active, pl) && Submap(active, cfg.values)
    requires TreesMatch(cfg, step, pl) && HeaderWords(cfg, step)
    ensures (forall n | n in active && NamedIn(pl.header, HeaderSyntax(cfg, step.kind), n) :: n in pl.needed)
            <==> NothingForgotten(cfg, step, active, pl)
  {
    hide PlanStep, StandsUnreplaced, OneSpelling, GoodPlan, TreesMatch, HeaderWords, ValidConfig, StandsInWord, NamedIn,
        Submap;
    DigestsAreGood(cfg);
    forall n ensures IsForgotten(cfg, step, active, pl, n) <==>
        n in active && NamedIn(pl.header, HeaderSyntax(cfg, step.kind), n) && n !in pl.needed
    {
      NeededIff(cfg, step, active, n);
      if n in active && NamedIn(pl.header, HeaderSyntax(cfg, step.kind), n) {
        LeftStandsInWord(cfg, step, active, pl, n);
      }
    }
  }

  lemma LeftStandsInWord(cfg: Config, step: Step, active: map<string, string>, pl: Plan, n: string)
    requires ValidConfig(cfg) && step.Other? && SpelledAsRead(cfg, step, active)
    requires GoodPlan(cfg, step, active, pl) && Submap(active, cfg.values)
    requires TreesMatch(cfg, step, pl) && HeaderWords(cfg, step)
    requires n in active && NamedIn(pl.header, HeaderSyntax(cfg, step.kind), n)
    ensures StandsInWord(cfg, step, n)
  {
    hide ParseTo, DefsOf, SpelledAsRead, Reserved, M.Unfold, Names, M.BareRightly, ExprAlias, CapturedFrom,
        M.Segments, M.UsedBy, M.Emit, StandsInWord;
    DefsRead(cfg, step, active, pl);
    InputIsNoAlias(cfg, active, n);
    assert NamedIn(step.header, HeaderSyntax(cfg, step.kind), n);
  }

  /** Every active input the replaced header refers to is needed, and every alias in it is used. */
  lemma HeaderIsCovered(cfg: Config, st: State, step: Step, pl: Plan)
    requires ValidConfig(cfg) && step.Other? && !step.kind.Verbatim? && PlanStep(cfg, step, st.active) == Ok(pl)
    requires GoodPlan(cfg, step, st.active, pl) && OrdinaryHeader(cfg, st, step) && Submap(st.active, cfg.values)
    ensures TreesMatch(cfg, step, pl)
    ensures var r := Parse(pl.header, HeaderSyntax(cfg, step.kind));
            r.Parsed? ==> Covered(r.text, st.active.Keys, pl.needed, pl.used)
  {
    hide ParseTo, M.Segments, M.UsedBy, M.Emit, M.NothingClosed, PlanStep, CapturedFrom, DefsOf, Reserved, M.Reads,
        NothingLost, M.Unfold, Names, M.BareRightly, NothingForgotten, HeaderWords;
    var y := HeaderSyntax(cfg, step.kind);
    TreesDoMatch(cfg, step, st.active, pl);
    CoveredIff(cfg, step, st.active, pl);
    var r := Parse(pl.header, y);
    if r.Parsed? {
      forall n | n in Names(r.text) && n in st.active ensures n in pl.needed {
        assert NamedIn(pl.header, y, n);
      }
      forall n | n in Names(Parse(step.header, y).text) ensures !Reserved(n) {
        assert NamedIn(step.header, y, n);
      }
      forall n | n in Names(r.text) && Reserved(n) ensures n in pl.used {
        assert n in Names(r.text) * DefsOf(pl.exprs, y).Keys;
      }
    }
  }

  lemma InputIsNoAlias(cfg: Config, active: map<string, string>, n: string)
    requires ValidConfig(cfg) && Submap(active, cfg.values) && n in active
    ensures !Reserved(n)
  {
  }

  // ---- Words of an `EXPOSE` ----

  lemma DefNames(cfg: Config, step: Step, active: map<string, string>, pl: Plan, a: string)
    requires ValidConfig(cfg) && step.Other? && GoodPlan(cfg, step, active, pl) && SpelledAsRead(cfg, step, active)
    requires a in DefsOf(pl.exprs, HeaderSyntax(cfg, step.kind))
    ensures Names(DefsOf(pl.exprs, HeaderSyntax(cfg, step.kind))[a]) <= active.Keys
  {
    hide ParseTo, CapturedFrom, SpelledAsRead, M.Segments, M.UsedBy, M.Emit, ValidConfig, Reserved, ValidArgName,
        ExprAlias, DefsOf, Eval;
    DefsRead(cfg, step, active, pl);
    var e :| e in pl.exprs && e.alias == a;
    var w := CapturedWord(cfg, step, active, e);
    CapturedWordNames(cfg, step.kind, active, e, w);
    UnmarkHasNone(Parse(w.needle, HeaderSyntax(cfg, step.kind)).text);
  }

  lemma CapturedWordNames(cfg: Config, kind: Kind, active: map<string, string>, e: M.Expression, w: Word)
    requires CapturedFrom(cfg, kind, active, e, w)
    ensures Names(Parse(w.text, WordSyntax(cfg)).text) <= active.Keys
    ensures e.unquoted ==> kind.Expose? && W.StaysUnquoted(PortWords(cfg, w.text, active))
  {
  }

  /** The inputs have the values the words were captured with. */
  lemma SameInputs(active: map<string, string>, env: Env, names: set<string>)
    requires Submap(active, env) && names <= active.Keys
    ensures forall n | n in names :: SameValue(n, active, n, env)
  {
  }

  /** A word whose alias is unquoted splits where its value does. */
  lemma UnquotedWord(cfg: Config, step: Step, active: map<string, string>, pl: Plan, env: Env, e: M.Expression)
    requires ValidConfig(cfg) && step.Other? && GoodPlan(cfg, step, active, pl) && SpelledAsRead(cfg, step, active)
    requires Submap(active, env) && e in pl.exprs && e.unquoted
    ensures var defs := DefsOf(pl.exprs, HeaderSyntax(cfg, step.kind));
            e.alias in defs && W.Spread(defs[e.alias], env) == W.Split(Flat(Eval(defs[e.alias], env)))
  {
    hide ParseTo, CapturedFrom, M.Segments, M.UsedBy, M.Emit, ValidConfig, Reserved, ValidArgName, ExprAlias, DefsOf,
        Eval, W.Spread, W.StaysUnquoted, Flat, W.Split, W.WordsFrom, Names, SameValue, Submap;
    var y := HeaderSyntax(cfg, step.kind);
    DefsRead(cfg, step, active, pl);
    var w := CapturedWord(cfg, step, active, e);
    CapturedWordNames(cfg, step.kind, active, e, w);
    var d := DefsOf(pl.exprs, y)[e.alias];
    assert w.needle == w.text;
    assert PortWords(cfg, w.text, active) == W.Words(d, active);
    W.UnquotedSplits(d, active);
    DefNames(cfg, step, active, pl, e.alias);
    SameInputs(active, env, Names(d));
    W.SpreadDependsOnNames(d, active, env);
    EvalDependsOnNames(d, active, env);
  }

  lemma {:induction false} UnquotedIsRight(cfg: Config, step: Step, active: map<string, string>, pl: Plan, env: Env,
      r: Text)
    requires ValidConfig(cfg) && step.Other? && GoodPlan(cfg, step, active, pl) && SpelledAsRead(cfg, step, active)
    requires Submap(active, env) && M.BareRightly(r, pl.exprs, DefsOf(pl.exprs, HeaderSyntax(cfg, step.kind)))
    ensures W.UnquotedRightly(r, DefsOf(pl.exprs, HeaderSyntax(cfg, step.kind)), env)
    decreases r
  {
    hide GoodPlan, SpelledAsRead, ValidConfig, Submap, DefsOf, W.Spread, W.Split, Eval, Flat;
    if !r.End? {
      UnquotedIsRight(cfg, step, active, pl, env, r.rest);
      if r.Value? && r.bare && r.name in DefsOf(pl.exprs, HeaderSyntax(cfg, step.kind)) {
        var e :| e in pl.exprs && e.alias == r.name && e.unquoted;
        UnquotedWord(cfg, step, active, pl, env, e);
      }
    }
  }

  lemma {:induction false} JoinedAlike(r: Text, defs: M.Defs, e1: Env, e2: Env)
    requires forall a, n | a in defs && n in Names(defs[a]) :: SameValue(n, e1, n, e2)
    ensures W.NothingJoined(r, defs, e1) <==> W.NothingJoined(r, defs, e2)
    decreases r
  {
    if !r.End? {
      hide W.OneWord, Names, SameValue;
      JoinedAlike(r.rest, defs, e1, e2);
      if r.Value? && r.name in defs {
        OneWordAlike(defs[r.name], e1, e2);
      }
    }
  }

  lemma OneWordAlike(t: Text, e1: Env, e2: Env)
    requires forall n | n in Names(t) :: SameValue(n, e1, n, e2)
    ensures W.OneWord(t, e1) == W.OneWord(t, e2)
  {
    hide Eval, W.Spread, W.WordsFrom, SameValue, Names;
    W.SpreadDependsOnNames(t, e1, e2);
    EvalDependsOnNames(t, e1, e2);
  }

  lemma JoinedFromActive(cfg: Config, step: Step, active: map<string, string>, pl: Plan, env: Env, r: Text)
    requires ValidConfig(cfg) && step.Other? && GoodPlan(cfg, step, active, pl) && SpelledAsRead(cfg, step, active)
    requires Submap(active, env)
    ensures var defs := DefsOf(pl.exprs, HeaderSyntax(cfg, step.kind));
            W.NothingJoined(r, defs, active) <==> W.NothingJoined(r, defs, env)
  {
    hide GoodPlan, SpelledAsRead, ValidConfig, DefsOf, Names, W.NothingJoined;
    var defs := DefsOf(pl.exprs, HeaderSyntax(cfg, step.kind));
    forall a, n | a in defs && n in Names(defs[a]) ensures SameValue(n, active, n, env) {
      DefNames(cfg, step, active, pl, a);
      SameInputs(active, env, Names(defs[a]));
    }
    JoinedAlike(r, defs, active, env);
  }

  // ---- Headers of every kind ----

  /**
   Main result on whole headers: where the aliases hold their words' values and no brace is closed, a header with its
   words replaced is read as it was if and only if nothing is lost: no noticed separator and, of an `EXPOSE`, no split.
   */
  lemma HeaderReadsIff(cfg: Config, step: Step, active: map<string, string>, pl: Plan, env: Env)
    requires ValidConfig(cfg) && step.Other? && !step.kind.Verbatim? && GoodPlan(cfg, step, active, pl)
    requires SpelledAsRead(cfg, step, active) && Submap(active, env)
    requires forall e | e in pl.exprs :: e.alias in env && env[e.alias] == e.value
    requires forall n | NamedIn(step.header, HeaderSyntax(cfg, step.kind), n) :: !Reserved(n)
    requires M.NothingClosed(step.header, true, HeaderSyntax(cfg, step.kind), Bare, Top, pl.exprs)
    ensures ReadHeader(cfg, step.kind, pl.header, env) == ReadHeader(cfg, step.kind, step.header, env) <==>
            NothingLost(cfg, step, active, pl)
  {
    hide ParseTo, GoodPlan, M.NothingClosed, DefsOf, SpelledAsRead, Reserved, H.NothingSwallowed, W.NothingJoined,
        H.Settle, M.Unfold, Names, Submap, Eval, ValidConfig, M.Holds, H.NoneEmpty, W.Words, W.Listed,
        M.BareRightly, W.UnquotedRightly;
    var y := HeaderSyntax(cfg, step.kind);
    var defs := DefsOf(pl.exprs, y);
    TreesDoMatch(cfg, step, active, pl);
    DefsHold(cfg, step, active, pl, env);
    var p, r := Parse(step.header, y), Parse(pl.header, y);
    if r.Parsed? {
      if step.kind.Expose? {
        UnquotedIsRight(cfg, step, active, pl, env, r.text);
        JoinedFromActive(cfg, step, active, pl, env, r.text);
        W.WordsAlikeIff(r.text, defs, env);
        W.ListedInjective(W.Words(r.text, env), W.Words(p.text, env));
      } else {
        H.ReadsAlikeIff(r.text, defs, HeaderShape(step.kind), env);
      }
    }
  }

  lemma HeaderDependsOnNames(cfg: Config, kind: Kind, header: string, e1: Env, e2: Env)
    requires forall n | NamedIn(header, HeaderSyntax(cfg, kind), n) :: SameValue(n, e1, n, e2)
    ensures ReadHeader(cfg, kind, header, e1) == ReadHeader(cfg, kind, header, e2)
  {
    hide ParseTo, H.Read, W.ReadWords, SameValue;
    var y := HeaderSyntax(cfg, kind);
    if Parse(header, y).Parsed? {
      forall n | n in Names(Parse(header, y).text) ensures SameValue(n, e1, n, e2) {
        assert NamedIn(header, y, n);
      }
    }
    H.ReadDependsOnNames(header, y, HeaderShape(kind), e1, e2);
    W.WordsDependOnNames(header, y, e1, e2);
  }

  /**
   Where the header's references are covered and nothing is lost, replacing its words and renaming its references leaves
   what the build reads in it as it was; a malformed header stays malformed.
   */
  lemma HeaderMeans(cfg: Config, st: State, step: Step, o: Frame, v: Frame, buildArgs: map<string, string>)
    requires ValidConfig(cfg) && GoodArgs(cfg, buildArgs) && InStep(cfg, st, o, v, buildArgs)
    requires step.Other? && PlanStep(cfg, step, st.active).Ok? && OrdinaryHeader(cfg, st, step)
    requires var pl := PlanStep(cfg, step, st.active).value;
             && GoodPlan(cfg, step, st.active, pl)
             && (forall k | k in pl.needed :: ValidArgName(k) && KeyAlias(k) in v.args)
             && (forall a | a in pl.used :: Reserved(a) && a in v.args && a in buildArgs)
    ensures var pl := PlanStep(cfg, step, st.active).value;
            var y := HeaderSyntax(cfg, step.kind);
            ReadHeader(cfg, step.kind, R.Rewrite(pl.header, BindingsFor(pl.needed), y, Bare), View(v))
            == ReadHeader(cfg, step.kind, step.header, View(o))
  {
    hide R.Rewrite, ParseTo, InStep, GoodArg, M.Segments, M.UsedBy, M.Emit, M.NothingClosed, PlanStep, CapturedFrom,
        Reserved, View, SpelledAsRead, NothingLost, NothingForgotten, HeaderWords, DefsOf, Linked, H.Read, W.ReadWords,
        TreesMatch;
    var pl := PlanStep(cfg, step, st.active).value;
    if step.kind.Verbatim? {
      NothingPlanned(cfg, step, st.active);
    } else {
      var y, h := HeaderSyntax(cfg, step.kind), HeaderShape(step.kind);
      var env := View(o) + AliasEnv(pl.exprs);
      InStepInputs(cfg, st, o, v, buildArgs);
      CapturedAreGood(cfg, step, st.active, pl);
      AliasEnvHolds(cfg, pl.exprs);
      ViewHolds(cfg, st, o);
      InputsAreNotReserved(cfg, st.active);
      HeaderIsCovered(cfg, st, step, pl);
      HeaderReadsIff(cfg, step, st.active, pl, env);
      HeaderDependsOnNames(cfg, step.kind, step.header, View(o), env);
      forall a | a in pl.used ensures a in env && env[a] == buildArgs[a] {
        UsedValue(cfg, step, st.active, pl, buildArgs, a);
      }
      RewrittenMeans(cfg, st, o, v, buildArgs, pl.needed, env, pl.header, y, pl.used, h);
    }
  }

  /** Of an instruction with no words everything is left as it is. */
  lemma NothingPlanned(cfg: Config, step: Step, active: map<string, string>)
    requires step.Other? && step.words == [] && step.rawWords == [] && PlanStep(cfg, step, active).Ok?
    ensures var pl := PlanStep(cfg, step, active).value;
            && pl.needed == {} && pl.used == {} && pl.exprs == []
            && R.Rewrite(pl.header, BindingsFor(pl.needed), HeaderSyntax(cfg, step.kind), Bare) == step.header
  {
    hide R.Rewrite, M.Segments, M.UsedBy, M.Emit;
    var y := HeaderSyntax(cfg, step.kind);
    M.MaterializeNothing(step.header, true, y, Bare);
    M.UsedInIsUsedBy(step.header, true, y, Bare, []);
    R.RewriteNothing(step.header, y, Bare);
    assert Unreplaced([], {}) == {};
    assert BindingsFor({}) == map[];
  }

  lemma CapturedAreGood(cfg: Config, step: Step, active: map<string, string>, pl: Plan)
    requires ValidConfig(cfg) && step.Other? && GoodPlan(cfg, step, active, pl) && Submap(active, cfg.values)
    ensures forall e | e in pl.exprs :: GoodArg(cfg, e.alias, e.value)
  {
    hide M.Segments, M.UsedBy, M.Emit, GoodArg, CapturedFrom;
    forall e | e in pl.exprs ensures GoodArg(cfg, e.alias, e.value) {
      var w :| w in step.words && CapturedFrom(cfg, step.kind, active, e, w);
      CapturedArg(cfg, step.kind, active, e, w);
      ExprArgIsGood(cfg, e.alias, e.value, w.text);
    }
  }

  lemma InputsAreNotReserved(cfg: Config, active: map<string, string>)
    requires ValidConfig(cfg) && Submap(active, cfg.values)
    ensures forall n | n in active :: !Reserved(n)
  {
  }

  /** In the original build every active input has its own value. */
  lemma ViewHolds(cfg: Config, st: State, o: Frame)
    requires InputsHeld(cfg, st.active, o)
    ensures Submap(st.active, View(o))
  {
  }

  lemma UsedValue(cfg: Config, step: Step, active: map<string, string>, pl: Plan, buildArgs: map<string, string>,
      a: string)
    requires ValidConfig(cfg) && GoodArgs(cfg, buildArgs) && step.Other? && GoodPlan(cfg, step, active, pl)
    requires Submap(active, cfg.values) && a in pl.used && a in buildArgs
    ensures a in AliasEnv(pl.exprs) && AliasEnv(pl.exprs)[a] == buildArgs[a]
  {
    hide M.Segments, M.UsedBy, M.Emit, GoodArg, CapturedFrom;
    CapturedAreGood(cfg, step, active, pl);
    AliasEnvHolds(cfg, pl.exprs);
    UsedAreAliases(pl.exprs, M.Segments(step.header, true, HeaderSyntax(cfg, step.kind), Bare, pl.exprs));
    var j :| 0 <= j < |pl.exprs| && pl.exprs[j].alias == a;
    var e := pl.exprs[j];
    assert e in pl.exprs;
    ArgValueUnique(cfg, a, e.value, buildArgs[a]);
  }

  /** Rewritten heredoc bodies expand alike; literal ones are not touched. */
  lemma DocsMean(cfg: Config, st: State, step: Step, o: Frame, v: Frame, buildArgs: map<string, string>)
    requires ValidConfig(cfg) && GoodArgs(cfg, buildArgs) && InStep(cfg, st, o, v, buildArgs)
    requires step.Other? && PlanStep(cfg, step, st.active).Ok? && OrdinaryHeader(cfg, st, step)
    requires var pl := PlanStep(cfg, step, st.active).value;
             pl.needed <= st.active.Keys && forall k | k in pl.needed :: ValidArgName(k) && KeyAlias(k) in v.args
    ensures var pl := PlanStep(cfg, step, st.active).value;
            ExpandDocs(RewriteDocs(step.docs, BindingsFor(pl.needed)), View(v)) == ExpandDocs(step.docs, View(o))
  {
    hide R.Rewrite, ParseTo, InStep, GoodArgs, View, PlanStep, Linked, HeaderWords, SpelledAsRead, M.NothingClosed,
        NamedIn;
    var pl := PlanStep(cfg, step, st.active).value;
    forall i | 0 <= i < |step.docs|
      ensures ExpandDoc(RewriteDoc(step.docs[i], BindingsFor(pl.needed)), View(v)) == ExpandDoc(step.docs[i], View(o))
    {
      var d := step.docs[i];
      if d.expand {
        assert d in step.docs && Linked(d.text, DocSyntax(), step.rawWords, DocSyntax());
        if Parse(d.text, DocSyntax()).Parsed? {
          DocIsCovered(cfg, step, st.active, d.text);
        }
        RewrittenMeans(cfg, st, o, v, buildArgs, pl.needed, View(o), d.text, DocSyntax(), {}, H.Whole);
      }
    }
  }

  lemma DocIsCovered(cfg: Config, step: Step, active: map<string, string>, text: string)
    requires step.Other? && PlanStep(cfg, step, active).Ok?
    requires Linked(text, DocSyntax(), step.rawWords, DocSyntax()) && Parse(text, DocSyntax()).Parsed?
    ensures Covered(Parse(text, DocSyntax()).text, active.Keys, PlanStep(cfg, step, active).value.needed, {})
  {
    hide ParseTo, PlanStep, Reserved;
    forall n | n in Names(Parse(text, DocSyntax()).text) && n in active
      ensures n in PlanStep(cfg, step, active).value.needed
    {
      assert NamedIn(text, DocSyntax(), n);
      var t :| t in step.rawWords && NamedIn(t, DocSyntax(), n);
      RawWordsAreNeeded(cfg, step, active, t, n);
    }
    forall n | n in Names(Parse(text, DocSyntax()).text) ensures !Reserved(n) {
      assert NamedIn(text, DocSyntax(), n);
    }
  }

  // ---- RUN flags ----

  /** An ordinary flag or env mount means in the prepared build what it means in the original. */
  lemma FlagMeans(cfg: Config, st: State, step: Step, o: Frame, v: Frame, buildArgs: map<string, string>, f: string)
    requires ValidConfig(cfg) && GoodArgs(cfg, buildArgs) && InStep(cfg, st, o, v, buildArgs)
    requires step.Run? && PlanStep(cfg, step, st.active).Ok?
    requires var pl := PlanStep(cfg, step, st.active).value;
             && pl.needed <= st.active.Keys && (forall k | k in pl.needed :: ValidArgName(k) && KeyAlias(k) in v.args)
             && PlainFlag(cfg, f, pl.needed)
    requires Linked(f, WordSyntax(cfg), step.flagWords, WordSyntax(cfg))
    ensures var pl := PlanStep(cfg, step, st.active).value;
            Expand(R.Rewrite(f, BindingsFor(pl.needed), FlagSyntax(), Bare), WordSyntax(cfg), View(v))
            == Expand(f, WordSyntax(cfg), View(o))
  {
    hide R.Rewrite, ParseTo, InStep, GoodArgs, View, F.Shielded, PlanStep, Linked;
    var needed := PlanStep(cfg, step, st.active).value.needed;
    F.RawIsRewrite(f, BindingsFor(needed), WordSyntax(cfg), Bare);
    if Parse(f, WordSyntax(cfg)).Parsed? {
      FlagIsCovered(cfg, step, st.active, f);
    }
    RewrittenMeans(cfg, st, o, v, buildArgs, needed, View(o), f, WordSyntax(cfg), {}, H.Whole);
  }

  lemma FlagIsCovered(cfg: Config, step: Step, active: map<string, string>, f: string)
    requires step.Run? && PlanStep(cfg, step, active).Ok?
    requires Linked(f, WordSyntax(cfg), step.flagWords, WordSyntax(cfg)) && Parse(f, WordSyntax(cfg)).Parsed?
    ensures Covered(Parse(f, WordSyntax(cfg)).text, active.Keys, PlanStep(cfg, step, active).value.needed, {})
  {
    hide ParseTo, PlanStep, Reserved;
    forall n | n in Names(Parse(f, WordSyntax(cfg)).text) && n in active
      ensures n in PlanStep(cfg, step, active).value.needed
    {
      assert NamedIn(f, WordSyntax(cfg), n);
      var t :| t in step.flagWords && NamedIn(t, WordSyntax(cfg), n);
      FlagWordsAreNeeded(cfg, step, active, t, n);
    }
    forall n | n in Names(Parse(f, WordSyntax(cfg)).text) ensures !Reserved(n) {
      assert NamedIn(f, WordSyntax(cfg), n);
    }
  }

  /** The names a `RUN` asks for, told without the loop. */
  lemma {:induction false} ExplicitIs(cfg: Config, found: set<string>, mounts: seq<string>, env: Env)
    ensures Explicit(cfg, found, mounts, env).Ok?
            <==> forall m | m in mounts :: Parse(m, WordSyntax(cfg)).Parsed?
    ensures Explicit(cfg, found, mounts, env).Ok? ==>
              Explicit(cfg, found, mounts, env).value == found + KeyNames(cfg, mounts, env)
    decreases |mounts|
  {
    hide ParseTo, KeyName;
    if mounts != [] {
      assert mounts == [mounts[0]] + mounts[1..] && mounts[0] in mounts;
      if Parse(mounts[0], WordSyntax(cfg)).Parsed? {
        NameIsFlat(cfg, mounts[0], env);
        ExplicitIs(cfg, found + {KeyName(cfg, mounts[0], env)}, mounts[1..], env);
      }
    }
  }

  lemma NameIsFlat(cfg: Config, key: string, env: Env)
    requires Parse(key, WordSyntax(cfg)).Parsed?
    ensures Expand(key, WordSyntax(cfg), env).Gives? && Flat(Expand(key, WordSyntax(cfg), env).out)
            == KeyName(cfg, key, env)
  {
  }

  /** Env mounts that expand alike ask for the same names. */
  lemma {:induction false} ExplicitAlike(cfg: Config, found: set<string>, m1: seq<string>, m2: seq<string>,
      e1: Env, e2: Env)
    requires |m1| == |m2|
    requires forall i | 0 <= i < |m1| :: Expand(m1[i], WordSyntax(cfg), e1) == Expand(m2[i], WordSyntax(cfg), e2)
    ensures Explicit(cfg, found, m1, e1) == Explicit(cfg, found, m2, e2)
    decreases |m1|
  {
    hide Expand;
    if m1 != [] {
      var e := Expand(m1[0], WordSyntax(cfg), e1);
      if e.Gives? {
        ExplicitAlike(cfg, found + {Flat(e.out)}, m1[1..], m2[1..], e1, e2);
      }
    }
  }

  /** The secrets a `RUN` mounts make up for the inputs the prepared build does not hold. */
  lemma SecretsMakeUp(cfg: Config, st: State, o: Frame, v: Frame, buildArgs: map<string, string>, left: set<string>,
      explicit: set<string>)
    requires ValidConfig(cfg) && InStep(cfg, st, o, v, buildArgs)
    requires left * st.active.Keys == explicit * st.active.Keys
    ensures Seen(View(v) + (st.active - left), explicit) == Seen(View(o), explicit)
  {
    hide Reserved, KeyAlias, StagesAlike, AliasesHeld, NoReserved;
    forall n | !Reserved(n) && n !in explicit
      ensures SameValue(n, View(o), n, View(v) + (st.active - left))
    {
      if n !in st.active {
        assert SameValue(n, o.env, n, v.env) && SameValue(n, o.args, n, v.args);
      } else {
        assert n !in explicit * st.active.Keys;
      }
    }
  }

  lemma NoneTwice(active: set<string>, left: set<string>, explicit: set<string>)
    requires left * active == explicit * active
    ensures (active - left) * explicit == {}
  {
    forall n | n in active && n in explicit ensures n in left {
      assert n in explicit * active;
    }
  }

  /** The prepared step of a `RUN`: its flags and mounts rewritten, and the secrets of the active inputs left. */
  lemma RunProcessed(cfg: Config, st: State, step: Step, secrets: map<string, string>)
    requires ValidConfig(cfg) && S.GoodSecrets(cfg, st.secrets) && S.GoodSecrets(cfg, secrets)
    requires step.Run? && Process(cfg, st, step).Ok? && PlanStep(cfg, step, st.active).Ok?
    requires Submap(Process(cfg, st, step).value.0.secrets, secrets)
    ensures var (next, out) := Process(cfg, st, step).value;
            var b := BindingsFor(PlanStep(cfg, step, st.active).value.needed);
            && next.active == st.active
            && out == OutRun(ArgsOf(out), RewriteAll(step.flags, b, FlagSyntax()),
                             RewriteAll(step.mounts, b, FlagSyntax()), out.secrets, step.script)
            && (forall m | m in step.mounts :: Parse(m, WordSyntax(cfg)).Parsed?)
            && AllFound(out.secrets, secrets)
            && SecretEnv(out.secrets, secrets) == st.active - KeyNames(cfg, step.mounts, st.active)
            && MountedNames(out.secrets) == st.active.Keys - KeyNames(cfg, step.mounts, st.active)
  {
    hide Process, PlanStep, ParseTo, KeyNames, S.GoodSecrets, Explicit, R.Rewrite, ValidConfig, S.MountsInput;
    S.RunMountsExactly(cfg, st, step, secrets);
    ExplicitIs(cfg, {}, step.mounts, st.active);
    RunShape(cfg, st, step);
    var out := Process(cfg, st, step).value.1;
    var explicit := Explicit(cfg, {}, step.mounts, st.active).value;
    assert explicit == KeyNames(cfg, step.mounts, st.active);
    S.SecretEnvIs(cfg, out.secrets, st.active, explicit, secrets);
  }

  lemma RunShape(cfg: Config, st: State, step: Step)
    requires step.Run? && Process(cfg, st, step).Ok? && PlanStep(cfg, step, st.active).Ok?
    ensures var (next, out) := Process(cfg, st, step).value;
            var b := BindingsFor(PlanStep(cfg, step, st.active).value.needed);
            && next.active == st.active
            && out.OutRun?
            && out == OutRun(ArgsOf(out), RewriteAll(step.flags, b, FlagSyntax()),
                             RewriteAll(step.mounts, b, FlagSyntax()), out.secrets, step.script)
  {
    hide PlanStep, DeclareExprs, R.Rewrite, MountSecrets;
    var pl := PlanStep(cfg, step, st.active).value;
    DeclareKeepsActive(cfg, st, pl);
  }

  lemma RunInStep(cfg: Config, st: State, step: Step, o: Frame, w: Frame, buildArgs: map<string, string>,
      secrets: map<string, string>)
    requires ValidConfig(cfg) && GoodArgs(cfg, st.buildArgs) && GoodArgs(cfg, buildArgs)
            && InStep(cfg, st, o, w, buildArgs)
    requires S.GoodSecrets(cfg, st.secrets) && S.GoodSecrets(cfg, secrets)
    requires step.Run? && Process(cfg, st, step).Ok? && Ordinary(cfg, st, step, o)
    requires Submap(Process(cfg, st, step).value.0.buildArgs, buildArgs)
    requires Submap(Process(cfg, st, step).value.0.secrets, secrets)
    ensures var (next, out) := Process(cfg, st, step).value;
            var o', w' := ExecOriginal(cfg, o, step), ExecPrepared(cfg, w, out, buildArgs, secrets);
            o'.Ok? && w'.Ok? && o'.value.1 == w'.value.1 && InStep(cfg, next, o'.value.0, w'.value.0, buildArgs)
  {
    hide R.Rewrite, ParseTo, InStep, GoodArg, View, DeclareExprs, DeclareKeys, Explicit, PlanStep, GoodPlan, Process,
        PlainFlag, Linked, KeyNames, Seen, Declare, ValidArgName, S.GoodSecrets, SecretEnv, MountedNames, AllFound,
        ValidConfig;
    DeclareInStep(cfg, st, step, o, w, buildArgs);
    var (next, out) := Process(cfg, st, step).value;
    var pl := PlanStep(cfg, step, st.active).value;
    var v := Declare(w, ArgsOf(out), buildArgs);
    RunProcessed(cfg, st, step, secrets);
    NeededAreActive(cfg, step, st.active, pl);
    forall f | f in step.flags + step.mounts
      ensures Expand(R.Rewrite(f, BindingsFor(pl.needed), FlagSyntax(), Bare), WordSyntax(cfg), View(v))
              == Expand(f, WordSyntax(cfg), View(o))
    {
      FlagMeans(cfg, next, step, o, v, buildArgs, f);
    }
    assert forall i | 0 <= i < |step.flags| :: step.flags[i] in step.flags + step.mounts;
    assert ExpandAll(out.flags, WordSyntax(cfg), View(v)) == ExpandAll(step.flags, WordSyntax(cfg), View(o));
    assert forall i | 0 <= i < |step.mounts| :: step.mounts[i] in step.flags + step.mounts;
    ExplicitAlike(cfg, {}, out.mounts, step.mounts, View(v), View(o));
    ExplicitIs(cfg, {}, step.mounts, View(o));
    SecretsMakeUp(cfg, next, o, v, buildArgs, KeyNames(cfg, step.mounts, st.active),
        KeyNames(cfg, step.mounts, View(o)));
    NoneTwice(st.active.Keys, KeyNames(cfg, step.mounts, st.active), KeyNames(cfg, step.mounts, View(o)));
    assert {} + KeyNames(cfg, step.mounts, View(o)) == KeyNames(cfg, step.mounts, View(o));
  }

  lemma NeededAreActive(cfg: Config, step: Step, active: map<string, string>, pl: Plan)
    requires !step.From? && GoodPlan(cfg, step, active, pl)
    ensures pl.needed <= active.Keys
  {
  }

  lemma DeclareKeepsActive(cfg: Config, st: State, pl: Plan)
    ensures var (s1, _) := DeclareExprs(st, {}, pl.exprs, pl.used);
            DeclareKeys(cfg, s1, pl.needed).0.active == st.active
  {
    S.DeclareExprsSecrets(st, {}, pl.exprs, pl.used);
  }

  // ---- Headers ----

  lemma OtherProcessed(cfg: Config, st: State, step: Step)
    requires step.Other? && Process(cfg, st, step).Ok? && PlanStep(cfg, step, st.active).Ok?
    ensures var (next, out) := Process(cfg, st, step).value;
            var pl := PlanStep(cfg, step, st.active).value;
            var b := BindingsFor(pl.needed);
            && out == OutOther(ArgsOf(out), step.kind, R.Rewrite(pl.header, b, HeaderSyntax(cfg, step.kind), Bare),
                               RewriteDocs(step.docs, b))
            && (if step.kind.Env? then Override(cfg, st.active, step.keys) == Ok(next.active)
              else next.active == st.active)
  {
    hide PlanStep, DeclareExprs, R.Rewrite, Override;
    var pl := PlanStep(cfg, step, st.active).value;
    DeclareKeepsActive(cfg, st, pl);
  }

  /** An `ENV` whose keys name what they name in the build takes out of `active` exactly the names it assigns. */
  lemma {:induction false} OverrideRemoves(cfg: Config, active: map<string, string>, keys: seq<string>, env: Env)
    requires Override(cfg, active, keys).Ok? && KeysAgree(cfg, keys, active, env)
    ensures Override(cfg, active, keys).value == active - KeyNames(cfg, keys, env)
    decreases |keys|
  {
    hide ParseTo, KeyName;
    if keys != [] {
      var name, wanted := KeyName(cfg, keys[0], active), KeyName(cfg, keys[0], env);
      NameIsFlat(cfg, keys[0], active);
      assert active - {name} == active - {wanted};
      OverrideRemoves(cfg, active - {name}, keys[1..], env);
      KeyNamesStep(cfg, keys, env);
      assert (active - {wanted}) - KeyNames(cfg, keys[1..], env) == active - KeyNames(cfg, keys, env);
    } else {
      assert KeyNames(cfg, keys, env) == {};
      assert active - {} == active;
    }
  }

  lemma KeyNamesStep(cfg: Config, keys: seq<string>, env: Env)
    requires keys != []
    ensures KeyNames(cfg, keys, env) == {KeyName(cfg, keys[0], env)} + KeyNames(cfg, keys[1..], env)
  {
    hide KeyName;
    assert keys == [keys[0]] + keys[1..];
  }

  /** Assigning the same unreserved names in both builds keeps them in step. */
  lemma AssignInStep(cfg: Config, st: State, next: State, o: Frame, v: Frame, buildArgs: map<string, string>,
      a: map<string, string>)
    requires InStep(cfg, st, o, v, buildArgs) && NoReserved(a)
    requires next.declared == st.declared && next.active == st.active - a.Keys
    ensures InStep(cfg, next, o.(env := o.env + a), v.(env := v.env + a), buildArgs)
  {
    hide Reserved, KeyAlias, StagesAlike, AliasesHeld;
    var e1, e2 := o.env + a, v.env + a;
    forall n | !Reserved(n) && n !in next.active ensures SameValue(n, e1, n, e2) {
      if n !in a {
        assert SameValue(n, o.env, n, v.env);
      }
    }
    assert Alike(next.active.Keys, e1, e2);
  }

  lemma ArgInStep(cfg: Config, st: State, o: Frame, v: Frame, buildArgs: map<string, string>, a: map<string, string>)
    requires InStep(cfg, st, o, v, buildArgs) && NoReserved(a)
    ensures InStep(cfg, st, o.(args := o.args + a), v.(args := v.args + a), buildArgs)
  {
    hide Reserved, KeyAlias, StagesAlike;
    var e1, e2 := o.args + a, v.args + a;
    forall n | !Reserved(n) ensures SameValue(n, e1, n, e2) {
      assert SameValue(n, o.args, n, v.args);
    }
    assert Alike({}, e1, e2);
  }

  lemma OtherInStep(cfg: Config, st: State, step: Step, o: Frame, w: Frame, buildArgs: map<string, string>,
      secrets: map<string, string>)
    requires ValidConfig(cfg) && GoodArgs(cfg, st.buildArgs) && GoodArgs(cfg, buildArgs)
            && InStep(cfg, st, o, w, buildArgs)
    requires step.Other? && Process(cfg, st, step).Ok? && Ordinary(cfg, st, step, o)
    requires Submap(Process(cfg, st, step).value.0.buildArgs, buildArgs)
    ensures var (next, out) := Process(cfg, st, step).value;
            var o', w' := ExecOriginal(cfg, o, step), ExecPrepared(cfg, w, out, buildArgs, secrets);
            (o'.Ok? <==> w'.Ok?) && (o'.Ok? && w'.Ok? ==>
              o'.value.1 == w'.value.1 && InStep(cfg, next, o'.value.0, w'.value.0, buildArgs))
  {
    hide R.Rewrite, ParseTo, InStep, GoodArg, View, Process, Override, PlanStep, GoodPlan, OrdinaryHeader, KeyNames,
        H.Assignments, Declare, ReadHeader, ValidArgName, ValidConfig;
    DeclareInStep(cfg, st, step, o, w, buildArgs);
    var (next, out) := Process(cfg, st, step).value;
    var pl := PlanStep(cfg, step, st.active).value;
    var v := Declare(w, ArgsOf(out), buildArgs);
    var mid := next.(active := st.active);
    OtherProcessed(cfg, st, step);
    MidFacts(cfg, st, mid, step);
    HeaderMeans(cfg, mid, step, o, v, buildArgs);
    NeededAreActive(cfg, step, st.active, pl);
    DocsMean(cfg, mid, step, o, v, buildArgs);
    var h := ReadHeader(cfg, step.kind, step.header, View(o));
    if h.Gives? {
      if step.kind.Env? {
        OverrideRemoves(cfg, st.active, step.keys, View(o));
        AssignInStep(cfg, mid, next, o, v, buildArgs, H.Assignments(h.out));
      } else if step.kind.Arg? {
        ArgInStep(cfg, mid, o, v, buildArgs, H.Assignments(h.out));
        assert mid == next;
      } else {
        assert mid == next;
      }
    }
  }

  lemma MidFacts(cfg: Config, st: State, mid: State, step: Step)
    requires step.Other? && mid.active == st.active && PlanStep(cfg, step, st.active).Ok?
            && OrdinaryHeader(cfg, st, step)
    ensures OrdinaryHeader(cfg, mid, step)
  {
  }

  /** One step of both builds: both fail, or they show the same and stay in step. */
  lemma StepInStep(cfg: Config, st: State, step: Step, o: Frame, w: Frame, buildArgs: map<string, string>,
      secrets: map<string, string>)
    requires ValidConfig(cfg) && GoodArgs(cfg, st.buildArgs) && GoodArgs(cfg, buildArgs)
            && InStep(cfg, st, o, w, buildArgs)
    requires S.GoodSecrets(cfg, st.secrets) && S.GoodSecrets(cfg, secrets)
    requires Process(cfg, st, step).Ok? && Ordinary(cfg, st, step, o)
    requires Submap(Process(cfg, st, step).value.0.buildArgs, buildArgs)
    requires Submap(Process(cfg, st, step).value.0.secrets, secrets)
    ensures var (next, out) := Process(cfg, st, step).value;
            var o', w' := ExecOriginal(cfg, o, step), ExecPrepared(cfg, w, out, buildArgs, secrets);
            (o'.Ok? <==> w'.Ok?) && (o'.Ok? && w'.Ok? ==>
              o'.value.1 == w'.value.1 && InStep(cfg, next, o'.value.0, w'.value.0, buildArgs))
  {
    hide Ordinary, InStep, Process, ExecOriginal, ExecPrepared, GoodArg, S.GoodSecrets;
    match step
    case From(source) => FromProcessed(cfg, st, step, o, w, buildArgs, secrets);
    case Run(_, _, _, _) => RunInStep(cfg, st, step, o, w, buildArgs, secrets);
    case Other(_, _, _, _, _, _) => OtherInStep(cfg, st, step, o, w, buildArgs, secrets);
  }

  lemma FromProcessed(cfg: Config, st: State, step: Step, o: Frame, w: Frame, buildArgs: map<string, string>,
      secrets: map<string, string>)
    requires ValidConfig(cfg) && InStep(cfg, st, o, w, buildArgs) && step.From? && Ordinary(cfg, st, step, o)
    ensures Process(cfg, st, step).Ok?
    ensures var (next, out) := Process(cfg, st, step).value;
            var o', w' := ExecOriginal(cfg, o, step), ExecPrepared(cfg, w, out, buildArgs, secrets);
            o'.Ok? && w'.Ok? && o'.value.1 == w'.value.1 && InStep(cfg, next, o'.value.0, w'.value.0, buildArgs)
  {
    hide InStep;
    FromInStep(cfg, st, o, w, buildArgs, step.source);
  }

  /** Every instruction the original build reaches is an ordinary one. */
  ghost predicate OrdinaryFile(cfg: Config, st: State, steps: seq<Step>, o: Frame)
    decreases |steps|
  {
    steps != [] && Process(cfg, st, steps[0]).Ok? ==>
      && Ordinary(cfg, st, steps[0], o)
      && (ExecOriginal(cfg, o, steps[0]).Ok? ==>
            OrdinaryFile(cfg, Process(cfg, st, steps[0]).value.0, steps[1..], ExecOriginal(cfg, o, steps[0]).value.0))
  }

  lemma {:induction false} RunsAlike(cfg: Config, st: State, steps: seq<Step>, o: Frame, w: Frame,
      buildArgs: map<string, string>, secrets: map<string, string>)
    requires ValidConfig(cfg) && GoodArgs(cfg, st.buildArgs) && GoodArgs(cfg, buildArgs)
            && InStep(cfg, st, o, w, buildArgs)
    requires S.GoodSecrets(cfg, st.secrets) && S.GoodSecrets(cfg, secrets)
    requires ProcessAll(cfg, st, steps).Ok? && OrdinaryFile(cfg, st, steps, o)
    requires Submap(ProcessAll(cfg, st, steps).value.0.buildArgs, buildArgs)
    requires Submap(ProcessAll(cfg, st, steps).value.0.secrets, secrets)
    ensures RunPrepared(cfg, w, ProcessAll(cfg, st, steps).value.1, buildArgs, secrets) == RunOriginal(cfg, o, steps)
    decreases |steps|
  {
    hide Ordinary, InStep, Process, ExecOriginal, ExecPrepared, GoodArg, S.GoodSecrets, ValidConfig;
    if steps != [] {
      var (next, out) := Process(cfg, st, steps[0]).value;
      var rest := ProcessAll(cfg, next, steps[1..]).value;
      InStepInputs(cfg, st, o, w, buildArgs);
      ProcessKeepsArgs(cfg, st, steps[0]);
      BuildArgsAgree(cfg, next, steps[1..]);
      S.StepKeepsSecrets(cfg, st, steps[0]);
      S.SecretsOnlyGrow(cfg, next, steps[1..]);
      StepInStep(cfg, st, steps[0], o, w, buildArgs, secrets);
      var o', w' := ExecOriginal(cfg, o, steps[0]), ExecPrepared(cfg, w, out, buildArgs, secrets);
      if o'.Ok? {
        RunsAlike(cfg, next, steps[1..], o'.value.0, w'.value.0, buildArgs, secrets);
      }
      assert ([out] + rest.1)[1..] == rest.1;
    }
  }

  /** Without inputs nothing is rewritten, and nothing injected. */
  lemma {:induction false} UnchangedRunsAlike(cfg: Config, steps: seq<Step>, f: Frame)
    requires cfg.values == map[]
    ensures RunPrepared(cfg, f, Unchanged(steps), map[], map[]) == RunOriginal(cfg, f, steps)
    decreases |steps|
  {
    hide ExecOriginal, ExecPrepared, UnchangedStep;
    if steps != [] {
      UnchangedStepAlike(cfg, steps[0], f);
      var r := ExecOriginal(cfg, f, steps[0]);
      if r.Ok? {
        UnchangedRunsAlike(cfg, steps[1..], r.value.0);
      }
      assert Unchanged(steps)[1..] == Unchanged(steps[1..]);
    }
  }

  lemma UnchangedStepAlike(cfg: Config, step: Step, f: Frame)
    requires cfg.values == map[]
    ensures ExecPrepared(cfg, f, UnchangedStep(step), map[], map[]) == ExecOriginal(cfg, f, step)
  {
    hide Explicit, ReadHeader;
    assert f.args + map[] == f.args;
    assert Declare(f, {}, map[]) == f;
    assert View(f) + map[] == View(f);
    assert MountedNames([]) == {};
    assert forall e: set<string> :: {} * e == {};
    if step.From? {
      assert BaseEnv(f, step.source) + map[] == BaseEnv(f, step.source);
    }
  }

  /**
   Main result: for every file of ordinary instructions, the prepared file, built with the prepared build
   arguments and secrets but without the inputs, shows at every instruction exactly what the original file shows
   when the inputs are injected at each `FROM` and overridden by `ENV`, and fails where that fails.
   */
  lemma PreparePreservesMeaning(cfg: Config, steps: seq<Step>)
    requires ValidConfig(cfg) && PrepareSpec(cfg, steps).Ok?
    requires cfg.values != map[] ==> OrdinaryFile(cfg, START, steps, FIRST)
    ensures var p := PrepareSpec(cfg, steps).value;
            RunPrepared(cfg, FIRST, p.steps, p.buildArgs, p.secrets) == RunOriginal(cfg, FIRST, steps)
  {
    hide ProcessAll, OrdinaryFile, RunOriginal, RunPrepared;
    if cfg.values == map[] {
      UnchangedRunsAlike(cfg, steps, FIRST);
    } else {
      BuildArgsAgree(cfg, START, steps);
      S.SecretsOnlyGrow(cfg, START, steps);
      var p := PrepareSpec(cfg, steps).value;
      RunsAlike(cfg, START, steps, FIRST, FIRST, p.buildArgs, p.secrets);
    }
  }
}
