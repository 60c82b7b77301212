/**
 Which inputs `Prepare` keeps active, which aliases it declares, and which inputs it makes public: over every run,
 `active` is the input map minus what `ENV` has assigned since the last `FROM`, every alias used has its `ARG` earlier
 in the stage, and an input becomes a build argument only because a word of some instruction referred to it while it
 was active.
 */
module PrepareInputs {
  import opened References
  import opened Prepare
  import opened DockerfileRuns
  import H = HeaderReading
  import PrepareMeaning
  import PrepareSecrets
  import M = Materializer
  import R = Rewriter
  import W = WordSplitting

  // ---- The inputs still active ----

  /** What `ENV` leaves of the inputs, told from the original build alone. */
  function LeftAfter(cfg: Config, o: Frame, step: Step, left: map<string, string>): map<string, string> {
    match step
    case From(_) => cfg.values
    case Run(_, _, _, _) => left
    case Other(kind, header, _, _, _, _) =>
      var h := ReadHeader(cfg, kind, header, View(o));
      if kind.Env? && h.Gives? then left - H.Assignments(h.out).Keys else left
  }

  /** The inputs not overridden: all of them at `FROM`, fewer after each `ENV`. */
  function NotOverridden(cfg: Config, o: Frame, steps: seq<Step>, left: map<string, string>): map<string, string>
    decreases |steps|
  {
    if steps == [] then left
    else
      var r := ExecOriginal(cfg, o, steps[0]);
      if r.Err? then left
      else NotOverridden(cfg, r.value.0, steps[1..], LeftAfter(cfg, o, steps[0], left))
  }

  /** Every `ENV` the original build executes assigns its keys, which `Prepare` reads rightly; nothing else is asked. */
  ghost predicate AllKeysRight(cfg: Config, st: State, steps: seq<Step>, o: Frame)
    decreases |steps|
  {
    steps != [] && Process(cfg, st, steps[0]).Ok? ==>
      && (steps[0].Other? ==> PrepareMeaning.KeysRight(cfg, st.active, steps[0], o))
      && (ExecOriginal(cfg, o, steps[0]).Ok? ==>
            AllKeysRight(cfg, Process(cfg, st, steps[0]).value.0, steps[1..], ExecOriginal(cfg, o, steps[0]).value.0))
  }

  /**
   After any instructions `active` is the input map minus the names `ENV` assigned since the last `FROM`, whatever else
   the instructions hold.
   */
  lemma {:induction false} ActiveIsNotOverridden(cfg: Config, st: State, steps: seq<Step>, o: Frame)
    requires ProcessAll(cfg, st, steps).Ok? && RunOriginal(cfg, o, steps).Ok? && AllKeysRight(cfg, st, steps, o)
    ensures ProcessAll(cfg, st, steps).value.0.active == NotOverridden(cfg, o, steps, st.active)
    decreases |steps|
  {
    hide PrepareMeaning.KeysRight, Process, ExecOriginal, LeftAfter;
    if steps != [] {
      StepActive(cfg, st, steps[0], o);
      ActiveIsNotOverridden(cfg, Process(cfg, st, steps[0]).value.0, steps[1..],
                            ExecOriginal(cfg, o, steps[0]).value.0);
    }
  }

  lemma StepActive(cfg: Config, st: State, step: Step, o: Frame)
    requires Process(cfg, st, step).Ok? && ExecOriginal(cfg, o, step).Ok?
    requires step.Other? ==> PrepareMeaning.KeysRight(cfg, st.active, step, o)
    ensures Process(cfg, st, step).value.0.active == LeftAfter(cfg, o, step, st.active)
  {
    hide ParseTo, Override, PlanStep, ReadHeader, View, PrepareMeaning.KeyNames;
    match step
    case From(_) =>
    case Run(_, _, _, _) =>
      ProcessPlans(cfg, st, step);
      hide Process;
      PrepareMeaning.RunShape(cfg, st, step);
    case Other(_, _, _, _, _, _) =>
      ProcessPlans(cfg, st, step);
      hide Process;
      PrepareMeaning.OtherProcessed(cfg, st, step);
      if step.kind.Env? {
        PrepareMeaning.OverrideRemoves(cfg, st.active, step.keys, View(o));
      }
  }

  lemma ProcessPlans(cfg: Config, st: State, step: Step)
    requires !step.From? && Process(cfg, st, step).Ok?
    ensures PlanStep(cfg, step, st.active).Ok?
  {
    hide PlanStep, DeclareExprs, DeclareKeys, Override, Explicit, MountSecrets, RewriteAll, RewriteDocs, R.Rewrite;
  }

  /** From the start of a file: nothing is active before the first `FROM`. */
  lemma ActiveInFile(cfg: Config, steps: seq<Step>)
    requires ProcessAll(cfg, START, steps).Ok? && RunOriginal(cfg, FIRST, steps).Ok?
    requires AllKeysRight(cfg, START, steps, FIRST)
    ensures ProcessAll(cfg, START, steps).value.0.active == NotOverridden(cfg, FIRST, steps, map[])
  {
    hide ProcessAll, AllKeysRight, NotOverridden, RunOriginal;
    ActiveIsNotOverridden(cfg, START, steps, FIRST);
  }

  // ---- The aliases declared ----

  /** The aliases with an `ARG` line since the last `FROM`, `before` among them. */
  function StageArgs(before: set<string>, outs: seq<OutStep>): set<string>
    decreases |outs|
  {
    if outs == [] then before
    else StageArgs(if outs[0].OutFrom? then {} else before + PrepareMeaning.ArgsOf(outs[0]), outs[1..])
  }

  /** The aliases a step may write into its instruction. */
  function AliasesUsed(cfg: Config, step: Step, active: map<string, string>): set<string> {
    if step.From? then {}
    else
      var plan := PlanStep(cfg, step, active);
      if plan.Err? then {} else plan.value.used + KeyAliases(plan.value.needed)
  }

  ghost predicate AllWritten(declared: set<string>, args: set<string>) {
    forall d | d in declared :: PrepareMeaning.Written(args, d)
  }

  /** One step: what it uses is declared by it or before it, and so is all that counts as declared after it. */
  lemma StepDeclaresAliases(cfg: Config, st: State, step: Step, before: set<string>)
    requires ValidConfig(cfg) && GoodArgs(cfg, st.buildArgs) && Submap(st.active, cfg.values)
    requires !step.From? && Process(cfg, st, step).Ok? && AllWritten(st.declared, before)
    ensures var (next, out) := Process(cfg, st, step).value;
            && AliasesUsed(cfg, step, st.active) <= before + PrepareMeaning.ArgsOf(out)
            && AllWritten(next.declared, before + PrepareMeaning.ArgsOf(out))
  {
    hide Process, PlanStep, GoodArg, KeyAlias, Reserved, GoodPlan, ValidConfig;
    PrepareMeaning.ProcessDeclares(cfg, st, step);
    var (next, out) := Process(cfg, st, step).value;
    var pl := PlanStep(cfg, step, st.active).value;
    var args := PrepareMeaning.ArgsOf(out);
    PrepareMeaning.UsedAreReserved(cfg, st, step, pl);
    PrepareMeaning.NeededAreInputs(cfg, step, st.active, pl);
    forall d | d in next.declared ensures PrepareMeaning.Written(before + args, d) {
      if d in st.declared {
        assert PrepareMeaning.Written(before, d);
      } else if d !in pl.used {
        assert d in pl.needed - st.declared - pl.used;
        assert KeyAlias(d) in KeyAliases(pl.needed - st.declared - pl.used);
      }
    }
    forall a | a in KeyAliases(pl.needed) ensures a in before + args {
      var k :| k in pl.needed && a == KeyAlias(k);
      assert k in next.declared && PrepareMeaning.Written(before + args, k);
    }
    forall a | a in pl.used ensures a in before + args {
      assert a in next.declared && PrepareMeaning.Written(before + args, a);
    }
  }

  /**
   Over any file: every alias a step uses was declared by an `ARG` line of that step or of one before it in its stage.
   */
  lemma {:induction false} AliasesAreDeclared(cfg: Config, st: State, steps: seq<Step>, before: set<string>, i: nat)
    requires ValidConfig(cfg) && GoodArgs(cfg, st.buildArgs) && Submap(st.active, cfg.values)
    requires ProcessAll(cfg, st, steps).Ok? && AllWritten(st.declared, before) && i < |steps|
    ensures |ProcessAll(cfg, st, steps).value.1| == |steps| && ProcessAll(cfg, st, steps[..i]).Ok?
    ensures AliasesUsed(cfg, steps[i], ProcessAll(cfg, st, steps[..i]).value.0.active)
            <= StageArgs(before, ProcessAll(cfg, st, steps).value.1[..i + 1])
    decreases |steps|
  {
    hide Process, GoodArg, AllWritten, AliasesUsed, ValidConfig;
    PrepareSecrets.OneEach(cfg, st, steps);
    var (next, out) := Process(cfg, st, steps[0]).value;
    var outs := ProcessAll(cfg, st, steps).value.1;
    var more := if out.OutFrom? then {} else before + PrepareMeaning.ArgsOf(out);
    PrepareMeaning.ProcessKeepsArgs(cfg, st, steps[0]);
    FirstDeclares(cfg, st, steps[0], before);
    assert outs[..i + 1][0] == out && outs[..i + 1][1..] == outs[1..][..i];
    if i == 0 {
      assert steps[..0] == [] && outs[1..][..0] == [];
    } else {
      AliasesAreDeclared(cfg, next, steps[1..], more, i - 1);
      assert steps[..i][1..] == steps[1..][..i - 1] && steps[..i][0] == steps[0];
    }
  }

  lemma FirstDeclares(cfg: Config, st: State, step: Step, before: set<string>)
    requires ValidConfig(cfg) && GoodArgs(cfg, st.buildArgs) && Submap(st.active, cfg.values)
    requires Process(cfg, st, step).Ok? && AllWritten(st.declared, before)
    ensures var (next, out) := Process(cfg, st, step).value;
            var more := if out.OutFrom? then {} else before + PrepareMeaning.ArgsOf(out);
            AllWritten(next.declared, more) && AliasesUsed(cfg, step, st.active) <= more
  {
    hide GoodArg, PlanStep, ValidConfig;
    if !step.From? {
      NoFrom(cfg, st, step);
      hide Process, AllWritten, AliasesUsed;
      StepDeclaresAliases(cfg, st, step, before);
    }
  }

  lemma NoFrom(cfg: Config, st: State, step: Step)
    requires !step.From? && Process(cfg, st, step).Ok?
    ensures !Process(cfg, st, step).value.1.OutFrom?
  {
    hide PlanStep, DeclareExprs, DeclareKeys, Override, Explicit, MountSecrets, RewriteAll, RewriteDocs, R.Rewrite;
  }

  /** What counts as declared: inputs an `ARG` can name, and words' aliases. */
  ghost predicate Declarable(cfg: Config, d: string) {
    (ValidArgName(d) && !Reserved(d)) || exists w :: d == ExprAlias(cfg, w)
  }

  /** Every `ARG` line so far was counted. */
  ghost predicate AllCounted(cfg: Config, before: set<string>, declared: set<string>) {
    && (forall d | d in declared :: Declarable(cfg, d))
    && forall a | a in before :: a in declared || exists k :: k in declared && ValidArgName(k) && a == KeyAlias(k)
  }

  /** Declaring words adds an `ARG` line for each alias that is new, and counts it. */
  lemma {:induction false} NewExprArgs(st: State, args: set<string>, exprs: seq<M.Expression>, used: set<string>)
    ensures var (s, a) := DeclareExprs(st, args, exprs, used);
            && (forall x | x in a - args :: x !in st.declared && exists e :: e in exprs && e.alias == x)
            && args <= a && st.declared <= s.declared && s.declared - st.declared <= a && a - args <= s.declared
    decreases |exprs|
  {
    if exprs != [] {
      var (next, more) := PrepareMeaning.DeclareOne(st, args, exprs[0], used);
      NewExprArgs(next, more, exprs[1..], used);
      var a := DeclareExprs(st, args, exprs, used).1;
      forall x | x in a - args ensures x !in st.declared && exists e :: e in exprs && e.alias == x {
        if x in more {
          assert exprs[0] in exprs && exprs[0].alias == x;
        } else {
          var e :| e in exprs[1..] && e.alias == x;
          assert e in exprs;
        }
      }
    }
  }

  lemma ProcessArgs(cfg: Config, st: State, step: Step)
    requires !step.From? && Process(cfg, st, step).Ok? && PlanStep(cfg, step, st.active).Ok?
    ensures var (next, out) := Process(cfg, st, step).value;
            var pl := PlanStep(cfg, step, st.active).value;
            var (s, args) := DeclareExprs(st, {}, pl.exprs, pl.used);
            && PrepareMeaning.ArgsOf(out) == args + KeyAliases(pl.needed - s.declared)
            && next.declared == s.declared + pl.needed
            && forall k | k in pl.needed :: ValidArgName(k)
  {
    hide PlanStep, DeclareExprs, Override, Explicit, MountSecrets, RewriteAll, RewriteDocs, R.Rewrite, KeyAlias,
        ValidArgName;
  }

  /** One step: none of its `ARG` lines repeats one from before it in its stage. */
  lemma StepDeclaresOnce(cfg: Config, st: State, step: Step, before: set<string>)
    requires ValidConfig(cfg) && Submap(st.active, cfg.values) && AllCounted(cfg, before, st.declared)
    requires !step.From? && Process(cfg, st, step).Ok? && PlanStep(cfg, step, st.active).Ok?
    ensures var (next, out) := Process(cfg, st, step).value;
            && PrepareMeaning.ArgsOf(out) !! before
            && AllCounted(cfg, before + PrepareMeaning.ArgsOf(out), next.declared)
  {
    hide Process, PlanStep, KeyAlias, ExprAlias, ValidArgName, Reserved, DeclareExprs, CapturedFrom;
    var (next, out) := Process(cfg, st, step).value;
    var pl := PlanStep(cfg, step, st.active).value;
    var (s, args) := DeclareExprs(st, {}, pl.exprs, pl.used);
    ProcessArgs(cfg, st, step);
    PlanIsGood(cfg, step, st.active);
    NewExprArgs(st, {}, pl.exprs, pl.used);
    forall x | x in args ensures x !in before && Declarable(cfg, x) {
      assert x in args - {};
      var e :| e in pl.exprs && e.alias == x;
      var w := WordOf(cfg, step, st.active, e);
      NotCounted(cfg, before, st.declared, w);
    }
    forall x | x in KeyAliases(pl.needed - s.declared) ensures x !in before {
      var k :| k in pl.needed - s.declared && x == KeyAlias(k);
      NeededAreFree(cfg, st, k);
      KeyNotCounted(cfg, before, st.declared, k);
    }
    forall k | k in pl.needed ensures Declarable(cfg, k) {
      NeededAreFree(cfg, st, k);
    }
    forall a | a in before + PrepareMeaning.ArgsOf(out)
      ensures a in next.declared || exists k :: k in next.declared && ValidArgName(k) && a == KeyAlias(k)
    {
      if a in KeyAliases(pl.needed - s.declared) {
        var k :| k in pl.needed - s.declared && a == KeyAlias(k);
        assert k in next.declared;
      }
    }
  }

  lemma WordOf(cfg: Config, step: Step, active: map<string, string>, e: M.Expression) returns (w: string)
    requires !step.From? && PlanStep(cfg, step, active).Ok? && e in PlanStep(cfg, step, active).value.exprs
    requires GoodPlan(cfg, step, active, PlanStep(cfg, step, active).value)
    ensures e.alias == ExprAlias(cfg, w)
  {
    hide PlanStep, ExprAlias;
    var v :| v in step.words && CapturedFrom(cfg, step.kind, active, e, v);
    w := v.text;
  }

  lemma NeededAreFree(cfg: Config, st: State, k: string)
    requires ValidConfig(cfg) && Submap(st.active, cfg.values) && k in st.active
    ensures !Reserved(k)
  {
  }

  /** A word's alias that is not counted has no `ARG` line yet. */
  lemma NotCounted(cfg: Config, before: set<string>, declared: set<string>, w: string)
    requires AllCounted(cfg, before, declared) && ExprAlias(cfg, w) !in declared
    ensures ExprAlias(cfg, w) !in before
  {
    hide KeyAlias, ExprAlias;
    if ExprAlias(cfg, w) in before {
      var k :| k in declared && ValidArgName(k) && ExprAlias(cfg, w) == KeyAlias(k);
      AliasesDiffer(cfg, k, w);
    }
  }

  /** Nor has an input that is not counted. */
  lemma KeyNotCounted(cfg: Config, before: set<string>, declared: set<string>, k: string)
    requires ValidConfig(cfg) && AllCounted(cfg, before, declared) && k !in declared && ValidArgName(k)
    ensures KeyAlias(k) !in before
  {
    hide KeyAlias, ExprAlias, ValidArgName;
    if KeyAlias(k) in before {
      AliasesAreNames(cfg, k);
      if KeyAlias(k) in declared {
        var w :| KeyAlias(k) == ExprAlias(cfg, w);
        assert k != [] by { ArgIsNonEmpty(k); }
        AliasesDiffer(cfg, k, w);
      } else {
        var j :| j in declared && ValidArgName(j) && KeyAlias(k) == KeyAlias(j);
        KeyAliasInjective(k, j);
      }
    }
  }

  lemma ArgIsNonEmpty(k: string)
    requires ValidArgName(k)
    ensures k != []
  {
  }

  /** Over any file: no `ARG` line repeats one that came before it in its stage. */
  lemma {:induction false} ArgsAreDeclaredOnce(cfg: Config, st: State, steps: seq<Step>, before: set<string>, i: nat)
    requires ValidConfig(cfg) && Submap(st.active, cfg.values) && AllCounted(cfg, before, st.declared)
    requires ProcessAll(cfg, st, steps).Ok? && i < |steps|
    ensures |ProcessAll(cfg, st, steps).value.1| == |steps|
    ensures var outs := ProcessAll(cfg, st, steps).value.1;
            PrepareMeaning.ArgsOf(outs[i]) !! StageArgs(before, outs[..i])
    decreases |steps|
  {
    hide Process, AllCounted, ValidConfig;
    PrepareSecrets.OneEach(cfg, st, steps);
    var (next, out) := Process(cfg, st, steps[0]).value;
    var outs := ProcessAll(cfg, st, steps).value.1;
    var more := if out.OutFrom? then {} else before + PrepareMeaning.ArgsOf(out);
    FirstDeclaresOnce(cfg, st, steps[0], before);
    if i == 0 {
      assert outs[..0] == [];
    } else {
      ArgsAreDeclaredOnce(cfg, next, steps[1..], more, i - 1);
      assert outs[..i][0] == out && outs[..i][1..] == outs[1..][..i - 1];
    }
  }

  lemma FirstDeclaresOnce(cfg: Config, st: State, step: Step, before: set<string>)
    requires ValidConfig(cfg) && Submap(st.active, cfg.values) && AllCounted(cfg, before, st.declared)
    requires Process(cfg, st, step).Ok?
    ensures var (next, out) := Process(cfg, st, step).value;
            && PrepareMeaning.ArgsOf(out) !! before && Submap(next.active, cfg.values)
            && AllCounted(cfg, if out.OutFrom? then {} else before + PrepareMeaning.ArgsOf(out), next.declared)
  {
    hide PlanStep, KeyAlias, ExprAlias, ValidArgName, Override;
    if !step.From? {
      NoFrom(cfg, st, step);
      ProcessPlans(cfg, st, step);
      StepDeclaresOnce(cfg, st, step, before);
      LeavesInputs(cfg, st, step);
    }
  }

  lemma LeavesInputs(cfg: Config, st: State, step: Step)
    requires !step.From? && Process(cfg, st, step).Ok? && PlanStep(cfg, step, st.active).Ok?
    requires Submap(st.active, cfg.values)
    ensures Submap(Process(cfg, st, step).value.0.active, cfg.values)
  {
    hide Process, PlanStep, Override;
    if step.Run? {
      PrepareMeaning.RunShape(cfg, st, step);
    } else {
      PrepareMeaning.OtherProcessed(cfg, st, step);
      if step.kind.Env? {
        PrepareMeaning.OverrideShrinks(cfg, st.active, step.keys);
      }
    }
  }

  // ---- The inputs made public ----

  /** Some word of the instruction, or of a `RUN`'s flags, refers to `n`; the script of a `RUN` is no such word. */
  predicate NamedByWord(cfg: Config, step: Step, n: string) {
    match step
    case From(_) => false
    case Run(_, words, _, _) => exists t | t in words :: NamedIn(t, WordSyntax(cfg), n)
    case Other(_, _, words, rawWords, _, _) =>
      || (exists w | w in words :: NamedIn(w.text, WordSyntax(cfg), n))
      || (exists t | t in rawWords :: NamedIn(t, DocSyntax(), n))
  }

  /** The word is well formed and refers to something, and every name in it is active. */
  predicate NamesInputsOnly(cfg: Config, w: Word, active: map<string, string>) {
    var p := Parse(w.text, WordSyntax(cfg));
    p.Parsed? && Names(p.text) != {} && forall n | n in Names(p.text) :: n in active
  }

  /**
   Why alias `a` may become public at this step: an active input a word refers to, or a word of active inputs only.
   */
  ghost predicate Disclosed(cfg: Config, active: map<string, string>, step: Step, a: string) {
    || (exists k :: k in active && NamedByWord(cfg, step, k) && a == KeyAlias(k))
    || (step.Other? && exists w | w in step.words :: a == ExprAlias(cfg, w.text) && NamesInputsOnly(cfg, w, active))
  }

  /** Every name a step binds is active, and some word of the step refers to it. */
  lemma NeededIsNamed(cfg: Config, step: Step, active: map<string, string>, n: string)
    requires !step.From? && PlanStep(cfg, step, active).Ok? && n in PlanStep(cfg, step, active).value.needed
    ensures n in active && NamedByWord(cfg, step, n)
  {
    hide M.Segments, M.UsedBy, M.Emit, CaptureNames, CaptureWords, NamedIn;
    PlanIsGood(cfg, step, active);
    var pl := PlanStep(cfg, step, active).value;
    var c := CaptureStep(cfg, step, active).value;
    if step.Run? {
      NeededNamesAreNamed(NOTHING, step.flagWords, WordSyntax(cfg), active, n);
    } else if n in c.needed {
      var d := CaptureWords(cfg, NOTHING, step.kind, step.header, step.words, active).value;
      NeededNamesAreNamed(d, step.rawWords, DocSyntax(), active, n);
      if n in d.needed {
        CapturedNamesAreNamed(cfg, NOTHING, step.kind, step.header, step.words, active, n);
      }
    } else {
      var e :| e in pl.exprs && n in e.references;
      var w :| w in step.words && CapturedFrom(cfg, step.kind, active, e, w);
      assert NamedIn(w.text, WordSyntax(cfg), n) by { CapturedNames(cfg, step.kind, active, e, w, n); }
    }
  }

  /** A step makes an alias public only for a word that refers to inputs active at that point. */
  lemma StepDiscloses(cfg: Config, st: State, step: Step, a: string)
    requires ValidConfig(cfg) && GoodArgs(cfg, st.buildArgs) && Submap(st.active, cfg.values)
    requires Process(cfg, st, step).Ok?
    requires a in Process(cfg, st, step).value.0.buildArgs && a !in st.buildArgs
    ensures Disclosed(cfg, st.active, step, a)
  {
    if !step.From? {
      hide PlanStep, GoodArg, NamedByWord, Process, KeyAlias, Disclosed, DeclareExprs;
      PrepareMeaning.ProcessDeclares(cfg, st, step);
      var pl := PlanStep(cfg, step, st.active).value;
      var declared := DeclareExprs(st, {}, pl.exprs, pl.used).0;
      NewArg(cfg, st, step, a);
      if a in declared.buildArgs {
        ExprDiscloses(cfg, st, step, pl, a);
      } else {
        var k :| k in pl.needed - declared.declared && a == KeyAlias(k);
        KeyDiscloses(cfg, st.active, step, k);
      }
    }
  }

  /** A build argument of a step was declared by it for a captured word or for a needed input. */
  lemma NewArg(cfg: Config, st: State, step: Step, a: string)
    requires !step.From? && Process(cfg, st, step).Ok? && PlanStep(cfg, step, st.active).Ok?
    requires a in Process(cfg, st, step).value.0.buildArgs
    ensures var pl := PlanStep(cfg, step, st.active).value;
            var declared := DeclareExprs(st, {}, pl.exprs, pl.used).0;
            a in declared.buildArgs || a in KeyAliases(pl.needed - declared.declared)
  {
    hide M.Segments, M.UsedBy, M.Emit, R.Rewrite, PlanStep, Override, Explicit, KeyAlias, DeclareExprs, MountSecrets;
  }

  lemma ExprDiscloses(cfg: Config, st: State, step: Step, pl: Plan, a: string)
    requires !step.From? && PlanStep(cfg, step, st.active).Ok? && GoodPlan(cfg, step, st.active, pl)
    requires a in DeclareExprs(st, {}, pl.exprs, pl.used).0.buildArgs && a !in st.buildArgs
    ensures Disclosed(cfg, st.active, step, a)
  {
    hide DeclareExprs, KeyAlias, NamedByWord;
    NewArgsAreExprs(st, {}, pl.exprs, pl.used, a);
    var e :| e in pl.exprs && e.alias == a;
    var w :| w in step.words && CapturedFrom(cfg, step.kind, st.active, e, w);
  }

  lemma KeyDiscloses(cfg: Config, active: map<string, string>, step: Step, k: string)
    requires !step.From? && PlanStep(cfg, step, active).Ok? && k in PlanStep(cfg, step, active).value.needed
    ensures Disclosed(cfg, active, step, KeyAlias(k))
  {
    hide PlanStep, KeyAlias, NamedByWord;
    NeededIsNamed(cfg, step, active, k);
  }

  lemma {:induction false} NewArgsAreExprs(st: State, args: set<string>, exprs: seq<M.Expression>, used: set<string>,
      a: string)
    requires a in DeclareExprs(st, args, exprs, used).0.buildArgs && a !in st.buildArgs
    ensures exists e :: e in exprs && e.alias == a
    decreases |exprs|
  {
    if exprs != [] {
      var (next, more) := PrepareMeaning.DeclareOne(st, args, exprs[0], used);
      assert exprs[0] in exprs;
      if a !in next.buildArgs {
        NewArgsAreExprs(next, more, exprs[1..], used, a);
      }
    }
  }

  /** Over a whole file: every build argument was disclosed by some instruction, in the state it was reached in. */
  lemma {:induction false} OnlyDisclosedArgs(cfg: Config, st: State, steps: seq<Step>, a: string)
    returns (i: nat)
    requires ValidConfig(cfg) && GoodArgs(cfg, st.buildArgs) && Submap(st.active, cfg.values)
    requires ProcessAll(cfg, st, steps).Ok?
    requires a in ProcessAll(cfg, st, steps).value.0.buildArgs && a !in st.buildArgs
    ensures i < |steps| && ProcessAll(cfg, st, steps[..i]).Ok?
    ensures Disclosed(cfg, ProcessAll(cfg, st, steps[..i]).value.0.active, steps[i], a)
    decreases |steps|
  {
    hide Process, Disclosed, GoodArg;
    var (next, _) := Process(cfg, st, steps[0]).value;
    PrepareMeaning.ProcessKeepsArgs(cfg, st, steps[0]);
    if a in next.buildArgs {
      i := 0;
      StepDiscloses(cfg, st, steps[0], a);
      assert steps[..0] == [];
    } else {
      var j := OnlyDisclosedArgs(cfg, next, steps[1..], a);
      i := j + 1;
      assert steps[..i][1..] == steps[1..][..j] && steps[..i][0] == steps[0];
    }
  }

  // ---- What is left alone, and what is kept private ----

  /** A candidate for replacement, told from its word and the active inputs. */
  predicate IsWordOf(cfg: Config, kind: Kind, header: string, active: map<string, string>, e: M.Expression, w: Word) {
    && NamesInputsOnly(cfg, w, active) && Contains(header, w.needle)
    && e.source == w.needle && e.alias == ExprAlias(cfg, w.text)
    && Expand(w.text, WordSyntax(cfg), active).Gives? && e.value == Flat(Expand(w.text, WordSyntax(cfg), active).out)
    && e.references == Names(Parse(w.text, WordSyntax(cfg)).text)
    && e.unquoted == (kind.Expose? && W.StaysUnquoted(PortWords(cfg, w.text, active)))
  }

  /**
   The words taken whole are exactly those of active inputs only that stand in the header, each with its value: no word
   that refers to nothing, and none with a name that is not active.
   */
  lemma CandidatesIff(cfg: Config, step: Step, active: map<string, string>, e: M.Expression)
    requires step.Other? && PlanStep(cfg, step, active).Ok?
    ensures e in PlanStep(cfg, step, active).value.exprs <==>
              exists w | w in step.words :: IsWordOf(cfg, step.kind, step.header, active, e, w)
  {
    hide M.Segments, M.UsedBy, M.Emit, CaptureNames, CaptureWords, IsWordOf;
    CapturedIff(cfg, NOTHING, step.kind, step.header, step.words, active, e);
  }

  lemma {:induction false} CapturedIff(cfg: Config, c: Captured, kind: Kind, header: string, words: seq<Word>,
      active: map<string, string>, e: M.Expression)
    requires CaptureWords(cfg, c, kind, header, words, active).Ok?
    ensures e in CaptureWords(cfg, c, kind, header, words, active).value.exprs <==>
              e in c.exprs || exists w | w in words :: IsWordOf(cfg, kind, header, active, e, w)
    decreases |words|
  {
    hide IsWordOf;
    if words != [] {
      var d := CaptureWord(cfg, c, kind, header, words[0], active);
      WordCapturedIff(cfg, c, kind, header, words[0], active, e);
      CapturedIff(cfg, d.value, kind, header, words[1..], active, e);
      assert words == [words[0]] + words[1..];
    }
  }

  lemma WordCapturedIff(cfg: Config, c: Captured, kind: Kind, header: string, w: Word, active: map<string, string>,
      e: M.Expression)
    requires CaptureWord(cfg, c, kind, header, w, active).Ok?
    ensures e in CaptureWord(cfg, c, kind, header, w, active).value.exprs <==>
              e in c.exprs || IsWordOf(cfg, kind, header, active, e, w)
  {
    hide Contains, ParseTo, Eval, Flat, ExprAlias, PortWords, W.StaysUnquoted;
    var t := Parse(w.text, WordSyntax(cfg)).text;
    if FullyKnown(t, active) {
      assert Matched(t, active) == Names(t);
      var k := KnownExpression(cfg, kind, w, t, active);
      assert IsWordOf(cfg, kind, header, active, e, w) <==> e == k && Contains(header, w.needle);
    }
  }

  /** Of an instruction no word of which names an active input nothing is planned. */
  lemma UnnamedPlansNothing(cfg: Config, step: Step, active: map<string, string>)
    requires !step.From? && PlanStep(cfg, step, active).Ok?
    requires forall n | n in active :: !NamedByWord(cfg, step, n)
    ensures var pl := PlanStep(cfg, step, active).value;
            && pl.needed == {} && pl.exprs == [] && pl.used == {}
            && (step.Other? ==> pl.header == step.header)
  {
    hide PlanStep, NamedByWord, M.Segments, M.UsedBy, M.Emit, ParseTo, CapturedFrom;
    var pl := PlanStep(cfg, step, active).value;
    PlanIsGood(cfg, step, active);
    forall n ensures n !in pl.needed {
      if n in pl.needed {
        NeededIsNamed(cfg, step, active, n);
      }
    }
    if pl.exprs != [] {
      CandidatesIff(cfg, step, active, pl.exprs[0]);
      var w :| w in step.words && IsWordOf(cfg, step.kind, step.header, active, pl.exprs[0], w);
      var n :| n in Names(Parse(w.text, WordSyntax(cfg)).text);
      WordNames(cfg, step, w, n);
    } else if step.Other? {
      var y := HeaderSyntax(cfg, step.kind);
      M.MaterializeNothing(step.header, true, y, Bare);
      M.UsedInIsUsedBy(step.header, true, y, Bare, []);
    }
  }

  lemma WordNames(cfg: Config, step: Step, w: Word, n: string)
    requires step.Other? && w in step.words && NamedIn(w.text, WordSyntax(cfg), n)
    ensures NamedByWord(cfg, step, n)
  {
    hide ParseTo;
  }

  /**
   An instruction no word of which names an active input is left as it is, byte for byte: it declares nothing, gives no
   build argument, and a `RUN` only gets its secrets.
   */
  lemma UnnamedIsUnchanged(cfg: Config, st: State, step: Step)
    requires !step.From? && Process(cfg, st, step).Ok?
    requires forall n | n in st.active :: !NamedByWord(cfg, step, n)
    ensures var (next, out) := Process(cfg, st, step).value;
            && next.declared == st.declared && next.buildArgs == st.buildArgs
            && match step
               case Run(flags, _, mounts, script) =>
                 out == OutRun({}, flags, mounts, out.secrets, script) && next.active == st.active
               case Other(kind, header, _, _, docs, _) =>
                 out == OutOther({}, kind, header, docs) && next.secrets == st.secrets
                 && (!kind.Env? ==> next.active == st.active)
  {
    hide PlanStep, NamedByWord, R.Rewrite, Override, Explicit, MountSecrets, RewriteAll, RewriteDocs, DeclareKeys,
        BindingsFor, ValidArgName;
    ProcessPlans(cfg, st, step);
    UnnamedPlansNothing(cfg, step, st.active);
    DeclareNothing(cfg, st);
    if step.Run? {
      NothingRewritten(step.flags, FlagSyntax());
      NothingRewritten(step.mounts, FlagSyntax());
    } else {
      R.RewriteNothing(step.header, HeaderSyntax(cfg, step.kind), Bare);
      DocsNotRewritten(step.docs);
    }
  }

  lemma NothingRewritten(texts: seq<string>, y: Syntax)
    ensures RewriteAll(texts, map[], y) == texts
  {
    hide R.Rewrite;
    forall i | 0 <= i < |texts| ensures R.Rewrite(texts[i], map[], y, Bare) == texts[i] {
      R.RewriteNothing(texts[i], y, Bare);
    }
  }

  lemma DocsNotRewritten(docs: seq<Doc>)
    ensures RewriteDocs(docs, map[]) == docs
  {
    hide R.Rewrite;
    forall i | 0 <= i < |docs| ensures RewriteDoc(docs[i], map[]) == docs[i] {
      R.RewriteNothing(docs[i].text, DocSyntax(), Bare);
    }
  }

  /**
   An input whose every word is replaced whole stays private: the step gives it no alias, only its words' values become
   build arguments.
   */
  lemma ReplacedStaysPrivate(cfg: Config, st: State, step: Step, n: string)
    requires ValidConfig(cfg) && GoodArgs(cfg, st.buildArgs) && Submap(st.active, cfg.values)
    requires step.Other? && Process(cfg, st, step).Ok? && PlanStep(cfg, step, st.active).Ok? && OneSpelling(step.words)
    requires ValidArgName(n) && n in st.active && KeyAlias(n) !in st.buildArgs
    requires !StandsUnreplaced(cfg, step, PlanStep(cfg, step, st.active).value.used, n)
    ensures KeyAlias(n) !in Process(cfg, st, step).value.0.buildArgs
  {
    hide PlanStep, Process, StandsUnreplaced, OneSpelling, GoodArg, KeyAlias, ExprAlias, CapturedFrom;
    DigestsAreGood(cfg);
    NeededIff(cfg, step, st.active, n);
    PrepareMeaning.ProcessDeclares(cfg, st, step);
    var pl := PlanStep(cfg, step, st.active).value;
    var declared := DeclareExprs(st, {}, pl.exprs, pl.used).0;
    if KeyAlias(n) in Process(cfg, st, step).value.0.buildArgs {
      NewArg(cfg, st, step, KeyAlias(n));
      if KeyAlias(n) in declared.buildArgs {
        NewArgsAreExprs(st, {}, pl.exprs, pl.used, KeyAlias(n));
        var e :| e in pl.exprs && e.alias == KeyAlias(n);
        CandidateAlias(cfg, step, st.active, e, n);
      } else {
        var k :| k in pl.needed - declared.declared && KeyAlias(n) == KeyAlias(k);
        KeyAliasInjective(n, k);
      }
    }
  }

  /** No word's alias is an input's. */
  lemma CandidateAlias(cfg: Config, step: Step, active: map<string, string>, e: M.Expression, n: string)
    requires step.Other? && PlanStep(cfg, step, active).Ok?
    requires GoodPlan(cfg, step, active, PlanStep(cfg, step, active).value)
    requires e in PlanStep(cfg, step, active).value.exprs && n != []
    ensures e.alias != KeyAlias(n)
  {
    hide PlanStep, KeyAlias, ExprAlias;
    var w :| w in step.words && CapturedFrom(cfg, step.kind, active, e, w);
    AliasesDiffer(cfg, n, w.text);
  }
}
