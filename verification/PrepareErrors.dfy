/**
 When `Prepare` fails: exactly when there are inputs and one of them cannot be used, or some instruction it reaches
 holds a malformed word, or needs an input whose name no `ARG` can have. Nothing else makes it fail.
 */
module PrepareErrors {
  import opened References
  import opened Prepare
  import opened DockerfileRuns
  import PrepareMeaning
  import M = Materializer
  import R = Rewriter

  // ---- The inputs ----

  /** What no input's name may hold, by code: NUL, the blanks, and what the syntax of Dockerfiles and mounts uses. */
  predicate IsForbidden(c: char) {
    var n := c as int;
    n == 0 || 9 <= n <= 13 || n == 32 || n == 34 || n == 36 || n == 39 || n == 44 || n == 61 || n == 92 || n == 96
  }

  /** No name, a forbidden character in it, a NUL in the value, or a value no secret can hold. */
  ghost predicate Unusable(key: string, value: string, maxSecret: nat) {
    || key == []
    || (exists i :: 0 <= i < |key| && IsForbidden(key[i]))
    || (exists i :: 0 <= i < |value| && value[i] as int == 0)
    || |value| > maxSecret
  }

  lemma InvalidIff(cfg: Config, key: string)
    requires key in cfg.values
    ensures InvalidInput(cfg, key) <==> Unusable(key, cfg.values[key], cfg.maxSecret)
  {
    if c :| c in key && BadKeyChar(c) {
      var i :| 0 <= i < |key| && key[i] == c;
      assert IsForbidden(key[i]);
    }
    if i :| 0 <= i < |key| && IsForbidden(key[i]) {
      assert key[i] in key && BadKeyChar(key[i]);
    }
    if i :| 0 <= i < |cfg.values[key]| && cfg.values[key][i] as int == 0 {
      assert cfg.values[key][i] == '\0';
    }
    if '\0' in cfg.values[key] {
      var i :| 0 <= i < |cfg.values[key]| && cfg.values[key][i] == '\0';
    }
  }

  /** An input whose name an `ARG` can have is refused for its value only. */
  lemma ArgNamesAreUsable(key: string, value: string, maxSecret: nat)
    requires ValidArgName(key) && |value| <= maxSecret && forall i | 0 <= i < |value| :: value[i] != '\0'
    ensures !Unusable(key, value, maxSecret)
  {
  }

  // ---- One instruction ----

  /** Some of the texts cannot be read. */
  ghost predicate SomeMalformed(texts: seq<string>, y: Syntax) {
    exists t :: t in texts && Parse(t, y).Malformed?
  }

  ghost predicate WordMalformed(cfg: Config, words: seq<Word>) {
    exists w :: w in words && Parse(w.text, WordSyntax(cfg)).Malformed?
  }

  /** An active input that no `ARG` can name is needed by a word that is not replaced, by a heredoc or by a flag. */
  ghost predicate NeedsNoArg(cfg: Config, active: map<string, string>, step: Step)
    requires !step.From? && PlanStep(cfg, step, active).Ok?
  {
    exists n :: n in active && !ValidArgName(n) &&
      if step.Run? then exists t :: t in step.flagWords && NamedIn(t, WordSyntax(cfg), n)
      else StandsUnreplaced(cfg, step, PlanStep(cfg, step, active).value.used, n)
  }

  /** Why an instruction fails, given the inputs that are active at it. */
  ghost predicate StepFails(cfg: Config, active: map<string, string>, step: Step) {
    match step
    case From(_) => false
    case Run(_, flagWords, mounts, _) =>
      || SomeMalformed(flagWords, WordSyntax(cfg))
      || NeedsNoArgIfPlanned(cfg, active, step)
      || SomeMalformed(mounts, WordSyntax(cfg))
    case Other(kind, _, words, rawWords, _, keys) =>
      || WordMalformed(cfg, words)
      || SomeMalformed(rawWords, DocSyntax())
      || NeedsNoArgIfPlanned(cfg, active, step)
      || (kind.Env? && SomeMalformed(keys, WordSyntax(cfg)))
  }

  ghost predicate NeedsNoArgIfPlanned(cfg: Config, active: map<string, string>, step: Step)
    requires !step.From?
  {
    PlanStep(cfg, step, active).Ok? && NeedsNoArg(cfg, active, step)
  }

  lemma {:induction false} CaptureNamesFails(c: Captured, texts: seq<string>, y: Syntax, active: map<string, string>)
    ensures CaptureNames(c, texts, y, active).Err? <==> SomeMalformed(texts, y)
    decreases |texts|
  {
    hide ParseTo;
    if texts != [] {
      var d := CaptureName(c, texts[0], y, active);
      if d.Ok? {
        CaptureNamesFails(d.value, texts[1..], y, active);
      }
      assert texts == [texts[0]] + texts[1..];
    }
  }

  lemma {:induction false} CaptureWordsFails(cfg: Config, c: Captured, kind: Kind, header: string, words: seq<Word>,
      active: map<string, string>)
    ensures CaptureWords(cfg, c, kind, header, words, active).Err? <==> WordMalformed(cfg, words)
    decreases |words|
  {
    hide ParseTo, Contains, FullyKnown, KnownExpression;
    if words != [] {
      var d := CaptureWord(cfg, c, kind, header, words[0], active);
      if d.Ok? {
        CaptureWordsFails(cfg, d.value, kind, header, words[1..], active);
      }
      assert words == [words[0]] + words[1..];
    }
  }

  lemma PlanFails(cfg: Config, step: Step, active: map<string, string>)
    requires !step.From?
    ensures PlanStep(cfg, step, active).Err? <==>
              if step.Run? then SomeMalformed(step.flagWords, WordSyntax(cfg))
              else WordMalformed(cfg, step.words) || SomeMalformed(step.rawWords, DocSyntax())
  {
    hide SomeMalformed, WordMalformed, CaptureWords, CaptureNames, M.Segments, M.UsedBy, M.Emit;
    if step.Run? {
      CaptureNamesFails(NOTHING, step.flagWords, WordSyntax(cfg), active);
    } else {
      CaptureWordsFails(cfg, NOTHING, step.kind, step.header, step.words, active);
      var c := CaptureWords(cfg, NOTHING, step.kind, step.header, step.words, active);
      if c.Ok? {
        CaptureNamesFails(c.value, step.rawWords, DocSyntax(), active);
      }
    }
  }

  lemma {:induction false} OverrideFails(cfg: Config, active: map<string, string>, keys: seq<string>)
    ensures Override(cfg, active, keys).Err? <==> SomeMalformed(keys, WordSyntax(cfg))
    decreases |keys|
  {
    hide ParseTo;
    if keys != [] {
      var key := Expand(keys[0], WordSyntax(cfg), active);
      if key.Gives? {
        OverrideFails(cfg, active - {Flat(key.out)}, keys[1..]);
      }
      assert keys == [keys[0]] + keys[1..];
    }
  }

  /** What is needed, told by the words. */
  lemma NeededFails(cfg: Config, step: Step, active: map<string, string>)
    requires DigestTellsWords(cfg) && !step.From? && PlanStep(cfg, step, active).Ok?
    requires step.Other? ==> OneSpelling(step.words)
    ensures (exists k | k in PlanStep(cfg, step, active).value.needed :: !ValidArgName(k))
            <==> NeedsNoArg(cfg, active, step)
  {
    hide PlanStep, StandsUnreplaced, OneSpelling, DigestTellsWords, ValidArgName, NamedIn;
    forall n ensures n in PlanStep(cfg, step, active).value.needed <==>
        n in active && if step.Run? then exists t :: t in step.flagWords && NamedIn(t, WordSyntax(cfg), n)
                       else StandsUnreplaced(cfg, step, PlanStep(cfg, step, active).value.used, n)
    {
      if step.Run? {
        FlagNeededIff(cfg, step, active, n);
      } else {
        NeededIff(cfg, step, active, n);
      }
    }
  }

  lemma FlagNeededIff(cfg: Config, step: Step, active: map<string, string>, n: string)
    requires step.Run? && PlanStep(cfg, step, active).Ok?
    ensures n in PlanStep(cfg, step, active).value.needed <==>
              n in active && exists t :: t in step.flagWords && NamedIn(t, WordSyntax(cfg), n)
  {
    hide CaptureNames, NamedIn;
    if n in PlanStep(cfg, step, active).value.needed {
      NeededNamesAreNamed(NOTHING, step.flagWords, WordSyntax(cfg), active, n);
    }
    if n in active {
      if t :| t in step.flagWords && NamedIn(t, WordSyntax(cfg), n) {
        FlagWordsAreNeeded(cfg, step, active, t, n);
      }
    }
  }

  lemma StepFailsIff(cfg: Config, st: State, step: Step)
    requires DigestTellsWords(cfg) && (step.Other? ==> OneSpelling(step.words))
    ensures Process(cfg, st, step).Err? <==> StepFails(cfg, st.active, step)
  {
    if !step.From? {
      hide PlanStep, DeclareExprs, DeclareKeys, Override, Explicit, MountSecrets, RewriteAll, RewriteDocs, R.Rewrite,
          SomeMalformed, WordMalformed, NeedsNoArg, OneSpelling, ValidArgName, DigestTellsWords;
      PlanFails(cfg, step, st.active);
      if PlanStep(cfg, step, st.active).Ok? {
        NeededFails(cfg, step, st.active);
        if step.Run? {
          MountsFail(cfg, step.mounts, st.active);
        } else {
          OverrideFails(cfg, st.active, step.keys);
        }
      }
    }
  }

  lemma MountsFail(cfg: Config, mounts: seq<string>, active: map<string, string>)
    ensures Explicit(cfg, {}, mounts, active).Err? <==> SomeMalformed(mounts, WordSyntax(cfg))
  {
    hide Explicit, ParseTo, PrepareMeaning.KeyNames;
    PrepareMeaning.ExplicitIs(cfg, {}, mounts, active);
  }

  // ---- The file ----

  /** The inputs active after an instruction: all of them at a `FROM`, without the keys of an `ENV` after that. */
  function ActiveAfter(cfg: Config, active: map<string, string>, step: Step): map<string, string> {
    match step
    case From(_) => cfg.values
    case Run(_, _, _, _) => active
    case Other(kind, _, _, _, _, keys) =>
      if kind.Env? && Override(cfg, active, keys).Ok? then Override(cfg, active, keys).value else active
  }

  /** Some instruction fails, with the inputs that are active when it is reached. */
  ghost predicate SomeStepFails(cfg: Config, active: map<string, string>, steps: seq<Step>)
    decreases |steps|
  {
    steps != []
    && (StepFails(cfg, active, steps[0]) || SomeStepFails(cfg, ActiveAfter(cfg, active, steps[0]), steps[1..]))
  }

  /** Words with one text are spelled alike in an instruction, as its one form, JSON or not, makes them. */
  ghost predicate SpelledAlike(steps: seq<Step>) {
    forall i | 0 <= i < |steps| && steps[i].Other? :: OneSpelling(steps[i].words)
  }

  lemma ProcessActive(cfg: Config, st: State, step: Step)
    requires Process(cfg, st, step).Ok?
    ensures Process(cfg, st, step).value.0.active == ActiveAfter(cfg, st.active, step)
  {
    hide PlanStep, Override, R.Rewrite, MountSecrets, DeclareExprs;
    if !step.From? {
      var plan := PlanStep(cfg, step, st.active);
      PrepareMeaning.DeclareKeepsActive(cfg, st, plan.value);
    }
  }

  lemma {:induction false} ProcessAllFailsIff(cfg: Config, st: State, steps: seq<Step>)
    requires DigestTellsWords(cfg) && SpelledAlike(steps)
    ensures ProcessAll(cfg, st, steps).Err? <==> SomeStepFails(cfg, st.active, steps)
    decreases |steps|
  {
    hide Process, StepFails, ActiveAfter, DigestTellsWords, OneSpelling;
    if steps != [] {
      StepFailsIff(cfg, st, steps[0]);
      var next := Process(cfg, st, steps[0]);
      if next.Ok? {
        ProcessActive(cfg, st, steps[0]);
        assert forall i | 0 <= i < |steps[1..]| :: steps[1..][i] == steps[i + 1];
        ProcessAllFailsIff(cfg, next.value.0, steps[1..]);
      }
    }
  }

  /**
   Main result: over every file, `Prepare` fails if and only if there are inputs and one is unusable, or an instruction
   it reaches fails for a word, mount or key that is malformed, or for an input it needs that no `ARG` can name.
   */
  lemma PrepareFailsIff(cfg: Config, steps: seq<Step>)
    requires DigestTellsWords(cfg) && SpelledAlike(steps)
    ensures PrepareSpec(cfg, steps).Err? <==>
              && cfg.values != map[]
              && ((exists k | k in cfg.values :: Unusable(k, cfg.values[k], cfg.maxSecret))
                  || SomeStepFails(cfg, map[], steps))
  {
    hide ProcessAll, Unusable, InvalidInput, SomeStepFails, SpelledAlike;
    ProcessAllFailsIff(cfg, START, steps);
    forall k | k in cfg.values ensures InvalidInput(cfg, k) <==> Unusable(k, cfg.values[k], cfg.maxSecret) {
      InvalidIff(cfg, k);
    }
  }

  /** With inputs that an `ARG` can name and a secret can hold, only a malformed word, mount or key makes it fail. */
  lemma OrdinaryInputsFailIff(cfg: Config, steps: seq<Step>)
    requires DigestTellsWords(cfg) && SpelledAlike(steps)
    requires forall k | k in cfg.values ::
               ValidArgName(k) && |cfg.values[k]| <= cfg.maxSecret && '\0' !in cfg.values[k]
    ensures PrepareSpec(cfg, steps).Err? <==>
              cfg.values != map[] && exists i :: 0 <= i < |steps| && Unreadable(cfg, steps[i])
  {
    hide ProcessAll, SomeStepFails, PrepareSpec, Unusable, ValidArgName, Unreadable;
    PrepareFailsIff(cfg, steps);
    forall k | k in cfg.values ensures !Unusable(k, cfg.values[k], cfg.maxSecret) {
      ArgNamesAreUsable(k, cfg.values[k], cfg.maxSecret);
    }
    UnreadableFails(cfg, map[], steps);
  }

  /** Something in the instruction is malformed, whatever is active. */
  ghost predicate Unreadable(cfg: Config, step: Step) {
    match step
    case From(_) => false
    case Run(_, flagWords, mounts, _) =>
      SomeMalformed(flagWords, WordSyntax(cfg)) || SomeMalformed(mounts, WordSyntax(cfg))
    case Other(kind, _, words, rawWords, _, keys) =>
      WordMalformed(cfg, words) || SomeMalformed(rawWords, DocSyntax())
      || (kind.Env? && SomeMalformed(keys, WordSyntax(cfg)))
  }

  lemma {:induction false} UnreadableFails(cfg: Config, active: map<string, string>, steps: seq<Step>)
    requires (forall k | k in active :: ValidArgName(k)) && forall k | k in cfg.values :: ValidArgName(k)
    ensures SomeStepFails(cfg, active, steps) <==> exists i :: 0 <= i < |steps| && Unreadable(cfg, steps[i])
    decreases |steps|
  {
    hide PlanStep, SomeMalformed, WordMalformed, ValidArgName, Override;
    if steps != [] {
      assert StepFails(cfg, active, steps[0]) <==> Unreadable(cfg, steps[0]);
      ActiveShrinks(cfg, active, steps[0]);
      UnreadableFails(cfg, ActiveAfter(cfg, active, steps[0]), steps[1..]);
      if i :| 0 <= i < |steps[1..]| && Unreadable(cfg, steps[1..][i]) {
        assert Unreadable(cfg, steps[i + 1]);
      }
      if i :| 0 <= i < |steps| && Unreadable(cfg, steps[i]) {
        assert i > 0 ==> steps[1..][i - 1] == steps[i];
      }
    }
  }

  lemma ActiveShrinks(cfg: Config, active: map<string, string>, step: Step)
    ensures forall k | k in ActiveAfter(cfg, active, step) :: k in active || k in cfg.values
  {
    hide Override;
    if step.Other? && Override(cfg, active, step.keys).Ok? {
      PrepareMeaning.OverrideShrinks(cfg, active, step.keys);
    }
  }
}
