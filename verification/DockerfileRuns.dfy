/**
 What a Dockerfile means while it is built, and the proof that a prepared Dockerfile means what the original
 means with the platform inputs injected: at every `FROM` the inputs override the base image's environment,
 an `ENV` overrides them for the rest of the stage, and an `ENV` or image variable always wins over an `ARG`.
 */
module DockerfileRuns {
  import opened References
  import opened Prepare
  import H = HeaderReading
  import M = Materializer
  import R = Rewriter
  import W = WordSplitting

  /** The variables of the current stage, and the environments the earlier stages ended with. */
  datatype Frame = Frame(env: Env, args: Env, stages: seq<Env>)

  const FIRST := Frame(map[], map[], [])

  function View(f: Frame): Env {
    f.args + f.env
  }

  /** The environment a `FROM` starts from; an earlier stage counts from the text before the first `FROM`. */
  function BaseEnv(f: Frame, source: Source): Env {
    match source
    case Image(env) => env
    case Stage(i) => if i < |f.stages| then f.stages[i] else if i == |f.stages| then f.env else map[]
  }

  // ---- Executing a step ----

  /**
   What a step shows. A `RUN` shows its expanded flags, the environment of its process, the names mounted twice and its
   script; any other instruction its words as read, and its heredocs.
   */
  datatype Obs =
    | ObsFrom
    | ObsRun(flags: seq<Expansion>, env: Env, twice: set<string>, script: string)
    | ObsOther(header: seq<Out>, docs: seq<Expansion>)

  /** A header as the build reads it; some instructions are taken as they are written. */
  function ReadHeader(cfg: Config, kind: Kind, header: string, env: Env): Expansion {
    if kind.Verbatim? then Gives(Chars(header))
    else if kind.Expose? then W.ReadWords(header, HeaderSyntax(cfg, kind), env)
    else H.Read(header, HeaderSyntax(cfg, kind), HeaderShape(kind), env)
  }

  function ExpandAll(texts: seq<string>, y: Syntax, env: Env): (r: seq<Expansion>)
    ensures |r| == |texts|
  {
    seq(|texts|, i requires 0 <= i < |texts| => Expand(texts[i], y, env))
  }

  function ExpandDoc(d: Doc, env: Env): Expansion {
    if d.expand then Expand(d.text, DocSyntax(), env) else Gives(Chars(d.text))
  }

  function ExpandDocs(docs: seq<Doc>, env: Env): (r: seq<Expansion>)
    ensures |r| == |docs|
  {
    seq(|docs|, i requires 0 <= i < |docs| => ExpandDoc(docs[i], env))
  }

  /** What a `RUN` process can see, the author's own secrets and the reserved names aside. */
  function Seen(env: Env, explicit: set<string>): Env {
    map n | n in env && !Reserved(n) && n !in explicit :: env[n]
  }

  /** The effect of a header on the stage's variables. */
  function Apply(kind: Kind, f: Frame, header: seq<Out>): Frame {
    match kind
    case Env => f.(env := f.env + H.Assignments(header))
    case Arg => f.(args := f.args + H.Assignments(header))
    case _ => f
  }

  /** The author's step, in a build whose stages have the platform inputs in their environment. */
  function ExecOriginal(cfg: Config, f: Frame, step: Step): Outcome<(Frame, Obs)> {
    match step
    case From(source) => Ok((Frame(BaseEnv(f, source) + cfg.values, map[], f.stages + [f.env]), ObsFrom))
    case Run(flags, _, mounts, script) =>
      var explicit := Explicit(cfg, {}, mounts, View(f));
      if explicit.Err? then Err
      else Ok((f, ObsRun(ExpandAll(flags, WordSyntax(cfg), View(f)), Seen(View(f), explicit.value), {}, script)))
    case Other(kind, header, _, _, docs, _) =>
      var h := ReadHeader(cfg, kind, header, View(f));
      if h.Fails? then Err
      else Ok((Apply(kind, f, h.out), ObsOther(h.out, ExpandDocs(docs, View(f)))))
  }

  /** The `ARG` lines of a prepared step, filled in from the build arguments. */
  function Declare(f: Frame, args: set<string>, buildArgs: map<string, string>): Frame {
    f.(args := f.args + map a | a in args && a in buildArgs :: buildArgs[a])
  }

  /** What the session answers for a required secret. */
  predicate AllFound(mounts: seq<Mount>, secrets: map<string, string>) {
    forall i | 0 <= i < |mounts| :: mounts[i].id in secrets
  }

  function SecretEnv(mounts: seq<Mount>, secrets: map<string, string>): Env
    requires AllFound(mounts, secrets)
  {
    if mounts == [] then map[] else SecretEnv(mounts[1..], secrets)[mounts[0].name := secrets[mounts[0].id]]
  }

  function MountedNames(mounts: seq<Mount>): set<string> {
    set m | m in mounts :: m.name
  }

  /** The prepared step, in a build without the inputs but with the prepared build arguments and secrets. */
  function ExecPrepared(cfg: Config, f: Frame, step: OutStep, buildArgs: map<string, string>,
      secrets: map<string, string>): Outcome<(Frame, Obs)> {
    match step
    case OutFrom(source) => Ok((Frame(BaseEnv(f, source), map[], f.stages + [f.env]), ObsFrom))
    case OutRun(args, flags, mounts, mounted, script) =>
      var g := Declare(f, args, buildArgs);
      var explicit := Explicit(cfg, {}, mounts, View(g));
      if explicit.Err? || !AllFound(mounted, secrets) then Err
      else Ok((g, ObsRun(ExpandAll(flags, WordSyntax(cfg), View(g)),
                         Seen(View(g) + SecretEnv(mounted, secrets), explicit.value),
                         MountedNames(mounted) * explicit.value, script)))
    case OutOther(args, kind, header, docs) =>
      var g := Declare(f, args, buildArgs);
      var h := ReadHeader(cfg, kind, header, View(g));
      if h.Fails? then Err
      else Ok((Apply(kind, g, h.out), ObsOther(h.out, ExpandDocs(docs, View(g)))))
  }

  function RunOriginal(cfg: Config, f: Frame, steps: seq<Step>): Outcome<seq<Obs>>
    decreases |steps|
  {
    if steps == [] then Ok([])
    else
      var r := ExecOriginal(cfg, f, steps[0]);
      if r.Err? then Err
      else
        var rest := RunOriginal(cfg, r.value.0, steps[1..]);
        if rest.Err? then Err else Ok([r.value.1] + rest.value)
  }

  function RunPrepared(cfg: Config, f: Frame, steps: seq<OutStep>, buildArgs: map<string, string>,
      secrets: map<string, string>): Outcome<seq<Obs>>
    decreases |steps|
  {
    if steps == [] then Ok([])
    else
      var r := ExecPrepared(cfg, f, steps[0], buildArgs, secrets);
      if r.Err? then Err
      else
        var rest := RunPrepared(cfg, r.value.0, steps[1..], buildArgs, secrets);
        if rest.Err? then Err else Ok([r.value.1] + rest.value)
  }

  // ---- Build arguments ----

  function ExprValue(cfg: Config, word: string): string {
    var p := Parse(word, WordSyntax(cfg));
    if p.Malformed? then [] else Flat(Eval(p.text, cfg.values))
  }

  ghost predicate IsKeyArg(cfg: Config, a: string, v: string, k: string) {
    ValidArgName(k) && k in cfg.values && a == KeyAlias(k) && v == cfg.values[k]
  }

  ghost predicate IsExprArg(cfg: Config, a: string, v: string, w: string) {
    a == ExprAlias(cfg, w) && v == ExprValue(cfg, w)
  }

  /** A build argument is one input's value, or the value of one fully known word. */
  ghost predicate GoodArg(cfg: Config, a: string, v: string) {
    (exists k :: IsKeyArg(cfg, a, v, k)) || (exists w :: IsExprArg(cfg, a, v, w))
  }

  ghost predicate GoodArgs(cfg: Config, args: map<string, string>) {
    forall a | a in args :: GoodArg(cfg, a, args[a])
  }

  lemma KeyAliasInjective(j: string, k: string)
    requires ValidArgName(j) && ValidArgName(k) && KeyAlias(j) == KeyAlias(k)
    ensures j == k
  {
    ArgNameIsBytes(j);
    ArgNameIsBytes(k);
    KeyAliasRoundTrip(j);
    KeyAliasRoundTrip(k);
  }

  /** An alias has one value only. */
  lemma ArgValueUnique(cfg: Config, a: string, v1: string, v2: string)
    requires ValidConfig(cfg) && GoodArg(cfg, a, v1) && GoodArg(cfg, a, v2)
    ensures v1 == v2
  {
    if k1 :| IsKeyArg(cfg, a, v1, k1) {
      if k2 :| IsKeyArg(cfg, a, v2, k2) {
        KeyAliasInjective(k1, k2);
      } else {
        var w2 :| IsExprArg(cfg, a, v2, w2);
        AliasesDiffer(cfg, k1, w2);
      }
    } else {
      var w1 :| IsExprArg(cfg, a, v1, w1);
      if k2 :| IsKeyArg(cfg, a, v2, k2) {
        AliasesDiffer(cfg, k2, w1);
      } else {
        var w2 :| IsExprArg(cfg, a, v2, w2);
        ExprAliasInjective(cfg, w1, w2);
      }
    }
  }

  /** The inputs still active are inputs, with their own values. */
  predicate Submap(m: map<string, string>, n: map<string, string>) {
    forall k | k in m :: k in n && m[k] == n[k]
  }

  // ---- What capturing finds ----

  /** `e` was captured from word `w`, every variable of which is active. */
  ghost predicate CapturedFrom(cfg: Config, kind: Kind, active: map<string, string>, e: M.Expression, w: Word) {
    var p := Parse(w.text, WordSyntax(cfg));
    && p.Parsed?
    && FullyKnown(p.text, active)
    && e == KnownExpression(cfg, kind, w, p.text, active)
  }

  ghost predicate AllCaptured(cfg: Config, kind: Kind, active: map<string, string>, c: Captured, words: seq<Word>) {
    && c.needed <= active.Keys
    && forall e | e in c.exprs :: exists w | w in words :: CapturedFrom(cfg, kind, active, e, w)
  }

  lemma {:induction false} CaptureWordsFinds(
    cfg: Config, c: Captured, kind: Kind, header: string, words: seq<Word>, active: map<string, string>, all: seq<Word>)
    requires AllCaptured(cfg, kind, active, c, all)
    requires forall w | w in words :: w in all
    requires CaptureWords(cfg, c, kind, header, words, active).Ok?
    ensures AllCaptured(cfg, kind, active, CaptureWords(cfg, c, kind, header, words, active).value, all)
    decreases |words|
  {
    if words != [] {
      var d := CaptureWord(cfg, c, kind, header, words[0], active).value;
      assert AllCaptured(cfg, kind, active, d, all) by {
        forall e | e in d.exprs ensures exists w | w in all :: CapturedFrom(cfg, kind, active, e, w) {
          if e !in c.exprs {
            assert words[0] in all && CapturedFrom(cfg, kind, active, e, words[0]);
          }
        }
      }
      CaptureWordsFinds(cfg, d, kind, header, words[1..], active, all);
    }
  }

  lemma {:induction false} CaptureNamesFinds(c: Captured, texts: seq<string>, y: Syntax, active: map<string, string>)
    requires c.needed <= active.Keys && CaptureNames(c, texts, y, active).Ok?
    ensures c.needed <= CaptureNames(c, texts, y, active).value.needed <= active.Keys
    decreases |texts|
  {
    if texts != [] {
      CaptureNamesFinds(CaptureName(c, texts[0], y, active).value, texts[1..], y, active);
    }
  }

  /** The text is well formed and refers to `n`. */
  predicate NamedIn(text: string, y: Syntax, n: string) {
    Parse(text, y).Parsed? && n in Names(Parse(text, y).text)
  }

  /** What is needed of the words read for their names only is active, and some word refers to it. */
  lemma {:induction false} NeededNamesAreNamed(c: Captured, texts: seq<string>, y: Syntax,
      active: map<string, string>, n: string)
    requires CaptureNames(c, texts, y, active).Ok? && n in CaptureNames(c, texts, y, active).value.needed
    ensures n in c.needed || (n in active && exists t :: t in texts && NamedIn(t, y, n))
    decreases |texts|
  {
    if texts != [] {
      var d := CaptureName(c, texts[0], y, active).value;
      NeededNamesAreNamed(d, texts[1..], y, active, n);
      if n !in c.needed && n in d.needed {
        assert texts[0] in texts && NamedIn(texts[0], y, n);
      }
    }
  }

  /** The word is fully known, and its spelling occurs in the header. */
  predicate IsCandidate(cfg: Config, header: string, w: Word, active: map<string, string>) {
    var p := Parse(w.text, WordSyntax(cfg));
    p.Parsed? && FullyKnown(p.text, active) && Contains(header, w.needle)
  }

  /** What is needed of the other words is active, and some word that is no candidate refers to it. */
  lemma {:induction false} CapturedNamesAreNamed(
    cfg: Config, c: Captured, kind: Kind, header: string, words: seq<Word>, active: map<string, string>, n: string)
    requires CaptureWords(cfg, c, kind, header, words, active).Ok?
    requires n in CaptureWords(cfg, c, kind, header, words, active).value.needed
    ensures n in c.needed || (n in active && exists w :: && w in words && NamedIn(w.text, WordSyntax(cfg), n)
                                                         && !IsCandidate(cfg, header, w, active))
    decreases |words|
  {
    if words != [] {
      var d := CaptureWord(cfg, c, kind, header, words[0], active).value;
      CapturedNamesAreNamed(cfg, d, kind, header, words[1..], active, n);
      if n !in c.needed && n in d.needed {
        assert words[0] in words && NamedIn(words[0].text, WordSyntax(cfg), n);
      }
    }
  }

  /** Every candidate's spelling occurs in the header. */
  lemma {:induction false} CandidatesOccur(
    cfg: Config, c: Captured, kind: Kind, header: string, words: seq<Word>, active: map<string, string>)
    requires CaptureWords(cfg, c, kind, header, words, active).Ok?
    requires forall e | e in c.exprs :: Contains(header, e.source)
    ensures forall e | e in CaptureWords(cfg, c, kind, header, words, active).value.exprs :: Contains(header, e.source)
    decreases |words|
  {
    if words != [] {
      hide Contains;
      CandidatesOccur(cfg, CaptureWord(cfg, c, kind, header, words[0], active).value, kind, header, words[1..], active);
    }
  }

  /** Every active input that a text refers to is found. */
  lemma {:induction false} CaptureNamesAll(c: Captured, texts: seq<string>, y: Syntax, active: map<string, string>,
      t: string, n: string)
    requires c.needed <= active.Keys && CaptureNames(c, texts, y, active).Ok?
    requires t in texts && NamedIn(t, y, n) && n in active
    ensures n in CaptureNames(c, texts, y, active).value.needed
    decreases |texts|
  {
    var d := CaptureName(c, texts[0], y, active).value;
    CaptureNamesFinds(d, texts[1..], y, active);
    if texts[0] != t {
      CaptureNamesAll(d, texts[1..], y, active, t, n);
    }
  }

  /** The name is needed, or a word of this text, which refers to it, is a candidate for replacement. */
  ghost predicate NeededOrCandidate(cfg: Config, c: Captured, text: string, n: string) {
    n in c.needed || exists e :: e in c.exprs && e.alias == ExprAlias(cfg, text) && n in e.references
  }

  lemma {:induction false} CaptureWordsKeep(cfg: Config, c: Captured, kind: Kind, header: string, words: seq<Word>,
      active: map<string, string>, text: string, n: string)
    requires CaptureWords(cfg, c, kind, header, words, active).Ok? && NeededOrCandidate(cfg, c, text, n)
    ensures NeededOrCandidate(cfg, CaptureWords(cfg, c, kind, header, words, active).value, text, n)
    decreases |words|
  {
    if words != [] {
      var d := CaptureWord(cfg, c, kind, header, words[0], active).value;
      assert forall e | e in c.exprs :: e in d.exprs;
      CaptureWordsKeep(cfg, d, kind, header, words[1..], active, text, n);
    }
  }

  lemma {:induction false} CaptureWordsAll(cfg: Config, c: Captured, kind: Kind, header: string, words: seq<Word>,
      active: map<string, string>, w: Word, n: string)
    requires CaptureWords(cfg, c, kind, header, words, active).Ok?
    requires w in words && NamedIn(w.text, WordSyntax(cfg), n) && n in active
    ensures NeededOrCandidate(cfg, CaptureWords(cfg, c, kind, header, words, active).value, w.text, n)
    decreases |words|
  {
    hide ParseTo, ExprAlias;
    var d := CaptureWord(cfg, c, kind, header, words[0], active).value;
    if words[0] == w {
      OneWordAll(cfg, c, kind, header, w, active, n);
      CaptureWordsKeep(cfg, d, kind, header, words[1..], active, w.text, n);
    } else {
      CaptureWordsAll(cfg, d, kind, header, words[1..], active, w, n);
    }
  }

  lemma OneWordAll(cfg: Config, c: Captured, kind: Kind, header: string, w: Word, active: map<string, string>,
      n: string)
    requires CaptureWord(cfg, c, kind, header, w, active).Ok? && NamedIn(w.text, WordSyntax(cfg), n) && n in active
    ensures NeededOrCandidate(cfg, CaptureWord(cfg, c, kind, header, w, active).value, w.text, n)
  {
    hide ParseTo, ExprAlias, Eval, Contains;
    var t := Parse(w.text, WordSyntax(cfg)).text;
    var d := CaptureWord(cfg, c, kind, header, w, active).value;
    if FullyKnown(t, active) && Contains(header, w.needle) {
      var e := KnownExpression(cfg, kind, w, t, active);
      assert d.exprs[|c.exprs|] == e;
      assert e in d.exprs && e.alias == ExprAlias(cfg, w.text) && n in e.references;
    }
  }

  /** What the plan of a step promises about the names it needs and the words it replaces. */
  ghost predicate GoodPlan(cfg: Config, step: Step, active: map<string, string>, pl: Plan)
    requires !step.From?
  {
    && pl.needed <= active.Keys
    && M.AllNonEmpty(pl.exprs)
    && (step.Run? ==> pl.exprs == [] && pl.used == {})
    && (step.Other? ==>
          && (forall e | e in pl.exprs :: exists w | w in step.words :: CapturedFrom(cfg, step.kind, active, e, w))
          && var y := HeaderSyntax(cfg, step.kind);
          && pl.header == M.Materialize(step.header, true, y, Bare, pl.exprs)
          && pl.used == M.UsedBy(M.Segments(step.header, true, y, Bare, pl.exprs), pl.exprs))
  }

  lemma PlanIsGood(cfg: Config, step: Step, active: map<string, string>)
    requires !step.From? && PlanStep(cfg, step, active).Ok?
    ensures GoodPlan(cfg, step, active, PlanStep(cfg, step, active).value)
  {
    var c := CaptureStep(cfg, step, active).value;
    if step.Run? {
      CaptureNamesFinds(NOTHING, step.flagWords, WordSyntax(cfg), active);
    } else {
      var d := CaptureWords(cfg, NOTHING, step.kind, step.header, step.words, active).value;
      CaptureWordsFinds(cfg, NOTHING, step.kind, step.header, step.words, active, step.words);
      CaptureNamesFinds(d, step.rawWords, DocSyntax(), active);
      assert forall e | e in c.exprs :: e.references <= active.Keys;
    }
  }

  /** Every active input that some word not replaced refers to is needed. */
  lemma WordsAreNeeded(cfg: Config, step: Step, active: map<string, string>, w: Word, n: string)
    requires step.Other? && PlanStep(cfg, step, active).Ok?
    requires w in step.words && NamedIn(w.text, WordSyntax(cfg), n) && n in active
    requires ExprAlias(cfg, w.text) !in PlanStep(cfg, step, active).value.used
    ensures n in PlanStep(cfg, step, active).value.needed
  {
    hide M.Segments, M.UsedBy, M.Emit, CaptureWords, CaptureNames, NamedIn, ExprAlias;
    var d := CaptureWords(cfg, NOTHING, step.kind, step.header, step.words, active).value;
    CaptureWordsAll(cfg, NOTHING, step.kind, step.header, step.words, active, w, n);
    CaptureWordsFinds(cfg, NOTHING, step.kind, step.header, step.words, active, step.words);
    CaptureNamesFinds(d, step.rawWords, DocSyntax(), active);
  }

  /** So is every active input that a heredoc or a flag refers to. */
  lemma RawWordsAreNeeded(cfg: Config, step: Step, active: map<string, string>, t: string, n: string)
    requires step.Other? && PlanStep(cfg, step, active).Ok?
    requires t in step.rawWords && NamedIn(t, DocSyntax(), n) && n in active
    ensures n in PlanStep(cfg, step, active).value.needed
  {
    hide M.Segments, M.UsedBy, M.Emit, CaptureWords, CaptureNames, NamedIn;
    var d := CaptureWords(cfg, NOTHING, step.kind, step.header, step.words, active).value;
    CaptureWordsFinds(cfg, NOTHING, step.kind, step.header, step.words, active, step.words);
    CaptureNamesAll(d, step.rawWords, DocSyntax(), active, t, n);
  }

  lemma FlagWordsAreNeeded(cfg: Config, step: Step, active: map<string, string>, t: string, n: string)
    requires step.Run? && PlanStep(cfg, step, active).Ok?
    requires t in step.flagWords && NamedIn(t, WordSyntax(cfg), n) && n in active
    ensures n in PlanStep(cfg, step, active).value.needed
  {
    hide CaptureNames, NamedIn;
    CaptureNamesAll(NOTHING, step.flagWords, WordSyntax(cfg), active, t, n);
  }

  /** An input is needed only for a word that is not replaced, or for a heredoc. */
  ghost predicate StandsUnreplaced(cfg: Config, step: Step, used: set<string>, n: string)
    requires step.Other?
  {
    || (exists w | w in step.words :: NamedIn(w.text, WordSyntax(cfg), n) && ExprAlias(cfg, w.text) !in used)
    || exists t | t in step.rawWords :: NamedIn(t, DocSyntax(), n)
  }

  /** Words with one text have one spelling. */
  predicate OneSpelling(words: seq<Word>) {
    forall v, w | v in words && w in words && v.text == w.text :: v.needle == w.needle
  }

  lemma NeededIff(cfg: Config, step: Step, active: map<string, string>, n: string)
    requires DigestTellsWords(cfg) && step.Other? && PlanStep(cfg, step, active).Ok? && OneSpelling(step.words)
    ensures var pl := PlanStep(cfg, step, active).value;
            n in pl.needed <==> n in active && StandsUnreplaced(cfg, step, pl.used, n)
  {
    hide PlanStep, ExprAlias, NamedIn;
    var pl := PlanStep(cfg, step, active).value;
    PlanIsGood(cfg, step, active);
    if n in pl.needed {
      NeededStandsUnreplaced(cfg, step, active, n);
    }
    if n in active && StandsUnreplaced(cfg, step, pl.used, n) {
      if w :| w in step.words && NamedIn(w.text, WordSyntax(cfg), n) && ExprAlias(cfg, w.text) !in pl.used {
        WordsAreNeeded(cfg, step, active, w, n);
      } else {
        var t :| t in step.rawWords && NamedIn(t, DocSyntax(), n);
        RawWordsAreNeeded(cfg, step, active, t, n);
      }
    }
  }

  lemma NeededStandsUnreplaced(cfg: Config, step: Step, active: map<string, string>, n: string)
    requires DigestTellsWords(cfg) && step.Other? && PlanStep(cfg, step, active).Ok? && OneSpelling(step.words)
    requires n in PlanStep(cfg, step, active).value.needed
    ensures StandsUnreplaced(cfg, step, PlanStep(cfg, step, active).value.used, n)
  {
    hide M.Segments, M.UsedBy, M.Emit, CaptureNames, CaptureWords, NamedIn, ExprAlias, IsCandidate, CapturedFrom,
        OneSpelling, DigestTellsWords;
    PlanIsGood(cfg, step, active);
    var pl := PlanStep(cfg, step, active).value;
    var c := CaptureStep(cfg, step, active).value;
    var d := CaptureWords(cfg, NOTHING, step.kind, step.header, step.words, active).value;
    if n in c.needed {
      NeededNamesAreNamed(d, step.rawWords, DocSyntax(), active, n);
      if n in d.needed {
        CapturedNamesAreNamed(cfg, NOTHING, step.kind, step.header, step.words, active, n);
        var w :| w in step.words && NamedIn(w.text, WordSyntax(cfg), n) && !IsCandidate(cfg, step.header, w, active);
        CandidatesOccur(cfg, NOTHING, step.kind, step.header, step.words, active);
        if ExprAlias(cfg, w.text) in pl.used {
          var e := UsedExpression(cfg, step, active, pl, ExprAlias(cfg, w.text));
          CandidateAgain(cfg, step, active, e, w);
        }
      }
    } else {
      var e :| e in pl.exprs && e.alias !in pl.used && n in e.references;
      var w :| w in step.words && CapturedFrom(cfg, step.kind, active, e, w);
      CapturedNames(cfg, step.kind, active, e, w, n);
    }
  }

  lemma CapturedNames(cfg: Config, kind: Kind, active: map<string, string>, e: M.Expression, w: Word, n: string)
    requires CapturedFrom(cfg, kind, active, e, w)
    ensures e.alias == ExprAlias(cfg, w.text) && e.source == w.needle
    ensures n in e.references ==> NamedIn(w.text, WordSyntax(cfg), n)
  {
  }

  /** A used alias is some candidate's. */
  lemma UsedExpression(cfg: Config, step: Step, active: map<string, string>, pl: Plan, a: string)
    returns (e: M.Expression)
    requires step.Other? && GoodPlan(cfg, step, active, pl) && a in pl.used
    ensures e in pl.exprs && e.alias == a
  {
    hide M.Segments, CapturedFrom;
    var segs := M.Segments(step.header, true, HeaderSyntax(cfg, step.kind), Bare, pl.exprs);
    var k :| 0 <= k < |segs| && segs[k].Word? && pl.exprs[segs[k].index].alias == a;
    e := pl.exprs[segs[k].index];
  }

  /** A word with the text of a candidate is one. */
  lemma CandidateAgain(cfg: Config, step: Step, active: map<string, string>, e: M.Expression, w: Word)
    requires DigestTellsWords(cfg) && step.Other? && OneSpelling(step.words) && w in step.words
    requires exists v | v in step.words :: CapturedFrom(cfg, step.kind, active, e, v)
    requires Contains(step.header, e.source) && e.alias == ExprAlias(cfg, w.text)
    ensures IsCandidate(cfg, step.header, w, active)
  {
    hide Contains, ParseTo, Eval;
    var v :| v in step.words && CapturedFrom(cfg, step.kind, active, e, v);
    ExprAliasInjective(cfg, v.text, w.text);
  }
}
