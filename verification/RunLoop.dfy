/**
 `Run` and `runBuildOnce`: generating a Dockerfile, building it, and going round again with what went wrong, over an
 output the run owns. The model, the builder and the file system answer as they like: each answer is any function of
 everything that has happened so far.
 */
module RunLoop {
  import Preview

  datatype Generation = StepsExceeded | ModelError | Answer(content: string)

  datatype Solve = Built(artifact: string) | BuildError(logs: string)

  /** A copy of the artifact writes all of it, or fails after some of it. */
  datatype Copying = Whole | Stopped(after: nat)

  /** What the model is asked: to begin, to use fewer tools, or to repair a Dockerfile. */
  datatype Prompt =
    | FirstPrompt
    | Efficiency(catalog: string)
    | Retry(dockerfile: string, logs: string, outputs: string)

  datatype Event =
    | Generated(prompt: Prompt, g: Generation)
    | Solved(dockerfile: string, s: Solve)
    | Wrote(bytes: string)
    | Closed

  type Trace = seq<Event>

  /** What the outside answers, given what has happened. */
  datatype World = World(
    setUp: Trace -> bool,
    agent: Trace -> bool,
    generate: (Trace, Prompt) -> Generation,
    extract: string -> string,
    solve: (Trace, string) -> Solve,
    createTemp: Trace -> bool,
    openTemp: Trace -> bool,
    copy: (Trace, string) -> Copying,
    close: Trace -> bool,
    catalog: Trace -> string)

  datatype Config = Config(hasModel: bool, contextDir: string, userDockerfile: string, maxBuildAttempts: int,
      hasOutput: bool)

  datatype Failure =
    | ModelRequired | ContextRequired | SetUpFailed | AgentFailed | OutputFailed | GenerateFailed
    | AttemptsExhausted(last: string) | CloseFailed

  datatype Result = Success(dockerfile: string, attempts: nat, fromUser: bool) | Failed(why: Failure)

  // ---- Prompts ----

  const MAX_BUILD_LOG_PROMPT_BYTES := 12 * 1024
  const MAX_DOCKERFILE_PROMPT_BYTES := 64 * 1024

  /** An em dash, as bytes. */
  function Dash(): string { [0xE2 as char, 0x80 as char, 0x94 as char] }

  function CatalogHeading(): (s: string)
      ensures |s| <= 100 { "\n\nPrior tool outputs remain available by reference:\n" }

  function WithCatalog(text: string, catalog: string): string {
    if catalog == [] then text else text + CatalogHeading() + catalog
  }

  function RetryOpening(): (s: string)
    ensures |s| <= 200
  {
    "The previous Dockerfile failed to build. Fix it and emit ONLY the corrected Dockerfile " + Dash()
    + " no explanations, no code fences.\n\nPrevious Dockerfile:\n"
  }

  function LogsHeading(): (s: string) ensures |s| <= 100 { "\n\nBuild error and logs:\n" }

  function RetryText(dockerfile: string, logs: string): string {
    RetryOpening()
    + Preview.BoundedPromptSection(dockerfile, MAX_DOCKERFILE_PROMPT_BYTES, "Dockerfile")
    + LogsHeading()
    + Preview.BoundedPromptSection(logs, MAX_BUILD_LOG_PROMPT_BYTES, "build output")
  }

  function FirstText(): (s: string)
    ensures |s| <= 100
  {
    "Generate the Dockerfile for the codebase in the current directory."
  }

  function TooManyCalls(): (s: string) ensures |s| <= 100 {
    "You used too many tool calls in the previous attempt. This time make at most 5 tool calls total: "
  }

  function StartSmall(): (s: string) ensures |s| <= 100 {
    "start with tree (depth=3) or glob ('**/pyproject.toml' etc.) for a quick overview, "
  }

  function OnlyDockerfile(): (s: string) ensures |s| <= 100 {
    "then output ONLY the raw Dockerfile " + Dash() + " no explanations, no code fences."
  }

  function EfficiencyText(): (s: string)
    ensures |s| <= 300
  {
    hide TooManyCalls, StartSmall, OnlyDockerfile;
    TooManyCalls() + StartSmall() + OnlyDockerfile()
  }

  function Appended(p: Prompt): string {
    match p case FirstPrompt => [] case Efficiency(catalog) => catalog case Retry(_, _, outputs) => outputs
  }

  /** However long the Dockerfile and its logs are, the prompt is bounded, given a bounded catalog. */
  function Text(p: Prompt): (s: string)
    ensures |Appended(p)| <= 4 * 1024 ==> |s| <= MAX_DOCKERFILE_PROMPT_BYTES + MAX_BUILD_LOG_PROMPT_BYTES + 5 * 1024
  {
    hide Preview.BoundedPromptSection, CatalogHeading, RetryOpening, LogsHeading, FirstText, EfficiencyText;
    match p
    case FirstPrompt => FirstText()
    case Efficiency(catalog) => WithCatalog(EfficiencyText(), catalog)
    case Retry(dockerfile, logs, outputs) =>
      Preview.PromptSectionIsBounded(dockerfile, MAX_DOCKERFILE_PROMPT_BYTES, "Dockerfile");
      Preview.PromptSectionIsBounded(logs, MAX_BUILD_LOG_PROMPT_BYTES, "build output");
      WithCatalog(RetryText(dockerfile, logs), outputs)
  }

  /** The text holds the three parts in this order, with few words between them. */
  ghost predicate Tells(text: string, dockerfile: string, logs: string, outputs: string) {
    exists a, b, c :: text == a + dockerfile + b + logs + c + outputs && |a| + |b| + |c| <= 400
  }

  /** The repair prompt shows the Dockerfile that failed, then its logs, whole while they fit, and last the catalog. */
  lemma RetryTells(dockerfile: string, logs: string, outputs: string)
    requires |dockerfile| <= 64 * 1024 && |logs| <= 12 * 1024
    ensures Tells(Text(Retry(dockerfile, logs, outputs)), dockerfile, logs, outputs)
  {
    hide RetryText, CatalogHeading, RetryOpening, LogsHeading, Tells, FirstText, EfficiencyText;
    RetryShowsBoth(dockerfile, logs);
    PartsTell(RetryOpening(), dockerfile, LogsHeading(), logs, CatalogHeading(), outputs);
    PartsTell(RetryOpening(), dockerfile, LogsHeading(), logs, [], []);
    EmptyEnds(RetryText(dockerfile, logs));
  }

  lemma RetryShowsBoth(dockerfile: string, logs: string)
    requires |dockerfile| <= 64 * 1024 && |logs| <= 12 * 1024
    ensures RetryText(dockerfile, logs) == RetryOpening() + dockerfile + LogsHeading() + logs
  {
    hide Preview.BoundedPromptSection, RetryOpening, LogsHeading;
    Preview.PromptSectionIsBounded(dockerfile, MAX_DOCKERFILE_PROMPT_BYTES, "Dockerfile");
    Preview.PromptSectionIsBounded(logs, MAX_BUILD_LOG_PROMPT_BYTES, "build output");
  }

  lemma PartsTell(a: string, dockerfile: string, b: string, logs: string, c: string, outputs: string)
    requires |a| + |b| + |c| <= 400
    ensures Tells(a + dockerfile + b + logs + c + outputs, dockerfile, logs, outputs)
  {
  }

  lemma EmptyEnds(s: string)
    ensures s + [] + [] == s
  {
  }

  /** Every prompt ends with the catalog it was given. */
  lemma CatalogComesLast(p: Prompt)
    ensures exists front :: Text(p) == front + Appended(p)
  {
    hide RetryText, CatalogHeading, FirstText, EfficiencyText;
    var body := match p case FirstPrompt => FirstText() case Efficiency(_) => EfficiencyText()
      case Retry(dockerfile, logs, _) => RetryText(dockerfile, logs);
    var front := if Appended(p) == [] then body else body + CatalogHeading();
    assert Text(p) == front + Appended(p);
  }

  // ---- One build ----

  datatype BuildOutcome = BuildOk | BuildFailed(logs: string) | OutputFailure

  datatype Once = Once(trace: Trace, outcome: BuildOutcome)

  /** Builds into a temporary file and, if that succeeds, copies it to the output. */
  function BuildOnce(w: World, hasOutput: bool, t: Trace, dockerfile: string): Once {
    if hasOutput && !w.createTemp(t) then Once(t, OutputFailure)
    else
      var s := w.solve(t, dockerfile);
      var t' := t + [Solved(dockerfile, s)];
      match s
      case BuildError(logs) => Once(t', BuildFailed(logs))
      case Built(artifact) =>
        if !hasOutput then Once(t', BuildOk)
        else if !w.openTemp(t') then Once(t', OutputFailure)
        else Copied(w, t', artifact)
  }

  function Copied(w: World, t: Trace, artifact: string): Once {
    match w.copy(t, artifact)
    case Whole => Once(t + [Wrote(artifact)], BuildOk)
    case Stopped(after) => Once(t
        + [Wrote(artifact[..if after < |artifact| then after else |artifact|])], OutputFailure)
  }

  // ---- The run ----

  datatype Ended = Ended(trace: Trace, result: Result)

  function MaxAttempts(cfg: Config): (n: nat)
    ensures n >= 1
  {
    if cfg.maxBuildAttempts <= 0 then 3 else cfg.maxBuildAttempts
  }

  function Attempts(w: World, cfg: Config, attempt: nat, prompt: Prompt, t: Trace, last: string): Ended
    decreases MaxAttempts(cfg) + 1 - attempt
  {
    if attempt > MaxAttempts(cfg) then Ended(t, Failed(AttemptsExhausted(last)))
    else
      var g := w.generate(t, prompt);
      var t1 := t + [Generated(prompt, g)];
      match g
      case StepsExceeded => Attempts(w, cfg, attempt + 1, Efficiency(w.catalog(t1)), t1, last)
      case ModelError => Ended(t1, Failed(GenerateFailed))
      case Answer(content) =>
        var dockerfile := w.extract(content);
        var b := BuildOnce(w, cfg.hasOutput, t1, dockerfile);
        match b.outcome
        case BuildOk => Ended(b.trace, Success(dockerfile, attempt, false))
        case OutputFailure => Ended(b.trace, Failed(OutputFailed))
        case BuildFailed(logs) =>
          Attempts(w, cfg, attempt + 1, Retry(dockerfile, logs, w.catalog(b.trace)), b.trace, dockerfile)
  }

  function WithAgent(w: World, cfg: Config, prompt: Prompt, t: Trace): Ended {
    if !w.agent(t) then Ended(t, Failed(AgentFailed)) else Attempts(w, cfg, 1, prompt, t, [])
  }

  /** The run up to the deferred close. */
  function BeforeClose(w: World, cfg: Config): Ended {
    if !cfg.hasModel then Ended([], Failed(ModelRequired))
    else if cfg.contextDir == [] then Ended([], Failed(ContextRequired))
    else if !w.setUp([]) then Ended([], Failed(SetUpFailed))
    else if cfg.userDockerfile == [] then WithAgent(w, cfg, FirstPrompt, [])
    else
      var b := BuildOnce(w, cfg.hasOutput, [], cfg.userDockerfile);
      match b.outcome
      case BuildOk => Ended(b.trace, Success(cfg.userDockerfile, 0, true))
      case OutputFailure => Ended(b.trace, Failed(OutputFailed))
      case BuildFailed(logs) => WithAgent(w, cfg, Retry(cfg.userDockerfile, logs, []), b.trace)
  }

  function Finished(w: World, cfg: Config, e: Ended): Ended {
    if !cfg.hasOutput then e
    else Ended(e.trace + [Closed], if e.result.Success? && !w.close(e.trace) then Failed(CloseFailed) else e.result)
  }

  // ---- The source's form ----

  class Output {
    var content: string
    var closes: nat

    constructor ()
      ensures content == [] && closes == 0
    {
      content, closes := [], 0;
    }

    method Write(bytes: string)
      modifies this
      ensures content == old(content) + bytes && closes == old(closes)
    {
      content := content + bytes;
    }

    method Close()
      modifies this
      ensures content == old(content) && closes == old(closes) + 1
    {
      closes := closes + 1;
    }
  }

  /** All that has been written, in order. */
  function Written(t: Trace): string {
    if t == [] then []
    else Written(t[..|t| - 1]) + match t[|t| - 1] case Wrote(bytes) => bytes case _ => []
  }

  lemma WrittenAppend(t: Trace, e: Event)
    ensures Written(t + [e]) == Written(t) + match e case Wrote(bytes) => bytes case _ => []
  {
    assert (t + [e])[..|t|] == t;
  }

  method RunBuildOnce(w: World, output: Output?, t: Trace, dockerfile: string)
      returns (trace: Trace, outcome: BuildOutcome)
    modifies output
    ensures Once(trace, outcome) == BuildOnce(w, output != null, t, dockerfile)
    ensures output != null ==> output.closes == old(output.closes) &&
                               (old(output.content) == Written(t) ==> output.content == Written(trace))
  {
    hide Written;
    if output == null {
      var s := w.solve(t, dockerfile);
      trace := t + [Solved(dockerfile, s)];
      outcome := if s.Built? then BuildOk else BuildFailed(s.logs);
      return;
    }
    if !w.createTemp(t) {
      return t, OutputFailure;
    }
    var s := w.solve(t, dockerfile);
    trace := t + [Solved(dockerfile, s)];
    WrittenAppend(t, Solved(dockerfile, s));
    if s.BuildError? {
      return trace, BuildFailed(s.logs);
    }
    if !w.openTemp(trace) {
      return trace, OutputFailure;
    }
    var c := w.copy(trace, s.artifact);
    var copied := if c.Whole? then s.artifact
        else s.artifact[..if c.after < |s.artifact| then c.after else |s.artifact|];
    output.Write(copied);
    WrittenAppend(trace, Wrote(copied));
    trace := trace + [Wrote(copied)];
    outcome := if c.Whole? then BuildOk else OutputFailure;
  }

  /** The attempt loop. */
  method Loop(w: World, cfg: Config, output: Output?, first: Prompt, t: Trace) returns (trace: Trace, result: Result)
    requires cfg.hasOutput == (output != null) && (output != null ==> output.content == Written(t))
    modifies output
    ensures Ended(trace, result) == Attempts(w, cfg, 1, first, t, [])
    ensures output != null ==> output.closes == old(output.closes) && output.content == Written(trace)
  {
    hide BuildOnce, Written;
    var prompt, last, attempt := first, "", 1;
    trace := t;
    while attempt <= MaxAttempts(cfg)
      invariant 1 <= attempt <= MaxAttempts(cfg) + 1
      invariant Attempts(w, cfg, attempt, prompt, trace, last) == Attempts(w, cfg, 1, first, t, [])
      invariant output != null ==> output.closes == old(output.closes) && output.content == Written(trace)
    {
      var g := w.generate(trace, prompt);
      WrittenAppend(trace, Generated(prompt, g));
      trace := trace + [Generated(prompt, g)];
      if g.StepsExceeded? {
        prompt := Efficiency(w.catalog(trace));
        attempt := attempt + 1;
        continue;
      }
      if g.ModelError? {
        return trace, Failed(GenerateFailed);
      }
      var dockerfile := w.extract(g.content);
      last := dockerfile;
      var outcome: BuildOutcome;
      trace, outcome := RunBuildOnce(w, output, trace, dockerfile);
      if outcome.BuildOk? {
        return trace, Success(dockerfile, attempt, false);
      }
      if outcome.OutputFailure? {
        return trace, Failed(OutputFailed);
      }
      prompt := Retry(dockerfile, outcome.logs, w.catalog(trace));
      attempt := attempt + 1;
    }
    result := Failed(AttemptsExhausted(last));
  }

  method RunToClose(w: World, cfg: Config, output: Output?) returns (trace: Trace, result: Result)
    requires cfg.hasOutput == (output != null) && (output != null ==> output.content == [])
    modifies output
    ensures Ended(trace, result) == BeforeClose(w, cfg)
    ensures output != null ==> output.closes == old(output.closes) && output.content == Written(trace)
  {
    hide BuildOnce, Attempts;
    if !cfg.hasModel {
      return [], Failed(ModelRequired);
    }
    if cfg.contextDir == "" {
      return [], Failed(ContextRequired);
    }
    if !w.setUp([]) {
      return [], Failed(SetUpFailed);
    }
    trace := [];
    var prompt := FirstPrompt;
    if cfg.userDockerfile != "" {
      var outcome: BuildOutcome;
      trace, outcome := RunBuildOnce(w, output, trace, cfg.userDockerfile);
      if outcome.BuildOk? {
        return trace, Success(cfg.userDockerfile, 0, true);
      }
      if outcome.OutputFailure? {
        return trace, Failed(OutputFailed);
      }
      prompt := Retry(cfg.userDockerfile, outcome.logs, []);
    }
    if !w.agent(trace) {
      return trace, Failed(AgentFailed);
    }
    trace, result := Loop(w, cfg, output, prompt, trace);
  }

  /** The run, with its deferred close of the output. */
  method Run(w: World, cfg: Config, output: Output?) returns (trace: Trace, result: Result)
    requires cfg.hasOutput == (output != null) && (output != null ==> output.content == [])
    modifies output
    ensures Ended(trace, result) == Finished(w, cfg, BeforeClose(w, cfg))
    ensures output != null ==> output.closes == old(output.closes) + 1 && output.content == Written(trace)
  {
    hide BeforeClose, Written;
    trace, result := RunToClose(w, cfg, output);
    if output != null {
      output.Close();
      if !w.close(trace) && result.Success? {
        result := Failed(CloseFailed);
      }
      WrittenAppend(trace, Closed);
      trace := trace + [Closed];
    }
  }

  // ---- Main results ----

  /** Nothing has been written or closed, and every build so far failed. */
  predicate Trying(t: Trace) {
    forall k | 0 <= k < |t| :: t[k].Generated? || (t[k].Solved? && t[k].s.BuildError?)
  }

  function Generations(t: Trace): nat {
    if t == [] then 0 else Generations(t[..|t| - 1]) + if t[|t| - 1].Generated? then 1 else 0
  }

  function Builds(t: Trace): nat {
    if t == [] then 0 else Builds(t[..|t| - 1]) + if t[|t| - 1].Solved? then 1 else 0
  }

  lemma CountsAppend(t: Trace, e: Event)
    ensures Generations(t + [e]) == Generations(t) + if e.Generated? then 1 else 0
    ensures Builds(t + [e]) == Builds(t) + if e.Solved? then 1 else 0
  {
    assert (t + [e])[..|t|] == t;
  }

  /**
   How a run may end before the close: only tries; or tries, one successful build and, with an output, at most one copy
   of that build's artifact, which is the last thing that happens.
   */
  predicate EndsWell(hasOutput: bool, e: Ended) {
    var t, n := e.trace, |e.trace|;
    if Trying(t) then !e.result.Success?
    else if n >= 1 && t[n - 1].Solved? && t[n - 1].s.Built? then
      && Trying(t[..n - 1])
      && (e.result.Success? ==> !hasOutput && e.result.dockerfile == t[n - 1].dockerfile)
      && (!hasOutput ==> e.result.Success?)
    else
      && hasOutput && n >= 2 && t[n - 1].Wrote? && t[n - 2].Solved? && t[n - 2].s.Built? && Trying(t[..n - 2])
      && t[n - 1].bytes <= t[n - 2].s.artifact
      && (e.result.Success? ==> t[n - 1].bytes == t[n - 2].s.artifact && e.result.dockerfile == t[n - 2].dockerfile)
      && (!e.result.Success? ==> e.result == Failed(OutputFailed))
  }

  lemma TryingAppend(t: Trace, e: Event)
    ensures Trying(t + [e]) <==> Trying(t) && (e.Generated? || (e.Solved? && e.s.BuildError?))
  {
    assert forall k | 0 <= k < |t| :: (t + [e])[k] == t[k];
    assert (t + [e])[|t|] == e;
  }

  lemma BuildEndsWell(w: World, hasOutput: bool, t: Trace, dockerfile: string, result: Result)
    requires Trying(t)
    ensures var b := BuildOnce(w, hasOutput, t, dockerfile);
            && Generations(b.trace) == Generations(t) && Builds(t) <= Builds(b.trace) <= Builds(t) + 1
            && (b.outcome.BuildFailed? ==>
              Trying(b.trace) && b.trace == t + [Solved(dockerfile, BuildError(b.outcome.logs))])
            && (b.outcome.OutputFailure? ==> hasOutput && EndsWell(hasOutput, Ended(b.trace, Failed(OutputFailed))))
            && (b.outcome.BuildOk? && result.Success? && result.dockerfile == dockerfile ==>
              EndsWell(hasOutput, Ended(b.trace, result)))
  {
    hide Trying, Generations, Builds;
    var s := w.solve(t, dockerfile);
    var t1 := t + [Solved(dockerfile, s)];
    TryingAppend(t, Solved(dockerfile, s));
    CountsAppend(t, Solved(dockerfile, s));
    assert t1[..|t|] == t;
    if s.Built? {
      var c := Copied(w, t1, s.artifact);
      var bytes := c.trace[|t1|].bytes;
      assert c.trace == t1 + [Wrote(bytes)];
      assert c.trace[..|t|] == t && c.trace[..|t| + 1] == t1;
      TryingAppend(t1, Wrote(bytes));
      CountsAppend(t1, Wrote(bytes));
    }
  }

  /** From any attempt on: the run ends well, with at most one build for each attempt left. */
  lemma {:induction false} AttemptsEndWell(w: World, cfg: Config, attempt: nat, prompt: Prompt, t: Trace, last: string)
    requires Trying(t) && 1 <= attempt <= MaxAttempts(cfg) + 1
    ensures var e := Attempts(w, cfg, attempt, prompt, t, last);
            && EndsWell(cfg.hasOutput, e)
            && Generations(e.trace) <= Generations(t) + MaxAttempts(cfg) + 1 - attempt
            && Builds(e.trace) - Builds(t) <= Generations(e.trace) - Generations(t)
            && (e.result.Success? ==>
              !e.result.fromUser && e.result.attempts >= attempt
              && e.result.attempts - attempt + 1 == Generations(e.trace) - Generations(t))
    decreases MaxAttempts(cfg) + 1 - attempt
  {
    hide Trying, Generations, Builds, EndsWell, BuildOnce;
    if attempt > MaxAttempts(cfg) {
      StillTrying(cfg.hasOutput, t, AttemptsExhausted(last));
    } else {
      var g := w.generate(t, prompt);
      var t1 := t + [Generated(prompt, g)];
      TryingAppend(t, Generated(prompt, g));
      CountsAppend(t, Generated(prompt, g));
      match g
      case StepsExceeded => AttemptsEndWell(w, cfg, attempt + 1, Efficiency(w.catalog(t1)), t1, last);
      case ModelError => StillTrying(cfg.hasOutput, t1, GenerateFailed);
      case Answer(content) =>
        var dockerfile := w.extract(content);
        var b := BuildOnce(w, cfg.hasOutput, t1, dockerfile);
        BuildEndsWell(w, cfg.hasOutput, t1, dockerfile, Success(dockerfile, attempt, false));
        if b.outcome.BuildFailed? {
          AttemptsEndWell(w, cfg, attempt
              + 1, Retry(dockerfile, b.outcome.logs, w.catalog(b.trace)), b.trace, dockerfile);
        }
    }
  }

  lemma StillTrying(hasOutput: bool, t: Trace, why: Failure)
    requires Trying(t)
    ensures EndsWell(hasOutput, Ended(t, Failed(why)))
  {
  }

  // ---- What the model is told ----

  /** The prompt follows from what came just before. */
  predicate PromptFollows(w: World, t: Trace, prompt: Prompt) {
    if t == [] then prompt == FirstPrompt
    else
      match t[|t| - 1]
      case Generated(_, g) => g.StepsExceeded? && prompt == Efficiency(w.catalog(t))
      case Solved(dockerfile, s) =>
        s.BuildError? && prompt == Retry(dockerfile, s.logs, if |t| == 1 then [] else w.catalog(t))
      case _ => false
  }

  predicate PromptsFollow(w: World, t: Trace) {
    forall k | 0 <= k < |t| && t[k].Generated? :: PromptFollows(w, t[..k], t[k].prompt)
  }

  lemma PromptsAppend(w: World, t: Trace, e: Event)
    requires PromptsFollow(w, t) && (e.Generated? ==> PromptFollows(w, t, e.prompt))
    ensures PromptsFollow(w, t + [e])
  {
    hide PromptFollows;
    var all := t + [e];
    forall k | 0 <= k < |all| && all[k].Generated? ensures PromptFollows(w, all[..k], all[k].prompt) {
      assert all[..k] == t[..k];
      assert k == |t| ==> t[..k] == t;
    }
  }

  lemma BuildPrompts(w: World, hasOutput: bool, t: Trace, dockerfile: string)
    requires PromptsFollow(w, t)
    ensures var b := BuildOnce(w, hasOutput, t, dockerfile);
            && PromptsFollow(w, b.trace)
            && (b.outcome.BuildFailed? ==> b.trace == t + [Solved(dockerfile, BuildError(b.outcome.logs))])
  {
    hide PromptsFollow;
    var s := w.solve(t, dockerfile);
    var t1 := t + [Solved(dockerfile, s)];
    PromptsAppend(w, t, Solved(dockerfile, s));
    if s.Built? {
      PromptsAppend(w, t1, Copied(w, t1, s.artifact).trace[|t1|]);
    }
  }

  lemma {:induction false} AttemptsPrompt(w: World, cfg: Config, attempt: nat, prompt: Prompt, t: Trace, last: string)
    requires PromptsFollow(w, t) && PromptFollows(w, t, prompt) && attempt >= 1
    ensures PromptsFollow(w, Attempts(w, cfg, attempt, prompt, t, last).trace)
    decreases MaxAttempts(cfg) + 1 - attempt
  {
    hide PromptsFollow, BuildOnce;
    if attempt <= MaxAttempts(cfg) {
      var g := w.generate(t, prompt);
      var t1 := t + [Generated(prompt, g)];
      PromptsAppend(w, t, Generated(prompt, g));
      match g
      case StepsExceeded => AttemptsPrompt(w, cfg, attempt + 1, Efficiency(w.catalog(t1)), t1, last);
      case ModelError =>
      case Answer(content) =>
        var dockerfile := w.extract(content);
        var b := BuildOnce(w, cfg.hasOutput, t1, dockerfile);
        BuildPrompts(w, cfg.hasOutput, t1, dockerfile);
        if b.outcome.BuildFailed? {
          AttemptsPrompt(w, cfg, attempt
              + 1, Retry(dockerfile, b.outcome.logs, w.catalog(b.trace)), b.trace, dockerfile);
        }
    }
  }

  /** In every run each prompt is the first one, or answers the step before: what failed to build, with its logs. */
  lemma PromptsAnswerTheLastStep(w: World, cfg: Config)
    ensures PromptsFollow(w, BeforeClose(w, cfg).trace)
  {
    hide BuildOnce, Attempts;
    var b := BuildOnce(w, cfg.hasOutput, [], cfg.userDockerfile);
    BuildPrompts(w, cfg.hasOutput, [], cfg.userDockerfile);
    if cfg.userDockerfile == [] {
      AttemptsPrompt(w, cfg, 1, FirstPrompt, [], []);
    } else if b.outcome.BuildFailed? {
      AttemptsPrompt(w, cfg, 1, Retry(cfg.userDockerfile, b.outcome.logs, []), b.trace, []);
    }
  }

  // ---- The whole run ----

  /**
   Main result, for every configuration and every behaviour of the outside. An output is closed exactly once, last; it
   has received bytes of at most one artifact, that of the last build, nothing is tried after that, and a success means
   it holds all of it. Each attempt builds at most once; without attempts left the run fails.
   */
  lemma RunsAreSafe(w: World, cfg: Config)
    ensures var before, e := BeforeClose(w, cfg), Finished(w, cfg, BeforeClose(w, cfg));
            && EndsWell(cfg.hasOutput, before)
            && e.trace == before.trace + (if cfg.hasOutput then [Closed] else [])
            && (e.result.Success? ==> e.result == before.result && (cfg.hasOutput ==> w.close(before.trace)))
            && Generations(before.trace) <= MaxAttempts(cfg)
            && Builds(before.trace) <= Generations(before.trace) + (if cfg.userDockerfile == [] then 0 else 1)
            && (e.result.Success? ==> e.result.attempts == Generations(before.trace))
            && (e.result.Success? && e.result.fromUser ==> e.result.dockerfile == cfg.userDockerfile)
            && (e.result.Success? ==> (e.result.fromUser <==> e.result.attempts == 0))
  {
    hide Trying, Generations, Builds, EndsWell, BuildOnce, Attempts;
    StartIsTrying();
    StillTrying(cfg.hasOutput, [], ModelRequired);
    StillTrying(cfg.hasOutput, [], ContextRequired);
    StillTrying(cfg.hasOutput, [], SetUpFailed);
    StillTrying(cfg.hasOutput, [], AgentFailed);
    if cfg.userDockerfile == [] {
      AttemptsEndWell(w, cfg, 1, FirstPrompt, [], []);
    } else {
      var b := BuildOnce(w, cfg.hasOutput, [], cfg.userDockerfile);
      BuildEndsWell(w, cfg.hasOutput, [], cfg.userDockerfile, Success(cfg.userDockerfile, 0, true));
      if b.outcome.BuildFailed? {
        StillTrying(cfg.hasOutput, b.trace, AgentFailed);
        AttemptsEndWell(w, cfg, 1, Retry(cfg.userDockerfile, b.outcome.logs, []), b.trace, []);
      }
    }
  }

  lemma StartIsTrying()
    ensures Trying([]) && Generations([]) == 0 && Builds([]) == 0
  {
  }

  /** What the output holds in the end: nothing, or a front part of the last build's artifact, all of it on success. */
  lemma OutputHoldsOneArtifact(w: World, cfg: Config)
    requires cfg.hasOutput
    ensures var before := BeforeClose(w, cfg);
            var t, n := before.trace, |before.trace|;
            if Trying(t) || t[n - 1].Solved? then Written(t) == [] && !before.result.Success?
            else n >= 2 && t[n - 2].Solved? && t[n - 2].s.Built? && Written(t) <= t[n - 2].s.artifact
                 && (before.result.Success? ==> Written(t) == t[n - 2].s.artifact)
  {
    hide BeforeClose;
    RunsAreSafe(w, cfg);
    var t, n := BeforeClose(w, cfg).trace, |BeforeClose(w, cfg).trace|;
    if Trying(t) {
      NothingWritten(t);
    } else if t[n - 1].Solved? {
      NothingWritten(t[..n - 1]);
    } else {
      NothingWritten(t[..n - 2]);
      assert t[..n - 1][..n - 2] == t[..n - 2];
    }
  }

  lemma {:induction false} NothingWritten(t: Trace)
    requires Trying(t)
    ensures Written(t) == []
  {
    if t != [] {
      NothingWritten(t[..|t| - 1]);
    }
  }

  // ---- Why a run ends ----

  predicate Ready(w: World, cfg: Config) {
    cfg.hasModel && cfg.contextDir != [] && w.setUp([])
  }

  /** The model is due: nothing has happened and no Dockerfile was supplied, or the last try failed. */
  predicate ModelIsDue(cfg: Config, t: Trace) {
    if t == [] then cfg.userDockerfile == []
    else match t[|t| - 1] case Generated(_, g) => g.StepsExceeded? case Solved(_, s) => s.BuildError? case _ => false
  }

  /** A build is due: of the supplied Dockerfile, or of what the model has just answered. */
  predicate BuildIsDue(cfg: Config, t: Trace) {
    if t == [] then cfg.userDockerfile != [] else t[|t| - 1].Generated? && t[|t| - 1].g.Answer?
  }

  function DueDockerfile(w: World, cfg: Config, t: Trace): string
    requires BuildIsDue(cfg, t)
  {
    if t == [] then cfg.userDockerfile else w.extract(t[|t| - 1].g.content)
  }

  /** The last thing that happened is a successful build. */
  predicate HasBuilt(t: Trace) {
    t != [] && t[|t| - 1].Solved? && t[|t| - 1].s.Built?
  }

  /** All of the artifact, or the front of it up to where the copying stopped. */
  predicate IsCopy(c: Copying, artifact: string, bytes: string) {
    match c
    case Whole => bytes == artifact
    case Stopped(after) => bytes <= artifact && |bytes| == if after < |artifact| then after else |artifact|
  }

  /** What may happen next, and only that: who is due, with tries left, and with the answer the outside gives. */
  predicate MayHappen(w: World, cfg: Config, t: Trace, e: Event) {
    match e
    case Generated(prompt, g) =>
      && ModelIsDue(cfg, t) && Generations(t) < (if cfg.maxBuildAttempts <= 0 then 3 else cfg.maxBuildAttempts)
      && (Generations(t) == 0 ==> w.agent(t))
      && g == w.generate(t, prompt)
    case Solved(dockerfile, s) =>
      && BuildIsDue(cfg, t) && (cfg.hasOutput ==> w.createTemp(t))
      && dockerfile == DueDockerfile(w, cfg, t) && s == w.solve(t, dockerfile)
    case Wrote(bytes) =>
      && HasBuilt(t) && cfg.hasOutput && w.openTemp(t)
      && IsCopy(w.copy(t, t[|t| - 1].s.artifact), t[|t| - 1].s.artifact, bytes)
    case Closed => false
  }

  predicate Happened(w: World, cfg: Config, t: Trace) {
    forall k | 0 <= k < |t| :: MayHappen(w, cfg, t[..k], t[k])
  }

  /** The Dockerfile of the last build of the model's answers; the one supplied is only ever built first. */
  function LastAnswerBuilt(t: Trace): string {
    if t == [] then []
    else if t[|t| - 1].Solved? && |t| > 1 then t[|t| - 1].dockerfile
    else LastAnswerBuilt(t[..|t| - 1])
  }

  /** The copy of the artifact just built, whose bytes are the last thing written, stopped before its end. */
  predicate CopyStopped(w: World, t: Trace) {
    |t| >= 2 && t[|t| - 1].Wrote? && HasBuilt(t[..|t| - 1])
    && w.copy(t[..|t| - 1], t[|t| - 2].s.artifact).Stopped?
  }

  predicate CopyDone(w: World, t: Trace) {
    |t| >= 2 && t[|t| - 1].Wrote? && HasBuilt(t[..|t| - 1])
    && w.copy(t[..|t| - 1], t[|t| - 2].s.artifact).Whole?
  }

  /** Why a run that has come this far ends here, with this result. */
  predicate Cause(w: World, cfg: Config, t: Trace, result: Result) {
    match result
    case Failed(ModelRequired) => t == [] && !cfg.hasModel
    case Failed(ContextRequired) => t == [] && cfg.hasModel && cfg.contextDir == []
    case Failed(SetUpFailed) => t == [] && cfg.hasModel && cfg.contextDir != [] && !w.setUp([])
    case Failed(AgentFailed) => Ready(w, cfg) && ModelIsDue(cfg, t) && Generations(t) == 0 && !w.agent(t)
    case Failed(GenerateFailed) => Ready(w, cfg) && t != [] && t[|t| - 1].Generated? && t[|t| - 1].g.ModelError?
    case Failed(OutputFailed) =>
      && Ready(w, cfg) && cfg.hasOutput
      && ((BuildIsDue(cfg, t) && !w.createTemp(t)) || (HasBuilt(t) && !w.openTemp(t)) || CopyStopped(w, t))
    case Failed(AttemptsExhausted(last)) =>
      && Ready(w, cfg) && ModelIsDue(cfg, t)
      && Generations(t) == (if cfg.maxBuildAttempts <= 0 then 3 else cfg.maxBuildAttempts)
      && last == LastAnswerBuilt(t)
    case Failed(CloseFailed) => false
    case Success(dockerfile, attempts, fromUser) =>
      && Ready(w, cfg) && attempts == Generations(t) && fromUser == (attempts == 0)
      && if cfg.hasOutput then CopyDone(w, t) && dockerfile == t[|t| - 2].dockerfile
         else HasBuilt(t) && dockerfile == t[|t| - 1].dockerfile
  }

  /** A run that has come this far has at most one cause to end, and with a cause nothing more may happen. */
  lemma CauseIsUnique(w: World, cfg: Config, t: Trace, r: Result, q: Result, e: Event)
    requires Cause(w, cfg, t, r)
    ensures Cause(w, cfg, t, q) ==> q == r
    ensures Ready(w, cfg) ==> !MayHappen(w, cfg, t, e)
  {
  }

  lemma HappenedAppend(w: World, cfg: Config, t: Trace, e: Event)
    requires Happened(w, cfg, t) && MayHappen(w, cfg, t, e)
    ensures Happened(w, cfg, t + [e])
  {
    hide MayHappen;
    var all := t + [e];
    forall k | 0 <= k < |all| ensures MayHappen(w, cfg, all[..k], all[k]) {
      assert all[..k] == t[..k];
      assert k == |t| ==> t[..k] == t;
    }
  }

  lemma LastAnswerAppend(t: Trace, e: Event)
    ensures LastAnswerBuilt(t + [e]) == if e.Solved? && t != [] then e.dockerfile else LastAnswerBuilt(t)
  {
    assert (t + [e])[..|t|] == t;
  }

  lemma CopyHappens(w: World, cfg: Config, t: Trace)
    requires cfg.hasOutput && Happened(w, cfg, t) && HasBuilt(t) && w.openTemp(t)
    ensures var c := Copied(w, t, t[|t| - 1].s.artifact);
            && Happened(w, cfg, c.trace) && Generations(c.trace) == Generations(t) && |c.trace| == |t| + 1
            && c.trace[|t| - 1] == t[|t| - 1]
            && (c.outcome.BuildOk? ==> CopyDone(w, c.trace))
            && (c.outcome.OutputFailure? ==> CopyStopped(w, c.trace))
            && !c.outcome.BuildFailed?
  {
    hide Happened, Generations;
    var c := Copied(w, t, t[|t| - 1].s.artifact);
    var bytes := c.trace[|t|].bytes;
    assert c.trace == t + [Wrote(bytes)] && c.trace[..|t|] == t;
    HappenedAppend(w, cfg, t, Wrote(bytes));
    CountsAppend(t, Wrote(bytes));
  }

  lemma BuildHappens(w: World, cfg: Config, t: Trace)
    requires Ready(w, cfg) && Happened(w, cfg, t) && BuildIsDue(cfg, t)
    ensures var d := DueDockerfile(w, cfg, t);
            var b := BuildOnce(w, cfg.hasOutput, t, d);
            && Happened(w, cfg, b.trace) && Generations(b.trace) == Generations(t)
            && (b.outcome.BuildFailed? ==> b.trace == t + [Solved(d, BuildError(b.outcome.logs))])
            && (b.outcome.OutputFailure? ==> Cause(w, cfg, b.trace, Failed(OutputFailed)))
            && (b.outcome.BuildOk? ==> Cause(w, cfg, b.trace, Success(d, Generations(t), Generations(t) == 0)))
  {
    hide Happened, Generations, CopyDone, CopyStopped;
    var d := DueDockerfile(w, cfg, t);
    if !cfg.hasOutput || w.createTemp(t) {
      var s := w.solve(t, d);
      var t1 := t + [Solved(d, s)];
      HappenedAppend(w, cfg, t, Solved(d, s));
      CountsAppend(t, Solved(d, s));
      if s.Built? && cfg.hasOutput && w.openTemp(t1) {
        CopyHappens(w, cfg, t1);
      }
    }
  }

  lemma {:induction false} AttemptsHaveCause(w: World, cfg: Config, attempt: nat, prompt: Prompt, t: Trace,
      last: string)
    requires Ready(w, cfg) && Happened(w, cfg, t) && ModelIsDue(cfg, t) && (attempt == 1 ==> w.agent(t))
    requires 1 <= attempt <= MaxAttempts(cfg) + 1 && Generations(t) == attempt - 1 && LastAnswerBuilt(t) == last
    ensures var e := Attempts(w, cfg, attempt, prompt, t, last);
            Happened(w, cfg, e.trace) && Cause(w, cfg, e.trace, e.result)
    decreases MaxAttempts(cfg) + 1 - attempt
  {
    hide Happened, Generations, BuildOnce, LastAnswerBuilt;
    if attempt <= MaxAttempts(cfg) {
      var g := w.generate(t, prompt);
      var t1 := t + [Generated(prompt, g)];
      HappenedAppend(w, cfg, t, Generated(prompt, g));
      CountsAppend(t, Generated(prompt, g));
      LastAnswerAppend(t, Generated(prompt, g));
      match g
      case StepsExceeded => AttemptsHaveCause(w, cfg, attempt + 1, Efficiency(w.catalog(t1)), t1, last);
      case ModelError =>
      case Answer(content) =>
        var dockerfile := w.extract(content);
        BuildHappens(w, cfg, t1);
        var b := BuildOnce(w, cfg.hasOutput, t1, dockerfile);
        if b.outcome.BuildFailed? {
          LastAnswerAppend(t1, Solved(dockerfile, BuildError(b.outcome.logs)));
          AttemptsHaveCause(w, cfg, attempt
              + 1, Retry(dockerfile, b.outcome.logs, w.catalog(b.trace)), b.trace, dockerfile);
        }
    }
  }

  /**
   Main result, for every configuration and every behaviour of the outside: all that happens in a run is what may
   happen next, the run goes on until there is a cause to end, and its result is the one that has this cause. So a
   failed build is tried again while attempts are left, `AttemptsExhausted` comes after exactly the configured number
   of generations, three if that is not positive, and every other failure has its own cause.
   */
  lemma RunsEndForACause(w: World, cfg: Config)
    ensures var before := BeforeClose(w, cfg);
            var closed := Finished(w, cfg, before);
            && Happened(w, cfg, before.trace) && Cause(w, cfg, before.trace, before.result)
            && (closed.result == Failed(CloseFailed) <==>
                cfg.hasOutput && before.result.Success? && !w.close(before.trace))
            && (closed.result != Failed(CloseFailed) ==> closed.result == before.result)
  {
    hide Happened, Generations, BuildOnce, LastAnswerBuilt, Attempts;
    NothingHappened(w, cfg);
    if !Ready(w, cfg) {
    } else if cfg.userDockerfile == [] {
      if w.agent([]) {
        AttemptsHaveCause(w, cfg, 1, FirstPrompt, [], []);
      }
    } else {
      BuildHappens(w, cfg, []);
      var b := BuildOnce(w, cfg.hasOutput, [], cfg.userDockerfile);
      if b.outcome.BuildFailed? {
        LastAnswerAppend([], Solved(cfg.userDockerfile, BuildError(b.outcome.logs)));
        assert b.trace == [] + [Solved(cfg.userDockerfile, BuildError(b.outcome.logs))];
        if w.agent(b.trace) {
          AttemptsHaveCause(w, cfg, 1, Retry(cfg.userDockerfile, b.outcome.logs, []), b.trace, []);
        }
      }
    }
  }

  lemma NothingHappened(w: World, cfg: Config)
    ensures Happened(w, cfg, []) && Generations([]) == 0 && LastAnswerBuilt([]) == []
  {
  }

  /** In a run out of attempts each answer was built and failed, and each other generation exceeded its steps. */
  lemma ExhaustedRunTriedAll(w: World, cfg: Config, last: string)
    requires BeforeClose(w, cfg).result == Failed(AttemptsExhausted(last))
    ensures var t := BeforeClose(w, cfg).trace;
            && Generations(t) == (if cfg.maxBuildAttempts <= 0 then 3 else cfg.maxBuildAttempts)
            && last == LastAnswerBuilt(t)
            && forall k | 0 <= k < |t| && t[k].Generated? ::
              t[k].g.StepsExceeded?
              || (t[k].g.Answer? && k + 1 < |t| && t[k + 1].Solved? && t[k + 1].s.BuildError?
                  && t[k + 1].dockerfile == w.extract(t[k].g.content))
  {
    hide BeforeClose, Generations, LastAnswerBuilt;
    RunsEndForACause(w, cfg);
    var t := BeforeClose(w, cfg).trace;
    TriedOnly(w, cfg, t);
    forall k | 0 <= k < |t| && t[k].Generated? && !t[k].g.StepsExceeded?
      ensures t[k].g.Answer? && k + 1 < |t| && t[k + 1].Solved? && t[k + 1].s.BuildError?
              && t[k + 1].dockerfile == w.extract(t[k].g.content)
    {
      assert k + 1 < |t|;
      assert MayHappen(w, cfg, t[..k + 1], t[k + 1]);
      assert t[..k + 1][k] == t[k];
    }
  }

  /** While something is due, nothing has been built. */
  lemma {:induction false} TriedOnly(w: World, cfg: Config, t: Trace)
    requires Happened(w, cfg, t) && (ModelIsDue(cfg, t) || BuildIsDue(cfg, t))
    ensures forall k | 0 <= k < |t| :: t[k].Generated? || (t[k].Solved? && t[k].s.BuildError?)
  {
    hide Generations, IsCopy, DueDockerfile;
    if t != [] {
      var n := |t| - 1;
      assert MayHappen(w, cfg, t[..n], t[n]);
      assert Happened(w, cfg, t[..n]) by {
        hide MayHappen;
        assert forall k | 0 <= k < n :: t[..n][..k] == t[..k];
      }
      TriedOnly(w, cfg, t[..n]);
    }
  }
}
