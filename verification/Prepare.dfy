/**
 `Prepare`: the state machine over a Dockerfile's parsed instructions. It tracks the platform inputs still
 `active` in the stage, the aliases `declared` in it and the shared maps of build arguments and of secrets, and rewrites
 each instruction. `PrepareFile` is the loop; `ProcessAll` is what it computes.
 */
module Prepare {
  import opened References
  import H = HeaderReading
  import M = Materializer
  import R = Rewriter
  import W = WordSplitting

  // ---- Naming ----

  const PREFIX := "ZEABUR_DOCKERFILE_"
  const EXPR := "EXPR_"

  /** Alias names: no author, image or input uses them. */
  predicate Reserved(name: string) {
    PREFIX <= name
  }

  function HexDigit(n: nat): (c: char)
    requires n < 16
    ensures IsNameChar(c) && c != 'E'
  {
    if n < 10 then '0' + (n as char) else 'a' + ((n - 10) as char)
  }

  function HexValue(c: char): (n: nat)
    ensures n < 16
  {
    if '0' <= c <= '9' then (c - '0') as nat else if 'a' <= c <= 'f' then (c - 'a') as nat + 10 else 0
  }

  function Hex(s: string): string {
    if s == [] then []
    else [HexDigit(s[0] as nat / 16 % 16), HexDigit(s[0] as nat % 16)] + Hex(s[1..])
  }

  function Unhex(h: string): string {
    if |h| < 2 then []
    else [(HexValue(h[0]) * 16 + HexValue(h[1])) as char] + Unhex(h[2..])
  }

  predicate IsBytes(s: string) {
    forall k | 0 <= k < |s| :: s[k] as nat < 256
  }

  lemma DigitRoundTrip(n: nat)
    requires n < 16
    ensures HexValue(HexDigit(n)) == n
  {
  }

  lemma ByteRoundTrip(c: char)
    requires c as nat < 256
    ensures HexValue(HexDigit(c as nat / 16 % 16)) * 16 + HexValue(HexDigit(c as nat % 16)) == c as nat
  {
    hide HexDigit, HexValue;
    DigitRoundTrip(c as nat / 16);
    DigitRoundTrip(c as nat % 16);
  }

  lemma {:induction false} HexRoundTrip(s: string)
    requires IsBytes(s)
    ensures Unhex(Hex(s)) == s
  {
    hide HexDigit, HexValue;
    if s != [] {
      HexRoundTrip(s[1..]);
      ByteRoundTrip(s[0]);
      assert Hex(s)[2..] == Hex(s[1..]);
    }
  }

  lemma {:induction false} HexIsName(s: string)
    ensures forall k | 0 <= k < |Hex(s)| :: IsNameChar(Hex(s)[k]) && Hex(s)[k] != 'E'
    ensures s != [] ==> Hex(s) != []
  {
    if s != [] {
      HexIsName(s[1..]);
    }
  }

  function KeyAlias(key: string): string {
    PREFIX + Hex(key)
  }

  /** The key a reference alias stands for. */
  function KeyOf(alias: string): string {
    if |alias| < |PREFIX| then [] else Unhex(alias[|PREFIX|..])
  }

  lemma KeyAliasRoundTrip(key: string)
    requires IsBytes(key)
    ensures KeyOf(KeyAlias(key)) == key
  {
    HexRoundTrip(key);
    assert KeyAlias(key)[|PREFIX|..] == Hex(key);
  }

  lemma ArgNameIsBytes(name: string)
    requires ValidArgName(name)
    ensures IsBytes(name)
  {
  }

  /**
   `digest` stands for the hexadecimal SHA-256 of a word and `secretID` for the keyed hash of an input's name and value,
   both taken to be injective; `order` lists names in the order of their sorting.
   */
  datatype Config = Config(values: map<string, string>, escape: char, maxSecret: nat, digest: string -> string,
                           secretID: (string, string) -> string, order: set<string> -> seq<string>)

  function ExprAlias(cfg: Config, word: string): string {
    PREFIX + EXPR + cfg.digest(word)
  }

  /** The sequence holds the names of the set, each once. */
  predicate Lists(names: seq<string>, keys: set<string>) {
    && (forall i | 0 <= i < |names| :: names[i] in keys)
    && (forall k | k in keys :: k in names)
    && forall i, j | 0 <= i < j < |names| :: names[i] != names[j]
  }

  /** What the parser and the sorting promise. */
  ghost predicate BaseConfig(cfg: Config) {
    && (cfg.escape == '\\' || cfg.escape == '`')
    && (forall keys :: Lists(cfg.order(keys), keys))
  }

  ghost predicate DigestTellsWords(cfg: Config) {
    forall v, w :: cfg.digest(v) == cfg.digest(w) ==> v == w
  }

  /** And what the theorems ask of the hashes, and of the inputs: none has the name of an alias. */
  ghost predicate ValidConfig(cfg: Config) {
    && BaseConfig(cfg)
    && (forall w :: forall k | 0 <= k < |cfg.digest(w)| :: IsNameChar(cfg.digest(w)[k]))
    && DigestTellsWords(cfg)
    && (forall j, k, v, w :: cfg.secretID(j, v) == cfg.secretID(k, w) ==> j == k && v == w)
    && (forall k | k in cfg.values :: !Reserved(k))
  }

  lemma DigestsAreGood(cfg: Config)
    requires ValidConfig(cfg)
    ensures DigestTellsWords(cfg)
  {
  }

  lemma AliasesAreNames(cfg: Config, word: string)
    requires ValidConfig(cfg)
    ensures ValidArgName(KeyAlias(word)) && Reserved(KeyAlias(word))
    ensures ValidArgName(ExprAlias(cfg, word)) && Reserved(ExprAlias(cfg, word))
  {
    HexIsName(word);
    assert IsNameString(PREFIX) && IsNameString(EXPR);
  }

  predicate IsNameString(s: string) {
    forall k | 0 <= k < |s| :: IsNameChar(s[k])
  }

  lemma AliasesDiffer(cfg: Config, key: string, word: string)
    requires key != []
    ensures KeyAlias(key) != ExprAlias(cfg, word)
  {
    HexIsName(key);
    assert KeyAlias(key)[|PREFIX|] == Hex(key)[0];
    assert ExprAlias(cfg, word)[|PREFIX|] == 'E';
  }

  lemma ExprAliasInjective(cfg: Config, v: string, w: string)
    requires DigestTellsWords(cfg) && ExprAlias(cfg, v) == ExprAlias(cfg, w)
    ensures v == w
  {
    assert ExprAlias(cfg, v)[|PREFIX + EXPR|..] == cfg.digest(v);
    assert ExprAlias(cfg, w)[|PREFIX + EXPR|..] == cfg.digest(w);
  }

  // ---- Instructions ----

  /** A word the frontend expands, as parsed and as spelled in the header (its JSON encoding in the JSON form). */
  datatype Spelling = Spelling(text: string, needle: string)

  /** No word that looks a variable up is spelled with no character at all. */
  type Word = w: Spelling | w.needle != [] witness Spelling("$A", "$A")

  /** The instructions the build expands, told apart by how they are read, and those it takes as they are written. */
  datatype Kind = Env | Label | Arg | Expose | Misc | Verbatim

  datatype Doc = Doc(text: string, expand: bool)

  datatype Source = Image(env: Env) | Stage(index: nat)

  datatype Step =
    | From(source: Source)
    | Run(flags: seq<string>, flagWords: seq<string>, mounts: seq<string>, script: string)
    | Other(kind: Kind, header: string, words: seq<Word>, rawWords: seq<string>, docs: seq<Doc>, keys: seq<string>)

  /** A secret mounted as an environment variable. */
  datatype Mount = Mount(id: string, name: string)

  /**
   A prepared instruction, with the aliases its `ARG` lines declare. A `RUN` keeps its own env mounts, rewritten, and
   gets those of `secrets`.
   */
  datatype OutStep =
    | OutFrom(source: Source)
    | OutRun(args: set<string>, flags: seq<string>, mounts: seq<string>, secrets: seq<Mount>, script: string)
    | OutOther(args: set<string>, kind: Kind, header: string, docs: seq<Doc>)

  datatype State = State(
    active: map<string, string>, declared: set<string>, buildArgs: map<string, string>, secrets: map<string, string>)

  datatype Outcome<+T> = Err | Ok(value: T)

  function HeaderSyntax(cfg: Config, kind: Kind): Syntax {
    Syntax(cfg.escape, false, !kind.Misc? && !kind.Verbatim?)
  }

  /** Where the reading of a header starts. */
  function HeaderShape(kind: Kind): H.Shape {
    match kind
    case Env => H.InKeyword(false, true)
    case Label => H.InKeyword(false, true)
    case Arg => H.InKeyword(false, false)
    case _ => H.Whole
  }

  /** How the lexer reads one word by itself. */
  function WordSyntax(cfg: Config): Syntax { HeaderSyntax(cfg, Misc) }

  function DocSyntax(): Syntax { Syntax('\\', true, false) }

  /** `rewriteReferences(flag, bindings, 0, true)`: no escape character, quotes ordinary. */
  function FlagSyntax(): Syntax { Syntax('\0', true, false) }

  predicate Contains(s: string, t: string) {
    exists i | 0 <= i <= |s| :: t <= s[i..]
  }

  // ---- Capturing what the words refer to ----

  datatype Captured = Captured(needed: set<string>, exprs: seq<M.Expression>)

  function Matched(t: Text, active: map<string, string>): set<string> {
    Names(t) * active.Keys
  }

  function CaptureName(c: Captured, text: string, y: Syntax, active: map<string, string>): (r: Outcome<Captured>)
    ensures r.Ok? ==> r.value.exprs == c.exprs
  {
    var p := Parse(text, y);
    if p.Malformed? then Err else Ok(c.(needed := c.needed + Matched(p.text, active)))
  }

  predicate FullyKnown(t: Text, active: map<string, string>) {
    Matched(t, active) != {} && Names(t) <= active.Keys
  }

  /** The words a word of an `EXPOSE` comes to. */
  function PortWords(cfg: Config, text: string, active: map<string, string>): seq<string> {
    var p := Parse(text, HeaderSyntax(cfg, Expose));
    if p.Malformed? then [] else W.Words(p.text, active)
  }

  /** The alias of a word of an `EXPOSE` that comes to several words without blanks is left unquoted. */
  function KnownExpression(cfg: Config, kind: Kind, w: Word, t: Text, active: map<string, string>): M.Expression {
    M.Expression(w.needle, ExprAlias(cfg, w.text), Flat(Eval(t, active)), Matched(t, active),
                 kind.Expose? && W.StaysUnquoted(PortWords(cfg, w.text, active)))
  }

  function CaptureWord(cfg: Config, c: Captured, kind: Kind, header: string, w: Word, active: map<string, string>)
    : (r: Outcome<Captured>)
    ensures r.Ok? && M.AllNonEmpty(c.exprs) ==> M.AllNonEmpty(r.value.exprs)
  {
    var p := Parse(w.text, WordSyntax(cfg));
    if p.Malformed? then Err
    else if FullyKnown(p.text, active) && Contains(header, w.needle) then
      Ok(c.(exprs := c.exprs + [KnownExpression(cfg, kind, w, p.text, active)]))
    else CaptureName(c, w.text, WordSyntax(cfg), active)
  }

  function CaptureWords(cfg: Config, c: Captured, kind: Kind, header: string, words: seq<Word>,
      active: map<string, string>)
    : (r: Outcome<Captured>)
    ensures r.Ok? && M.AllNonEmpty(c.exprs) ==> M.AllNonEmpty(r.value.exprs)
    decreases |words|
  {
    if words == [] then Ok(c)
    else
      var d := CaptureWord(cfg, c, kind, header, words[0], active);
      if d.Err? then Err else CaptureWords(cfg, d.value, kind, header, words[1..], active)
  }

  function CaptureNames(c: Captured, texts: seq<string>, y: Syntax, active: map<string, string>): (r: Outcome<Captured>)
    ensures r.Ok? ==> r.value.exprs == c.exprs
    decreases |texts|
  {
    if texts == [] then Ok(c)
    else
      var d := CaptureName(c, texts[0], y, active);
      if d.Err? then Err else CaptureNames(d.value, texts[1..], y, active)
  }

  const NOTHING := Captured({}, [])

  /** Everything a step refers to, in the order the words are visited. */
  function CaptureStep(cfg: Config, step: Step, active: map<string, string>): (r: Outcome<Captured>)
    requires !step.From?
    ensures r.Ok? ==> M.AllNonEmpty(r.value.exprs)
  {
    if step.Run? then CaptureNames(NOTHING, step.flagWords, WordSyntax(cfg), active)
    else
      var c := CaptureWords(cfg, NOTHING, step.kind, step.header, step.words, active);
      if c.Err? then Err else CaptureNames(c.value, step.rawWords, DocSyntax(), active)
  }

  // ---- Declaring aliases ----

  /** The names unreplaced words still refer to. */
  function Unreplaced(exprs: seq<M.Expression>, used: set<string>): set<string> {
    set e, n | e in exprs && e.alias !in used && n in e.references :: n
  }

  /** The state and the `ARG` lines after the used expressions are declared, in order. */
  function DeclareExprs(st: State, args: set<string>, exprs: seq<M.Expression>, used: set<string>): (State, set<string>)
    decreases |exprs|
  {
    if exprs == [] then (st, args)
    else
      var e := exprs[0];
      if e.alias in used && e.alias !in st.declared then
        DeclareExprs(st.(declared := st.declared + {e.alias}, buildArgs := st.buildArgs[e.alias := e.value]),
                     args + {e.alias}, exprs[1..], used)
      else DeclareExprs(st, args, exprs[1..], used)
  }

  function KeyAliases(keys: set<string>): set<string> {
    set k | k in keys :: KeyAlias(k)
  }

  function InputValue(cfg: Config, key: string): string {
    if key in cfg.values then cfg.values[key] else []
  }

  function DeclareKeys(cfg: Config, st: State, needed: set<string>): (State, set<string>) {
    var args := KeyAliases(needed - st.declared);
    (st.(declared := st.declared + needed,
         buildArgs := st.buildArgs + map a | a in args :: InputValue(cfg, KeyOf(a))),
     args)
  }

  function BindingsFor(needed: set<string>): R.Bindings {
    map k | k in needed :: KeyAlias(k)
  }

  // ---- One instruction ----

  /** What the header step works out before it touches the state. */
  datatype Plan = Plan(needed: set<string>, exprs: seq<M.Expression>, header: string, used: set<string>)

  function PlanStep(cfg: Config, step: Step, active: map<string, string>): Outcome<Plan>
    requires !step.From?
  {
    var c := CaptureStep(cfg, step, active);
    if c.Err? then Err
    else if step.Run? then Ok(Plan(c.value.needed, [], [], {}))
    else
      var exprs := c.value.exprs;
      var y := HeaderSyntax(cfg, step.kind);
      var used := M.UsedBy(M.Segments(step.header, true, y, Bare, exprs), exprs);
      Ok(Plan(c.value.needed + Unreplaced(exprs, used), exprs, M.Materialize(step.header, true, y, Bare, exprs), used))
  }

  /** The secret-env names a `RUN` asks for itself. */
  function Explicit(cfg: Config, found: set<string>, mounts: seq<string>,
      active: map<string, string>): Outcome<set<string>>
    decreases |mounts|
  {
    if mounts == [] then Ok(found)
    else match Expand(mounts[0], WordSyntax(cfg), active)
      case Fails => Err
      case Gives(out) => Explicit(cfg, found + {Flat(out)}, mounts[1..], active)
  }

  /**
   The secrets a `RUN` mounts: the active inputs it does not ask for itself, in order, each under its own identifier.
   */
  function MountSecrets(cfg: Config, secrets: map<string, string>, mounts: seq<Mount>, keys: seq<string>,
      active: map<string, string>, explicit: set<string>): (map<string, string>, seq<Mount>)
    decreases |keys|
  {
    if keys == [] then (secrets, mounts)
    else if keys[0] in explicit || keys[0] !in active then
      MountSecrets(cfg, secrets, mounts, keys[1..], active, explicit)
    else
      var id := cfg.secretID(keys[0], active[keys[0]]);
      MountSecrets(cfg, secrets[id := active[keys[0]]], mounts + [Mount(id, keys[0])], keys[1..], active, explicit)
  }

  /** `ENV` takes its keys out of `active`, one after another. */
  function Override(cfg: Config, active: map<string, string>, keys: seq<string>): Outcome<map<string, string>>
    decreases |keys|
  {
    if keys == [] then Ok(active)
    else match Expand(keys[0], WordSyntax(cfg), active)
      case Fails => Err
      case Gives(out) => Override(cfg, active - {Flat(out)}, keys[1..])
  }

  function RewriteAll(texts: seq<string>, b: R.Bindings, y: Syntax): (r: seq<string>)
    ensures |r| == |texts|
    ensures forall i | 0 <= i < |texts| :: r[i] == R.Rewrite(texts[i], b, y, Bare)
  {
    seq(|texts|, i requires 0 <= i < |texts| => R.Rewrite(texts[i], b, y, Bare))
  }

  /** Only the documents whose delimiter is unquoted are expanded, and so rewritten. */
  function RewriteDoc(d: Doc, b: R.Bindings): Doc {
    if d.expand then Doc(R.Rewrite(d.text, b, DocSyntax(), Bare), true) else d
  }

  function RewriteDocs(docs: seq<Doc>, b: R.Bindings): (r: seq<Doc>)
    ensures |r| == |docs|
    ensures forall i | 0 <= i < |docs| :: r[i] == RewriteDoc(docs[i], b)
  {
    seq(|docs|, i requires 0 <= i < |docs| => RewriteDoc(docs[i], b))
  }

  function Process(cfg: Config, st: State, step: Step): Outcome<(State, OutStep)> {
    if step.From? then Ok((st.(active := cfg.values, declared := {}), OutFrom(step.source)))
    else
      var plan := PlanStep(cfg, step, st.active);
      if plan.Err? then Err
      else
        var pl := plan.value;
        var (s1, args1) := DeclareExprs(st, {}, pl.exprs, pl.used);
        if exists k | k in pl.needed :: !ValidArgName(k) then Err
        else
          var (s2, args2) := DeclareKeys(cfg, s1, pl.needed);
          var b := BindingsFor(pl.needed);
          if step.Run? then
            var explicit := Explicit(cfg, {}, step.mounts, st.active);
            if explicit.Err? then Err
            else
              var (secrets, mounted) :=
                MountSecrets(cfg, st.secrets, [], cfg.order(st.active.Keys), st.active, explicit.value);
              Ok((s2.(secrets := secrets),
                  OutRun(args1 + args2, RewriteAll(step.flags, b, FlagSyntax()),
                         RewriteAll(step.mounts, b, FlagSyntax()), mounted, step.script)))
          else
            var out := OutOther(args1 + args2, step.kind,
                                R.Rewrite(pl.header, b, HeaderSyntax(cfg, step.kind), Bare), RewriteDocs(step.docs, b));
            if !step.kind.Env? then Ok((s2, out))
            else
              var left := Override(cfg, st.active, step.keys);
              if left.Err? then Err else Ok((s2.(active := left.value), out))
  }

  datatype Prepared = Prepared(steps: seq<OutStep>, buildArgs: map<string, string>, secrets: map<string, string>)

  function ProcessAll(cfg: Config, st: State, steps: seq<Step>): Outcome<(State, seq<OutStep>)>
    decreases |steps|
  {
    if steps == [] then Ok((st, []))
    else
      var first := Process(cfg, st, steps[0]);
      if first.Err? then Err
      else
        var rest := ProcessAll(cfg, first.value.0, steps[1..]);
        if rest.Err? then Err else Ok((rest.value.0, [first.value.1] + rest.value.1))
  }

  const START := State(map[], {}, map[], map[])

  function Unchanged(steps: seq<Step>): seq<OutStep> {
    seq(|steps|, i requires 0 <= i < |steps| => UnchangedStep(steps[i]))
  }

  function UnchangedStep(step: Step): OutStep {
    match step
    case From(source) => OutFrom(source)
    case Run(flags, _, mounts, script) => OutRun({}, flags, mounts, [], script)
    case Other(kind, header, _, _, docs, _) => OutOther({}, kind, header, docs)
  }

  predicate BadKeyChar(c: char) {
    c in {'=', '\0', '\r', '\n', '\t', '\U{0B}', '\U{0C}', ' ', ',', '$', '"', '\'', '`', '\\'}
  }

  predicate InvalidInput(cfg: Config, key: string) {
    || key == []
    || (exists c | c in key :: BadKeyChar(c))
    || (key in cfg.values && ('\0' in cfg.values[key] || |cfg.values[key]| > cfg.maxSecret))
  }

  /** `Prepare`: no inputs leave the file alone, a bad input is an error, otherwise every instruction is processed. */
  function PrepareSpec(cfg: Config, steps: seq<Step>): Outcome<Prepared> {
    if cfg.values == map[] then Ok(Prepared(Unchanged(steps), map[], map[]))
    else if exists k | k in cfg.values :: InvalidInput(cfg, k) then Err
    else
      var r := ProcessAll(cfg, START, steps);
      if r.Err? then Err else Ok(Prepared(r.value.1, r.value.0.buildArgs, r.value.0.secrets))
  }

  // ---- The loops ----

  method CaptureWordsLoop(cfg: Config, kind: Kind, header: string, words: seq<Word>, active: map<string, string>)
    returns (r: Outcome<Captured>)
    ensures r == CaptureWords(cfg, NOTHING, kind, header, words, active)
  {
    var c := NOTHING;
    for i := 0 to |words|
      invariant CaptureWords(cfg, NOTHING, kind, header, words, active)
              == CaptureWords(cfg, c, kind, header, words[i..], active)
    {
      assert words[i..][1..] == words[i + 1..];
      var d := CaptureWord(cfg, c, kind, header, words[i], active);
      if d.Err? {
        return Err;
      }
      c := d.value;
    }
    r := Ok(c);
  }

  method CaptureNamesLoop(c0: Captured, texts: seq<string>, y: Syntax, active: map<string, string>)
      returns (r: Outcome<Captured>)
    ensures r == CaptureNames(c0, texts, y, active)
  {
    var c := c0;
    for i := 0 to |texts|
      invariant CaptureNames(c0, texts, y, active) == CaptureNames(c, texts[i..], y, active)
    {
      assert texts[i..][1..] == texts[i + 1..];
      var d := CaptureName(c, texts[i], y, active);
      if d.Err? {
        return Err;
      }
      c := d.value;
    }
    r := Ok(c);
  }

  method OverrideLoop(cfg: Config, active0: map<string, string>, keys: seq<string>)
      returns (r: Outcome<map<string, string>>)
    ensures r == Override(cfg, active0, keys)
  {
    var active := active0;
    for i := 0 to |keys|
      invariant Override(cfg, active0, keys) == Override(cfg, active, keys[i..])
    {
      assert keys[i..][1..] == keys[i + 1..];
      var key := Expand(keys[i], WordSyntax(cfg), active);
      if key.Fails? {
        return Err;
      }
      active := active - {Flat(key.out)};
    }
    r := Ok(active);
  }

  method ExplicitLoop(cfg: Config, mounts: seq<string>, active: map<string, string>) returns (r: Outcome<set<string>>)
    ensures r == Explicit(cfg, {}, mounts, active)
  {
    var found := {};
    for i := 0 to |mounts|
      invariant Explicit(cfg, {}, mounts, active) == Explicit(cfg, found, mounts[i..], active)
    {
      assert mounts[i..][1..] == mounts[i + 1..];
      var key := Expand(mounts[i], WordSyntax(cfg), active);
      if key.Fails? {
        return Err;
      }
      found := found + {Flat(key.out)};
    }
    r := Ok(found);
  }

  method DeclareExprsLoop(st0: State, exprs: seq<M.Expression>, used: set<string>)
      returns (st: State, args: set<string>)
    ensures (st, args) == DeclareExprs(st0, {}, exprs, used)
  {
    st, args := st0, {};
    for i := 0 to |exprs|
      invariant DeclareExprs(st0, {}, exprs, used) == DeclareExprs(st, args, exprs[i..], used)
    {
      assert exprs[i..][1..] == exprs[i + 1..];
      var e := exprs[i];
      if e.alias in used && e.alias !in st.declared {
        args := args + {e.alias};
        st := st.(declared := st.declared + {e.alias}, buildArgs := st.buildArgs[e.alias := e.value]);
      }
    }
  }

  /** The secret mounts of a `RUN`, over the sorted active inputs. */
  method MountSecretsLoop(cfg: Config, secrets0: map<string, string>, active: map<string, string>,
      explicit: set<string>) returns (secrets: map<string, string>, mounts: seq<Mount>)
    ensures (secrets, mounts) == MountSecrets(cfg, secrets0, [], cfg.order(active.Keys), active, explicit)
  {
    secrets, mounts := secrets0, [];
    var keys := cfg.order(active.Keys);
    for i := 0 to |keys|
      invariant MountSecrets(cfg, secrets0, [], keys, active, explicit)
              == MountSecrets(cfg, secrets, mounts, keys[i..], active, explicit)
    {
      assert keys[i..][1..] == keys[i + 1..];
      var key := keys[i];
      if key in explicit || key !in active {
        continue;
      }
      var id := cfg.secretID(key, active[key]);
      secrets := secrets[id := active[key]];
      mounts := mounts + [Mount(id, key)];
    }
  }

  /** The aliases of the needed inputs, over the sorted names; a name no `ARG` can have is an error. */
  method DeclareKeysLoop(cfg: Config, st0: State, needed: set<string>)
      returns (r: Outcome<(State, set<string>, R.Bindings)>)
    requires BaseConfig(cfg)
    ensures r == if exists k | k in needed :: !ValidArgName(k) then Err
                 else Ok((DeclareKeys(cfg, st0, needed).0, DeclareKeys(cfg, st0, needed).1, BindingsFor(needed)))
  {
    hide DeclareKeys, ValidArgName, KeyAlias, BindingsFor, BaseConfig;
    var keys := cfg.order(needed);
    OrderLists(cfg, needed);
    var st, args, b := st0, {}, map[];
    ghost var done: set<string> := {};
    DeclareNothing(cfg, st0);
    for i := 0 to |keys|
      invariant forall k :: k in done <==> k in keys[..i]
      invariant (st, args) == DeclareKeys(cfg, st0, done) && b == BindingsFor(done)
      invariant forall k | k in done :: ValidArgName(k)
    {
      var key := keys[i];
      if !ValidArgName(key) {
        return Err;
      }
      NotYet(keys, i, needed);
      DeclareOneKey(cfg, st0, done, key);
      BindOneKey(done, key);
      var alias := KeyAlias(key);
      b := b[key := alias];
      if key !in st.declared {
        args := args + {alias};
        st := st.(declared := st.declared + {key}, buildArgs := st.buildArgs[alias := InputValue(cfg, key)]);
      }
      done := done + {key};
      assert keys[..i + 1] == keys[..i] + [key];
    }
    assert keys[..|keys|] == keys;
    assert done == needed;
    r := Ok((st, args, b));
  }

  lemma OrderLists(cfg: Config, keys: set<string>)
    requires BaseConfig(cfg)
    ensures Lists(cfg.order(keys), keys)
  {
  }

  lemma OrderOf(cfg: Config, keys: set<string>)
    requires ValidConfig(cfg)
    ensures Lists(cfg.order(keys), keys)
  {
    hide Lists;
  }

  lemma NotYet(keys: seq<string>, i: nat, needed: set<string>)
    requires Lists(keys, needed) && i < |keys|
    ensures keys[i] !in keys[..i]
  {
  }

  lemma DeclareNothing(cfg: Config, st: State)
    ensures DeclareKeys(cfg, st, {}) == (st, {}) && BindingsFor({}) == map[]
  {
    assert KeyAliases({}) == {} && {} - st.declared == {};
    assert st.declared + {} == st.declared;
    assert st.buildArgs + map[] == st.buildArgs;
  }

  lemma DeclareOneKey(cfg: Config, st: State, done: set<string>, key: string)
    requires key !in done && ValidArgName(key)
    ensures var (s, args) := DeclareKeys(cfg, st, done);
            && (key in s.declared <==> key in st.declared)
            && DeclareKeys(cfg, st, done + {key}) ==
              if key in s.declared then (s, args)
              else (s.(declared := s.declared + {key}, buildArgs := s.buildArgs[KeyAlias(key) := InputValue(cfg, key)]),
                    args + {KeyAlias(key)})
  {
    hide KeyAlias, KeyOf, InputValue, ValidArgName;
    hide KeyAliases;
    ArgNameIsBytes(key);
    KeyAliasRoundTrip(key);
    assert st.declared + (done + {key}) == (st.declared + done) + {key};
    if key in st.declared {
      assert (done + {key}) - st.declared == done - st.declared;
      assert (st.declared + done) + {key} == st.declared + done;
    } else {
      assert (done + {key}) - st.declared == (done - st.declared) + {key};
      KeyAliasesMore(done - st.declared, key);
      BuildArgsMore(cfg, st.buildArgs, KeyAliases(done - st.declared), key);
    }
  }

  lemma BuildArgsMore(cfg: Config, base: map<string, string>, args: set<string>, key: string)
    requires KeyOf(KeyAlias(key)) == key
    ensures base + (map a | a in args + {KeyAlias(key)} :: InputValue(cfg, KeyOf(a)))
            == (base + map a | a in args :: InputValue(cfg, KeyOf(a)))[KeyAlias(key) := InputValue(cfg, key)]
  {
    hide KeyAlias, KeyOf, InputValue;
  }

  lemma BindOneKey(done: set<string>, key: string)
    ensures BindingsFor(done + {key}) == BindingsFor(done)[key := KeyAlias(key)]
  {
    hide KeyAlias;
  }

  lemma KeyAliasesMore(keys: set<string>, key: string)
    ensures KeyAliases(keys + {key}) == KeyAliases(keys) + {KeyAlias(key)}
  {
    hide KeyAlias;
    forall a | a in KeyAliases(keys) + {KeyAlias(key)} ensures a in KeyAliases(keys + {key}) {
      if a != KeyAlias(key) {
        var k :| k in keys && a == KeyAlias(k);
        assert k in keys + {key};
      } else {
        assert key in keys + {key};
      }
    }
  }

  method RewriteDocsLoop(docs: seq<Doc>, b: R.Bindings) returns (out: seq<Doc>)
    ensures out == RewriteDocs(docs, b)
  {
    out := [];
    for i := 0 to |docs|
      invariant |out| == i && forall j | 0 <= j < i :: out[j] == RewriteDoc(docs[j], b)
    {
      var d := docs[i];
      if d.expand {
        var text := R.RewriteReferences(d.text, b, DocSyntax());
        d := Doc(text, true);
      }
      out := out + [d];
    }
  }

  method RewriteFlagsLoop(flags: seq<string>, b: R.Bindings) returns (out: seq<string>)
    ensures out == RewriteAll(flags, b, FlagSyntax())
  {
    out := [];
    for i := 0 to |flags|
      invariant |out| == i && forall j | 0 <= j < i :: out[j] == R.Rewrite(flags[j], b, FlagSyntax(), Bare)
    {
      var flag := R.RewriteReferences(flags[i], b, FlagSyntax());
      out := out + [flag];
    }
  }

  /** One turn of the instruction loop, for an instruction other than `FROM`. */
  method PrepareStep(cfg: Config, st: State, step: Step) returns (r: Outcome<(State, OutStep)>)
    requires BaseConfig(cfg) && !step.From?
    ensures r == Process(cfg, st, step)
  {
    hide M.Segments, M.UsedBy, M.Emit, R.Rewrite, CaptureWords, CaptureNames, Override, Explicit, DeclareExprs,
        DeclareKeys, MountSecrets, BindingsFor, ValidArgName, RewriteAll, RewriteDocs;
    var c;
    if step.Run? {
      c := CaptureNamesLoop(NOTHING, step.flagWords, WordSyntax(cfg), st.active);
    } else {
      c := CaptureWordsLoop(cfg, step.kind, step.header, step.words, st.active);
      if c.Ok? {
        c := CaptureNamesLoop(c.value, step.rawWords, DocSyntax(), st.active);
      }
    }
    if c.Err? {
      return Err;
    }
    var needed, exprs := c.value.needed, if step.Run? then [] else c.value.exprs;
    var header, used := "", {};
    if !step.Run? {
      header, used := M.MaterializeExpressions(step.header, exprs, HeaderSyntax(cfg, step.kind));
      needed := needed + Unreplaced(exprs, used);
    }
    assert PlanStep(cfg, step, st.active)
           == Ok(Plan(needed, exprs, header, used)) by { PlanIs(cfg, step, st.active, c.value); }
    var s1, args1 := DeclareExprsLoop(st, exprs, used);
    var declared := DeclareKeysLoop(cfg, s1, needed);
    if declared.Err? {
      return Err;
    }
    var (s2, args2, b) := declared.value;
    if step.Run? {
      var explicit := ExplicitLoop(cfg, step.mounts, st.active);
      if explicit.Err? {
        return Err;
      }
      var flags := RewriteFlagsLoop(step.flags, b);
      var mounts := RewriteFlagsLoop(step.mounts, b);
      var secrets, mounted := MountSecretsLoop(cfg, st.secrets, st.active, explicit.value);
      r := Ok((s2.(secrets := secrets), OutRun(args1 + args2, flags, mounts, mounted, step.script)));
    } else {
      var text := R.RewriteReferences(header, b, HeaderSyntax(cfg, step.kind));
      var docs := RewriteDocsLoop(step.docs, b);
      var out := OutOther(args1 + args2, step.kind, text, docs);
      if !step.kind.Env? {
        return Ok((s2, out));
      }
      var left := OverrideLoop(cfg, st.active, step.keys);
      if left.Err? {
        return Err;
      }
      r := Ok((s2.(active := left.value), out));
    }
  }

  lemma PlanIs(cfg: Config, step: Step, active: map<string, string>, c: Captured)
    requires !step.From? && CaptureStep(cfg, step, active) == Ok(c)
    ensures step.Run? ==> PlanStep(cfg, step, active) == Ok(Plan(c.needed, [], [], {}))
    ensures !step.Run? ==>
              var y := HeaderSyntax(cfg, step.kind);
              var segs := M.Segments(step.header, true, y, Bare, c.exprs);
              var used := M.UsedBy(segs, c.exprs);
              PlanStep(cfg, step, active)
              == Ok(Plan(c.needed + Unreplaced(c.exprs, used), c.exprs, M.Emit(segs, c.exprs), used))
  {
  }

  /** The whole of `Prepare`: its loop over the instructions updates the state and collects the prepared steps. */
  method PrepareFile(cfg: Config, steps: seq<Step>) returns (r: Outcome<Prepared>)
    requires BaseConfig(cfg)
    ensures r == PrepareSpec(cfg, steps)
  {
    hide Process, ProcessAll, After, InvalidInput, Unchanged, BaseConfig;
    if cfg.values == map[] {
      return Ok(Prepared(Unchanged(steps), map[], map[]));
    }
    if exists k | k in cfg.values :: InvalidInput(cfg, k) {
      return Err;
    }
    var st := START;
    var out: seq<OutStep> := [];
    ProcessStart(cfg, steps);
    for i := 0 to |steps|
      invariant ProcessAll(cfg, START, steps) == After(out, ProcessAll(cfg, st, steps[i..]))
    {
      ProcessNext(cfg, st, steps, i, out);
      var next;
      if steps[i].From? {
        next := Process(cfg, st, steps[i]);
      } else {
        next := PrepareStep(cfg, st, steps[i]);
      }
      if next.Err? {
        return Err;
      }
      st, out := next.value.0, out + [next.value.1];
    }
    ProcessEnd(cfg, st, steps, out);
    r := Ok(Prepared(out, st.buildArgs, st.secrets));
  }

  lemma ProcessStart(cfg: Config, steps: seq<Step>)
    ensures ProcessAll(cfg, START, steps) == After([], ProcessAll(cfg, START, steps[0..]))
  {
    hide Process;
    assert steps[0..] == steps;
    var all := ProcessAll(cfg, START, steps);
    assert all.Ok? ==> [] + all.value.1 == all.value.1;
  }

  lemma ProcessEnd(cfg: Config, st: State, steps: seq<Step>, out: seq<OutStep>)
    ensures After(out, ProcessAll(cfg, st, steps[|steps|..])) == Ok((st, out))
  {
    hide Process;
    assert out + [] == out;
  }

  lemma ProcessNext(cfg: Config, st: State, steps: seq<Step>, i: nat, out: seq<OutStep>)
    requires i < |steps|
    ensures var next := Process(cfg, st, steps[i]);
            After(out, ProcessAll(cfg, st, steps[i..])) ==
              if next.Err? then Err else After(out + [next.value.1], ProcessAll(cfg, next.value.0, steps[i + 1..]))
  {
    hide Process;
    assert steps[i..][1..] == steps[i + 1..];
    var next := Process(cfg, st, steps[i]);
    if next.Ok? {
      var rest := ProcessAll(cfg, next.value.0, steps[i + 1..]);
      assert rest.Ok? ==> out + ([next.value.1] + rest.value.1) == (out + [next.value.1]) + rest.value.1;
    }
  }

  ghost function After(done: seq<OutStep>, r: Outcome<(State, seq<OutStep>)>): Outcome<(State, seq<OutStep>)> {
    if r.Err? then Err else Ok((r.value.0, done + r.value.1))
  }
}
