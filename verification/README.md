# zbplan: a model of its algorithms, with proofs

zbplan plans a Dockerfile with a language model, builds it, and tries again with what went wrong. This project models
the parts of it that compute: the rewriting of a Dockerfile around platform inputs, the store and the pages of tool
outputs, the file tools' matching and paging, the build-log buffer, the run itself, the tag cache and the filtered
build context. `dafny verify dfyconfig.toml` checks everything.

A Go string is a Dafny `string` with one character for each byte. Loops and objects of the source are methods and
classes here, each proved against a function that says what it computes; the theorems are lemmas about those functions.

## What is modelled

**Preparing a Dockerfile** (`pkg/buildenv`). `References` is the reference meaning: a parser and an evaluator for the
"Environment replacement" section of the Dockerfile reference, with one flat quote state. `Rewriter` renames references,
`Materializer` replaces whole words, `HeaderReading` says which separators of an `ENV`, `LABEL` or `ARG` end a word or a key
(in `ENV K=a=b` the second `=` does not, and `ENV K v` is read as well), `Prepare` is the instruction loop.
`WordSplitting` splits the words of an `EXPOSE`. `DockerfileRuns` gives instructions a meaning: the original file in a
build where each `FROM` injects the inputs, the prepared file in a build without them but with its build arguments and
secret mounts. An `ENV`, `LABEL` or `ARG` shows its words and assignments as they are read, an `EXPOSE` its words after
splitting, any other instruction that is expanded the text it comes to, and `CMD`, `ENTRYPOINT`, `HEALTHCHECK`, `ONBUILD`
and `SHELL`, which the frontend does not expand, their text as it is written. `PrepareMeaning` proves that the two builds
show the same headers, heredoc bodies, mount flags and `RUN` environments, step by step, for every file of ordinary
instructions, and fail together. `PrepareSecrets` says what each `RUN` mounts and finds in the shared map of secrets,
`PrepareInputs` which inputs are active, which aliases are declared, which inputs become public and what is left alone,
and `PrepareErrors` exactly when `Prepare` fails. What is asked of an
ordinary instruction is of two kinds. The parser promises some of it: every name in an instruction stands in one of the
words the parser gives for it, and an `ENV` assigns its keys. Some of it the code does need, and `Materializer`,
`HeaderReading`, `WordSplitting`, `FlagRewriting`, `PrepareLimits` and `HeaderLimits` say when it fails, exactly but for
flags with conditionals:

- A reference shielded by quotes or an escape in a `RUN` flag is renamed all the same (the code rewrites flags with quotes
  and escapes ordinary, and the build reads them with both honoured). A flag without conditionals keeps its meaning exactly
  when it shields no bound reference.
- The name an `ENV` key refers to is looked up among the active inputs alone. The right input is dropped exactly when the
  key names there what it names in the build, or neither names an active input. `ENV ${X}=1` drops nothing where `X` is no
  active input, and `ENV P${X}=1` drops the input `P`, which it does not assign.
- So is the name of an env mount that a `RUN` asks for itself. Each active input is mounted exactly once if and only if the
  names agree on the active inputs; with `env=${N}`, `N` an `ARG` that holds the name of one, it is mounted twice.
- A captured word such as `X=$B`, the value of `V=X=$B`, is replaced whole wherever it stands by itself, as an assignment
  too, and then nothing is assigned. A header is read as before exactly when no replaced word holds a separator that is
  noticed where the word stands; in a value an `=` is not. The comment at `pkg/buildenv/buildenv.go:286` says that only
  complete lexer words are replaced.
- A captured word that closes a brace, such as `}$K` in `ENV B=}$K A=${X:-=}$K`, may be replaced inside a conditional and
  take the brace with it. A well-formed header is read with each word in its place exactly when no replaced word stands
  inside a `${...}` that it closes. Otherwise it may become malformed, or stay well formed with a later brace closing it.
- A word counts as replaced when one occurrence of it is. In `LABEL a=$T b=$T\` with a continued line the second `$T` is
  not, since a backslash is no boundary; its input is not needed any more, and the reference is left to an input that the
  prepared build does not have. The prepared header looks up no active input exactly when no unreplaced occurrence refers
  to an active input all of whose words are replaced.
- The alias of a word of an `EXPOSE` is quoted unless the word comes to several words without blanks. The instruction keeps
  its words exactly when each word with a quoted alias has its value as its only word, or comes to nothing. `EXPOSE $P` with
  `P` a blank and a port is the exception: the blank, split off before, is part of the word then.
- A comment line inside a continued instruction is dropped by the build but scanned by the code. What follows it is renamed
  as without it exactly when it leaves the quote state it was met in; `# don't` opens a quote. `CommentLines` has this for
  the two scans by themselves.

**Tool outputs** (`pkg/zbplan/tool_output.go`, `prompt.go`). `ToolOutputStore` is a class whose fields are tied to the
ghost history of all saves. `History` is the middleware and the in-place rewriter of messages, `HistoryRuns` runs them with
any interleaving of tool calls, deliveries and model calls. `Preview` cuts texts, `Pager` pages them; `Utf8` is UTF-8 as in
section 4 of RFC 3629. A long result whose own text begins with `[Earlier tool output ` is never compacted: the rewriter
takes its preview for one of its own notices. For text that is exactly the exception. The references that results and
notices show, the numbers of pages and sizes, and the lines of the catalog are read back from their texts.

**File tools** (`internal/plantools/files.go`). `Glob` is the memoised matcher of `**` patterns, `GlobRoot` the pruned
walk, `TextLines` and `ReadCursor` the read tool's pages. The pruned walk loses no match exactly when no metacharacter-free
part before the first other part holds a backslash, or there is none to lose: the matcher reads a backslash as an escape,
the file system as a character. Following the replies of the read tool gives back a valid file, its last line ended,
exactly when no line ends in a carriage return. In other text a line longer than a page in which no rune starts is stuck:
a file of 64 KiB of continuation bytes is reported as empty. Reading stops early exactly at such a line.

**The rest.** `LogBuffer` is the head-and-tail buffer of `internal/plantools/bounded_buffer.go`, over arrays updated in
place. `RunLoop` is the attempt loop of `pkg/zbplan/zbplan.go`, in which every answer of the model, the builder and the file
system is any function of all that has happened. `TagCache` is the double-checked cache of `pkg/registryutil/tags.go` as
steps of any number of callers. `FilteredContext` is the pruned walk and the path check of `pkg/builder/context.go`; started
from a target directory, the walk and the check agree exactly when no directory above the target is excluded, and for
rooted paths exactly when the exclusion treats the rooted and the relative name of every file alike.

Assumptions that stand for foreign code: parsed instructions and their words are given; digests and secret identifiers
are injective names, and the theorems leave out inputs whose own names begin with `ZEABUR_DOCKERFILE_`, like the aliases;
a malformed escape at the very end of a text is an error; one shared load for a key runs at a time, its joiners get its
result and no caller leaves early; the base file system's walk hands on a directory before what is in it and honours a
skip; a part of a glob pattern without metacharacters matches the text it stands for.

## Model

| member | source | states |
|---|---|---|
| Rewriter.RewriteReferences | pkg/buildenv/buildenv.go:367-410 | the scanning loop, with its index, two quote flags and buffer, computes the recursive rewriting, for every text, escape and mode |
| Rewriter.ScanName | pkg/buildenv/buildenv.go:393-396 | the inner loop finds the end of the longest run of name characters |
| Rewriter.RewriteIsRename | pkg/buildenv/buildenv.go:364-410 | the syntax tree of the rewritten text is the source's tree with bound names renamed, and malformed stays malformed, in every quoting mode, nested fallbacks included |
| Rewriter.RewritePreservesMeaning | pkg/buildenv/buildenv.go:364-410 | in environments where each alias holds what its name held, the rewritten text expands to what the source expands to; the old names may hold anything |
| Rewriter.NoBoundReferenceSurvives | pkg/buildenv/buildenv.go:397-403 | after rewriting, no reference to a bound name is left |
| Rewriter.RewriteNothing | pkg/buildenv/buildenv.go:397-407 | with nothing bound the text is unchanged byte for byte |
| Materializer.MaterializeExpressions | pkg/buildenv/buildenv.go:288-334 | the loop writes the text and the used set of the source's segmentation |
| Materializer.FindLongest | pkg/buildenv/buildenv.go:301-309 | the inner loop picks the first of the longest eligible words, or none |
| Materializer.WriteAlias | pkg/buildenv/buildenv.go:310-317 | a word is written as its alias, in double quotes unless its value may split |
| Materializer.SegmentsDecompose | pkg/buildenv/buildenv.go:286-334 | the segments cover the source; each word stands outside quotes, unescaped, bounded on both sides and is the longest there; anything else is an escape pair or a character where no word starts |
| Materializer.DecompositionUnique | pkg/buildenv/buildenv.go:286-334 | no other segmentation of the source has these properties |
| Materializer.RestoreSource | pkg/buildenv/buildenv.go:310-320 | putting every word back for its alias restores the source |
| Materializer.UsedInIsUsedBy | pkg/buildenv/buildenv.go:318-318 | the aliases met by the scan are exactly those of the replaced words |
| Materializer.MaterializeReadsIff | pkg/buildenv/buildenv.go:286-334 | the materialized header is well formed and reads as the header does, each word back in its alias's place, if and only if no replaced word stands inside a brace it closes |
| Materializer.MaterializedNames | pkg/buildenv/buildenv.go:310-318 | it then refers to the aliases of exactly the replaced words, and to nothing else that the header does not |
| Materializer.MaterializePreservesMeaning | pkg/buildenv/buildenv.go:126-143 | where each alias holds its word's value and no replaced word stands inside a brace it closes, the materialized header comes to what the header comes to, malformed headers included |
| HeaderReading.ReadsAlikeIff | pkg/buildenv/buildenv.go:286-320 | a header with words replaced is read as the header, words and keys told apart, if and only if no replaced word holds a separator that is noticed where it stands |
| HeaderReading.RewriteKeepsReading | pkg/buildenv/buildenv.go:364-410 | a header with its references renamed is read as the header |
| HeaderReading.PairIsRead | pkg/buildenv/buildenv.go:262-263 | `key=value` gives the key the value, in which a later `=` is a character |
| HeaderReading.LegacyIsRead | pkg/buildenv/buildenv.go:262-263 | `ENV key value` gives the key all that follows |
| HeaderReading.ValueKeepsEquals | pkg/buildenv/buildenv.go:286-287 | in a value a word without unquoted blanks holds nothing that is noticed |
| HeaderReading.KeySwallowsIff | pkg/buildenv/buildenv.go:286-287 | in a key every separator outside quotes is noticed, and nothing else |
| WordSplitting.WordsAlikeIff | pkg/buildenv/buildenv.go:136-140 | with words replaced by aliases that hold their values, unquoted ones splitting where their words do, an `EXPOSE` comes to the same words if and only if every word with a quoted alias has its value as its only word, or comes to nothing |
| WordSplitting.UnquotedSplits | pkg/buildenv/buildenv.go:138-139 | a word of several words without blanks splits exactly where its value, unquoted, splits |
| WordSplitting.SplitStaysUnquotedIff | pkg/buildenv/buildenv.go:138-139 | a bare reference's alias stays unquoted if and only if its value comes to several words |
| WordSplitting.OneWordIff | pkg/buildenv/buildenv.go:136-137 | a value is its only word if and only if no blank of it splits |
| WordSplitting.RewriteKeepsWords | pkg/buildenv/buildenv.go:364-410 | an `EXPOSE` with its references renamed comes to the same words |
| CommentLines.CommentIsHarmlessIff | pkg/buildenv/buildenv.go:367-410 | whatever follows a comment line is renamed as without it if and only if the comment leaves the quote state it was met in |
| CommentLines.DontOpensQuote | pkg/buildenv/buildenv.go:377-379 | the comment `# don't` does not |
| CommentLines.MaterializeSplit | pkg/buildenv/buildenv.go:288-334 | the replacing scan of a text that ends its line is done with it, and goes on in the state it left |
| CommentLines.CommentKeepsWords | pkg/buildenv/buildenv.go:288-334 | a comment line that keeps that state does not touch what is replaced after it |
| Prepare.HexRoundTrip | pkg/buildenv/buildenv.go:189-189 | hexadecimal coding of bytes can be undone |
| Prepare.KeyAliasRoundTrip | pkg/buildenv/buildenv.go:189-189 | an input's alias gives the input's name back |
| Prepare.AliasesDiffer | pkg/buildenv/buildenv.go:135-189 | no input's alias is a captured word's alias |
| Prepare.ExprAliasInjective | pkg/buildenv/buildenv.go:134-135 | two captured words with one alias are the same word |
| Prepare.CaptureWordsLoop | pkg/buildenv/buildenv.go:121-168 | capturing an instruction's words one by one gives the needed inputs and the words of known inputs only, each with its value and whether its alias stays unquoted |
| Prepare.CaptureNamesLoop | pkg/buildenv/buildenv.go:155-161 | words read only for their names add the active inputs they refer to |
| Prepare.DeclareExprsLoop | pkg/buildenv/buildenv.go:171-183 | used captured words are declared and given build arguments; the references of unused ones become needed |
| Prepare.DeclareKeysLoop | pkg/buildenv/buildenv.go:184-196 | over the sorted needed inputs: aliases bound, undeclared ones declared with the input's value, an error for a name no `ARG` can have |
| Prepare.MountSecretsLoop | pkg/buildenv/buildenv.go:231-239 | over the sorted active inputs: a mount and an entry of the shared map for each that is not explicit |
| Prepare.OverrideLoop | pkg/buildenv/buildenv.go:262-270 | the assigned keys leave `active`, each read in what is still active |
| Prepare.ExplicitLoop | pkg/buildenv/buildenv.go:221-230 | the names of the explicit env mounts |
| Prepare.RewriteDocsLoop | pkg/buildenv/buildenv.go:251-259 | only heredocs that expand are rewritten |
| Prepare.RewriteFlagsLoop | pkg/buildenv/buildenv.go:204-208 | every mount flag is rewritten, quotes and escapes ordinary |
| Prepare.PrepareStep | pkg/buildenv/buildenv.go:107-271 | one turn of the instruction loop computes the step of the state machine, errors included |
| Prepare.PrepareFile | pkg/buildenv/buildenv.go:81-284 | the whole function: unchanged without inputs, an error on an invalid input, else every instruction in turn |
| FlagRewriting.RawIsRewrite | pkg/buildenv/buildenv.go:205-208 | a flag that shields no bound reference is rewritten as the build reads it |
| FlagRewriting.UnshieldedFlagMeans | pkg/buildenv/buildenv.go:198-208 | such a flag keeps its meaning, conditionals included |
| FlagRewriting.FlagKeepsMeaningIff | pkg/buildenv/buildenv.go:198-208 | a well-formed flag without conditionals keeps its meaning if and only if it shields no bound reference |
| DockerfileRuns.ArgValueUnique | pkg/buildenv/buildenv.go:174-195 | a build argument that an alias may have is the only one it may have |
| DockerfileRuns.PlanIsGood | pkg/buildenv/buildenv.go:117-170 | needed inputs are active; every candidate was captured from a word of the instruction, none for a `RUN` |
| DockerfileRuns.WordsAreNeeded | pkg/buildenv/buildenv.go:133-177 | every active input that a word not replaced refers to is needed |
| DockerfileRuns.NeededIff | pkg/buildenv/buildenv.go:133-177 | an input is needed if and only if it is active and a word not replaced, or a heredoc, refers to it |
| PrepareMeaning.ProcessDeclares | pkg/buildenv/buildenv.go:169-196 | each step declares what it needs, keeps earlier build arguments, and uses only aliases that then count as declared |
| PrepareMeaning.BuildArgsAgree | pkg/buildenv/buildenv.go:169-196 | over every run the shared build arguments only grow, and every alias in them has its one right value |
| PrepareMeaning.CoveredIff | pkg/buildenv/buildenv.go:144-177 | of the active inputs the replaced header refers to needed ones only, if and only if no occurrence left refers to an active input all of whose words are replaced |
| PrepareMeaning.HeaderReadsIff | pkg/buildenv/buildenv.go:126-320 | for whole headers of every kind: with its captured words replaced a header is read as it was if and only if no replaced word holds a separator noticed where it stands and, of an `EXPOSE`, no quoted word would have split |
| PrepareMeaning.HeaderIsCovered | pkg/buildenv/buildenv.go:144-177 | in an ordinary header every active input still referred to after the replacement is needed, and every alias is used |
| PrepareMeaning.HeaderMeans | pkg/buildenv/buildenv.go:244-250 | a materialized and rewritten header is read in the prepared build as the header is in the original, and a header that is not expanded is left as it is |
| PrepareMeaning.DocsMean | pkg/buildenv/buildenv.go:251-259 | heredoc bodies expand to the same; literal ones are untouched |
| PrepareMeaning.FlagMeans | pkg/buildenv/buildenv.go:204-208 | so do the flags and env mounts of a `RUN` |
| PrepareMeaning.SecretsMakeUp | pkg/buildenv/buildenv.go:231-239 | the environment of a `RUN`, its secret mounts included, is the one of the original build |
| PrepareMeaning.OverrideRemoves | pkg/buildenv/buildenv.go:262-270 | an `ENV` whose keys agree takes out of `active` exactly the names it assigns |
| PrepareMeaning.RunProcessed | pkg/buildenv/buildenv.go:197-243 | looked up in any later state of the shared map, the mounts of a `RUN` give exactly the active inputs without its explicit env mounts, each its own value |
| PrepareMeaning.FromInStep | pkg/buildenv/buildenv.go:108-112 | after a `FROM` the two builds agree again outside the inputs |
| PrepareMeaning.RunInStep | pkg/buildenv/buildenv.go:197-243 | a `RUN` shows the same flags, environment and script, mounts no name twice, and keeps the builds in step |
| PrepareMeaning.OtherInStep | pkg/buildenv/buildenv.go:244-270 | any other instruction shows the same words, assignments and heredocs, and keeps the builds in step, or fails in both |
| PrepareMeaning.RunsAlike | pkg/buildenv/buildenv.go:107-271 | from any states in step, the rest of the file shows the same in both builds |
| PrepareMeaning.UnchangedRunsAlike | pkg/buildenv/buildenv.go:83-85 | without inputs the file is left alone, and shows what it shows |
| PrepareMeaning.PreparePreservesMeaning | pkg/buildenv/buildenv.go:76-284 | for every file of ordinary instructions, the prepared file in its build shows exactly what the original shows with the inputs injected at each `FROM`, and fails where that fails |
| PrepareSecrets.MountsAreExact | pkg/buildenv/buildenv.go:231-239 | the loop mounts each active input that is not explicit, once, under the identifier of its value, and the shared map keeps all it held |
| PrepareSecrets.SecretsOnlyGrow | pkg/buildenv/buildenv.go:236-237 | over every run the shared map only grows, and each identifier in it holds its own value |
| PrepareSecrets.EveryMountFindsItsValue | pkg/buildenv/buildenv.go:231-282 | over any file, each `RUN` mounts exactly the inputs active when it is reached without its explicit ones, and every mount finds its input's value in the final map |
| PrepareInputs.ActiveInFile | pkg/buildenv/buildenv.go:103-111 | `active` is the input map without the names `ENV` assigned since the last `FROM`, and empty before the first; only the keys of `ENV` matter |
| PrepareInputs.ActiveIsNotOverridden | pkg/buildenv/buildenv.go:262-270 | the same from any state on, whatever else the instructions hold |
| PrepareInputs.StepDeclaresAliases | pkg/buildenv/buildenv.go:171-196 | the aliases a step uses are declared by it or before it in its stage |
| PrepareInputs.AliasesAreDeclared | pkg/buildenv/buildenv.go:107-196 | over any file, every alias a step uses has an `ARG` line of that step or of one before it since the last `FROM` |
| PrepareInputs.StepDeclaresOnce | pkg/buildenv/buildenv.go:178-195 | none of a step's `ARG` lines repeats one from before it in its stage |
| PrepareInputs.ArgsAreDeclaredOnce | pkg/buildenv/buildenv.go:107-195 | over any file, no `ARG` line repeats an earlier one since the last `FROM` |
| PrepareInputs.StepDiscloses | pkg/buildenv/buildenv.go:174-195 | a step adds a build argument only for an active input that one of its words or flags refers to, or for a word that refers to something and to active inputs only; never for a `RUN` script |
| PrepareInputs.OnlyDisclosedArgs | pkg/buildenv/buildenv.go:76-196 | over every run each build argument was disclosed by some step, in the state it was reached in |
| PrepareInputs.CandidatesIff | pkg/buildenv/buildenv.go:126-143 | the words taken whole are exactly those that refer to something, to active inputs only, and stand in the header, each with the value it comes to |
| PrepareInputs.UnnamedPlansNothing | pkg/buildenv/buildenv.go:133-177 | of an instruction no word of which names an active input, nothing is needed, captured or replaced |
| PrepareInputs.UnnamedIsUnchanged | pkg/buildenv/buildenv.go:133-260 | such an instruction is left as it is, byte for byte, declares nothing and gives no build argument; a `RUN` only gets its secrets |
| PrepareInputs.ReplacedStaysPrivate | pkg/buildenv/buildenv.go:126-183 | an input whose every word is replaced whole gets no alias and no build argument of its own |
| PrepareErrors.ArgNamesAreUsable | pkg/buildenv/buildenv.go:89-96 | an input whose name an `ARG` can have is never refused for its name |
| PrepareErrors.PlanFails | pkg/buildenv/buildenv.go:121-168 | reading an instruction's words fails exactly when one of them is malformed, whatever is active |
| PrepareErrors.StepFailsIff | pkg/buildenv/buildenv.go:113-269 | an instruction fails if and only if a word, mount or `ENV` key of it is malformed, or a word left in place, a heredoc or a flag needs an active input that no `ARG` can name |
| PrepareErrors.PrepareFailsIff | pkg/buildenv/buildenv.go:81-284 | over every file the whole function fails if and only if there are inputs and one of them is unusable, told by its characters and sizes, or some instruction that is reached fails |
| PrepareErrors.OrdinaryInputsFailIff | pkg/buildenv/buildenv.go:89-96 | with inputs that have `ARG` names and short values without NUL, it fails exactly for a malformed word, mount or key |
| PrepareLimits.QuotedFlagChangesMeaning | pkg/buildenv/buildenv.go:206-206 | a single-quoted reference in a flag means itself before, and the text of its alias after |
| PrepareLimits.FlagMeansIff | pkg/buildenv/buildenv.go:198-208 | with the file's own aliases, a flag without conditionals keeps its meaning if and only if it shields no needed reference |
| PrepareLimits.KeyDroppedIff | pkg/buildenv/buildenv.go:262-270 | any `ENV` key drops the input it assigns and no other if and only if it names among the active inputs what it names in the build, or neither name is active |
| PrepareLimits.KeysDroppedIff | pkg/buildenv/buildenv.go:262-270 | over all keys of an `ENV`: after each of them the right inputs are gone if and only if all agree |
| PrepareLimits.ReferenceKeyDropsNothing | pkg/buildenv/buildenv.go:262-270 | `ENV ${X}=...` with `X` no active input drops nothing, rightly if and only if `X` holds no active name |
| PrepareLimits.PrefixedKeyDropsAnother | pkg/buildenv/buildenv.go:262-270 | `ENV P${X}=...` with such an `X` that is not empty drops the input `P`, which it does not assign |
| PrepareLimits.MountedOnceIff | pkg/buildenv/buildenv.go:221-239 | each active input is mounted once, by the author or by the loop, if and only if the explicit names agree on the active inputs |
| PrepareLimits.MountsNamedRight | pkg/buildenv/buildenv.go:221-230 | they agree if every mount names among the active inputs what it names in the build, and for one mount only then, inactive names aside |
| PrepareLimits.ReferencedMountIsDoubled | pkg/buildenv/buildenv.go:221-239 | with `env=${N}`, `N` no input but holding the name of an active one, that input is mounted twice |
| HeaderLimits.NoCandidateIsKept | pkg/buildenv/buildenv.go:286-334 | an instruction none of whose words is captured loses nothing |
| HeaderLimits.VerbatimIsOrdinary | pkg/buildenv/buildenv.go:145-168 | an instruction without words to expand is always ordinary and left as it is, whatever inputs it mentions |
| HeaderLimits.AssignmentIsSwallowed | pkg/buildenv/buildenv.go:286-320 | where the captured word `X=$B` is also an assignment of its own, the header assigned something and its materialization assigns nothing |
| HeaderLimits.AssignsIffEquals | pkg/buildenv/buildenv.go:262-263 | what is read assigns something if and only if it holds a noticed `=` |
| HeaderLimits.LooksUpNoInputIff | pkg/buildenv/buildenv.go:170-250 | replaced and renamed, a header looks up no active input if and only if no occurrence left refers to one all of whose words are replaced |
| HeaderLimits.SecondOccurrenceIsForgotten | pkg/buildenv/buildenv.go:170-177 | `$K $K` before an escaped line end: nothing is needed, the second reference stays, and the prepared instruction loses its value |
| HeaderLimits.LeadingBlankIsKept | pkg/buildenv/buildenv.go:136-140 | `EXPOSE $P` with a blank before the port: the port without it before, with it after |
| HeaderLimits.ClosingWordBreaksHeader | pkg/buildenv/buildenv.go:297-320 | the captured word `}$K`, replaced inside a conditional, makes a well-formed text malformed |
| HeaderLimits.ClosingWordMovesBrace | pkg/buildenv/buildenv.go:297-320 | with a brace after it the text stays well formed and comes to less than before |
| ToolOutputStore.RefsDiffer | pkg/zbplan/tool_output.go:71-72 | different saves have different references |
| ToolOutputStore.KeptIsLongestSuffix | pkg/zbplan/tool_output.go:60-97 | after any saves the retained ones are the longest suffix of the accepted ones that fits the budget |
| ToolOutputStore.OfferedRefResolves | pkg/zbplan/tool_output.go:106-119 | a reference offered for a call gives that call's latest output in full |
| ToolOutputStore.ResolvesToOne | pkg/zbplan/tool_output.go:121-126 | one reference never gives two outputs |
| ToolOutputStore.NewestResolves | pkg/zbplan/tool_output.go:90-96 | what has just been accepted is retained, and its reference gives it |
| ToolOutputStore.ListingIsLongest | pkg/zbplan/tool_output.go:138-151 | the catalog is the longest run of newest lines that fits its budget |
| ToolOutputStore.LinesNameRetained | pkg/zbplan/tool_output.go:138-151 | the lines are those of the retained outputs of known tools, newest first, and each, read back, names its own reference |
| ToolOutputStore.Store.CatalogNamesRetained | pkg/zbplan/tool_output.go:134-153 | so are the lines of any store, told from its history of saves |
| ToolOutputStore.Store.constructor | pkg/zbplan/tool_output.go:47-54 | an empty store has an empty history |
| ToolOutputStore.Store.SaveCall | pkg/zbplan/tool_output.go:60-97 | a save extends the history by one and keeps the store's fields what the history says; an oversized output gets no reference |
| ToolOutputStore.Store.MakeRoom | pkg/zbplan/tool_output.go:78-87 | the eviction loop stops at the first suffix that leaves room |
| ToolOutputStore.Store.RefForCall | pkg/zbplan/tool_output.go:99-104 | a call has a reference if and only if its latest save is retained, and it is that save's |
| ToolOutputStore.Store.CompactionForCall | pkg/zbplan/tool_output.go:106-119 | the three results are what the history says of the call's latest save |
| ToolOutputStore.Store.Get | pkg/zbplan/tool_output.go:121-126 | gives an output if and only if the reference resolves, and then that one |
| ToolOutputStore.Store.Catalog | pkg/zbplan/tool_output.go:134-153 | the loop lists retained outputs of known tools newest first until one does not fit |
| ToolOutputStore.Store.IndexInvariant | pkg/zbplan/tool_output.go:32-41 | the order lists each stored reference once, sizes add up and fit, and a call's reference is stored and is its latest save's |
| Preview.BoundedPrefix | pkg/zbplan/tool_output.go:200-212 | the loop cuts at the last rune start within the bound |
| Preview.BoundedSuffix | pkg/zbplan/tool_output.go:214-226 | the loop cuts at the first rune start within the bound |
| Preview.BoundToolOutput | pkg/zbplan/tool_output.go:181-198 | the preview is a head, the notice and a tail, by halves of what the notice leaves |
| Preview.CutIsPreview | pkg/zbplan/tool_output.go:190-197 | a preview fits its budget and is a prefix, the notice and a suffix from disjoint parts of the text |
| Preview.CutsAreClose | pkg/zbplan/tool_output.go:200-226 | in valid text both cuts fall between runes and lose at most three bytes each |
| Preview.ToolOutputIsBounded | pkg/zbplan/tool_output.go:181-198 | an output within the bound stays whole; a longer one becomes a preview within it, half of the room for the head and half for the tail, each within three bytes for valid text |
| Preview.PromptSectionIsBounded | pkg/zbplan/prompt.go:101-112 | the same for prompt sections, a third for the head and the rest for the tail |
| Preview.ToolNoticeNames | pkg/zbplan/tool_output.go:186-189 | the notice begins with its opening, and what stands between its first two double quotes is the reference it was given, or nothing |
| Preview.ToolNoticeTellsSize | pkg/zbplan/tool_output.go:186-189 | the size of the output is read off the notice |
| Preview.PreviewsStayValid | pkg/zbplan/prompt.go:101-112 | previews of valid UTF-8 are valid UTF-8 |
| Utf8.ValidIff | pkg/zbplan/tool_output.go:316-321 | valid text is exactly what encodes some sequence of code points other than surrogates |
| Utf8.CutIsValid | pkg/zbplan/tool_output.go:207-211 | valid text cut at a rune start is two valid texts |
| Utf8.BoundariesAreClose | pkg/zbplan/tool_output.go:207-211 | in valid text stepping to a rune start moves at most three bytes |
| Pager.ReadToolOutput | pkg/zbplan/tool_output.go:275-324 | the checks, the default limit and both loops compute the page the specification gives, errors included |
| Pager.PageIsGood | pkg/zbplan/tool_output.go:304-321 | a page of valid text starts and ends between runes, is not empty, exceeds its limit only as a single rune, and could not take one rune more |
| Pager.NoPageIff | pkg/zbplan/tool_output.go:287-306 | which requests are refused and which lie past the end; any other gets a page |
| Pager.PageTextReads | pkg/zbplan/tool_output.go:323-323 | start, end, total and text are read back from the text of a page |
| Pager.ReplyReads | pkg/zbplan/tool_output.go:296-323 | what the text of a reply says: it starts at the offset asked for, ends between runes within the limit or 8 KiB, one rune at least, and could not take one rune more |
| Pager.PagingRecovers | pkg/zbplan/tool_output.go:300-323 | following the ends read off the replies from any boundary, with any limits, gives the rest exactly, in nonempty pages, the last of which and only that ends where the output does |
| Pager.PagingIsLossless | pkg/zbplan/tool_output.go:300-323 | from 0 the texts of the replies hold the whole output byte for byte |
| History.RewriteHistory | pkg/zbplan/tool_output.go:228-253 | in place, messages before the latest tool round become what the store says and all others stay, also when a message is given twice |
| History.RewriteMessage | pkg/zbplan/tool_output.go:235-250 | one message becomes its reference, the discard notice, or stays |
| History.LatestToolRound | pkg/zbplan/tool_output.go:230-233 | the loop finds the start of the trailing run of tool messages |
| History.NoticesStay | pkg/zbplan/tool_output.go:235-249 | rewriting twice is rewriting once, and a notice stays whatever is saved later |
| History.ReferNoticeNames | pkg/zbplan/tool_output.go:243-244 | what stands between the first two double quotes of a compacted message is its reference |
| History.AfterTool | pkg/zbplan/tool_output.go:158-176 | errors pass, pages are not saved again, any other output is saved and shown as its preview |
| HistoryRuns.PageFits | pkg/zbplan/tool_output.go:163-170 | a page of a retained output, with its header, is short enough to be shown whole |
| HistoryRuns.RewriteSettles | pkg/zbplan/tool_output.go:234-250 | a result shown whole stays if short; a long one is replaced if and only if it does not begin like a notice, then by a reference while its output is retained, and by the discard notice once it is not |
| HistoryRuns.NewResultIsDelivered | pkg/zbplan/tool_output.go:163-190 | a new output is shown whole, or its ends around a notice; the reference read off the notice gives the whole output from the store, and a notice without one means the output was too large to be retained |
| HistoryRuns.CompactedStands | pkg/zbplan/tool_output.go:238-249 | what replaces a long result: a notice whose reference, read off its text, gives that call's output, exactly while it is retained |
| HistoryRuns.EarlierResultsStand | pkg/zbplan/tool_output.go:228-253 | over every run with distinct call identifiers, an earlier round's result shows its whole output if short, else a notice whose reference, read off its text, gave that call's whole output when it was put there, or the discard notice, put there when the output was gone, or a preview that begins like a notice; the latest round and other messages are untouched |
| HistoryRuns.NoticesNeverChange | pkg/zbplan/tool_output.go:235-237 | no later event changes a message that begins like a notice |
| HistoryRuns.NeverCompactedIff | pkg/zbplan/tool_output.go:235-237 | a long text's preview begins like a notice if and only if the text does |
| HistoryRuns.SpoofIsNeverCompacted | pkg/zbplan/tool_output.go:235-237 | a long result that begins like a notice shows neither a reference nor the discard notice |
| Glob.Matcher.Match | internal/plantools/files.go:153-186 | the memoised recursion decides the declarative match, ends because pattern plus path index grows, never looks up a place still being worked on, and stops at a malformed part |
| Glob.AnyRunStep | internal/plantools/files.go:163-175 | `**` takes nothing, or one segment and goes on |
| Glob.PartStep | internal/plantools/files.go:176-185 | any other part takes exactly one segment that it matches |
| Glob.AnyRunMayFail | internal/plantools/files.go:163-175 | `**` meets a malformed part where what comes after it does, now or one segment on |
| Glob.PartMayFail | internal/plantools/files.go:176-185 | any other part is malformed itself, or matches and what comes after it meets one |
| Glob.MatchGlob | internal/plantools/files.go:146-188 | a decision is the declarative match, and a refusal means that no way of matching meets a malformed part; the pattern is bad only where one does; at most (parts+1)*(segments+1) places are worked on |
| GlobRoot.WalkRoot | internal/plantools/files.go:130-144 | the loop takes the parts before the first with a metacharacter and joins them |
| GlobRoot.AcceptedUnderRoot | internal/plantools/files.go:130-188 | an accepted path lies under the root if and only if no literal part holds a backslash |
| GlobRoot.PrunedWalkLosesNothing | internal/plantools/files.go:243-291 | without such a part the pruned walk finds every match the whole walk finds |
| GlobRoot.PrunedWalkIsExact | internal/plantools/files.go:243-291 | it finds the same matches if and only if there is no such part, or nothing to find |
| GlobRoot.BackslashMissesMatches | internal/plantools/files.go:134-139 | the pattern `a\b` accepts the file `ab` outside its root |
| TextLines.LinesAreValid | internal/plantools/files.go:549-550 | lines of valid text are valid |
| TextLines.LinesRestoreText | internal/plantools/files.go:549-550 | the lines, each ended, give the text back, last line ended, if and only if no line ends in a carriage return |
| ReadCursor.SafeTextPrefix | internal/plantools/files.go:727-736 | the loop cuts at the last rune start within the bound |
| ReadCursor.ReadLines | internal/plantools/files.go:551-598 | the scan skips, takes, splits and stops as the recursive page does, with the same continuation and the same column error |
| ReadCursor.Read | internal/plantools/files.go:505-616 | the checks, the default limit and the scan compute the specified reply |
| ReadCursor.TakeIsExact | internal/plantools/files.go:559-597 | of any text: a page and what its continuation reads make up the rest exactly, the page keeps its line limit and byte budget, and a split falls between runes |
| ReadCursor.TakeIsLabelled | internal/plantools/files.go:568-597 | pieces carry consecutive line numbers and are their lines, or of a cut one the part up to the reported column; only the first may be resumed, only the last cut |
| ReadCursor.TakeIsFull | internal/plantools/files.go:567-597 | a page stops before the end only with as many lines as asked for, or when no more of the next line fits |
| ReadCursor.ValidIsNotStuck | internal/plantools/files.go:586-591 | of valid text some of a line always fits an empty page |
| ReadCursor.RenderReadsBack | internal/plantools/files.go:572-595 | line number and text are read back from a rendered line |
| ReadCursor.RefusedIff | internal/plantools/files.go:504-578 | which requests are refused |
| ReadCursor.ReplySaysWhatIsThere | internal/plantools/files.go:551-616 | what one reply says, read back, of any text: no lines exactly when none is at the offset or the line there is stuck; else at least one and at most the requested number, numbered from the offset, each the text of its line; `complete` exactly when it ends with all of the last line |
| ReadCursor.ReplyTextReads | internal/plantools/files.go:608-616 | the place to go on and the lines are read back from the text of a reply |
| ReadCursor.FollowingIsExact | internal/plantools/files.go:551-616 | following the replies from any good place, with any accepted limits, ends; what they show, read back, is the rest of the text once, if and only if they do not stop at a line that is stuck |
| ReadCursor.ReadingIsLossless | internal/plantools/files.go:549-616 | of valid text, from the start, the replies end with `complete` and show the whole file, last line ended, if and only if no line ends in a carriage return |
| ReadCursor.ContinuationBytesAreStuck | internal/plantools/files.go:586-606 | a file of 64 KiB of continuation bytes is reported as empty |
| LogBuffer.Buffer.constructor | internal/plantools/bounded_buffer.go:18-27 | a new buffer holds an empty log |
| LogBuffer.Buffer.Write | internal/plantools/bounded_buffer.go:29-53 | after any writes the head is the first bytes of the log and the tail the last of the rest |
| LogBuffer.Buffer.KeepLast | internal/plantools/bounded_buffer.go:42-51 | the in-place shift and append leave the last bytes of the old tail and the new |
| LogBuffer.TailGrows | internal/plantools/bounded_buffer.go:35-51 | head and tail of a longer log from those of the shorter |
| LogBuffer.Buffer.String | internal/plantools/bounded_buffer.go:55-68 | the whole log while it fits, else a true prefix, the notice and a true suffix, together as long as the limit |
| LogBuffer.NoticeTellsSize | internal/plantools/bounded_buffer.go:62-62 | the size of the log is read off the notice |
| RunLoop.RunBuildOnce | pkg/zbplan/zbplan.go:257-286 | one build and at most one copy, with every failure's outcome and what was written |
| RunLoop.Loop | pkg/zbplan/zbplan.go:203-245 | the attempt loop computes the specified run; the output holds what was written |
| RunLoop.RunToClose | pkg/zbplan/zbplan.go:97-245 | the checks, the user's Dockerfile and the loop, up to the deferred close |
| RunLoop.Run | pkg/zbplan/zbplan.go:87-96 | every return path closes the output exactly once, after all writes |
| RunLoop.Text | pkg/zbplan/prompt.go:85-99 | however long the Dockerfile and logs, a prompt is bounded |
| RunLoop.RetryTells | pkg/zbplan/prompt.go:85-95 | the repair prompt shows the Dockerfile that failed and its logs whole while they fit, in this order, and then the catalog |
| RunLoop.CatalogComesLast | pkg/zbplan/zbplan.go:247-253 | every prompt ends with the catalog it was given |
| RunLoop.AttemptsEndWell | pkg/zbplan/zbplan.go:203-245 | from any attempt the run ends well with at most one build for each attempt left |
| RunLoop.RunsAreSafe | pkg/zbplan/zbplan.go:87-245 | for every behaviour of the outside: nothing follows a copy but the close, builds and attempts are bounded, success is the last build's Dockerfile with its artifact whole, and its attempts count the generations |
| RunLoop.OutputHoldsOneArtifact | pkg/zbplan/zbplan.go:257-286 | the output holds nothing or a front part of one artifact, all of it on success |
| RunLoop.PromptsAnswerTheLastStep | pkg/zbplan/zbplan.go:161-243 | each prompt is the first one or answers the step before, with the failed Dockerfile, its logs and the catalog |
| RunLoop.CauseIsUnique | pkg/zbplan/zbplan.go:87-245 | a run that has come this far has at most one cause to end, and with a cause nothing more may happen |
| RunLoop.AttemptsHaveCause | pkg/zbplan/zbplan.go:203-245 | from any attempt, the run goes on until it has a cause to end, and ends with that result |
| RunLoop.RunsEndForACause | pkg/zbplan/zbplan.go:87-286 | for every behaviour of the outside: each event is one that may come next, with the answer the outside gives; the run ends only for a cause, and each failure has its own: a failed build is tried again while attempts are left |
| RunLoop.ExhaustedRunTriedAll | pkg/zbplan/zbplan.go:203-245 | out of attempts there were exactly as many generations as configured, three if that is not positive; each exceeded its steps or was built and failed; the Dockerfile reported is the last one built |
| TagCache.StepKeepsInv | pkg/registryutil/tags.go:88-130 | every step of any caller, load, eviction or mutation keeps the invariant |
| TagCache.OnlyLoadedValues | pkg/registryutil/tags.go:88-110 | over every run, what callers are handed and what the cache holds was loaded for that key |
| TagCache.NoNeedlessLoad | pkg/registryutil/tags.go:94-98 | no load starts while its key is cached or another load of it goes on |
| TagCache.ErrorsAreNotCached | pkg/registryutil/tags.go:98-101 | a failed load leaves the cache as it was, without its key |
| TagCache.HandedOutIsFresh | pkg/registryutil/tags.go:88-110 | a slice handed out is in no cache entry, no load's result and no other caller's hands |
| TagCache.MutationIsPrivate | pkg/registryutil/tags.go:90-109 | whatever callers write, cached and pending values stay |
| TagCache.ReloadNeedsEviction | pkg/registryutil/tags.go:94-104 | over every run, after a load that gave names no load of the key begins or answers before the key is evicted |
| TagCache.StoredUntilEvicted | pkg/registryutil/tags.go:102-104 | once stored, a load's names are what the cache holds for its key until it is evicted |
| TagCache.CachedUntilEvicted | pkg/registryutil/tags.go:88-104 | whatever a key has in the cache stays, with the same names, until it is evicted |
| TagCache.CachedIsHandedOut | pkg/registryutil/tags.go:90-92 | a caller that looks while its key is cached holds the cached names until it is handed them, whatever is evicted, and its look starts nothing |
| TagCache.ColdCall | pkg/registryutil/tags.go:88-110 | at any moment, a call with nothing cached and no load running asks the registry, caches the names and is handed a copy |
| TagCache.FailedCall | pkg/registryutil/tags.go:98-108 | if the registry fails it is refused, and nothing is cached or handed out |
| TagCache.WarmCall | pkg/registryutil/tags.go:90-92 | at any moment, a call for a cached key is handed a copy of the cached names and loads nothing |
| TagCache.NobodyIsStuck | pkg/registryutil/tags.go:88-110 | a caller not yet answered has a step to take, or the load it waits for has |
| FilteredContext.WalkEmits | pkg/builder/context.go:30-43 | the walk hands on exactly the files and directories with nothing excluded on the way |
| FilteredContext.WalksOnce | pkg/builder/context.go:30-43 | none of them twice |
| FilteredContext.CleanIsNormal | pkg/builder/context.go:46-46 | a clean path is names only, after steps up that a relative one may begin with, and such a path is clean |
| FilteredContext.CleanKeepsPlace | pkg/builder/context.go:46-46 | cleaning keeps where a path leads: empty steps go, and a name goes with the step up that undoes it |
| FilteredContext.LetsThrough | pkg/builder/context.go:45-56 | the loop up the parents lets a path through if and only if neither it nor a directory above it is excluded |
| FilteredContext.WalkAndOpenAgree | pkg/builder/context.go:30-56 | for every tree and exclusion, a relative path opens a file if and only if the walk hands on the file it cleans to |
| FilteredContext.RootedAgreesIff | pkg/builder/context.go:30-56 | of a file, a rooted path and the walk say the same if and only if the exclusion lets its rooted and its relative name through alike |
| FilteredContext.RootedPathsAgreeIff | pkg/builder/context.go:30-56 | all rooted paths agree with the walk if and only if the exclusion treats the two names of every file alike |
| FilteredContext.RootedNameIsOpened | pkg/builder/context.go:45-56 | an exclusion that knows a file by its relative name only hides it from the walk, not from its rooted path |
| FilteredContext.WalkedFilesOpen | pkg/builder/context.go:30-56 | every file handed on opens by the path it was handed on with |
| FilteredContext.TargetWalkAgreesIff | pkg/builder/context.go:30-56 | of the files a walk from a target hands on, `Open` lets through those with no excluded directory above the target, and no others |

## Left out

- PrepareMeaning.PreparePreservesMeaning: for files of ordinary instructions, as listed above, in which no file, image or assignment uses a name that begins like an alias, and a word spelled in the JSON form reads as the word. What the code needs has an exact theorem for each condition but one: for flags with conditionals only the sufficient half is proved.
- FlagRewriting.FlagKeepsMeaningIff: leaves flags with conditionals to the sufficient half, because a shielded reference in a branch no environment takes changes nothing.
- ReadCursor.ReadingIsLossless: valid UTF-8, `FollowingIsExact` having any text.
- Pager.PagingIsLossless: valid UTF-8 only; elsewhere a page may start after bytes that no rune begins with.
- HistoryRuns.EarlierResultsStand: fewer than 2^64 saves, after which the counter of references would start again, and outputs whose length is a 64-bit `int`, as every string's is.
- PrepareErrors.PrepareFailsIff: what the Dockerfile parser rejects is not part of this model, nor is a context that is done; words with one text are spelled alike in an instruction, as its one form, JSON or not, makes them.
- Pager.PageTextReads: references of one word, as all references of the store are.
- ToolOutputStore.Store.SaveCall: the counter of references is unbounded, where the source's has 64 bits; sizes are unbounded too.
- RunLoop.Run: the time limits, tool set-up, logging and the agent's inner steps are part of what the outside answers.
- TagCache.OnlyLoadedValues: models `cachedTagNames`; `cachedCreatedAt` is the same protocol with values in place of slices.
- FilteredContext.WalkAndOpenAgree: relative paths, `RootedPathsAgreeIff` having the rooted ones; trees without links.
- The Dockerfile parser, its line numbers, the requoting of `RUN` flags and the placing of `ARG` lines in the text: instructions are given parsed, and declarations are part of a step.
- Words of the JSON form are read in the header as they are spelled, `\u0024` and other JSON escapes included. An escaped line end is dropped from what is read but ends a name; comment lines inside an instruction are not part of the whole-file theorem.
- References outside the words an instruction expands, such as `COPY --from=$S` or a `RUN` flag that is no mount: an ordinary instruction has none.
- Shell special parameters such as `$$`, pattern removal in `${...}` and quotes reopened inside `${...}`: not part of the reference meaning.
- SHA-256 and HMAC are injective functions, and sorting any fixed order.
- White space other than blank, tab, carriage return and line feed, at which the words of an `EXPOSE` would split too.
- The segment matcher, brace and class patterns within one segment: a parameter of `Glob`.
- Result and visit limits of the glob walk, symbolic links, hidden-file rules and directory listings: file system access.
- `Tags`' ranking and sorting, image search and registry calls: library and network code.
- The BuildKit client, solve and progress display, and the extraction of a Dockerfile from an answer: foreign or bound to regular expressions.
- Locks: every method of the store and the log buffer is one atomic step, as its mutex makes it.
