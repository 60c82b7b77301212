/**
 What the model sees of tool results: the middleware that saves each output and shows a preview of it, and the
 rewriter that, before each model call, replaces long results of earlier rounds by references.
 */
module History {
  import opened ToolOutputStore
  import Decimal
  import Pager
  import Preview
  import Utf8

  datatype Role = System | User | Assistant | Tool

  /** A message as a value. */
  datatype Msg = Msg(role: Role, callID: string, content: string, parts: seq<string>, userParts: seq<string>)

  const READ_TOOL := "read_tool_output"

  // ---- The rewriter ----

  function Marker(): string { "[Earlier tool output " }

  function Compacted(): (s: string) ensures Preview.Plain(s) { "compacted. Use " }

  function WithRef(): (s: string) ensures Preview.Plain(s) { "read_tool_output with ref " }

  function ReferNotice(ref: string): (s: string)
    ensures Marker() <= s
  {
    hide Compacted, WithRef, Preview.Quoted;
    var s := Marker() + Compacted() + WithRef() + Preview.Quoted(ref) + " if it is needed again.]";
    assert s[..|Marker()|] == Marker();
    s
  }

  /** The reference a notice names is read off between its quotes. */
  lemma ReferNoticeNames(ref: string)
    requires '"' !in ref
    ensures Preview.QuotedIn(ReferNotice(ref)) == ref
  {
    hide Compacted, WithRef, Preview.Quoted, Preview.QuotedIn;
    Preview.QuotedReads(Marker() + Compacted() + WithRef(), ref, " if it is needed again.]");
  }

  function DiscardNotice(): (s: string)
    ensures Marker() <= s
  {
    var s := Marker() + "discarded after its retention budget was exhausted.]";
    assert s[..|Marker()|] == Marker();
    s
  }

  /** What becomes of a message of an earlier round, given the saves so far. */
  function RewriteOne(m: Msg, saves: seq<Save>, max: int): Msg {
    if m.role != Tool || Marker() <= m.content then m
    else
      match CompactionOf(saves, max, m.callID)
      case Keep => m
      case Refer(ref) => m.(content := ReferNotice(ref), parts := [], userParts := [])
      case Discard => m.(content := DiscardNotice(), parts := [], userParts := [])
  }

  /** Once a notice, always that notice, whatever is saved later. */
  lemma NoticesStay(m: Msg, saves: seq<Save>, max: int, later: seq<Save>)
    ensures var r := RewriteOne(m, saves, max);
            && RewriteOne(r, saves, max) == r
            && (r != m ==> Marker() <= r.content)
            && (Marker() <= r.content ==> RewriteOne(r, later, max) == r)
  {
    hide CompactionOf, Marker, ReferNotice, DiscardNotice;
  }

  /** The messages from here on are the latest round of tool results. */
  function LatestRound(history: seq<Msg>): (n: nat)
    ensures n <= |history|
    ensures forall k | n <= k < |history| :: history[k].role == Tool
    ensures n > 0 ==> history[n - 1].role != Tool
  {
    if history == [] || history[|history| - 1].role != Tool then |history| else LatestRound(history[..|history| - 1])
  }

  function RewriteAll(history: seq<Msg>, saves: seq<Save>, max: int): (r: seq<Msg>)
    ensures |r| == |history|
    ensures forall k | 0 <= k < |r| ::
            r[k] == if k < LatestRound(history) then RewriteOne(history[k], saves, max) else history[k]
  {
    seq(|history|, k requires 0 <= k < |history| =>
      if k < LatestRound(history) then RewriteOne(history[k], saves, max) else history[k])
  }

  class Message {
    const role: Role
    const toolCallID: string
    var content: string
    var multiContent: seq<string>
    var userInputMultiContent: seq<string>

    constructor (m: Msg)
      ensures View() == m
    {
      role, toolCallID, content, multiContent, userInputMultiContent := m.role, m.callID, m.content, m.parts,
          m.userParts;
    }

    ghost function View(): Msg
      reads this
    {
      Msg(role, toolCallID, content, multiContent, userInputMultiContent)
    }
  }

  ghost function Views(messages: seq<Message>): (r: seq<Msg>)
    reads messages
    ensures |r| == |messages| && forall k | 0 <= k < |r| :: r[k] == messages[k].View()
  {
    seq(|messages|, k requires 0 <= k < |messages| reads messages => messages[k].View())
  }

  method LatestToolRound(messages: seq<Message>) returns (n: nat)
    ensures n == LatestRound(Views(messages))
  {
    n := |messages|;
    assert Views(messages)[..n] == Views(messages);
    while n > 0 && messages[n - 1].role == Tool
      invariant 0 <= n <= |messages|
      invariant LatestRound(Views(messages)[..n]) == LatestRound(Views(messages))
    {
      assert Views(messages)[..n][..n - 1] == Views(messages)[..n - 1];
      n := n - 1;
    }
  }

  /**
   Rewrites the messages in place. A message given twice is rewritten as if it were given once; messages that only
   occur in the latest round, and any other message, are left alone.
   */
  method RewriteHistory(store: Store, messages: seq<Message>)
    requires store.Valid()
    modifies messages
    ensures forall m <- messages ::
              m.View() == if m in messages[..LatestRound(old(Views(messages)))]
                          then RewriteOne(old(m.View()), store.saves, store.maxBytes)
                          else old(m.View())
  {
    hide *;
    var latest := LatestToolRound(messages);
    var i := 0;
    ghost var done: set<Message> := {};
    while i < latest
      invariant 0 <= i <= latest
      invariant forall m :: m in done <==> m in messages[..i]
      invariant forall m <- messages ::
                  m.View() == if m in done then RewriteOne(old(m.View()), store.saves, store.maxBytes)
                      else old(m.View())
    {
      var message := messages[i];
      NoticesStay(old(message.View()), store.saves, store.maxBytes, []);
      RewriteMessage(store, message);
      done := done + {message};
      i := i + 1;
    }
  }

  method RewriteMessage(store: Store, message: Message)
    requires store.Valid()
    modifies message
    ensures message.View() == RewriteOne(old(message.View()), store.saves, store.maxBytes)
  {
    hide CompactionOf, Marker, ReferNotice, DiscardNotice;
    if message.role != Tool || Marker() <= message.content {
      return;
    }
    var ref, compactable, retained := store.CompactionForCall(message.toolCallID);
    if !compactable {
      return;
    }
    if retained {
      message.content := ReferNotice(ref);
    } else {
      message.content := DiscardNotice();
    }
    message.multiContent := [];
    message.userInputMultiContent := [];
  }

  // ---- The middleware ----

  /** The reference a call's output gets, or none. */
  function RefFor(saves: seq<Save>, max: int, s: Save): string {
    if Accepted(|saves|, s, max) then RefName(|saves| + 1) else []
  }

  datatype Outcome = ToolError | Shown(result: string)

  /** Runs after the tool: saves its output, unless it is a page of a saved one, and shows a preview. */
  method AfterTool(store: Store, name: string, callID: string, args: string, returned: Outcome) returns (out: Outcome)
    requires store.Valid()
    modifies store
    ensures store.Valid()
    ensures store.saves == old(store.saves) + if returned.Shown? && name != READ_TOOL
            then [Save(callID, name, args, returned.result)] else []
    ensures returned.ToolError? ==> out == ToolError
    ensures returned.Shown? ==>
              out == Shown(Preview.BoundedToolOutput(returned.result,
                             if name == READ_TOOL then []
                                 else RefFor(old(store.saves), store.maxBytes,
                                 Save(callID, name, args, returned.result)),
                             MAX_TOOL_OUTPUT_BYTES))
  {
    hide Preview.BoundedToolOutput, RefName, Accepted;
    if returned.ToolError? {
      return ToolError;
    }
    var ref := "";
    if name != "read_tool_output" {
      ref := store.SaveCall(callID, name, args, returned.result);
    }
    var shown := Preview.BoundToolOutput(returned.result, ref, MAX_TOOL_OUTPUT_BYTES);
    out := Shown(shown);
  }
}
