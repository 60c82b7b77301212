/**
 Whole runs: tools are called, their shown results reach the history in any order, and the rewriter runs before the
 model does. Whatever a message of an earlier round then shows stands for that call's own output.
 */
module HistoryRuns {
  import opened ToolOutputStore
  import opened History
  import Decimal
  import Pager
  import Preview
  import Utf8

  /** `maxRetainedToolOutputBytes`, the budget of a run's store. */
  const MAX_RETAINED_BYTES := 1024 * 1024

  /** Beyond this many saves the 64-bit counter of references would start again. */
  const MAX_SAVES := 0x1_0000_0000_0000_0000

  /** No string is longer: its length is a 64-bit `int`. */
  const MAX_LENGTH := 0x7FFF_FFFF_FFFF_FFFF

  /** A call, and the output its tool returned. */
  datatype Call = Call(isPage: bool, output: string)

  /** The saves, the messages, shown results not yet among them, and every call so far by its identifier. */
  datatype State = State(saves: seq<Save>, history: seq<Msg>, pending: seq<Msg>, calls: map<string, Call>)

  datatype Event =
    | RunTool(s: Save)
    | ReadPage(callID: string, ref: string, output: string, offset: nat, limit: nat)
    | Deliver(k: nat)
    | Say(m: Msg)
    | StartOver
    | CallModel

  // ---- One event ----

  function ToolMsg(callID: string, shown: string): Msg {
    Msg(Tool, callID, shown, [], [])
  }

  /** Call identifiers are distinct; pages are read of retained outputs; only tools answer as tools. */
  ghost predicate Enabled(s: State, e: Event) {
    match e
    case RunTool(c) =>
      && c.callID != [] && c.callID !in s.calls && c.toolName != READ_TOOL
      && |s.saves| + 1 < MAX_SAVES && |c.output| <= MAX_LENGTH
    case ReadPage(id, ref, output, offset, limit) =>
      id != [] && id !in s.calls && offset < MAX_SAVES && Resolves(s.saves, MAX_RETAINED_BYTES, ref, output)
    case Deliver(k) => k < |s.pending|
    case Say(m) => m.role != Tool
    case StartOver => true
    case CallModel => true
  }

  function Shown(output: string, ref: string): string {
    Preview.BoundedToolOutput(output, ref, MAX_TOOL_OUTPUT_BYTES)
  }

  function PageOf(ref: string, output: string, offset: nat, limit: nat): string {
    Pager.PageText(ref, Pager.ReadSpec(ref, Pager.Found(output), offset, limit))
  }

  ghost function Apply(s: State, e: Event): State {
    if !Enabled(s, e) then s
    else
      match e
      case RunTool(c) =>
        var shown := Shown(c.output, RefFor(s.saves, MAX_RETAINED_BYTES, c));
        s.(saves := s.saves + [c],
           pending := s.pending + [ToolMsg(c.callID, shown)],
           calls := s.calls[c.callID := Call(false, c.output)])
      case ReadPage(id, ref, output, offset, limit) =>
        var page := PageOf(ref, output, offset, limit);
        s.(pending := s.pending + [ToolMsg(id, Shown(page, []))], calls := s.calls[id := Call(true, page)])
      case Deliver(k) => s.(history := s.history + [s.pending[k]], pending := s.pending[..k] + s.pending[k + 1..])
      case Say(m) => s.(history := s.history + [m])
      case StartOver => s.(history := [], pending := [])
      case CallModel => s.(history := RewriteAll(s.history, s.saves, MAX_RETAINED_BYTES))
  }

  const Start := State([], [], [], map[])

  ghost function RunFrom(s: State, events: seq<Event>): State {
    if events == [] then s else Apply(RunFrom(s, events[..|events| - 1]), events[|events| - 1])
  }

  // ---- What a message may show ----

  /** The head of the output, the notice, and its tail, nothing of it twice. */
  ghost predicate ShowsEnds(output: string, notice: string, content: string) {
    exists a: nat, b: nat :: Preview.IsPreview(output, notice, content, a, b)
  }

  /**
   The result as it was first shown: whole, or its ends around a notice. The reference read off the notice gave, after
   the call's save, this call's whole output, unless the output was too large to be retained: then it names none.
   */
  ghost predicate Delivered(content: string, id: string, c: Call, saves: seq<Save>) {
    if |c.output| <= MAX_TOOL_OUTPUT_BYTES then content == c.output
    else exists at: nat, notice ::
        && at < |saves| && saves[at].callID == id && saves[at].output == c.output
        && ShowsEnds(c.output, notice, content) && Preview.Truncated() <= notice
        && if SizeOf(at, saves[at]) <= MAX_RETAINED_BYTES
           then Resolves(saves[..at + 1], MAX_RETAINED_BYTES, Preview.QuotedIn(notice), c.output)
           else Preview.QuotedIn(notice) == []
  }

  /** A notice whose reference, read off between its quotes, gave this call's whole output after some of the saves. */
  ghost predicate Referred(content: string, c: Call, saves: seq<Save>) {
    var ref := Preview.QuotedIn(content);
    content == ReferNotice(ref)
    && exists at: nat :: at <= |saves| && Resolves(saves[..at], MAX_RETAINED_BYTES, ref, c.output)
  }

  /** The call's output is not retained any more, or never was. */
  ghost predicate Gone(id: string, saves: seq<Save>) {
    var i := Latest(saves, id);
    i >= 0 && !Live(i, AcceptedOf(saves, MAX_RETAINED_BYTES), Evicted(saves, MAX_RETAINED_BYTES))
  }

  /** The notice that the output is gone, as after some of the saves it was. */
  ghost predicate Discarded(content: string, id: string, saves: seq<Save>) {
    content == DiscardNotice() && exists at: nat :: at <= |saves| && Gone(id, saves[..at])
  }

  ghost predicate Stands(content: string, id: string, c: Call, saves: seq<Save>) {
    || Delivered(content, id, c, saves)
    || (|c.output| > MAX_TOOL_OUTPUT_BYTES && (Referred(content, c, saves) || Discarded(content, id, saves)))
  }

  ghost predicate MessageOk(m: Msg, calls: map<string, Call>, saves: seq<Save>) {
    m.role == Tool ==> m.callID in calls && Stands(m.content, m.callID, calls[m.callID], saves)
  }

  /** Every save is of a known call; a page's call has none, and any other call's one save holds its output. */
  ghost predicate CallOk(id: string, c: Call, saves: seq<Save>) {
    && id != []
    && if c.isPage then Latest(saves, id) == -1 && |c.output| <= MAX_TOOL_OUTPUT_BYTES
       else Latest(saves, id) >= 0 && saves[Latest(saves, id)].output == c.output
  }

  ghost predicate CallsOk(s: State) {
    && |s.saves| < MAX_SAVES
    && (forall i | 0 <= i < |s.saves| :: s.saves[i].callID in s.calls)
    && (forall id | id in s.calls :: CallOk(id, s.calls[id], s.saves))
  }

  ghost predicate MessagesOk(ms: seq<Msg>, calls: map<string, Call>, saves: seq<Save>) {
    forall k | 0 <= k < |ms| :: MessageOk(ms[k], calls, saves)
  }

  ghost predicate Inv(s: State) {
    CallsOk(s) && MessagesOk(s.history, s.calls, s.saves) && MessagesOk(s.pending, s.calls, s.saves)
  }

  // ---- A page fits the bound on shown outputs ----

  lemma {:induction false} AcceptedFit(saves: seq<Save>, max: int, k: nat)
    requires k < |AcceptedOf(saves, max)|
    ensures Accepted(AcceptedOf(saves, max)[k], saves[AcceptedOf(saves, max)[k]], max)
  {
    var n := |saves| - 1;
    if k < |AcceptedOf(saves[..n], max)| {
      AcceptedFit(saves[..n], max, k);
    }
  }

  lemma FewerDigits(n: nat)
    requires n < MAX_SAVES
    ensures |Decimal.Digits(n)| <= 20
  {
    assert Decimal.Ten(10) == 1_00000_00000;
    assert Decimal.Ten(20) == 1_00000_00000_00000_00000;
    Decimal.FewDigits(n, MAX_SAVES, 20);
  }

  /** What is retained is smaller than the budget, and so are the references. */
  lemma ResolvedIsSmall(saves: seq<Save>, ref: string, output: string)
    requires |saves| < MAX_SAVES && Resolves(saves, MAX_RETAINED_BYTES, ref, output)
    ensures |ref| <= 24 && ref != [] && |output| <= MAX_RETAINED_BYTES
  {
    hide AcceptedOf, Evicted, Decimal.Digits;
    var i: nat :| i < |saves| && Live(i, AcceptedOf(saves, MAX_RETAINED_BYTES), Evicted(saves, MAX_RETAINED_BYTES))
                  && ref == RefName(i + 1) && saves[i].output == output;
    var k :| 0 <= k < |AcceptedOf(saves, MAX_RETAINED_BYTES)| && AcceptedOf(saves, MAX_RETAINED_BYTES)[k] == i;
    AcceptedFit(saves, MAX_RETAINED_BYTES, k);
    FewerDigits(i + 1);
  }

  lemma PageFits(ref: string, output: string, offset: nat, limit: nat)
    requires |ref| <= 24 && |output| <= MAX_RETAINED_BYTES && offset < MAX_SAVES
    ensures |PageOf(ref, output, offset, limit)| <= MAX_TOOL_OUTPUT_BYTES
  {
    hide Pager.PageAt, Decimal.Digits;
    FewerDigits(|output|);
    if ref != [] && offset >= |output| {
      FewerDigits(offset);
    } else if ref != [] {
      var p := Pager.PageAt(output, offset, Pager.EffectiveLimit(limit));
      PageIsShort(output, offset, Pager.EffectiveLimit(limit));
      FewerDigits(p.start);
      FewerDigits(p.end);
    }
  }

  lemma PageIsShort(output: string, offset: nat, limit: nat)
    requires offset < |output|
    ensures var p := Pager.PageAt(output, offset, limit);
            p.total == |output| && p.start <= p.end <= |output| && p.text == output[p.start..p.end]
                && |p.text| <= limit + 4
  {
    hide Utf8.Ceil, Pager.FloorFrom;
  }

  // ---- Every event keeps the invariant ----

  lemma StandsStays(content: string, id: string, c: Call, saves: seq<Save>, more: seq<Save>)
    requires Stands(content, id, c, saves) && saves <= more
    ensures Stands(content, id, c, more)
  {
    hide ReferNotice, DiscardNotice, Resolves, ShowsEnds, SizeOf, Gone, Preview.QuotedIn, Preview.Truncated;
    if Delivered(content, id, c, saves) {
      if |c.output| > MAX_TOOL_OUTPUT_BYTES {
        var at: nat, notice :|
          && at < |saves| && saves[at].callID == id && saves[at].output == c.output
          && ShowsEnds(c.output, notice, content) && Preview.Truncated() <= notice
          && if SizeOf(at, saves[at]) <= MAX_RETAINED_BYTES
             then Resolves(saves[..at + 1], MAX_RETAINED_BYTES, Preview.QuotedIn(notice), c.output)
             else Preview.QuotedIn(notice) == [];
        assert saves[..at + 1] == more[..at + 1] && saves[at] == more[at];
      }
    } else if Referred(content, c, saves) {
      var at: nat :| at <= |saves| && Resolves(saves[..at], MAX_RETAINED_BYTES, Preview.QuotedIn(content), c.output);
      assert saves[..at] == more[..at];
    } else {
      var at: nat :| at <= |saves| && Gone(id, saves[..at]);
      assert saves[..at] == more[..at];
    }
  }

  lemma MessagesStayOk(ms: seq<Msg>, s: State, t: State)
    requires MessagesOk(ms, s.calls, s.saves)
    requires s.saves <= t.saves && forall id | id in s.calls :: id in t.calls && t.calls[id] == s.calls[id]
    ensures MessagesOk(ms, t.calls, t.saves)
  {
    hide Stands;
    forall k | 0 <= k < |ms| && ms[k].role == Tool ensures MessageOk(ms[k], t.calls, t.saves) {
      assert MessageOk(ms[k], s.calls, s.saves);
      StandsStays(ms[k].content, ms[k].callID, s.calls[ms[k].callID], s.saves, t.saves);
    }
  }

  lemma ToolKeepsCalls(s: State, c: Save)
    requires CallsOk(s) && Enabled(s, RunTool(c))
    ensures CallsOk(Apply(s, RunTool(c)))
  {
    hide Latest, Shown, RefFor;
    var t := Apply(s, RunTool(c));
    forall id | id in t.calls ensures CallOk(id, t.calls[id], t.saves) {
      LatestAppend(s.saves, c, id);
      if id != c.callID {
        assert CallOk(id, s.calls[id], s.saves);
      }
    }
  }

  lemma {:induction false} UnknownHasNoSave(saves: seq<Save>, id: string)
    requires forall i | 0 <= i < |saves| :: saves[i].callID != id
    ensures Latest(saves, id) == -1
  {
  }

  lemma PageKeepsCalls(s: State, e: Event)
    requires CallsOk(s) && e.ReadPage? && Enabled(s, e)
    ensures CallsOk(Apply(s, e))
  {
    hide Latest, Shown, PageOf, CallOk, Resolves;
    ResolvedIsSmall(s.saves, e.ref, e.output);
    PageFits(e.ref, e.output, e.offset, e.limit);
    UnknownHasNoSave(s.saves, e.callID);
    var t := Apply(s, e);
    forall id | id in t.calls ensures CallOk(id, t.calls[id], t.saves) {
      if id != e.callID {
        assert CallOk(id, s.calls[id], s.saves);
      } else {
        PageCallOk(id, t.calls[id], s.saves);
      }
    }
  }

  lemma PageCallOk(id: string, c: Call, saves: seq<Save>)
    requires id != [] && c.isPage && Latest(saves, id) == -1 && |c.output| <= MAX_TOOL_OUTPUT_BYTES
    ensures CallOk(id, c, saves)
  {
  }

  /** What a compacted message shows: a reference while the output is retained, and else that it is gone. */
  lemma CompactedStands(saves: seq<Save>, id: string, c: Call)
    requires CallOk(id, c, saves) && |c.output| > MAX_TOOL_OUTPUT_BYTES
    ensures match CompactionOf(saves, MAX_RETAINED_BYTES, id)
            case Keep => false
            case Refer(ref) => Referred(ReferNotice(ref), c, saves) && !Gone(id, saves)
            case Discard => Discarded(DiscardNotice(), id, saves) && Gone(id, saves)
  {
    hide ReferNotice, DiscardNotice, Resolves, Evicted, AcceptedOf, RefName, Marker, Preview.QuotedIn;
    var i := Latest(saves, id);
    OfferedRefResolves(saves, MAX_RETAINED_BYTES, id);
    assert saves[..|saves|] == saves;
    RefIsPlain(i + 1);
    ReferNoticeNames(RefName(i + 1));
  }

  /** A message that stood for its call's output still does after the rewriter has seen it. */
  lemma RewriteStands(m: Msg, calls: map<string, Call>, saves: seq<Save>)
    requires MessageOk(m, calls, saves) && m.role == Tool && CallOk(m.callID, calls[m.callID], saves)
    ensures MessageOk(RewriteOne(m, saves, MAX_RETAINED_BYTES), calls, saves)
  {
    hide ReferNotice, DiscardNotice, Delivered, Referred, Discarded, Evicted, AcceptedOf, RefName, Marker;
    if |calls[m.callID].output| > MAX_TOOL_OUTPUT_BYTES {
      CompactedStands(saves, m.callID, calls[m.callID]);
    }
  }

  lemma ModelKeepsMessages(s: State)
    requires Inv(s)
    ensures MessagesOk(Apply(s, CallModel).history, s.calls, s.saves)
  {
    hide RewriteOne, Stands, LatestRound, CallOk;
    var t := Apply(s, CallModel);
    forall k | 0 <= k < |t.history| ensures MessageOk(t.history[k], s.calls, s.saves) {
      assert MessageOk(s.history[k], s.calls, s.saves);
      if s.history[k].role == Tool {
        RewriteStands(s.history[k], s.calls, s.saves);
      } else {
        OthersUntouched(s.history[k], s.saves);
      }
    }
  }

  lemma OthersUntouched(m: Msg, saves: seq<Save>)
    requires m.role != Tool
    ensures RewriteOne(m, saves, MAX_RETAINED_BYTES) == m
  {
  }

  /** What is shown of a new output names, where it was retained, the reference that gives it. */
  lemma NewResultIsDelivered(saves: seq<Save>, c: Save)
    requires |saves| + 1 < MAX_SAVES && |c.output| <= MAX_LENGTH
    ensures Delivered(Shown(c.output, RefFor(saves, MAX_RETAINED_BYTES, c)), c.callID, Call(false, c.output),
                saves + [c])
  {
    hide Preview.BoundedToolOutput, Preview.ToolNotice, Preview.QuotedIn, Resolves, SizeOf, RefName,
        Preview.IsPreview, Preview.Truncated;
    var ref, n := RefFor(saves, MAX_RETAINED_BYTES, c), |saves|;
    Preview.ToolOutputIsBounded(c.output, ref, MAX_TOOL_OUTPUT_BYTES);
    if |c.output| > MAX_TOOL_OUTPUT_BYTES {
      var notice := Preview.ToolNotice(|c.output|, ref);
      RefIsPlain(n + 1);
      Preview.ToolNoticeNames(|c.output|, ref);
      NoticeFits(saves, c);
      assert (saves + [c])[..n + 1] == saves + [c] && (saves + [c])[n] == c;
      assert ShowsEnds(c.output, notice, Shown(c.output, ref));
      if Accepted(n, c, MAX_RETAINED_BYTES) {
        NewestResolves(saves, c, MAX_RETAINED_BYTES);
      }
    }
  }

  /** The notice leaves room for the ends of the output. */
  lemma NoticeFits(saves: seq<Save>, c: Save)
    requires |saves| + 1 < MAX_SAVES && |c.output| <= MAX_LENGTH
    ensures |Preview.ToolNotice(|c.output|, RefFor(saves, MAX_RETAINED_BYTES, c))| <= 250
  {
    hide Preview.ToolNotice, SizeOf, Decimal.Digits;
    FewerDigits(|saves| + 1);
    NoticeIsShort(|c.output|, RefFor(saves, MAX_RETAINED_BYTES, c));
  }

  lemma NewResultStands(s: State, t: State, id: string, shown: string)
    requires id in t.calls && t.pending == s.pending + [ToolMsg(id, shown)]
    requires Delivered(shown, id, t.calls[id], t.saves) && MessagesOk(s.pending, t.calls, t.saves)
    ensures MessagesOk(t.pending, t.calls, t.saves)
  {
    hide Delivered, Referred, Discarded;
  }

  lemma PageIsDelivered(page: string, id: string, saves: seq<Save>)
    requires |page| <= MAX_TOOL_OUTPUT_BYTES
    ensures Delivered(Shown(page, []), id, Call(true, page), saves)
  {
    hide Preview.BoundedToolOutput;
    Preview.ToolOutputIsBounded(page, [], MAX_TOOL_OUTPUT_BYTES);
  }

  lemma StepKeepsInv(s: State, e: Event)
    requires Inv(s)
    ensures Inv(Apply(s, e))
  {
    hide Shown, PageOf, RefFor, RewriteAll, MessageOk, Resolves, Delivered, CallOk;
    var t := Apply(s, e);
    if Enabled(s, e) {
      match e
      case RunTool(c) =>
        ToolKeepsCalls(s, c);
        MessagesStayOk(s.history, s, t);
        MessagesStayOk(s.pending, s, t);
        NewResultIsDelivered(s.saves, c);
        NewResultStands(s, t, c.callID, Shown(c.output, RefFor(s.saves, MAX_RETAINED_BYTES, c)));
      case ReadPage(id, ref, output, offset, limit) =>
        PageKeepsCalls(s, e);
        MessagesStayOk(s.history, s, t);
        MessagesStayOk(s.pending, s, t);
        ResolvedIsSmall(s.saves, ref, output);
        PageFits(ref, output, offset, limit);
        PageIsDelivered(PageOf(ref, output, offset, limit), id, t.saves);
        NewResultStands(s, t, id, Shown(PageOf(ref, output, offset, limit), []));
      case CallModel =>
        ModelKeepsMessages(s);
        SameCalls(s, t);
      case Say(m) =>
        OthersAreOk(m, s.calls, s.saves);
        SameCalls(s, t);
      case _ =>
        SameCalls(s, t);
    }
  }

  lemma OthersAreOk(m: Msg, calls: map<string, Call>, saves: seq<Save>)
    requires m.role != Tool
    ensures MessageOk(m, calls, saves)
  {
  }

  lemma SameCalls(s: State, t: State)
    requires CallsOk(s) && s.calls == t.calls && s.saves == t.saves
    ensures CallsOk(t)
  {
  }

  lemma {:induction false} RunsKeepInv(events: seq<Event>)
    ensures Inv(RunFrom(Start, events))
  {
    hide Apply, Inv;
    if events != [] {
      RunsKeepInv(events[..|events| - 1]);
      StepKeepsInv(RunFrom(Start, events[..|events| - 1]), events[|events| - 1]);
    } else {
      StartIsOk();
    }
  }

  lemma StartIsOk()
    ensures Inv(Start)
  {
  }

  // ---- Main results ----

  /** How a long result ends up once the model has seen it: compacted, unless what it shows looks like a notice. */
  ghost predicate Settled(content: string, id: string, c: Call, saves: seq<Save>) {
    if |c.output| <= MAX_TOOL_OUTPUT_BYTES then content == c.output
    else
      || Referred(content, c, saves)
      || Discarded(content, id, saves)
      || (Delivered(content, id, c, saves) && Marker() <= content)
  }

  /** A long result that does not begin like a notice is compacted: to a reference exactly while it is retained. */
  lemma RewriteSettles(m: Msg, calls: map<string, Call>, saves: seq<Save>)
    requires MessageOk(m, calls, saves) && m.role == Tool && CallOk(m.callID, calls[m.callID], saves)
    ensures var content := RewriteOne(m, saves, MAX_RETAINED_BYTES).content;
            && Settled(content, m.callID, calls[m.callID], saves)
            && (|calls[m.callID].output| > MAX_TOOL_OUTPUT_BYTES ==>
              && (content != m.content <==> !(Marker() <= m.content))
              && (content != m.content && !Gone(m.callID, saves) ==> Referred(content, calls[m.callID], saves))
              && (content != m.content && Gone(m.callID, saves) ==> content == DiscardNotice()))
  {
    hide ReferNotice, DiscardNotice, Delivered, Referred, Gone, Evicted, AcceptedOf, RefName, Marker;
    if |calls[m.callID].output| > MAX_TOOL_OUTPUT_BYTES {
      CompactedStands(saves, m.callID, calls[m.callID]);
    } else {
      assert Delivered(m.content, m.callID, calls[m.callID], saves);
      DeliveredWhole(m.content, m.callID, calls[m.callID], saves);
    }
  }

  lemma DeliveredWhole(content: string, id: string, c: Call, saves: seq<Save>)
    requires Delivered(content, id, c, saves) && |c.output| <= MAX_TOOL_OUTPUT_BYTES
    ensures content == c.output
  {
  }

  /**
   Over every run: after the rewriter has run, each tool result of an earlier round shows that call's whole output if
   it is short; if it is long it shows a reference which, when it was put there, gave that call's whole output, or the
   notice that it is gone. The exception is a long result whose preview itself begins like a notice: it is never
   compacted. The latest round and every other message are as they were.
   */
  lemma EarlierResultsStand(events: seq<Event>)
    ensures var s := RunFrom(Start, events);
            var t := Apply(s, CallModel);
            && |t.history| == |s.history|
            && forall k | 0 <= k < |t.history| ::
                 if k < LatestRound(s.history) && s.history[k].role == Tool
                 then s.history[k].callID in s.calls
                     && Settled(t.history[k].content, s.history[k].callID, s.calls[s.history[k].callID], s.saves)
                 else t.history[k] == s.history[k]
  {
    hide RewriteOne, Settled, LatestRound, CallOk, Stands, RunFrom;
    var s := RunFrom(Start, events);
    var t := Apply(s, CallModel);
    RunsKeepInv(events);
    forall k | 0 <= k < |t.history|
      ensures if k < LatestRound(s.history) && s.history[k].role == Tool
              then s.history[k].callID in s.calls
                  && Settled(t.history[k].content, s.history[k].callID, s.calls[s.history[k].callID], s.saves)
              else t.history[k] == s.history[k]
    {
      assert MessageOk(s.history[k], s.calls, s.saves);
      if s.history[k].role == Tool {
        RewriteSettles(s.history[k], s.calls, s.saves);
      } else {
        OthersUntouched(s.history[k], s.saves);
      }
    }
  }

  /** Later events, short of a new conversation, never change a message again once it begins like a notice. */
  lemma {:induction false} NoticesNeverChange(s: State, events: seq<Event>, k: nat)
    requires StartOver !in events && k < |s.history| && Marker() <= s.history[k].content
    ensures k < |RunFrom(s, events).history| && RunFrom(s, events).history[k] == s.history[k]
  {
    hide Marker, CompactionOf, ReferNotice, DiscardNotice, LatestRound, Shown, PageOf, RefFor;
    if events != [] {
      var most := events[..|events| - 1];
      NoticesNeverChange(s, most, k);
    }
  }

  // ---- The exception ----

  lemma NoticeIsShort(size: nat, ref: string)
    requires size < MAX_SAVES && |ref| <= 24
    ensures |Preview.ToolNotice(size, ref)| <= 250
  {
    hide Decimal.Digits;
    FewerDigits(size);
    hide Preview.Ascii;
  }

  /** A long result's preview begins as the result does for longer than a notice's opening. */
  lemma PreviewBegins(output: string, ref: string)
    requires Utf8.Valid(output) && MAX_TOOL_OUTPUT_BYTES < |output| < MAX_SAVES && |ref| <= 24
    ensures |Shown(output, ref)| >= 1000 && Shown(output, ref)[..1000] == output[..1000]
  {
    hide Preview.ToolNotice, Preview.Cut, Utf8.Valid, Preview.HeadEnd, Preview.TailStart;
    var notice := Preview.ToolNotice(|output|, ref);
    NoticeIsShort(|output|, ref);
    var head := (MAX_TOOL_OUTPUT_BYTES - |notice|) / 2;
    Preview.CutIsPreview(output, notice, MAX_TOOL_OUTPUT_BYTES, head);
    Preview.CutsAreClose(output, head, MAX_TOOL_OUTPUT_BYTES - |notice| - head);
  }

  /** So, for text, the exception to compaction is the long results that themselves begin like a notice. */
  lemma NeverCompactedIff(output: string, ref: string)
    requires Utf8.Valid(output) && MAX_TOOL_OUTPUT_BYTES < |output| < MAX_SAVES && |ref| <= 24
    ensures Marker() <= Shown(output, ref) <==> Marker() <= output
  {
    hide Shown, Utf8.Valid;
    PreviewBegins(output, ref);
    assert Shown(output, ref)[..|Marker()|] == Shown(output, ref)[..1000][..|Marker()|] == output[..|Marker()|];
  }

  function Spoof(): string {
    Marker() + seq(MAX_TOOL_OUTPUT_BYTES, _ => 'a')
  }

  /**
   One such result: after any number of later model calls it still shows neither a reference nor the discard notice.
   */
  lemma SpoofIsNeverCompacted(ref: string, saves: seq<Save>, id: string)
    requires |ref| <= 24
    ensures var m := ToolMsg(id, Shown(Spoof(), ref));
            && RewriteOne(m, saves, MAX_RETAINED_BYTES) == m
            && m.content != Spoof() && m.content != DiscardNotice() && forall r :: m.content != ReferNotice(r)
  {
    hide Shown, Utf8.Valid, CompactionOf;
    SpoofIsText();
    var shown := Shown(Spoof(), ref);
    PreviewBegins(Spoof(), ref);
    NeverCompactedIff(Spoof(), ref);
    assert shown[..1000][|Marker()|] == 'a';
    forall r ensures shown != ReferNotice(r) {
      var word := "compacted. ";
      assert word[0] == 'c' && ReferNotice(r)[|Marker()|..|Marker()| + |word|] == word;
    }
    assert |shown| <= MAX_TOOL_OUTPUT_BYTES by {
      ShownFits(Spoof(), ref);
    }
  }

  lemma ShownFits(output: string, ref: string)
    ensures |Shown(output, ref)| <= MAX_TOOL_OUTPUT_BYTES
  {
    hide Preview.BoundedToolOutput;
    Preview.ToolOutputIsBounded(output, ref, MAX_TOOL_OUTPUT_BYTES);
  }

  lemma SpoofIsText()
    ensures Utf8.Valid(Spoof())
  {
    Preview.AsciiIsValid(Spoof());
  }
}
