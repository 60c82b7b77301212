/**
 The byte-budgeted store of full tool outputs: a first-in first-out cache with an index by call. Everything the
 store holds is tied to the ghost history of all saves: it keeps the longest suffix of the accepted saves that
 fits, and a call's reference is live and belongs to the call's latest save.
 */
module ToolOutputStore {
  import Decimal
  import opened Marks

  const MAX_TOOL_OUTPUT_BYTES := 12 * 1024

  datatype Save = Save(callID: string, toolName: string, args: string, output: string)

  datatype Stored = Stored(save: Save, size: nat)

  // ---- References ----

  function OutPrefix(): string { "out-" }

  /** `out-%d`. */
  function RefName(n: nat): string {
    OutPrefix() + Decimal.Digits(n)
  }

  lemma RefsDiffer(i: nat, j: nat)
    requires RefName(i) == RefName(j)
    ensures i == j
  {
    assert RefName(i)[|OutPrefix()|..] == Decimal.Digits(i) && RefName(j)[|OutPrefix()|..] == Decimal.Digits(j);
    Decimal.RoundTrip(i);
    Decimal.RoundTrip(j);
  }

  /** References are plain: no quote, blank or colon is in them. */
  lemma {:induction false} RefIsPlain(n: nat)
    ensures RefName(n) != [] && forall c | c in RefName(n) :: c in OutPrefix() || '0' <= c <= '9'
    ensures '"' !in RefName(n) && ' ' !in RefName(n)
  {
    Decimal.DigitsOnly(n);
  }

  // ---- What a history of saves leaves in the store ----

  /** The size charged for save number `i`, whose reference is `i + 1`. */
  function SizeOf(i: nat, s: Save): nat {
    |RefName(i + 1)| + |s.callID| + |s.toolName| + |s.args| + |s.output|
  }

  predicate Accepted(i: nat, s: Save, max: int) {
    SizeOf(i, s) <= max
  }

  predicate Indexed(ks: seq<nat>, saves: seq<Save>) {
    forall k | 0 <= k < |ks| :: ks[k] < |saves|
  }

  /** The numbers of the saves small enough to be stored at all, oldest first. */
  function AcceptedOf(saves: seq<Save>, max: int): (ks: seq<nat>)
    ensures Indexed(ks, saves)
    ensures forall i, j | 0 <= i < j < |ks| :: ks[i] < ks[j]
  {
    if saves == [] then []
    else
      var n := |saves| - 1;
      AcceptedOf(saves[..n], max) + if Accepted(n, saves[n], max) then [n] else []
  }

  /** The total size of the saves numbered `ks[j..]`. */
  function TotalFrom(ks: seq<nat>, j: nat, saves: seq<Save>): nat
    requires j <= |ks| && Indexed(ks, saves)
    decreases |ks| - j
  {
    if j == |ks| then 0 else SizeOf(ks[j], saves[ks[j]]) + TotalFrom(ks, j + 1, saves)
  }

  /** Evicting from `j` on, oldest first, until the rest fits in `budget`. */
  function Evict(ks: seq<nat>, j: nat, saves: seq<Save>, budget: int): (k: nat)
    requires j <= |ks| && Indexed(ks, saves)
    ensures j <= k <= |ks|
    decreases |ks| - j
  {
    if j == |ks| || TotalFrom(ks, j, saves) <= budget then j else Evict(ks, j + 1, saves, budget)
  }

  /** How many of the accepted saves have been evicted. */
  function Evicted(saves: seq<Save>, max: int): (j: nat)
    ensures j <= |AcceptedOf(saves, max)|
  {
    if saves == [] then 0
    else
      var n := |saves| - 1;
      var past := saves[..n];
      if Accepted(n, saves[n], max)
      then Evict(AcceptedOf(past, max), Evicted(past, max), saves, max - SizeOf(n, saves[n]))
      else Evicted(past, max)
  }

  /** The last save made for `call`, or -1. */
  function Latest(saves: seq<Save>, call: string): (i: int)
    ensures -1 <= i < |saves|
    ensures i >= 0 ==> saves[i].callID == call
    ensures forall j | i < j < |saves| :: saves[j].callID != call
  {
    if saves == [] then -1
    else if saves[|saves| - 1].callID == call then |saves| - 1
    else Latest(saves[..|saves| - 1], call)
  }

  // ---- The longest suffix that fits ----

  lemma {:induction false} TotalAppend(ks: seq<nat>, j: nat, k: nat, saves: seq<Save>)
    requires Indexed(ks, saves) && k < |saves| && j <= |ks|
    ensures Indexed(ks + [k], saves)
    ensures TotalFrom(ks + [k], j, saves) == TotalFrom(ks, j, saves) + SizeOf(k, saves[k])
    decreases |ks| - j
  {
    if j < |ks| {
      TotalAppend(ks, j + 1, k, saves);
    } else {
      assert TotalFrom(ks + [k], j + 1, saves) == 0;
    }
  }

  lemma {:induction false} TotalStable(ks: seq<nat>, j: nat, saves: seq<Save>, more: seq<Save>)
    requires Indexed(ks, saves) && saves <= more && j <= |ks|
    ensures Indexed(ks, more) && TotalFrom(ks, j, more) == TotalFrom(ks, j, saves)
    decreases |ks| - j
  {
    if j < |ks| {
      TotalStable(ks, j + 1, saves, more);
    }
  }

  /** `ks[j..]` is the longest suffix of `ks` whose saves fit in `budget`; nothing at all fits anything. */
  predicate LongestFitting(ks: seq<nat>, j: nat, saves: seq<Save>, budget: int)
    requires j <= |ks| && Indexed(ks, saves)
  {
    && (j < |ks| ==> TotalFrom(ks, j, saves) <= budget)
    && (j > 0 ==> TotalFrom(ks, j - 1, saves) > budget)
  }

  lemma {:induction false} EvictStops(ks: seq<nat>, j: nat, saves: seq<Save>, budget: int)
    requires j <= |ks| && Indexed(ks, saves)
    ensures var k := Evict(ks, j, saves, budget);
            && (k < |ks| ==> TotalFrom(ks, k, saves) <= budget)
            && (k > j ==> TotalFrom(ks, k - 1, saves) > budget)
    decreases |ks| - j
  {
    if j < |ks| && TotalFrom(ks, j, saves) > budget {
      EvictStops(ks, j + 1, saves, budget);
    }
  }

  lemma AcceptedStep(past: seq<Save>, s: Save, max: int)
    ensures var more, n := past + [s], |past|;
            if Accepted(n, s, max)
            then AcceptedOf(more, max) == AcceptedOf(past, max) + [n]
                 && Evicted(more, max) == Evict(AcceptedOf(past, max), Evicted(past, max), more, max - SizeOf(n, s))
            else AcceptedOf(more, max) == AcceptedOf(past, max) && Evicted(more, max) == Evicted(past, max)
  {
    hide SizeOf, Evict;
    assert (past + [s])[..|past|] == past;
  }

  /**
   Main result: after any sequence of saves, the retained ones are the longest suffix of the accepted ones whose
   total size fits: eviction never drops a save that could have stayed.
   */
  lemma {:induction false} KeptIsLongestSuffix(saves: seq<Save>, max: int)
    ensures LongestFitting(AcceptedOf(saves, max), Evicted(saves, max), saves, max)
  {
    hide TotalFrom, Evict, SizeOf, AcceptedOf, Evicted, LongestFitting;
    if saves == [] {
      NothingFits(max);
    } else {
      var n := |saves| - 1;
      var past := saves[..n];
      KeptIsLongestSuffix(past, max);
      assert saves == past + [saves[n]];
      AcceptedStep(past, saves[n], max);
      if Accepted(n, saves[n], max) {
        StoringKeepsLongest(AcceptedOf(past, max), Evicted(past, max), past, saves[n], max);
      } else {
        LongestStable(AcceptedOf(past, max), Evicted(past, max), past, saves, max);
      }
    }
  }

  lemma NothingFits(max: int)
    ensures LongestFitting(AcceptedOf([], max), Evicted([], max), [], max)
  {
  }

  lemma LongestStable(ks: seq<nat>, j: nat, saves: seq<Save>, more: seq<Save>, max: int)
    requires Indexed(ks, saves) && saves <= more && j <= |ks| && LongestFitting(ks, j, saves, max)
    ensures Indexed(ks, more) && LongestFitting(ks, j, more, max)
  {
    hide TotalFrom;
    TotalStable(ks, j, saves, more);
    if j > 0 {
      TotalStable(ks, j - 1, saves, more);
    }
  }

  /** Making room and then adding one keeps the longest suffix that fits. */
  lemma StoringKeepsLongest(ks: seq<nat>, j: nat, past: seq<Save>, s: Save, max: int)
    requires Indexed(ks, past) && j <= |ks| && LongestFitting(ks, j, past, max) && Accepted(|past|, s, max)
    ensures var k := Evict(ks, j, past + [s], max - SizeOf(|past|, s));
            Indexed(ks + [|past|], past + [s]) && LongestFitting(ks + [|past|], k, past + [s], max)
  {
    hide TotalFrom, Evict, SizeOf;
    var n, saves := |past|, past + [s];
    var k := Evict(ks, j, saves, max - SizeOf(n, s));
    LongestStable(ks, j, past, saves, max);
    EvictStops(ks, j, saves, max - SizeOf(n, s));
    TotalAppend(ks, k, n, saves);
    EmptyTotal(ks, saves);
    if k > 0 {
      TotalAppend(ks, k - 1, n, saves);
    }
  }

  lemma EmptyTotal(ks: seq<nat>, saves: seq<Save>)
    requires Indexed(ks, saves)
    ensures TotalFrom(ks, |ks|, saves) == 0
  {
  }

  // ---- What the fields hold ----

  /** Save `i` is among those retained. */
  predicate Live(i: int, ks: seq<nat>, j: nat) {
    exists k :: j <= k < |ks| && ks[k] == i
  }

  ghost predicate OrderOk(order: seq<string>, ks: seq<nat>, j: nat)
    requires j <= |ks|
  {
    && |order| == |ks| - j
    && forall k | 0 <= k < |order| :: order[k] == RefName(ks[j + k] + 1)
  }

  ghost predicate Owned(r: string, ks: seq<nat>, j: nat) {
    exists k :: j <= k < |ks| && r == RefName(ks[k] + 1)
  }

  ghost predicate Holds(outputs: map<string, Stored>, i: nat, s: Save) {
    RefName(i + 1) in outputs && outputs[RefName(i + 1)] == Stored(s, SizeOf(i, s))
  }

  /** The map holds the retained saves under their references, and nothing else. */
  ghost predicate OutputsOk(outputs: map<string, Stored>, saves: seq<Save>, ks: seq<nat>, j: nat)
    requires Indexed(ks, saves)
  {
    && (forall r | r in outputs :: Owned(r, ks, j))
    && (forall k | j <= k < |ks| :: Holds(outputs, ks[k], saves[ks[k]]))
  }

  /** A call has a reference exactly when its latest save is retained, and it is that save's. */
  ghost predicate CallRefsOk(callRefs: map<string, string>, saves: seq<Save>, ks: seq<nat>, j: nat) {
    && (forall c :: c in callRefs <==> c != [] && Live(Latest(saves, c), ks, j))
    && (forall c | c in callRefs :: Latest(saves, c) >= 0 && callRefs[c] == RefName(Latest(saves, c) + 1))
  }

  /** A call is compactable exactly when its latest save exceeds the bound on visible outputs. */
  ghost predicate CompactableOk(compactable: set<string>, saves: seq<Save>) {
    forall c :: c in compactable <==>
        c != [] && Latest(saves, c) >= 0 && |saves[Latest(saves, c)].output| > MAX_TOOL_OUTPUT_BYTES
  }

  lemma LatestAppend(saves: seq<Save>, s: Save, c: string)
    ensures Latest(saves + [s], c) == if s.callID == c then |saves| else Latest(saves, c)
  {
    assert (saves + [s])[..|saves|] == saves;
  }

  lemma LiveAfterEvicting(ks: seq<nat>, j: nat)
    requires j < |ks| && forall i, k | 0 <= i < k < |ks| :: ks[i] < ks[k]
    ensures forall i :: Live(i, ks, j + 1) <==> Live(i, ks, j) && i != ks[j]
  {
    forall i | Live(i, ks, j) && i != ks[j] ensures Live(i, ks, j + 1) {
      var k :| j <= k < |ks| && ks[k] == i;
    }
  }

  lemma LiveAfterAdding(ks: seq<nat>, j: nat, n: nat)
    requires j <= |ks|
    ensures forall i :: Live(i, ks + [n], j) <==> Live(i, ks, j) || i == n
  {
    forall i | Live(i, ks, j) || i == n ensures Live(i, ks + [n], j) {
      if i == n {
        assert (ks + [n])[|ks|] == n;
      } else {
        var k :| j <= k < |ks| && ks[k] == i;
        assert (ks + [n])[k] == i;
      }
    }
    forall i | Live(i, ks + [n], j) ensures Live(i, ks, j) || i == n {
      var k :| j <= k < |ks + [n]| && (ks + [n])[k] == i;
      if k < |ks| {
        assert ks[k] == i;
      }
    }
  }

  /** Taking the oldest output out of the maps. */
  lemma EvictingOne(outputs: map<string, Stored>, callRefs: map<string, string>, order: seq<string>, saves: seq<Save>,
      ks: seq<nat>, j: nat)
    requires j < |ks| && Indexed(ks, saves) && forall i, k | 0 <= i < k < |ks| :: ks[i] < ks[k]
    requires OrderOk(order, ks, j) && OutputsOk(outputs, saves, ks, j) && CallRefsOk(callRefs, saves, ks, j)
    ensures order[0] in outputs
    ensures var c := outputs[order[0]].save.callID;
            && OrderOk(order[1..], ks, j + 1)
            && OutputsOk(outputs - {order[0]}, saves, ks, j + 1)
            && CallRefsOk(if c != [] && c in callRefs && callRefs[c] == order[0] then callRefs - {c}
              else callRefs, saves, ks, j + 1)
  {
    hide RefName, SizeOf, Live, Latest;
    var i := ks[j];
    var c := saves[i].callID;
    LiveAfterEvicting(ks, j);
    forall k | j < k < |ks| ensures RefName(ks[k] + 1) != order[0] {
      if RefName(ks[k] + 1) == order[0] {
        RefsDiffer(ks[k] + 1, i + 1);
      }
    }
    assert outputs[order[0]].save == saves[i];
    LiveIs(i, ks, j);
    forall d | d in callRefs && d != [] ensures (callRefs[d] == order[0] <==> Latest(saves, d) == i) {
      if callRefs[d] == order[0] {
        RefsDiffer(Latest(saves, d) + 1, i + 1);
      }
    }
  }

  lemma LiveIs(i: nat, ks: seq<nat>, j: nat)
    requires j < |ks| && ks[j] == i
    ensures Live(i, ks, j)
  {
  }

  /** Putting a new output in. */
  lemma AddingToOrder(order: seq<string>, ks: seq<nat>, j: nat, n: nat)
    requires j <= |ks| && OrderOk(order, ks, j)
    ensures OrderOk(order + [RefName(n + 1)], ks + [n], j)
  {
    hide RefName;
  }

  lemma AddingToOutputs(outputs: map<string, Stored>, saves: seq<Save>, ks: seq<nat>, j: nat, s: Save)
    requires j <= |ks| && Indexed(ks, saves) && OutputsOk(outputs, saves, ks, j)
    ensures Indexed(ks + [|saves|], saves + [s])
    ensures OutputsOk(outputs[RefName(|saves| + 1) := Stored(s, SizeOf(|saves|, s))], saves + [s], ks + [|saves|], j)
  {
    hide Owned, Holds, RefName, SizeOf;
    var n, all, ref := |saves|, ks + [|saves|], RefName(|saves| + 1);
    var more := outputs[ref := Stored(s, SizeOf(n, s))];
    forall r | r in more ensures Owned(r, all, j) {
      OwnedAfterAdding(r, ks, j, n);
    }
    forall k | j <= k < |all| ensures Holds(more, all[k], (saves + [s])[all[k]]) {
      if k < |ks| {
        HoldsAfterAdding(outputs, ks[k], saves[ks[k]], n, s);
      } else {
        HoldsNew(outputs, n, s);
      }
    }
  }

  lemma OwnedAfterAdding(r: string, ks: seq<nat>, j: nat, n: nat)
    requires j <= |ks|
    ensures Owned(r, ks, j) || r == RefName(n + 1) ==> Owned(r, ks + [n], j)
  {
    hide RefName;
    if r == RefName(n + 1) {
      assert (ks + [n])[|ks|] == n;
    } else if Owned(r, ks, j) {
      var k :| j <= k < |ks| && r == RefName(ks[k] + 1);
      assert (ks + [n])[k] == ks[k];
    }
  }

  lemma HoldsAfterAdding(outputs: map<string, Stored>, i: nat, past: Save, n: nat, s: Save)
    requires Holds(outputs, i, past) && i < n
    ensures Holds(outputs[RefName(n + 1) := Stored(s, SizeOf(n, s))], i, past)
  {
    hide RefName, SizeOf;
    if RefName(i + 1) == RefName(n + 1) {
      RefsDiffer(i + 1, n + 1);
    }
  }

  lemma HoldsNew(outputs: map<string, Stored>, n: nat, s: Save)
    ensures Holds(outputs[RefName(n + 1) := Stored(s, SizeOf(n, s))], n, s)
  {
  }

  lemma AddingToCallRefs(callRefs: map<string, string>, saves: seq<Save>, ks: seq<nat>, j: nat, s: Save)
    requires j <= |ks| && Indexed(ks, saves) && CallRefsOk(callRefs, saves, ks, j)
    ensures CallRefsOk(if s.callID != [] then callRefs[s.callID := RefName(|saves| + 1)] else callRefs,
                       saves + [s], ks + [|saves|], j)
  {
    hide RefName, SizeOf, Live, Latest;
    LiveAfterAdding(ks, j, |saves|);
    forall c ensures Latest(saves + [s], c) == if s.callID == c then |saves| else Latest(saves, c) {
      LatestAppend(saves, s, c);
    }
    NewIsNotLive(ks, j, saves);
  }

  lemma NewIsNotLive(ks: seq<nat>, j: nat, saves: seq<Save>)
    requires Indexed(ks, saves)
    ensures !Live(|saves|, ks, j)
  {
  }

  /** Turning an oversized output down: the call loses its reference, so it never points at an earlier result. */
  lemma TurningDown(outputs: map<string, Stored>, callRefs: map<string, string>, saves: seq<Save>, ks: seq<nat>,
      j: nat, s: Save)
    requires j <= |ks| && Indexed(ks, saves)
    requires OutputsOk(outputs, saves, ks, j) && CallRefsOk(callRefs, saves, ks, j)
    ensures Indexed(ks, saves + [s])
    ensures OutputsOk(outputs, saves + [s], ks, j)
    ensures CallRefsOk(callRefs - {s.callID}, saves + [s], ks, j)
  {
    hide RefName, SizeOf, Live, Latest;
    forall c ensures Latest(saves + [s], c) == if s.callID == c then |saves| else Latest(saves, c) {
      LatestAppend(saves, s, c);
    }
    NewIsNotLive(ks, j, saves);
  }

  lemma Recompacting(compactable: set<string>, saves: seq<Save>, s: Save)
    requires CompactableOk(compactable, saves)
    ensures CompactableOk(if s.callID == [] then compactable
                          else if |s.output| > MAX_TOOL_OUTPUT_BYTES then compactable + {s.callID}
                          else compactable - {s.callID}, saves + [s])
  {
    hide Latest;
    forall c ensures Latest(saves + [s], c) == if s.callID == c then |saves| else Latest(saves, c) {
      LatestAppend(saves, s, c);
    }
  }

  /** All fields but the counter of references, against the history. */
  ghost predicate FieldsOk(totalBytes: int, outputs: map<string, Stored>, callRefs: map<string, string>,
      order: seq<string>,
                           saves: seq<Save>, ks: seq<nat>, j: nat)
    requires Indexed(ks, saves)
  {
    && j <= |ks|
    && totalBytes == TotalFrom(ks, j, saves)
    && OrderOk(order, ks, j) && OutputsOk(outputs, saves, ks, j) && CallRefsOk(callRefs, saves, ks, j)
  }

  // ---- What callers are told ----

  /** What the history rewriter may do with a call's visible result. */
  datatype Compaction = Keep | Refer(ref: string) | Discard

  /** Calls whose latest output was long are compacted, to its reference while it is retained. */
  function CompactionOf(saves: seq<Save>, max: int, call: string): Compaction {
    var i := Latest(saves, call);
    if call == [] || i < 0 || |saves[i].output| <= MAX_TOOL_OUTPUT_BYTES then Keep
    else if exists k | Evicted(saves, max) <= k < |AcceptedOf(saves, max)| :: AcceptedOf(saves, max)[k] == i
    then Refer(RefName(i + 1))
    else Discard
  }

  /** The output `ref` still gives. */
  ghost predicate Resolves(saves: seq<Save>, max: int, ref: string, output: string) {
    exists i: nat :: i < |saves| && Live(i, AcceptedOf(saves, max), Evicted(saves, max)) && ref == RefName(i + 1)
        && saves[i].output == output
  }

  /** What has just been accepted is retained, and its reference gives it. */
  lemma NewestResolves(saves: seq<Save>, s: Save, max: int)
    requires Accepted(|saves|, s, max)
    ensures Resolves(saves + [s], max, RefName(|saves| + 1), s.output)
  {
    hide AcceptedOf, Evicted, RefName, Accepted;
    AcceptedStep(saves, s, max);
    var ks := AcceptedOf(saves + [s], max);
    assert ks[|ks| - 1] == |saves| && Evicted(saves + [s], max) <= |ks| - 1;
    assert Live(|saves|, ks, Evicted(saves + [s], max));
    assert (saves + [s])[|saves|] == s;
  }

  /** A reference offered in place of a result gives that call's latest output in full. */
  lemma OfferedRefResolves(saves: seq<Save>, max: int, call: string)
    ensures var c := CompactionOf(saves, max, call);
            c.Refer? ==> Latest(saves, call) >= 0 && Resolves(saves, max, c.ref, saves[Latest(saves, call)].output)
  {
    hide AcceptedOf, Evicted, RefName, Latest;
    var i := Latest(saves, call);
    if CompactionOf(saves, max, call).Refer? {
      assert Live(i, AcceptedOf(saves, max), Evicted(saves, max));
    }
  }

  /** One reference never gives two outputs. */
  lemma ResolvesToOne(saves: seq<Save>, max: int, ref: string, a: string, b: string)
    requires Resolves(saves, max, ref, a) && Resolves(saves, max, ref, b)
    ensures a == b
  {
    hide AcceptedOf, Evicted, RefName, Live;
    var i: nat :| i < |saves| && ref == RefName(i + 1) && saves[i].output == a;
    var j: nat :| j < |saves| && ref == RefName(j + 1) && saves[j].output == b;
    RefsDiffer(i + 1, j + 1);
  }

  // ---- The catalog ----

  function Line(ref: string, s: Stored): string {
    "- " + ref + ": " + s.save.toolName + " " + s.save.args + "\n"
  }

  /** The lines of the outputs whose tool is known, newest first. */
  function Lines(order: seq<string>, outputs: map<string, Stored>): seq<string> {
    if order == [] then []
    else
      var ref := order[|order| - 1];
      (if ref in outputs && outputs[ref].save.toolName != [] then [Line(ref, outputs[ref])] else [])
      + Lines(order[..|order| - 1], outputs)
  }

  /** The reference a line of the catalog names: what stands between its first blank and its first colon after that. */
  function RefIn(line: string): string {
    Before(Beyond(line, ' '), ':')
  }

  lemma LineNamesRef(i: nat, s: Stored)
    ensures RefIn(Line(RefName(i), s)) == RefName(i)
  {
    hide Before, Beyond, RefName;
    RefIsPlain(i);
    var rest := " " + s.save.toolName + " " + s.save.args + "\n";
    assert Line(RefName(i), s) == "-" + [' '] + (RefName(i) + [':'] + rest);
    SplitsAt("-", ' ', RefName(i) + [':'] + rest);
    SplitsAt(RefName(i), ':', rest);
  }

  /** The line is that of save `i`, and names the reference it is retained by. */
  ghost predicate LineOf(line: string, i: nat, saves: seq<Save>) {
    i < |saves| && saves[i].toolName != []
    && line == Line(RefIn(line), Stored(saves[i], SizeOf(i, saves[i]))) && RefIn(line) == RefName(i + 1)
  }

  /** The lines are those of the saves numbered `of`: of known tools, the newest first. */
  ghost predicate LinesOf(lines: seq<string>, of: seq<nat>, saves: seq<Save>) {
    && |lines| == |of|
    && (forall a, b | 0 <= a < b < |of| :: of[b] < of[a])
    && forall a | 0 <= a < |of| :: LineOf(lines[a], of[a], saves)
  }

  /** Those retained, of known tools. */
  ghost predicate RetainedKnown(of: seq<nat>, saves: seq<Save>, ks: seq<nat>, j: nat)
    requires Indexed(ks, saves)
  {
    forall i :: i in of <==> exists k :: j <= k < |ks| && ks[k] == i && saves[i].toolName != []
  }

  /** The catalog names the retained outputs of known tools, each by its own reference, newest first. */
  lemma {:induction false} LinesNameRetained(order: seq<string>, outputs: map<string, Stored>, saves: seq<Save>,
      ks: seq<nat>, j: nat) returns (of: seq<nat>)
    requires j <= |ks| && Indexed(ks, saves) && OrderOk(order, ks, j)
    requires forall k | j <= k < |ks| :: Holds(outputs, ks[k], saves[ks[k]])
    requires forall a, b | 0 <= a < b < |ks| :: ks[a] < ks[b]
    ensures LinesOf(Lines(order, outputs), of, saves) && RetainedKnown(of, saves, ks, j)
    decreases |order|
  {
    hide RefName, SizeOf, Line, LineOf, LinesOf, Lines, RetainedKnown;
    of := [];
    LinesStep(order, outputs);
    if order == [] {
      NothingRetained(saves, ks, j);
    } else {
      var n, last := |order| - 1, |ks| - 1;
      var fewer := LinesNameRetained(order[..n], outputs, saves, ks[..last], j);
      var i := ks[last];
      assert Holds(outputs, i, saves[i]) && order[n] == RefName(i + 1);
      KnownBefore(fewer, saves, ks, j);
      of := (if saves[i].toolName != [] then [i] else []) + fewer;
      OneMoreLine(Lines(order[..n], outputs), fewer, i, saves);
      OneMoreKnown(of, fewer, saves, ks, j);
    }
  }

  lemma LinesStep(order: seq<string>, outputs: map<string, Stored>)
    ensures order != [] ==>
              var ref := order[|order| - 1];
              Lines(order, outputs) ==
              (if ref in outputs && outputs[ref].save.toolName != [] then [Line(ref, outputs[ref])] else [])
              + Lines(order[..|order| - 1], outputs)
    ensures order == [] ==> Lines(order, outputs) == []
  {
    hide Line;
  }

  lemma OneMoreLine(lines: seq<string>, fewer: seq<nat>, i: nat, saves: seq<Save>)
    requires LinesOf(lines, fewer, saves) && i < |saves| && forall a | 0 <= a < |fewer| :: fewer[a] < i
    ensures var line := Line(RefName(i + 1), Stored(saves[i], SizeOf(i, saves[i])));
            if saves[i].toolName != [] then LinesOf([line] + lines, [i] + fewer, saves)
            else LinesOf([] + lines, [] + fewer, saves)
  {
    hide RefName, SizeOf, Line, LineOf;
    if saves[i].toolName != [] {
      LineIsOf(i, saves);
    } else {
      assert [] + lines == lines && [] + fewer == fewer;
    }
  }

  lemma LineIsOf(i: nat, saves: seq<Save>)
    requires i < |saves| && saves[i].toolName != []
    ensures LineOf(Line(RefName(i + 1), Stored(saves[i], SizeOf(i, saves[i]))), i, saves)
  {
    hide RefName, SizeOf, Line, RefIn;
    LineNamesRef(i + 1, Stored(saves[i], SizeOf(i, saves[i])));
  }

  lemma NothingRetained(saves: seq<Save>, ks: seq<nat>, j: nat)
    requires Indexed(ks, saves) && j >= |ks|
    ensures RetainedKnown([], saves, ks, j) && LinesOf([], [], saves)
  {
  }

  /** What is known of the older ones is older than the newest. */
  lemma KnownBefore(fewer: seq<nat>, saves: seq<Save>, ks: seq<nat>, j: nat)
    requires ks != [] && Indexed(ks, saves) && RetainedKnown(fewer, saves, ks[..|ks| - 1], j)
    requires forall a, b | 0 <= a < b < |ks| :: ks[a] < ks[b]
    ensures forall a | 0 <= a < |fewer| :: fewer[a] < ks[|ks| - 1]
  {
    forall a | 0 <= a < |fewer| ensures fewer[a] < ks[|ks| - 1] {
      assert fewer[a] in fewer;
    }
  }

  lemma OneMoreKnown(of: seq<nat>, fewer: seq<nat>, saves: seq<Save>, ks: seq<nat>, j: nat)
    requires j < |ks| && Indexed(ks, saves) && RetainedKnown(fewer, saves, ks[..|ks| - 1], j)
    requires of == (if saves[ks[|ks| - 1]].toolName != [] then [ks[|ks| - 1]] else []) + fewer
    ensures RetainedKnown(of, saves, ks, j)
  {
    var most, last := ks[..|ks| - 1], |ks| - 1;
    forall i ensures i in of <==> exists k :: j <= k < |ks| && ks[k] == i && saves[i].toolName != [] {
      if i in fewer {
        var k :| j <= k < |most| && most[k] == i && saves[i].toolName != [];
        assert ks[k] == i;
      }
      if k :| j <= k < |ks| && ks[k] == i && saves[i].toolName != [] {
        assert k < last ==> most[k] == i;
      }
    }
  }

  /** Lines from the front, until one does not fit. */
  function Listing(lines: seq<string>, room: int): string {
    if lines == [] || |lines[0]| > room then [] else lines[0] + Listing(lines[1..], room - |lines[0]|)
  }

  function Joined(lines: seq<string>): string {
    if lines == [] then [] else lines[0] + Joined(lines[1..])
  }

  /** `m` lines fit, and one more would not. */
  ghost predicate FitsUpTo(lines: seq<string>, room: int, m: nat)
    requires m <= |lines|
  {
    && (m > 0 ==> |Joined(lines[..m])| <= room)
    && (m < |lines| ==> |Joined(lines[..m + 1])| > room)
  }

  lemma JoinedCons(line: string, lines: seq<string>, m: nat)
    requires m <= |lines|
    ensures Joined(([line] + lines)[..m + 1]) == line + Joined(lines[..m])
  {
    assert ([line] + lines)[..m + 1] == [line] + lines[..m];
  }

  /** The catalog is the longest run of newest lines that fits its budget. */
  lemma {:induction false} ListingIsLongest(lines: seq<string>, room: int) returns (m: nat)
    ensures m <= |lines| && Listing(lines, room) == Joined(lines[..m]) && FitsUpTo(lines, room, m)
  {
    if lines == [] {
      m := 0;
    } else if |lines[0]| > room {
      m := 0;
      assert lines == [lines[0]] + lines[1..];
      JoinedCons(lines[0], lines[1..], 0);
    } else {
      hide Joined;
      m := ListingIsLongest(lines[1..], room - |lines[0]|);
      assert lines == [lines[0]] + lines[1..];
      JoinedCons(lines[0], lines[1..], m);
      if m < |lines[1..]| {
        JoinedCons(lines[0], lines[1..], m + 1);
      }
      NothingJoined();
      m := m + 1;
    }
  }

  lemma NothingJoined()
    ensures Joined([]) == []
  {
  }

  /** The sizes stored with the references of `order`, added up. */
  ghost function SizesOf(order: seq<string>, outputs: map<string, Stored>): nat {
    if order == [] then 0
        else (if order[0] in outputs then outputs[order[0]].size else 0) + SizesOf(order[1..], outputs)
  }

  lemma {:induction false} SizesAddUp(outputs: map<string, Stored>, order: seq<string>, saves: seq<Save>,
      ks: seq<nat>, j: nat)
    requires j <= |ks| && Indexed(ks, saves) && OrderOk(order, ks, j)
    requires forall k | j <= k < |ks| :: Holds(outputs, ks[k], saves[ks[k]])
    ensures SizesOf(order, outputs) == TotalFrom(ks, j, saves)
    decreases |order|
  {
    hide RefName, SizeOf;
    if order != [] {
      assert Holds(outputs, ks[j], saves[ks[j]]);
      SizesAddUp(outputs, order[1..], saves, ks, j + 1);
    }
  }

  class Store {
    const maxBytes: int
    var nextRef: nat
    var totalBytes: int
    var outputs: map<string, Stored>
    var callRefs: map<string, string>
    var compactable: set<string>
    var order: seq<string>
    ghost var saves: seq<Save>

    ghost function Kept(): seq<nat>
      reads this
    {
      AcceptedOf(saves, maxBytes)
    }

    ghost function Dropped(): nat
      reads this
    {
      Evicted(saves, maxBytes)
    }

    ghost predicate Valid()
      reads this
    {
      && nextRef == |saves|
      && FieldsOk(totalBytes, outputs, callRefs, order, saves, Kept(), Dropped())
      && CompactableOk(compactable, saves)
    }

    constructor (max: int)
      ensures Valid() && saves == [] && maxBytes == max
    {
      maxBytes := max;
      nextRef, totalBytes := 0, 0;
      outputs, callRefs, compactable, order := map[], map[], {}, [];
      saves := [];
    }

    /**
     Records one more save. An output too large for the whole budget is turned down; any other is stored, after the
     oldest ones have made room.
     */
    method SaveCall(callID: string, toolName: string, args: string, output: string) returns (ref: string)
      requires Valid()
      modifies this
      ensures Valid()
      ensures saves == old(saves) + [Save(callID, toolName, args, output)]
      ensures ref == if Accepted(|old(saves)|, Save(callID, toolName, args, output), maxBytes) then RefName(|saves|)
              else []
    {
      hide TotalFrom, Evict, AcceptedOf, Evicted, OrderOk, OutputsOk, CallRefsOk, CompactableOk, RefName;
      ghost var past := saves;
      var s := Save(callID, toolName, args, output);
      ghost var more, ks := past + [s], Kept();
      AcceptedStep(past, s, maxBytes);
      if callID != "" {
        if |output| > MAX_TOOL_OUTPUT_BYTES {
          compactable := compactable + {callID};
        } else {
          compactable := compactable - {callID};
        }
      }
      Recompacting(old(compactable), past, s);
      nextRef := nextRef + 1;
      ref := RefName(nextRef);
      var entrySize := |ref| + |callID| + |toolName| + |args| + |output|;
      if entrySize > maxBytes {
        TurningDown(outputs, callRefs, past, ks, Dropped(), s);
        TotalStable(ks, Dropped(), past, more);
        callRefs := callRefs - {callID};
        saves := more;
        return "";
      }
      ghost var j := MakeRoom(entrySize, s);
      AddingToOrder(order, ks, j, |past|);
      AddingToOutputs(outputs, past, ks, j, s);
      AddingToCallRefs(callRefs, past, ks, j, s);
      TotalStable(ks, j, past, more);
      TotalAppend(ks, j, |past|, more);
      outputs := outputs[ref := Stored(s, entrySize)];
      order := order + [ref];
      totalBytes := totalBytes + entrySize;
      if callID != "" {
        callRefs := callRefs[callID := ref];
      }
      saves := more;
    }

    /** The eviction loop: oldest first, while the new entry does not fit. */
    method MakeRoom(entrySize: nat, ghost s: Save) returns (ghost j: nat)
      requires FieldsOk(totalBytes, outputs, callRefs, order, saves, Kept(), Dropped())
      modifies this`totalBytes, this`outputs, this`callRefs, this`order
      ensures j == Evict(Kept(), Dropped(), saves + [s], maxBytes - entrySize)
      ensures FieldsOk(totalBytes, outputs, callRefs, order, saves, Kept(), j)
    {
      hide AcceptedOf, Evicted, TotalFrom, OutputsOk, CallRefsOk, RefName, SizeOf;
      ghost var ks, more, budget := Kept(), saves + [s], maxBytes - entrySize;
      j := Dropped();
      TotalStable(ks, j, saves, more);
      while totalBytes + entrySize > maxBytes && |order| > 0
        invariant FieldsOk(totalBytes, outputs, callRefs, order, saves, ks, j)
        invariant TotalFrom(ks, j, more) == totalBytes
        invariant Evict(ks, j, more, budget) == Evict(ks, Dropped(), more, budget)
        decreases |order|
      {
        var oldest := order[0];
        EvictingOne(outputs, callRefs, order, saves, ks, j);
        EvictedSize(outputs, order, saves, ks, j);
        TotalStable(ks, j + 1, saves, more);
        order := order[1..];
        var stored := outputs[oldest];
        outputs := outputs - {oldest};
        totalBytes := totalBytes - stored.size;
        if stored.save.callID != "" && stored.save.callID in callRefs && callRefs[stored.save.callID] == oldest {
          callRefs := callRefs - {stored.save.callID};
        }
        j := j + 1;
      }
    }

    method RefForCall(callID: string) returns (ref: string, ok: bool)
      requires Valid()
      ensures ok <==> callID != [] && Live(Latest(saves, callID), Kept(), Dropped())
      ensures ok ==> Latest(saves, callID) >= 0 && ref == RefName(Latest(saves, callID) + 1)
    {
      hide Live, Latest, AcceptedOf, Evicted;
      ok := callID in callRefs;
      ref := if ok then callRefs[callID] else "";
    }

    /** The three results say what `CompactionOf` the history says. */
    method CompactionForCall(callID: string) returns (ref: string, isCompactable: bool, retained: bool)
      requires Valid()
      ensures isCompactable <==> CompactionOf(saves, maxBytes, callID) != Keep
      ensures retained <==> CompactionOf(saves, maxBytes, callID).Refer?
      ensures ref == if retained then CompactionOf(saves, maxBytes, callID).ref else []
    {
      hide RefName, Latest, AcceptedOf, Evicted, SizeOf, Owned;
      isCompactable := callID in compactable;
      if !isCompactable {
        return "", false, false;
      }
      retained := callID in callRefs;
      if !retained {
        return "", true, false;
      }
      ref := callRefs[callID];
      ghost var k :| Dropped() <= k < |Kept()| && Kept()[k] == Latest(saves, callID);
      assert Holds(outputs, Kept()[k], saves[Kept()[k]]);
      retained := ref in outputs;
    }

    /** The full output a reference stands for, while it is retained. */
    method Get(ref: string) returns (value: string, ok: bool)
      requires Valid()
      ensures ok <==> exists output :: Resolves(saves, maxBytes, ref, output)
      ensures ok ==> Resolves(saves, maxBytes, ref, value)
    {
      hide RefName, AcceptedOf, Evicted, SizeOf;
      ok := ref in outputs;
      value := if ok then outputs[ref].save.output else "";
      StoredIsResolved(outputs, saves, maxBytes, ref);
    }

    /** The retained outputs' lines, newest first, while they fit. */
    method Catalog(max: int) returns (result: string)
      ensures result == Listing(Lines(order, outputs), max)
    {
      hide Line, Listing, Lines;
      result := "";
      var i := |order|;
      assert order[..i] == order;
      while i > 0
        invariant 0 <= i <= |order|
        invariant result + Listing(Lines(order[..i], outputs), max - |result|) == Listing(Lines(order, outputs), max)
      {
        i := i - 1;
        var ref := order[i];
        ListingStep(order, i, outputs, result, max);
        if ref !in outputs || outputs[ref].save.toolName == "" {
          continue;
        }
        var line := Line(ref, outputs[ref]);
        if |result| + |line| > max {
          return;
        }
        result := result + line;
      }
      EmptyListing(outputs, max - |result|);
    }

    /** The lines `Catalog` lists from, told from the history of saves. */
    lemma CatalogNamesRetained() returns (of: seq<nat>)
      requires Valid()
      ensures LinesOf(Lines(order, outputs), of, saves) && RetainedKnown(of, saves, Kept(), Dropped())
    {
      hide RefName, AcceptedOf, Evicted, SizeOf, Line, LinesOf, RetainedKnown;
      of := LinesNameRetained(order, outputs, saves, Kept(), Dropped());
    }

    /**
     What `Valid` says of the fields alone: the order lists each stored reference once, the charged sizes add up and
     fit, and a call's reference is stored and belongs to that call's latest save.
     */
    lemma IndexInvariant()
      requires Valid()
      ensures forall r :: r in order <==> r in outputs
      ensures forall i, k | 0 <= i < k < |order| :: order[i] != order[k]
      ensures totalBytes == SizesOf(order, outputs) && (order != [] ==> totalBytes <= maxBytes)
      ensures forall c | c in callRefs ::
                callRefs[c] in outputs && Latest(saves, c) >= 0 && outputs[callRefs[c]].save == saves[Latest(saves, c)]
    {
      hide RefName, Latest, AcceptedOf, Evicted, SizeOf, TotalFrom;
      KeptIsLongestSuffix(saves, maxBytes);
      var ks, j := Kept(), Dropped();
      SizesAddUp(outputs, order, saves, ks, j);
      OrderIsDomain(outputs, order, saves, ks, j);
      forall c | c in callRefs
        ensures callRefs[c] in outputs && Latest(saves, c) >= 0 && outputs[callRefs[c]].save == saves[Latest(saves, c)]
      {
        CallRefIsStored(outputs, callRefs, saves, ks, j, c);
      }
    }
  }

  lemma OrderIsDomain(outputs: map<string, Stored>, order: seq<string>, saves: seq<Save>, ks: seq<nat>, j: nat)
    requires j <= |ks| && Indexed(ks, saves) && OrderOk(order, ks, j) && OutputsOk(outputs, saves, ks, j)
    requires forall i, k | 0 <= i < k < |ks| :: ks[i] < ks[k]
    ensures forall r :: r in order <==> r in outputs
    ensures forall i, k | 0 <= i < k < |order| :: order[i] != order[k]
  {
    hide RefName, SizeOf;
    forall i | 0 <= i < |order| ensures order[i] in outputs {
      assert Holds(outputs, ks[j + i], saves[ks[j + i]]);
    }
    forall r | r in outputs ensures r in order {
      assert Owned(r, ks, j);
      var k :| j <= k < |ks| && r == RefName(ks[k] + 1);
      assert order[k - j] == r;
    }
    forall i, k | 0 <= i < k < |order| ensures order[i] != order[k] {
      if order[i] == order[k] {
        RefsDiffer(ks[j + i] + 1, ks[j + k] + 1);
      }
    }
  }

  lemma CallRefIsStored(outputs: map<string, Stored>, callRefs: map<string, string>, saves: seq<Save>, ks: seq<nat>,
      j: nat, c: string)
    requires j <= |ks| && Indexed(ks, saves) && OutputsOk(outputs, saves, ks, j) && CallRefsOk(callRefs, saves, ks, j)
    requires c in callRefs
    ensures callRefs[c] in outputs && Latest(saves, c) >= 0 && outputs[callRefs[c]].save == saves[Latest(saves, c)]
  {
    hide RefName, SizeOf, Latest, Owned;
    var k :| j <= k < |ks| && ks[k] == Latest(saves, c);
    assert Holds(outputs, ks[k], saves[ks[k]]);
  }

  lemma StoredIsResolved(outputs: map<string, Stored>, saves: seq<Save>, max: int, ref: string)
    requires OutputsOk(outputs, saves, AcceptedOf(saves, max), Evicted(saves, max))
    ensures ref in outputs ==> Resolves(saves, max, ref, outputs[ref].save.output)
    ensures ref in outputs <==> exists output :: Resolves(saves, max, ref, output)
  {
    hide RefName, SizeOf, AcceptedOf, Evicted;
    var ks, j := AcceptedOf(saves, max), Evicted(saves, max);
    if ref in outputs {
      assert Owned(ref, ks, j);
      var k :| j <= k < |ks| && ref == RefName(ks[k] + 1);
      assert Holds(outputs, ks[k], saves[ks[k]]);
      assert Live(ks[k], ks, j);
    }
  }

  /** One turn of the catalog's loop, against the listing of what is left. */
  lemma ListingStep(order: seq<string>, i: nat, outputs: map<string, Stored>, result: string, max: int)
    requires i < |order|
    ensures var ref := order[i];
            var rest := Lines(order[..i], outputs);
            var here := result + Listing(Lines(order[..i + 1], outputs), max - |result|);
            if ref !in outputs || outputs[ref].save.toolName == [] then here == result + Listing(rest, max - |result|)
            else
              var line := Line(ref, outputs[ref]);
              if |result| + |line| > max then here == result
              else here == result + line + Listing(rest, max - |result + line|)
  {
    hide Line;
    var ref, rest := order[i], Lines(order[..i], outputs);
    assert order[..i + 1][..i] == order[..i];
    if ref in outputs && outputs[ref].save.toolName != [] {
      var line := Line(ref, outputs[ref]);
      assert Lines(order[..i + 1], outputs) == [line] + rest;
      assert ([line] + rest)[1..] == rest;
    } else {
      assert Lines(order[..i + 1], outputs) == rest;
    }
  }

  lemma EmptyListing(outputs: map<string, Stored>, room: int)
    ensures forall order: seq<string> | |order| == 0 :: Listing(Lines(order, outputs), room) == []
  {
  }

  lemma EvictedSize(outputs: map<string, Stored>, order: seq<string>, saves: seq<Save>, ks: seq<nat>, j: nat)
    requires j < |ks| && Indexed(ks, saves) && OrderOk(order, ks, j) && OutputsOk(outputs, saves, ks, j)
    ensures order[0] in outputs && TotalFrom(ks, j, saves) == outputs[order[0]].size + TotalFrom(ks, j + 1, saves)
  {
    assert Holds(outputs, ks[j], saves[ks[j]]);
  }
}
