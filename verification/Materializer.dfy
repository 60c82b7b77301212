/**
 `materializeExpressions`: replaces the complete lexer words of an instruction header whose value is fully
 known by a reference to an alias that holds that value. `MaterializeExpressions` is the loop, `Segments` its
 reading of the source, and the theorems say what that reading is and that replacing the words keeps the meaning.
 */
module Materializer {
  import opened References

  datatype Expression = Expression(
    source: string, alias: string, value: string, references: set<string>, unquoted: bool)

  /** A captured word looked at least one variable up, so it is never empty. */
  predicate AllNonEmpty(exprs: seq<Expression>) {
    forall j | 0 <= j < |exprs| :: exprs[j].source != []
  }

  predicate IsBoundary(c: char) {
    c == ' ' || c == '\t' || c == '\r' || c == '\n' || c == '=' || c == ',' || c == '[' || c == ']'
  }

  /** The word stands at the front of `s` and is bounded on its right. */
  predicate Eligible(s: string, e: Expression) {
    e.source <= s && (|e.source| == |s| || IsBoundary(s[|e.source|]))
  }

  /** The first of the longest eligible words among the first `n`, or -1. */
  function BestOf(s: string, exprs: seq<Expression>, n: nat): (m: int)
    requires n <= |exprs|
    ensures -1 <= m < n
    ensures m == -1 <==> forall j | 0 <= j < n :: !Eligible(s, exprs[j])
    ensures m >= 0 ==> IsBest(s, exprs, n, m)
  {
    if n == 0 then -1
    else
      var m := BestOf(s, exprs, n - 1);
      if Eligible(s, exprs[n - 1]) && (m == -1 || |exprs[n - 1].source| > |exprs[m].source|) then n - 1 else m
  }

  /** Among the first `n`, word `m` is eligible, no eligible word is longer, and an earlier one is shorter. */
  ghost predicate IsBest(s: string, exprs: seq<Expression>, n: nat, m: int)
    requires n <= |exprs|
  {
    && 0 <= m < n
    && Eligible(s, exprs[m])
    && forall j | 0 <= j < n && Eligible(s, exprs[j]) ::
         |exprs[j].source| <= |exprs[m].source| && (j < m ==> |exprs[j].source| < |exprs[m].source|)
  }

  /** The word to put in place of the front of `s`, or -1; `prev` says whether a boundary precedes it. */
  function MatchAt(s: string, prev: bool, y: Syntax, q: Quote, exprs: seq<Expression>): (m: int)
    ensures -1 <= m < |exprs|
    ensures m >= 0 ==> Eligible(s, exprs[m])
  {
    if !IsEscapePair(s, y, q) && q == Bare && prev then BestOf(s, exprs, |exprs|) else -1
  }

  datatype Segment = Copied(text: string) | Word(index: nat)

  function Segments(s: string, prev: bool, y: Syntax, q: Quote, exprs: seq<Expression>): (segs: seq<Segment>)
    requires AllNonEmpty(exprs)
    ensures forall k | 0 <= k < |segs| :: segs[k].Word? ==> segs[k].index < |exprs|
    decreases |s|
  {
    if s == [] then []
    else if IsEscapePair(s, y, q) then
      [Copied(s[..2])] + Segments(s[2..], IsBoundary(s[1]), y, q, exprs)
    else
      var m := MatchAt(s, prev, y, q, exprs);
      if m >= 0 then
        var n := |exprs[m].source|;
        [Word(m)] + Segments(s[n..], IsBoundary(s[n - 1]), y, Bare, exprs)
      else
        [Copied(s[..1])] + Segments(s[1..], IsBoundary(s[0]), y, Toggle(s[0], y, q), exprs)
  }

  predicate InRange(segs: seq<Segment>, exprs: seq<Expression>) {
    forall k | 0 <= k < |segs| :: segs[k].Word? ==> segs[k].index < |exprs|
  }

  /** What a segment covers in the source, and what is written for it. */
  function Covers(g: Segment, exprs: seq<Expression>): string
    requires g.Word? ==> g.index < |exprs|
  {
    match g case Copied(t) => t case Word(m) => exprs[m].source
  }

  function Written(g: Segment, exprs: seq<Expression>): string
    requires g.Word? ==> g.index < |exprs|
  {
    match g
    case Copied(t) => t
    case Word(m) => AliasReference(exprs[m])
  }

  function AliasReference(e: Expression): string {
    if e.unquoted then "${" + e.alias + "}" else "\"${" + e.alias + "}\""
  }

  function Restore(segs: seq<Segment>, exprs: seq<Expression>): string
    requires InRange(segs, exprs)
  {
    if segs == [] then [] else Covers(segs[0], exprs) + Restore(segs[1..], exprs)
  }

  function Emit(segs: seq<Segment>, exprs: seq<Expression>): string
    requires InRange(segs, exprs)
  {
    if segs == [] then [] else Written(segs[0], exprs) + Emit(segs[1..], exprs)
  }

  function UsedBy(segs: seq<Segment>, exprs: seq<Expression>): set<string>
    requires InRange(segs, exprs)
  {
    set k | 0 <= k < |segs| && segs[k].Word? :: exprs[segs[k].index].alias
  }

  // ---- The decomposition, stated without the scan ----

  /** Where segment `k` starts in the source. */
  function Offset(segs: seq<Segment>, k: nat, exprs: seq<Expression>): nat
    requires k <= |segs| && InRange(segs, exprs)
  {
    if k == 0 then 0 else |Covers(segs[0], exprs)| + Offset(segs[1..], k - 1, exprs)
  }

  function QuoteAfter(g: Segment, y: Syntax, q: Quote): Quote {
    match g case Copied(t) => (if |t| == 1 then Toggle(t[0], y, q) else q) case Word(_) => q
  }

  /** The quote state before segment `k`. */
  function QuoteAt(segs: seq<Segment>, k: nat, y: Syntax, q: Quote): Quote
    requires k <= |segs|
  {
    if k == 0 then q else QuoteAt(segs[1..], k - 1, y, QuoteAfter(segs[0], y, q))
  }

  predicate BoundaryBefore(s: string, prev: bool, o: nat)
    requires o <= |s|
  {
    if o == 0 then prev else IsBoundary(s[o - 1])
  }

  /**
   Segment `k` is what the source calls for: a word stands outside quotes, is not escaped, is bounded on both
   sides and is the first longest one there; anything else is an escape pair or one character no word starts at.
   */
  ghost predicate SegmentOk(s: string, prev: bool, y: Syntax, q: Quote, exprs: seq<Expression>, segs: seq<Segment>,
      k: nat)
    requires k < |segs| && InRange(segs, exprs)
  {
    var o := Offset(segs, k, exprs);
    var qk := QuoteAt(segs, k, y, q);
    && o <= |s|
    && var open := qk == Bare && BoundaryBefore(s, prev, o);
       var here := s[o..];
       match segs[k]
       case Word(m) => open && !IsEscapePair(here, y, qk) && IsBest(here, exprs, |exprs|, m)
       case Copied(t) =>
         && t <= here
         && if IsEscapePair(here, y, qk) then |t| == 2
            else |t| == 1 && (open ==> forall j | 0 <= j < |exprs| :: !Eligible(here, exprs[j]))
  }

  ghost predicate Decomposes(s: string, prev: bool, y: Syntax, q: Quote, exprs: seq<Expression>, segs: seq<Segment>) {
    && InRange(segs, exprs)
    && Offset(segs, |segs|, exprs) == |s|
    && forall k | 0 <= k < |segs| :: SegmentOk(s, prev, y, q, exprs, segs, k)
  }

  /** Segment `k + 1` of a text is segment `k` of what follows its first segment. */
  lemma SegmentShift(s: string, prev: bool, y: Syntax, q: Quote, exprs: seq<Expression>, g: Segment,
      rest: seq<Segment>, k: nat)
    requires k < |rest| && InRange(rest, exprs) && (g.Word? ==> g.index < |exprs|)
    requires 0 < |Covers(g, exprs)| <= |s|
    ensures InRange([g] + rest, exprs)
    ensures var n := |Covers(g, exprs)|;
            SegmentOk(s, prev, y, q, exprs, [g] + rest, k + 1)
            == SegmentOk(s[n..], IsBoundary(s[n - 1]), y, QuoteAfter(g, y, q), exprs, rest, k)
  {
    hide Offset, QuoteAt, QuoteAfter, Covers, IsBest, Eligible, IsEscapePair, InRange, IsBoundary, BoundaryBefore;
    var segs := [g] + rest;
    ShiftedPlace(y, q, exprs, g, rest, k);
    var n := |Covers(g, exprs)|;
    var o := Offset(rest, k, exprs);
    assert segs[k + 1] == rest[k];
    if n + o <= |s| {
      BoundaryShift(s, prev, n, o);
      assert s[n..][o..] == s[n + o..];
    }
  }

  lemma BoundaryShift(s: string, prev: bool, n: nat, o: nat)
    requires 0 < n && n + o <= |s|
    ensures BoundaryBefore(s, prev, n + o) == BoundaryBefore(s[n..], IsBoundary(s[n - 1]), o)
  {
    hide IsBoundary;
    assert o > 0 ==> s[n..][o - 1] == s[n + o - 1];
  }

  lemma ShiftedPlace(y: Syntax, q: Quote, exprs: seq<Expression>, g: Segment, rest: seq<Segment>, k: nat)
    requires k < |rest| && InRange(rest, exprs) && (g.Word? ==> g.index < |exprs|)
    ensures InRange([g] + rest, exprs)
    ensures Offset([g] + rest, k + 1, exprs) == |Covers(g, exprs)| + Offset(rest, k, exprs)
    ensures QuoteAt([g] + rest, k + 1, y, q) == QuoteAt(rest, k, y, QuoteAfter(g, y, q))
  {
    assert ([g] + rest)[1..] == rest;
  }

  lemma {:induction false} SegmentsDecompose(s: string, prev: bool, y: Syntax, q: Quote, exprs: seq<Expression>)
    requires AllNonEmpty(exprs)
    ensures Decomposes(s, prev, y, q, exprs, Segments(s, prev, y, q, exprs))
    decreases |s|
  {
    hide SegmentOk, Segments;
    if s == [] {
      EmptySegments(prev, y, q, exprs);
    } else {
      var segs := Segments(s, prev, y, q, exprs);
      FirstSegment(s, prev, y, q, exprs);
      var g, rest := segs[0], segs[1..];
      var n := |Covers(g, exprs)|;
      SegmentsDecompose(s[n..], IsBoundary(s[n - 1]), y, QuoteAfter(g, y, q), exprs);
      assert segs == [g] + rest;
      forall k | 0 <= k < |segs| ensures SegmentOk(s, prev, y, q, exprs, segs, k) {
        if k > 0 {
          SegmentShift(s, prev, y, q, exprs, g, rest, k - 1);
        }
      }
    }
  }

  /** The first segment is right, and the scan goes on after it. */
  lemma FirstSegment(s: string, prev: bool, y: Syntax, q: Quote, exprs: seq<Expression>)
    requires AllNonEmpty(exprs) && s != []
    ensures var segs := Segments(s, prev, y, q, exprs);
            && segs != []
            && var n := |Covers(segs[0], exprs)|;
            && 0 < n <= |s| && Covers(segs[0], exprs) == s[..n]
            && SegmentOk(s, prev, y, q, exprs, segs, 0)
            && segs[1..] == Segments(s[n..], IsBoundary(s[n - 1]), y, QuoteAfter(segs[0], y, q), exprs)
  {
    hide BestOf, IsBest;
    assert s[0..] == s;
  }

  /** There is no other decomposition: what the scan finds is forced by the source. */
  lemma {:induction false} DecompositionUnique(
    s: string, prev: bool, y: Syntax, q: Quote, exprs: seq<Expression>, segs: seq<Segment>)
    requires AllNonEmpty(exprs) && Decomposes(s, prev, y, q, exprs, segs)
    ensures segs == Segments(s, prev, y, q, exprs)
    decreases |s|
  {
    hide SegmentOk, Segments;
    if segs == [] {
      assert s == [];
      EmptySegments(prev, y, q, exprs);
    } else {
      var g, rest := segs[0], segs[1..];
      FirstIsForced(s, prev, y, q, exprs, segs);
      FirstSegment(s, prev, y, q, exprs);
      var n := |Covers(g, exprs)|;
      assert segs == [g] + rest;
      assert InRange(rest, exprs) by {
        forall i | 0 <= i < |rest| ensures rest[i].Word? ==> rest[i].index < |exprs| { assert rest[i] == segs[i + 1]; }
      }
      var s', prev', q' := s[n..], IsBoundary(s[n - 1]), QuoteAfter(g, y, q);
      forall k | 0 <= k < |rest| ensures SegmentOk(s', prev', y, q', exprs, rest, k) {
        SegmentShift(s, prev, y, q, exprs, g, rest, k);
        assert SegmentOk(s, prev, y, q, exprs, segs, k + 1);
      }
      DecompositionUnique(s', prev', y, q', exprs, rest);
    }
  }

  lemma EmptySegments(prev: bool, y: Syntax, q: Quote, exprs: seq<Expression>)
    requires AllNonEmpty(exprs)
    ensures Segments([], prev, y, q, exprs) == []
  {
  }

  lemma FirstIsForced(s: string, prev: bool, y: Syntax, q: Quote, exprs: seq<Expression>, segs: seq<Segment>)
    requires AllNonEmpty(exprs) && segs != [] && InRange(segs, exprs) && SegmentOk(s, prev, y, q, exprs, segs, 0)
    ensures s != [] && Segments(s, prev, y, q, exprs) != [] && segs[0] == Segments(s, prev, y, q, exprs)[0]
  {
    assert s[0..] == s;
    if segs[0].Copied? {
      assert segs[0].text == s[..|segs[0].text|];
    }
  }

  /** Putting every word back for its alias restores the source. */
  lemma {:induction false} RestoreSource(s: string, prev: bool, y: Syntax, q: Quote, exprs: seq<Expression>)
    requires AllNonEmpty(exprs)
    ensures Restore(Segments(s, prev, y, q, exprs), exprs) == s
    decreases |s|
  {
    hide SegmentOk, Segments;
    if s == [] {
      EmptySegments(prev, y, q, exprs);
    } else {
      FirstSegment(s, prev, y, q, exprs);
      var g := Segments(s, prev, y, q, exprs)[0];
      var n := |Covers(g, exprs)|;
      RestoreSource(s[n..], IsBoundary(s[n - 1]), y, QuoteAfter(g, y, q), exprs);
      assert s == s[..n] + s[n..];
    }
  }

  // ---- The loop ----

  method MaterializeExpressions(source: string, exprs: seq<Expression>, y: Syntax)
    returns (out: string, used: set<string>)
    requires AllNonEmpty(exprs) && !y.raw
    ensures out == Emit(Segments(source, true, y, Bare, exprs), exprs)
    ensures used == UsedBy(Segments(source, true, y, Bare, exprs), exprs)
  {
    hide Scanned, Segments, Emit, UsedBy, BestOf;
    out, used := "", {};
    var quote := Bare;
    var i := 0;
    ghost var done := ScanStart(source, y, exprs);
    while i < |source|
      invariant 0 <= i <= |source|
      invariant Scanned(source, i, y, quote, exprs, done, out, used)
    {
      var ch := source[i];
      if ch == y.escape && quote != Single && i + 1 < |source| {
        done := ScanEscape(source, i, y, quote, exprs, done, out, used);
        out := out + source[i..i + 2];
        i := i + 2;
        continue;
      }
      var best := -1;
      if quote == Bare && (i == 0 || IsBoundary(source[i - 1])) {
        best := FindLongest(source, i, exprs);
      }
      if best >= 0 {
        done := ScanWord(source, i, best, y, exprs, done, out, used);
        out := WriteAlias(out, exprs[best]);
        used := used + {exprs[best].alias};
        i := i + |exprs[best].source|;
        continue;
      }
      done := ScanOne(source, i, y, quote, exprs, done, out, used);
      if ch == '\'' || ch == '"' {
        if quote == Bare {
          quote := if ch == '\'' then Single else Double;
        } else if quote == (if ch == '\'' then Single else Double) {
          quote := Bare;
        }
      }
      out := out + [ch];
      i := i + 1;
    }
    ScanEnd(source, y, quote, exprs, done, out, used);
  }

  method WriteAlias(out: string, e: Expression) returns (more: string)
    ensures more == out + AliasReference(e)
  {
    more := out;
    if !e.unquoted {
      more := more + "\"";
    }
    more := more + ("${" + e.alias + "}");
    if !e.unquoted {
      more := more + "\"";
    }
  }

  /** The inner loop over the candidate words. */
  method FindLongest(source: string, i: nat, exprs: seq<Expression>) returns (found: int)
    requires i <= |source|
    ensures found == BestOf(source[i..], exprs, |exprs|)
  {
    hide *;
    found := -1;
    BestStart(source[i..], exprs);
    for j := 0 to |exprs|
      invariant -1 <= found < j && found == BestOf(source[i..], exprs, j)
    {
      var end := i + |exprs[j].source|;
      BestStep(source, i, exprs, j);
      if end <= |source| && source[i..end] == exprs[j].source && (end == |source| || IsBoundary(source[end]))
         && (found == -1 || |exprs[j].source| > |exprs[found].source|) {
        found := j;
      }
    }
  }

  lemma BestStart(s: string, exprs: seq<Expression>)
    ensures BestOf(s, exprs, 0) == -1
  {
  }

  lemma BestStep(source: string, i: nat, exprs: seq<Expression>, j: nat)
    requires i <= |source| && j < |exprs|
    ensures var found, end := BestOf(source[i..], exprs, j), i + |exprs[j].source|;
            BestOf(source[i..], exprs, j + 1) ==
              if end <= |source| && source[i..end] == exprs[j].source && (end == |source| || IsBoundary(source[end]))
                 && (found == -1 || |exprs[j].source| > |exprs[found].source|)
              then j else found
  {
    hide IsBest, IsBoundary;
    var end := i + |exprs[j].source|;
    if end <= |source| {
      assert source[i..][..|exprs[j].source|] == source[i..end];
    }
  }

  /** The loop's invariant: the segments found, what is written for them, and the aliases used by them. */
  ghost predicate Scanned(source: string, i: nat, y: Syntax, q: Quote, exprs: seq<Expression>,
                          done: seq<Segment>, out: string, used: set<string>)
    requires AllNonEmpty(exprs)
  {
    && i <= |source|
    && InRange(done, exprs)
    && out == Emit(done, exprs)
    && used == UsedBy(done, exprs)
    && done + Segments(source[i..], BoundaryBefore(source, true, i), y, q, exprs)
      == Segments(source, true, y, Bare, exprs)
  }

  lemma EmitNothing(exprs: seq<Expression>)
    ensures Emit([], exprs) == [] && UsedBy([], exprs) == {}
  {
  }

  lemma {:induction false} EmitOne(done: seq<Segment>, g: Segment, exprs: seq<Expression>)
    requires InRange(done, exprs) && (g.Word? ==> g.index < |exprs|)
    ensures InRange(done + [g], exprs)
    ensures Emit(done + [g], exprs) == Emit(done, exprs) + Written(g, exprs)
    ensures UsedBy(done + [g], exprs) == UsedBy(done, exprs) + (if g.Word? then {exprs[g.index].alias} else {})
  {
    EmitAppend(done, g, exprs);
    assert forall k | 0 <= k < |done| :: (done + [g])[k] == done[k];
    assert (done + [g])[|done|] == g;
  }

  lemma EmitStep(segs: seq<Segment>, exprs: seq<Expression>)
    requires InRange(segs, exprs) && segs != []
    ensures InRange(segs[1..], exprs) && Emit(segs, exprs) == Written(segs[0], exprs) + Emit(segs[1..], exprs)
  {
    hide Written;
  }

  lemma {:induction false} EmitAppend(done: seq<Segment>, g: Segment, exprs: seq<Expression>)
    requires InRange(done, exprs) && (g.Word? ==> g.index < |exprs|)
    ensures InRange(done + [g], exprs)
    ensures Emit(done + [g], exprs) == Emit(done, exprs) + Written(g, exprs)
  {
    hide Emit, Written;
    EmitStep(done + [g], exprs);
    if done == [] {
      assert (done + [g])[1..] == [] && (done + [g])[0] == g;
      EmitNothing(exprs);
    } else {
      assert (done + [g])[1..] == done[1..] + [g] && (done + [g])[0] == done[0];
      EmitStep(done, exprs);
      EmitAppend(done[1..], g, exprs);
      Reassociate(Written(done[0], exprs), Emit(done[1..], exprs), Written(g, exprs));
    }
  }

  lemma ScanStart(source: string, y: Syntax, exprs: seq<Expression>) returns (done: seq<Segment>)
    requires AllNonEmpty(exprs)
    ensures Scanned(source, 0, y, Bare, exprs, done, "", {})
  {
    done := [];
    EmitNothing(exprs);
    assert source[0..] == source;
  }

  lemma ScanEnd(source: string, y: Syntax, q: Quote, exprs: seq<Expression>,
                done: seq<Segment>, out: string, used: set<string>)
    requires AllNonEmpty(exprs) && Scanned(source, |source|, y, q, exprs, done, out, used)
    ensures out == Emit(Segments(source, true, y, Bare, exprs), exprs)
    ensures used == UsedBy(Segments(source, true, y, Bare, exprs), exprs)
  {
    assert source[|source|..] == [];
    EmptySegments(BoundaryBefore(source, true, |source|), y, q, exprs);
    assert done + [] == done;
  }

  /** One turn of the loop: the segment at `i` is `g`, and the scan goes on after it. */
  lemma ScanStep(source: string, i: nat, y: Syntax, q: Quote, exprs: seq<Expression>,
                 done: seq<Segment>, out: string, used: set<string>, g: Segment, n: nat)
    returns (more: seq<Segment>)
    requires AllNonEmpty(exprs) && Scanned(source, i, y, q, exprs, done, out, used)
    requires i + n <= |source| && (g.Word? ==> g.index < |exprs|)
    requires Segments(source[i..], BoundaryBefore(source, true, i), y, q, exprs)
             == [g] + Segments(source[i + n..], BoundaryBefore(source, true, i + n), y, QuoteAfter(g, y, q), exprs)
    ensures Scanned(source, i + n, y, QuoteAfter(g, y, q), exprs, more, out + Written(g, exprs),
                    used + (if g.Word? then {exprs[g.index].alias} else {}))
  {
    hide Emit, UsedBy, Segments, Written;
    more := done + [g];
    EmitOne(done, g, exprs);
    var rest := Segments(source[i + n..], BoundaryBefore(source, true, i + n), y, QuoteAfter(g, y, q), exprs);
    assert more + rest == done + ([g] + rest);
  }

  lemma ScanEscape(source: string, i: nat, y: Syntax, q: Quote, exprs: seq<Expression>,
                   done: seq<Segment>, out: string, used: set<string>) returns (more: seq<Segment>)
    requires AllNonEmpty(exprs) && Scanned(source, i, y, q, exprs, done, out, used)
    requires i < |source| && IsEscapePair(source[i..], y, q)
    ensures Scanned(source, i + 2, y, q, exprs, more, out + source[i..i + 2], used)
  {
    hide Scanned;
    var s := source[i..];
    assert s[..2] == source[i..i + 2] && s[2..] == source[i + 2..] && s[1] == source[i + 1];
    more := ScanStep(source, i, y, q, exprs, done, out, used, Copied(source[i..i + 2]), 2);
    assert used + {} == used;
  }

  lemma SegmentsAtWord(s: string, y: Syntax, exprs: seq<Expression>, m: int)
    requires AllNonEmpty(exprs) && s != [] && !IsEscapePair(s, y, Bare) && m == BestOf(s, exprs, |exprs|) && m >= 0
    ensures var n := |exprs[m].source|;
            && 0 < n <= |s|
            && Segments(s, true, y, Bare, exprs) == [Word(m)] + Segments(s[n..], IsBoundary(s[n - 1]), y, Bare, exprs)
  {
    hide BestOf, IsEscapePair, IsBoundary;
  }

  lemma ScanWord(source: string, i: nat, m: int, y: Syntax, exprs: seq<Expression>,
                 done: seq<Segment>, out: string, used: set<string>) returns (more: seq<Segment>)
    requires AllNonEmpty(exprs) && Scanned(source, i, y, Bare, exprs, done, out, used)
    requires i < |source| && !IsEscapePair(source[i..], y, Bare)
    requires BoundaryBefore(source, true, i) && m == BestOf(source[i..], exprs, |exprs|) && m >= 0
    ensures Scanned(source, i + |exprs[m].source|, y, Bare, exprs, more,
                    out + AliasReference(exprs[m]), used + {exprs[m].alias})
  {
    hide Scanned, Segments, BestOf, IsBest, IsEscapePair;
    var s := source[i..];
    var n := |exprs[m].source|;
    SegmentsAtWord(s, y, exprs, m);
    assert s[n..] == source[i + n..] && s[n - 1] == source[i + n - 1];
    more := ScanStep(source, i, y, Bare, exprs, done, out, used, Word(m), n);
  }

  lemma ScanOne(source: string, i: nat, y: Syntax, q: Quote, exprs: seq<Expression>,
                done: seq<Segment>, out: string, used: set<string>) returns (more: seq<Segment>)
    requires AllNonEmpty(exprs) && Scanned(source, i, y, q, exprs, done, out, used)
    requires i < |source| && !IsEscapePair(source[i..], y, q)
    requires q == Bare && BoundaryBefore(source, true, i) ==> BestOf(source[i..], exprs, |exprs|) < 0
    ensures Scanned(source, i + 1, y, Toggle(source[i], y, q), exprs, more, out + [source[i]], used)
  {
    hide Scanned;
    var s := source[i..];
    assert s[..1] == [source[i]] && s[1..] == source[i + 1..];
    more := ScanStep(source, i, y, q, exprs, done, out, used, Copied([source[i]]), 1);
    assert used + {} == used;
  }

  // ---- Meaning ----

  /** The materialized text. */
  function Materialize(s: string, prev: bool, y: Syntax, q: Quote, exprs: seq<Expression>): string
    requires AllNonEmpty(exprs)
  {
    Emit(Segments(s, prev, y, q, exprs), exprs)
  }

  lemma MaterializeStep(s: string, prev: bool, y: Syntax, q: Quote, exprs: seq<Expression>)
    requires AllNonEmpty(exprs)
    ensures var r := Materialize(s, prev, y, q, exprs);
            var m := MatchAt(s, prev, y, q, exprs);
            if s == [] then r == []
            else if IsEscapePair(s, y, q) then r == s[..2] + Materialize(s[2..], IsBoundary(s[1]), y, q, exprs)
            else if m >= 0 then
              var n := |exprs[m].source|;
              r == AliasReference(exprs[m]) + Materialize(s[n..], IsBoundary(s[n - 1]), y, Bare, exprs)
            else r == s[..1] + Materialize(s[1..], IsBoundary(s[0]), y, Toggle(s[0], y, q), exprs)
  {
    var segs := Segments(s, prev, y, q, exprs);
    if segs != [] {
      assert Emit(segs, exprs) == Written(segs[0], exprs) + Emit(segs[1..], exprs);
    }
  }

  /** The aliases the scan writes. */
  function UsedIn(s: string, prev: bool, y: Syntax, q: Quote, exprs: seq<Expression>): set<string>
    requires AllNonEmpty(exprs)
    decreases |s|
  {
    if s == [] then {}
    else if IsEscapePair(s, y, q) then UsedIn(s[2..], IsBoundary(s[1]), y, q, exprs)
    else
      var m := MatchAt(s, prev, y, q, exprs);
      if m >= 0 then
        var n := |exprs[m].source|;
        {exprs[m].alias} + UsedIn(s[n..], IsBoundary(s[n - 1]), y, Bare, exprs)
      else UsedIn(s[1..], IsBoundary(s[0]), y, Toggle(s[0], y, q), exprs)
  }

  predicate IsPlainChar(c: char, y: Syntax) {
    c != y.escape && c != '$' && c != '\'' && c != '"' && !IsBoundary(c)
  }

  lemma {:induction false} MaterializePlain(p: string, rest: string, y: Syntax, q: Quote, exprs: seq<Expression>)
    requires AllNonEmpty(exprs)
    requires forall k | 0 <= k < |p| :: IsPlainChar(p[k], y)
    ensures Materialize(p + rest, false, y, q, exprs) == p + Materialize(rest, false, y, q, exprs)
    ensures UsedIn(p + rest, false, y, q, exprs) == UsedIn(rest, false, y, q, exprs)
  {
    hide Materialize;
    if p == [] {
      assert p + rest == rest;
    } else {
      var s := p + rest;
      assert s[1..] == p[1..] + rest && s[..1] == p[..1];
      MaterializeStep(s, false, y, q, exprs);
      MaterializePlain(p[1..], rest, y, q, exprs);
      assert p == p[..1] + p[1..];
    }
  }

  lemma MaterializeLead(s: string, y: Syntax, q: Quote, exprs: seq<Expression>)
    requires AllNonEmpty(exprs) && ValidSyntax(y)
    ensures SameLead(s, Materialize(s, false, y, q, exprs))
  {
    hide Materialize, Segments;
    MaterializeStep(s, false, y, q, exprs);
    if s != [] && s[0] == ':' {
      MaterializeStep(s[1..], false, y, q, exprs);
    }
  }

  /** Where no word is replaced, the first token is copied and the scan goes on after it. */
  predicate TokenCopied(s: string, prev: bool, r: string, y: Syntax, q: Quote, exprs: seq<Expression>)
    requires AllNonEmpty(exprs)
  {
    var k := TokenAt(s, y, q);
    && TokenAt(r, y, q) == k
    && (!k.Bad? && !k.Eot? ==>
          var rest, q', prev' := s[Len(k)..], NextQuote(k, y, q), IsBoundary(s[Len(k) - 1]);
          && r[Len(k)..] == Materialize(rest, prev', y, q', exprs)
          && UsedIn(s, prev, y, q, exprs) == UsedIn(rest, prev', y, q', exprs))
  }

  lemma MaterializeToken(s: string, prev: bool, y: Syntax, q: Quote, exprs: seq<Expression>)
    requires AllNonEmpty(exprs) && ValidSyntax(y) && MatchAt(s, prev, y, q, exprs) < 0
    ensures TokenCopied(s, prev, Materialize(s, prev, y, q, exprs), y, q, exprs)
  {
    hide TokenCopied, Materialize;
    if s != [] && s[0] == '$' && q != Single {
      MaterializeDollar(s, prev, y, q, exprs, if |s| >= 2 && s[1] == '{' then 2 else 1);
    } else {
      MaterializeOther(s, prev, y, q, exprs);
    }
  }

  lemma MaterializePair(s: string, prev: bool, y: Syntax, q: Quote, exprs: seq<Expression>)
    requires AllNonEmpty(exprs) && ValidSyntax(y) && MatchAt(s, prev, y, q, exprs) < 0 && IsEscapePair(s, y, q)
    ensures TokenCopied(s, prev, Materialize(s, prev, y, q, exprs), y, q, exprs)
  {
    hide Materialize, Segments, MatchAt, UsedIn;
    var r := Materialize(s, prev, y, q, exprs);
    MaterializeStep(s, prev, y, q, exprs);
    UsedStep(s, prev, y, q, exprs);
    assert r[2..] == Materialize(s[2..], IsBoundary(s[1]), y, q, exprs);
  }

  lemma MaterializeOther(s: string, prev: bool, y: Syntax, q: Quote, exprs: seq<Expression>)
    requires AllNonEmpty(exprs) && ValidSyntax(y) && MatchAt(s, prev, y, q, exprs) < 0
    requires s == [] || s[0] != '$' || q == Single
    ensures TokenCopied(s, prev, Materialize(s, prev, y, q, exprs), y, q, exprs)
  {
    hide Materialize, Segments, MatchAt, UsedIn;
    var r := Materialize(s, prev, y, q, exprs);
    MaterializeStep(s, prev, y, q, exprs);
    if s == [] {
    } else if IsEscapePair(s, y, q) {
      MaterializePair(s, prev, y, q, exprs);
    } else {
      UsedStep(s, prev, y, q, exprs);
      var q' := Toggle(s[0], y, q);
      MaterializeEmpty(IsBoundary(s[0]), y, q', exprs);
      assert r[0] == s[0] && r[1..] == Materialize(s[1..], IsBoundary(s[0]), y, q', exprs);
      var k := TokenAt(s, y, q);
      assert |s| == 1 ==> s[1..] == [];
      assert TokenAt(r, y, q) == k;
      assert !k.Bad? ==> Len(k) == 1 && NextQuote(k, y, q) == q';
    }
  }

  lemma MaterializeEmpty(prev: bool, y: Syntax, q: Quote, exprs: seq<Expression>)
    requires AllNonEmpty(exprs)
    ensures Materialize([], prev, y, q, exprs) == [] && UsedIn([], prev, y, q, exprs) == {}
  {
  }

  lemma UsedStep(s: string, prev: bool, y: Syntax, q: Quote, exprs: seq<Expression>)
    requires AllNonEmpty(exprs) && s != [] && MatchAt(s, prev, y, q, exprs) < 0
    ensures UsedIn(s, prev, y, q, exprs)
            == if IsEscapePair(s, y, q) then UsedIn(s[2..], IsBoundary(s[1]), y, q, exprs)
               else UsedIn(s[1..], IsBoundary(s[0]), y, Toggle(s[0], y, q), exprs)
  {
  }

  /** Around a dollar that starts no replaced word, everything up to the end of the name is copied. */
  lemma DollarTail(s: string, prev: bool, y: Syntax, q: Quote, exprs: seq<Expression>, start: nat, u: string, n: nat)
    requires AllNonEmpty(exprs) && ValidSyntax(y) && MatchAt(s, prev, y, q, exprs) < 0
    requires s != [] && s[0] == '$' && start == (if |s| >= 2 && s[1] == '{' then 2 else 1)
    requires u == s[start..] && n == NameLen(u)
    ensures Materialize(s, prev, y, q, exprs) == s[..start] + (u[..n] + Materialize(u[n..], false, y, q, exprs))
    ensures UsedIn(s, prev, y, q, exprs) == UsedIn(u[n..], false, y, q, exprs)
  {
    hide Materialize, NameLen, MatchAt, UsedIn;
    DollarFirst(s, prev, y, q, exprs);
    hide IsPlainChar, IsBoundary, IsEscapePair, Toggle;
    var z := u[..n] + Materialize(u[n..], false, y, q, exprs);
    NameIsCopied(u, n, y, q, exprs);
    if start == 2 {
      assert s[1..] == "{" + u;
      BraceIsCopied(u, y, q, exprs);
      Reassociate("$", "{", z);
      assert s[..2] == "$" + "{";
    } else {
      assert s[1..] == u && s[..1] == "$";
    }
  }

  lemma DollarFirst(s: string, prev: bool, y: Syntax, q: Quote, exprs: seq<Expression>)
    requires AllNonEmpty(exprs) && ValidSyntax(y) && MatchAt(s, prev, y, q, exprs) < 0 && s != [] && s[0] == '$'
    ensures Materialize(s, prev, y, q, exprs) == "$" + Materialize(s[1..], false, y, q, exprs)
    ensures UsedIn(s, prev, y, q, exprs) == UsedIn(s[1..], false, y, q, exprs)
  {
    hide Materialize, MatchAt, UsedIn;
    assert !IsEscapePair(s, y, q) && s[..1] == "$";
    MaterializeStep(s, prev, y, q, exprs);
    UsedStep(s, prev, y, q, exprs);
  }

  lemma NameIsCopied(u: string, n: nat, y: Syntax, q: Quote, exprs: seq<Expression>)
    requires AllNonEmpty(exprs) && ValidSyntax(y) && n == NameLen(u)
    ensures Materialize(u, false, y, q, exprs) == u[..n] + Materialize(u[n..], false, y, q, exprs)
    ensures UsedIn(u, false, y, q, exprs) == UsedIn(u[n..], false, y, q, exprs)
  {
    hide Materialize, NameLen, UsedIn;
    assert u == u[..n] + u[n..];
    MaterializePlain(u[..n], u[n..], y, q, exprs);
  }

  lemma BraceIsCopied(u: string, y: Syntax, q: Quote, exprs: seq<Expression>)
    requires AllNonEmpty(exprs) && ValidSyntax(y)
    ensures Materialize("{" + u, false, y, q, exprs) == "{" + Materialize(u, false, y, q, exprs)
    ensures UsedIn("{" + u, false, y, q, exprs) == UsedIn(u, false, y, q, exprs)
  {
    hide Materialize, UsedIn;
    MaterializePlain("{", u, y, q, exprs);
  }

  lemma MaterializeDollar(s: string, prev: bool, y: Syntax, q: Quote, exprs: seq<Expression>, start: nat)
    requires AllNonEmpty(exprs) && ValidSyntax(y) && MatchAt(s, prev, y, q, exprs) < 0
    requires s != [] && s[0] == '$' && q != Single
    requires start == if |s| >= 2 && s[1] == '{' then 2 else 1
    ensures TokenCopied(s, prev, Materialize(s, prev, y, q, exprs), y, q, exprs)
  {
    hide Materialize, NameLen, TokenAt, TokenCopied, MatchAt, UsedIn;
    var u := s[start..];
    var n := NameLen(u);
    var name, tail := u[..n], u[n..];
    var x := Materialize(tail, false, y, q, exprs);
    DollarTail(s, prev, y, q, exprs, start, u, n);
    MaterializeLead(tail, y, q, exprs);
    NameLenCopy(u, x, n);
    assert u == name + tail;
    var r := Materialize(s, prev, y, q, exprs);
    if start == 2 {
      assert s == "${" + (name + tail) && s[..2] == "${";
      BracedCopied(s, prev, r, name, tail, y, q, exprs);
    } else {
      assert s == "$" + (name + tail) && s[..1] == "$";
      UnbracedCopied(s, prev, r, name, tail, y, q, exprs);
    }
  }

  lemma UnbracedCopied(s: string, prev: bool, r: string, name: string, tail: string, y: Syntax, q: Quote,
      exprs: seq<Expression>)
    requires AllNonEmpty(exprs) && ValidSyntax(y) && q != Single
    requires var x := Materialize(tail, false, y, q, exprs);
             s == "$" + (name + tail) && r == "$" + (name + x) && SameLead(tail, x)
             && NameLen(name + tail) == |name| && NameLen(name + x) == |name|
    requires name == [] ==> tail == [] || tail[0] != '{'
    requires UsedIn(s, prev, y, q, exprs) == UsedIn(tail, false, y, q, exprs)
    ensures TokenCopied(s, prev, r, y, q, exprs)
  {
    hide Materialize, NameLen, DollarToken, UsedIn;
    var x := Materialize(tail, false, y, q, exprs);
    DollarNameToken(name, tail);
    DollarNameToken(name, x);
    assert name != [] ==> s[|name|] == name[|name| - 1] && NameLen(name + tail) > |name| - 1;
    LastNameChar(name, tail);
  }

  lemma LastNameChar(name: string, tail: string)
    requires NameLen(name + tail) == |name|
    ensures forall k | 0 <= k < |name| :: IsNameChar(name[k])
  {
    assert forall k | 0 <= k < |name| :: (name + tail)[k] == name[k];
  }

  lemma BracedCopied(s: string, prev: bool, r: string, name: string, tail: string, y: Syntax, q: Quote,
      exprs: seq<Expression>)
    requires AllNonEmpty(exprs) && ValidSyntax(y) && q != Single
    requires var x := Materialize(tail, false, y, q, exprs);
             s == "${" + (name + tail) && r == "${" + (name + x) && SameLead(tail, x)
             && NameLen(name + tail) == |name| && NameLen(name + x) == |name|
    requires UsedIn(s, prev, y, q, exprs) == UsedIn(tail, false, y, q, exprs)
    ensures TokenCopied(s, prev, r, y, q, exprs)
  {
    hide Materialize, NameLen, DollarToken, UsedIn, TokenAt;
    DollarTokenAt(s, y, q);
    DollarTokenAt(r, y, q);
    var x := Materialize(tail, false, y, q, exprs);
    DollarBraceToken(name, tail);
    DollarBraceToken(name, x);
    BraceTokenLead(name, tail, name, x);
    var k := BraceToken(name, tail);
    if !k.Bad? {
      BraceHeadIsPlain(name, tail, y);
      var h := Len(k) - 2 - |name|;
      assert tail == tail[..h] + tail[h..];
      MaterializePlain(tail[..h], tail[h..], y, q, exprs);
      AfterBrace(name, tail, h);
      AfterBrace(name, x, h);
    }
  }

  /** What closes the name, or opens its word, is copied as it is. */
  lemma BraceHeadIsPlain(name: string, tail: string, y: Syntax)
    requires ValidSyntax(y) && !BraceToken(name, tail).Bad?
    ensures var h := Len(BraceToken(name, tail)) - 2 - |name|;
            1 <= h <= |tail| && forall k | 0 <= k < h :: IsPlainChar(tail[k], y)
  {
  }

  lemma AfterBrace(name: string, tail: string, h: nat)
    requires 1 <= h <= |tail|
    ensures var s := "${" + (name + tail);
            s[2 + |name| + h..] == tail[h..] && s[2 + |name| + h - 1] == tail[h - 1]
  {
  }

  lemma AliasParsed(e: Expression, x: string, y: Syntax, close: Close)
    requires ValidArgName(e.alias) && ValidSyntax(y) && !y.raw
    ensures ParseTo(AliasReference(e) + x, y, Bare, close) == AliasValue(e, y, close, ParseTo(x, y, Bare, close))
  {
    hide ParseTo, TokenAt, NameLen;
    var inner := "${" + (e.alias + ("}" + (if e.unquoted then x else "\"" + x)));
    if e.unquoted {
      assert AliasReference(e) + x == inner;
      AliasTokens(e.alias, x, y, Bare, close);
    } else {
      assert AliasReference(e) + x == "\"" + inner;
      MarkToken('"', inner, y, Bare, close);
      AliasTokens(e.alias, "\"" + x, y, Double, close);
      MarkToken('"', x, y, Double, close);
    }
  }

  function AliasValue(e: Expression, y: Syntax, close: Close, p: Parsed): Parsed {
    if p.Malformed? then p else p.(text := Value(e.alias, e.unquoted && IsMarked(y, Bare, close), p.text))
  }

  lemma AliasTokens(alias: string, x: string, y: Syntax, q: Quote, close: Close)
    requires ValidArgName(alias) && ValidSyntax(y) && q != Single
    ensures var p := ParseTo(x, y, q, close);
            ParseTo("${" + (alias + ("}" + x)), y, q, close) == if p.Malformed? then p
                else p.(text := Value(alias, IsMarked(y, q, close), p.text))
  {
    hide ParseTo, NameLen, DollarToken;
    var s := "${" + (alias + ("}" + x));
    NameLenOfName(alias, "}" + x);
    DollarBraceToken(alias, "}" + x);
    assert s[3 + |alias|..] == x;
    ParseSimple(s, y, q, close, Ref(alias, 3 + |alias|));
  }

  lemma MarkToken(c: char, x: string, y: Syntax, q: Quote, close: Close)
    requires ValidSyntax(y) && Toggle(c, y, q) != q
    ensures ParseTo([c] + x, y, q, close) == ParseTo(x, y, Toggle(c, y, q), close)
  {
    hide ParseTo;
    assert ([c] + x)[1..] == x;
    ParseSimple([c] + x, y, q, close, Mark(c));
  }

  // ---- Putting the words' trees back ----

  /** The tree each alias stands for. */
  type Defs = map<string, Text>

  /** Inside a `${...}` no separator is told apart. */
  function Inner(defs: Defs): Defs {
    map a | a in defs :: Unmark(defs[a])
  }

  /** A tree with the words' own trees put back for their aliases. */
  function Unfold(t: Text, defs: Defs): Text {
    match t
    case End => End
    case Char(c, sep, rest) => Char(c, sep, Unfold(rest, defs))
    case Value(name, bare, rest) =>
      if name in defs then Join(defs[name], Unfold(rest, defs)) else Value(name, bare, Unfold(rest, defs))
    case Cond(name, nullUnset, alternate, bare, word, rest) =>
      Cond(name, nullUnset, alternate, bare, Unfold(word, Inner(defs)), Unfold(rest, defs))
  }

  /** Every captured word reads by itself as the tree its alias stands for. */
  ghost predicate Reads(defs: Defs, exprs: seq<Expression>, y: Syntax) {
    forall j | 0 <= j < |exprs| ::
      && ValidArgName(exprs[j].alias)
      && exprs[j].alias in defs
      && Parse(exprs[j].source, y) == Parsed(defs[exprs[j].alias], [], Bare)
  }

  /**
   No replaced word stands inside a `${...}` that it closes. Read from `s` on, up to `close`; a text that is malformed
   is read as far as it goes.
   */
  predicate NothingClosed(s: string, prev: bool, y: Syntax, q: Quote, close: Close, exprs: seq<Expression>)
    requires AllNonEmpty(exprs)
    decreases |s|
  {
    var m := MatchAt(s, prev, y, q, exprs);
    if m >= 0 then
      var n := |exprs[m].source|;
      && (close.Brace? ==> ParseTo(exprs[m].source, y, Bare, close).Malformed?)
      && NothingClosed(s[n..], IsBoundary(s[n - 1]), y, Bare, close, exprs)
    else
      var k := TokenAt(s, y, q);
      IsLast(k, q, close) ||
      var rest, prev' := s[Len(k)..], IsBoundary(s[Len(k) - 1]);
      if k.Open? then
        && NothingClosed(rest, prev', y, q, Brace(q), exprs)
        && var w := ParseTo(rest, y, q, Brace(q));
           w.Parsed? ==> NothingClosed(w.rest, false, y, q, close, exprs)
      else NothingClosed(rest, prev', y, NextQuote(k, y, q), close, exprs)
  }

  /** How the word itself is read at this depth. */
  function Level(y: Syntax, close: Close): Syntax {
    if close.Top? then y else Unmarked(y)
  }

  lemma InnerReads(defs: Defs, exprs: seq<Expression>, y: Syntax, close: Close)
    requires Reads(defs, exprs, Level(y, close))
    ensures Reads(Inner(defs), exprs, Unmarked(y))
  {
    hide ParseTo;
    assert Unmarked(Level(y, close)) == Unmarked(y);
    forall j | 0 <= j < |exprs| {
      ParseUnmarked(exprs[j].source, Level(y, close), Bare, Top);
    }
  }

  predicate Fresh(t: Text, defs: Defs) {
    Names(t) !! defs.Keys
  }

  /**
   `r` reads the materialization of what `p` reads: it stops at the same place, and its tree is the one of `p` once the
   words are put back. `used` are the aliases of what both have read and of what is left.
   */
  ghost predicate Reread(p: Parsed, r: Parsed, y: Syntax, exprs: seq<Expression>, defs: Defs, used: set<string>)
    requires AllNonEmpty(exprs)
  {
    if p.Malformed? then r.Malformed?
    else
      && r.Parsed?
      && r.quote == p.quote
      && r.rest == Materialize(p.rest, false, y, p.quote, exprs)
      && (Fresh(p.text, defs) ==>
            && Unfold(r.text, defs) == p.text
            && BareRightly(r.text, exprs, defs)
            && Names(r.text) * defs.Keys + UsedIn(p.rest, false, y, p.quote, exprs) == used)
  }

  /** Every alias that stands outside quotes was written without them. */
  ghost predicate BareRightly(t: Text, exprs: seq<Expression>, defs: Defs) {
    match t
    case End => true
    case Char(_, _, rest) => BareRightly(rest, exprs, defs)
    case Value(name, bare, rest) =>
      && (bare && name in defs ==> exists e :: e in exprs && e.alias == name && e.unquoted)
      && BareRightly(rest, exprs, defs)
    case Cond(_, _, _, _, _, rest) => BareRightly(rest, exprs, defs)
  }

  /** `r` does not read the materialization of what `p` reads. */
  predicate Misread(p: Parsed, r: Parsed, defs: Defs) {
    p.Parsed? && Fresh(p.text, defs) ==> r.Malformed? || Unfold(r.text, defs) != p.text
  }

  lemma ExtendReread(k: Token, y: Syntax, q: Quote, close: Close, p: Parsed, r: Parsed, exprs: seq<Expression>,
      defs: Defs, used: set<string>)
    requires AllNonEmpty(exprs)
    ensures Reread(p, r, y, exprs, defs, used) ==>
              Reread(Extend(k, y, q, close, p), Extend(k, y, q, close, r), y, exprs, defs, used)
    ensures Misread(p, r, defs) ==> Misread(Extend(k, y, q, close, p), Extend(k, y, q, close, r), defs)
  {
    hide Materialize, UsedIn;
    if k.Escaped? && p.Parsed? && r.Parsed? {
      var p1, r1 := Char(k.c, false, p.text), Char(k.c, false, r.text);
      assert Unfold(r1, defs) == Char(k.c, false, Unfold(r.text, defs));
      assert Names(r1) == Names(r.text) && Names(p1) == Names(p.text);
      assert BareRightly(r1, exprs, defs) == BareRightly(r.text, exprs, defs);
    }
  }

  lemma ExtendCondReread(k: Token, q: Quote, close: Close, v: Text, w: Text, p: Parsed, r: Parsed, y: Syntax,
      exprs: seq<Expression>, defs: Defs, used: set<string>, after: set<string>)
    requires AllNonEmpty(exprs) && k.Open?
    requires Fresh(v, defs) ==> Unfold(w, Inner(defs)) == v && Names(w) * defs.Keys + after == used
    ensures Reread(p, r, y, exprs, defs, after) ==>
              Reread(ExtendCond(k, y, q, close, v, p), ExtendCond(k, y, q, close, w, r), y, exprs, defs, used)
    ensures Misread(p, r, defs) ==>
              Misread(ExtendCond(k, y, q, close, v, p), ExtendCond(k, y, q, close, w, r), defs)
  {
    hide Materialize, UsedIn;
  }

  lemma CondMisread(k: Token, y: Syntax, q: Quote, close: Close, v: Text, w: Text, p: Parsed, r: Parsed, defs: Defs)
    requires k.Open? && (Fresh(v, defs) ==> Unfold(w, Inner(defs)) != v)
    ensures Misread(ExtendCond(k, y, q, close, v, p), ExtendCond(k, y, q, close, w, r), defs)
  {
  }

  lemma ReadsAt(defs: Defs, exprs: seq<Expression>, y: Syntax, m: nat)
    requires Reads(defs, exprs, y) && m < |exprs|
    ensures var e := exprs[m];
            ValidArgName(e.alias) && e.alias in defs && Parse(e.source, y) == Parsed(defs[e.alias], [], Bare)
  {
  }

  /** A replaced word leaves a shorter text. */
  lemma MatchedWord(s: string, prev: bool, y: Syntax, q: Quote, exprs: seq<Expression>, m: int)
    requires AllNonEmpty(exprs) && m == MatchAt(s, prev, y, q, exprs) >= 0
    ensures var n := |exprs[m].source|;
            && q == Bare && 0 < n <= |s| && s == exprs[m].source + s[n..] && Detached(s[n..])
            && UsedIn(s, prev, y, q, exprs)
               == {exprs[m].alias} + UsedIn(s[n..], IsBoundary(s[n - 1]), y, Bare, exprs)
            && Materialize(s, prev, y, q, exprs)
               == AliasReference(exprs[m]) + Materialize(s[n..], IsBoundary(s[n - 1]), y, Bare, exprs)
  {
    hide BestOf, AliasReference, Materialize;
    MaterializeStep(s, prev, y, q, exprs);
  }

  /** A word that closes nothing is read as its tree, and what follows after it. */
  lemma OpenWordRead(e: Expression, x: string, y: Syntax, close: Close, t: Text)
    requires Parse(e.source, Level(y, close)) == Parsed(t, [], Bare) && Detached(x)
    requires close.Brace? ==> ParseTo(e.source, y, Bare, close).Malformed?
    ensures ParseTo(e.source + x, y, Bare, close) == JoinParsed(t, ParseTo(x, y, Bare, close))
  {
    hide ParseTo, Detached;
    ParseUnmarked(e.source + x, y, Bare, close);
    ParseUnmarked(e.source, y, Bare, close);
    ParseUnmarked(x, y, Bare, close);
    ParseConcat(e.source, x, Level(y, close), Bare, close);
  }

  /** The length of a tree along its top. */
  function Length(t: Text): nat {
    if t.End? then 0 else 1 + Length(t.rest)
  }

  lemma {:induction false} JoinLength(t: Text, u: Text)
    ensures Length(Join(t, u)) == Length(t) + Length(u)
  {
    if !t.End? {
      JoinLength(t.rest, u);
    }
  }

  lemma {:induction false} JoinInjective(t: Text, u: Text, v: Text)
    requires Join(t, u) == Join(t, v)
    ensures u == v
  {
    if !t.End? {
      JoinInjective(t.rest, u, v);
    }
  }

  lemma {:induction false} JoinNames(t: Text, u: Text, defs: Defs)
    ensures Fresh(Join(t, u), defs) ==> Fresh(u, defs)
  {
    NamesJoin(t, u);
  }

  lemma ExtendLength(k: Token, y: Syntax, q: Quote, c: Close, d: Close, p: Parsed, r: Parsed)
    requires p.Parsed? && r.Parsed? && Length(p.text) < Length(r.text)
    ensures Extend(k, y, q, c, p).Parsed? && Extend(k, y, q, d, r).Parsed?
    ensures Length(Extend(k, y, q, c, p).text) < Length(Extend(k, y, q, d, r).text)
  {
    if k.Escaped? {
      assert Length(Char(k.c, false, p.text)) == 1 + Length(p.text);
      assert Length(Char(k.c, false, r.text)) == 1 + Length(r.text);
    }
  }

  /** Of a word that closes a brace, only a part stands before it. */
  lemma {:induction false} ClosingIsShorter(v: string, y: Syntax, q: Quote, c: Quote)
    requires ParseTo(v, y, q, Brace(c)).Parsed? && ParseTo(v, y, q, Top).Parsed?
    ensures Length(ParseTo(v, y, q, Brace(c)).text) < Length(ParseTo(v, y, q, Top).text)
    decreases |v|
  {
    hide TokenAt, ParseTo, Extend;
    var k := TokenAt(v, y, q);
    var rest := v[Len(k)..];
    if IsLast(k, q, Brace(c)) {
      ParseLast(v, y, q, Brace(c), k);
      ParseSimple(v, y, q, Top, k);
      ExtendPlainLength(k, y, q, ParseTo(rest, y, NextQuote(k, y, q), Top));
    } else if k.Open? {
      ParseOpen(v, y, q, Brace(c), k);
      ParseOpen(v, y, q, Top, k);
      ClosingIsShorter(ParseTo(rest, y, q, Brace(q)).rest, y, q, c);
    } else {
      var q' := NextQuote(k, y, q);
      ParseSimple(v, y, q, Brace(c), k);
      ParseSimple(v, y, q, Top, k);
      ExtendParsed(k, y, q, Brace(c), ParseTo(rest, y, q', Brace(c)));
      ExtendParsed(k, y, q, Top, ParseTo(rest, y, q', Top));
      ClosingIsShorter(rest, y, q', c);
      ExtendLength(k, y, q, Brace(c), Top, ParseTo(rest, y, q', Brace(c)), ParseTo(rest, y, q', Top));
    }
  }

  lemma ExtendPlainLength(k: Token, y: Syntax, q: Quote, p: Parsed)
    requires k.Plain? && Extend(k, y, q, Top, p).Parsed?
    ensures Length(Extend(k, y, q, Top, p).text) > 0
  {
  }

  /** A replaced word that closes its brace takes more into the brace than was there. */
  lemma ClosingWordMisread(e: Expression, x: string, r: Parsed, y: Syntax, c: Quote, defs: Defs)
    requires e.alias in defs && Parse(e.source, Unmarked(y)) == Parsed(defs[e.alias], [], Bare)
    requires ParseTo(e.source, y, Bare, Brace(c)).Parsed?
    ensures Misread(ParseTo(e.source + x, y, Bare, Brace(c)), AliasValue(e, y, Brace(c), r), defs)
  {
    hide ParseTo, Names;
    var p := ParseTo(e.source, y, Bare, Brace(c));
    ParseWordAppend(e.source, x, y, Bare, c);
    ParseUnmarked(e.source, y, Bare, Brace(c));
    ClosingIsShorter(e.source, Unmarked(y), Bare, c);
    if r.Parsed? {
      JoinLength(defs[e.alias], Unfold(r.text, defs));
    }
  }

  /** A replaced word that closes nothing: what follows it decides. */
  lemma OpenWordReread(e: Expression, p: Parsed, r: Parsed, y: Syntax, close: Close, exprs: seq<Expression>, defs: Defs,
      used: set<string>)
    requires AllNonEmpty(exprs) && e in exprs && e.alias in defs
    ensures Reread(p, r, y, exprs, defs, used) ==>
              Reread(JoinParsed(defs[e.alias], p), AliasValue(e, y, close, r), y, exprs, defs, {e.alias} + used)
    ensures Misread(p, r, defs) ==> Misread(JoinParsed(defs[e.alias], p), AliasValue(e, y, close, r), defs)
  {
    hide Materialize, UsedIn, Names;
    if p.Parsed? && r.Parsed? {
      JoinNames(defs[e.alias], p.text, defs);
      ValueNames(e.alias, e.unquoted && IsMarked(y, Bare, close), r.text);
      if Join(defs[e.alias], Unfold(r.text, defs)) == Join(defs[e.alias], p.text) {
        JoinInjective(defs[e.alias], Unfold(r.text, defs), p.text);
      }
    }
  }

  lemma ValueNames(name: string, bare: bool, t: Text)
    ensures Names(Value(name, bare, t)) == {name} + Names(t)
  {
  }

  /** A header and its materialization, read from any place on: alike if nothing is closed, and never else. */
  ghost predicate ReadExactly(s: string, prev: bool, y: Syntax, q: Quote, close: Close, exprs: seq<Expression>,
      defs: Defs)
    requires AllNonEmpty(exprs)
  {
    var p, r := ParseTo(s, y, q, close), ParseTo(Materialize(s, prev, y, q, exprs), y, q, close);
    if NothingClosed(s, prev, y, q, close, exprs)
    then Reread(p, r, y, exprs, defs, UsedIn(s, prev, y, q, exprs))
    else Misread(p, r, defs)
  }

  lemma {:induction false} MaterializeReads(s: string, prev: bool, y: Syntax, q: Quote, close: Close,
      exprs: seq<Expression>, defs: Defs)
    requires ValidSyntax(y) && !y.raw && AllNonEmpty(exprs) && Reads(defs, exprs, Level(y, close))
    ensures ReadExactly(s, prev, y, q, close, exprs, defs)
    decreases |s|
  {
    hide TokenAt, ParseTo, Materialize, Extend, Reread, Misread, UsedIn, MatchAt, Reads, NothingClosed, ReadExactly,
        Unfold, Names, AliasReference;
    var m := MatchAt(s, prev, y, q, exprs);
    if m >= 0 {
      MatchedWord(s, prev, y, q, exprs, m);
      var n := |exprs[m].source|;
      MaterializeReads(s[n..], IsBoundary(s[n - 1]), y, Bare, close, exprs, defs);
      WordReadExactly(s, prev, y, close, exprs, defs, m);
    } else {
      var k := TokenAt(s, y, q);
      MaterializeToken(s, prev, y, q, exprs);
      if IsLast(k, q, close) {
        LastReadExactly(s, prev, y, q, close, exprs, defs);
      } else {
        var rest, prev' := s[Len(k)..], IsBoundary(s[Len(k) - 1]);
        if k.Open? {
          var w := ParseTo(rest, y, q, Brace(q));
          InnerReads(defs, exprs, y, close);
          MaterializeReads(rest, prev', y, q, Brace(q), exprs, Inner(defs));
          if w.Parsed? {
            MaterializeReads(w.rest, false, y, q, close, exprs, defs);
          }
          CondReadExactly(s, prev, y, q, close, exprs, defs);
        } else {
          MaterializeReads(rest, prev', y, NextQuote(k, y, q), close, exprs, defs);
          SimpleReadExactly(s, prev, y, q, close, exprs, defs);
        }
      }
    }
  }

  lemma WordReadExactly(s: string, prev: bool, y: Syntax, close: Close, exprs: seq<Expression>, defs: Defs, m: int)
    requires ValidSyntax(y) && !y.raw && AllNonEmpty(exprs) && Reads(defs, exprs, Level(y, close))
    requires m == MatchAt(s, prev, y, Bare, exprs) >= 0
    requires var n := |exprs[m].source|;
             0 < n <= |s| && ReadExactly(s[n..], IsBoundary(s[n - 1]), y, Bare, close, exprs, defs)
    ensures ReadExactly(s, prev, y, Bare, close, exprs, defs)
  {
    hide ParseTo, Materialize, Reread, Misread, UsedIn, MatchAt, Reads, AliasReference, NothingClosed, Unfold, Names,
        ValidArgName, Detached;
    var e, n := exprs[m], |exprs[m].source|;
    MatchedWord(s, prev, y, Bare, exprs, m);
    ReadsAt(defs, exprs, Level(y, close), m);
    NothingClosedWord(s, prev, y, close, exprs, m);
    var x := Materialize(s[n..], IsBoundary(s[n - 1]), y, Bare, exprs);
    AliasParsed(e, x, y, close);
    var p, r := ParseTo(s[n..], y, Bare, close), ParseTo(x, y, Bare, close);
    if close.Brace? && ParseTo(e.source, y, Bare, close).Parsed? {
      ClosingWordMisread(e, s[n..], r, y, close.at, defs);
    } else {
      OpenWordRead(e, s[n..], y, close, defs[e.alias]);
      OpenWordReread(e, p, r, y, close, exprs, defs, UsedIn(s[n..], IsBoundary(s[n - 1]), y, Bare, exprs));
    }
  }

  lemma NothingClosedWord(s: string, prev: bool, y: Syntax, close: Close, exprs: seq<Expression>, m: int)
    requires AllNonEmpty(exprs) && m == MatchAt(s, prev, y, Bare, exprs) >= 0
    ensures var n := |exprs[m].source|;
            && 0 < n <= |s|
            && (NothingClosed(s, prev, y, Bare, close, exprs) <==>
                  && (close.Brace? ==> ParseTo(exprs[m].source, y, Bare, close).Malformed?)
                  && NothingClosed(s[n..], IsBoundary(s[n - 1]), y, Bare, close, exprs))
  {
    hide MatchAt, ParseTo;
  }

  lemma LastReadExactly(s: string, prev: bool, y: Syntax, q: Quote, close: Close, exprs: seq<Expression>, defs: Defs)
    requires AllNonEmpty(exprs) && ValidSyntax(y) && MatchAt(s, prev, y, q, exprs) < 0
    requires IsLast(TokenAt(s, y, q), q, close)
    requires TokenCopied(s, prev, Materialize(s, prev, y, q, exprs), y, q, exprs)
    ensures ReadExactly(s, prev, y, q, close, exprs, defs)
  {
    hide ParseTo, Materialize, UsedIn, MatchAt, TokenAt;
    var k, r := TokenAt(s, y, q), Materialize(s, prev, y, q, exprs);
    ParseLast(s, y, q, close, k);
    ParseLast(r, y, q, close, k);
    MaterializeEmpty(false, y, q, exprs);
    EotIsEmpty(s, y, q);
    MaterializeEmpty(prev, y, q, exprs);
    if k.Plain? {
      ClosingIsNoBoundary(s, y, q);
    }
  }

  lemma ClosingIsNoBoundary(s: string, y: Syntax, q: Quote)
    requires TokenAt(s, y, q) == Plain('}')
    ensures s != [] && !IsBoundary(s[0])
  {
    if s[0] == '$' && q != Single {
      DollarIsNotBrace(s);
    }
  }

  lemma CondReadExactly(s: string, prev: bool, y: Syntax, q: Quote, close: Close, exprs: seq<Expression>, defs: Defs)
    requires AllNonEmpty(exprs) && ValidSyntax(y) && MatchAt(s, prev, y, q, exprs) < 0 && TokenAt(s, y, q).Open?
    requires TokenCopied(s, prev, Materialize(s, prev, y, q, exprs), y, q, exprs)
    requires var k := TokenAt(s, y, q);
             var rest := s[Len(k)..];
             var w := ParseTo(rest, y, q, Brace(q));
             && ReadExactly(rest, IsBoundary(s[Len(k) - 1]), y, q, Brace(q), exprs, Inner(defs))
             && (w.Parsed? ==> ReadExactly(w.rest, false, y, q, close, exprs, defs))
    ensures ReadExactly(s, prev, y, q, close, exprs, defs)
  {
    hide ParseTo, Materialize, UsedIn, MatchAt, TokenAt, NothingClosed, Unfold, Names;
    var k, r := TokenAt(s, y, q), Materialize(s, prev, y, q, exprs);
    var rest, prev' := s[Len(k)..], IsBoundary(s[Len(k) - 1]);
    ParseOpen(s, y, q, close, k);
    ParseOpen(r, y, q, close, k);
    NothingClosedCond(s, prev, y, q, close, exprs);
    var w := ParseTo(rest, y, q, Brace(q));
    var w' := ParseTo(Materialize(rest, prev', y, q, exprs), y, q, Brace(q));
    if w.Parsed? && w'.Parsed? {
      var p, p' := ParseTo(w.rest, y, q, close), ParseTo(w'.rest, y, q, close);
      if NothingClosed(rest, prev', y, q, Brace(q), exprs) {
        ExtendCondReread(k, q, close, w.text, w'.text, p, p', y, exprs, defs, UsedIn(s, prev, y, q, exprs),
            UsedIn(w.rest, false, y, q, exprs));
      } else {
        CondMisread(k, y, q, close, w.text, w'.text, p, p', defs);
      }
    }
  }

  lemma NothingClosedCond(s: string, prev: bool, y: Syntax, q: Quote, close: Close, exprs: seq<Expression>)
    requires AllNonEmpty(exprs) && MatchAt(s, prev, y, q, exprs) < 0 && TokenAt(s, y, q).Open?
    ensures var k := TokenAt(s, y, q);
            var rest := s[Len(k)..];
            var w := ParseTo(rest, y, q, Brace(q));
            NothingClosed(s, prev, y, q, close, exprs) <==>
              && NothingClosed(rest, IsBoundary(s[Len(k) - 1]), y, q, Brace(q), exprs)
              && (w.Parsed? ==> NothingClosed(w.rest, false, y, q, close, exprs))
  {
    hide MatchAt, TokenAt, ParseTo;
  }

  lemma SimpleReadExactly(s: string, prev: bool, y: Syntax, q: Quote, close: Close, exprs: seq<Expression>, defs: Defs)
    requires AllNonEmpty(exprs) && ValidSyntax(y) && MatchAt(s, prev, y, q, exprs) < 0
    requires var k := TokenAt(s, y, q);
             && !IsLast(k, q, close) && !k.Open?
             && ReadExactly(s[Len(k)..], IsBoundary(s[Len(k) - 1]), y, NextQuote(k, y, q), close, exprs, defs)
    requires TokenCopied(s, prev, Materialize(s, prev, y, q, exprs), y, q, exprs)
    ensures ReadExactly(s, prev, y, q, close, exprs, defs)
  {
    hide ParseTo, Materialize, UsedIn, MatchAt, TokenAt, NothingClosed, Unfold, Names, Reread, Misread, Extend;
    var k, r := TokenAt(s, y, q), Materialize(s, prev, y, q, exprs);
    var rest, q', prev' := s[Len(k)..], NextQuote(k, y, q), IsBoundary(s[Len(k) - 1]);
    ParseSimple(s, y, q, close, k);
    ParseSimple(r, y, q, close, k);
    NothingClosedSimple(s, prev, y, q, close, exprs);
    ExtendReread(k, y, q, close, ParseTo(rest, y, q', close),
        ParseTo(Materialize(rest, prev', y, q', exprs), y, q', close), exprs, defs, UsedIn(s, prev, y, q, exprs));
  }

  lemma NothingClosedSimple(s: string, prev: bool, y: Syntax, q: Quote, close: Close, exprs: seq<Expression>)
    requires AllNonEmpty(exprs) && MatchAt(s, prev, y, q, exprs) < 0
    requires !IsLast(TokenAt(s, y, q), q, close) && !TokenAt(s, y, q).Open?
    ensures var k := TokenAt(s, y, q);
            NothingClosed(s, prev, y, q, close, exprs) <==>
              NothingClosed(s[Len(k)..], IsBoundary(s[Len(k) - 1]), y, NextQuote(k, y, q), close, exprs)
  {
    hide MatchAt, TokenAt;
  }

  /** The aliases the scan writes are the aliases of the decomposition's words. */
  lemma {:induction false} UsedInIsUsedBy(s: string, prev: bool, y: Syntax, q: Quote, exprs: seq<Expression>)
    requires AllNonEmpty(exprs)
    ensures UsedIn(s, prev, y, q, exprs) == UsedBy(Segments(s, prev, y, q, exprs), exprs)
    decreases |s|
  {
    hide UsedIn, Segments, UsedBy, SegmentOk;
    EmptySegments(prev, y, q, exprs);
    EmitNothing(exprs);
    UsedInFirst(s, prev, y, q, exprs);
    if s != [] {
      var segs := Segments(s, prev, y, q, exprs);
      FirstSegment(s, prev, y, q, exprs);
      var n := |Covers(segs[0], exprs)|;
      UsedInIsUsedBy(s[n..], IsBoundary(s[n - 1]), y, QuoteAfter(segs[0], y, q), exprs);
      UsedFirst(segs, exprs);
    }
  }

  lemma UsedInFirst(s: string, prev: bool, y: Syntax, q: Quote, exprs: seq<Expression>)
    requires AllNonEmpty(exprs)
    ensures s == [] ==> UsedIn(s, prev, y, q, exprs) == {}
    ensures s != [] ==>
              var segs := Segments(s, prev, y, q, exprs);
              && segs != []
              && var g := segs[0];
                 var n := |Covers(g, exprs)|;
                 && 0 < n <= |s|
                 && UsedIn(s, prev, y, q, exprs)
                    == (if g.Word? then {exprs[g.index].alias} else {})
                       + UsedIn(s[n..], IsBoundary(s[n - 1]), y, QuoteAfter(g, y, q), exprs)
  {
    hide BestOf, IsBoundary, IsBest;
  }

  lemma UsedFirst(segs: seq<Segment>, exprs: seq<Expression>)
    requires InRange(segs, exprs) && segs != []
    ensures InRange(segs[1..], exprs)
    ensures UsedBy(segs, exprs)
            == (if segs[0].Word? then {exprs[segs[0].index].alias} else {}) + UsedBy(segs[1..], exprs)
  {
    assert forall k | 0 < k < |segs| :: segs[k] == segs[1..][k - 1];
    var rest := segs[1..];
    forall a | a in UsedBy(rest, exprs) ensures a in UsedBy(segs, exprs) {
      var k :| 0 <= k < |rest| && rest[k].Word? && exprs[rest[k].index].alias == a;
      assert segs[k + 1] == rest[k];
    }
    forall a | a in UsedBy(segs, exprs)
      ensures a in UsedBy(rest, exprs) || (segs[0].Word? && a == exprs[segs[0].index].alias)
    {
      var k :| 0 <= k < |segs| && segs[k].Word? && exprs[segs[k].index].alias == a;
      if k > 0 {
        assert rest[k - 1] == segs[k];
      }
    }
  }

  /**
   Main result: of a well-formed header that mentions no alias, the materialized header is well formed and reads as the
   header does, each word back in its alias's place, if and only if no replaced word stands inside a brace it closes.
   */
  lemma MaterializeReadsIff(s: string, y: Syntax, exprs: seq<Expression>, defs: Defs)
    requires ValidSyntax(y) && !y.raw && AllNonEmpty(exprs) && Reads(defs, exprs, y)
    requires Parse(s, y).Parsed? && Fresh(Parse(s, y).text, defs)
    ensures var r := Parse(Materialize(s, true, y, Bare, exprs), y);
            r.Parsed? && Unfold(r.text, defs) == Parse(s, y).text <==> NothingClosed(s, true, y, Bare, Top, exprs)
  {
    hide Materialize, ParseTo, UsedIn, NothingClosed;
    MaterializeReads(s, true, y, Bare, Top, exprs, defs);
  }

  /**
   Then it refers to the aliases of exactly the replaced words, quoted unless they are written otherwise, and to nothing
   else that the header does not.
   */
  lemma MaterializedNames(s: string, y: Syntax, exprs: seq<Expression>, defs: Defs)
    requires ValidSyntax(y) && !y.raw && AllNonEmpty(exprs) && Reads(defs, exprs, y)
    requires Parse(s, y).Parsed? && Fresh(Parse(s, y).text, defs) && NothingClosed(s, true, y, Bare, Top, exprs)
    ensures var r := Parse(Materialize(s, true, y, Bare, exprs), y);
            && r.Parsed?
            && Names(r.text) * defs.Keys == UsedBy(Segments(s, true, y, Bare, exprs), exprs)
            && Names(r.text) - defs.Keys <= Names(Parse(s, y).text)
            && BareRightly(r.text, exprs, defs)
  {
    hide Materialize, ParseTo, UsedIn, NothingClosed, Segments, UsedBy;
    MaterializeReads(s, true, y, Bare, Top, exprs, defs);
    MaterializeEmpty(false, y, Bare, exprs);
    UsedInIsUsedBy(s, true, y, Bare, exprs);
    UnfoldNames(Parse(Materialize(s, true, y, Bare, exprs), y).text, defs);
  }

  lemma {:induction false} UnfoldNames(t: Text, defs: Defs)
    ensures Names(t) - defs.Keys <= Names(Unfold(t, defs))
  {
    match t
    case End =>
    case Char(_, _, rest) => UnfoldNames(rest, defs);
    case Value(name, _, rest) =>
      UnfoldNames(rest, defs);
      if name in defs {
        NamesJoin(defs[name], Unfold(rest, defs));
      }
    case Cond(_, _, _, _, word, rest) =>
      UnfoldNames(word, Inner(defs));
      UnfoldNames(rest, defs);
  }

  /** A malformed header stays malformed, if nothing is closed. */
  lemma MaterializeMalformed(s: string, y: Syntax, exprs: seq<Expression>, defs: Defs)
    requires ValidSyntax(y) && !y.raw && AllNonEmpty(exprs) && Reads(defs, exprs, y)
    requires Parse(s, y).Malformed? && NothingClosed(s, true, y, Bare, Top, exprs)
    ensures Parse(Materialize(s, true, y, Bare, exprs), y).Malformed?
  {
    hide Materialize, ParseTo, UsedIn, NothingClosed;
    MaterializeReads(s, true, y, Bare, Top, exprs, defs);
  }

  /** Each alias holds what its word comes to. */
  ghost predicate Holds(defs: Defs, env: Env) {
    forall a | a in defs :: a in env && env[a] == Flat(Eval(defs[a], env))
  }

  lemma {:induction false} UnfoldKeepsMeaning(t: Text, defs: Defs, env: Env)
    requires Holds(defs, env)
    ensures Flat(Eval(Unfold(t, defs), env)) == Flat(Eval(t, env))
    decreases t
  {
    if !t.End? {
      hide Eval, Flat, FirstOut, Unfold;
      UnfoldKeepsMeaning(t.rest, defs, env);
      EvalStep(t, End, env);
      FlatJoin(FirstOut(t, env), Eval(t.rest, env));
      if t.Value? && t.name in defs {
        UnfoldAlias(t, defs);
        FlatChars(env[t.name]);
        EvalJoin(defs[t.name], Unfold(t.rest, defs), env);
        FlatJoin(Eval(defs[t.name], env), Eval(Unfold(t.rest, defs), env));
        LookupOut(t, env);
      } else {
        if t.Cond? {
          InnerHolds(defs, env);
          UnfoldKeepsMeaning(t.word, Inner(defs), env);
        }
        UnfoldFirst(t, defs, env);
        EvalStep(Unfold(t, defs), End, env);
        FlatJoin(FirstOut(Unfold(t, defs), env), Eval(Unfold(t.rest, defs), env));
      }
    }
  }

  lemma UnfoldAlias(t: Text, defs: Defs)
    requires t.Value? && t.name in defs
    ensures Unfold(t, defs) == Join(defs[t.name], Unfold(t.rest, defs))
  {
  }

  lemma LookupOut(t: Text, env: Env)
    requires t.Value? && t.name in env
    ensures FirstOut(t, env) == Chars(env[t.name])
  {
  }

  lemma FlatChars(v: string)
    ensures Flat(Chars(v)) == v
  {
  }

  lemma UnfoldFirst(t: Text, defs: Defs, env: Env)
    requires !t.End? && !(t.Value? && t.name in defs)
    requires t.Cond? ==> Flat(Eval(Unfold(t.word, Inner(defs)), env)) == Flat(Eval(t.word, env))
    ensures !Unfold(t, defs).End? && Unfold(t, defs).rest == Unfold(t.rest, defs)
    ensures Flat(FirstOut(Unfold(t, defs), env)) == Flat(FirstOut(t, env))
  {
  }

  lemma InnerHolds(defs: Defs, env: Env)
    requires Holds(defs, env)
    ensures Holds(Inner(defs), env)
  {
    hide Flat;
    forall a | a in defs {
      EvalUnmark(defs[a], env);
    }
  }

  /**
   Main result: where each alias holds its word's value and no replaced word stands inside a brace it closes, the
   materialized header comes to what the header comes to, malformed headers included.
   */
  lemma MaterializePreservesMeaning(s: string, y: Syntax, exprs: seq<Expression>, defs: Defs, env: Env)
    requires ValidSyntax(y) && !y.raw && AllNonEmpty(exprs) && Reads(defs, exprs, y) && Holds(defs, env)
    requires Parse(s, y).Parsed? ==> Fresh(Parse(s, y).text, defs)
    requires NothingClosed(s, true, y, Bare, Top, exprs)
    ensures var e, r := Expand(s, y, env), Expand(Materialize(s, true, y, Bare, exprs), y, env);
            (e.Fails? <==> r.Fails?) && (e.Gives? && r.Gives? ==> Flat(r.out) == Flat(e.out))
  {
    hide Materialize, ParseTo, UsedIn, NothingClosed, Flat;
    if Parse(s, y).Parsed? {
      MaterializeReadsIff(s, y, exprs, defs);
      UnfoldKeepsMeaning(Parse(Materialize(s, true, y, Bare, exprs), y).text, defs, env);
    } else {
      MaterializeMalformed(s, y, exprs, defs);
    }
  }

  /** With no candidate the header is left alone. */
  lemma {:induction false} MaterializeNothing(s: string, prev: bool, y: Syntax, q: Quote)
    ensures Materialize(s, prev, y, q, []) == s && UsedIn(s, prev, y, q, []) == {}
    decreases |s|
  {
    hide Materialize;
    MaterializeStep(s, prev, y, q, []);
    if s == [] {
    } else if IsEscapePair(s, y, q) {
      MaterializeNothing(s[2..], IsBoundary(s[1]), y, q);
    } else {
      MaterializeNothing(s[1..], IsBoundary(s[0]), y, Toggle(s[0], y, q));
    }
  }
}
