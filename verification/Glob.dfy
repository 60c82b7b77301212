/**
 `matchGlob`: the memoised matcher of patterns with `**`, against what such a pattern means. How one part of a
 pattern matches one segment of a path is a parameter.
 */
module Glob {

  datatype Verdict = No | Yes | Malformed

  datatype Outcome = Decided(matched: bool) | BadPattern

  type Matching = (string, string) -> Verdict

  const ANY_RUN := "**"

  // ---- What a pattern means ----

  /** What one part takes of the path: `**` any run of segments, any other part one that it matches. */
  predicate Takes(seg: Matching, part: string, path: seq<string>, a: nat, b: nat) {
    if part == ANY_RUN then a <= b <= |path| else b == a + 1 <= |path| && seg(part, path[a]) == Yes
  }

  /** The cuts split `path[si..]` into one run for each of `parts[pi..]`. */
  ghost predicate Splits(seg: Matching, parts: seq<string>, path: seq<string>, pi: nat, si: nat, cuts: seq<nat>) {
    && pi <= |parts| && |cuts| == |parts| - pi + 1
    && cuts[0] == si && cuts[|cuts| - 1] == |path|
    && forall i | 0 <= i < |parts| - pi :: Takes(seg, parts[pi + i], path, cuts[i], cuts[i + 1])
  }

  ghost predicate Matches(seg: Matching, parts: seq<string>, path: seq<string>, pi: nat, si: nat) {
    exists cuts :: Splits(seg, parts, path, pi, si, cuts)
  }

  lemma NoPartsLeft(seg: Matching, parts: seq<string>, path: seq<string>, si: nat)
    ensures Matches(seg, parts, path, |parts|, si) <==> si == |path|
  {
    if si == |path| {
      assert Splits(seg, parts, path, |parts|, si, [si]);
    }
  }

  lemma Prepend(seg: Matching, parts: seq<string>, path: seq<string>, pi: nat, si: nat, next: nat)
    requires pi < |parts| && Takes(seg, parts[pi], path, si, next) && Matches(seg, parts, path, pi + 1, next)
    ensures Matches(seg, parts, path, pi, si)
  {
    hide Takes;
    var cuts :| Splits(seg, parts, path, pi + 1, next, cuts);
    var all := [si] + cuts;
    forall i | 0 <= i < |parts| - pi ensures Takes(seg, parts[pi + i], path, all[i], all[i + 1]) {
      if i > 0 {
        assert Takes(seg, parts[pi + 1 + (i - 1)], path, cuts[i - 1], cuts[i]);
      }
    }
    assert Splits(seg, parts, path, pi, si, all);
  }

  lemma Unprepend(seg: Matching, parts: seq<string>, path: seq<string>, pi: nat, si: nat) returns (next: nat)
    requires pi < |parts| && Matches(seg, parts, path, pi, si)
    ensures Takes(seg, parts[pi], path, si, next) && Matches(seg, parts, path, pi + 1, next)
  {
    hide Takes;
    var cuts :| Splits(seg, parts, path, pi, si, cuts);
    next := cuts[1];
    assert Takes(seg, parts[pi + 0], path, cuts[0], cuts[1]);
    forall i | 0 <= i < |parts| - (pi + 1) ensures Takes(seg, parts[pi + 1 + i], path, cuts[1..][i], cuts[1..][i + 1]) {
      assert Takes(seg, parts[pi + (i + 1)], path, cuts[i + 1], cuts[i + 2]);
    }
    assert Splits(seg, parts, path, pi + 1, next, cuts[1..]);
  }

  /** `**` takes nothing, or one segment and then as before. */
  lemma AnyRunStep(seg: Matching, parts: seq<string>, path: seq<string>, pi: nat, si: nat)
    requires pi < |parts| && parts[pi] == ANY_RUN && si <= |path|
    ensures Matches(seg, parts, path, pi, si) <==>
              Matches(seg, parts, path, pi + 1, si) || (si < |path| && Matches(seg, parts, path, pi, si + 1))
  {
    hide Matches;
    if Matches(seg, parts, path, pi + 1, si) {
      Prepend(seg, parts, path, pi, si, si);
    } else if si < |path| && Matches(seg, parts, path, pi, si + 1) {
      var next := Unprepend(seg, parts, path, pi, si + 1);
      Prepend(seg, parts, path, pi, si, next);
    } else if Matches(seg, parts, path, pi, si) {
      var next := Unprepend(seg, parts, path, pi, si);
      if next > si {
        Prepend(seg, parts, path, pi, si + 1, next);
      }
    }
  }

  lemma PartStep(seg: Matching, parts: seq<string>, path: seq<string>, pi: nat, si: nat)
    requires pi < |parts| && parts[pi] != ANY_RUN && si <= |path|
    ensures Matches(seg, parts, path, pi, si) <==>
              si < |path| && seg(parts[pi], path[si]) == Yes && Matches(seg, parts, path, pi + 1, si + 1)
  {
    hide Matches;
    if Matches(seg, parts, path, pi, si) {
      var next := Unprepend(seg, parts, path, pi, si);
    } else if si < |path| && seg(parts[pi], path[si]) == Yes && Matches(seg, parts, path, pi + 1, si + 1) {
      Prepend(seg, parts, path, pi, si, si + 1);
    }
  }

  /** The parts before one that is malformed for a segment may take just the segments before it. */
  ghost predicate FailsAt(seg: Matching, parts: seq<string>, path: seq<string>, pi: nat, si: nat, qi: nat, qj: nat) {
    && pi <= qi < |parts| && qj < |path| && parts[qi] != ANY_RUN && seg(parts[qi], path[qj]) == Malformed
    && Matches(seg, parts[..qi], path[..qj], pi, si)
  }

  /** Some way of matching meets a malformed part. */
  ghost predicate MayFail(seg: Matching, parts: seq<string>, path: seq<string>, pi: nat, si: nat) {
    exists qi, qj :: FailsAt(seg, parts, path, pi, si, qi, qj)
  }

  lemma NothingLeftToFail(seg: Matching, parts: seq<string>, path: seq<string>, si: nat)
    ensures !MayFail(seg, parts, path, |parts|, si)
  {
    hide Matches;
  }

  lemma AnyRunFails(seg: Matching, parts: seq<string>, path: seq<string>, pi: nat, si: nat, qi: nat, qj: nat)
    requires pi < |parts| && parts[pi] == ANY_RUN && si <= |path|
    ensures FailsAt(seg, parts, path, pi, si, qi, qj) <==>
              FailsAt(seg, parts, path, pi + 1, si, qi, qj)
              || (si < |path| && FailsAt(seg, parts, path, pi, si + 1, qi, qj))
  {
    hide Matches;
    if pi < qi < |parts| && qj < |path| {
      if si <= qj {
        AnyRunStep(seg, parts[..qi], path[..qj], pi, si);
      }
      MatchesWithin(seg, parts[..qi], path[..qj], pi, si);
      MatchesWithin(seg, parts[..qi], path[..qj], pi, si + 1);
      MatchesWithin(seg, parts[..qi], path[..qj], pi + 1, si);
    }
  }

  /** What matches begins within the path. */
  lemma {:induction false} MatchesWithin(seg: Matching, parts: seq<string>, path: seq<string>, pi: nat, si: nat)
    requires pi <= |parts|
    ensures Matches(seg, parts, path, pi, si) ==> si <= |path|
    decreases |parts| - pi
  {
    hide Matches;
    if pi == |parts| {
      NoPartsLeft(seg, parts, path, si);
    } else if Matches(seg, parts, path, pi, si) {
      var next := Unprepend(seg, parts, path, pi, si);
    }
  }

  /** `**` fails where what comes after it does, now or one segment on. */
  lemma AnyRunMayFail(seg: Matching, parts: seq<string>, path: seq<string>, pi: nat, si: nat)
    requires pi < |parts| && parts[pi] == ANY_RUN && si <= |path|
    ensures MayFail(seg, parts, path, pi, si) <==>
              MayFail(seg, parts, path, pi + 1, si) || (si < |path| && MayFail(seg, parts, path, pi, si + 1))
  {
    hide FailsAt;
    if MayFail(seg, parts, path, pi, si) {
      var qi, qj :| FailsAt(seg, parts, path, pi, si, qi, qj);
      AnyRunFails(seg, parts, path, pi, si, qi, qj);
    }
    if MayFail(seg, parts, path, pi + 1, si) {
      var qi, qj :| FailsAt(seg, parts, path, pi + 1, si, qi, qj);
      AnyRunFails(seg, parts, path, pi, si, qi, qj);
    }
    if si < |path| && MayFail(seg, parts, path, pi, si + 1) {
      var qi, qj :| FailsAt(seg, parts, path, pi, si + 1, qi, qj);
      AnyRunFails(seg, parts, path, pi, si, qi, qj);
    }
  }

  lemma PartFails(seg: Matching, parts: seq<string>, path: seq<string>, pi: nat, si: nat, qi: nat, qj: nat)
    requires pi < |parts| && parts[pi] != ANY_RUN && si <= |path|
    ensures FailsAt(seg, parts, path, pi, si, qi, qj) <==>
              && si < |path|
              && if qi == pi then qj == si && seg(parts[pi], path[si]) == Malformed
                 else seg(parts[pi], path[si]) == Yes && FailsAt(seg, parts, path, pi + 1, si + 1, qi, qj)
  {
    hide Matches;
    if pi <= qi < |parts| && qj < |path| {
      if qi == pi {
        NoPartsLeft(seg, parts[..qi], path[..qj], si);
      } else {
        MatchesWithin(seg, parts[..qi], path[..qj], pi, si);
        MatchesWithin(seg, parts[..qi], path[..qj], pi + 1, si + 1);
        if si <= qj {
          PartStep(seg, parts[..qi], path[..qj], pi, si);
        }
      }
    }
  }

  /** Any other part fails where it is malformed, or matches and what comes after it fails. */
  lemma PartMayFail(seg: Matching, parts: seq<string>, path: seq<string>, pi: nat, si: nat)
    requires pi < |parts| && parts[pi] != ANY_RUN && si <= |path|
    ensures MayFail(seg, parts, path, pi, si) <==>
              && si < |path|
              && (seg(parts[pi], path[si]) == Malformed
                  || (seg(parts[pi], path[si]) == Yes && MayFail(seg, parts, path, pi + 1, si + 1)))
  {
    hide FailsAt;
    if MayFail(seg, parts, path, pi, si) {
      var qi, qj :| FailsAt(seg, parts, path, pi, si, qi, qj);
      PartFails(seg, parts, path, pi, si, qi, qj);
    }
    if si < |path| && seg(parts[pi], path[si]) == Malformed {
      PartFails(seg, parts, path, pi, si, pi, si);
    }
    if si < |path| && seg(parts[pi], path[si]) == Yes && MayFail(seg, parts, path, pi + 1, si + 1) {
      var qi, qj :| FailsAt(seg, parts, path, pi + 1, si + 1, qi, qj);
      FailsLater(seg, parts, path, pi + 1, si + 1, qi, qj);
      PartFails(seg, parts, path, pi, si, qi, qj);
    }
  }

  lemma FailsLater(seg: Matching, parts: seq<string>, path: seq<string>, pi: nat, si: nat, qi: nat, qj: nat)
    requires FailsAt(seg, parts, path, pi, si, qi, qj)
    ensures qi >= pi
  {
  }

  // ---- The matcher ----

  datatype Place = Place(pattern: nat, path: nat) {
    function Depth(): nat { pattern + path }
  }

  /** What a decision means: a match, or none and no malformed part met on any way. */
  ghost predicate Means(seg: Matching, parts: seq<string>, path: seq<string>, pi: nat, si: nat, matched: bool) {
    && (matched <==> Matches(seg, parts, path, pi, si))
    && (!matched ==> !MayFail(seg, parts, path, pi, si))
  }

  /** A look-up of the memo, where a missing entry is false, agrees with the meaning. */
  ghost predicate Right(seg: Matching, parts: seq<string>, path: seq<string>, memo: map<Place, bool>, k: Place) {
    Means(seg, parts, path, k.pattern, k.path, k in memo && memo[k])
  }

  /** Every place seen is one being worked on, or remembered rightly. */
  ghost predicate Sound(seg: Matching, parts: seq<string>, path: seq<string>, memo: map<Place, bool>,
      seen: set<Place>, busy: set<Place>) {
    memo.Keys <= seen && forall k | k in seen :: k in busy || Right(seg, parts, path, memo, k)
  }

  predicate InBounds(parts: seq<string>, path: seq<string>, seen: set<Place>) {
    forall k | k in seen :: k.pattern <= |parts| && k.path <= |path|
  }

  /** All but the places before depth `d` may have changed. */
  ghost predicate SameBefore(d: nat, a: map<Place, bool>, b: map<Place, bool>) {
    forall k: Place | k.Depth() < d :: k in a <==> k in b
  }

  lemma Entering(seg: Matching, parts: seq<string>, path: seq<string>, memo: map<Place, bool>, seen: set<Place>,
      busy: set<Place>, key: Place)
    requires Sound(seg, parts, path, memo, seen, busy)
    ensures Sound(seg, parts, path, memo, seen + {key}, busy + {key})
  {
    hide Right;
  }

  /** Leaving with the decision in the memo. */
  lemma Deciding(seg: Matching, parts: seq<string>, path: seq<string>, memo: map<Place, bool>, seen: set<Place>,
      busy: set<Place>, key: Place, b: bool)
    requires Sound(seg, parts, path, memo, seen, busy + {key}) && key in seen
    requires Means(seg, parts, path, key.pattern, key.path, b)
    ensures Sound(seg, parts, path, memo[key := b], seen, busy)
  {
    hide Means;
  }

  /** Leaving with no entry, which reads as false. */
  lemma Refusing(seg: Matching, parts: seq<string>, path: seq<string>, memo: map<Place, bool>, seen: set<Place>,
      busy: set<Place>, key: Place)
    requires Sound(seg, parts, path, memo, seen, busy + {key})
    requires key !in memo && Means(seg, parts, path, key.pattern, key.path, false)
    ensures Sound(seg, parts, path, memo, seen, busy)
  {
    hide Means;
  }

  lemma Remembering(seg: Matching, parts: seq<string>, path: seq<string>, memo: map<Place, bool>, seen: set<Place>,
      busy: set<Place>, key: Place)
    requires Sound(seg, parts, path, memo, seen, busy) && forall k | k in busy :: k.Depth() < key.Depth()
    ensures key !in busy
    ensures key in seen ==> Means(seg, parts, path, key.pattern, key.path, key in memo && memo[key])
    ensures key !in seen ==> key !in memo
  {
    hide Means;
    assert key in seen ==> key in busy || Right(seg, parts, path, memo, key);
  }

  class Matcher {
    const seg: Matching
    const parts: seq<string>
    const path: seq<string>
    var memo: map<Place, bool>
    var seen: set<Place>
    /** How often `Match` has been called. */
    ghost var calls: nat

    constructor (seg: Matching, parts: seq<string>, path: seq<string>)
      ensures this.seg == seg && this.parts == parts && this.path == path
      ensures memo == map[] && seen == {} && calls == 0
    {
      this.seg, this.parts, this.path := seg, parts, path;
      memo, seen, calls := map[], {}, 0;
    }

    /**
     Decides whether `parts[pi..]` matches `path[si..]`. The places being worked on all lie before this one, so a
     place already seen is never one of them; and a malformed part ends the search.
     */
    method Match(pi: nat, si: nat, ghost busy: set<Place>) returns (r: Outcome)
      requires pi <= |parts| && si <= |path| && InBounds(parts, path, seen)
      requires Sound(seg, parts, path, memo, seen, busy) && forall k | k in busy :: k.Depth() < pi + si
      modifies this
      ensures old(seen) <= seen && InBounds(parts, path, seen)
      ensures SameBefore(pi + si, old(memo), memo)
      ensures r.Decided? ==>
              Sound(seg, parts, path, memo, seen, busy) && Means(seg, parts, path, pi, si, r.matched)
      ensures r.BadPattern? ==> MayFail(seg, parts, path, pi, si)
      ensures calls <= old(calls) + 1 + 2 * (|seen| - |old(seen)|)
      decreases |parts| - pi + |path| - si
    {
      hide Matches, MayFail, Sound;
      var key := Place(pi, si);
      calls := calls + 1;
      Remembering(seg, parts, path, memo, seen, busy, key);
      if key in seen {
        return Decided(key in memo && memo[key]);
      }
      Entering(seg, parts, path, memo, seen, busy, key);
      seen := seen + {key};
      if pi == |parts| {
        NoPartsLeft(seg, parts, path, si);
        NothingLeftToFail(seg, parts, path, si);
        Deciding(seg, parts, path, memo, seen, busy, key, si == |path|);
        memo := memo[key := si == |path|];
        return Decided(si == |path|);
      }
      if parts[pi] == "**" {
        AnyRunStep(seg, parts, path, pi, si);
        AnyRunMayFail(seg, parts, path, pi, si);
        r := Match(pi + 1, si, busy + {key});
        if r.BadPattern? || r.matched {
          if r.Decided? {
            Deciding(seg, parts, path, memo, seen, busy, key, r.matched);
          }
          memo := memo[key := r.Decided? && r.matched];
          return;
        }
        if si < |path| {
          r := Match(pi, si + 1, busy + {key});
          if r.Decided? {
            Deciding(seg, parts, path, memo, seen, busy, key, r.matched);
          }
          memo := memo[key := r.Decided? && r.matched];
          return;
        }
        Refusing(seg, parts, path, memo, seen, busy, key);
        return Decided(false);
      }
      PartStep(seg, parts, path, pi, si);
      PartMayFail(seg, parts, path, pi, si);
      if si >= |path| {
        Refusing(seg, parts, path, memo, seen, busy, key);
        return Decided(false);
      }
      var verdict := seg(parts[pi], path[si]);
      if verdict == Malformed {
        return BadPattern;
      }
      if verdict == No {
        Refusing(seg, parts, path, memo, seen, busy, key);
        return Decided(false);
      }
      r := Match(pi + 1, si + 1, busy + {key});
      if r.Decided? {
        Deciding(seg, parts, path, memo, seen, busy, key, r.matched);
      }
      memo := memo[key := r.Decided? && r.matched];
    }
  }

  /** All the places there are. */
  ghost function Grid(p: nat, s: nat): set<Place> {
    set pi: nat, si: nat | pi <= p && si <= s :: Place(pi, si)
  }

  ghost function Row(p: nat, s: nat): set<Place> {
    set si: nat | si <= s :: Place(p, si)
  }

  lemma {:induction false} RowSize(p: nat, s: nat)
    ensures |Row(p, s)| == s + 1
  {
    if s == 0 {
      assert Row(p, s) == {Place(p, 0)};
    } else {
      RowSize(p, s - 1);
      assert Row(p, s) == Row(p, s - 1) + {Place(p, s)};
    }
  }

  lemma GridGrows(p: nat, s: nat)
    ensures if p == 0 then Grid(p, s) == Row(p, s)
            else Grid(p, s) == Grid(p - 1, s) + Row(p, s) && Grid(p - 1, s) !! Row(p, s)
  {
  }

  lemma {:induction false} GridSize(p: nat, s: nat)
    ensures |Grid(p, s)| == (p + 1) * (s + 1)
  {
    hide Grid, Row;
    GridGrows(p, s);
    RowSize(p, s);
    if p > 0 {
      GridSize(p - 1, s);
      assert p * (s + 1) + (s + 1) == (p + 1) * (s + 1);
    }
  }

  lemma WithinGrid(parts: seq<string>, path: seq<string>, seen: set<Place>)
    requires InBounds(parts, path, seen)
    ensures |seen| <= (|parts| + 1) * (|path| + 1)
  {
    var all := Grid(|parts|, |path|);
    GridSize(|parts|, |path|);
    forall k | k in seen ensures k in all {
      assert k == Place(k.pattern, k.path);
    }
    assert all == seen + (all - seen);
  }

  /**
   Main result: a decision is the declarative one, and a refusal means that no way of matching meets a malformed part,
   so that one is never taken for a part that does not match; the pattern is bad only where one meets it. No place is
   worked on twice, and the calls are bounded by the number of places.
   */
  method MatchGlob(seg: Matching, parts: seq<string>, path: seq<string>)
      returns (r: Outcome, ghost places: nat, ghost calls: nat)
    ensures match r
            case Decided(true) => Matches(seg, parts, path, 0, 0)
            case Decided(false) => !Matches(seg, parts, path, 0, 0) && !MayFail(seg, parts, path, 0, 0)
            case BadPattern => MayFail(seg, parts, path, 0, 0)
    ensures places <= (|parts| + 1) * (|path| + 1) && calls <= 1 + 2 * places
  {
    hide Matches, MayFail;
    var m := new Matcher(seg, parts, path);
    r := m.Match(0, 0, {});
    places, calls := |m.seen|, m.calls;
    WithinGrid(parts, path, m.seen);
  }
}
