/**
 The cache of tag names under interleaved callers: look, join a shared load, look again, load, store, hand out copies.
 Slices are numbered pieces of storage, so that sharing and mutation show; the cache may drop an entry at any step.
 The shared loads keep their contract: at most one at a time for a key, joiners get its result, no caller leaves.
 */
module TagCache {

  type Names = seq<string>

  datatype Result = Err | Ok(slice: nat)

  /** A shared load: begun, found nothing in the cache, asking the registry, copied what it got, or done. */
  datatype Stage = Begun | Missed | Loading | Copied(slice: nat) | Done(result: Result)

  datatype Flight = Flight(key: string, stage: Stage)

  datatype Phase = Asked | Joining | Waiting(flight: nat) | Holding(slice: nat) | Returned(slice: nat) | Refused

  datatype Caller = Caller(key: string, phase: Phase)

  /**
   `heap` holds the contents of the slices below `next`; `shared` are those someone outside the cache may write to;
   `loaded` and `handed` record what the registry gave and what callers were handed.
   */
  datatype State = State(
    heap: map<nat, Names>, next: nat, shared: set<nat>,
    cache: map<string, nat>, running: map<string, nat>,
    flights: seq<Flight>, callers: seq<Caller>,
    loaded: set<(string, Names)>, handed: seq<(string, Names)>)

  datatype Event =
    | Call(key: string)
    | Look(c: nat)
    | Join(c: nat)
    | Recheck(f: nat)
    | StartLoad(f: nat)
    | LoadFails(f: nat)
    | LoadGives(f: nat, names: Names)
    | Store(f: nat)
    | Finish(f: nat)
    | Wake(c: nat)
    | HandOut(c: nat)
    | Mutate(slice: nat, names: Names)
    | Evict(key: string)

  const Start := State(map[], 0, {}, map[], map[], [], [], {}, [])

  // ---- Steps ----

  predicate Enabled(s: State, e: Event) {
    match e
    case Call(_) => true
    case Look(c) => c < |s.callers| && s.callers[c].phase.Asked?
    case Join(c) => c < |s.callers| && s.callers[c].phase.Joining?
    case Recheck(f) => f < |s.flights| && s.flights[f].stage.Begun?
    case StartLoad(f) => f < |s.flights| && s.flights[f].stage.Missed?
    case LoadFails(f) => f < |s.flights| && s.flights[f].stage.Loading?
    case LoadGives(f, _) => f < |s.flights| && s.flights[f].stage.Loading?
    case Store(f) => f < |s.flights| && s.flights[f].stage.Copied?
    case Finish(f) => f < |s.flights| && s.flights[f].stage.Done? && s.flights[f].key in s.running
        && s.running[s.flights[f].key] == f
    case Wake(c) => c < |s.callers| && s.callers[c].phase.Waiting? && s.callers[c].phase.flight < |s.flights|
                    && s.flights[s.callers[c].phase.flight].stage.Done?
    case HandOut(c) => c < |s.callers| && s.callers[c].phase.Holding? && s.callers[c].phase.slice in s.heap
    case Mutate(slice, _) => slice in s.shared
    case Evict(_) => true
  }

  function Moves(s: State, c: nat, phase: Phase): State
    requires c < |s.callers|
  {
    s.(callers := s.callers[c := s.callers[c].(phase := phase)])
  }

  function Goes(s: State, f: nat, stage: Stage): State
    requires f < |s.flights|
  {
    s.(flights := s.flights[f := s.flights[f].(stage := stage)])
  }

  /** A new slice for someone outside. */
  function Shares(s: State, names: Names): State {
    s.(heap := s.heap[s.next := names], next := s.next + 1, shared := s.shared + {s.next})
  }

  function Apply(s: State, e: Event): State {
    if !Enabled(s, e) then s
    else
      match e
      case Call(key) => s.(callers := s.callers + [Caller(key, Asked)])
      case Look(c) =>
        var key := s.callers[c].key;
        Moves(s, c, if key in s.cache then Holding(s.cache[key]) else Joining)
      case Join(c) =>
        var key := s.callers[c].key;
        if key in s.running then Moves(s, c, Waiting(s.running[key]))
        else
          Moves(s.(flights := s.flights + [Flight(key, Begun)], running := s.running[key := |s.flights|]), c,
              Waiting(|s.flights|))
      case Recheck(f) =>
        var key := s.flights[f].key;
        Goes(s, f, if key in s.cache then Done(Ok(s.cache[key])) else Missed)
      case StartLoad(f) => Goes(s, f, Loading)
      case LoadFails(f) => Goes(s, f, Done(Err))
      case LoadGives(f, names) =>
        // The registry keeps its own slice; the cache's is a copy.
        var t := Shares(s, names);
        Goes(t.(heap := t.heap[t.next := names], next := t.next + 1, loaded := t.loaded
            + {(s.flights[f].key, names)}), f, Copied(t.next))
      case Store(f) =>
        var slice := s.flights[f].stage.slice;
        Goes(s.(cache := s.cache[s.flights[f].key := slice]), f, Done(Ok(slice)))
      case Finish(f) => s.(running := s.running - {s.flights[f].key})
      case Wake(c) =>
        var result := s.flights[s.callers[c].phase.flight].stage.result;
        Moves(s, c, if result.Err? then Refused else Holding(result.slice))
      case HandOut(c) =>
        var names := s.heap[s.callers[c].phase.slice];
        Moves(Shares(s, names).(handed := s.handed + [(s.callers[c].key, names)]), c, Returned(s.next))
      case Mutate(slice, names) => s.(heap := s.heap[slice := names])
      case Evict(key) => s.(cache := s.cache - {key})
  }

  function Run(s: State, events: seq<Event>): State {
    if events == [] then s else Apply(Run(s, events[..|events| - 1]), events[|events| - 1])
  }

  // ---- The invariant ----

  /** A slice only the cache and its readers know, holding what was loaded for `key`. */
  predicate Good(heap: map<nat, Names>, shared: set<nat>, loaded: set<(string, Names)>, key: string, slice: nat) {
    slice in heap && slice !in shared && (key, heap[slice]) in loaded
  }

  predicate SlicesOk(s: State) {
    && (forall i | i in s.heap :: i < s.next)
    && s.shared <= s.heap.Keys
    && forall k | 0 <= k < |s.handed| :: s.handed[k] in s.loaded
  }

  predicate CacheOk(s: State) {
    forall key | key in s.cache :: Good(s.heap, s.shared, s.loaded, key, s.cache[key])
  }

  predicate RunningOk(s: State) {
    forall key | key in s.running :: s.running[key] < |s.flights| && s.flights[s.running[key]].key == key
  }

  /**
   A load that is not done is its key's one running load; one that looked and missed still has nothing in the cache.
   */
  predicate FlightOk(s: State, f: nat)
    requires f < |s.flights|
  {
    var key := s.flights[f].key;
    && (!s.flights[f].stage.Done? ==> key in s.running && s.running[key] == f)
    && match s.flights[f].stage
       case Begun => true
       case Missed => key !in s.cache
       case Loading => key !in s.cache
       case Copied(slice) => key !in s.cache && Good(s.heap, s.shared, s.loaded, key, slice)
       case Done(r) => r.Ok? ==> Good(s.heap, s.shared, s.loaded, key, r.slice)
  }

  predicate CallerOk(s: State, c: nat)
    requires c < |s.callers|
  {
    match s.callers[c].phase
    case Waiting(f) => f < |s.flights| && s.flights[f].key == s.callers[c].key
    case Holding(slice) => Good(s.heap, s.shared, s.loaded, s.callers[c].key, slice)
    case Returned(slice) => slice in s.shared
    case _ => true
  }

  predicate ReturnedDistinct(s: State) {
    forall c, d | 0 <= c < d < |s.callers| && s.callers[c].phase.Returned? && s.callers[d].phase.Returned? ::
      s.callers[c].phase.slice != s.callers[d].phase.slice
  }

  predicate FlightsOk(s: State) {
    forall f | 0 <= f < |s.flights| :: FlightOk(s, f)
  }

  predicate CallersOk(s: State) {
    forall c | 0 <= c < |s.callers| :: CallerOk(s, c)
  }

  predicate Inv(s: State) {
    SlicesOk(s) && CacheOk(s) && RunningOk(s) && FlightsOk(s) && CallersOk(s) && ReturnedDistinct(s)
  }

  // ---- Every step keeps it ----

  lemma CallerStepKeepsInv(s: State, e: Event)
    requires Inv(s) && Enabled(s, e)
    requires e.Call? || e.Look? || e.Wake? || (e.Join? && s.callers[e.c].key in s.running)
    ensures Inv(Apply(s, e))
  {
    hide Good;
    var t := Apply(s, e);
    if e.Wake? {
      assert CallerOk(s, e.c) && FlightOk(s, s.callers[e.c].phase.flight);
    }
    forall f | 0 <= f < |t.flights| ensures FlightOk(t, f) {
      assert FlightOk(s, f);
    }
    forall c | 0 <= c < |t.callers| ensures CallerOk(t, c) {
      if c < |s.callers| {
        assert CallerOk(s, c);
      }
    }
  }

  /** The first to miss begins a shared load. */
  lemma BeginKeepsInv(s: State, e: Event)
    requires Inv(s) && Enabled(s, e) && e.Join? && s.callers[e.c].key !in s.running
    ensures Inv(Apply(s, e))
  {
    hide Good;
    var t := Apply(s, e);
    forall f | 0 <= f < |t.flights| ensures FlightOk(t, f) {
      if f < |s.flights| {
        assert FlightOk(s, f);
      }
    }
    forall c | 0 <= c < |t.callers| ensures CallerOk(t, c) {
      assert CallerOk(s, c);
    }
  }

  lemma FlightStepKeepsInv(s: State, e: Event)
    requires Inv(s) && Enabled(s, e) && (e.Recheck? || e.StartLoad? || e.LoadFails? || e.Finish?)
    ensures Inv(Apply(s, e))
  {
    hide Good;
    var t := Apply(s, e);
    assert FlightOk(s, e.f);
    forall f | 0 <= f < |t.flights| ensures FlightOk(t, f) {
      assert FlightOk(s, f);
    }
    forall c | 0 <= c < |t.callers| ensures CallerOk(t, c) {
      assert CallerOk(s, c);
    }
  }

  lemma LoadKeepsInv(s: State, e: Event)
    requires Inv(s) && Enabled(s, e) && e.LoadGives?
    ensures Inv(Apply(s, e))
  {
    var t := Apply(s, e);
    assert FlightOk(s, e.f);
    forall f | 0 <= f < |t.flights| ensures FlightOk(t, f) {
      assert FlightOk(s, f);
    }
    forall c | 0 <= c < |t.callers| ensures CallerOk(t, c) {
      assert CallerOk(s, c);
    }
  }

  /** Storing is the only way in, and only for a key with nothing in the cache. */
  lemma StoreKeepsInv(s: State, e: Event)
    requires Inv(s) && Enabled(s, e) && e.Store?
    ensures Inv(Apply(s, e))
    ensures s.flights[e.f].key !in s.cache
  {
    hide Good;
    var t := Apply(s, e);
    assert FlightOk(s, e.f);
    forall f | 0 <= f < |t.flights| ensures FlightOk(t, f) {
      assert FlightOk(s, f);
    }
    forall c | 0 <= c < |t.callers| ensures CallerOk(t, c) {
      assert CallerOk(s, c);
    }
  }

  lemma HandOutKeepsInv(s: State, e: Event)
    requires Inv(s) && Enabled(s, e) && e.HandOut?
    ensures Inv(Apply(s, e))
  {
    var t := Apply(s, e);
    assert CallerOk(s, e.c);
    forall f | 0 <= f < |t.flights| ensures FlightOk(t, f) {
      assert FlightOk(s, f);
    }
    forall c | 0 <= c < |t.callers| ensures CallerOk(t, c) {
      assert CallerOk(s, c);
    }
    forall c, d | 0 <= c < d < |t.callers| && t.callers[c].phase.Returned? && t.callers[d].phase.Returned?
      ensures t.callers[c].phase.slice != t.callers[d].phase.slice
    {
      assert CallerOk(s, c) && CallerOk(s, d);
    }
  }

  lemma OutsideKeepsInv(s: State, e: Event)
    requires Inv(s) && Enabled(s, e) && (e.Mutate? || e.Evict?)
    ensures Inv(Apply(s, e))
  {
    var t := Apply(s, e);
    forall f | 0 <= f < |t.flights| ensures FlightOk(t, f) {
      assert FlightOk(s, f);
    }
    forall c | 0 <= c < |t.callers| ensures CallerOk(t, c) {
      assert CallerOk(s, c);
    }
  }

  lemma StepKeepsInv(s: State, e: Event)
    requires Inv(s)
    ensures Inv(Apply(s, e))
  {
    hide Inv;
    if Enabled(s, e) {
      match e
      case LoadGives(_, _) => LoadKeepsInv(s, e);
      case Store(_) => StoreKeepsInv(s, e);
      case HandOut(_) => HandOutKeepsInv(s, e);
      case Mutate(_, _) => OutsideKeepsInv(s, e);
      case Evict(_) => OutsideKeepsInv(s, e);
      case Recheck(_) => FlightStepKeepsInv(s, e);
      case StartLoad(_) => FlightStepKeepsInv(s, e);
      case LoadFails(_) => FlightStepKeepsInv(s, e);
      case Finish(_) => FlightStepKeepsInv(s, e);
      case Join(c) =>
        if s.callers[c].key in s.running {
          CallerStepKeepsInv(s, e);
        } else {
          BeginKeepsInv(s, e);
        }
      case _ => CallerStepKeepsInv(s, e);
    }
  }

  lemma {:induction false} RunsKeepInv(events: seq<Event>)
    ensures Inv(Run(Start, events))
  {
    hide Apply, Inv;
    if events == [] {
      StartIsOk();
    } else {
      RunsKeepInv(events[..|events| - 1]);
      StepKeepsInv(Run(Start, events[..|events| - 1]), events[|events| - 1]);
    }
  }

  lemma StartIsOk()
    ensures Inv(Start)
  {
  }

  // ---- Main results, over every run ----

  /** Whatever callers were handed for a key had been loaded for that key; so is all the cache holds: never an error. */
  lemma OnlyLoadedValues(events: seq<Event>)
    ensures var s := Run(Start, events);
            && (forall k | 0 <= k < |s.handed| :: s.handed[k] in s.loaded)
            && (forall key | key in s.cache :: s.cache[key] in s.heap && (key, s.heap[s.cache[key]]) in s.loaded)
  {
    hide Run;
    RunsKeepInv(events);
  }

  /** No load starts while its key is in the cache, or while another load of the key goes on. */
  lemma NoNeedlessLoad(events: seq<Event>, f: nat)
    requires var s := Run(Start, events); Enabled(s, StartLoad(f))
    ensures var s := Run(Start, events);
            && s.flights[f].key !in s.cache
            && forall g | 0 <= g < |s.flights| && g != f && s.flights[g].key == s.flights[f].key ::
              s.flights[g].stage.Done?
  {
    hide Run;
    RunsKeepInv(events);
    var s := Run(Start, events);
    assert FlightOk(s, f);
    forall g | 0 <= g < |s.flights| && g != f && s.flights[g].key == s.flights[f].key ensures s.flights[g].stage.Done? {
      assert FlightOk(s, g);
    }
  }

  /** What a failed load leaves in the cache is what was there before: nothing for its key. */
  lemma ErrorsAreNotCached(events: seq<Event>, f: nat)
    requires Enabled(Run(Start, events), LoadFails(f))
    ensures var s := Run(Start, events);
            Apply(s, LoadFails(f)).cache == s.cache && s.flights[f].key !in s.cache
  {
    hide Run;
    RunsKeepInv(events);
    assert FlightOk(Run(Start, events), f);
  }

  /** A slice handed out is new: in no cache entry, no load's result, and no other caller's hands. */
  lemma HandedOutIsFresh(events: seq<Event>, c: nat)
    requires var s := Run(Start, events); c < |s.callers| && s.callers[c].phase.Returned?
    ensures var s := Run(Start, events);
            var slice := s.callers[c].phase.slice;
            && (forall key | key in s.cache :: s.cache[key] != slice)
            && (forall f | 0 <= f < |s.flights| && s.flights[f].stage.Done? && s.flights[f].stage.result.Ok? ::
                  s.flights[f].stage.result.slice != slice)
            && (forall d | 0 <= d < |s.callers| && d != c && s.callers[d].phase.Returned? ::
              s.callers[d].phase.slice != slice)
  {
    hide Run;
    RunsKeepInv(events);
    var s := Run(Start, events);
    assert CallerOk(s, c);
    forall f | 0 <= f < |s.flights| && s.flights[f].stage.Done? && s.flights[f].stage.result.Ok?
      ensures s.flights[f].stage.result.slice != s.callers[c].phase.slice
    {
      assert FlightOk(s, f);
    }
  }

  /** So whatever is written to it, every cached value and every value about to be handed out stays the same. */
  lemma MutationIsPrivate(events: seq<Event>, slice: nat, names: Names)
    requires Enabled(Run(Start, events), Mutate(slice, names))
    ensures var s := Run(Start, events);
            var t := Apply(s, Mutate(slice, names));
            && t.cache == s.cache
              && (forall key | key in s.cache :: s.cache[key] in s.heap && t.heap[s.cache[key]] == s.heap[s.cache[key]])
            && (forall c | 0 <= c < |s.callers| && s.callers[c].phase.Holding? ::
                  s.callers[c].phase.slice in s.heap
                      && t.heap[s.callers[c].phase.slice] == s.heap[s.callers[c].phase.slice])
  {
    hide Run;
    RunsKeepInv(events);
    var s := Run(Start, events);
    forall c | 0 <= c < |s.callers| && s.callers[c].phase.Holding?
      ensures s.callers[c].phase.slice in s.heap && s.callers[c].phase.slice !in s.shared
    {
      assert CallerOk(s, c);
    }
  }

  // ---- What is loaded is used ----

  /** The names flight `f` loaded are still its own to store, or the cache holds them. */
  ghost predicate Held(s: State, f: nat, names: Names) {
    f < |s.flights|
    && match s.flights[f].stage
       case Copied(slice) => slice in s.heap && s.heap[slice] == names
       case Done(_) =>
         s.flights[f].key in s.cache && s.cache[s.flights[f].key] in s.heap
         && s.heap[s.cache[s.flights[f].key]] == names
       case _ => false
  }

  lemma StepKeepsHeld(s: State, e: Event, f: nat, names: Names)
    requires Inv(s) && Held(s, f, names) && e != Evict(s.flights[f].key)
    ensures Held(Apply(s, e), f, names) && Apply(s, e).flights[f].key == s.flights[f].key
  {
    assert FlightOk(s, f);
    if Enabled(s, e) && e.Store? {
      StoreKeepsHeld(s, e.f, f, names);
    } else {
      hide FlightsOk, CallersOk, ReturnedDistinct, RunningOk;
    }
  }

  /** Another load of the key cannot store while this one holds; this one puts what it holds into the cache. */
  lemma StoreKeepsHeld(s: State, g: nat, f: nat, names: Names)
    requires Inv(s) && Held(s, f, names) && Enabled(s, Store(g))
    ensures Held(Apply(s, Store(g)), f, names) && Apply(s, Store(g)).flights[f].key == s.flights[f].key
  {
    hide CallersOk, ReturnedDistinct, RunningOk, SlicesOk;
    assert FlightOk(s, f) && FlightOk(s, g);
  }

  /** What a key has in the cache stays there, with the same names, through every step that does not evict it. */
  lemma StepKeepsCached(s: State, e: Event, key: string)
    requires Inv(s) && key in s.cache && e != Evict(key)
    ensures var t := Apply(s, e);
            key in t.cache && s.cache[key] in s.heap && t.cache[key] in t.heap
            && t.heap[t.cache[key]] == s.heap[s.cache[key]]
  {
    if Enabled(s, e) && e.Store? {
      assert FlightOk(s, e.f);
    }
  }

  predicate Evicted(events: seq<Event>, from: nat, to: nat, key: string) {
    exists k | from <= k < to && k < |events| :: events[k] == Evict(key)
  }

  lemma RunStep(events: seq<Event>, n: nat)
    requires n < |events|
    ensures Run(Start, events[..n + 1]) == Apply(Run(Start, events[..n]), events[n])
  {
    assert events[..n + 1][..n] == events[..n];
  }

  /** From the step that stores the names of a load, or any other moment, until the key is evicted. */
  lemma {:induction false} CachedUntilEvicted(events: seq<Event>, from: nat, to: nat, key: string)
    requires from <= to <= |events| && key in Run(Start, events[..from]).cache && !Evicted(events, from, to, key)
    ensures var s, t := Run(Start, events[..from]), Run(Start, events[..to]);
            && key in t.cache
            && s.cache[key] in s.heap && t.cache[key] in t.heap
            && t.heap[t.cache[key]] == s.heap[s.cache[key]]
  {
    hide Apply, Run, Inv;
    RunsKeepInv(events[..from]);
    CacheHolds(Run(Start, events[..from]), key);
    if from < to {
      CachedUntilEvicted(events, from, to - 1, key);
      RunStep(events, to - 1);
      RunsKeepInv(events[..to - 1]);
      StepKeepsCached(Run(Start, events[..to - 1]), events[to - 1], key);
    }
  }

  lemma CacheHolds(s: State, key: string)
    requires Inv(s) && key in s.cache
    ensures s.cache[key] in s.heap
  {
  }

  lemma {:induction false} HeldUntilEvicted(events: seq<Event>, n: nat, to: nat, f: nat, names: Names, key: string)
    requires n < to <= |events| && events[n] == LoadGives(f, names) && Enabled(Run(Start, events[..n]), events[n])
    requires Run(Start, events[..n]).flights[f].key == key && !Evicted(events, n + 1, to, key)
    ensures var t := Run(Start, events[..to]); Held(t, f, names) && t.flights[f].key == key
  {
    hide Apply, Run, Inv, Held;
    RunStep(events, to - 1);
    RunsKeepInv(events[..to - 1]);
    if to == n + 1 {
      LoadIsHeld(Run(Start, events[..n]), f, names);
    } else {
      HeldUntilEvicted(events, n, to - 1, f, names, key);
      HeldIsThere(Run(Start, events[..to - 1]), f, names);
      StepKeepsHeld(Run(Start, events[..to - 1]), events[to - 1], f, names);
    }
  }

  lemma HeldIsThere(s: State, f: nat, names: Names)
    requires Held(s, f, names)
    ensures f < |s.flights|
  {
  }

  lemma LoadIsHeld(s: State, f: nat, names: Names)
    requires Enabled(s, LoadGives(f, names))
    ensures Held(Apply(s, LoadGives(f, names)), f, names)
    ensures Apply(s, LoadGives(f, names)).flights[f].key == s.flights[f].key
  {
  }

  /**
   A load that gave names is not repeated: before the registry is asked for its key again, by whichever load, the key
   is evicted. So there is an eviction between any two loads of one key that both give names.
   */
  lemma ReloadNeedsEviction(events: seq<Event>, n: nat, m: nat)
    requires n < m < |events| && events[n].LoadGives? && Enabled(Run(Start, events[..n]), events[n])
    requires events[m].StartLoad? || events[m].LoadGives? || events[m].LoadFails?
    requires Enabled(Run(Start, events[..m]), events[m])
    requires Run(Start, events[..m]).flights[events[m].f].key == Run(Start, events[..n]).flights[events[n].f].key
    ensures Evicted(events, n + 1, m, Run(Start, events[..n]).flights[events[n].f].key)
  {
    hide Run, Apply, Inv, Evicted;
    var f, names, key := events[n].f, events[n].names, Run(Start, events[..n]).flights[events[n].f].key;
    if !Evicted(events, n + 1, m, key) {
      HeldUntilEvicted(events, n, m, f, names, key);
      RunsKeepInv(events[..m]);
      OneAtATime(Run(Start, events[..m]), f, events[m].f, names);
    }
  }

  /** While `f` holds what it loaded, no load of the key can be before its answer. */
  lemma OneAtATime(s: State, f: nat, g: nat, names: Names)
    requires Inv(s) && Held(s, f, names) && g < |s.flights| && s.flights[g].key == s.flights[f].key
    ensures !s.flights[g].stage.Missed? && !s.flights[g].stage.Loading?
  {
    assert FlightOk(s, f) && FlightOk(s, g);
  }

  /** Once a load is stored its key is in the cache with the names it gave, until the key is evicted. */
  lemma StoredUntilEvicted(events: seq<Event>, n: nat, m: nat, to: nat, f: nat)
    requires n < m < to <= |events| && events[n].LoadGives? && events[n].f == f && events[m] == Store(f)
    requires Enabled(Run(Start, events[..n]), events[n]) && Enabled(Run(Start, events[..m]), events[m])
    requires var key := Run(Start, events[..n]).flights[f].key;
             !Evicted(events, n + 1, to, key)
    ensures var t, key := Run(Start, events[..to]), Run(Start, events[..n]).flights[f].key;
            key in t.cache && t.cache[key] in t.heap && t.heap[t.cache[key]] == events[n].names
  {
    hide Apply, Run, Inv;
    var key := Run(Start, events[..n]).flights[f].key;
    HeldUntilEvicted(events, n, m, f, events[n].names, key);
    RunStep(events, m);
    StoreHolds(Run(Start, events[..m]), f);
    HeldUntilEvicted(events, n, m + 1, f, events[n].names, key);
    CachedUntilEvicted(events, m + 1, to, key);
  }

  lemma StoreHolds(s: State, f: nat)
    requires Enabled(s, Store(f))
    ensures Apply(s, Store(f)).flights[f].stage.Done?
  {
  }

  // ---- What a caller gets ----

  /** The caller has its key's names in its hands, or was handed them. */
  ghost predicate Served(s: State, c: nat, names: Names) {
    c < |s.callers|
    && match s.callers[c].phase
       case Holding(slice) => slice in s.heap && slice !in s.shared && s.heap[slice] == names
       case Returned(_) => (s.callers[c].key, names) in s.handed
       case _ => false
  }

  lemma StepKeepsServed(s: State, e: Event, c: nat, names: Names)
    requires Inv(s) && Served(s, c, names)
    ensures Served(Apply(s, e), c, names) && Apply(s, e).callers[c].key == s.callers[c].key
  {
    hide CacheOk, FlightsOk, ReturnedDistinct, RunningOk;
    var t := Apply(s, e);
    assert forall k | 0 <= k < |s.handed| :: t.handed[k] == s.handed[k];
    if Enabled(s, e) && e == HandOut(c) {
      assert t.handed[|s.handed|] == (s.callers[c].key, names);
    }
  }

  lemma LookServes(s: State, c: nat)
    requires Inv(s) && Enabled(s, Look(c)) && s.callers[c].key in s.cache
    ensures s.cache[s.callers[c].key] in s.heap
    ensures Served(Apply(s, Look(c)), c, s.heap[s.cache[s.callers[c].key]])
    ensures Apply(s, Look(c)) == s.(callers := Apply(s, Look(c)).callers)
    ensures Apply(s, Look(c)).callers[c].key == s.callers[c].key
  {
  }

  /**
   A caller that looks while its key is in the cache holds the cached names from then on, whatever is evicted, until it
   is handed them: it never joins or waits for a load, and its look starts none.
   */
  lemma {:induction false} CachedIsHandedOut(events: seq<Event>, n: nat, to: nat, c: nat)
    requires n < to <= |events| && events[n] == Look(c) && Enabled(Run(Start, events[..n]), events[n])
    requires var s := Run(Start, events[..n]); s.callers[c].key in s.cache
    ensures var s, t := Run(Start, events[..n]), Run(Start, events[..to]);
            && s.cache[s.callers[c].key] in s.heap
            && Served(t, c, s.heap[s.cache[s.callers[c].key]])
            && t.callers[c].key == s.callers[c].key
            && Run(Start, events[..n + 1]).flights == s.flights
            && Run(Start, events[..n + 1]).running == s.running
  {
    hide Apply, Run, Inv, Served, Enabled;
    var s := Run(Start, events[..n]);
    RunsKeepInv(events[..n]);
    RunStep(events, n);
    LookIsACaller(s, c);
    LookServes(s, c);
    if to > n + 1 {
      CachedIsHandedOut(events, n, to - 1, c);
      RunStep(events, to - 1);
      RunsKeepInv(events[..to - 1]);
      StepKeepsServed(Run(Start, events[..to - 1]), events[to - 1], c, s.heap[s.cache[s.callers[c].key]]);
    }
  }

  lemma LookIsACaller(s: State, c: nat)
    requires Enabled(s, Look(c))
    ensures c < |s.callers|
  {
  }

  // ---- Whole calls, from any moment of any run ----

  lemma RunLast(s: State, events: seq<Event>, e: Event)
    ensures Run(s, events + [e]) == Apply(Run(s, events), e)
  {
    assert (events + [e])[..|events|] == events;
  }

  /** The events of a call that starts as caller `c` and loads as flight `f`. */
  function Asking(key: string, c: nat, f: nat): seq<Event> {
    [Call(key), Look(c), Join(c), Recheck(f), StartLoad(f)]
  }

  lemma LookMisses(s: State, key: string)
    requires key !in s.cache
    ensures Apply(Apply(s, Call(key)), Look(|s.callers|)) == s.(callers := s.callers + [Caller(key, Joining)])
  {
    var t := Apply(Apply(s, Call(key)), Look(|s.callers|));
    assert t.callers == s.callers + [Caller(key, Joining)];
  }

  lemma JoinBegins(s: State, key: string, c: nat)
    requires c < |s.callers| && s.callers[c] == Caller(key, Joining) && key !in s.running
    ensures Apply(s, Join(c)) ==
            s.(callers := s.callers[c := Caller(key, Waiting(|s.flights|))],
               flights := s.flights + [Flight(key, Begun)], running := s.running[key := |s.flights|])
  {
  }

  lemma LoadStarts(s: State, key: string, f: nat)
    requires f < |s.flights| && s.flights[f] == Flight(key, Begun) && key !in s.cache
    ensures Apply(Apply(s, Recheck(f)), StartLoad(f)) == s.(flights := s.flights[f := Flight(key, Loading)])
  {
    var t := Apply(s, Recheck(f));
    assert t == s.(flights := s.flights[f := Flight(key, Missed)]);
    assert t.flights[f := Flight(key, Loading)] == s.flights[f := Flight(key, Loading)];
  }

  lemma AskingReaches(s: State, key: string)
    requires key !in s.cache && key !in s.running
    ensures Run(s, Asking(key, |s.callers|, |s.flights|)) ==
            s.(callers := s.callers + [Caller(key, Waiting(|s.flights|))],
               flights := s.flights + [Flight(key, Loading)], running := s.running[key := |s.flights|])
  {
    hide Run, Apply, Enabled;
    var c, f := |s.callers|, |s.flights|;
    LookMisses(s, key);
    var s2 := s.(callers := s.callers + [Caller(key, Joining)]);
    JoinBegins(s2, key, c);
    var s3 := Apply(s2, Join(c));
    LoadStarts(s3, key, f);
    assert s3.callers == s.callers + [Caller(key, Waiting(f))];
    assert s3.flights[f := Flight(key, Loading)] == s.flights + [Flight(key, Loading)];
    RunTwo(s, [], Call(key), Look(c));
    RunLast(s, [Call(key), Look(c)], Join(c));
    assert [Call(key), Look(c)] + [Join(c)] == [Call(key), Look(c), Join(c)];
    RunTwo(s, [Call(key), Look(c), Join(c)], Recheck(f), StartLoad(f));
    assert Asking(key, c, f) == [Call(key), Look(c), Join(c)] + [Recheck(f), StartLoad(f)];
  }

  lemma RunTwo(s: State, events: seq<Event>, d: Event, e: Event)
    ensures Run(s, events + [d, e]) == Apply(Apply(Run(s, events), d), e)
    ensures events == [] ==> Run(s, [d, e]) == Apply(Apply(s, d), e)
  {
    RunLast(s, events, d);
    RunLast(s, events + [d], e);
    assert events + [d] + [e] == events + [d, e];
    assert events == [] ==> events + [d, e] == [d, e];
  }

  lemma LoadStores(s: State, key: string, f: nat, names: Names)
    requires f < |s.flights| && s.flights[f] == Flight(key, Loading)
    ensures Apply(Apply(s, LoadGives(f, names)), Store(f)) ==
            s.(heap := s.heap[s.next := names][s.next + 1 := names], next := s.next + 2,
               shared := s.shared + {s.next}, cache := s.cache[key := s.next + 1],
               flights := s.flights[f := Flight(key, Done(Ok(s.next + 1)))], loaded := s.loaded + {(key, names)})
  {
    var t := Apply(s, LoadGives(f, names));
    assert t.flights == s.flights[f := Flight(key, Copied(s.next + 1))];
    assert t.flights[f := Flight(key, Done(Ok(s.next + 1)))] == s.flights[f := Flight(key, Done(Ok(s.next + 1)))];
  }

  lemma FlightEnds(s: State, key: string, f: nat, result: Result)
    requires f < |s.flights| && s.flights[f] == Flight(key, Done(result)) && key in s.running && s.running[key] == f
    ensures Apply(s, Finish(f)) == s.(running := s.running - {key})
  {
  }

  /** What is loaded is stored, and its flight ends. */
  lemma LoadIsStored(s: State, key: string, f: nat, names: Names)
    requires f < |s.flights| && s.flights[f] == Flight(key, Loading) && key in s.running && s.running[key] == f
    ensures Run(s, [LoadGives(f, names), Store(f), Finish(f)]) ==
            s.(heap := s.heap[s.next := names][s.next + 1 := names], next := s.next + 2,
               shared := s.shared + {s.next}, cache := s.cache[key := s.next + 1], running := s.running - {key},
               flights := s.flights[f := Flight(key, Done(Ok(s.next + 1)))], loaded := s.loaded + {(key, names)})
  {
    hide Run, Apply, Enabled;
    LoadStores(s, key, f, names);
    FlightEnds(Apply(Apply(s, LoadGives(f, names)), Store(f)), key, f, Ok(s.next + 1));
    RunTwo(s, [], LoadGives(f, names), Store(f));
    RunLast(s, [LoadGives(f, names), Store(f)], Finish(f));
    assert [LoadGives(f, names), Store(f)] + [Finish(f)] == [LoadGives(f, names), Store(f), Finish(f)];
  }

  /** Who waits for names is handed a copy of them. */
  lemma WaiterIsHanded(s: State, key: string, c: nat, f: nat, slice: nat)
    requires c < |s.callers| && s.callers[c] == Caller(key, Waiting(f)) && slice in s.heap
    requires f < |s.flights| && s.flights[f] == Flight(key, Done(Ok(slice)))
    ensures Run(s, [Wake(c), HandOut(c)]) ==
            s.(heap := s.heap[s.next := s.heap[slice]], next := s.next + 1, shared := s.shared + {s.next},
               callers := s.callers[c := Caller(key, Returned(s.next))], handed := s.handed + [(key, s.heap[slice])])
  {
    hide Run;
    var t := Apply(s, Wake(c));
    assert t.callers == s.callers[c := Caller(key, Holding(slice))];
    assert t.callers[c := Caller(key, Returned(s.next))] == s.callers[c := Caller(key, Returned(s.next))];
    RunTwo(s, [], Wake(c), HandOut(c));
  }

  /** A call with nothing in the cache asks the registry, caches what it gives and is handed a copy of it. */
  lemma ColdCall(events: seq<Event>, key: string, names: Names)
    requires key !in Run(Start, events).cache && key !in Run(Start, events).running
    ensures var s := Run(Start, events);
            var c, f := |s.callers|, |s.flights|;
            var t := Run(Run(Run(s, Asking(key, c, f)), [LoadGives(f, names), Store(f), Finish(f)]),
                       [Wake(c), HandOut(c)]);
            && t.handed == s.handed + [(key, names)]
            && t.cache.Keys == s.cache.Keys + {key}
            && t.cache[key] in t.heap && t.heap[t.cache[key]] == names
            && t.callers == s.callers + [Caller(key, Returned(s.next + 2))]
            && s.next + 2 in t.heap && t.heap[s.next + 2] == names
            && t.running == s.running && t.loaded == s.loaded + {(key, names)}
  {
    hide Run, Asking, Apply, Enabled;
    var s := Run(Start, events);
    var c, f := |s.callers|, |s.flights|;
    AskingReaches(s, key);
    var s1 := Run(s, Asking(key, c, f));
    LoadIsStored(s1, key, f, names);
    var s2 := Run(s1, [LoadGives(f, names), Store(f), Finish(f)]);
    WaiterIsHanded(s2, key, c, f, s.next + 1);
    assert s2.running == s.running;
  }

  lemma LoadRefuses(s: State, key: string, f: nat, c: nat)
    requires f < |s.flights| && s.flights[f] == Flight(key, Loading) && key in s.running && s.running[key] == f
    requires c < |s.callers| && s.callers[c] == Caller(key, Waiting(f))
    ensures Apply(Apply(Apply(s, LoadFails(f)), Finish(f)), Wake(c)) ==
            s.(running := s.running - {key}, flights := s.flights[f := Flight(key, Done(Err))],
               callers := s.callers[c := Caller(key, Refused)])
  {
    var t := Apply(s, LoadFails(f));
    assert t == s.(flights := s.flights[f := Flight(key, Done(Err))]);
  }

  /** When the registry fails the caller is refused, and nothing is cached or handed out. */
  lemma FailedCall(s: State, key: string)
    requires key !in s.cache && key !in s.running
    ensures var c, f := |s.callers|, |s.flights|;
            Run(Run(s, Asking(key, c, f)), [LoadFails(f), Finish(f), Wake(c)])
            == s.(callers := s.callers + [Caller(key, Refused)], flights := s.flights + [Flight(key, Done(Err))])
  {
    hide Run, Asking, Apply, Enabled;
    var c, f := |s.callers|, |s.flights|;
    AskingReaches(s, key);
    var s1 := Run(s, Asking(key, c, f));
    LoadRefuses(s1, key, f, c);
    assert s1.running - {key} == s.running;
    RunTwo(s1, [], LoadFails(f), Finish(f));
    RunLast(s1, [LoadFails(f), Finish(f)], Wake(c));
    assert [LoadFails(f), Finish(f)] + [Wake(c)] == [LoadFails(f), Finish(f), Wake(c)];
  }

  /** A call for a cached key is handed a copy of the cached names in three steps of its own, and nothing is loaded. */
  lemma WarmCall(events: seq<Event>, key: string)
    requires key in Run(Start, events).cache
    ensures var s := Run(Start, events);
            var c := |s.callers|;
            var t := Run(s, [Call(key), Look(c), HandOut(c)]);
            && s.cache[key] in s.heap
            && t.handed == s.handed + [(key, s.heap[s.cache[key]])]
            && t.callers == s.callers + [Caller(key, Returned(s.next))]
            && t.heap == s.heap[s.next := s.heap[s.cache[key]]]
            && t.flights == s.flights && t.running == s.running && t.cache == s.cache && t.loaded == s.loaded
  {
    hide Run;
    RunsKeepInv(events);
    var s := Run(Start, events);
    var c := |s.callers|;
    var s2 := Apply(Apply(s, Call(key)), Look(c));
    assert s2.callers == s.callers + [Caller(key, Holding(s.cache[key]))];
    assert Apply(s2, HandOut(c)).callers == s.callers + [Caller(key, Returned(s.next))];
    RunTwo(s, [], Call(key), Look(c));
    RunLast(s, [Call(key), Look(c)], HandOut(c));
    assert [Call(key), Look(c)] + [HandOut(c)] == [Call(key), Look(c), HandOut(c)];
  }

  /** No caller is ever stuck: it has a step to take, or the load it waits for has. */
  lemma NobodyIsStuck(events: seq<Event>, c: nat)
    requires var s := Run(Start, events);
             c < |s.callers| && !s.callers[c].phase.Returned? && !s.callers[c].phase.Refused?
    ensures var s := Run(Start, events);
            Enabled(s, Look(c)) || Enabled(s, Join(c)) || Enabled(s, Wake(c)) || Enabled(s, HandOut(c))
            || (s.callers[c].phase.Waiting? &&
                var f := s.callers[c].phase.flight;
                Enabled(s, Recheck(f)) || Enabled(s, StartLoad(f)) || Enabled(s, Store(f))
                || (Enabled(s, LoadFails(f)) && forall names :: Enabled(s, LoadGives(f, names))))
  {
    hide Run;
    RunsKeepInv(events);
    assert CallerOk(Run(Start, events), c);
  }
}
