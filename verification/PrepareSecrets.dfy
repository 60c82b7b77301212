/**
 The secrets `Prepare` mounts: what one `RUN` mounts, and that over a whole file every identifier mounted anywhere finds
 the value of its own input in the one shared map, however many `RUN`s put it there.
 */
module PrepareSecrets {
  import opened References
  import opened Prepare
  import opened DockerfileRuns
  import M = Materializer
  import R = Rewriter

  // ---- One `RUN` ----

  /** `m` mounts an active input not asked for otherwise, under the identifier of its value. */
  predicate MountsInput(cfg: Config, m: Mount, active: map<string, string>, explicit: set<string>) {
    m.name in active && m.name !in explicit && m.id == cfg.secretID(m.name, active[m.name])
  }

  ghost predicate IsMounted(mounts: seq<Mount>, name: string) {
    exists i | 0 <= i < |mounts| :: mounts[i].name == name
  }

  predicate NamedOnce(mounts: seq<Mount>) {
    forall i, j | 0 <= i < j < |mounts| :: mounts[i].name != mounts[j].name
  }

  /** Every secret is kept under the identifier of its own value. */
  ghost predicate GoodSecrets(cfg: Config, secrets: map<string, string>) {
    forall id | id in secrets :: exists k :: id == cfg.secretID(k, secrets[id])
  }

  /** A secret's identifier determines what it holds. */
  lemma SecretValue(cfg: Config, secrets: map<string, string>, k: string, v: string)
    requires ValidConfig(cfg) && GoodSecrets(cfg, secrets) && cfg.secretID(k, v) in secrets
    ensures secrets[cfg.secretID(k, v)] == v
  {
    var j :| cfg.secretID(k, v) == cfg.secretID(j, secrets[cfg.secretID(k, v)]);
  }

  /** What the loop has done after the keys in `seen`. */
  ghost predicate Mounting(cfg: Config, before: map<string, string>, secrets: map<string, string>, mounts: seq<Mount>,
      seen: seq<string>, active: map<string, string>, explicit: set<string>)
  {
    && GoodSecrets(cfg, secrets)
    && Submap(before, secrets)
    && NamedOnce(mounts)
    && (forall i | 0 <= i < |mounts| ::
          mounts[i].name in seen && MountsInput(cfg, mounts[i], active, explicit) && mounts[i].id in secrets)
    && (forall k | k in seen && k in active && k !in explicit :: IsMounted(mounts, k))
  }

  lemma {:induction false} MountLoop(cfg: Config, before: map<string, string>, secrets: map<string, string>,
      mounts: seq<Mount>, seen: seq<string>, keys: seq<string>, active: map<string, string>, explicit: set<string>)
    requires ValidConfig(cfg) && Mounting(cfg, before, secrets, mounts, seen, active, explicit)
    requires forall i, j | 0 <= i < j < |seen + keys| :: (seen + keys)[i] != (seen + keys)[j]
    ensures var (s, m) := MountSecrets(cfg, secrets, mounts, keys, active, explicit);
            Mounting(cfg, before, s, m, seen + keys, active, explicit)
    decreases |keys|
  {
    hide Mounting, ValidConfig;
    if keys == [] {
      assert seen + keys == seen;
    } else {
      var key := keys[0];
      assert seen + keys == (seen + [key]) + keys[1..];
      NotSeen(seen, keys);
      if key in explicit || key !in active {
        SkipOne(cfg, before, secrets, mounts, seen, key, active, explicit);
        MountLoop(cfg, before, secrets, mounts, seen + [key], keys[1..], active, explicit);
      } else {
        MountOne(cfg, before, secrets, mounts, seen, key, active, explicit);
        var id := cfg.secretID(key, active[key]);
        MountLoop(cfg, before, secrets[id := active[key]], mounts + [Mount(id, key)], seen + [key], keys[1..], active,
            explicit);
      }
    }
  }

  lemma NotSeen(seen: seq<string>, keys: seq<string>)
    requires keys != [] && forall i, j | 0 <= i < j < |seen + keys| :: (seen + keys)[i] != (seen + keys)[j]
    ensures keys[0] !in seen
  {
    assert (seen + keys)[|seen|] == keys[0];
    assert forall i | 0 <= i < |seen| :: (seen + keys)[i] == seen[i];
  }

  lemma SkipOne(cfg: Config, before: map<string, string>, secrets: map<string, string>, mounts: seq<Mount>,
      seen: seq<string>, key: string, active: map<string, string>, explicit: set<string>)
    requires Mounting(cfg, before, secrets, mounts, seen, active, explicit) && (key in explicit || key !in active)
    ensures Mounting(cfg, before, secrets, mounts, seen + [key], active, explicit)
  {
  }

  lemma MountOne(cfg: Config, before: map<string, string>, secrets: map<string, string>, mounts: seq<Mount>,
      seen: seq<string>, key: string, active: map<string, string>, explicit: set<string>)
    requires ValidConfig(cfg) && Mounting(cfg, before, secrets, mounts, seen, active, explicit)
    requires key in active && key !in explicit && key !in seen
    ensures var id := cfg.secretID(key, active[key]);
            Mounting(cfg, before, secrets[id := active[key]], mounts + [Mount(id, key)], seen + [key], active, explicit)
  {
    hide ValidConfig;
    var id := cfg.secretID(key, active[key]);
    var more, next := mounts + [Mount(id, key)], secrets[id := active[key]];
    if id in secrets {
      SecretValue(cfg, secrets, key, active[key]);
    }
    assert more[|mounts|] == Mount(id, key);
    assert forall i | 0 <= i < |mounts| :: more[i] == mounts[i];
    forall k | k in seen + [key] && k in active && k !in explicit ensures IsMounted(more, k) {
      if k in seen {
        var i :| 0 <= i < |mounts| && mounts[i].name == k;
        assert more[i].name == k;
      }
    }
  }

  /**
   A `RUN` mounts each active input it does not ask for itself, once, under the identifier of its value, and nothing
   else; the shared map then holds those values and all it held before.
   */
  lemma MountsAreExact(cfg: Config, secrets: map<string, string>, active: map<string, string>, explicit: set<string>)
    requires ValidConfig(cfg) && GoodSecrets(cfg, secrets)
    ensures var (s, mounts) := MountSecrets(cfg, secrets, [], cfg.order(active.Keys), active, explicit);
            && GoodSecrets(cfg, s) && Submap(secrets, s)
            && NamedOnce(mounts)
            && (forall i | 0 <= i < |mounts| :: MountsInput(cfg, mounts[i], active, explicit) && mounts[i].id in s)
            && (forall k :: IsMounted(mounts, k) <==> k in active && k !in explicit)
  {
    hide ValidConfig, GoodSecrets, Mounting, MountSecrets, MountsInput, IsMounted, NamedOnce;
    OrderOf(cfg, active.Keys);
    var keys := cfg.order(active.Keys);
    assert [] + keys == keys;
    MountingStart(cfg, secrets, active, explicit);
    MountLoop(cfg, secrets, secrets, [], [], keys, active, explicit);
    var (s, mounts) := MountSecrets(cfg, secrets, [], keys, active, explicit);
    MountingEnd(cfg, secrets, s, mounts, keys, active, explicit);
  }

  lemma MountingStart(cfg: Config, secrets: map<string, string>, active: map<string, string>, explicit: set<string>)
    requires GoodSecrets(cfg, secrets)
    ensures Mounting(cfg, secrets, secrets, [], [], active, explicit)
  {
    hide GoodSecrets;
  }

  lemma MountingEnd(cfg: Config, before: map<string, string>, secrets: map<string, string>, mounts: seq<Mount>,
      keys: seq<string>, active: map<string, string>, explicit: set<string>)
    requires Mounting(cfg, before, secrets, mounts, keys, active, explicit) && Lists(keys, active.Keys)
    ensures GoodSecrets(cfg, secrets) && Submap(before, secrets) && NamedOnce(mounts)
    ensures forall i | 0 <= i < |mounts| :: MountsInput(cfg, mounts[i], active, explicit) && mounts[i].id in secrets
    ensures forall k :: IsMounted(mounts, k) <==> k in active && k !in explicit
  {
    hide GoodSecrets, NamedOnce;
  }

  /** Looked up in any later state of the shared map, the mounts give the inputs their own values. */
  lemma {:induction false} MountsGiveValues(cfg: Config, mounts: seq<Mount>, active: map<string, string>,
      explicit: set<string>, secrets: map<string, string>)
    requires ValidConfig(cfg) && GoodSecrets(cfg, secrets) && AllFound(mounts, secrets)
    requires forall i | 0 <= i < |mounts| :: MountsInput(cfg, mounts[i], active, explicit)
    ensures forall k :: k in SecretEnv(mounts, secrets) <==> IsMounted(mounts, k)
    ensures forall k | k in SecretEnv(mounts, secrets) :: k in active && SecretEnv(mounts, secrets)[k] == active[k]
    decreases |mounts|
  {
    hide ValidConfig, GoodSecrets;
    if mounts != [] {
      var m, rest := mounts[0], mounts[1..];
      MountsGiveValues(cfg, rest, active, explicit, secrets);
      SecretValue(cfg, secrets, m.name, active[m.name]);
      forall k ensures IsMounted(mounts, k) <==> k == m.name || IsMounted(rest, k) {
        if IsMounted(rest, k) {
          var i :| 0 <= i < |rest| && rest[i].name == k;
          assert mounts[i + 1].name == k;
        }
        if IsMounted(mounts, k) && k != m.name {
          var i :| 0 <= i < |mounts| && mounts[i].name == k;
          assert rest[i - 1].name == k;
        }
      }
    }
  }

  lemma SecretEnvIs(cfg: Config, mounts: seq<Mount>, active: map<string, string>, explicit: set<string>,
      secrets: map<string, string>)
    requires ValidConfig(cfg) && GoodSecrets(cfg, secrets) && AllFound(mounts, secrets)
    requires forall i | 0 <= i < |mounts| :: MountsInput(cfg, mounts[i], active, explicit)
    requires forall k :: IsMounted(mounts, k) <==> k in active && k !in explicit
    ensures SecretEnv(mounts, secrets) == active - explicit
    ensures MountedNames(mounts) == active.Keys - explicit
  {
    hide ValidConfig, GoodSecrets, MountsInput;
    MountsGiveValues(cfg, mounts, active, explicit, secrets);
    forall k ensures k in MountedNames(mounts) <==> IsMounted(mounts, k) {
      if IsMounted(mounts, k) {
        var i :| 0 <= i < |mounts| && mounts[i].name == k;
        assert mounts[i] in mounts;
      }
    }
    assert (active - explicit).Keys == active.Keys - explicit;
  }

  // ---- Whole files ----

  lemma {:induction false} DeclareExprsSecrets(st: State, args: set<string>, exprs: seq<M.Expression>,
      used: set<string>)
    ensures var s := DeclareExprs(st, args, exprs, used).0; s.secrets == st.secrets && s.active == st.active
    decreases |exprs|
  {
    if exprs != [] {
      var e := exprs[0];
      if e.alias in used && e.alias !in st.declared {
        DeclareExprsSecrets(st.(declared := st.declared + {e.alias}, buildArgs := st.buildArgs[e.alias := e.value]),
            args + {e.alias}, exprs[1..], used);
      } else {
        DeclareExprsSecrets(st, args, exprs[1..], used);
      }
    }
  }

  /** Only a `RUN` adds secrets, and by its loop. */
  lemma StepSecrets(cfg: Config, st: State, step: Step)
    requires Process(cfg, st, step).Ok?
    ensures var (next, out) := Process(cfg, st, step).value;
            if !step.Run? then next.secrets == st.secrets && !out.OutRun?
            else
              && out.OutRun? && Explicit(cfg, {}, step.mounts, st.active).Ok?
              && (next.secrets, out.secrets) ==
                MountSecrets(cfg, st.secrets, [], cfg.order(st.active.Keys), st.active,
                             Explicit(cfg, {}, step.mounts, st.active).value)
  {
    if !step.From? {
      hide PlanStep, DeclareExprs, R.Rewrite, Override, Explicit, MountSecrets, KeyAliases, InputValue;
      var pl := PlanStep(cfg, step, st.active).value;
      DeclareExprsSecrets(st, {}, pl.exprs, pl.used);
    }
  }

  /** The shared map only grows, and stays good. */
  lemma StepKeepsSecrets(cfg: Config, st: State, step: Step)
    requires ValidConfig(cfg) && GoodSecrets(cfg, st.secrets) && Process(cfg, st, step).Ok?
    ensures var (next, _) := Process(cfg, st, step).value;
            GoodSecrets(cfg, next.secrets) && Submap(st.secrets, next.secrets)
  {
    hide Process, MountSecrets, ValidConfig, GoodSecrets;
    StepSecrets(cfg, st, step);
    if step.Run? {
      MountsAreExact(cfg, st.secrets, st.active, Explicit(cfg, {}, step.mounts, st.active).value);
    }
  }

  lemma {:induction false} SecretsOnlyGrow(cfg: Config, st: State, steps: seq<Step>)
    requires ValidConfig(cfg) && GoodSecrets(cfg, st.secrets) && ProcessAll(cfg, st, steps).Ok?
    ensures var (last, _) := ProcessAll(cfg, st, steps).value;
            GoodSecrets(cfg, last.secrets) && Submap(st.secrets, last.secrets)
    decreases |steps|
  {
    hide Process, GoodSecrets, ValidConfig;
    if steps != [] {
      StepKeepsSecrets(cfg, st, steps[0]);
      SecretsOnlyGrow(cfg, Process(cfg, st, steps[0]).value.0, steps[1..]);
    }
  }

  /** A prepared `RUN` mounts, under their own identifiers, exactly the active inputs it does not ask for itself. */
  ghost predicate MountsExactly(cfg: Config, active: map<string, string>, step: Step, out: OutStep,
      secrets: map<string, string>)
    requires step.Run?
  {
    var explicit := Explicit(cfg, {}, step.mounts, active);
    && out.OutRun? && explicit.Ok?
    && NamedOnce(out.secrets)
    && (forall k :: IsMounted(out.secrets, k) <==> k in active && k !in explicit.value)
    && forall i | 0 <= i < |out.secrets| ::
         && MountsInput(cfg, out.secrets[i], active, explicit.value)
         && out.secrets[i].id in secrets
         && secrets[out.secrets[i].id] == active[out.secrets[i].name]
  }

  lemma RunMountsExactly(cfg: Config, st: State, step: Step, secrets: map<string, string>)
    requires ValidConfig(cfg) && GoodSecrets(cfg, st.secrets) && step.Run? && Process(cfg, st, step).Ok?
    requires GoodSecrets(cfg, secrets) && Submap(Process(cfg, st, step).value.0.secrets, secrets)
    ensures MountsExactly(cfg, st.active, step, Process(cfg, st, step).value.1, secrets)
  {
    hide Process, MountSecrets, ValidConfig, GoodSecrets, Explicit;
    StepSecrets(cfg, st, step);
    var explicit := Explicit(cfg, {}, step.mounts, st.active).value;
    MountsAreExact(cfg, st.secrets, st.active, explicit);
    var mounts := Process(cfg, st, step).value.1.secrets;
    forall i | 0 <= i < |mounts|
      ensures mounts[i].id in secrets && secrets[mounts[i].id] == st.active[mounts[i].name]
    {
      assert MountsInput(cfg, mounts[i], st.active, explicit);
      SecretValue(cfg, secrets, mounts[i].name, st.active[mounts[i].name]);
    }
  }

  /**
   Main result: over any file, every `RUN` mounts exactly the inputs active when it is reached, without its own env
   mounts, and each mount finds its own input's value in the map the session is given at the end.
   */
  lemma {:induction false} EveryMountFindsItsValue(cfg: Config, st: State, steps: seq<Step>, i: nat)
    requires ValidConfig(cfg) && GoodSecrets(cfg, st.secrets) && ProcessAll(cfg, st, steps).Ok?
    requires i < |steps| && steps[i].Run?
    ensures ProcessAll(cfg, st, steps[..i]).Ok? && |ProcessAll(cfg, st, steps).value.1| == |steps|
    ensures var (last, outs) := ProcessAll(cfg, st, steps).value;
            MountsExactly(cfg, ProcessAll(cfg, st, steps[..i]).value.0.active, steps[i], outs[i], last.secrets)
    decreases |steps|
  {
    hide Process, GoodSecrets, ValidConfig, MountsExactly;
    OneEach(cfg, st, steps);
    var (next, out) := Process(cfg, st, steps[0]).value;
    StepKeepsSecrets(cfg, st, steps[0]);
    SecretsOnlyGrow(cfg, next, steps[1..]);
    if i == 0 {
      assert steps[..0] == [];
      RunMountsExactly(cfg, st, steps[0], ProcessAll(cfg, st, steps).value.0.secrets);
    } else {
      EveryMountFindsItsValue(cfg, next, steps[1..], i - 1);
      assert steps[..i][1..] == steps[1..][..i - 1] && steps[..i][0] == steps[0];
    }
  }

  lemma {:induction false} OneEach(cfg: Config, st: State, steps: seq<Step>)
    requires ProcessAll(cfg, st, steps).Ok?
    ensures |ProcessAll(cfg, st, steps).value.1| == |steps|
    decreases |steps|
  {
    hide Process;
    if steps != [] {
      OneEach(cfg, Process(cfg, st, steps[0]).value.0, steps[1..]);
    }
  }
}
