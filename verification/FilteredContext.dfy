/**
 The filtered build context: a walk that prunes what is excluded, and an `Open` that checks a path and its parent
 directories. Both describe the same set of files. The tree and the walk over it are the underlying file system's.
 */
module FilteredContext {

  datatype Tree = File | Dir(entries: Entries)

  datatype Entries = Nil | Cons(name: string, node: Tree, rest: Entries)

  /** A slash-separated path as its elements. */
  datatype Path = Path(rooted: bool, names: seq<string>)

  type Exclusion = (Path, bool) -> bool

  datatype Emitted = Emitted(names: seq<string>, isDir: bool)

  // ---- The tree ----

  function NamesOf(entries: Entries): set<string> {
    if entries.Nil? then {} else {entries.name} + NamesOf(entries.rest)
  }

  /** The names in a directory are distinct, and none is empty, `.` or `..`. */
  predicate WellFormed(entries: Entries) {
    entries.Cons? ==>
      && entries.name !in NamesOf(entries.rest)
      && entries.name != "" && entries.name != "." && entries.name != ".."
      && (entries.node.Dir? ==> WellFormed(entries.node.entries))
      && WellFormed(entries.rest)
  }

  /** There is a file, or a directory, at the path. */
  predicate EntryAt(entries: Entries, p: seq<string>, isDir: bool) {
    && p != [] && entries.Cons?
    && if entries.name != p[0] then EntryAt(entries.rest, p, isDir)
       else if |p| == 1 then entries.node.Dir? == isDir
       else entries.node.Dir? && EntryAt(entries.node.entries, p[1..], isDir)
  }

  predicate FileAt(entries: Entries, p: seq<string>) {
    EntryAt(entries, p, false)
  }

  // ---- The walk ----

  /** What the filtered walk hands on, in order, of entries whose directory is at `at`. */
  function Walk(exclude: Exclusion, entries: Entries, at: seq<string>): seq<Emitted> {
    if entries.Nil? then []
    else
      var p := at + [entries.name];
      (if exclude(Path(false, p), entries.node.Dir?) then []
       else [Emitted(p, entries.node.Dir?)] + if entries.node.Dir? then Walk(exclude, entries.node.entries, p) else [])
      + Walk(exclude, entries.rest, at)
  }

  /** Neither the entry nor a directory on the way to it, from below `at` on, is excluded. */
  predicate ClearBelow(exclude: Exclusion, at: nat, p: seq<string>, isDir: bool) {
    && !exclude(Path(false, p), isDir)
    && forall n | at < n < |p| :: !exclude(Path(false, p[..n]), true)
  }

  lemma {:induction false} NotAmongNames(entries: Entries, p: seq<string>, isDir: bool)
    requires p != [] && EntryAt(entries, p, isDir)
    ensures p[0] in NamesOf(entries)
  {
    if entries.name != p[0] {
      NotAmongNames(entries.rest, p, isDir);
    }
  }

  /** The files and directories the walk hands on are those in the tree with nothing excluded on the way. */
  lemma {:induction false} WalkEmits(exclude: Exclusion, entries: Entries, at: seq<string>, p: seq<string>, isDir: bool)
    requires WellFormed(entries)
    ensures Emitted(p, isDir) in Walk(exclude, entries, at) <==>
              at < p && EntryAt(entries, p[|at|..], isDir) && ClearBelow(exclude, |at|, p, isDir)
    decreases entries
  {
    hide ClearBelow, WellFormed;
    if entries.Cons? {
      WellFormedParts(entries);
      WalkEmits(exclude, entries.rest, at, p, isDir);
      var here := at + [entries.name];
      if entries.node.Dir? {
        WalkEmits(exclude, entries.node.entries, here, p, isDir);
        if here < p {
          assert p[|at|..][1..] == p[|here|..];
          ClearStep(exclude, at, p, isDir);
          assert p[..|here|] == here;
        }
      }
      if p == here {
        ClearEntry(exclude, at, p, isDir);
      }
      if at < p && p[|at|] == entries.name {
        assert p[..|here|] == here;
        if EntryAt(entries.rest, p[|at|..], isDir) {
          NotAmongNames(entries.rest, p[|at|..], isDir);
        }
      }
    }
  }

  lemma WellFormedParts(entries: Entries)
    requires WellFormed(entries) && entries.Cons?
    ensures WellFormed(entries.rest) && (entries.node.Dir? ==> WellFormed(entries.node.entries))
    ensures entries.name !in NamesOf(entries.rest)
  {
  }

  lemma ClearStep(exclude: Exclusion, at: seq<string>, p: seq<string>, isDir: bool)
    requires |at| + 1 < |p|
    ensures ClearBelow(exclude, |at|, p, isDir) <==>
            ClearBelow(exclude, |at| + 1, p, isDir) && !exclude(Path(false, p[..|at| + 1]), true)
  {
  }

  lemma ClearEntry(exclude: Exclusion, at: seq<string>, p: seq<string>, isDir: bool)
    requires |p| == |at| + 1
    ensures ClearBelow(exclude, |at|, p, isDir) <==> !exclude(Path(false, p), isDir)
  {
  }

  predicate Distinct(w: seq<Emitted>) {
    forall i, j | 0 <= i < j < |w| :: w[i] != w[j]
  }

  /** No entry is handed on twice. */
  lemma {:induction false} WalksOnce(exclude: Exclusion, entries: Entries, at: seq<string>)
    requires WellFormed(entries)
    ensures Distinct(Walk(exclude, entries, at))
    decreases entries
  {
    hide WellFormed, ClearBelow, EntryAt, Distinct;
    if entries.Cons? {
      WellFormedParts(entries);
      var here := at + [entries.name];
      var inside := if entries.node.Dir? then Walk(exclude, entries.node.entries, here) else [];
      var rest := Walk(exclude, entries.rest, at);
      WalksOnce(exclude, entries.rest, at);
      if entries.node.Dir? {
        WalksOnce(exclude, entries.node.entries, here);
      } else {
        NothingTwice();
      }
      forall e | e in inside ensures here < e.names {
        WalkEmits(exclude, entries.node.entries, here, e.names, e.isDir);
      }
      forall e | e in rest ensures at < e.names && e.names[|at|] != entries.name {
        WalkEmits(exclude, entries.rest, at, e.names, e.isDir);
        NotAmongNames(entries.rest, e.names[|at|..], e.isDir);
      }
      ThreeParts(at, entries.name, Emitted(here, entries.node.Dir?), inside, rest);
    } else {
      NothingTwice();
    }
  }

  lemma NothingTwice()
    ensures Distinct([])
  {
  }

  lemma ThreeParts(at: seq<string>, name: string, first: Emitted, inside: seq<Emitted>, rest: seq<Emitted>)
    requires first.names == at + [name]
    requires Distinct(inside) && Distinct(rest)
    requires forall e | e in inside :: at + [name] < e.names
    requires forall e | e in rest :: at < e.names && e.names[|at|] != name
    ensures Distinct(([first] + inside) + rest) && [] + rest == rest
  {
    forall e | e in inside ensures e != first {
      assert |e.names| > |first.names|;
    }
    DistinctJoin([first], inside);
    forall d, e | d in [first] + inside && e in rest ensures d != e {
      assert d.names[|at|] == name;
    }
    DistinctJoin([first] + inside, rest);
  }

  lemma DistinctJoin(a: seq<Emitted>, b: seq<Emitted>)
    requires Distinct(a) && Distinct(b) && forall d, e | d in a && e in b :: d != e
    ensures Distinct(a + b)
  {
    var w := a + b;
    forall i, j | 0 <= i < j < |w| ensures w[i] != w[j] {
      if i < |a| <= j {
        assert w[i] in a && w[j] in b;
      } else if i < |a| {
        assert w[i] == a[i] && w[j] == a[j];
      } else {
        assert w[i] == b[i - |a|] && w[j] == b[j - |a|];
      }
    }
  }

  // ---- Open ----

  /** One more element: empty and `.` elements go, `..` takes the one before it away where there is one. */
  function CleanStep(rooted: bool, most: seq<string>, last: string): seq<string> {
    if last == "" || last == "." then most
    else if last != ".." then most + [last]
    else if most != [] && most[|most| - 1] != ".." then most[..|most| - 1]
    else if rooted then most
    else most + [".."]
  }

  /** `path.Clean` on the elements. */
  function CleanNames(rooted: bool, names: seq<string>): seq<string> {
    if names == [] then []
    else CleanStep(rooted, CleanNames(rooted, names[..|names| - 1]), names[|names| - 1])
  }

  function Clean(p: Path): Path {
    Path(p.rooted, CleanNames(p.rooted, p.names))
  }

  /** A name that is no step of another kind. */
  predicate IsName(name: string) {
    name != "" && name != "." && name != ".."
  }

  /** Only names, after steps up that a relative path may begin with. */
  predicate Normal(rooted: bool, names: seq<string>) {
    forall k | 0 <= k < |names| ::
      IsName(names[k]) || (names[k] == ".." && !rooted && (k == 0 || names[k - 1] == ".."))
  }

  lemma StepIsNormal(rooted: bool, most: seq<string>, last: string)
    requires Normal(rooted, most)
    ensures Normal(rooted, CleanStep(rooted, most, last))
  {
    if last == ".." && most != [] && most[|most| - 1] != ".." {
      FrontIsNormal(rooted, most);
    } else if CleanStep(rooted, most, last) != most {
      hide CleanStep;
      OneMoreIsNormal(rooted, most, last);
    }
  }

  lemma OneMoreIsNormal(rooted: bool, most: seq<string>, last: string)
    requires Normal(rooted, most)
    requires IsName(last) || (last == ".." && !rooted && (most == [] || most[|most| - 1] == ".."))
    ensures Normal(rooted, most + [last])
  {
    var all := most + [last];
    forall k | 0 <= k < |all|
      ensures IsName(all[k]) || (all[k] == ".." && !rooted && (k == 0 || all[k - 1] == ".."))
    {
      if k < |most| {
        assert all[k] == most[k];
      }
    }
  }

  /** A step onto what stays normal keeps it as it is. */
  lemma NormalStep(rooted: bool, most: seq<string>, last: string)
    requires Normal(rooted, most + [last])
    ensures CleanStep(rooted, most, last) == most + [last]
  {
    var all := most + [last];
    assert IsName(all[|most|]) || (all[|most|] == ".." && !rooted && (|most| == 0 || all[|most| - 1] == ".."));
  }

  lemma FrontIsNormal(rooted: bool, names: seq<string>)
    requires Normal(rooted, names) && names != []
    ensures Normal(rooted, names[..|names| - 1])
  {
  }

  /** A clean path is normal, and a normal one is clean. */
  lemma {:induction false} CleanIsNormal(rooted: bool, names: seq<string>)
    ensures Normal(rooted, CleanNames(rooted, names))
    ensures Normal(rooted, names) ==> CleanNames(rooted, names) == names
  {
    hide Normal, CleanStep;
    if names == [] {
      NothingIsNormal(rooted);
    } else {
      var most, last := names[..|names| - 1], names[|names| - 1];
      CleanIsNormal(rooted, most);
      StepIsNormal(rooted, CleanNames(rooted, most), last);
      assert names == most + [last];
      if Normal(rooted, names) {
        FrontIsNormal(rooted, names);
        NormalStep(rooted, most, last);
      }
    }
  }

  lemma NothingIsNormal(rooted: bool)
    ensures Normal(rooted, [])
  {
  }

  lemma CleanLast(rooted: bool, names: seq<string>, last: string)
    ensures CleanNames(rooted, names + [last]) == CleanStep(rooted, CleanNames(rooted, names), last)
  {
    assert (names + [last])[..|names|] == names;
  }

  /** What comes after is cleaned alike where the same is left of what came before. */
  lemma {:induction false} CleanGoesOn(rooted: bool, u: seq<string>, v: seq<string>, b: seq<string>)
    requires CleanNames(rooted, u) == CleanNames(rooted, v)
    ensures CleanNames(rooted, u + b) == CleanNames(rooted, v + b)
    decreases |b|
  {
    hide CleanNames, CleanStep;
    if b == [] {
      assert u + b == u && v + b == v;
    } else {
      var most, last := b[..|b| - 1], b[|b| - 1];
      CleanGoesOn(rooted, u, v, most);
      assert u + b == u + most + [last] && v + b == v + most + [last];
      CleanLast(rooted, u + most, last);
      CleanLast(rooted, v + most, last);
    }
  }

  /** Cleaning keeps where a path leads: empty steps go, and a name goes with the step up that undoes it. */
  lemma CleanKeepsPlace(rooted: bool, a: seq<string>, name: string, b: seq<string>)
    ensures CleanNames(rooted, a + [""] + b) == CleanNames(rooted, a + ["."] + b) == CleanNames(rooted, a + b)
    ensures IsName(name) ==> CleanNames(rooted, a + [name] + [".."] + b) == CleanNames(rooted, a + b)
    ensures CleanNames(true, [] + [".."] + b) == CleanNames(true, [] + b)
  {
    hide CleanNames;
    CleanLast(rooted, a, "");
    CleanLast(rooted, a, ".");
    CleanLast(rooted, a, name);
    CleanLast(rooted, a + [name], "..");
    CleanLast(true, [], "..");
    NothingToClean();
    CleanGoesOn(rooted, a + [""], a, b);
    CleanGoesOn(rooted, a + ["."], a, b);
    CleanGoesOn(true, [] + [".."], [], b);
    if IsName(name) {
      var c := CleanNames(rooted, a);
      assert (c + [name])[..|c|] == c;
      CleanGoesOn(rooted, a + [name] + [".."], a, b);
    }
  }

  lemma NothingToClean()
    ensures CleanNames(true, []) == []
  {
  }

  /** The whole check, on a clean path. */
  predicate Allowed(exclude: Exclusion, p: Path) {
    && !exclude(p, false)
    && forall n | 0 < n < |p.names| :: !exclude(p.(names := p.names[..n]), true)
  }

  /** `Open`'s check: the path, then each directory above it, up to the top. */
  method LetsThrough(exclude: Exclusion, p: Path) returns (ok: bool)
    ensures ok <==> Allowed(exclude, Clean(p))
  {
    var clean := Clean(p);
    if exclude(clean, false) {
      return false;
    }
    var dir := Parent(clean);
    while dir.names != []
      invariant dir.rooted == clean.rooted && |dir.names| <= |clean.names| && dir.names == clean.names[..|dir.names|]
      invariant |dir.names| < |clean.names| || dir.names == []
      invariant forall n | |dir.names| < n < |clean.names| :: !exclude(clean.(names := clean.names[..n]), true)
      decreases |dir.names|
    {
      assert dir == clean.(names := clean.names[..|dir.names|]);
      if exclude(dir, true) {
        return false;
      }
      dir := Parent(dir);
    }
    return true;
  }

  function Parent(p: Path): Path {
    if p.names == [] then p else p.(names := p.names[..|p.names| - 1])
  }

  // ---- The two agree ----

  lemma {:induction false} FilePathIsClean(entries: Entries, p: seq<string>)
    requires WellFormed(entries) && FileAt(entries, p)
    ensures forall k | 0 <= k < |p| :: p[k] != "" && p[k] != "." && p[k] != ".."
    decreases entries
  {
    if entries.name != p[0] {
      FilePathIsClean(entries.rest, p);
    } else if |p| > 1 {
      FilePathIsClean(entries.node.entries, p[1..]);
      assert forall k | 1 <= k < |p| :: p[k] == p[1..][k - 1];
    }
  }

  lemma {:induction false} CleanIsIdentity(names: seq<string>)
    requires forall k | 0 <= k < |names| :: names[k] != "" && names[k] != "." && names[k] != ".."
    ensures CleanNames(false, names) == names && CleanNames(true, names) == names
  {
    if names != [] {
      CleanIsIdentity(names[..|names| - 1]);
    }
  }

  /**
   Main result: a relative path, clean or not, opens a file of the filtered context exactly when the filtered walk of
   the whole tree hands on the file it comes down to.
   */
  lemma WalkAndOpenAgree(exclude: Exclusion, entries: Entries, p: Path)
    requires WellFormed(entries) && !p.rooted
    ensures var clean := Clean(p);
            Emitted(clean.names, false) in Walk(exclude, entries, []) <==>
                FileAt(entries, clean.names) && Allowed(exclude, clean)
  {
    var clean := Clean(p);
    WalkEmits(exclude, entries, [], clean.names, false);
    assert clean.names[0..] == clean.names;
  }

  /** `Open` and the walk say the same of the file a path comes down to. */
  ghost predicate Agree(exclude: Exclusion, entries: Entries, p: Path) {
    var clean := Clean(p);
    Emitted(clean.names, false) in Walk(exclude, entries, []) <==>
      FileAt(entries, clean.names) && Allowed(exclude, clean)
  }

  /**
   A rooted path is checked under its rooted name, and the walk under the relative one: of a file they say the same
   exactly when the exclusion lets both names through, directories above included, or neither.
   */
  lemma RootedAgreesIff(exclude: Exclusion, entries: Entries, p: Path)
    requires WellFormed(entries) && p.rooted && FileAt(entries, Clean(p).names)
    ensures Agree(exclude, entries, p) <==>
            (Allowed(exclude, Path(true, Clean(p).names)) <==> Allowed(exclude, Path(false, Clean(p).names)))
  {
    var names := Clean(p).names;
    WalkEmits(exclude, entries, [], names, false);
    assert names[0..] == names;
  }

  /** Over all rooted paths: they always agree if and only if the exclusion treats the two names of every file alike. */
  lemma RootedPathsAgreeIff(exclude: Exclusion, entries: Entries)
    requires WellFormed(entries)
    ensures (forall p: Path | p.rooted :: Agree(exclude, entries, p)) <==>
            forall names | FileAt(entries, names) ::
              Allowed(exclude, Path(true, names)) <==> Allowed(exclude, Path(false, names))
  {
    hide FileAt, Allowed, Agree, WellFormed;
    forall names | FileAt(entries, names)
      ensures Agree(exclude, entries, Path(true, names)) <==>
              (Allowed(exclude, Path(true, names)) <==> Allowed(exclude, Path(false, names)))
    {
      FilePathIsClean(entries, names);
      CleanIsIdentity(names);
      RootedAgreesIff(exclude, entries, Path(true, names));
    }
    forall p: Path | p.rooted
      ensures Agree(exclude, entries, p) <==>
              (FileAt(entries, Clean(p).names) ==>
                (Allowed(exclude, Path(true, Clean(p).names)) <==> Allowed(exclude, Path(false, Clean(p).names))))
    {
      if FileAt(entries, Clean(p).names) {
        RootedAgreesIff(exclude, entries, p);
      } else {
        NoFileAgrees(exclude, entries, p);
      }
    }
    if forall p: Path | p.rooted :: Agree(exclude, entries, p) {
      forall names | FileAt(entries, names)
        ensures Allowed(exclude, Path(true, names)) <==> Allowed(exclude, Path(false, names))
      {
        assert Path(true, names).rooted && Agree(exclude, entries, Path(true, names));
      }
    }
  }

  lemma NoFileAgrees(exclude: Exclusion, entries: Entries, p: Path)
    requires WellFormed(entries) && !FileAt(entries, Clean(p).names)
    ensures Agree(exclude, entries, p)
  {
    var names := Clean(p).names;
    WalkEmits(exclude, entries, [], names, false);
    assert names[0..] == names;
  }

  /** An exclusion that knows the file `hidden` by its relative name only: the walk hides it, `Open` gives `/hidden`. */
  lemma RootedNameIsOpened(exclude: Exclusion)
    requires forall q, dir :: exclude(q, dir) <==> q == Path(false, ["hidden"])
    ensures var entries, p := Cons("hidden", File, Nil), Path(true, ["hidden"]);
            && Emitted(["hidden"], false) !in Walk(exclude, entries, [])
            && Clean(p) == p && FileAt(entries, p.names) && Allowed(exclude, p)
            && !Agree(exclude, entries, p)
  {
    hide Walk, CleanNames;
    var entries, names := Cons("hidden", File, Nil), ["hidden"];
    CleanIsIdentity(names);
    WalkEmits(exclude, entries, [], names, false);
    assert names[0..] == names;
    assert Allowed(exclude, Path(true, names));
  }

  /** Every file the walk hands on can be opened by the path it is handed on with. */
  lemma WalkedFilesOpen(exclude: Exclusion, entries: Entries, names: seq<string>)
    requires WellFormed(entries)
    ensures Emitted(names, false) in Walk(exclude, entries, []) ==>
              Clean(Path(false, names)) == Path(false, names) && FileAt(entries, names)
                  && Allowed(exclude, Path(false, names))
  {
    if Emitted(names, false) in Walk(exclude, entries, []) {
      WalkEmits(exclude, entries, [], names, false);
      assert names[0..] == names;
      FilePathIsClean(entries, names);
      CleanIsIdentity(names);
    }
  }

  // ---- Walking from a target ----

  /** The node a path leads to, if there is one. */
  function NodeAt(entries: Entries, p: seq<string>): Tree
    requires p != []
  {
    if entries.Nil? then Dir(Nil)
    else if entries.name != p[0] then NodeAt(entries.rest, p)
    else if |p| == 1 then entries.node
    else if entries.node.File? then Dir(Nil)
    else NodeAt(entries.node.entries, p[1..])
  }

  /** The filtered walk of what lies at `target`, beginning with the target itself. */
  function WalkFrom(exclude: Exclusion, entries: Entries, target: seq<string>): seq<Emitted>
    requires target != []
  {
    var last := |target| - 1;
    Walk(exclude, Cons(target[last], NodeAt(entries, target), Nil), target[..last])
  }

  lemma {:induction false} FileUnderNode(entries: Entries, target: seq<string>, p: seq<string>)
    requires WellFormed(entries) && target != [] && target <= p
    requires forall k | 0 <= k < |target| :: target[k] != "" && target[k] != "." && target[k] != ".."
    ensures WellFormed(Cons(target[|target| - 1], NodeAt(entries, target), Nil))
    ensures EntryAt(entries, p, false) <==>
            EntryAt(Cons(target[|target| - 1], NodeAt(entries, target), Nil), p[|target| - 1..], false)
    decreases entries
  {
    if entries.Cons? {
      if entries.name != target[0] {
        FileUnderNode(entries.rest, target, p);
      } else if |target| > 1 && entries.node.Dir? {
        FileUnderNode(entries.node.entries, target[1..], p[1..]);
        assert p[1..][|target[1..]| - 1..] == p[|target| - 1..];
      }
    }
  }

  /**
   Of a file that a walk from a target hands on, `Open` lets through those with no excluded directory above the target.
   */
  lemma TargetWalkAgreesIff(exclude: Exclusion, entries: Entries, target: seq<string>, p: seq<string>)
    requires WellFormed(entries) && target != []
    requires forall k | 0 <= k < |target| :: target[k] != "" && target[k] != "." && target[k] != ".."
    requires Emitted(p, false) in WalkFrom(exclude, entries, target)
    ensures target <= p && FileAt(entries, p)
    ensures Allowed(exclude, Path(false, p)) <==> forall n | 0 < n < |target| ::
            !exclude(Path(false, target[..n]), true)
  {
    hide EntryAt, NodeAt, Walk, WellFormed;
    var last := |target| - 1;
    var at, only := target[..last], Cons(target[last], NodeAt(entries, target), Nil);
    FileUnderNode(entries, target, target);
    WalkEmits(exclude, only, at, p, false);
    OnlyName(only, p[last..]);
    assert target == at + [target[last]] <= p;
    FileUnderNode(entries, target, p);
    assert forall n | 0 < n < |target| :: p[..n] == target[..n];
  }

  lemma OnlyName(only: Entries, p: seq<string>)
    requires only.Cons? && only.rest.Nil? && EntryAt(only, p, false)
    ensures p != [] && p[0] == only.name
  {
  }
}
