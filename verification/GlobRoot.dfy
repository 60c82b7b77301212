/**
 `globWalkRoot`: a walk for matches starts below the pattern's literal parts. That loses no match exactly when none
 of those parts holds a backslash, which the matcher reads as an escape and the file system as a character.
 Locations are names from the base directory down.
 */
module GlobRoot {
  import opened Glob

  predicate HasMeta(part: string) {
    '*' in part || '?' in part || '[' in part
  }

  /** The parts before the first with a metacharacter. */
  function Literal(parts: seq<string>): (r: seq<string>)
    ensures |r| <= |parts| && r == parts[..|r|]
    ensures forall part | part in r :: !HasMeta(part)
    ensures |r| < |parts| ==> HasMeta(parts[|r|])
  {
    if parts == [] || HasMeta(parts[0]) then [] else [parts[0]] + Literal(parts[1..])
  }

  /** Joining onto a directory drops empty and `.` elements; `..` was refused before. */
  function Joined(names: seq<string>): seq<string> {
    if names == [] then []
    else (if names[0] == "" || names[0] == "." then [] else [names[0]]) + Joined(names[1..])
  }

  function Root(parts: seq<string>): seq<string> {
    Joined(Literal(parts))
  }

  method WalkRoot(parts: seq<string>) returns (root: seq<string>)
    ensures root == Root(parts)
  {
    hide *;
    var literal: seq<string> := [];
    var i := 0;
    LiteralFrom(parts, 0);
    while i < |parts|
      invariant 0 <= i <= |Literal(parts)| <= |parts|
      invariant literal == Literal(parts)[..i]
      decreases |parts| - i
    {
      LiteralFrom(parts, i);
      if parts[i] == "**" || HasMeta(parts[i]) {
        break;
      }
      literal := literal + [parts[i]];
      i := i + 1;
    }
    assert literal == Literal(parts);
    root := Joined(literal);
  }

  /** The literal parts go on as long as no part has a metacharacter. */
  lemma LiteralFrom(parts: seq<string>, i: nat)
    requires i <= |Literal(parts)|
    ensures i < |parts| && parts[i] == "**" ==> HasMeta(parts[i])
    ensures i < |parts| && HasMeta(parts[i]) ==> i == |Literal(parts)|
    ensures i < |parts| && !HasMeta(parts[i]) ==> i < |Literal(parts)| && Literal(parts)[i] == parts[i]
    ensures Joined(Literal(parts)) == Root(parts) && |Literal(parts)| <= |parts|
  {
    hide Joined;
    assert "**"[0] == '*';
    if i < |Literal(parts)| {
      assert Literal(parts)[i] in Literal(parts);
    }
  }

  // ---- What the segment matcher does with a part that has no metacharacter ----

  datatype Unescaped = Dangling | Text(text: string)

  /** A backslash stands for the character after it; one at the end is malformed. */
  function Unescape(part: string): Unescaped {
    if part == [] then Text([])
    else if part[0] != '\\' then Push(part[0], Unescape(part[1..]))
    else if |part| == 1 then Dangling
    else Push(part[1], Unescape(part[2..]))
  }

  function Push(c: char, u: Unescaped): Unescaped {
    if u.Dangling? then Dangling else Text([c] + u.text)
  }

  ghost predicate LiteralsStandForThemselves(seg: Matching) {
    forall part, s | !HasMeta(part) ::
      seg(part, s) == if Unescape(part).Dangling? then Malformed else if s == Unescape(part).text then Yes else No
  }

  lemma {:induction false} UnescapeShrinks(part: string)
    requires Unescape(part).Text?
    ensures if '\\' in part then |Unescape(part).text| < |part| else Unescape(part).text == part
  {
    if part != [] {
      if part[0] != '\\' {
        UnescapeShrinks(part[1..]);
      } else {
        UnescapeShrinks(part[2..]);
      }
    }
  }

  // ---- Accepted paths and the root ----

  predicate Name(s: string) {
    s != "" && s != "." && s != ".." && '/' !in s
  }

  predicate Location(loc: seq<string>) {
    forall s | s in loc :: Name(s)
  }

  /** The path the matcher is given; the base directory itself is `.`. */
  function Rel(loc: seq<string>): seq<string> {
    if loc == [] then ["."] else loc
  }

  ghost predicate Accepts(seg: Matching, parts: seq<string>, loc: seq<string>) {
    Matches(seg, parts, Rel(loc), 0, 0)
  }

  predicate HasBackslash(parts: seq<string>) {
    exists part | part in parts :: '\\' in part
  }

  /** An accepted path begins with what the literal parts stand for. */
  lemma LiteralsTakeTheFront(seg: Matching, parts: seq<string>, path: seq<string>, cuts: seq<nat>, i: nat)
    requires LiteralsStandForThemselves(seg) && Splits(seg, parts, path, 0, 0, cuts) && i <= |Literal(parts)|
    ensures cuts[i] == i <= |path|
    ensures forall k | 0 <= k < i :: Unescape(parts[k]) == Text(path[k])
  {
    hide Unescape;
    if i > 0 {
      LiteralsTakeTheFront(seg, parts, path, cuts, i - 1);
      var part := Literal(parts)[i - 1];
      assert part in Literal(parts) && part == parts[i - 1] && !HasMeta(part);
      assert Takes(seg, parts[0 + (i - 1)], path, cuts[i - 1], cuts[i]);
      assert part != ANY_RUN by {
        assert HasMeta(ANY_RUN) by { assert ANY_RUN[0] == '*'; }
      }
    }
  }

  lemma {:induction false} JoinedNames(names: seq<string>)
    requires forall k | 0 <= k < |names| :: names[k] != "" && names[k] != "."
    ensures Joined(names) == names
  {
    if names != [] {
      JoinedNames(names[1..]);
    }
  }

  lemma NamesUnderRoot(literal: seq<string>, loc: seq<string>)
    requires |literal| <= |loc| && forall k | 0 <= k < |loc| :: Name(loc[k])
    requires forall k | 0 <= k < |literal| ::
            if '\\' in literal[k] then |loc[k]| < |literal[k]| else literal[k] == loc[k]
    ensures Joined(literal) <= loc <==> !HasBackslash(literal)
  {
    forall k | 0 <= k < |literal| ensures literal[k] != "" && literal[k] != "." {
      assert Name(loc[k]);
    }
    JoinedNames(literal);
    if HasBackslash(literal) {
      var part :| part in literal && '\\' in part;
      var k :| 0 <= k < |literal| && literal[k] == part;
      assert literal[k] != loc[k];
    } else {
      assert forall k | 0 <= k < |literal| :: literal[k] in literal;
    }
  }

  /** An accepted path lies under the root exactly when no literal part holds a backslash. */
  lemma AcceptedUnderRoot(seg: Matching, parts: seq<string>, loc: seq<string>)
    requires LiteralsStandForThemselves(seg) && Location(loc) && Accepts(seg, parts, loc)
    ensures Root(parts) <= loc <==> !HasBackslash(Literal(parts))
  {
    hide Unescape, Literal, HasBackslash, Joined, LiteralsStandForThemselves, Name;
    var literal, path := Literal(parts), Rel(loc);
    var cuts :| Splits(seg, parts, path, 0, 0, cuts);
    LiteralsTakeTheFront(seg, parts, path, cuts, |literal|);
    forall k | 0 <= k < |literal|
      ensures if '\\' in literal[k] then |path[k]| < |literal[k]| else literal[k] == path[k]
    {
      UnescapeShrinks(literal[k]);
    }
    if loc == [] {
      BaseUnderRoot(literal);
    } else {
      NamesUnderRoot(literal, loc);
    }
  }

  lemma BaseUnderRoot(literal: seq<string>)
    requires |literal| <= 1
    requires |literal| == 1 && !('\\' in literal[0]) ==> literal[0] == "."
    ensures Joined(literal) <= [] <==> !HasBackslash(literal)
  {
    if |literal| == 1 {
      assert literal[0] in literal;
      assert Joined(literal[1..]) == [];
      if '\\' in literal[0] {
        assert literal[0] != "." && literal[0] != "";
      }
    }
  }

  // ---- The walk ----

  /** No directory from the root down to the location is hidden. */
  predicate Visible(hidden: seq<string> -> bool, root: seq<string>, loc: seq<string>) {
    root <= loc && forall n | |root| <= n <= |loc| :: !hidden(loc[..n])
  }

  /** The matches a walk from `root` finds. */
  ghost function Found(seg: Matching, parts: seq<string>, tree: set<seq<string>>, hidden: seq<string> -> bool,
      root: seq<string>): set<seq<string>> {
    set loc | loc in tree && Visible(hidden, root, loc) && Accepts(seg, parts, loc)
  }

  /** What lies under something hidden is hidden. */
  ghost predicate Inherited(hidden: seq<string> -> bool) {
    forall loc, n | 0 <= n <= |loc| && hidden(loc[..n]) :: hidden(loc)
  }

  /** The walk from the root finds every match the walk of the whole tree finds, if no literal part has a backslash. */
  lemma PrunedWalkLosesNothing(seg: Matching, parts: seq<string>, tree: set<seq<string>>, hidden: seq<string> -> bool)
    requires LiteralsStandForThemselves(seg) && (forall loc | loc in tree :: Location(loc))
    requires !HasBackslash(Literal(parts))
    ensures Found(seg, parts, tree, hidden, []) <= Found(seg, parts, tree, hidden, Root(parts))
  {
    hide Accepts, Root, HasBackslash, LiteralsStandForThemselves;
    forall loc | loc in Found(seg, parts, tree, hidden, [])
        ensures loc in Found(seg, parts, tree, hidden, Root(parts)) {
      AcceptedUnderRoot(seg, parts, loc);
    }
  }

  /** And it finds the same matches exactly when no literal part has a backslash, or there are none to find. */
  lemma PrunedWalkIsExact(seg: Matching, parts: seq<string>, tree: set<seq<string>>, hidden: seq<string> -> bool)
    requires LiteralsStandForThemselves(seg) && (forall loc | loc in tree :: Location(loc)) && Inherited(hidden)
    ensures Found(seg, parts, tree, hidden, Root(parts)) == Found(seg, parts, tree, hidden, []) <==>
              !HasBackslash(Literal(parts)) || Found(seg, parts, tree, hidden, []) == {}
  {
    hide Accepts, Root, HasBackslash, LiteralsStandForThemselves, Inherited;
    var whole, pruned := Found(seg, parts, tree, hidden, []), Found(seg, parts, tree, hidden, Root(parts));
    forall loc | loc in pruned ensures loc in whole {
      VisibleFromBase(hidden, Root(parts), loc);
    }
    if !HasBackslash(Literal(parts)) {
      PrunedWalkLosesNothing(seg, parts, tree, hidden);
    } else if loc :| loc in whole {
      AcceptedUnderRoot(seg, parts, loc);
    }
  }

  lemma VisibleFromBase(hidden: seq<string> -> bool, root: seq<string>, loc: seq<string>)
    requires Inherited(hidden) && Visible(hidden, root, loc)
    ensures Visible(hidden, [], loc)
  {
    assert loc[..|loc|] == loc;
  }

  /** The pattern `a\b` accepts the file `ab`, and the walk starts at a directory called `a\b`. */
  lemma BackslashMissesMatches(seg: Matching)
    requires LiteralsStandForThemselves(seg)
    ensures Accepts(seg, ["a\\b"], ["ab"]) && Root(["a\\b"]) == ["a\\b"] && !(Root(["a\\b"]) <= ["ab"])
  {
    var part := "a\\b";
    assert part[1..] == "\\b" && part[1..][2..] == [];
    assert Unescape(part) == Text("ab");
    assert seg(part, "ab") == Yes;
    assert Splits(seg, [part], ["ab"], 0, 0, [0, 1]);
    assert Literal([part]) == [part] && Joined([part]) == [part];
  }
}
