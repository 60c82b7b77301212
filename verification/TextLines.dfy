/** The lines of a text, as `bufio.ScanLines` gives them, and what putting line feeds back restores. */
module TextLines {
  import opened Utf8

  function DropCarriageReturn(line: string): string {
    if line != [] && line[|line| - 1] == '\r' then line[..|line| - 1] else line
  }

  /**
   `bufio.ScanLines`: lines end at a line feed, of which a carriage return before it counts as part; a last line need
   not end.
   */
  function ScanFrom(file: string, start: nat, i: nat): (lines: seq<string>)
    requires start <= i <= |file|
    ensures |lines| <= |file| - start
    decreases |file| - i
  {
    if i == |file| then (if start == i then [] else [DropCarriageReturn(file[start..i])])
    else if file[i] == '\n' then [DropCarriageReturn(file[start..i])] + ScanFrom(file, i + 1, i + 1)
    else ScanFrom(file, start, i + 1)
  }

  function ScanLines(file: string): seq<string> {
    ScanFrom(file, 0, 0)
  }

  /** The text of lines, each ended by a line feed, from number `i` on, the first from `column` on. */
  function Stream(lines: seq<string>, i: nat, column: nat): string
    requires i < |lines| ==> column <= |lines[i]|
    decreases |lines| - i
  {
    if i >= |lines| then [] else lines[i][column..] + "\n" + Stream(lines, i + 1, 0)
  }

  lemma {:induction false} StreamCons(line: string, lines: seq<string>, i: nat)
    ensures Stream([line] + lines, i + 1, 0) == Stream(lines, i, 0)
    decreases |lines| - i
  {
    if i < |lines| {
      StreamCons(line, lines, i + 1);
    }
  }

  /** The text from `start` on, with its last line ended. */
  function Ended(file: string, start: nat): string
    requires start <= |file|
  {
    file[start..] + if start == |file| || file[|file| - 1] == '\n' then [] else "\n"
  }

  predicate EndsLine(file: string, k: nat)
    requires k < |file|
  {
    k + 1 == |file| || file[k + 1] == '\n'
  }

  /** Some line ends in a carriage return. */
  predicate HasReturn(file: string, start: nat) {
    exists k :: start <= k < |file| && file[k] == '\r' && EndsLine(file, k)
  }

  /** Every line of valid text is valid. */
  lemma {:induction false} LinesAreValid(file: string, start: nat, i: nat)
    requires Valid(file) && start <= i <= |file| && Boundary(file, start)
    ensures forall line | line in ScanFrom(file, start, i) :: Valid(line)
    decreases |file| - i
  {
    hide Valid;
    if i < |file| && file[i] != '\n' {
      LinesAreValid(file, start, i + 1);
    } else {
      LineIsValid(file, start, i);
      if i < |file| {
        StartAfterLine(file, i);
        LinesAreValid(file, i + 1, i + 1);
      }
    }
  }

  /** No line holds a line feed. */
  lemma {:induction false} LinesHaveNoFeed(file: string, start: nat, i: nat)
    requires start <= i <= |file| && forall k | start <= k < i :: file[k] != '\n'
    ensures forall line | line in ScanFrom(file, start, i) :: '\n' !in line
    decreases |file| - i
  {
    if i < |file| && file[i] != '\n' {
      LinesHaveNoFeed(file, start, i + 1);
    } else if i < |file| {
      LinesHaveNoFeed(file, i + 1, i + 1);
    }
  }

  lemma LineIsValid(file: string, start: nat, i: nat)
    requires Valid(file) && start <= i <= |file| && Boundary(file, start) && (i < |file| ==> file[i] == '\n')
    ensures Valid(DropCarriageReturn(file[start..i]))
  {
    hide Valid;
    SliceIsValid(file, start, i);
    if start < i && file[i - 1] == '\r' {
      SliceIsValid(file, start, i - 1);
      assert file[start..i][..i - start - 1] == file[start..i - 1];
    }
  }

  /** After a line feed a rune starts. */
  lemma StartAfterLine(file: string, i: nat)
    requires Valid(file) && i < |file| && file[i] == '\n'
    ensures Boundary(file, i + 1)
  {
    CutIsValid(file, i);
    NextIsStart(file[i..], 1);
    assert i + 1 < |file| ==> file[i..][1] == file[i + 1];
  }

  lemma StreamLine(line: string, rest: seq<string>)
    ensures Stream([line] + rest, 0, 0) == (line + "\n") + Stream(rest, 0, 0)
  {
    StreamCons(line, rest, 0);
  }

  lemma EndedAtLine(file: string, start: nat, i: nat)
    requires start <= i < |file| && file[i] == '\n'
    ensures Ended(file, start) == (file[start..i] + "\n") + Ended(file, i + 1)
  {
    assert file[start..] == (file[start..i] + "\n") + file[i + 1..];
  }

  lemma EndedAtEnd(file: string, start: nat)
    requires start <= |file| && forall k | start <= k < |file| :: file[k] != '\n'
    ensures Ended(file, start) == if start == |file| then [] else file[start..|file|] + "\n"
  {
    assert file[start..] == file[start..|file|];
  }

  /** Ending each line with a line feed gives the text back, last line ended, when no line lost a carriage return. */
  lemma {:induction false} ScanRestores(file: string, start: nat, i: nat)
    requires start <= i <= |file| && forall k | start <= k < i :: file[k] != '\n'
    ensures |Stream(ScanFrom(file, start, i), 0, 0)| <= |Ended(file, start)|
    ensures HasReturn(file, start) ==> |Stream(ScanFrom(file, start, i), 0, 0)| < |Ended(file, start)|
    ensures !HasReturn(file, start) ==> Stream(ScanFrom(file, start, i), 0, 0) == Ended(file, start)
    decreases |file| - i
  {
    hide HasReturn, DropCarriageReturn, EndsLine, Stream, Ended;
    if i < |file| && file[i] != '\n' {
      ScanRestores(file, start, i + 1);
    } else {
      LineRestores(file, start, i);
      var line := DropCarriageReturn(file[start..i]);
      StreamOfNothing();
      if i < |file| {
        var rest := ScanFrom(file, i + 1, i + 1);
        ScanRestores(file, i + 1, i + 1);
        StreamLine(line, rest);
        EndedAtLine(file, start, i);
      } else {
        EndedAtEnd(file, start);
        StreamLine(line, []);
        assert [line] + [] == [line] && (line + "\n") + [] == line + "\n";
      }
    }
  }

  lemma StreamOfNothing()
    ensures Stream([], 0, 0) == []
  {
  }

  lemma LineRestores(file: string, start: nat, i: nat)
    requires start <= i <= |file| && (forall k | start <= k < i :: file[k] != '\n') && (i < |file| ==> file[i] == '\n')
    ensures var line := DropCarriageReturn(file[start..i]);
            && (HasReturn(file, start) <==> line != file[start..i] || (i < |file| && HasReturn(file, i + 1)))
            && (line != file[start..i] ==> |line| == i - start - 1)
  {
    if i > start && file[i - 1] == '\r' {
      assert EndsLine(file, i - 1);
    }
    if i < |file| && HasReturn(file, i + 1) {
      var k :| i + 1 <= k < |file| && file[k] == '\r' && EndsLine(file, k);
    }
    if HasReturn(file, start) {
      var k :| start <= k < |file| && file[k] == '\r' && EndsLine(file, k);
      if i <= k {
        assert i + 1 <= k;
      } else {
        assert k == i - 1;
      }
    }
  }

  /** So the text comes back, last line ended, exactly when no line of it ends in a carriage return. */
  lemma LinesRestoreText(file: string)
    ensures Stream(ScanLines(file), 0, 0) == Ended(file, 0) <==> !HasReturn(file, 0)
  {
    hide Stream, HasReturn, Ended;
    ScanRestores(file, 0, 0);
  }
}
