/**
 The read tool's pages of a text file. A page holds whole lines while they fit; a line too long for what is left is
 split, and the cursor, a line and a column in it, says where to go on. Following it reads the file exactly once.
 */
module ReadCursor {
  import opened Utf8
  import opened TextLines
  import Decimal
  import opened Marks

  const MAX_READ_LINES := 200
  const MAX_READ_BYTES := 64 * 1024
  const MAX_READABLE_FILE_BYTES := 1024 * 1024

  // ---- A page ----

  /** Part of a line: from where a split left off, or up to a new split. */
  datatype Piece = Piece(line: nat, text: string, resumed: bool, cut: bool)

  datatype Next = Complete | AtLine(offset: nat) | AtColumn(atOffset: nat, column: nat)

  datatype Got = Got(pieces: seq<Piece>, next: Next)

  /** Three bytes. */
  function Ellipsis(): string {
    [0xE2 as char, 0x80 as char, 0xA6 as char]
  }

  function LinePrefix(line: nat, resumed: bool): string {
    Decimal.Digits(line) + ":" + if resumed then Ellipsis() else ""
  }

  function Render(p: Piece): string {
    LinePrefix(p.line, p.resumed) + p.text + if p.cut then Ellipsis() else ""
  }

  function SafePrefix(value: string, maxBytes: nat): string {
    if |value| <= maxBytes then value else value[..Floor(value, maxBytes)]
  }

  method SafeTextPrefix(value: string, maxBytes: nat) returns (r: string)
    ensures r == SafePrefix(value, maxBytes)
  {
    if |value| <= maxBytes {
      return value;
    }
    var end := maxBytes;
    while end > 0 && !RuneStart(value[end])
      invariant 0 <= end <= maxBytes
      invariant Floor(value, end) == Floor(value, maxBytes)
    {
      end := end - 1;
    }
    r := value[..end];
  }

  /** What is left for the text of a split line, after its prefix, both marks and the line feed. */
  function Room(used: nat, line: nat, resumed: bool): nat {
    var remaining := MAX_READ_BYTES - used - |LinePrefix(line, resumed)| - |Ellipsis()| - 1;
    if remaining > 0 then remaining else 0
  }

  /** Lines from number `i` on, the first from `column` on, while `left` lines and the bytes not `used` allow. */
  function Take(lines: seq<string>, i: nat, column: nat, left: nat, used: nat): Got
    requires i <= |lines| && (i < |lines| ==> column <= |lines[i]|)
    decreases |lines| - i
  {
    if i == |lines| then Got([], Complete)
    else if left == 0 then Got([], AtLine(i))
    else
      var text := lines[i][column..];
      var whole := Piece(i + 1, text, column > 0, false);
      if used + |Render(whole)| + 1 > MAX_READ_BYTES then
        var part := SafePrefix(text, Room(used, i + 1, column > 0));
        if part == [] then Got([], AtLine(i))
            else Got([whole.(text := part, cut := true)], AtColumn(i, column + |part|))
      else
        var rest := Take(lines, i + 1, 0, left - 1, used + |Render(whole)| + 1);
        Got([whole] + rest.pieces, rest.next)
  }

  datatype Failure = NegativeOffset | NegativeColumn | BadLimit | FileTooLarge | ColumnPastEnd

  datatype Reply =
    | Failed(why: Failure)
    | NoLines
    | Page(lines: seq<string>, next: Next)

  function Rendered(pieces: seq<Piece>): (r: seq<string>)
    ensures |r| == |pieces|
  {
    seq(|pieces|, k requires 0 <= k < |pieces| => Render(pieces[k]))
  }

  function LimitOr(limit: int): int {
    if limit == 0 then MAX_READ_LINES else limit
  }

  /** A column inside a rune is moved to the next one; the start of the line stays. */
  function StartColumn(text: string, column: nat): (c: nat)
    requires column <= |text|
    ensures column <= c <= |text|
  {
    if column == 0 then 0 else Ceil(text, column)
  }

  /** The pieces of a page whose cursor is good. */
  function PageAt(lines: seq<string>, offset: nat, column: nat, limit: nat): Got
    requires offset < |lines| ==> column <= |lines[offset]|
  {
    if offset >= |lines| then Got([], Complete) else Take(lines, offset, StartColumn(lines[offset], column), limit, 0)
  }

  function ReadSpec(file: string, offset: int, column: int, limit: int): Reply {
    if offset < 0 then Failed(NegativeOffset)
    else if column < 0 then Failed(NegativeColumn)
    else if LimitOr(limit) < 1 || LimitOr(limit) > MAX_READ_LINES then Failed(BadLimit)
    else if |file| > MAX_READABLE_FILE_BYTES then Failed(FileTooLarge)
    else
      var lines := ScanLines(file);
      if offset < |lines| && column > |lines[offset]| then Failed(ColumnPastEnd)
      else
        var got := PageAt(lines, offset, column, LimitOr(limit));
        if got.pieces == [] then NoLines else Page(Rendered(got.pieces), got.next)
  }

  method Read(file: string, offset: int, column: int, limit: int) returns (r: Reply)
    ensures r == ReadSpec(file, offset, column, limit)
  {
    hide ScanLines, PageAt, Rendered;
    if offset < 0 {
      return Failed(NegativeOffset);
    }
    if column < 0 {
      return Failed(NegativeColumn);
    }
    var most := if limit == 0 then MAX_READ_LINES else limit;
    if most < 1 || most > MAX_READ_LINES {
      return Failed(BadLimit);
    }
    if |file| > MAX_READABLE_FILE_BYTES {
      return Failed(FileTooLarge);
    }
    var scanned := ScanLines(file);
    var tooFar, lines, next := ReadLines(scanned, offset, column, most);
    if tooFar {
      return Failed(ColumnPastEnd);
    }
    if |lines| == 0 {
      return NoLines;
    }
    r := Page(lines, next);
  }

  function After(pieces: seq<Piece>, rest: Got): Got {
    Got(pieces + rest.pieces, rest.next)
  }

  /** The line a page from `offset` is at after scanning `lineNum` lines, and the column it starts it from. */
  function Position(scanned: seq<string>, offset: nat, column: nat, lineNum: nat): (r: (nat, nat))
    requires offset < |scanned| && column <= |scanned[offset]| && lineNum <= |scanned|
    ensures r.0 <= |scanned| && (r.0 < |scanned| ==> r.1 <= |scanned[r.0]|)
    ensures r.0 == if lineNum > offset then lineNum else offset
  {
    if lineNum > offset then (lineNum, 0) else (offset, StartColumn(scanned[offset], column))
  }

  lemma TakeNothing(lines: seq<string>, i: nat, column: nat, left: nat, used: nat)
    requires i <= |lines| && (i < |lines| ==> column <= |lines[i]|)
    ensures i == |lines| ==> Take(lines, i, column, left, used) == Got([], Complete)
    ensures i < |lines| && left == 0 ==> Take(lines, i, column, left, used) == Got([], AtLine(i))
  {
  }

  lemma TakeOne(lines: seq<string>, i: nat, column: nat, left: nat, used: nat)
    requires i < |lines| && column <= |lines[i]| && left > 0
    ensures var text, got := lines[i][column..], Take(lines, i, column, left, used);
            var whole := Piece(i + 1, text, column > 0, false);
            var size := |LinePrefix(i + 1, column > 0)| + |text| + 1;
            && Render(whole) == LinePrefix(i + 1, column > 0) + text
            && if used + size > MAX_READ_BYTES then
                 var part := SafePrefix(text, Room(used, i + 1, column > 0));
                 && Render(whole.(text := part, cut := true)) == LinePrefix(i + 1, column > 0) + part + Ellipsis()
                 && got == if part == [] then Got([], AtLine(i))
                   else Got([whole.(text := part, cut := true)], AtColumn(i, column + |part|))
               else got == After([whole], Take(lines, i + 1, 0, left - 1, used + size))
  {
    hide SafePrefix, Room, LinePrefix;
    var whole := Piece(i + 1, lines[i][column..], column > 0, false);
    assert Render(whole) == LinePrefix(i + 1, column > 0) + whole.text;
  }

  lemma AfterAppend(pieces: seq<Piece>, more: seq<Piece>, rest: Got)
    ensures After(pieces, After(more, rest)) == After(pieces + more, rest)
  {
  }

  lemma RenderedAppend(pieces: seq<Piece>, p: Piece)
    ensures Rendered(pieces + [p]) == Rendered(pieces) + [Render(p)]
  {
    hide Render;
  }

  /**
   The scan: skips lines before the offset, takes lines, and stops at a limit, splitting the line that does not fit.
   */
  method ReadLines(scanned: seq<string>, offset: nat, column: nat, limit: nat)
      returns (tooFar: bool, lines: seq<string>, next: Next)
    requires 1 <= limit
    ensures tooFar <==> offset < |scanned| && column > |scanned[offset]|
    ensures !tooFar ==> var got := PageAt(scanned, offset, column, limit);
                        lines == Rendered(got.pieces) && next == got.next
  {
    hide Take, Render, LinePrefix, Ceil, SafePrefix, Room, Rendered;
    tooFar, lines, next := false, [], Complete;
    var lineNum, contentBytes, hasMore, splitColumn := 0, 0, false, -1;
    ghost var good := offset < |scanned| && column <= |scanned[offset]|;
    ghost var goal := if good then PageAt(scanned, offset, column, limit) else Got([], Complete);
    ghost var pieces: seq<Piece> := [];
    ghost var whole: Piece;
    while lineNum < |scanned|
      invariant 0 <= lineNum <= |scanned| && contentBytes >= 0 && |pieces| <= limit
      invariant if lineNum > offset then good && |pieces| == lineNum - offset else pieces == []
      invariant good ==> var at := Position(scanned, offset, column, lineNum);
                         goal == After(pieces, Take(scanned, at.0, at.1, limit - |pieces|, contentBytes))
      invariant lines == Rendered(pieces) && splitColumn == -1 && !hasMore
      decreases |scanned| - lineNum
    {
      ghost var before := lineNum;
      lineNum := lineNum + 1;
      if lineNum <= offset {
        continue;
      }
      if |lines| >= limit {
        hasMore := true;
        TakeNothing(scanned, before, 0, 0, contentBytes);
        break;
      }
      var text := scanned[lineNum - 1];
      var from := 0;
      if lineNum == offset + 1 && column > 0 {
        if column > |text| {
          return true, [], Complete;
        }
        from := FirstBoundary(text, column);
        text := text[from..];
      }
      ghost var at := Position(scanned, offset, column, before);
      assert at == (before, from);
      var prefix := LinePrefix(lineNum, from > 0);
      var line := prefix + text;
      whole := Piece(lineNum, text, from > 0, false);
      TakeOne(scanned, before, from, limit - |pieces|, contentBytes);
      if contentBytes + |line| + 1 > MAX_READ_BYTES {
        var part := SafeTextPrefix(text, Room(contentBytes, lineNum, from > 0));
        if part != "" {
          RenderedAppend(pieces, whole.(text := part, cut := true));
          pieces := pieces + [whole.(text := part, cut := true)];
          lines := lines + [prefix + part + Ellipsis()];
          splitColumn := from + |part|;
        }
        hasMore := true;
        break;
      }
      RenderedAppend(pieces, whole);
      AfterAppend(pieces, [whole], Take(scanned, lineNum, 0, limit - |pieces| - 1, contentBytes + |line| + 1));
      pieces := pieces + [whole];
      lines := lines + [line];
      contentBytes := contentBytes + |line| + 1;
    }
    assert pieces + [] == pieces;
    if splitColumn >= 0 {
      next := AtColumn(offset + |lines| - 1, splitColumn);
    } else if hasMore {
      next := AtLine(offset + |lines|);
    } else if good {
      TakeNothing(scanned, |scanned|, 0, limit - |pieces|, contentBytes);
    }
  }

  // ---- What a page holds ----

  /** A place lines are read from: between two runes, or the start of a line whatever it begins with. */
  predicate GoodColumn(line: string, column: nat) {
    column == 0 || Boundary(line, column)
  }

  /** A cursor into the lines: the end, or a good place in a line. */
  predicate Cursor(lines: seq<string>, offset: nat, column: nat) {
    offset <= |lines| && if offset < |lines| then column <= |lines[offset]| else column == 0
  }

  predicate GoodCursor(lines: seq<string>, offset: nat, column: nat) {
    Cursor(lines, offset, column) && (offset < |lines| ==> GoodColumn(lines[offset], column))
  }

  /** A good place to go on from: a line's start, or between two runes inside it. */
  predicate GoodNext(lines: seq<string>, next: Next) {
    match next
    case Complete => true
    case AtLine(j) => j < |lines|
    case AtColumn(j, c) => j < |lines| && 0 < c < |lines[j]| && Boundary(lines[j], c)
  }

  /** The rest of the line does not fit beside the bytes used, and in the room left it cannot be cut after `end`. */
  predicate NoRoomFor(line: string, number: nat, column: nat, used: nat, end: nat)
    requires column <= |line|
  {
    && used + |LinePrefix(number, column > 0)| + |line[column..]| + 1 > MAX_READ_BYTES
    && forall k | end < k <= column + Room(used, number, column > 0) && k <= |line| :: !Boundary(line, k)
  }

  /** The line is too long for an empty page and has no place to split it: nothing of it can be shown. */
  predicate Stuck(line: string, number: nat, column: nat)
    requires column <= |line|
  {
    NoRoomFor(line, number, column, 0, column)
  }

  function Content(p: Piece): string {
    p.text + if p.cut then "" else "\n"
  }

  function Contents(pieces: seq<Piece>): string {
    if pieces == [] then [] else Content(pieces[0]) + Contents(pieces[1..])
  }

  function Size(pieces: seq<Piece>): nat {
    if pieces == [] then 0 else |Render(pieces[0])| + 1 + Size(pieces[1..])
  }

  function StreamAt(lines: seq<string>, next: Next): string
    requires GoodNext(lines, next)
  {
    match next
    case Complete => []
    case AtLine(j) => Stream(lines, j, 0)
    case AtColumn(j, c) => Stream(lines, j, c)
  }

  /** A split leaves a nonempty rest, at a boundary; there is none when no rune starts in the room. */
  lemma SplitIsGood(line: string, column: nat, room: nat)
    requires column <= |line| && room + 4 <= |line| - column
    ensures var part := SafePrefix(line[column..], room);
            && |part| <= room && column + |part| < |line| && line[column..] == part + line[column + |part|..]
            && part == line[column..column + |part|]
            && (part != [] ==> Boundary(line, column + |part|))
            && forall k | column + |part| < k <= column + room :: !Boundary(line, k)
  {
    var text := line[column..];
    var f := Floor(text, room);
    assert text[f] == line[column + f];
    forall k | column + f < k <= column + room ensures !Boundary(line, k) {
      assert !Boundary(text, k - column) && text[k - column] == line[k];
    }
  }

  /** Where a page stops, that nothing is lost or repeated there, and that it keeps its bounds. */
  ghost predicate Exact(lines: seq<string>, i: nat, column: nat, left: nat, used: nat, got: Got)
    requires Cursor(lines, i, column)
  {
    && GoodNext(lines, got.next) && i + |got.pieces| <= |lines|
    && (got.next.Complete? ==> i + |got.pieces| == |lines|)
    && (got.next.AtLine? ==> got.next.offset == i + |got.pieces|)
    && (got.next.AtColumn? ==> got.pieces != [] && got.next.atOffset == i + |got.pieces| - 1
                               && (|got.pieces| == 1 ==> got.next.column > column))
    && Contents(got.pieces) + StreamAt(lines, got.next) == Stream(lines, i, column)
    && |got.pieces| <= left && used + Size(got.pieces) <= MAX_READ_BYTES
  }

  lemma PrefixIsShort(line: nat, resumed: bool)
    requires line <= MAX_READABLE_FILE_BYTES
    ensures |LinePrefix(line, resumed)| <= 11
  {
    assert Decimal.Ten(7) == 10_000_000;
    Decimal.FewDigits(line, MAX_READABLE_FILE_BYTES + 1, 7);
  }

  /** A line that does not fit: split if there is a place for it. */
  lemma SplitIsExact(lines: seq<string>, i: nat, column: nat, left: nat, used: nat)
    requires GoodCursor(lines, i, column) && i < |lines| <= MAX_READABLE_FILE_BYTES
    requires left > 0 && used <= MAX_READ_BYTES && (column > 0 ==> used == 0)
    requires used + |LinePrefix(i + 1, column > 0)| + |lines[i]| - column + 1 > MAX_READ_BYTES
    requires column == 0 || Take(lines, i, column, left, used).pieces != []
    ensures Exact(lines, i, column, left, used, Take(lines, i, column, left, used))
  {
    hide Boundary, LinePrefix, SafePrefix, Take, Stream, Contents, Size;
    TakeOne(lines, i, column, left, used);
    PrefixIsShort(i + 1, column > 0);
    var text := lines[i][column..];
    var room := Room(used, i + 1, column > 0);
    var part := SafePrefix(text, room);
    var got := Take(lines, i, column, left, used);
    if room > 0 {
      SplitIsGood(lines[i], column, room);
    } else {
      NoRoom(text);
    }
    if part != [] {
      OnePiece(got.pieces[0]);
      StreamSplit(lines, i, column, part);
    } else {
      NoPieces();
    }
  }

  /** On an empty page nothing is shown exactly when the line is stuck. */
  lemma SplitUnlessStuck(lines: seq<string>, i: nat, column: nat, left: nat)
    requires i < |lines| <= MAX_READABLE_FILE_BYTES && column <= |lines[i]| && left > 0
    ensures Take(lines, i, column, left, 0).pieces == [] <==> Stuck(lines[i], i + 1, column)
  {
    hide Boundary, LinePrefix, SafePrefix, Take;
    TakeOne(lines, i, column, left, 0);
    PrefixIsShort(i + 1, column > 0);
    if |LinePrefix(i + 1, column > 0)| + |lines[i][column..]| + 1 > MAX_READ_BYTES {
      SplitIsGood(lines[i], column, Room(0, i + 1, column > 0));
    }
  }

  /** Valid text is never stuck: within four bytes of room a rune starts. */
  lemma ValidIsNotStuck(line: string, number: nat, column: nat)
    requires Valid(line) && column <= |line| && GoodColumn(line, column) && number <= MAX_READABLE_FILE_BYTES
    ensures !Stuck(line, number, column)
  {
    hide Valid, LinePrefix;
    PrefixIsShort(number, column > 0);
    if |LinePrefix(number, column > 0)| + |line[column..]| + 1 > MAX_READ_BYTES {
      var room := Room(0, number, column > 0);
      if column > 0 {
        CutIsValid(line, column);
      } else {
        assert line[column..] == line;
      }
      BoundariesAreClose(line[column..], room);
      var f := Floor(line[column..], room);
      assert line[column..][f] == line[column + f] && Boundary(line, column + f);
    }
  }

  lemma OnePiece(p: Piece)
    ensures Contents([p]) == Content(p) && Size([p]) == |Render(p)| + 1
  {
    assert [p][1..] == [];
  }

  lemma NoPieces()
    ensures Contents([]) == [] && Size([]) == 0
  {
  }

  lemma StreamSplit(lines: seq<string>, i: nat, column: nat, part: string)
    requires i < |lines| && column + |part| <= |lines[i]| && lines[i][column..] == part + lines[i][column + |part|..]
    ensures Stream(lines, i, column) == part + Stream(lines, i, column + |part|)
  {
    hide Stream;
    StreamFrom(lines, i, column);
    StreamFrom(lines, i, column + |part|);
  }

  lemma NoRoom(text: string)
    ensures SafePrefix(text, 0) == []
  {
  }

  lemma StreamFrom(lines: seq<string>, i: nat, column: nat)
    requires i < |lines| && column <= |lines[i]|
    ensures Stream(lines, i, column) == lines[i][column..] + "\n" + Stream(lines, i + 1, 0)
  {
  }

  /** The page from a good place, of any text: exact, once it holds something or starts at a line. */
  lemma {:induction false} TakeIsExact(lines: seq<string>, i: nat, column: nat, left: nat, used: nat)
    requires |lines| <= MAX_READABLE_FILE_BYTES && GoodCursor(lines, i, column)
    requires used <= MAX_READ_BYTES && (column > 0 ==> used == 0 && left > 0)
    requires column == 0 || Take(lines, i, column, left, used).pieces != []
    ensures Exact(lines, i, column, left, used, Take(lines, i, column, left, used))
    decreases |lines| - i
  {
    hide Boundary, LinePrefix, SafePrefix, Take, Stream, Exact;
    if i < |lines| && left > 0 {
      TakeOne(lines, i, column, left, used);
      var whole := Piece(i + 1, lines[i][column..], column > 0, false);
      var size := |LinePrefix(i + 1, column > 0)| + |whole.text| + 1;
      if used + size > MAX_READ_BYTES {
        SplitIsExact(lines, i, column, left, used);
      } else {
        TakeIsExact(lines, i + 1, 0, left - 1, used + size);
        WholeIsExact(lines, i, column, left, used, Take(lines, i + 1, 0, left - 1, used + size));
      }
    } else {
      StopIsExact(lines, i, column, left, used);
    }
  }

  lemma StopIsExact(lines: seq<string>, i: nat, column: nat, left: nat, used: nat)
    requires Cursor(lines, i, column) && (i == |lines| || (left == 0 && column == 0)) && used <= MAX_READ_BYTES
    ensures Exact(lines, i, column, left, used, Take(lines, i, column, left, used))
  {
  }

  lemma WholeIsExact(lines: seq<string>, i: nat, column: nat, left: nat, used: nat, rest: Got)
    requires Cursor(lines, i, column) && i < |lines| && left > 0 && Cursor(lines, i + 1, 0)
    requires var size := |LinePrefix(i + 1, column > 0)| + |lines[i][column..]| + 1;
             Exact(lines, i + 1, 0, left - 1, used + size, rest)
    ensures Exact(lines, i, column, left, used, After([Piece(i + 1, lines[i][column..], column > 0, false)], rest))
  {
    hide Boundary, LinePrefix, Stream;
    var whole := Piece(i + 1, lines[i][column..], column > 0, false);
    StreamFrom(lines, i, column);
    assert ([whole] + rest.pieces)[1..] == rest.pieces;
    assert Contents([whole] + rest.pieces) == lines[i][column..] + "\n" + Contents(rest.pieces);
  }

  /** The `k`-th piece is its line's: all of it from where it starts, or up to the column the page stopped at. */
  predicate Labelled(lines: seq<string>, i: nat, column: nat, got: Got, k: nat)
    requires k < |got.pieces|
  {
    var p, from := got.pieces[k], if k == 0 then column else 0;
    && p.line == i + k + 1 <= |lines| && from <= |lines[i + k]|
    && (p.resumed <==> k == 0 && column > 0)
    && (p.cut <==> k == |got.pieces| - 1 && got.next.AtColumn?)
    && if p.cut then from <= got.next.column < |lines[i + k]| && p.text == lines[i + k][from..got.next.column]
       else p.text == lines[i + k][from..]
  }

  /** Pieces are numbered by their lines; only the first may resume a line, only the last may be cut. */
  lemma {:induction false} TakeIsLabelled(lines: seq<string>, i: nat, column: nat, left: nat, used: nat)
    requires Cursor(lines, i, column) && |lines| <= MAX_READABLE_FILE_BYTES
    ensures var got := Take(lines, i, column, left, used);
            forall k | 0 <= k < |got.pieces| :: Labelled(lines, i, column, got, k)
    decreases |lines| - i
  {
    hide LinePrefix, SafePrefix, Render, Take;
    TakeNothing(lines, i, column, left, used);
    if i < |lines| && left > 0 {
      var whole := Piece(i + 1, lines[i][column..], column > 0, false);
      TakeOne(lines, i, column, left, used);
      if used + |Render(whole)| + 1 <= MAX_READ_BYTES {
        TakeIsLabelled(lines, i + 1, 0, left - 1, used + |Render(whole)| + 1);
        CutMeansPieces(lines, i + 1, 0, left - 1, used + |Render(whole)| + 1);
        var rest := Take(lines, i + 1, 0, left - 1, used + |Render(whole)| + 1);
        var got := Take(lines, i, column, left, used);
        assert got == After([whole], rest);
        forall k | 0 <= k < |got.pieces| ensures Labelled(lines, i, column, got, k) {
          if k > 0 {
            assert got.pieces[k] == rest.pieces[k - 1] && Labelled(lines, i + 1, 0, rest, k - 1);
          }
        }
      } else if Room(used, i + 1, column > 0) > 0 {
        PrefixIsShort(i + 1, column > 0);
        SplitIsGood(lines[i], column, Room(used, i + 1, column > 0));
      } else {
        NoRoom(lines[i][column..]);
      }
    }
  }

  /** A page stops before the end only when it has its lines, or no more of the next line fits. */
  ghost predicate Full(lines: seq<string>, column: nat, left: nat, used: nat, got: Got)
    requires GoodNext(lines, got.next)
  {
    match got.next
    case Complete => true
    case AtLine(j) =>
      var from := if got.pieces == [] then column else 0;
      |got.pieces| == left || (from <= |lines[j]| && NoRoomFor(lines[j], j + 1, from, used + Size(got.pieces), from))
    case AtColumn(j, c) =>
      var from, n := if |got.pieces| == 1 then column else 0, |got.pieces|;
      n > 0 && from <= |lines[j]| && Size(got.pieces) >= |Render(got.pieces[n - 1])| + 1
      && NoRoomFor(lines[j], j + 1, from, used + Size(got.pieces) - |Render(got.pieces[n - 1])| - 1, c)
  }

  lemma {:induction false} TakeIsFull(lines: seq<string>, i: nat, column: nat, left: nat, used: nat)
    requires Cursor(lines, i, column) && |lines| <= MAX_READABLE_FILE_BYTES
    requires GoodNext(lines, Take(lines, i, column, left, used).next)
    ensures Full(lines, column, left, used, Take(lines, i, column, left, used))
    decreases |lines| - i
  {
    hide LinePrefix, SafePrefix, Render, Take, Boundary, Size;
    TakeNothing(lines, i, column, left, used);
    if i < |lines| && left > 0 {
      var whole := Piece(i + 1, lines[i][column..], column > 0, false);
      TakeOne(lines, i, column, left, used);
      var got := Take(lines, i, column, left, used);
      if used + |Render(whole)| + 1 <= MAX_READ_BYTES {
        var rest := Take(lines, i + 1, 0, left - 1, used + |Render(whole)| + 1);
        TakeIsFull(lines, i + 1, 0, left - 1, used + |Render(whole)| + 1);
        OneMore(whole, rest.pieces);
      } else {
        SplitIsFull(lines, i, column, left, used);
      }
    }
  }

  lemma OneMore(p: Piece, rest: seq<Piece>)
    ensures Size([p] + rest) == |Render(p)| + 1 + Size(rest)
    ensures rest != [] ==> ([p] + rest)[|rest|] == rest[|rest| - 1]
  {
    hide Render;
    assert ([p] + rest)[1..] == rest;
  }

  lemma SplitIsFull(lines: seq<string>, i: nat, column: nat, left: nat, used: nat)
    requires Cursor(lines, i, column) && i < |lines| <= MAX_READABLE_FILE_BYTES && left > 0
    requires used + |LinePrefix(i + 1, column > 0)| + |lines[i]| - column + 1 > MAX_READ_BYTES
    requires GoodNext(lines, Take(lines, i, column, left, used).next)
    ensures Full(lines, column, left, used, Take(lines, i, column, left, used))
  {
    hide LinePrefix, SafePrefix, Render, Take, Boundary, Size;
    TakeOne(lines, i, column, left, used);
    PrefixIsShort(i + 1, column > 0);
    var got, room := Take(lines, i, column, left, used), Room(used, i + 1, column > 0);
    if room > 0 {
      SplitIsGood(lines[i], column, room);
    } else {
      NoRoom(lines[i][column..]);
    }
    NoPieces();
    if got.pieces != [] {
      OnePiece(got.pieces[0]);
    }
  }

  lemma {:induction false} CutMeansPieces(lines: seq<string>, i: nat, column: nat, left: nat, used: nat)
    requires Cursor(lines, i, column)
    ensures Take(lines, i, column, left, used).next.AtColumn? ==> Take(lines, i, column, left, used).pieces != []
  {
    hide LinePrefix, SafePrefix, Room, Render;
  }

  // ---- Reading a reply ----

  /** The number a shown line begins with. */
  function NumberOf(shown: string): nat {
    Decimal.Read(Before(shown, ':'))
  }

  /** What stands after the number, without the marks of a split line. */
  function TextOf(shown: string, resumed: bool, cut: bool): string {
    var s := Beyond(shown, ':');
    var t := if resumed && Ellipsis() <= s then s[3..] else s;
    if cut && |t| >= 3 && t[|t| - 3..] == Ellipsis() then t[..|t| - 3] else t
  }

  /** The `k`-th line of a page asked for at `column`: its caller knows which line is resumed and which is cut. */
  function ShownText(lines: seq<string>, next: Next, column: nat, k: nat): string
    requires k < |lines|
  {
    TextOf(lines[k], k == 0 && column > 0, k == |lines| - 1 && next.AtColumn?)
  }

  /** The text a page shows, from its `k`-th line on. */
  function ShownFrom(lines: seq<string>, next: Next, column: nat, k: nat): string
    requires k <= |lines|
    decreases |lines| - k
  {
    if k == |lines| then []
    else ShownText(lines, next, column, k) + (if k == |lines| - 1 && next.AtColumn? then "" else "\n")
         + ShownFrom(lines, next, column, k + 1)
  }

  lemma Sides(a: string, b: string, c: string)
    ensures (a + b + c)[|a|..] == b + c && (a + b)[..|a|] == a && (a + b)[|a|..] == b
  {
  }

  /** Number and text are read back from a shown line. */
  lemma RenderReadsBack(p: Piece)
    ensures NumberOf(Render(p)) == p.line && TextOf(Render(p), p.resumed, p.cut) == p.text
  {
    hide Before, Beyond, Decimal.Read, Ellipsis, Decimal.Digits;
    var front, back := if p.resumed then Ellipsis() else "", if p.cut then Ellipsis() else "";
    var digits, rest := Decimal.Digits(p.line), front + p.text + back;
    assert Render(p) == digits + [':'] + rest;
    Decimal.DigitsOnly(p.line);
    SplitsAt(digits, ':', rest);
    Decimal.RoundTrip(p.line);
    Sides(front, p.text, back);
    Sides(p.text, back, []);
    EllipsisIsThree();
  }

  lemma EllipsisIsThree()
    ensures |Ellipsis()| == 3
  {
  }

  lemma {:induction false} PageReadsBack(lines: seq<string>, i: nat, column: nat, got: Got, k: nat)
    requires k <= |got.pieces| && forall j | 0 <= j < |got.pieces| :: Labelled(lines, i, column, got, j)
    ensures ShownFrom(Rendered(got.pieces), got.next, column, k) == Contents(got.pieces[k..])
    ensures forall j | k <= j < |got.pieces| ::
              && NumberOf(Rendered(got.pieces)[j]) == i + j + 1
              && ShownText(Rendered(got.pieces), got.next, column, j) == got.pieces[j].text
    decreases |got.pieces| - k
  {
    hide NumberOf, TextOf, Render;
    if k < |got.pieces| {
      assert Labelled(lines, i, column, got, k);
      RenderReadsBack(got.pieces[k]);
      PageReadsBack(lines, i, column, got, k + 1);
      assert got.pieces[k..][1..] == got.pieces[k + 1..];
    }
  }

  lemma {:induction false} SizeIsShown(pieces: seq<Piece>)
    ensures ShownSize(Rendered(pieces)) == Size(pieces)
  {
    hide Render;
    if pieces != [] {
      SizeIsShown(pieces[1..]);
      assert Rendered(pieces)[1..] == Rendered(pieces[1..]);
    }
  }

  /** The bytes of the lines of a page, each with its line feed. */
  function ShownSize(lines: seq<string>): nat {
    if lines == [] then 0 else |lines[0]| + 1 + ShownSize(lines[1..])
  }

  /** Why a request is refused. */
  lemma RefusedIff(file: string, offset: int, column: int, limit: int)
    ensures ReadSpec(file, offset, column, limit).Failed? <==>
              || offset < 0 || column < 0 || limit < 0 || limit > 200 || |file| > 1024 * 1024
              || (offset < |ScanLines(file)| && column > |ScanLines(file)[offset]|)
  {
    hide ScanFrom, PageAt, Rendered;
  }

  /** Where the text of a page begins in its first line. */
  function From(lines: seq<string>, offset: nat, column: nat): (c: nat)
    requires offset < |lines| && column <= |lines[offset]|
    ensures column <= c <= |lines[offset]| && GoodColumn(lines[offset], c) && (c > 0 <==> column > 0)
    ensures GoodColumn(lines[offset], column) ==> c == column
  {
    StartColumn(lines[offset], column)
  }

  /** The lines shown are as many as asked for, or more of the next one would not fit with them. */
  ghost predicate StopsForCause(lines: seq<string>, offset: nat, column: nat, limit: int, shown: seq<string>,
      next: Next)
    requires offset < |lines| && column <= |lines[offset]| && shown != [] && GoodNext(lines, next)
  {
    match next
    case Complete => true
    case AtLine(j) =>
      |shown| == (if limit == 0 then 200 else limit) || NoRoomFor(lines[j], j + 1, 0, ShownSize(shown), 0)
    case AtColumn(j, c) =>
      var from, last := if |shown| == 1 then From(lines, offset, column) else 0, |shown[|shown| - 1]|;
      from <= |lines[j]| && ShownSize(shown) > last
      && NoRoomFor(lines[j], j + 1, from, ShownSize(shown) - last - 1, c)
  }

  /** The lines shown are numbered from the offset; all but the last are whole, from where the page starts. */
  predicate ShowsLines(lines: seq<string>, offset: nat, column: nat, shown: seq<string>, next: Next)
    requires offset < |lines| && column <= |lines[offset]| && offset + |shown| <= |lines|
  {
    && (forall k | 0 <= k < |shown| :: NumberOf(shown[k]) == offset + k + 1)
    && forall k | 0 <= k < |shown| - 1 ::
      ShownText(shown, next, column, k) == lines[offset + k][if k == 0 then From(lines, offset, column) else 0..]
  }

  /** Where the page says to go on is right after what it shows; `Complete` means all of the last line was shown. */
  predicate GoesOnRightly(lines: seq<string>, offset: nat, column: nat, shown: seq<string>, next: Next)
    requires offset < |lines| && column <= |lines[offset]| && shown != []
  {
    && GoodNext(lines, next)
    && (next.AtLine? ==> next.offset == offset + |shown|)
    && (next.AtColumn? ==> next.atOffset == offset + |shown| - 1
                           && (|shown| == 1 ==> next.column > From(lines, offset, column)))
    && (next.Complete? <==>
        && offset + |shown| == |lines|
        && ShownText(shown, next, column, |shown| - 1)
           == lines[|lines| - 1][if |shown| == 1 then From(lines, offset, column) else 0..])
    && ShownFrom(shown, next, column, 0) + StreamAt(lines, next) == Stream(lines, offset, From(lines, offset, column))
  }

  /**
   What one reply says, of any text: `NoLines` exactly when no line is at the offset, or the line there is stuck; else
   between one and the requested number of lines, numbered from the offset, whose texts, read back, are their lines
   from where the page starts to where it says to go on; and `Complete` exactly when it ends with all of the last line.
   */
  ghost predicate SaysWhatIsThere(lines: seq<string>, offset: nat, column: nat, limit: int, reply: Reply)
    requires offset < |lines| ==> column <= |lines[offset]|
  {
    match reply
    case Failed(_) => false
    case NoLines => |lines| <= offset || Stuck(lines[offset], offset + 1, From(lines, offset, column))
    case Page(shown, next) =>
      && offset < |lines| && !Stuck(lines[offset], offset + 1, From(lines, offset, column))
      && 1 <= |shown| <= (if limit == 0 then 200 else limit) && offset + |shown| <= |lines|
      && ShownSize(shown) <= 64 * 1024
      && ShowsLines(lines, offset, column, shown, next)
      && GoesOnRightly(lines, offset, column, shown, next)
      && StopsForCause(lines, offset, column, limit, shown, next)
  }

  lemma ReplySaysWhatIsThere(file: string, offset: nat, column: nat, limit: int)
    requires |file| <= 1024 * 1024 && 0 <= limit <= 200
    requires offset < |ScanLines(file)| ==> column <= |ScanLines(file)[offset]|
    ensures SaysWhatIsThere(ScanLines(file), offset, column, limit, ReadSpec(file, offset, column, limit))
  {
    hide ScanFrom, Take, Rendered, Known, Full, ShowsLines, GoesOnRightly, StopsForCause, NoRoomFor, Boundary;
    var lines := ScanLines(file);
    if offset < |lines| {
      var from, most := From(lines, offset, column), LimitOr(limit);
      var got := Take(lines, offset, from, most, 0);
      SplitUnlessStuck(lines, offset, from, most);
      if got.pieces != [] {
        TakeIsExact(lines, offset, from, most, 0);
        TakeIsFull(lines, offset, from, most, 0);
        PageIsKnown(lines, offset, from, most);
        LinesAreShown(lines, offset, column, got);
        LastIsShown(lines, offset, column, most, got);
        StopIsShown(lines, offset, column, limit, got);
        SizeIsShown(got.pieces);
      }
    }
  }

  lemma PageIsKnown(lines: seq<string>, offset: nat, from: nat, most: nat)
    requires offset < |lines| <= MAX_READABLE_FILE_BYTES && from <= |lines[offset]|
    requires Take(lines, offset, from, most, 0).pieces != []
    ensures Known(lines, offset, from, Take(lines, offset, from, most, 0))
  {
    hide Take, Rendered, Labelled, NumberOf, ShownText, ShownFrom, Contents, ShownSize, Size;
    var got := Take(lines, offset, from, most, 0);
    TakeIsLabelled(lines, offset, from, most, 0);
    PageReadsBack(lines, offset, from, got, 0);
    SizeIsShown(got.pieces);
  }

  lemma SameMarks(shown: seq<string>, next: Next, column: nat, from: nat, k: nat)
    requires k <= |shown| && (column > 0 <==> from > 0)
    ensures ShownFrom(shown, next, column, k) == ShownFrom(shown, next, from, k)
    ensures k < |shown| ==> ShownText(shown, next, column, k) == ShownText(shown, next, from, k)
    decreases |shown| - k
  {
    hide TextOf;
    if k < |shown| {
      SameMarks(shown, next, column, from, k + 1);
    }
  }

  /** What is known of a page's pieces and of what is read back from them. */
  ghost predicate Known(lines: seq<string>, offset: nat, from: nat, got: Got)
    requires offset < |lines| && from <= |lines[offset]|
  {
    && got.pieces != []
    && (forall k | 0 <= k < |got.pieces| :: Labelled(lines, offset, from, got, k))
    && ShownFrom(Rendered(got.pieces), got.next, from, 0) == Contents(got.pieces[0..])
    && (forall k | 0 <= k < |got.pieces| ::
          && NumberOf(Rendered(got.pieces)[k]) == offset + k + 1
          && ShownText(Rendered(got.pieces), got.next, from, k) == got.pieces[k].text)
    && ShownSize(Rendered(got.pieces)) == Size(got.pieces)
  }

  lemma LinesAreShown(lines: seq<string>, offset: nat, column: nat, got: Got)
    requires offset < |lines| && column <= |lines[offset]| && Known(lines, offset, From(lines, offset, column), got)
    requires offset + |got.pieces| <= |lines|
    ensures ShowsLines(lines, offset, column, Rendered(got.pieces), got.next)
  {
    hide Rendered, ShownFrom, ShownText, NumberOf, Contents, ShownSize, Size, StartColumn, GoodColumn;
    var shown, from := Rendered(got.pieces), From(lines, offset, column);
    forall k | 0 <= k < |shown| - 1
      ensures ShownText(shown, got.next, column, k) == lines[offset + k][if k == 0 then from else 0..]
    {
      assert Labelled(lines, offset, from, got, k);
      SameMarks(shown, got.next, column, from, k);
    }
  }

  lemma LastIsShown(lines: seq<string>, offset: nat, column: nat, left: nat, got: Got)
    requires offset < |lines| && column <= |lines[offset]| && Known(lines, offset, From(lines, offset, column), got)
    requires Exact(lines, offset, From(lines, offset, column), left, 0, got)
    ensures GoesOnRightly(lines, offset, column, Rendered(got.pieces), got.next)
  {
    hide Rendered, ShownFrom, ShownText, NumberOf, Contents, ShownSize, Size, StartColumn, GoodColumn, Stream, Boundary;
    var shown, from, last := Rendered(got.pieces), From(lines, offset, column), |got.pieces| - 1;
    assert got.pieces[0..] == got.pieces;
    SameMarks(shown, got.next, column, from, 0);
    SameMarks(shown, got.next, column, from, last);
    assert Labelled(lines, offset, from, got, last);
  }

  lemma StopIsShown(lines: seq<string>, offset: nat, column: nat, limit: int, got: Got)
    requires offset < |lines| && column <= |lines[offset]| && Known(lines, offset, From(lines, offset, column), got)
    requires 0 <= limit && GoodNext(lines, got.next) && Full(lines, From(lines, offset, column), LimitOr(limit), 0, got)
    ensures StopsForCause(lines, offset, column, limit, Rendered(got.pieces), got.next)
  {
    hide Rendered, ShownFrom, ShownText, NumberOf, Contents, ShownSize, Size, StartColumn, GoodColumn, Labelled,
        NoRoomFor, Boundary;
    RenderedAt(got.pieces, |got.pieces| - 1);
  }

  lemma RenderedAt(pieces: seq<Piece>, k: nat)
    requires k < |pieces|
    ensures Rendered(pieces)[k] == Render(pieces[k])
  {
    hide Render;
  }

  // ---- The text of a reply ----

  function Continues(): (s: string) ensures '\n' !in s { " continues; next_offset=" }

  function NextColumn(): (s: string) ensures '\n' !in s { " next_column=" }

  /** What the heading of a page says after its line numbers. */
  function Status(next: Next): string {
    match next
    case Complete => "complete"
    case AtLine(j) => "next_offset=" + Decimal.Digits(j)
    case AtColumn(j, c) =>
      "line " + Decimal.Digits(j + 1) + Continues() + Decimal.Digits(j) + NextColumn() + Decimal.Digits(c)
  }

  /** `strings.Join` with line feeds. */
  function JoinLines(lines: seq<string>): string {
    if lines == [] then [] else if |lines| == 1 then lines[0] else lines[0] + "\n" + JoinLines(lines[1..])
  }

  /** The text of a page. */
  function PageText(path: string, offset: nat, shown: seq<string>, next: Next): string {
    "[" + path + " lines " + Decimal.Digits(offset + 1) + "-" + Decimal.Digits(offset + |shown|) + "; " + Status(next)
    + "]\n" + JoinLines(shown)
  }

  function SplitLines(s: string): (lines: seq<string>)
    decreases |s|
  {
    if '\n' !in s then [s] else [Before(s, '\n')] + SplitLines(Beyond(s, '\n'))
  }

  /** What follows the path and the line numbers in the text of a page, to a reader who knows the path. */
  function StatusIn(path: string, text: string): string
    requires |path| < |text|
  {
    Beyond(Beyond(text[|path| + 1..], ';'), ' ')
  }

  /** Where a reader goes on: nowhere, at a line, or at a column of one. */
  function NextIn(path: string, text: string): Next
    requires |path| < |text|
  {
    var s := StatusIn(path, text);
    var after := Beyond(s, '=');
    if s == [] || s[0] == 'c' then Complete
    else if s[0] == 'n' then AtLine(Decimal.Read(Before(after, ']')))
    else AtColumn(Decimal.Read(Before(after, ' ')), Decimal.Read(Before(Beyond(after, '='), ']')))
  }

  function LinesIn(path: string, text: string): seq<string>
    requires |path| < |text|
  {
    SplitLines(Beyond(text[|path| + 1..], '\n'))
  }

  lemma {:induction false} SplitsBack(lines: seq<string>)
    requires lines != [] && forall k | 0 <= k < |lines| :: '\n' !in lines[k]
    ensures SplitLines(JoinLines(lines)) == lines
  {
    hide Before, Beyond;
    if |lines| > 1 {
      assert JoinLines(lines) == lines[0] + ['\n'] + JoinLines(lines[1..]);
      SplitsAt(lines[0], '\n', JoinLines(lines[1..]));
      SplitsBack(lines[1..]);
    }
  }

  /** The place to go on and the lines are read back from the text of a page. */
  lemma PageTextReads(path: string, offset: nat, shown: seq<string>, next: Next)
    requires shown != [] && forall k | 0 <= k < |shown| :: '\n' !in shown[k]
    ensures var text := PageText(path, offset, shown, next);
            |path| < |text| && NextIn(path, text) == next && LinesIn(path, text) == shown
  {
    hide Before, Beyond, JoinLines, SplitLines, Decimal.Digits, Decimal.Read, Status;
    var text := PageText(path, offset, shown, next);
    var numbers := " lines " + Decimal.Digits(offset + 1) + "-" + Decimal.Digits(offset + |shown|);
    var rest := Status(next) + "]\n" + JoinLines(shown);
    assert text[|path| + 1..] == numbers + [';'] + ([] + [' '] + rest);
    assert text[|path| + 1..] == numbers + "; " + Status(next) + "]" + ['\n'] + JoinLines(shown);
    Decimal.DigitsOnly(offset + 1);
    Decimal.DigitsOnly(offset + |shown|);
    SplitsAt(numbers, ';', [] + [' '] + rest);
    SplitsAt([], ' ', rest);
    StatusIsPlain(next);
    SplitsAt(numbers + "; " + Status(next) + "]", '\n', JoinLines(shown));
    SplitsBack(shown);
    StatusReads(next, JoinLines(shown));
  }

  lemma StatusIsPlain(next: Next)
    ensures '\n' !in Status(next)
  {
    hide Decimal.Digits, Continues, NextColumn;
    match next
    case Complete =>
    case AtLine(j) => Decimal.DigitsOnly(j);
    case AtColumn(j, c) =>
      Decimal.DigitsOnly(j);
      Decimal.DigitsOnly(j + 1);
      Decimal.DigitsOnly(c);
      assert Status(next) == "line " + Decimal.Digits(j + 1) + Continues() + Decimal.Digits(j) + NextColumn()
          + Decimal.Digits(c);
  }

  lemma StatusReads(next: Next, body: string)
    ensures var s := Status(next) + "]\n" + body;
            var after := Beyond(s, '=');
            && s != []
            && (next.Complete? <==> s[0] == 'c') && (next.AtLine? <==> s[0] == 'n')
            && (next.AtLine? ==> Decimal.Read(Before(after, ']')) == next.offset)
            && (next.AtColumn? ==>
                  && Decimal.Read(Before(after, ' ')) == next.atOffset
                  && Decimal.Read(Before(Beyond(after, '='), ']')) == next.column)
  {
    hide Before, Beyond, Decimal.Digits, Decimal.Read;
    var s := Status(next) + "]\n" + body;
    match next
    case Complete =>
    case AtLine(j) =>
      Decimal.DigitsOnly(j);
      Decimal.RoundTrip(j);
      assert s == "next_offset" + ['='] + (Decimal.Digits(j) + [']'] + ("\n" + body));
      SplitsAt("next_offset", '=', Decimal.Digits(j) + [']'] + ("\n" + body));
      SplitsAt(Decimal.Digits(j), ']', "\n" + body);
    case AtColumn(j, c) =>
      ColumnReads(j, c, body);
  }

  /** What the status of a split line says after its first `=`. */
  function ColumnTail(j: nat, c: nat, body: string): string {
    Decimal.Digits(j) + [' '] + ("next_column" + ['='] + (Decimal.Digits(c) + [']'] + ("\n" + body)))
  }

  lemma ColumnText(j: nat, c: nat, body: string)
    ensures Status(AtColumn(j, c)) + "]\n" + body
            == ("line " + Decimal.Digits(j + 1) + " continues; next_offset") + ['='] + ColumnTail(j, c, body)
  {
    hide Decimal.Digits, Continues, NextColumn;
    FixedWords();
  }

  lemma FixedWords()
    ensures Continues() == " continues; next_offset" + ['='] && NextColumn() == [' '] + "next_column" + ['=']
  {
  }

  lemma ColumnTailReads(j: nat, c: nat, body: string)
    ensures var after := ColumnTail(j, c, body);
            && Decimal.Read(Before(after, ' ')) == j && Decimal.Read(Before(Beyond(after, '='), ']')) == c
  {
    hide Before, Beyond, Decimal.Digits, Decimal.Read;
    Decimal.DigitsOnly(j);
    Decimal.DigitsOnly(c);
    Decimal.RoundTrip(j);
    Decimal.RoundTrip(c);
    var column := Decimal.Digits(c) + [']'] + ("\n" + body);
    SplitsAt(Decimal.Digits(j), ' ', "next_column" + ['='] + column);
    assert ColumnTail(j, c, body) == (Decimal.Digits(j) + " next_column") + ['='] + column;
    SplitsAt(Decimal.Digits(j) + " next_column", '=', column);
    SplitsAt(Decimal.Digits(c), ']', "\n" + body);
  }

  lemma ColumnReads(j: nat, c: nat, body: string)
    ensures var s := Status(AtColumn(j, c)) + "]\n" + body;
            var after := Beyond(s, '=');
            && s != [] && s[0] == 'l' && Decimal.Read(Before(after, ' ')) == j
            && Decimal.Read(Before(Beyond(after, '='), ']')) == c
  {
    hide Before, Beyond, Decimal.Digits, Decimal.Read, Status, ColumnTail;
    Decimal.DigitsOnly(j + 1);
    ColumnText(j, c, body);
    ColumnTailReads(j, c, body);
    SplitsAt("line " + Decimal.Digits(j + 1) + " continues; next_offset", '=', ColumnTail(j, c, body));
  }

  /** No line of a page holds a line feed, so the text of every page reads back. */
  lemma ReplyTextReads(path: string, file: string, offset: nat, column: nat, limit: int)
    requires ReadSpec(file, offset, column, limit).Page?
    ensures var reply := ReadSpec(file, offset, column, limit);
            var text := PageText(path, offset, reply.lines, reply.next);
            |path| < |text| && NextIn(path, text) == reply.next && LinesIn(path, text) == reply.lines
  {
    hide ScanFrom, Take, PageText, NextIn, LinesIn, Known, Rendered;
    var lines := ScanLines(file);
    var from := StartColumn(lines[offset], column);
    LinesHaveNoFeed(file, 0, 0);
    PageIsKnown(lines, offset, from, LimitOr(limit));
    KnownHasNoFeed(lines, offset, from, Take(lines, offset, from, LimitOr(limit), 0));
    PageTextReads(path, offset, Rendered(Take(lines, offset, from, LimitOr(limit), 0).pieces),
                  Take(lines, offset, from, LimitOr(limit), 0).next);
  }

  lemma KnownHasNoFeed(lines: seq<string>, offset: nat, from: nat, got: Got)
    requires offset < |lines| && from <= |lines[offset]| && Known(lines, offset, from, got)
    requires forall line | line in lines :: '\n' !in line
    ensures got.pieces != [] && forall k | 0 <= k < |got.pieces| :: '\n' !in Rendered(got.pieces)[k]
  {
    hide Rendered, Render, NumberOf, ShownText, ShownFrom, Contents, ShownSize, Size;
    forall k | 0 <= k < |got.pieces| ensures '\n' !in Rendered(got.pieces)[k] {
      assert Labelled(lines, offset, from, got, k);
      assert lines[offset + k] in lines;
      RenderedAt(got.pieces, k);
      RenderHasNoFeed(got.pieces[k]);
    }
  }

  lemma RenderHasNoFeed(p: Piece)
    requires '\n' !in p.text
    ensures '\n' !in Render(p)
  {
    hide Decimal.Digits;
    Decimal.DigitsOnly(p.line);
  }

  // ---- Following the replies ----

  /** Where a reply leads from a good cursor: on, to a later good one, with what it shows before it. */
  predicate Leads(lines: seq<string>, offset: nat, column: nat, reply: Reply)
    requires GoodCursor(lines, offset, column)
  {
    match reply
    case Failed(_) => false
    case NoLines => offset == |lines| || Stuck(lines[offset], offset + 1, column)
    case Page(shown, next) =>
      && offset < |lines| && GoodNext(lines, next)
      && (next.AtLine? ==> next.offset > offset)
      && (next.AtColumn? ==> next.atOffset >= offset && (next.atOffset == offset ==> next.column > column))
      && ShownFrom(shown, next, column, 0) + StreamAt(lines, next) == Stream(lines, offset, column)
  }

  lemma ReplyLeads(file: string, offset: nat, column: nat, limit: int)
    requires |file| <= 1024 * 1024 && GoodCursor(ScanLines(file), offset, column) && 0 <= limit <= 200
    ensures Leads(ScanLines(file), offset, column, ReadSpec(file, offset, column, limit))
  {
    hide ScanFrom, ReadSpec, Stream, ShownFrom, ShownText, ShowsLines, Stuck, Boundary, ShownSize, StopsForCause;
    ReplySaysWhatIsThere(file, offset, column, limit);
  }

  /** The replies from a cursor on, asking for `limits(n)` lines the `n`-th time, each where the one before says. */
  function Replies(file: string, offset: nat, column: nat, limits: nat -> int, n: nat): (replies: seq<Reply>)
    requires |file| <= 1024 * 1024 && GoodCursor(ScanLines(file), offset, column) && forall k :: 0 <= limits(k) <= 200
    ensures replies != []
    decreases |ScanLines(file)| - offset,
              if offset < |ScanLines(file)| then |ScanLines(file)[offset]| - column else 0
  {
    var reply := ReadSpec(file, offset, column, limits(n));
    ReplyLeads(file, offset, column, limits(n));
    match reply
    case Page(_, AtLine(j)) => [reply] + Replies(file, j, 0, limits, n + 1)
    case Page(_, AtColumn(j, c)) => [reply] + Replies(file, j, c, limits, n + 1)
    case _ => [reply]
  }

  /** The text that replies show, the first asked for at `column`. */
  function Gathered(replies: seq<Reply>, column: nat): string {
    if replies == [] then []
    else
      match replies[0]
      case Page(lines, next) =>
        ShownFrom(lines, next, column, 0)
        + Gathered(replies[1..], match next case AtColumn(_, c) => c case _ => 0)
      case _ => Gathered(replies[1..], 0)
  }

  ghost predicate SomeStuck(lines: seq<string>) {
    exists i, c | 0 <= i < |lines| && 0 <= c <= |lines[i]| && GoodColumn(lines[i], c) :: Stuck(lines[i], i + 1, c)
  }

  /**
   Every reply but the last says where to go on, and the last says the file is complete or shows nothing. What the
   replies show, read back, is the rest of the text, nothing lost and nothing twice, exactly when they do not stop at
   a line that is stuck.
   */
  ghost predicate ReadTheRest(lines: seq<string>, offset: nat, column: nat, replies: seq<Reply>)
    requires Cursor(lines, offset, column) && replies != []
  {
    var last, text := replies[|replies| - 1], Gathered(replies, column);
    && (forall k | 0 <= k < |replies| - 1 :: replies[k].Page? && !replies[k].next.Complete?)
    && (last.NoLines? || (last.Page? && last.next.Complete?))
    && text <= Stream(lines, offset, column)
    && (text == Stream(lines, offset, column) <==> last.Page? || offset == |lines|)
    && (last.NoLines? && offset < |lines| ==> SomeStuck(lines))
  }

  /** From any good cursor, with any accepted limits. */
  lemma {:induction false} FollowingIsExact(file: string, offset: nat, column: nat, limits: nat -> int, n: nat)
    requires |file| <= 1024 * 1024 && GoodCursor(ScanLines(file), offset, column) && forall k :: 0 <= limits(k) <= 200
    ensures ReadTheRest(ScanLines(file), offset, column, Replies(file, offset, column, limits, n))
    decreases |ScanLines(file)| - offset,
              if offset < |ScanLines(file)| then |ScanLines(file)[offset]| - column else 0
  {
    hide ScanFrom, ReadSpec, Stream, ShownFrom, Stuck, Boundary, ReadTheRest;
    var lines := ScanLines(file);
    var reply := ReadSpec(file, offset, column, limits(n));
    ReplyLeads(file, offset, column, limits(n));
    match reply
    case Page(shown, AtLine(j)) =>
      FollowingIsExact(file, j, 0, limits, n + 1);
      GoesOn(lines, offset, column, reply, j, 0, Replies(file, j, 0, limits, n + 1));
    case Page(shown, AtColumn(j, c)) =>
      FollowingIsExact(file, j, c, limits, n + 1);
      GoesOn(lines, offset, column, reply, j, c, Replies(file, j, c, limits, n + 1));
    case _ => StopsHere(lines, offset, column, reply);
  }

  lemma StopsHere(lines: seq<string>, offset: nat, column: nat, reply: Reply)
    requires GoodCursor(lines, offset, column) && Leads(lines, offset, column, reply)
    requires reply.NoLines? || (reply.Page? && reply.next.Complete?)
    ensures ReadTheRest(lines, offset, column, [reply])
  {
    hide ShownFrom, Stream, Stuck, Boundary;
    StreamEnds(lines, offset, column);
    assert [reply][1..] == [];
    assert Gathered([reply][1..], 0) == [];
    if reply.Page? {
      assert Gathered([reply], column) == Stream(lines, offset, column);
    } else if offset < |lines| {
      assert Stuck(lines[offset], offset + 1, column);
    }
  }

  lemma GoesOn(lines: seq<string>, offset: nat, column: nat, reply: Reply, j: nat, c: nat, rest: seq<Reply>)
    requires GoodCursor(lines, offset, column) && Leads(lines, offset, column, reply)
    requires reply.Page? && (reply.next == AtColumn(j, c) || (reply.next == AtLine(j) && c == 0))
    requires rest != [] && ReadTheRest(lines, j, c, rest)
    ensures ReadTheRest(lines, offset, column, [reply] + rest)
  {
    hide ShownFrom, Stream, Stuck, Boundary, Gathered, SomeStuck;
    var replies := [reply] + rest;
    assert forall k | 1 <= k < |replies| :: replies[k] == rest[k - 1];
    GatheredCons(reply, rest, column, c);
    var shown := ShownFrom(reply.lines, reply.next, column, 0);
    assert Gathered(rest, c) <= Stream(lines, j, c);
    assert shown + Gathered(rest, c) <= shown + Stream(lines, j, c);
  }

  lemma GatheredCons(reply: Reply, rest: seq<Reply>, column: nat, c: nat)
    requires reply.Page?
    requires match reply.next case Complete => false case AtLine(_) => c == 0 case AtColumn(_, d) => c == d
    ensures Gathered([reply] + rest, column) == ShownFrom(reply.lines, reply.next, column, 0) + Gathered(rest, c)
  {
    hide ShownFrom;
    assert ([reply] + rest)[1..] == rest;
  }

  lemma StreamEnds(lines: seq<string>, offset: nat, column: nat)
    requires Cursor(lines, offset, column)
    ensures Stream(lines, offset, column) == [] <==> offset == |lines|
  {
  }

  /**
   Main result: following the replies through a readable file of valid text from its start, with any accepted limits,
   ends with `Complete`, or at once with `NoLines` where there are no lines, and shows every line once; what is read
   back is the file, its last line ended, byte for byte, exactly when no line ends in a carriage return.
   */
  lemma ReadingIsLossless(file: string, limits: nat -> int)
    requires Valid(file) && |file| <= 1024 * 1024 && forall k :: 0 <= limits(k) <= 200
    ensures var lines, replies := ScanLines(file), Replies(file, 0, 0, limits, 0);
            && Gathered(replies, 0) == Stream(lines, 0, 0)
            && (Gathered(replies, 0) == Ended(file, 0) <==> !HasReturn(file, 0))
            && (if lines == [] then replies == [NoLines]
                else replies[|replies| - 1].Page? && replies[|replies| - 1].next.Complete?)
  {
    hide Valid, Boundary, Replies, Gathered, Stream, Ended, HasReturn, ScanFrom, Stuck;
    var lines := ScanLines(file);
    FileStart(file);
    LinesAreValid(file, 0, 0);
    FollowingIsExact(file, 0, 0, limits, 0);
    LinesRestoreText(file);
    forall i, c | 0 <= i < |lines| && 0 <= c <= |lines[i]| && GoodColumn(lines[i], c)
      ensures !Stuck(lines[i], i + 1, c)
    {
      assert lines[i] in lines;
      ValidIsNotStuck(lines[i], i + 1, c);
    }
    if lines == [] {
      NoLinesAtOnce(file, limits);
    }
  }

  lemma NoLinesAtOnce(file: string, limits: nat -> int)
    requires |file| <= 1024 * 1024 && ScanLines(file) == [] && forall k :: 0 <= limits(k) <= 200
    ensures Replies(file, 0, 0, limits, 0) == [NoLines]
  {
    hide ScanFrom;
    ReplySaysWhatIsThere(file, 0, 0, limits(0));
  }

  lemma FileStart(file: string)
    requires Valid(file)
    ensures Boundary(file, 0)
  {
  }

  /** Text that is not valid can be stuck: a file of 64 KiB of continuation bytes is reported as having no lines. */
  lemma ContinuationBytesAreStuck()
    ensures var file := seq(64 * 1024, _ => 0x80 as char);
            ScanLines(file) == [file] && ReadSpec(file, 0, 0, 0) == NoLines
  {
    hide Take, Rendered, LinePrefix, ScanFrom;
    var file := seq(64 * 1024, _ => 0x80 as char);
    OneLine(file, 0);
    var from := From([file], 0, 0);
    assert file[0..] == file;
    PrefixIsShort(1, false);
    assert Stuck(file, 1, 0);
    ReplySaysWhatIsThere(file, 0, 0, 0);
  }

  lemma {:induction false} OneLine(file: string, i: nat)
    requires i <= |file| && file != [] && forall k | 0 <= k < |file| :: file[k] != '\n' && file[k] != '\r'
    ensures ScanFrom(file, 0, i) == [file]
    decreases |file| - i
  {
    if i < |file| {
      OneLine(file, i + 1);
    } else {
      assert file[0..i] == file;
    }
  }
}
