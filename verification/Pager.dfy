/**
 `read_tool_output`: a page of a retained output, from a byte offset, cut between runes. Following the reported
 end offsets reads the whole output exactly once.
 */
module Pager {
  import opened Utf8
  import Decimal
  import opened Marks

  const MAX_READ_BYTES := 8 * 1024

  datatype Failure = RefRequired | NegativeOffset | NegativeLimit | UnknownRef

  datatype Reply =
    | Failed(why: Failure)
    | PastEnd(offset: nat, total: nat)
    | Page(start: nat, end: nat, total: nat, text: string)

  datatype Retained = Missing | Found(output: string)

  function EffectiveLimit(limit: nat): (n: nat)
    ensures 1 <= n <= MAX_READ_BYTES
  {
    if limit == 0 || limit > MAX_READ_BYTES then MAX_READ_BYTES else limit
  }

  /** The last boundary after `start` and at or before `k`, or `start` if there is none. */
  function FloorFrom(s: string, start: nat, k: nat): (f: nat)
    requires start <= k <= |s|
    ensures start <= f <= k
    decreases k
  {
    if k == start || Boundary(s, k) then k else FloorFrom(s, start, k - 1)
  }

  function PageEnd(s: string, start: nat, limit: nat): (end: nat)
    requires start <= |s|
    ensures start <= end <= |s|
  {
    var wanted := if start + limit < |s| then start + limit else |s|;
    var end := FloorFrom(s, start, wanted);
    if end == start then start + DecodedSize(s[start..]) else end
  }

  function PageAt(s: string, offset: nat, limit: nat): (p: Reply)
    requires offset < |s|
    ensures p.Page?
  {
    var start := Ceil(s, offset);
    var end := PageEnd(s, start, limit);
    Page(start, end, |s|, s[start..end])
  }

  function ReadSpec(ref: string, found: Retained, offset: int, limit: int): Reply {
    if ref == [] then Failed(RefRequired)
    else if offset < 0 then Failed(NegativeOffset)
    else if limit < 0 then Failed(NegativeLimit)
    else if found.Missing? then Failed(UnknownRef)
    else if offset >= |found.output| then PastEnd(offset, |found.output|)
    else PageAt(found.output, offset, EffectiveLimit(limit))
  }

  /** The tool's run: its checks, its default limit and the two loops that move the page's ends to boundaries. */
  method ReadToolOutput(ref: string, found: Retained, offset: int, limit: int) returns (r: Reply)
    ensures r == ReadSpec(ref, found, offset, limit)
  {
    if ref == "" {
      return Failed(RefRequired);
    }
    if offset < 0 {
      return Failed(NegativeOffset);
    }
    if limit < 0 {
      return Failed(NegativeLimit);
    }
    var most := limit;
    if most == 0 || most > MAX_READ_BYTES {
      most := MAX_READ_BYTES;
    }
    if found.Missing? {
      return Failed(UnknownRef);
    }
    hide Ceil, FloorFrom, DecodedSize;
    var output := found.output;
    if offset >= |output| {
      return PastEnd(offset, |output|);
    }
    var start := FirstBoundary(output, offset);
    var end := LastBoundary(output, start, if start + most < |output| then start + most else |output|);
    if end == start {
      end := start + DecodedSize(output[start..]);
    }
    r := Page(start, end, |output|, output[start..end]);
  }

  method LastBoundary(output: string, start: nat, wanted: nat) returns (end: nat)
    requires start <= wanted <= |output|
    ensures end == FloorFrom(output, start, wanted)
  {
    end := wanted;
    while end > start && end < |output| && !RuneStart(output[end])
      invariant start <= end <= |output|
      invariant FloorFrom(output, start, end) == FloorFrom(output, start, wanted)
    {
      end := end - 1;
    }
  }

  lemma {:induction false} FloorFromIsBoundary(s: string, start: nat, k: nat)
    requires start <= k <= |s| && Boundary(s, start)
    ensures Boundary(s, FloorFrom(s, start, k))
    ensures forall j | FloorFrom(s, start, k) < j <= k :: !Boundary(s, j)
    decreases k
  {
    if k != start && !Boundary(s, k) {
      FloorFromIsBoundary(s, start, k - 1);
    }
  }

  /** The rune at a boundary of valid text is whole, and the next boundary is its end. */
  lemma RuneAtBoundary(s: string, start: nat)
    requires Valid(s) && Boundary(s, start) && start < |s|
    ensures 0 < RuneLen(s[start..]) && Boundary(s, start + RuneLen(s[start..]))
    ensures Valid(s[start..])
    ensures forall j | start < j < start + RuneLen(s[start..]) :: !Boundary(s, j)
  {
    CutIsValid(s, start);
    var t := s[start..];
    NextIsStart(t, RuneLen(t));
    assert forall j | 0 <= j < |t| :: t[j] == s[start + j];
  }

  lemma PageEndIsGood(s: string, start: nat, limit: nat)
    requires Valid(s) && Boundary(s, start) && start < |s| && limit >= 1
    ensures var end := PageEnd(s, start, limit);
            && Boundary(s, end) && start < end
            && (end - start <= limit || end == start + RuneLen(s[start..]))
            && (end < |s| ==> end - start + RuneLen(s[end..]) > limit)
  {
    hide Valid;
    var wanted := if start + limit < |s| then start + limit else |s|;
    FloorFromIsBoundary(s, start, wanted);
    RuneAtBoundary(s, start);
    var end := PageEnd(s, start, limit);
    if end < |s| {
      RuneAtBoundary(s, end);
    }
  }

  /**
   Every page of a valid output begins and ends between runes, begins at the first boundary from the offset on, is
   nonempty if a boundary is left, is valid text, and exceeds the limit only when it is a single rune; and one more
   rune would not have fitted.
   */
  lemma PageIsGood(s: string, offset: nat, limit: nat)
    requires Valid(s) && offset < |s| && limit >= 1
    ensures var p := PageAt(s, offset, limit);
            && Boundary(s, p.start) && Boundary(s, p.end) && p.start == Ceil(s, offset)
            && p.text == s[p.start..p.end] && Valid(p.text)
            && (p.start < |s| ==> p.start < p.end)
            && (p.end - p.start <= limit || (p.start < |s| && p.end == p.start + RuneLen(s[p.start..])))
            && (p.end < |s| ==> p.end - p.start + RuneLen(s[p.end..]) > limit)
            && (Boundary(s, offset) ==> p.start == offset)
  {
    hide Valid, PageEnd, RuneLen;
    var start := Ceil(s, offset);
    if start < |s| {
      PageEndIsGood(s, start, limit);
      SliceIsValid(s, start, PageEnd(s, start, limit));
    } else {
      PageEndAtEnd(s, limit);
    }
  }

  lemma PageEndAtEnd(s: string, limit: nat)
    ensures PageEnd(s, |s|, limit) == |s| && Valid(s[|s|..|s|])
  {
  }

  // ---- The text of a reply ----

  /** The text of a page, or of the note that there is none. */
  function PageText(ref: string, reply: Reply): string {
    match reply
    case Page(start, end, total, text) =>
      "[" + ref + " bytes " + Decimal.Digits(start) + ":" + Decimal.Digits(end) + " of " + Decimal.Digits(total)
          + "]\n" + text
    case PastEnd(offset, total) =>
      "[" + ref + ": offset " + Decimal.Digits(offset) + " is past the " + Decimal.Digits(total) + "-byte output]"
    case Failed(_) => []
  }

  /** A reference of one word, as all references are. */
  predicate OneWord(ref: string) {
    ref != [] && ' ' !in ref && '\n' !in ref
  }

  // What a reader of a page's text takes from it: the numbers of its heading, and all after its first line.

  function Numbers(page: string): string { Beyond(Beyond(page, ' '), ' ') }

  function StartIn(page: string): nat { Decimal.Read(Before(Numbers(page), ':')) }

  function EndIn(page: string): nat { Decimal.Read(Before(Beyond(Numbers(page), ':'), ' ')) }

  function TotalIn(page: string): nat {
    Decimal.Read(Before(Beyond(Beyond(Beyond(Numbers(page), ':'), ' '), ' '), ']'))
  }

  function BodyIn(page: string): string { Beyond(page, '\n') }

  /** All four are read back from the text of a page. */
  lemma PageTextReads(ref: string, start: nat, end: nat, total: nat, text: string)
    requires OneWord(ref)
    ensures var page := PageText(ref, Page(start, end, total, text));
            StartIn(page) == start && EndIn(page) == end && TotalIn(page) == total && BodyIn(page) == text
  {
    hide Before, Beyond, Decimal.Digits, Decimal.Read;
    Decimal.DigitsOnly(start);
    Decimal.DigitsOnly(end);
    Decimal.DigitsOnly(total);
    var page := PageText(ref, Page(start, end, total, text));
    var a := Decimal.Digits(total) + [']'] + ("\n" + text);
    var b := Decimal.Digits(end) + [' '] + ("of" + [' '] + a);
    var c := Decimal.Digits(start) + [':'] + b;
    var heading := "[" + ref + " bytes " + Decimal.Digits(start) + ":" + Decimal.Digits(end) + " of "
        + Decimal.Digits(total) + "]";
    assert page == ("[" + ref) + [' '] + ("bytes" + [' '] + c);
    assert page == heading + ['\n'] + text;
    SplitsAt("[" + ref, ' ', "bytes" + [' '] + c);
    SplitsAt("bytes", ' ', c);
    SplitsAt(Decimal.Digits(start), ':', b);
    SplitsAt(Decimal.Digits(end), ' ', "of" + [' '] + a);
    SplitsAt("of", ' ', a);
    SplitsAt(Decimal.Digits(total), ']', "\n" + text);
    SplitsAt(heading, '\n', text);
    Decimal.RoundTrip(start);
    Decimal.RoundTrip(end);
    Decimal.RoundTrip(total);
  }

  /** Which requests are refused, and which find nothing at their offset; any other gets a page. */
  lemma NoPageIff(ref: string, found: Retained, offset: int, limit: int)
    ensures ReadSpec(ref, found, offset, limit).Failed? <==> ref == [] || offset < 0 || limit < 0 || found.Missing?
    ensures ReadSpec(ref, found, offset, limit).PastEnd? <==>
              ref != [] && offset >= 0 && limit >= 0 && found.Found? && offset >= |found.output|
  {
    hide PageAt;
  }

  /**
   What the text of a reply says, from a boundary of a valid output: it starts at the offset it was asked for, and goes
   on to a later boundary, at most as far as asked for, or 8 KiB, unless a single rune is longer than that; and one
   more rune would have been too much.
   */
  lemma ReplyReads(ref: string, s: string, offset: nat, limit: nat)
    requires OneWord(ref) && Valid(s) && Boundary(s, offset) && offset < |s|
    ensures var page := PageText(ref, ReadSpec(ref, Found(s), offset, limit));
            var most := if limit == 0 || limit > 8 * 1024 then 8 * 1024 else limit;
            && StartIn(page) == offset < EndIn(page) <= |s| == TotalIn(page)
            && Boundary(s, EndIn(page)) && BodyIn(page) == s[offset..EndIn(page)] && Valid(BodyIn(page))
            && (EndIn(page) - offset <= most || EndIn(page) == offset + RuneLen(s[offset..]))
            && (EndIn(page) < |s| ==> EndIn(page) - offset + RuneLen(s[EndIn(page)..]) > most)
  {
    hide Valid, PageAt, RuneLen, PageText;
    var p := PageAt(s, offset, EffectiveLimit(limit));
    PageIsGood(s, offset, EffectiveLimit(limit));
    PageHasTotal(s, offset, EffectiveLimit(limit));
    PageTextReads(ref, p.start, p.end, p.total, p.text);
  }

  lemma PageHasTotal(s: string, offset: nat, limit: nat)
    requires offset < |s|
    ensures PageAt(s, offset, limit).total == |s| && PageAt(s, offset, limit).end <= |s|
  {
  }

  // ---- Following the replies ----

  /** The texts a reader gets from `offset` on, asking for `limits(i)` bytes the `i`-th time, each where one ended. */
  function Replies(ref: string, s: string, offset: nat, limits: nat -> nat, i: nat): seq<string>
    requires OneWord(ref) && Valid(s) && Boundary(s, offset)
    decreases |s| - offset
  {
    if offset == |s| then []
    else
      var page := PageText(ref, ReadSpec(ref, Found(s), offset, limits(i)));
      ReplyReads(ref, s, offset, limits(i));
      [page] + Replies(ref, s, EndIn(page), limits, i + 1)
  }

  function Gathered(pages: seq<string>): string {
    if pages == [] then [] else BodyIn(pages[0]) + Gathered(pages[1..])
  }

  /**
   Following the ends the replies report, from any boundary and with any limits, recovers the rest of the output
   exactly; no page is empty, and the last one, and only that, ends where the output does.
   */
  lemma {:induction false} PagingRecovers(ref: string, s: string, offset: nat, limits: nat -> nat, i: nat)
    requires OneWord(ref) && Valid(s) && Boundary(s, offset)
    ensures var pages := Replies(ref, s, offset, limits, i);
            && Gathered(pages) == s[offset..]
            && (pages == [] <==> offset == |s|) && |pages| <= |s| - offset
            && forall k | 0 <= k < |pages| ::
              BodyIn(pages[k]) != [] && TotalIn(pages[k]) == |s| && (EndIn(pages[k]) == |s| <==> k == |pages| - 1)
    decreases |s| - offset
  {
    hide Valid, RuneLen, PageText, ReadSpec, BodyIn, EndIn, TotalIn;
    if offset < |s| {
      var page := PageText(ref, ReadSpec(ref, Found(s), offset, limits(i)));
      ReplyReads(ref, s, offset, limits(i));
      PagingRecovers(ref, s, EndIn(page), limits, i + 1);
      var rest, all := Replies(ref, s, EndIn(page), limits, i + 1), Replies(ref, s, offset, limits, i);
      assert all == [page] + rest && all[1..] == rest;
      assert s[offset..] == s[offset..EndIn(page)] + s[EndIn(page)..];
    }
  }

  /** From the start: the whole output, byte for byte. */
  lemma PagingIsLossless(ref: string, s: string, limits: nat -> nat)
    requires OneWord(ref) && Valid(s)
    ensures Boundary(s, 0) && Gathered(Replies(ref, s, 0, limits, 0)) == s
  {
    if s != [] {
      assert Boundary(s, 0);
    }
    PagingRecovers(ref, s, 0, limits, 0);
  }
}
