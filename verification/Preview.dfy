/**
 Bounded previews: `boundedPrefix`, `boundedSuffix`, `boundedToolOutput` and `boundedPromptSection`. A preview
 keeps a head and a tail of the text around a notice, cut only where UTF-8 allows.
 */
module Preview {
  import opened Utf8
  import Decimal
  import opened Marks

  function Prefix(value: string, maxBytes: int): string {
    if maxBytes <= 0 then [] else if |value| <= maxBytes then value else value[..Floor(value, maxBytes)]
  }

  function Suffix(value: string, maxBytes: int): string {
    if maxBytes <= 0 then [] else if |value| <= maxBytes then value else value[Ceil(value, |value| - maxBytes)..]
  }

  /** Steps the end back to the start of a rune. */
  method BoundedPrefix(value: string, maxBytes: int) returns (r: string)
    ensures r == Prefix(value, maxBytes)
  {
    if maxBytes <= 0 {
      return "";
    }
    if |value| <= maxBytes {
      return value;
    }
    var end := maxBytes;
    while end > 0 && !RuneStart(value[end])
      invariant 0 <= end <= maxBytes
      invariant Floor(value, end) == Floor(value, maxBytes)
    {
      end := end - 1;
    }
    r := value[..end];
  }

  /** Steps the start forward to the start of a rune. */
  method BoundedSuffix(value: string, maxBytes: int) returns (r: string)
    ensures r == Suffix(value, maxBytes)
  {
    if maxBytes <= 0 {
      return "";
    }
    if |value| <= maxBytes {
      return value;
    }
    var start := |value| - maxBytes;
    while start < |value| && !RuneStart(value[start])
      invariant |value| - maxBytes <= start <= |value|
      invariant Ceil(value, start) == Ceil(value, |value| - maxBytes)
    {
      start := start + 1;
    }
    r := value[start..];
  }

  /** The preview of a text too long for `maxBytes`, with `head` of the bytes left by the notice before it. */
  function Cut(value: string, notice: string, maxBytes: int, head: int): string {
    if maxBytes - |notice| <= 0 then Prefix(notice, maxBytes)
    else Prefix(value, head) + notice + Suffix(value, maxBytes - |notice| - head)
  }

  /** The text's head up to `a`, the notice, and the text's tail from `b`, nothing of it twice. */
  ghost predicate IsPreview(value: string, notice: string, r: string, a: nat, b: nat) {
    a <= b <= |value| && r == value[..a] + notice + value[b..]
  }

  function HeadEnd(value: string, head: nat): (a: nat)
    requires head <= |value|
    ensures a <= head
  {
    Floor(value, head)
  }

  function TailStart(value: string, tail: nat): (b: nat)
    requires tail <= |value|
    ensures |value| - tail <= b <= |value|
  {
    if tail == 0 then |value| else Ceil(value, |value| - tail)
  }

  /** Every preview fits its budget; where the notice leaves room it is a head, the notice and a disjoint tail. */
  lemma CutIsPreview(value: string, notice: string, maxBytes: nat, head: nat)
    requires |value| > maxBytes && (maxBytes > |notice| ==> head <= maxBytes - |notice|)
    ensures |Cut(value, notice, maxBytes, head)| <= maxBytes
    ensures maxBytes > |notice| ==>
              var a, b := HeadEnd(value, head), TailStart(value, maxBytes - |notice| - head);
              && IsPreview(value, notice, Cut(value, notice, maxBytes, head), a, b)
              && a <= head && |value| - b <= maxBytes - |notice| - head
  {
    if maxBytes > |notice| {
      var tail := maxBytes - |notice| - head;
      var a, b := HeadEnd(value, head), TailStart(value, tail);
      assert Prefix(value, head) == value[..a];
      assert Suffix(value, tail) == value[b..];
    }
  }

  /** In valid text both cuts fall between runes and lose at most three bytes each. */
  lemma CutsAreClose(value: string, head: nat, tail: nat)
    requires Valid(value) && head + tail < |value|
    ensures var a, b := HeadEnd(value, head), TailStart(value, tail);
            && Boundary(value, a) && Boundary(value, b)
            && head - a <= 3 && tail - (|value| - b) <= 3
            && Valid(value[..a]) && Valid(value[b..])
  {
    BoundariesAreClose(value, head);
    BoundariesAreClose(value, |value| - tail);
    CutIsValid(value, HeadEnd(value, head));
    CutIsValid(value, TailStart(value, tail));
  }

  /** `%q` of a reference, which is plain ASCII with nothing to escape. */
  function Quoted(ref: string): string {
    "\"" + ref + "\""
  }

  // The fixed words of the notices, in pieces short enough to be seen to be plain.

  predicate Ascii(s: string) {
    forall c | c in s :: In(c, 0x00, 0x7F)
  }

  /** ASCII without a double quote. */
  predicate Plain(s: string) {
    forall c | c in s :: In(c, 0x00, 0x7F) && c != '"'
  }

  function Truncated(): (s: string) ensures Plain(s) { "\n\n[Tool output truncated" }

  function BytesTotal(): (s: string) ensures Plain(s) { "bytes total. Full output " }

  function WasNotRetained(): (s: string) ensures Plain(s) { "was not retained because " }

  function OverBudget(): (s: string) ensures Plain(s) { "the run output-store budget " }

  function WasExhausted(): (s: string) ensures Plain(s) { "was exhausted.]\n\n" }

  function Is(): (s: string) ensures Plain(s) { "is " }

  function UseReader(): (s: string) ensures Plain(s) { "; use read_tool_output with " }

  function ThatRef(): (s: string) ensures Plain(s) { "that ref and a byte offset " }

  function ToInspect(): (s: string) ensures Plain(s) { "to inspect more.]\n\n" }

  function Opening(): (s: string) ensures Plain(s) { "\n\n[... " }

  function TruncatedFrom(): (s: string) ensures Plain(s) { " truncated from " }

  function BytesTo(): (s: string) ensures Plain(s) { " bytes to reduce " }

  function ModelInput(): (s: string) ensures Plain(s) { "model input ...]\n\n" }

  function ToolNotice(size: nat, ref: string): string {
    Truncated() + ": " + Decimal.Digits(size) + " " + BytesTotal()
    + if ref == [] then WasNotRetained() + OverBudget() + WasExhausted()
      else Is() + Quoted(ref) + UseReader() + ThatRef() + ToInspect()
  }

  function BoundedToolOutput(output: string, ref: string, maxBytes: int): string {
    if |output| <= maxBytes then output
    else
      var notice := ToolNotice(|output|, ref);
      Cut(output, notice, maxBytes, (maxBytes - |notice|) / 2)
  }

  // ---- Reading a notice ----

  /** What stands between the first two double quotes of a text; nothing, if there are none. */
  function QuotedIn(s: string): string {
    Before(Beyond(s, '"'), '"')
  }

  /** The quoted reference is read back. */
  lemma QuotedReads(a: string, ref: string, b: string)
    requires '"' !in a && '"' !in ref
    ensures QuotedIn(a + Quoted(ref) + b) == ref
  {
    hide Before, Beyond;
    assert a + Quoted(ref) + b == a + ['"'] + (ref + ['"'] + b);
    SplitsAt(a, '"', ref + ['"'] + b);
    SplitsAt(ref, '"', b);
  }

  lemma NothingQuoted(s: string)
    requires '"' !in s
    ensures QuotedIn(s) == []
  {
    NotThere(s, '"');
  }

  /** A notice begins with its fixed opening and names the reference it was given, or none. */
  lemma ToolNoticeNames(size: nat, ref: string)
    requires '"' !in ref
    ensures Truncated() <= ToolNotice(size, ref) && QuotedIn(ToolNotice(size, ref)) == ref
  {
    hide Truncated, BytesTotal, WasNotRetained, OverBudget, WasExhausted, Is, UseReader, ThatRef, ToInspect;
    hide Decimal.Digits, QuotedIn, Quoted;
    DigitsArePlain(size);
    var front := Truncated() + ": " + Decimal.Digits(size) + " " + BytesTotal();
    assert front[..|Truncated()|] == Truncated();
    if ref == [] {
      NothingQuoted(ToolNotice(size, ref));
    } else {
      var back := UseReader() + ThatRef() + ToInspect();
      assert ToolNotice(size, ref) == (front + Is()) + Quoted(ref) + back;
      QuotedReads(front + Is(), ref, back);
    }
  }

  /** The size of the output is read off the notice, after its first colon. */
  lemma ToolNoticeTellsSize(size: nat, ref: string)
    ensures Decimal.Read(Before(Beyond(Beyond(ToolNotice(size, ref), ':'), ' '), ' ')) == size
  {
    hide BytesTotal, WasNotRetained, OverBudget, WasExhausted, Is, UseReader, ThatRef, ToInspect;
    hide Decimal.Digits, Decimal.Read, Quoted, Before, Beyond;
    var end := if ref == [] then WasNotRetained() + OverBudget() + WasExhausted()
      else Is() + Quoted(ref) + UseReader() + ThatRef() + ToInspect();
    var rest := Decimal.Digits(size) + [' '] + (BytesTotal() + end);
    assert ToolNotice(size, ref) == Truncated() + [':'] + ([] + [' '] + rest);
    Decimal.DigitsOnly(size);
    SplitsAt(Truncated(), ':', [] + [' '] + rest);
    SplitsAt([], ' ', rest);
    SplitsAt(Decimal.Digits(size), ' ', BytesTotal() + end);
    Decimal.RoundTrip(size);
  }

  function PromptNotice(what: string, size: nat): string {
    Opening() + what + TruncatedFrom() + Decimal.Digits(size) + BytesTo() + ModelInput()
  }

  function BoundedPromptSection(value: string, maxBytes: int, what: string): string {
    if |value| <= maxBytes then value
    else
      var notice := PromptNotice(what, |value|);
      Cut(value, notice, maxBytes, (maxBytes - |notice|) / 3)
  }

  method BoundToolOutput(output: string, ref: string, maxBytes: int) returns (r: string)
    ensures r == BoundedToolOutput(output, ref, maxBytes)
  {
    hide ToolNotice, Prefix, Suffix;
    if |output| <= maxBytes {
      return output;
    }
    var notice := ToolNotice(|output|, ref);
    var previewBytes := maxBytes - |notice|;
    if previewBytes <= 0 {
      r := BoundedPrefix(notice, maxBytes);
      return;
    }
    var headBytes := previewBytes / 2;
    var head := BoundedPrefix(output, headBytes);
    var tail := BoundedSuffix(output, previewBytes - headBytes);
    r := head + notice + tail;
  }

  /** A preview whose head has at most `head` bytes and whose tail at most `tail`, within three bytes for valid text. */
  ghost predicate IsShared(value: string, notice: string, r: string, head: nat, tail: nat) {
    exists a: nat, b: nat ::
      && IsPreview(value, notice, r, a, b) && a <= head && |value| - b <= tail
      && (Valid(value) ==> head - a <= 3 && tail - (|value| - b) <= 3)
  }

  /** Text within the budget stays whole; more is a preview within the budget, shared half and half. */
  lemma ToolOutputIsBounded(output: string, ref: string, maxBytes: nat)
    ensures |BoundedToolOutput(output, ref, maxBytes)| <= maxBytes
    ensures |output| <= maxBytes ==> BoundedToolOutput(output, ref, maxBytes) == output
    ensures |output| > maxBytes && maxBytes > |ToolNotice(|output|, ref)| ==>
              var room := maxBytes - |ToolNotice(|output|, ref)|;
              IsShared(output, ToolNotice(|output|, ref), BoundedToolOutput(output, ref, maxBytes), room / 2,
                  room - room / 2)
  {
    hide ToolNotice, Cut;
    if |output| > maxBytes {
      var notice := ToolNotice(|output|, ref);
      BoundedCut(output, notice, maxBytes, (maxBytes - |notice|) / 2);
    }
  }

  /** Prompt sections give a third to the head and the rest to the tail, where errors are. */
  lemma PromptSectionIsBounded(value: string, maxBytes: nat, what: string)
    ensures |BoundedPromptSection(value, maxBytes, what)| <= maxBytes
    ensures |value| <= maxBytes ==> BoundedPromptSection(value, maxBytes, what) == value
    ensures |value| > maxBytes && maxBytes > |PromptNotice(what, |value|)| ==>
              var room := maxBytes - |PromptNotice(what, |value|)|;
              IsShared(value, PromptNotice(what, |value|), BoundedPromptSection(value, maxBytes, what), room / 3,
                  room - room / 3)
  {
    hide PromptNotice, Cut;
    if |value| > maxBytes {
      var notice := PromptNotice(what, |value|);
      BoundedCut(value, notice, maxBytes, (maxBytes - |notice|) / 3);
    }
  }

  lemma BoundedCut(value: string, notice: string, maxBytes: nat, head: int)
    requires |value| > maxBytes && (maxBytes > |notice| ==> 0 <= head <= maxBytes - |notice|)
    ensures |Cut(value, notice, maxBytes, head)| <= maxBytes
    ensures maxBytes > |notice| ==>
              IsShared(value, notice, Cut(value, notice, maxBytes, head), head, maxBytes - |notice| - head)
  {
    hide Valid, HeadEnd, TailStart, IsPreview;
    if maxBytes > |notice| {
      CutIsPreview(value, notice, maxBytes, head);
      var tail := maxBytes - |notice| - head;
      var a, b := HeadEnd(value, head), TailStart(value, tail);
      if Valid(value) {
        CutsAreClose(value, head, tail);
      }
      assert IsPreview(value, notice, Cut(value, notice, maxBytes, head), a, b);
    }
  }

  lemma {:induction false} AsciiIsValid(s: string)
    requires Ascii(s)
    ensures Valid(s)
  {
    if s != [] {
      assert s[0] in s;
      AsciiIsValid(s[1..]);
    }
  }

  lemma DigitsArePlain(n: nat)
    ensures Plain(Decimal.Digits(n))
  {
    hide Decimal.Digits;
    Decimal.DigitsOnly(n);
  }

  lemma NoticesAreAscii(size: nat, ref: string, what: string)
    requires Ascii(ref) && Ascii(what)
    ensures Ascii(ToolNotice(size, ref)) && Ascii(PromptNotice(what, size))
  {
    hide Truncated, BytesTotal, WasNotRetained, OverBudget, WasExhausted, Is, UseReader, ThatRef, ToInspect;
    hide Opening, TruncatedFrom, BytesTo, ModelInput, Decimal.Digits;
    DigitsArePlain(size);
  }

  /** A preview of valid text is valid, since both notices are plain ASCII around their arguments. */
  lemma PreviewsStayValid(value: string, ref: string, what: string, maxBytes: nat)
    requires Valid(value) && Ascii(ref) && Ascii(what)
    ensures Valid(BoundedToolOutput(value, ref, maxBytes)) && Valid(BoundedPromptSection(value, maxBytes, what))
  {
    hide ToolNotice, PromptNotice, Cut, Valid, Ascii;
    var tool, prompt := ToolNotice(|value|, ref), PromptNotice(what, |value|);
    NoticesAreAscii(|value|, ref, what);
    AsciiIsValid(tool);
    AsciiIsValid(prompt);
    if |value| > maxBytes {
      CutIsValidText(value, tool, maxBytes, (maxBytes - |tool|) / 2);
      CutIsValidText(value, prompt, maxBytes, (maxBytes - |prompt|) / 3);
    }
  }

  lemma PrefixIsValid(value: string, maxBytes: int)
    requires Valid(value)
    ensures Valid(Prefix(value, maxBytes))
  {
    if 0 < maxBytes < |value| {
      BoundariesAreClose(value, maxBytes);
      CutIsValid(value, Floor(value, maxBytes));
    }
  }

  lemma CutIsValidText(value: string, notice: string, maxBytes: nat, head: int)
    requires Valid(value) && Valid(notice) && |value| > maxBytes
    requires maxBytes > |notice| ==> 0 <= head <= maxBytes - |notice|
    ensures Valid(Cut(value, notice, maxBytes, head))
  {
    hide Valid, Cut, Boundary, HeadEnd, TailStart, Floor, Ceil;
    if maxBytes > |notice| {
      var tail := maxBytes - |notice| - head;
      CutIsPreview(value, notice, maxBytes, head);
      CutsAreClose(value, head, tail);
      ThreeAreValid(value[..HeadEnd(value, head)], notice, value[TailStart(value, tail)..]);
    } else {
      NoticeOnly(value, notice, maxBytes, head);
      PrefixIsValid(notice, maxBytes);
    }
  }

  lemma NoticeOnly(value: string, notice: string, maxBytes: nat, head: int)
    requires maxBytes <= |notice|
    ensures Cut(value, notice, maxBytes, head) == Prefix(notice, maxBytes)
  {
  }

  lemma ThreeAreValid(a: string, b: string, c: string)
    requires Valid(a) && Valid(b) && Valid(c)
    ensures Valid(a + b + c)
  {
    hide Valid;
    JoinIsValid(a, b);
    JoinIsValid(a + b, c);
  }
}
