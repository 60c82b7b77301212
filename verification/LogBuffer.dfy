/**
 The bounded build-log buffer: the head of the log in one array, the most recent bytes in another, both updated in
 place. Whatever is written, it holds a true prefix and a true suffix of the whole log.
 */
module LogBuffer {
  import Decimal
  import opened Marks

  function Min(a: nat, b: nat): nat {
    if a <= b then a else b
  }

  function HeadOf(log: string, headCap: nat): string {
    log[..Min(headCap, |log|)]
  }

  /** The last `m` bytes. */
  function Suffix(s: string, m: nat): (r: string)
    requires m <= |s|
    ensures |r| == m
  {
    s[|s| - m..]
  }

  function TailSize(total: nat, headCap: nat, tailCap: nat): (m: nat)
    ensures m <= total && m <= tailCap
  {
    Min(tailCap, total - Min(headCap, total))
  }

  /** The last bytes of what does not fit the head. */
  function TailOf(log: string, headCap: nat, tailCap: nat): string {
    Suffix(log, TailSize(|log|, headCap, tailCap))
  }

  function Notice(total: nat): string {
    "\n\n[build log truncated: " + Decimal.Digits(total) + " bytes total]\n\n"
  }

  /** The size is read off the notice, after its colon. */
  lemma NoticeTellsSize(total: nat)
    ensures Decimal.Read(Before(Beyond(Beyond(Notice(total), ':'), ' '), ' ')) == total
  {
    hide Before, Beyond, Decimal.Digits, Decimal.Read;
    var opening, rest := "\n\n[build log truncated", "bytes total]\n\n";
    assert Notice(total) == opening + [':'] + ([] + [' '] + (Decimal.Digits(total) + [' '] + rest));
    Decimal.DigitsOnly(total);
    SplitsAt(opening, ':', [] + [' '] + (Decimal.Digits(total) + [' '] + rest));
    SplitsAt([], ' ', Decimal.Digits(total) + [' '] + rest);
    SplitsAt(Decimal.Digits(total), ' ', rest);
    Decimal.RoundTrip(total);
  }

  /** The last `cap` bytes of what is in the tail and what comes. */
  function Kept(past: string, rest: string, cap: nat): string
    requires |past| <= cap
  {
    if |rest| >= cap then Suffix(rest, cap)
    else if |past| + |rest| > cap then Suffix(past, cap - |rest|) + rest
    else past + rest
  }

  lemma SuffixOfSecond(a: string, b: string, m: nat)
    requires m <= |b|
    ensures Suffix(a + b, m) == Suffix(b, m)
  {
  }

  lemma SuffixOfBoth(a: string, b: string, k: nat)
    requires k <= |a|
    ensures Suffix(a + b, k + |b|) == Suffix(a, k) + b
  {
  }

  lemma SuffixOfSuffix(s: string, n: nat, m: nat)
    requires m <= n <= |s|
    ensures Suffix(Suffix(s, n), m) == Suffix(s, m)
  {
  }

  lemma Whole(s: string)
    ensures Suffix(s, |s|) == s && Suffix(s, 0) == []
  {
  }

  /** The head takes what still fits; the tail goes on with the rest, shortened from the front. */
  lemma TailGrows(log: string, p: string, headCap: nat, tailCap: nat)
    ensures var past, take := TailOf(log, headCap, tailCap), Min(headCap - |HeadOf(log, headCap)|, |p|);
            && |HeadOf(log, headCap)| <= headCap && |past| <= tailCap
            && HeadOf(log + p, headCap) == HeadOf(log, headCap) + p[..take]
            && TailOf(log + p, headCap, tailCap) == Kept(past, p[take..], tailCap)
  {
    var take := Min(headCap - |HeadOf(log, headCap)|, |p|);
    HeadGrows(log, p, headCap);
    assert p[take..] == Suffix(p, |p| - take);
    if |log| <= headCap {
      TailOfFirst(log, p, headCap, tailCap);
    } else {
      TailOfRest(log, p, headCap, tailCap);
    }
  }

  lemma HeadGrows(log: string, p: string, headCap: nat)
    ensures HeadOf(log + p, headCap) == HeadOf(log, headCap) + p[..Min(headCap - |HeadOf(log, headCap)|, |p|)]
  {
  }

  /** All of the log is in the head. */
  lemma TailOfFirst(log: string, p: string, headCap: nat, tailCap: nat)
    requires |log| <= headCap
    ensures TailOf(log, headCap, tailCap) == []
    ensures TailOf(log + p, headCap, tailCap) == Kept([], Suffix(p, |p| - Min(headCap - |log|, |p|)), tailCap)
  {
    hide Suffix;
    var n := |p| - Min(headCap - |log|, |p|);
    var m := Min(tailCap, n);
    Whole(log);
    Whole(Suffix(p, n));
    SuffixOfSecond(log, p, m);
    SuffixOfSuffix(p, n, m);
  }

  /** The head is full. */
  lemma TailOfRest(log: string, p: string, headCap: nat, tailCap: nat)
    requires headCap < |log|
    ensures TailOf(log + p, headCap, tailCap) == Kept(TailOf(log, headCap, tailCap), Suffix(p, |p|), tailCap)
  {
    hide Suffix;
    var n := TailSize(|log|, headCap, tailCap);
    Whole(p);
    if |p| >= tailCap {
      SuffixOfSecond(log, p, tailCap);
    } else {
      var k := if n + |p| > tailCap then tailCap - |p| else n;
      SuffixOfBoth(log, p, k);
      SuffixOfSuffix(log, n, k);
      Whole(Suffix(log, n));
    }
  }

  class Buffer {
    const limit: nat
    const headCap: nat
    const tailCap: nat
    var total: nat
    const head: array<char>
    var headLen: nat
    const tail: array<char>
    var tailLen: nat
    ghost var log: string

    ghost predicate Valid()
      reads this, head, tail
    {
      && headCap == limit / 3 && tailCap == limit - headCap
      && head.Length == headCap && tail.Length == tailCap && head != tail
      && headLen <= headCap && tailLen <= tailCap
      && total == |log|
      && head[..headLen] == HeadOf(log, headCap)
      && tail[..tailLen] == TailOf(log, headCap, tailCap)
    }

    constructor (limit: nat)
      ensures Valid() && this.limit == limit && log == [] && fresh(head) && fresh(tail)
    {
      this.limit, headCap, tailCap := limit, limit / 3, limit - limit / 3;
      head, tail := new char[limit / 3], new char[limit - limit / 3];
      total, headLen, tailLen := 0, 0, 0;
      log := [];
    }

    /** Fills the head, then hands what is left to the tail. */
    method Write(p: string) returns (n: nat)
      requires Valid()
      modifies this, head, tail
      ensures Valid() && log == old(log) + p && n == |p|
    {
      hide HeadOf, TailOf, Kept;
      n := |p|;
      total := total + n;
      TailGrows(log, p, headCap, tailCap);
      log := log + p;
      var rest := p;
      var remaining := headCap - headLen;
      if remaining > 0 {
        var take := Min(remaining, |p|);
        Put(head, headLen, p[..take]);
        headLen := headLen + take;
        rest := p[take..];
      }
      ghost var past := tail[..tailLen];
      if |rest| == 0 || tailCap == 0 {
        KeptAsIs(past, rest, tailCap);
        return;
      }
      KeepLast(rest);
    }

    /** Shifts the tail left in place to make room, unless all of it goes. */
    method KeepLast(rest: string)
      requires tail.Length == tailCap && tailLen <= tailCap
      modifies this`tailLen, tail
      ensures tailLen <= tailCap && tail[..tailLen] == Kept(old(tail[..tailLen]), rest, tailCap)
    {
      hide Suffix;
      if |rest| >= tailCap {
        Put(tail, 0, Suffix(rest, tailCap));
        tailLen := tailCap;
        return;
      }
      var overflow := tailLen + |rest| - tailCap;
      if overflow > 0 {
        ShiftLeft(tail, overflow, tailLen);
        tailLen := tailLen - overflow;
      }
      Put(tail, tailLen, rest);
      tailLen := tailLen + |rest|;
    }

    /** The log itself while it fits; then its head, a notice and its tail. */
    method String() returns (s: string)
      requires Valid()
      ensures |log| <= limit ==> s == log
      ensures |log| > limit ==>
                s == log[..headCap] + Notice(|log|) + log[|log| - tailCap..] && headCap + tailCap == limit
    {
      if total <= limit {
        return head[..headLen] + tail[..tailLen];
      }
      s := head[..headLen] + Notice(total) + tail[..tailLen];
    }
  }

  lemma KeptAsIs(past: string, rest: string, cap: nat)
    requires |past| <= cap && (|rest| == 0 || cap == 0)
    ensures Kept(past, rest, cap) == past
  {
  }

  /** Appends in place. */
  method Put(a: array<char>, at: nat, p: string)
    requires at + |p| <= a.Length
    modifies a
    ensures a[..at] == old(a[..at]) && a[..at + |p|] == old(a[..at]) + p
  {
    forall k | 0 <= k < |p| {
      a[at + k] := p[k];
    }
  }

  /** Drops the first `shift` of `len` elements by moving the others left. */
  method ShiftLeft(a: array<char>, shift: nat, len: nat)
    requires shift <= len <= a.Length
    modifies a
    ensures a[..len - shift] == Suffix(old(a[..len]), len - shift)
  {
    forall k | 0 <= k < len - shift {
      a[k] := a[k + shift];
    }
  }
}
