/** Decimal numerals, as `%d` prints them. */
module Decimal {

  function Digits(n: nat): (s: string)
    ensures s != []
  {
    if n < 10 then ['0' + (n as char)] else Digits(n / 10) + ['0' + ((n % 10) as char)]
  }

  function Read(s: string): nat {
    if s == [] then 0
    else Read(s[..|s| - 1]) * 10 + (if '0' <= s[|s| - 1] <= '9' then (s[|s| - 1] - '0') as nat else 0)
  }

  lemma {:induction false} RoundTrip(n: nat)
    ensures Read(Digits(n)) == n
  {
    if n >= 10 {
      RoundTrip(n / 10);
      assert Digits(n)[..|Digits(n)| - 1] == Digits(n / 10);
    } else {
      assert Digits(n)[..0] == [];
    }
  }

  lemma {:induction false} DigitsOnly(n: nat)
    ensures forall c | c in Digits(n) :: '0' <= c <= '9'
  {
    if n >= 10 {
      DigitsOnly(n / 10);
    }
  }

  /** Numbers below ten to the sixth have at most six digits, and so on up. */
  lemma {:induction false} FewDigits(n: nat, limit: nat, digits: nat)
    requires digits >= 1 && n < limit && limit <= Ten(digits)
    ensures |Digits(n)| <= digits
    decreases digits
  {
    if n >= 10 {
      assert n / 10 < Ten(digits - 1);
      FewDigits(n / 10, Ten(digits - 1), digits - 1);
    }
  }

  function Ten(k: nat): nat {
    if k == 0 then 1 else 10 * Ten(k - 1)
  }
}

/** Reading a text up to a mark, and on from there. */
module Marks {

  /** Where the first `c` is; the length, if there is none. */
  function IndexOf(s: string, c: char): (k: nat)
    ensures k <= |s|
  {
    if s == [] || s[0] == c then 0 else 1 + IndexOf(s[1..], c)
  }

  function Before(s: string, c: char): string {
    s[..IndexOf(s, c)]
  }

  function Beyond(s: string, c: char): string {
    if IndexOf(s, c) == |s| then [] else s[IndexOf(s, c) + 1..]
  }

  lemma {:induction false} IndexAfter(a: string, b: string, c: char)
    requires c !in a
    ensures IndexOf(a + b, c) == |a| + IndexOf(b, c)
  {
    if a == [] {
      assert a + b == b;
    } else {
      assert (a + b)[1..] == a[1..] + b;
      IndexAfter(a[1..], b, c);
    }
  }

  lemma SplitsAt(a: string, c: char, b: string)
    requires c !in a
    ensures Before(a + [c] + b, c) == a && Beyond(a + [c] + b, c) == b
  {
    var s := a + [c] + b;
    assert s == a + ([c] + b);
    IndexAfter(a, [c] + b, c);
    assert s[..|a|] == a && s[|a| + 1..] == b;
  }

  lemma NotThere(s: string, c: char)
    requires c !in s
    ensures Before(s, c) == s && Beyond(s, c) == []
  {
    IndexAfter(s, [], c);
    assert s + [] == s;
  }
}

/**
 UTF-8 as section 4 of RFC 3629 defines it, over strings whose characters stand for bytes, and where Go's
 `utf8.RuneStart` says such a string may be cut.
 */
module Utf8 {

  predicate In(c: char, lo: nat, hi: nat) { lo <= c as nat <= hi }

  predicate Tail(c: char) { In(c, 0x80, 0xBF) }

  /** `utf8.RuneStart`: every byte but a continuation byte. */
  predicate RuneStart(c: char) { !Tail(c) }

  /** The second byte a three- or four-byte sequence allows after its first. */
  predicate Second(a: char, b: char) {
    if a as nat == 0xE0 then In(b, 0xA0, 0xBF)
    else if a as nat == 0xED then In(b, 0x80, 0x9F)
    else if a as nat == 0xF0 then In(b, 0x90, 0xBF)
    else if a as nat == 0xF4 then In(b, 0x80, 0x8F)
    else Tail(b)
  }

  /** The length of the well-formed sequence at the front of `s`, or 0. */
  function RuneLen(s: string): (n: nat)
    ensures n <= |s| && n <= 4
    ensures n > 0 ==> RuneStart(s[0])
    ensures forall k | 1 <= k < n :: Tail(s[k])
  {
    if s == [] then 0
    else if In(s[0], 0x00, 0x7F) then 1
    else if In(s[0], 0xC2, 0xDF) && |s| >= 2 && Tail(s[1]) then 2
    else if In(s[0], 0xE0, 0xEF) && |s| >= 3 && Second(s[0], s[1]) && Tail(s[2]) then 3
    else if In(s[0], 0xF0, 0xF4) && |s| >= 4 && Second(s[0], s[1]) && Tail(s[2]) && Tail(s[3]) then 4
    else 0
  }

  predicate Valid(s: string) {
    s == [] || (RuneLen(s) > 0 && Valid(s[RuneLen(s)..]))
  }

  // ---- What valid text encodes ----

  /** Every code point but the surrogates. */
  predicate IsScalar(c: nat) {
    c < 0xD800 || 0xE000 <= c < 0x110000
  }

  /** The bytes of a code point. */
  function Encode(c: nat): (s: string)
    requires IsScalar(c)
    ensures 1 <= |s| <= 4
  {
    if c < 0x80 then [c as char]
    else if c < 0x800 then [(0xC0 + c / 64) as char, (0x80 + c % 64) as char]
    else if c < 0x10000 then
      [(0xE0 + c / 4096) as char, (0x80 + c / 64 % 64) as char, (0x80 + c % 64) as char]
    else
      [(0xF0 + c / 262144) as char, (0x80 + c / 4096 % 64) as char, (0x80 + c / 64 % 64) as char,
       (0x80 + c % 64) as char]
  }

  function EncodeAll(cs: seq<nat>): string
    requires forall k | 0 <= k < |cs| :: IsScalar(cs[k])
  {
    if cs == [] then [] else Encode(cs[0]) + EncodeAll(cs[1..])
  }

  lemma LastSix(q: nat, r: nat)
    requires r < 64
    ensures (q * 64 + r) / 64 == q && (q * 64 + r) % 64 == r
  {
  }

  lemma TwoBytes(a: nat, b: nat)
    requires 2 <= a < 32 && b < 64
    ensures var c := a * 64 + b;
            IsScalar(c) && Encode(c) == [(0xC0 + a) as char, (0x80 + b) as char]
  {
    LastSix(a, b);
  }

  lemma ThreeBytes(a: nat, b: nat, d: nat)
    requires a < 16 && b < 64 && d < 64 && (a == 0 ==> b >= 32) && (a == 13 ==> b < 32)
    ensures var c := (a * 64 + b) * 64 + d;
            IsScalar(c) && Encode(c) == [(0xE0 + a) as char, (0x80 + b) as char, (0x80 + d) as char]
  {
    var c := (a * 64 + b) * 64 + d;
    LastSix(a * 64 + b, d);
    LastSix(a, b);
    assert c / 4096 == c / 64 / 64;
  }

  lemma FourBytes(a: nat, b: nat, d: nat, e: nat)
    requires a < 5 && b < 64 && d < 64 && e < 64 && (a == 0 ==> b >= 16) && (a == 4 ==> b < 16)
    ensures var c := ((a * 64 + b) * 64 + d) * 64 + e;
            IsScalar(c) && Encode(c) == [(0xF0 + a) as char, (0x80 + b) as char, (0x80 + d) as char, (0x80 + e) as char]
  {
    var c := ((a * 64 + b) * 64 + d) * 64 + e;
    LastSix((a * 64 + b) * 64 + d, e);
    LastSix(a * 64 + b, d);
    LastSix(a, b);
    assert c / 4096 == c / 64 / 64 && c / 262144 == c / 64 / 64 / 64;
  }

  /** A well-formed sequence is the encoding of a code point. */
  lemma RuneIsEncoded(s: string) returns (c: nat)
    requires RuneLen(s) > 0
    ensures IsScalar(c) && s[..RuneLen(s)] == Encode(c)
  {
    var n := RuneLen(s);
    if n == 1 {
      c := s[0] as nat;
    } else {
      hide Encode, IsScalar;
      var b := s[1] as nat - 0x80;
      if n == 2 {
        var a := s[0] as nat - 0xC0;
        TwoBytes(a, b);
        c := a * 64 + b;
      } else if n == 3 {
        var a, d := s[0] as nat - 0xE0, s[2] as nat - 0x80;
        ThreeBytes(a, b, d);
        c := (a * 64 + b) * 64 + d;
      } else {
        var a, d, e := s[0] as nat - 0xF0, s[2] as nat - 0x80, s[3] as nat - 0x80;
        FourBytes(a, b, d, e);
        c := ((a * 64 + b) * 64 + d) * 64 + e;
      }
    }
  }

  lemma EncodedIsRune(c: nat, rest: string)
    requires IsScalar(c)
    ensures RuneLen(Encode(c) + rest) == |Encode(c)|
  {
    var s := Encode(c) + rest;
    assert s[0] == Encode(c)[0];
    if c >= 0x80 {
      assert s[1] == Encode(c)[1] && Tail(s[1]);
      if c >= 0x800 {
        assert s[2] == Encode(c)[2] && Tail(s[2]);
        if c < 0x10000 {
          ThreeStart(c);
        } else {
          assert s[3] == Encode(c)[3] && Tail(s[3]);
          FourStart(c);
        }
      }
    }
  }

  lemma ThreeStart(c: nat)
    requires 0x800 <= c < 0x10000 && IsScalar(c)
    ensures In(Encode(c)[0], 0xE0, 0xEF) && Second(Encode(c)[0], Encode(c)[1])
  {
    assert c / 64 == c / 4096 * 64 + c / 64 % 64;
  }

  lemma FourStart(c: nat)
    requires 0x10000 <= c && IsScalar(c)
    ensures In(Encode(c)[0], 0xF0, 0xF4) && Second(Encode(c)[0], Encode(c)[1])
  {
    assert c / 4096 == c / 262144 * 64 + c / 4096 % 64;
  }

  /** Valid text is what encodes some code points, and nothing else. */
  lemma {:induction false} ValidIff(s: string)
    ensures Valid(s) <==>
              exists cs: seq<nat> :: (forall k | 0 <= k < |cs| :: IsScalar(cs[k])) && s == EncodeAll(cs)
  {
    if Valid(s) {
      var cs := Decoded(s);
    }
    if cs: seq<nat> :| (forall k | 0 <= k < |cs| :: IsScalar(cs[k])) && s == EncodeAll(cs) {
      EncodedIsValid(cs);
    }
  }

  lemma {:induction false} Decoded(s: string) returns (cs: seq<nat>)
    requires Valid(s)
    ensures (forall k | 0 <= k < |cs| :: IsScalar(cs[k])) && s == EncodeAll(cs)
    decreases |s|
  {
    hide RuneLen, Encode;
    cs := [];
    if s != [] {
      ValidStep(s);
      var c := RuneIsEncoded(s);
      var rest := Decoded(s[RuneLen(s)..]);
      cs := [c] + rest;
      assert cs[1..] == rest;
    }
  }

  lemma {:induction false} EncodedIsValid(cs: seq<nat>)
    requires forall k | 0 <= k < |cs| :: IsScalar(cs[k])
    ensures Valid(EncodeAll(cs))
  {
    hide RuneLen, Encode;
    if cs != [] {
      EncodedIsValid(cs[1..]);
      EncodedIsRune(cs[0], EncodeAll(cs[1..]));
      var s := EncodeAll(cs);
      assert s[|Encode(cs[0])|..] == EncodeAll(cs[1..]);
      ValidStep(s);
    }
  }

  /** A place where the text may be cut. */
  predicate Boundary(s: string, k: int) {
    0 <= k <= |s| && (k < |s| ==> RuneStart(s[k]))
  }

  lemma RuneLenPrefix(s: string, k: nat)
    requires k <= |s| && RuneLen(s) <= k
    ensures RuneLen(s) > 0 ==> RuneLen(s[..k]) == RuneLen(s)
  {
  }

  lemma ValidStep(s: string)
    requires s != []
    ensures Valid(s) <==> RuneLen(s) > 0 && Valid(s[RuneLen(s)..])
  {
    hide RuneLen;
  }

  lemma NothingIsValid()
    ensures Valid([])
  {
  }

  /** Cutting valid text at a boundary leaves two valid texts. */
  lemma {:induction false} CutIsValid(s: string, k: nat)
    requires Valid(s) && Boundary(s, k)
    ensures Valid(s[..k]) && Valid(s[k..])
    decreases |s|
  {
    hide RuneLen, Valid;
    if k == 0 || s == [] {
      NothingIsValid();
      assert s[..k] == [] && s[k..] == s;
    } else {
      var n := RuneLen(s);
      ValidStep(s);
      assert n <= k;
      var rest := s[n..];
      assert k < |s| ==> rest[k - n] == s[k];
      CutIsValid(rest, k - n);
      RuneLenPrefix(s, k);
      assert s[..k][n..] == rest[..k - n] && rest[k - n..] == s[k..];
      ValidStep(s[..k]);
    }
  }

  lemma SliceIsValid(s: string, a: nat, b: nat)
    requires Valid(s) && a <= b && Boundary(s, a) && Boundary(s, b)
    ensures Valid(s[a..b])
  {
    CutIsValid(s, b);
    assert a < b ==> s[..b][a] == s[a];
    CutIsValid(s[..b], a);
  }

  lemma RuneLenExtend(s: string, t: string)
    requires RuneLen(s) > 0
    ensures RuneLen(s + t) == RuneLen(s)
  {
    assert forall k | 0 <= k < |s| :: (s + t)[k] == s[k];
  }

  lemma {:induction false} JoinIsValid(s: string, t: string)
    requires Valid(s) && Valid(t)
    ensures Valid(s + t)
    decreases |s|
  {
    hide RuneLen, Valid;
    if s == [] {
      assert s + t == t;
    } else {
      var n := RuneLen(s);
      ValidStep(s);
      JoinIsValid(s[n..], t);
      RuneLenExtend(s, t);
      assert (s + t)[n..] == s[n..] + t;
      ValidStep(s + t);
    }
  }

  /** The last boundary at or before `k`, found by stepping back. */
  function Floor(s: string, k: nat): (f: nat)
    requires k <= |s|
    ensures f <= k
    ensures f == 0 || Boundary(s, f)
    ensures forall j | f < j <= k :: !Boundary(s, j)
  {
    if k == 0 || Boundary(s, k) then k else Floor(s, k - 1)
  }

  /** The first boundary at or after `k`, found by stepping forward. */
  function Ceil(s: string, k: nat): (c: nat)
    requires k <= |s|
    ensures k <= c <= |s|
    ensures Boundary(s, c)
    ensures forall j | k <= j < c :: !Boundary(s, j)
    decreases |s| - k
  {
    if Boundary(s, k) then k else Ceil(s, k + 1)
  }

  /** The loop that steps forward to the start of a rune. */
  method FirstBoundary(s: string, k: nat) returns (c: nat)
    requires k <= |s|
    ensures c == Ceil(s, k)
  {
    c := k;
    while c < |s| && !RuneStart(s[c])
      invariant k <= c <= |s|
      invariant Ceil(s, c) == Ceil(s, k)
    {
      c := c + 1;
    }
  }

  /** In valid text every place is at or within three bytes after a boundary, and as close before one. */
  lemma {:induction false} BoundariesAround(s: string, k: nat) returns (a: nat, b: nat)
    requires Valid(s) && k <= |s|
    ensures a <= k <= b && k - a <= 3 && b - k <= 3 && Boundary(s, a) && Boundary(s, b)
    decreases |s|
  {
    a, b := k, k;
    if !Boundary(s, k) {
      var n := RuneLen(s);
      if k < n {
        NextIsStart(s, n);
        a, b := 0, n;
      } else {
        a, b := BoundariesAround(s[n..], k - n);
        a, b := n + a, n + b;
      }
    }
  }

  /** So the cuts are that close. */
  lemma BoundariesAreClose(s: string, k: nat)
    requires Valid(s) && k <= |s|
    ensures Boundary(s, Floor(s, k))
    ensures k - Floor(s, k) <= 3 && Ceil(s, k) - k <= 3
  {
    hide Valid;
    var a, b := BoundariesAround(s, k);
  }

  lemma NextIsStart(s: string, n: nat)
    requires Valid(s) && s != [] && n == RuneLen(s)
    ensures Boundary(s, n)
  {
    if n < |s| {
      assert Valid(s[n..]) && RuneLen(s[n..]) > 0 && s[n..][0] == s[n];
    }
  }

  /** `utf8.DecodeRuneInString`'s size: zero on nothing, one on an invalid byte. */
  function DecodedSize(s: string): (n: nat)
    ensures n <= |s| && (s != [] ==> n >= 1)
  {
    if s == [] then 0 else if RuneLen(s) > 0 then RuneLen(s) else 1
  }
}
