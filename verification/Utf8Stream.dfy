/**
 The UTF-8 sanitizer of app/JuiceUTF8Stream.c and the output pump of
 app/JuiceLaunchHardening.m that feeds it.

 The reference is the grammar of section 4 of RFC 3629: `IsChar` is its
 UTF8-char rule and `IsText` its UTF8-octets rule.
 */
module Utf8Stream {
  import opened Bytes

  const LF: Byte := 0x0A
  const REPLACEMENT: seq<Byte> := [0xEF, 0xBF, 0xBD]
  const FLUSH_LIMIT: nat := 64 * 1024

  // ---------------------------------------------------------------- grammar

  predicate Tail(b: Byte) {
    0x80 <= b <= 0xBF
  }

  /** The productions UTF8-1 to UTF8-4. */
  predicate Is1(a: Byte) {
    a <= 0x7F
  }

  predicate Is2(a: Byte, b: Byte) {
    0xC2 <= a <= 0xDF && Tail(b)
  }

  predicate Is3(a: Byte, b: Byte, c: Byte) {
    && Tail(c)
    && (|| (a == 0xE0 && 0xA0 <= b <= 0xBF)
        || (0xE1 <= a <= 0xEC && Tail(b))
        || (a == 0xED && 0x80 <= b <= 0x9F)
        || (0xEE <= a <= 0xEF && Tail(b)))
  }

  predicate Is4(a: Byte, b: Byte, c: Byte, d: Byte) {
    && Tail(c) && Tail(d)
    && (|| (a == 0xF0 && 0x90 <= b <= 0xBF)
        || (0xF1 <= a <= 0xF3 && Tail(b))
        || (a == 0xF4 && 0x80 <= b <= 0x8F))
  }

  /** UTF8-char. */
  predicate IsChar(s: seq<Byte>) {
    || (|s| == 1 && Is1(s[0]))
    || (|s| == 2 && Is2(s[0], s[1]))
    || (|s| == 3 && Is3(s[0], s[1], s[2]))
    || (|s| == 4 && Is4(s[0], s[1], s[2], s[3]))
  }

  /** UTF8-octets: any number of UTF8-chars. */
  ghost predicate IsText(s: seq<Byte>)
    decreases |s|
  {
    s == [] || exists k :: 1 <= k <= |s| && IsChar(s[..k]) && IsText(s[k..])
  }

  /** More bytes could still turn `s` into one UTF8-char. */
  ghost predicate Incomplete(s: seq<Byte>) {
    exists t: seq<Byte> :: t != [] && IsChar(s + t)
  }

  /** Length of the UTF8-char at the start of `s`, 0 when there is none. */
  function CharLen(s: seq<Byte>): (k: nat)
    ensures k <= 4 && k <= |s|
    ensures k > 0 ==> IsChar(s[..k])
    ensures k == 0 ==> forall j :: 0 <= j <= |s| ==> !IsChar(s[..j])
  {
    if |s| >= 1 && Is1(s[0]) then 1
    else if |s| >= 2 && Is2(s[0], s[1]) then 2
    else if |s| >= 3 && Is3(s[0], s[1], s[2]) then 3
    else if |s| >= 4 && Is4(s[0], s[1], s[2], s[3]) then 4
    else 0
  }

  /** Positive: width of the leading UTF8-char; 0: incomplete; -1: malformed. */
  ghost function Width(s: seq<Byte>): int {
    if CharLen(s) > 0 then CharLen(s) else if Incomplete(s) then 0 else -1
  }

  /** No two UTF8-chars are prefixes of one another, so `CharLen` is the only length. */
  lemma CharLenIsUnique(s: seq<Byte>, k: nat)
    requires k <= |s| && IsChar(s[..k])
    ensures CharLen(s) == k
  {
    var c := CharLen(s);
    assert IsChar(s[..c]);
    assert forall j :: 0 <= j < k ==> s[..k][j] == s[j];
    assert forall j :: 0 <= j < c ==> s[..c][j] == s[j];
  }

  /** What a UTF8-char missing its last bytes looks like. */
  predicate LooksIncomplete(s: seq<Byte>) {
    || s == []
    || (|s| == 1 && 0xC2 <= s[0] <= 0xF4)
    || (|s| in {2, 3} && 0xE0 <= s[0] <= 0xF4 && Tail(s[1])
        && (|s| == 3 ==> s[0] >= 0xF0 && Tail(s[2]))
        && (s[0] == 0xE0 ==> s[1] >= 0xA0) && (s[0] == 0xED ==> s[1] < 0xA0)
        && (s[0] == 0xF0 ==> s[1] >= 0x90) && (s[0] == 0xF4 ==> s[1] < 0x90))
  }

  lemma IncompleteShape(s: seq<Byte>)
    ensures Incomplete(s) <==> LooksIncomplete(s)
  {
    if Incomplete(s) {
      var t: seq<Byte> :| t != [] && IsChar(s + t);
      assert forall j :: 0 <= j < |s| ==> (s + t)[j] == s[j];
    }
    if LooksIncomplete(s) {
      var t: seq<Byte> :=
        if s == [] then [0]
        else if |s| == 1 then
          (if s[0] < 0xE0 then [0x80]
           else if s[0] < 0xF0 then [if s[0] == 0xE0 then 0xA0 else 0x80, 0x80]
           else [if s[0] == 0xF0 then 0x90 else 0x80, 0x80, 0x80])
        else if |s| == 2 && s[0] >= 0xF0 then [0x80, 0x80]
        else [0x80];
      assert IsChar(s + t);
    }
  }

  // ---------------------------------------------------------------- scalar

  /** `scalar`: classify the bytes at the head of `s`. */
  method Scalar(s: seq<Byte>) returns (width: int)
    ensures width == Width(s)
  {
    IncompleteShape(s);
    if |s| == 0 { return 0; }
    var a := s[0];
    if a < 0x80 { return 1; }
    var need :=
      if 0xC2 <= a <= 0xDF then 2
      else if 0xE0 <= a <= 0xEF then 3
      else if 0xF0 <= a <= 0xF4 then 4
      else -1;
    if need < 0 { return -1; }
    var i := 1;
    while i < need && i < |s|
      invariant 1 <= i <= need && i <= |s|
      invariant forall j :: 1 <= j < i ==> Tail(s[j])
      invariant i > 1 ==>
          && (a == 0xE0 ==> s[1] >= 0xA0) && (a == 0xED ==> s[1] < 0xA0)
          && (a == 0xF0 ==> s[1] >= 0x90) && (a == 0xF4 ==> s[1] < 0x90)
    {
      if !(0x80 <= s[i] < 0xC0) { return -1; }
      if i == 1 && ((a == 0xE0 && s[i] < 0xA0) || (a == 0xED && s[i] >= 0xA0)
                    || (a == 0xF0 && s[i] < 0x90) || (a == 0xF4 && s[i] >= 0x90)) {
        return -1;
      }
      i := i + 1;
    }
    return if |s| < need then 0 else need;
  }

  // ---------------------------------------------------------------- cutting

  /** Nothing before `k` depends on a byte from `k` on, nor on bytes still to come. */
  ghost predicate Cut(b: seq<Byte>, k: nat) {
    && k <= |b|
    && forall i :: 0 <= i < k ==> !Incomplete(b[i..]) && i + CharLen(b[i..]) <= k
  }

  /** Start of the one incomplete tail of `b`, or its end when there is none. */
  ghost function PrefixLen(b: seq<Byte>): (k: nat)
    ensures k <= |b|
  {
    if i :| 0 <= i < |b| && Incomplete(b[i..]) then i else |b|
  }

  /** `JuiceUTF8CompletePrefix`, which looks at the last three bytes only. */
  method CompletePrefix(s: seq<Byte>) returns (k: nat)
    ensures k == PrefixLen(s)
  {
    PrefixLenIsCut(s);
    var start := if |s| > 3 then |s| - 3 else 0;
    k := start;
    while k < |s|
      invariant start <= k <= |s|
      invariant forall i :: start <= i < k ==> !Incomplete(s[i..])
    {
      var w := Scalar(s[k..]);
      if w == 0 {
        IncompleteTailIsCut(s, k);
        return;
      }
      k := k + 1;
    }
  }

  lemma InnerBytesAreTails(s: seq<Byte>)
    ensures forall j :: 0 < j < CharLen(s) ==> Tail(s[j])
  {
    assert forall j :: 0 <= j < CharLen(s) ==> s[..CharLen(s)][j] == s[j];
  }

  /** An incomplete tail is short, is the only one, and nothing before it reaches into it. */
  lemma IncompleteTailIsCut(s: seq<Byte>, k: nat)
    requires k < |s| && Incomplete(s[k..])
    ensures Cut(s, k) && |s| - k <= 3 && PrefixLen(s) == k
  {
    IncompleteShape(s[k..]);
    forall i | 0 <= i < |s| && i != k
      ensures !Incomplete(s[i..])
      ensures i < k ==> i + CharLen(s[i..]) <= k
    {
      IncompleteShape(s[i..]);
      InnerBytesAreTails(s[i..]);
      assert i < k ==> s[i..][k - i] == s[k] == s[k..][0];
      assert i > k ==> s[k..][i - k] == s[i] == s[i..][0];
    }
  }

  lemma PrefixLenIsCut(s: seq<Byte>)
    ensures Cut(s, PrefixLen(s)) && |s| - PrefixLen(s) <= 3
    ensures PrefixLen(s) < |s| <==> exists i :: 0 <= i < |s| && Incomplete(s[i..])
    ensures PrefixLen(s) < |s| ==> Incomplete(s[PrefixLen(s)..])
  {
    if i :| 0 <= i < |s| && Incomplete(s[i..]) { IncompleteTailIsCut(s, i); }
  }

  /** The promise of the header file: the largest prefix without an incomplete trailing character. */
  ghost predicate LargestComplete(s: seq<Byte>, k: nat) {
    k <= |s| && PrefixLen(s[..k]) == k && forall m :: k < m <= |s| ==> PrefixLen(s[..m]) < m
  }

  /**
   `JuiceUTF8CompletePrefix` keeps that promise exactly when it holds nothing back or
   no truncated character stands directly before the tail it holds back.
   */
  lemma CompletePrefixExactly(s: seq<Byte>)
    ensures var k := PrefixLen(s);
            LargestComplete(s, k) <==> k == |s| || forall i :: 0 <= i < k <= i + 3 ==> !LooksIncomplete(s[i..k])
  {
    var k := PrefixLen(s);
    PrefixLenIsCut(s);
    EndsIncomplete(s[..k]);
    forall m | k < m <= |s| ensures PrefixLen(s[..m]) < m {
      IncompleteShape(s[k..]);
      IncompleteShape(s[k..m]);
      assert s[..m][k..] == s[k..m] == s[k..][..m - k];
      IncompleteTailIsCut(s[..m], k);
    }
    assert k == |s| ==> s[..k] == s;
    assert forall i :: 0 <= i < k ==> s[..k][i..] == s[i..k];
  }

  /** A text ends incomplete exactly when one of its last three suffixes is a truncated character. */
  lemma EndsIncomplete(p: seq<Byte>)
    ensures PrefixLen(p) < |p| <==> exists i :: 0 <= i < |p| <= i + 3 && LooksIncomplete(p[i..])
  {
    PrefixLenIsCut(p);
    if PrefixLen(p) < |p| { IncompleteShape(p[PrefixLen(p)..]); }
    forall i | 0 <= i < |p| ensures Incomplete(p[i..]) <==> LooksIncomplete(p[i..]) { IncompleteShape(p[i..]); }
  }

  /** An input on which it is broken: `E2 82` of `E2 82 E2` is itself incomplete. */
  lemma TruncatedBeforeTail()
    ensures PrefixLen([0xE2, 0x82, 0xE2]) == 2 && PrefixLen([0xE2, 0x82]) == 0
    ensures !LargestComplete([0xE2, 0x82, 0xE2], 2) && LargestComplete([0xE2, 0x82, 0xE2], 0)
  {
    var s: seq<Byte> := [0xE2, 0x82, 0xE2];
    IncompleteShape(s[2..]);
    IncompleteTailIsCut(s, 2);
    assert s[..2] == [0xE2, 0x82] && s[..2][0..] == s[..2] && s[..1][0..] == s[..1] == [0xE2];
    IncompleteShape(s[..2][0..]);
    IncompleteTailIsCut(s[..2], 0);
    IncompleteShape(s[..1][0..]);
    IncompleteTailIsCut(s[..1], 0);
    assert s[..3] == s && |s[..0]| == 0;
  }

  lemma NewlineIsCut(s: seq<Byte>, k: nat)
    requires 0 < k <= |s| && s[k - 1] == LF
    ensures Cut(s, k)
  {
    forall i | 0 <= i < k ensures !Incomplete(s[i..]) && i + CharLen(s[i..]) <= k {
      IncompleteShape(s[i..]);
      InnerBytesAreTails(s[i..]);
      assert s[i..][k - 1 - i] == LF;
      assert CharLen(s[i..]) > 0 ==> s[i..][..CharLen(s[i..])][0] == s[i];
    }
  }

  // ---------------------------------------------------------------- sanitizing

  /** What one turn of the copy loop writes, and how far it moves. */
  function Emit(s: seq<Byte>): (e: seq<Byte>)
    ensures IsChar(e) && |e| <= 4 && |e| <= 3 * Advance(s)
  {
    if CharLen(s) > 0 then s[..CharLen(s)] else REPLACEMENT
  }

  function Advance(s: seq<Byte>): (a: nat)
    ensures a > 0
    ensures s != [] ==> a <= |s|
  {
    if CharLen(s) > 0 then CharLen(s) else 1
  }

  /** The text `s` stands for once every byte that starts no UTF8-char is replaced by U+FFFD. */
  function Sanitized(s: seq<Byte>): seq<Byte>
    decreases |s|
  {
    if s == [] then [] else Emit(s) + Sanitized(s[Advance(s)..])
  }

  /** The prefix of `Sanitized(s)` that fits `cap`, and the input it stands for. */
  function SanitizedWithin(s: seq<Byte>, cap: nat): (r: (seq<Byte>, nat))
    ensures |r.0| <= cap && r.1 <= |s|
    decreases |s|
  {
    if s == [] || |Emit(s)| > cap then ([], 0)
    else
      var rest := SanitizedWithin(s[Advance(s)..], cap - |Emit(s)|);
      (Emit(s) + rest.0, Advance(s) + rest.1)
  }

  /**
   `JuiceUTF8Sanitize`. The bytes written, followed by what the unconsumed input
   stands for, are what the whole input stands for; copying stops only at the end
   or when the next character does not fit; nothing else in `out` changes.
   */
  method Sanitize(s: seq<Byte>, out: array<Byte>) returns (used: nat, consumed: nat)
    modifies out
    ensures used <= out.Length && consumed <= |s|
    ensures out[..used] == SanitizedWithin(s, out.Length).0
    ensures consumed == SanitizedWithin(s, out.Length).1
    ensures out[..used] + Sanitized(s[consumed..]) == Sanitized(s)
    ensures consumed < |s| ==> used + |Emit(s[consumed..])| > out.Length
    ensures out[used..] == old(out[used..])
  {
    hide Sanitized, SanitizedWithin, Emit, Advance, Width, Copied;
    var i := 0;
    used := 0;
    NothingCopied(s, out.Length);
    while i < |s|
      invariant i <= |s| && used <= out.Length
      invariant Copied(s, i, out[..used], out.Length)
      invariant forall j :: used <= j < out.Length ==> out[j] == old(out[j])
    {
      var width := Scalar(s[i..]);
      TurnOfWidth(s, i);
      var emitted := if width > 0 then width else 3;
      if emitted > out.Length - used { break; }
      CopiedGrows(s, i, out[..used], out.Length);
      if width > 0 {
        Put(out, used, s[i..i + emitted]);
      } else {
        Put(out, used, REPLACEMENT);
      }
      used := used + emitted;
      i := i + (if width > 0 then width else 1);
    }
    AllCopied(s, i, out[..used], out.Length);
    WithinSplits(s, out.Length);
    consumed := i;
  }

  /** `done` is what the first `i` bytes became, and the rest still fits as it would have. */
  ghost predicate Copied(s: seq<Byte>, i: nat, done: seq<Byte>, cap: nat)
    requires i <= |s| && |done| <= cap
  {
    var rest, all := SanitizedWithin(s[i..], cap - |done|), SanitizedWithin(s, cap);
    done + rest.0 == all.0 && i + rest.1 == all.1
  }

  lemma NothingCopied(s: seq<Byte>, cap: nat)
    ensures Copied(s, 0, [], cap)
  {
    hide SanitizedWithin;
    assert s[0..] == s;
  }

  lemma CopiedGrows(s: seq<Byte>, i: nat, done: seq<Byte>, cap: nat)
    requires i < |s| && |done| <= cap && Copied(s, i, done, cap)
    requires Advance(s[i..]) <= |s| - i && |done| + |Emit(s[i..])| <= cap
    ensures Copied(s, i + Advance(s[i..]), done + Emit(s[i..]), cap)
  {
    hide SanitizedWithin, Emit, Advance, Sanitized;
    OneTurn(s, i, cap - |done|);
    AdvanceIsPositive(s[i..]);
    var e, r := Emit(s[i..]), SanitizedWithin(s[i + Advance(s[i..])..], cap - |done| - |Emit(s[i..])|);
    assert done + (e + r.0) == done + e + r.0;
  }

  lemma AdvanceIsPositive(s: seq<Byte>)
    ensures Advance(s) > 0
  {}

  lemma AllCopied(s: seq<Byte>, i: nat, done: seq<Byte>, cap: nat)
    requires i <= |s| && |done| <= cap && Copied(s, i, done, cap)
    requires i < |s| ==> Advance(s[i..]) <= |s| - i && |done| + |Emit(s[i..])| > cap
    ensures SanitizedWithin(s, cap) == (done, i)
  {
    hide SanitizedWithin, Emit, Advance, Sanitized;
    if i < |s| { OneTurn(s, i, cap - |done|); } else { NothingLeft(s, cap - |done|); }
    assert done + [] == done;
  }

  /** Copy `e` to `out` at `at`. */
  method Put(out: array<Byte>, at: nat, e: seq<Byte>)
    requires at + |e| <= out.Length
    modifies out
    ensures out[..at + |e|] == old(out[..at]) + e
    ensures forall j :: at + |e| <= j < out.Length ==> out[j] == old(out[j])
  {
    forall j | 0 <= j < |e| { out[at + j] := e[j]; }
  }

  lemma NothingLeft(s: seq<Byte>, cap: nat)
    ensures Sanitized(s[|s|..]) == [] && SanitizedWithin(s[|s|..], cap) == ([], 0)
  {}

  /** What the width found at position `i` makes of the turn. */
  lemma TurnOfWidth(s: seq<Byte>, i: nat)
    requires i < |s|
    ensures var w, rest := Width(s[i..]), s[i..];
            && Advance(rest) == (if w > 0 then w else 1) <= |rest|
            && Emit(rest) == (if w > 0 then s[i..i + w] else REPLACEMENT)
  {
    hide Is1, Is2, Is3, Is4;
    var w := CharLen(s[i..]);
    assert s[i..][..w] == s[i..i + w];
  }

  lemma FirstTurn(s: seq<Byte>, cap: nat)
    requires s != [] && Advance(s) <= |s|
    ensures var after := s[Advance(s)..];
            && Sanitized(s) == Emit(s) + Sanitized(after)
            && if |Emit(s)| > cap then SanitizedWithin(s, cap) == ([], 0)
               else
                 var r := SanitizedWithin(after, cap - |Emit(s)|);
                 SanitizedWithin(s, cap) == (Emit(s) + r.0, Advance(s) + r.1)
  {
    hide CharLen, Emit, Advance;
  }

  /** The recursion at position `i`. */
  lemma OneTurn(s: seq<Byte>, i: nat, cap: nat)
    requires i < |s| && Advance(s[i..]) <= |s| - i
    ensures var rest := s[i..];
            var after := s[i + Advance(rest)..];
            && Sanitized(rest) == Emit(rest) + Sanitized(after)
            && if |Emit(rest)| > cap then SanitizedWithin(rest, cap) == ([], 0)
               else
                 var r := SanitizedWithin(after, cap - |Emit(rest)|);
                 SanitizedWithin(rest, cap) == (Emit(rest) + r.0, Advance(rest) + r.1)
  {
    hide Sanitized, SanitizedWithin, Emit, Advance;
    FirstTurn(s[i..], cap);
    assert s[i..][Advance(s[i..])..] == s[i + Advance(s[i..])..];
  }

  /** `JuiceDecodeOutput`: a buffer of three bytes per input byte always suffices. */
  method DecodeOutput(data: seq<Byte>) returns (text: seq<Byte>)
    ensures text == Sanitized(data)
  {
    var clean := new Byte[3 * |data|];
    var used, consumed := Sanitize(data, clean);
    WithinCapacity(data, clean.Length);
    SanitizedLength(data);
    text := clean[..used];
  }

  lemma {:induction false} SanitizedLength(s: seq<Byte>)
    ensures |Sanitized(s)| <= 3 * |s|
    decreases |s|
  {
    if s != [] { SanitizedLength(s[Advance(s)..]); }
  }

  /** Everything is copied exactly when the capacity holds the whole result. */
  lemma {:induction false} WithinCapacity(s: seq<Byte>, cap: nat)
    ensures |Sanitized(s)| <= cap <==> SanitizedWithin(s, cap) == (Sanitized(s), |s|)
    decreases |s|
  {
    if s != [] && |Emit(s)| <= cap { WithinCapacity(s[Advance(s)..], cap - |Emit(s)|); }
  }

  // ---------------------------------------------------------------- the result is text

  lemma {:induction false} SanitizedIsText(s: seq<Byte>)
    ensures IsText(Sanitized(s))
    decreases |s|
  {
    if s != [] {
      var e, rest := Emit(s), Sanitized(s[Advance(s)..]);
      SanitizedIsText(s[Advance(s)..]);
      assert (e + rest)[..|e|] == e && (e + rest)[|e|..] == rest;
    }
  }

  lemma {:induction false} TextIsUnchanged(s: seq<Byte>)
    requires IsText(s)
    ensures Sanitized(s) == s
    decreases |s|
  {
    hide IsChar, CharLen;
    if s != [] {
      var k :| 1 <= k <= |s| && IsChar(s[..k]) && IsText(s[k..]);
      CharLenIsUnique(s, k);
      assert Emit(s) == s[..k] && Advance(s) == k;
      TextIsUnchanged(s[k..]);
      SanitizedUnfolds(s);
      hide IsText, Sanitized, Emit, Advance;
      assert s == s[..k] + s[k..];
    }
  }

  /** Sanitizing lands in the grammar, fixes exactly the grammar, and so is idempotent. */
  lemma SanitizedIsProjection(s: seq<Byte>)
    ensures IsText(Sanitized(s))
    ensures IsText(s) <==> Sanitized(s) == s
    ensures Sanitized(Sanitized(s)) == Sanitized(s)
  {
    SanitizedIsText(s);
    TextIsUnchanged(Sanitized(s));
    if IsText(s) { TextIsUnchanged(s); }
  }

  // ---------------------------------------------------------------- cutting a stream

  /** Bytes still to come, or left out past a cut, do not change the next turn of the loop. */
  lemma StepIgnoresTheCut(b: seq<Byte>, k: nat, t: seq<Byte>)
    requires Cut(b, k) && k > 0
    ensures Emit(b + t) == Emit(b[..k]) == Emit(b)
    ensures k <= |b| && Advance(b + t) == Advance(b[..k]) == Advance(b) && 0 < Advance(b) <= k
  {
    var c := CharLen(b);
    assert b[0..] == b;
    if c > 0 {
      assert (b + t)[..c] == b[..c] == b[..k][..c];
      CharLenIsUnique(b + t, c);
      CharLenIsUnique(b[..k], c);
    } else {
      IncompleteShape(b);
    }
  }

  /** A cut stays a cut after one turn of the loop. */
  lemma CutAdvances(b: seq<Byte>, k: nat)
    requires Cut(b, k) && k > 0 && Advance(b) <= k
    ensures Cut(b[Advance(b)..], k - Advance(b))
  {
    var a := Advance(b);
    forall i | 0 <= i < k - a
      ensures !Incomplete(b[a..][i..]) && i + CharLen(b[a..][i..]) <= k - a
    {
      assert b[a..][i..] == b[a + i..];
    }
  }

  /** Sanitizing the two sides of a cut separately is sanitizing the whole, whatever follows. */
  lemma {:induction false} CutLaw(b: seq<Byte>, k: nat, t: seq<Byte>)
    requires Cut(b, k)
    ensures Sanitized(b + t) == Sanitized(b[..k]) + Sanitized(b[k..] + t)
    decreases |b|
  {
    hide *;
    if k == 0 {
      assert b[k..] + t == b + t && b[..k] == [];
      NothingLeft([], 0);
    } else {
      StepIgnoresTheCut(b, k, t);
      CutAdvances(b, k);
      var a := Advance(b);
      CutSlices(b, a, k, t);
      CutLaw(b[a..], k - a, t);
      SanitizedUnfolds(b + t);
      SanitizedUnfolds(b[..k]);
      var e, x, y := Emit(b), Sanitized(b[..k][a..]), Sanitized(b[k..] + t);
      assert e + (x + y) == (e + x) + y;
    }
  }

  lemma CutSlices(b: seq<Byte>, a: nat, k: nat, t: seq<Byte>)
    requires a <= k <= |b|
    ensures (b + t)[a..] == b[a..] + t
    ensures b[..k][a..] == b[a..][..k - a]
    ensures b[a..][k - a..] == b[k..]
  {}

  lemma SanitizedUnfolds(s: seq<Byte>)
    requires s != []
    ensures Advance(s) <= |s| && Sanitized(s) == Emit(s) + Sanitized(s[Advance(s)..])
  {}

  /** Chunk by chunk: sanitize the complete prefix, carry the tail, flush at the end. */
  ghost function Pieces(carry: seq<Byte>, chunks: seq<seq<Byte>>): seq<seq<Byte>>
    decreases |chunks|
  {
    if chunks == [] then [Sanitized(carry)]
    else
      var b := carry + chunks[0];
      var k := PrefixLen(b);
      [Sanitized(b[..k])] + Pieces(b[k..], chunks[1..])
  }

  /** However a stream is cut into chunks, the pieces together are the sanitized stream. */
  lemma {:induction false} PiecewiseIsWhole(carry: seq<Byte>, chunks: seq<seq<Byte>>)
    ensures Concat(Pieces(carry, chunks)) == Sanitized(carry + Concat(chunks))
    decreases |chunks|
  {
    hide Sanitized, PrefixLen;
    if chunks == [] {
      assert carry + Concat(chunks) == carry;
      assert Concat(Pieces(carry, chunks)) == Sanitized(carry) + Concat([]);
    } else {
      var b := carry + chunks[0];
      var k := PrefixLen(b);
      PrefixLenIsCut(b);
      PiecewiseIsWhole(b[k..], chunks[1..]);
      CutLaw(b, k, Concat(chunks[1..]));
      assert carry + Concat(chunks) == b + Concat(chunks[1..]);
      assert Pieces(carry, chunks)[1..] == Pieces(b[k..], chunks[1..]);
    }
  }

  /** A stretch of one line: no newline but at its end. */
  predicate IsPiece(p: seq<Byte>) {
    p != [] && LF !in p[..|p| - 1]
  }

  /** The line ends here, or was too long to wait for its end. */
  predicate Ended(p: seq<Byte>) {
    p != [] && (p[|p| - 1] == LF || |p| >= FLUSH_LIMIT - 3)
  }

  /** What was appended are the sanitized `pieces`, and the first `n` of them had to end where they do. */
  ghost predicate Delivered(pieces: seq<seq<Byte>>, appended: seq<seq<Byte>>, n: int) {
    && |appended| == |pieces|
    && (forall i :: 0 <= i < |pieces| ==> IsPiece(pieces[i]) && appended[i] == Sanitized(pieces[i]))
    && (forall i :: 0 <= i < |pieces| && i < n ==> Ended(pieces[i]))
  }

  lemma DeliveredMore(pieces: seq<seq<Byte>>, appended: seq<seq<Byte>>, p: seq<Byte>)
    requires Delivered(pieces, appended, |pieces|) && IsPiece(p)
    ensures Delivered(pieces + [p], appended + [Sanitized(p)], |pieces|)
    ensures Ended(p) ==> Delivered(pieces + [p], appended + [Sanitized(p)], |pieces| + 1)
  {
    hide IsPiece, Ended, Sanitized;
  }

  lemma DeliveredJoin(a: seq<seq<Byte>>, x: seq<seq<Byte>>, b: seq<seq<Byte>>, y: seq<seq<Byte>>)
    requires Delivered(a, x, |a|) && Delivered(b, y, |b|)
    ensures Delivered(a + b, x + y, |a + b|)
  {
    hide IsPiece, Ended, Sanitized;
  }

  /** The finished lines of `pending`, each sanitized, and the beginning of the next one. */
  method TakeLines(pending: seq<Byte>, ghost later: seq<Byte>)
    returns (lines: seq<seq<Byte>>, rest: seq<Byte>, ghost pieces: seq<seq<Byte>>)
    ensures Delivered(pieces, lines, |pieces|) && Concat(pieces) + rest == pending && LF !in rest
    ensures Concat(lines) + Sanitized(rest + later) == Sanitized(pending + later)
  {
    hide Sanitized, Delivered, Cut;
    lines, pieces := [], [];
    NothingDelivered();
    var start := 0;
    assert pending[start..] == pending;
    for i := 0 to |pending|
      invariant start <= i && LF !in pending[start..i]
      invariant Delivered(pieces, lines, |pieces|) && Concat(pieces) == pending[..start]
      invariant Concat(lines) + Sanitized(pending[start..] + later) == Sanitized(pending + later)
    {
      if pending[i] == LF {
        var line := DecodeOutput(pending[start..i + 1]);
        LineIsCut(pending, start, i + 1, later);
        DeliveredMore(pieces, lines, pending[start..i + 1]);
        ConcatSnoc(lines, line);
        ConcatSnoc(pieces, pending[start..i + 1]);
        assert pending[..start] + pending[start..i + 1] == pending[..i + 1];
        lines, pieces := lines + [line], pieces + [pending[start..i + 1]];
        start := i + 1;
      }
    }
    rest := pending[start..];
    assert pending[start..|pending|] == pending[start..];
  }

  lemma NothingDelivered()
    ensures Delivered([], [], 0)
  {}

  lemma LineIsCut(s: seq<Byte>, start: nat, end: nat, later: seq<Byte>)
    requires start < end <= |s| && s[end - 1] == LF && LF !in s[start..end - 1]
    ensures IsPiece(s[start..end]) && Ended(s[start..end])
    ensures Sanitized(s[start..end]) + Sanitized(s[end..] + later) == Sanitized(s[start..] + later)
  {
    hide Sanitized, Cut;
    var tail, k := s[start..], end - start;
    assert tail[..k] == s[start..end] && tail[k..] == s[end..] && s[start..end][..k - 1] == s[start..end - 1];
    NewlineIsCut(tail, k);
    CutLaw(tail, k, later);
  }

  /**
   `JuiceConsumeOutput`: append every finished line, flush an overlong line at its
   complete prefix, and append the remainder at end of file. What is appended is
   the sanitized output of the child, however `read` fragmented it; no piece reaches
   past the end of a line, and one that stops short of it is the last or some 64 KiB long.
   */
  method ConsumeOutput(input: seq<seq<Byte>>) returns (appended: seq<seq<Byte>>, ghost pieces: seq<seq<Byte>>)
    ensures Concat(appended) == Sanitized(Concat(input))
    ensures Concat(pieces) == Concat(input) && Delivered(pieces, appended, |pieces| - 1)
  {
    hide Sanitized, PrefixLen, Pumped, Concat;
    appended, pieces := [], [];
    var pending: seq<Byte> := [];
    var r := 0;
    NothingPumped(input);
    while r < |input|
      invariant r <= |input| && Pumped(pieces, appended, pending, Concat(input[r..]), Concat(input))
    {
      ghost var later := Concat(input[r + 1..]);
      ChunkRead(pieces, appended, pending, input, r);
      pending := pending + input[r];
      r := r + 1;
      var lines, rest;
      ghost var more;
      lines, rest, more := TakeLines(pending, later);
      LinesPumped(pieces, appended, pending, later, Concat(input), more, lines, rest);
      appended, pieces, pending := appended + lines, pieces + more, rest;
      if |pending| >= FLUSH_LIMIT {
        var complete := CompletePrefix(pending);
        if complete > 0 {
          var text := DecodeOutput(pending[..complete]);
          PrefixPumped(pieces, appended, pending, complete, later, Concat(input));
          appended, pieces := appended + [text], pieces + [pending[..complete]];
          pending := pending[complete..];
        }
      }
    }
    AllPumped(pieces, appended, pending, input);
    if |pending| > 0 {
      var text := DecodeOutput(pending);
      appended, pieces := appended + [text], pieces + [pending];
    }
  }

  /** So far `pieces` were delivered, `pending` is the beginning of a line, and `later` is still to be read. */
  ghost predicate Pumped(pieces: seq<seq<Byte>>, appended: seq<seq<Byte>>, pending: seq<Byte>,
                         later: seq<Byte>, whole: seq<Byte>)
  {
    && LF !in pending
    && Delivered(pieces, appended, |pieces|)
    && Conserved(pieces, appended, pending + later, whole)
  }

  ghost predicate Conserved(pieces: seq<seq<Byte>>, appended: seq<seq<Byte>>, left: seq<Byte>, whole: seq<Byte>) {
    && Concat(pieces) + left == whole
    && Concat(appended) + Sanitized(left) == Sanitized(whole)
  }

  lemma NothingPumped(input: seq<seq<Byte>>)
    ensures Pumped([], [], [], Concat(input[0..]), Concat(input))
  {
    NothingDelivered();
    var none: seq<Byte> := [];
    assert input[0..] == input && none + Concat(input) == Concat(input);
    assert none + Sanitized(Concat(input)) == Sanitized(Concat(input));
    hide Delivered, Sanitized;
  }

  lemma ChunkRead(pieces: seq<seq<Byte>>, appended: seq<seq<Byte>>, pending: seq<Byte>, input: seq<seq<Byte>>, r: nat)
    requires r < |input| && Pumped(pieces, appended, pending, Concat(input[r..]), Concat(input))
    ensures Delivered(pieces, appended, |pieces|)
    ensures Conserved(pieces, appended, (pending + input[r]) + Concat(input[r + 1..]), Concat(input))
  {
    hide Delivered, Conserved;
    assert input[r..][1..] == input[r + 1..];
    Assoc(pending, input[r], Concat(input[r + 1..]));
  }

  lemma ConservedMore(pieces: seq<seq<Byte>>, appended: seq<seq<Byte>>, left: seq<Byte>, whole: seq<Byte>,
                      more: seq<seq<Byte>>, texts: seq<seq<Byte>>, rest: seq<Byte>)
    requires Conserved(pieces, appended, left, whole)
    requires Concat(more) + rest == left && Concat(texts) + Sanitized(rest) == Sanitized(left)
    ensures Conserved(pieces + more, appended + texts, rest, whole)
  {
    ConcatJoin(pieces, more);
    ConcatJoin(appended, texts);
    hide Concat, Sanitized;
    Assoc(Concat(pieces), Concat(more), rest);
    Assoc(Concat(appended), Concat(texts), Sanitized(rest));
  }

  lemma LinesPumped(pieces: seq<seq<Byte>>, appended: seq<seq<Byte>>, pending: seq<Byte>, later: seq<Byte>,
                    whole: seq<Byte>, more: seq<seq<Byte>>, lines: seq<seq<Byte>>, rest: seq<Byte>)
    requires Delivered(pieces, appended, |pieces|) && Conserved(pieces, appended, pending + later, whole)
    requires Delivered(more, lines, |more|) && Concat(more) + rest == pending && LF !in rest
    requires Concat(lines) + Sanitized(rest + later) == Sanitized(pending + later)
    ensures Pumped(pieces + more, appended + lines, rest, later, whole)
  {
    hide Delivered, Conserved, Concat, Sanitized;
    DeliveredJoin(pieces, appended, more, lines);
    Assoc(Concat(more), rest, later);
    ConservedMore(pieces, appended, pending + later, whole, more, lines, rest + later);
  }

  lemma PrefixPumped(pieces: seq<seq<Byte>>, appended: seq<seq<Byte>>, pending: seq<Byte>, k: nat,
                     later: seq<Byte>, whole: seq<Byte>)
    requires Pumped(pieces, appended, pending, later, whole) && |pending| >= FLUSH_LIMIT && 0 < k == PrefixLen(pending)
    ensures k <= |pending|
    ensures Pumped(pieces + [pending[..k]], appended + [Sanitized(pending[..k])], pending[k..], later, whole)
  {
    hide Delivered, Conserved, Concat, Sanitized, IsPiece, Ended;
    PrefixIsPiece(pending, k, later);
    hide PrefixLen;
    DeliveredMore(pieces, appended, pending[..k]);
    ConcatOne(pending[..k]);
    ConcatOne(Sanitized(pending[..k]));
    assert pending[..k] + (pending[k..] + later) == pending + later;
    ConservedMore(pieces, appended, pending + later, whole, [pending[..k]], [Sanitized(pending[..k])],
                  pending[k..] + later);
  }

  lemma ConcatOne(p: seq<Byte>)
    ensures Concat([p]) == p
  {
    assert [p][1..] == [];
  }

  /** At end of file, with the remainder still to be appended if there is any. */
  lemma AllPumped(pieces: seq<seq<Byte>>, appended: seq<seq<Byte>>, pending: seq<Byte>, input: seq<seq<Byte>>)
    requires Pumped(pieces, appended, pending, Concat(input[|input|..]), Concat(input))
    ensures var p, x := if pending == [] then pieces else pieces + [pending],
                        if pending == [] then appended else appended + [Sanitized(pending)];
            && Concat(x) == Sanitized(Concat(input))
            && Concat(p) == Concat(input) && Delivered(p, x, |p| - 1)
  {
    assert pending + Concat(input[|input|..]) == pending;
    NothingLeft(pending, 0);
    hide Delivered, Sanitized, IsPiece, Ended;
    if pending == [] {
      assert pending == pending[|pending|..];
      DeliveredStays(pieces, appended);
    } else {
      RestIsPiece(pending);
      DeliveredMore(pieces, appended, pending);
      ConcatSnoc(appended, Sanitized(pending));
      ConcatSnoc(pieces, pending);
    }
  }

  lemma RestIsPiece(p: seq<Byte>)
    requires p != [] && LF !in p
    ensures IsPiece(p)
  {}

  lemma DeliveredStays(pieces: seq<seq<Byte>>, appended: seq<seq<Byte>>)
    requires Delivered(pieces, appended, |pieces|)
    ensures Delivered(pieces, appended, |pieces| - 1)
  {
    hide IsPiece, Ended, Sanitized;
  }

  /** Flushing an overlong line at its complete prefix. */
  lemma PrefixIsPiece(p: seq<Byte>, k: nat, later: seq<Byte>)
    requires LF !in p && |p| >= FLUSH_LIMIT && 0 < k == PrefixLen(p)
    ensures k <= |p| && IsPiece(p[..k]) && Ended(p[..k]) && LF !in p[k..]
    ensures Sanitized(p[..k]) + Sanitized(p[k..] + later) == Sanitized(p + later)
  {
    hide Sanitized;
    PrefixLenIsCut(p);
    CutLaw(p, k, later);
    hide PrefixLen, Cut;
  }

  // ---------------------------------------------------------------- resuming with small buffers

  /** Sanitize into one buffer after another, each time resuming at `consumed`. */
  function Drain(s: seq<Byte>, caps: seq<nat>): (r: (seq<seq<Byte>>, seq<Byte>))
    decreases |caps|
  {
    if s == [] || caps == [] then ([], s)
    else
      var (text, consumed) := SanitizedWithin(s, caps[0]);
      var (texts, rest) := Drain(s[consumed..], caps[1..]);
      ([text] + texts, rest)
  }

  lemma {:induction false} WithinSplits(s: seq<Byte>, cap: nat)
    ensures var (text, consumed) := SanitizedWithin(s, cap);
            && text + Sanitized(s[consumed..]) == Sanitized(s)
            && (consumed > 0 <==> s != [] && |Emit(s)| <= cap)
    decreases |s|
  {
    hide CharLen, Emit, Advance;
    if s != [] && |Emit(s)| <= cap {
      var a := Advance(s);
      WithinSplits(s[a..], cap - |Emit(s)|);
      var rest := SanitizedWithin(s[a..], cap - |Emit(s)|);
      assert s[a..][rest.1..] == s[a + rest.1..];
    }
  }

  /**
   Any buffers: no text is lost, none overflows. Buffers of at least four bytes:
   each one consumes something, so as many buffers as input bytes finish the job.
   */
  lemma {:induction false} DrainIsWhole(s: seq<Byte>, caps: seq<nat>)
    ensures var (texts, rest) := Drain(s, caps);
            && Concat(texts) + Sanitized(rest) == Sanitized(s)
            && |texts| <= |caps| && (forall i :: 0 <= i < |texts| ==> |texts[i]| <= caps[i])
            && ((forall i :: 0 <= i < |caps| ==> caps[i] >= 4) ==>
                  |rest| <= (if |s| <= |caps| then 0 else |s| - |caps|))
    decreases |caps|
  {
    if s != [] && caps != [] {
      var (text, consumed) := SanitizedWithin(s, caps[0]);
      WithinSplits(s, caps[0]);
      DrainIsWhole(s[consumed..], caps[1..]);
      assert Drain(s, caps).0[1..] == Drain(s[consumed..], caps[1..]).0;
    }
  }
}
