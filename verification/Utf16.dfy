/**
 Surrogate-safe chunking of UTF-16LE text: app/JuiceUTF16.h and the sending loop of
 app/JuiceTextInputHardening.m. The reference is a decoder after section 2.2 of RFC 2781
 that replaces each unpaired surrogate by U+FFFD.
 */
module Utf16 {
  import opened Bytes

  predicate High(u: int) { 0xD800 <= u <= 0xDBFF }

  predicate Low(u: int) { 0xDC00 <= u <= 0xDFFF }

  /** `b` starts with a surrogate pair. */
  predicate PairFirst(b: seq<Byte>) {
    |b| >= 4 && High(U16(b, 0)) && Low(U16(b, 2))
  }

  /** Cutting `b` at `k` separates the halves of a surrogate pair. */
  predicate Splits(b: seq<Byte>, k: nat) {
    2 <= k && k + 2 <= |b| && High(U16(b, k - 2)) && Low(U16(b, k))
  }

  /** The scalar value at the start of `b`, or U+FFFD for an unpaired surrogate. */
  function First(b: seq<Byte>): int
    requires |b| >= 2
  {
    if PairFirst(b) then 0x10000 + (U16(b, 0) - 0xD800) * 0x400 + (U16(b, 2) - 0xDC00)
    else if High(U16(b, 0)) || Low(U16(b, 0)) then 0xFFFD
    else U16(b, 0)
  }

  function Step(b: seq<Byte>): (n: nat)
    ensures n == 2 || n == 4
    ensures |b| >= 2 ==> n <= |b|
  {
    if PairFirst(b) then 4 else 2
  }

  function Decode(b: seq<Byte>): seq<int> {
    if |b| < 2 then [] else [First(b)] + Decode(b[Step(b)..])
  }

  /** `JuiceUTF16ChunkLength`, on the bytes that remain. */
  function ChunkLength(b: seq<Byte>, limit: nat): nat {
    if b == [] || |b| % 2 == 1 then 0
    else
      var least := if |b| < limit then |b| else limit;
      var n := least - least % 2;
      if n == 0 then 0
      else if n < |b| && High(U16(b, n - 2)) && Low(U16(b, n)) then n - 2
      else n
  }

  /** The longest even prefix within the limit that splits no pair; nothing when there is none. */
  lemma ChunkLengthIsLongest(b: seq<Byte>, limit: nat)
    ensures var n := ChunkLength(b, limit);
            && n % 2 == 0 && n <= |b| && n <= limit && !Splits(b, n)
            && (|b| % 2 == 0 ==> forall m :: n < m <= limit && m <= |b| && m % 2 == 0 ==> Splits(b, m))
            && (n == 0 <==> b == [] || |b| % 2 == 1 || limit < 2 || (limit < 4 && PairFirst(b)))
  {
    var n := ChunkLength(b, limit);
    if b != [] && |b| % 2 == 0 && limit >= 2 {
      assert n >= 2 ==> !Splits(b, n);
      forall m | n < m <= limit && m <= |b| && m % 2 == 0 ensures Splits(b, m) { assert m == n + 2; }
    }
  }

  /** Decoding the two sides separately changes the text exactly when a pair is split. */
  lemma {:induction false} DecodeAtCut(b: seq<Byte>, k: nat)
    requires k % 2 == 0 && k <= |b|
    ensures !Splits(b, k) ==> Decode(b) == Decode(b[..k]) + Decode(b[k..])
    ensures Splits(b, k) ==> |Decode(b)| + 1 == |Decode(b[..k])| + |Decode(b[k..])|
    decreases |b|
  {
    hide *;
    if k == 0 {
      assert b[k..] == b && b[..k] == b[|b|..][..0];
      NothingLeft(b[..k]);
      NoSplitAtStart(b);
    } else if k == 2 && PairFirst(b) {
      PairCut(b);
    } else {
      var a := Step(b);
      StepInPrefix(b, k);
      assert b[..k][a..] == b[a..][..k - a] && b[a..][k - a..] == b[k..];
      DecodeAtCut(b[a..], k - a);
      DecodeUnfolds(b);
      DecodeUnfolds(b[..k]);
    }
  }

  lemma NoSplitAtStart(b: seq<Byte>)
    ensures !Splits(b, 0)
  {}

  lemma DecodeUnfolds(b: seq<Byte>)
    requires |b| >= 2
    ensures 0 <= Step(b) <= |b| && Decode(b) == [First(b)] + Decode(b[Step(b)..])
  {}

  lemma PairCut(b: seq<Byte>)
    requires PairFirst(b)
    ensures Splits(b, 2) && |Decode(b)| + 1 == |Decode(b[..2])| + |Decode(b[2..])|
  {
    hide First;
    assert U16(b[2..], 0) == U16(b, 2);
    assert b[2..][2..] == b[4..];
    assert |Decode(b[..2])| == 1 + |Decode(b[..2][2..])|;
  }

  /** A cut elsewhere leaves the first character alone. */
  lemma StepInPrefix(b: seq<Byte>, k: nat)
    requires k % 2 == 0 && 2 <= k <= |b| && !(k == 2 && PairFirst(b))
    ensures 2 <= Step(b) <= k && Step(b[..k]) == Step(b) && Step(b) % 2 == 0 && First(b[..k]) == First(b)
    ensures Splits(b, k) <==> Splits(b[Step(b)..], k - Step(b))
  {
    assert k >= 4 ==> U16(b[..k], 0) == U16(b, 0) && U16(b[..k], 2) == U16(b, 2);
  }

  function DecodeEach(chunks: seq<seq<Byte>>): seq<int> {
    if chunks == [] then [] else DecodeEach(chunks[..|chunks| - 1]) + Decode(chunks[|chunks| - 1])
  }

  /**
   `JuiceSendTextPayload`, over a connection that takes `taken` messages and then fails.
   The chunks sent are the payload, each fits the message and is whole code units, and
   the receiver decoding each alone reads the text of the whole payload, well-formed or
   not. With a limit of four or more no even payload is refused, and every chunk but the
   last is as full as one surrogate pair allows. If a message fails, what was sent is the
   beginning of the payload and decodes to the beginning of its text.
   */
  method SendText(payload: seq<Byte>, limit: nat, taken: nat) returns (sent: bool, chunks: seq<seq<Byte>>)
    ensures sent ==> Concat(chunks) == payload && DecodeEach(chunks) == Decode(payload)
    ensures Concat(chunks) <= payload && DecodeEach(chunks) <= Decode(payload) && |chunks| <= taken
    ensures forall i :: 0 <= i < |chunks| ==> 0 < |chunks[i]| <= limit && |chunks[i]| % 2 == 0
    ensures payload != [] && |payload| % 2 == 0 && limit >= 4 && !sent ==> |chunks| == taken
    ensures payload == [] || |payload| % 2 == 1 ==> !sent
    ensures forall i :: 0 <= i < |chunks| - 1 ==> |chunks[i]| + 4 > limit
  {
    hide ChunkLength, Decode, Splits, PairFirst, Concat, DecodeEach, SentUpto;
    NothingSent(payload);
    chunks := [];
    if |payload| == 0 { return false, chunks; }
    var offset := 0;
    while offset < |payload|
      invariant offset <= |payload| && offset % 2 == 0 && |chunks| <= taken
      invariant offset > 0 ==> |payload| % 2 == 0
      invariant SentUpto(payload, offset, chunks)
      invariant forall i :: 0 <= i < |chunks| ==> 0 < |chunks[i]| <= limit && |chunks[i]| % 2 == 0
      invariant forall i :: 0 <= i < |chunks| && (i < |chunks| - 1 || offset < |payload|) ==> |chunks[i]| + 4 > limit
    {
      SentIsPrefix(payload, offset, chunks);
      var length := ChunkLength(payload[offset..], limit);
      ChunkLengthIsLongest(payload[offset..], limit);
      if length == 0 { return false, chunks; }
      if |chunks| == taken { return false, chunks; }
      ChunkIsFull(payload[offset..], limit);
      OneMoreSent(payload, offset, length, chunks);
      chunks := chunks + [payload[offset..offset + length]];
      offset := offset + length;
    }
    AllSent(payload, chunks);
    return true, chunks;
  }

  /** `chunks` are the first `offset` bytes, cut without splitting a pair. */
  ghost predicate SentUpto(payload: seq<Byte>, offset: nat, chunks: seq<seq<Byte>>) {
    && offset <= |payload|
    && Concat(chunks) == payload[..offset]
    && DecodeEach(chunks) + Decode(payload[offset..]) == Decode(payload)
  }

  lemma NothingSent(payload: seq<Byte>)
    ensures SentUpto(payload, 0, []) && Concat<Byte>([]) == [] && DecodeEach([]) == []
  {
    assert payload[0..] == payload;
  }

  lemma OneMoreSent(payload: seq<Byte>, offset: nat, length: nat, chunks: seq<seq<Byte>>)
    requires SentUpto(payload, offset, chunks) && offset + length <= |payload| && length % 2 == 0
    requires !Splits(payload[offset..], length)
    ensures SentUpto(payload, offset + length, chunks + [payload[offset..offset + length]])
  {
    hide Decode, Splits, Concat, DecodeEach;
    var rest, part := payload[offset..], payload[offset..offset + length];
    DecodeAtCut(rest, length);
    assert part == rest[..length] && rest[length..] == payload[offset + length..];
    assert payload[..offset] + part == payload[..offset + length];
    ConcatSnoc(chunks, part);
    DecodeEachSnoc(chunks, part);
    Assoc(DecodeEach(chunks), Decode(part), Decode(payload[offset + length..]));
  }

  lemma SentIsPrefix(payload: seq<Byte>, offset: nat, chunks: seq<seq<Byte>>)
    requires SentUpto(payload, offset, chunks)
    ensures Concat(chunks) <= payload && DecodeEach(chunks) <= Decode(payload)
  {
    hide Decode, Concat, DecodeEach;
  }

  lemma AllSent(payload: seq<Byte>, chunks: seq<seq<Byte>>)
    requires SentUpto(payload, |payload|, chunks)
    ensures Concat(chunks) == payload && DecodeEach(chunks) == Decode(payload)
  {
    hide Decode, Concat, DecodeEach;
    assert payload[..|payload|] == payload;
    NothingLeft(payload);
  }

  lemma ChunkIsFull(b: seq<Byte>, limit: nat)
    ensures 0 < ChunkLength(b, limit) < |b| ==> ChunkLength(b, limit) + 4 > limit
  {}

  lemma DecodeEachSnoc(chunks: seq<seq<Byte>>, part: seq<Byte>)
    ensures DecodeEach(chunks + [part]) == DecodeEach(chunks) + Decode(part)
  {
    assert (chunks + [part])[..|chunks|] == chunks;
  }

  lemma NothingLeft(b: seq<Byte>)
    ensures Decode(b[|b|..]) == []
  {}
}
