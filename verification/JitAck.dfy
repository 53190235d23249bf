/**
 The acknowledgement matcher of app/JuiceJITAck.h: constant memory, fed the output
 of the child in arbitrary chunks. The reference is the stream as a whole and its lines.
 */
module JitAck {
  import opened Bytes

  const LF: Byte := 0x0A
  const CR: Byte := 0x0D
  const CAPACITY: nat := 128

  /** A chunk as the caller passes it: a length without bytes, or bytes. */
  datatype Chunk = Null(length: nat) | Data(bytes: seq<Byte>)

  /** A null chunk of nonzero length spoils the current line, as one NUL byte would. */
  function Content(c: Chunk): seq<Byte> {
    match c
    case Data(bytes) => bytes
    case Null(n) => if n == 0 then [] else [0]
  }

  function Stream(chunks: seq<Chunk>): seq<Byte> {
    if chunks == [] then [] else Stream(chunks[..|chunks| - 1]) + Content(chunks[|chunks| - 1])
  }

  // ---------------------------------------------------------------- lines of a stream

  predicate IsMarker(m: seq<Byte>) {
    0 < |m| < CAPACITY && forall b :: b in m ==> 0x20 <= b <= 0x7E
  }

  /** The unfinished line at the end of `t`: what follows its last LF. */
  function LastLine(t: seq<Byte>): (line: seq<Byte>)
    ensures LF !in line
  {
    if t == [] || t[|t| - 1] == LF then [] else LastLine(t[..|t| - 1]) + [t[|t| - 1]]
  }

  /** An LF at `p` ends a line that is the marker, or the marker and one CR. */
  predicate AckAt(t: seq<Byte>, m: seq<Byte>, p: int) {
    0 <= p < |t| && t[p] == LF && (LastLine(t[..p]) == m || LastLine(t[..p]) == m + [CR])
  }

  /** Whether a line counts does not depend on what follows it. */
  lemma AckInPrefix(t: seq<Byte>, u: seq<Byte>, m: seq<Byte>, p: int)
    requires u <= t && p < |u|
    ensures AckAt(u, m, p) <==> AckAt(t, m, p)
  {
    assert 0 <= p ==> u[..p] == t[..p];
  }

  lemma LastLineGrows(t: seq<Byte>, c: Byte)
    ensures (t + [c])[..|t|] == t
    ensures LastLine(t + [c]) == if c == LF then [] else LastLine(t) + [c]
  {
    assert (t + [c])[..|t|] == t;
  }

  /** `LastLine` is a suffix of the stream that starts at its beginning or after an LF. */
  lemma {:induction false} LastLineIsLast(t: seq<Byte>) returns (k: nat)
    ensures k <= |t| && LastLine(t) == t[k..] && (k == 0 || t[k - 1] == LF)
  {
    var n := |t| - 1;
    if t == [] || t[n] == LF {
      k := |t|;
    } else {
      k := LastLineIsLast(t[..n]);
      assert t[k..] == t[..n][k..] + [t[n]];
    }
  }

  // ---------------------------------------------------------------- the matcher

  class Matcher {
    const expected: array<Byte>
    var length: nat
    var matched: nat
    var discarded: bool
    var carriageReturn: bool
    ghost var fed: seq<Byte>  // everything matched against so far

    ghost function Marker(): seq<Byte>
      requires length <= expected.Length
      reads this, expected
    {
      expected[..length]
    }

    /** The three fields say how the unfinished line compares with the marker and a CR. */
    ghost predicate Valid()
      reads this, expected
    {
      && expected.Length == CAPACITY
      && length <= CAPACITY
      && IsMarker(Marker())
      && Tracks(Marker(), LastLine(fed), matched, discarded, carriageReturn)
    }

    /** A marker has been set; an unset or corrupt matcher never finds one. */
    predicate Armed()
      reads this
    {
      0 < length < expected.Length
    }

    constructor ()
      ensures expected.Length == CAPACITY && fresh(expected)
    {
      expected := new Byte[CAPACITY];
      length, matched, discarded, carriageReturn, fed := 0, 0, false, false, [];
    }

    /** `JuiceJITAckInit`: accepts exactly printable markers of 1 to 127 bytes. */
    method Init(marker: seq<Byte>) returns (ok: bool)
      requires expected.Length == CAPACITY
      modifies this, expected
      ensures ok <==> IsMarker(marker)
      ensures ok ==> Valid() && Marker() == marker && fed == []
      ensures !ok ==> length == 0
    {
      forall i | 0 <= i < expected.Length { expected[i] := 0; }
      length, matched, discarded, carriageReturn, fed := 0, 0, false, false, [];
      if |marker| == 0 || |marker| >= CAPACITY { return false; }
      var i := 0;
      while i < |marker|
        invariant i <= |marker|
        invariant forall j :: 0 <= j < i ==> 0x20 <= marker[j] <= 0x7E
      {
        if marker[i] < 0x20 || marker[i] > 0x7E {
          assert marker[i] in marker;
          return false;
        }
        i := i + 1;
      }
      forall j | 0 <= j < |marker| { expected[j] := marker[j]; }
      length := |marker|;
      assert expected[..length] == marker;
      return true;
    }

    /**
     `JuiceJITAckFeed`. True exactly when the chunk ends a line that is the marker;
     the matcher then stands after the first such line and the rest of the chunk is
     dropped. Otherwise the whole chunk has been taken in.
     */
    method Feed(chunk: Chunk) returns (found: bool)
      requires Armed() ==> Valid()
      modifies this
      ensures !old(Armed()) ==> !found && unchanged(this)
      ensures old(Armed()) ==> Valid() && Marker() == old(Marker())
      ensures old(Armed()) ==>
              var t := old(fed) + Content(chunk);
              && old(fed) <= fed <= t
              && (forall p :: |old(fed)| <= p < |fed| - 1 ==> !AckAt(t, Marker(), p))
              && (found ==> |old(fed)| < |fed| && AckAt(t, Marker(), |fed| - 1))
              && (!found ==> fed == t && (fed != old(fed) ==> !AckAt(t, Marker(), |fed| - 1)))
    {
      hide AckAt, LastLine;
      if length == 0 || length >= expected.Length { return false; }
      ghost var before, m := fed, Marker();
      ghost var t := fed + Content(chunk);
      if chunk.Null? {
        if chunk.length > 0 {
          Spoil();
        }
        return false;
      }
      assert fed + chunk.bytes[..0] == fed;
      for i := 0 to |chunk.bytes|
        invariant Valid() && Marker() == m
        invariant fed == before + chunk.bytes[..i]
        invariant forall p :: |before| <= p < |fed| ==> !AckAt(t, m, p)
      {
        var complete := Take(chunk.bytes[i]);
        assert fed == before + chunk.bytes[..i + 1] && fed <= t;
        AckInPrefix(t, fed, m, |fed| - 1);
        if complete { return true; }
      }
      assert chunk.bytes[..|chunk.bytes|] == chunk.bytes;
      return false;
    }

    /** A null chunk: the current line is lost. */
    method Spoil()
      requires Valid()
      modifies this
      ensures Valid() && Marker() == old(Marker())
      ensures fed == old(fed) + [0] && !AckAt(fed, Marker(), |fed| - 1)
    {
      discarded, fed := true, fed + [0];
      assert fed[..|fed| - 1] == old(fed);
      SpoiledLine(Marker(), LastLine(old(fed)));
    }

    /** One turn of the loop of `JuiceJITAckFeed`. */
    method Take(c: Byte) returns (complete: bool)
      requires Valid()
      modifies this
      ensures Valid() && Marker() == old(Marker())
      ensures fed == old(fed) + [c]
      ensures complete <==> AckAt(fed, Marker(), |fed| - 1)
    {
      hide LastLine, Tracks, IsMarker;
      ghost var line, m := LastLine(fed), Marker();
      fed := fed + [c];
      LastLineGrows(old(fed), c);
      if c == LF {
        complete := !discarded && matched == length;
        CompleteLine(m, line, matched, discarded, carriageReturn);
        matched := 0;
        discarded, carriageReturn := false, false;
        return;
      }
      ByteTracked(m, line, c, matched, discarded, carriageReturn);
      if !discarded {
        if c == CR && matched == length && !carriageReturn {
          carriageReturn := true;
        } else if !carriageReturn && matched < length && c == expected[matched] {
          matched := matched + 1;
        } else {
          discarded := true;
        }
      }
      return false;
    }

    /** The caller's use of the matcher: feed chunk after chunk until one is acknowledged. */
    method FeedUntilFound(chunks: seq<Chunk>) returns (first: nat)
      requires Valid() && fed == []
      modifies this
      ensures first <= |chunks|
      ensures first == |chunks| ==> forall p :: !AckAt(Stream(chunks), old(Marker()), p)
      ensures first < |chunks| ==>
                && (forall p :: AckAt(Stream(chunks), old(Marker()), p) ==> p >= |Stream(chunks[..first])|)
                && (exists p :: AckAt(Stream(chunks), old(Marker()), p) && p < |Stream(chunks[..first + 1])|)
    {
      ghost var m := Marker();
      first := 0;
      while first < |chunks|
        invariant first <= |chunks|
        invariant Valid() && Marker() == m
        invariant fed == Stream(chunks[..first])
        invariant forall p :: !AckAt(fed, m, p)
      {
        ghost var before := fed;
        assert chunks[..first + 1][..first] == chunks[..first];
        var found := Feed(chunks[first]);
        ghost var t := Stream(chunks[..first + 1]);
        assert t == before + Content(chunks[first]);
        forall p | 0 <= p < |before| ensures !AckAt(t, m, p) { AckInPrefix(t, before, m, p); }
        if found {
          FirstAckStands(chunks, first, m, |fed| - 1);
          return;
        }
        first := first + 1;
      }
      assert chunks[..first] == chunks;
    }
  }

  /** What the matcher remembers of the unfinished line. */
  ghost predicate Tracks(m: seq<Byte>, line: seq<Byte>, matched: nat, discarded: bool, carriageReturn: bool) {
    && (discarded <==> !(line <= m + [CR]))
    && (!discarded ==>
          && matched == (if |line| <= |m| then |line| else |m|)
          && (carriageReturn <==> |line| == |m| + 1))
  }

  lemma CompleteLine(m: seq<Byte>, line: seq<Byte>, matched: nat, discarded: bool, carriageReturn: bool)
    requires Tracks(m, line, matched, discarded, carriageReturn)
    ensures !discarded && matched == |m| <==> line == m || line == m + [CR]
    ensures Tracks(m, [], 0, false, false)
  {
    if !discarded && |line| == |m| { assert line == (m + [CR])[..|line|] == m; }
    if line == m { assert line <= m + [CR]; }
  }

  /** A NUL is no byte of a marker, so the line it lands in cannot be one. */
  lemma SpoiledLine(m: seq<Byte>, line: seq<Byte>)
    requires IsMarker(m)
    ensures !(line + [0] <= m + [CR])
  {
    assert (line + [0])[|line|] == 0;
    assert forall i :: 0 <= i < |m| ==> m[i] in m;
  }

  /** Growing a line keeps it within the marker and a CR only by the next expected byte. */
  lemma OneMoreByte(m: seq<Byte>, line: seq<Byte>, c: Byte)
    requires line <= m + [CR]
    ensures line + [c] <= m + [CR] <==> |line| <= |m| && c == (m + [CR])[|line|]
  {}

  /** How the fields have to change with one more byte of the line. */
  lemma ByteTracked(m: seq<Byte>, line: seq<Byte>, c: Byte, matched: nat, discarded: bool, carriageReturn: bool)
    requires Tracks(m, line, matched, discarded, carriageReturn)
    ensures if discarded then Tracks(m, line + [c], matched, true, carriageReturn)
            else if c == CR && matched == |m| && !carriageReturn then Tracks(m, line + [c], matched, false, true)
            else if !carriageReturn && matched < |m| && c == m[matched] then
              Tracks(m, line + [c], matched + 1, false, carriageReturn)
            else Tracks(m, line + [c], matched, true, carriageReturn)
  {
    if discarded {
      StaysOff(m, line, c);
    } else {
      OneMoreByte(m, line, c);
    }
  }

  lemma StaysOff(m: seq<Byte>, line: seq<Byte>, c: Byte)
    requires !(line <= m + [CR])
    ensures !(line + [c] <= m + [CR])
  {
    assert line <= line + [c];
  }

  lemma {:induction false} StreamPrefix(chunks: seq<Chunk>, n: nat)
    requires n <= |chunks|
    ensures Stream(chunks[..n]) <= Stream(chunks)
    decreases |chunks|
  {
    if n < |chunks| {
      var k := |chunks| - 1;
      StreamPrefix(chunks[..k], n);
      assert chunks[..k][..n] == chunks[..n];
    } else {
      assert chunks[..n] == chunks;
    }
  }

  /** What was found in the chunks so far is the first acknowledgement of the whole stream. */
  lemma FirstAckStands(chunks: seq<Chunk>, first: nat, m: seq<Byte>, p: nat)
    requires first < |chunks|
    requires AckAt(Stream(chunks[..first + 1]), m, p)
    requires forall q :: !AckAt(Stream(chunks[..first]), m, q)
    ensures AckAt(Stream(chunks), m, p) && p < |Stream(chunks[..first + 1])|
    ensures forall q :: AckAt(Stream(chunks), m, q) ==> q >= |Stream(chunks[..first])|
  {
    StreamPrefix(chunks, first);
    StreamPrefix(chunks, first + 1);
    var u := Stream(chunks[..first]);
    AckInPrefix(Stream(chunks), Stream(chunks[..first + 1]), m, p);
    forall q | 0 <= q < |u| ensures !AckAt(Stream(chunks), m, q) { AckInPrefix(Stream(chunks), u, m, q); }
  }
}
