/**
 Exact transfer over a fragmenting kernel: app/JuiceSocketIO.h and app/JuiceIO.c.

 `Kernel` is the adversary. It picks how many bytes each call moves, when a call is
 interrupted or would block, how the clock runs, when cancellation is requested and
 what the peer does meanwhile. The one thing it grants is that a call that moves
 nothing and does not fail takes at least a millisecond.
 */
module StreamIO {
  import opened Bytes

  const SSIZE_MAX: nat := 0x7FFF_FFFF_FFFF_FFFF
  const INT_MAX: nat := 0x7FFF_FFFF
  const POLL_SLICE_MS: nat := 25

  /** Result of one `send`, `write` or `recv`. */
  datatype Call = Moved(count: nat) | Interrupted | WouldBlock | Broken

  datatype Reason = BadArgument | NoClock | TimedOut | Cancelled | PeerClosed | KernelError

  datatype Outcome = Done | Failed(reason: Reason)

  /** Calls that end a transfer: the peer is gone, or the descriptor is broken. */
  ghost function AfterCall(faults: seq<Reason>, r: Call): seq<Reason> {
    if r == Moved(0) then faults + [PeerClosed] else if r == Broken then faults + [KernelError] else faults
  }

  /** With the fault an outcome tells of, if it is one of the kernel's. */
  ghost function AfterOutcome(faults: seq<Reason>, o: Outcome): seq<Reason> {
    if o.Done? || o.reason == BadArgument || o.reason == TimedOut || o.reason == Cancelled then faults
    else faults + [o.reason]
  }

  class Kernel {
    var sent: seq<Byte>            // every byte the stream ever accepted
    var taken: nat                 // how many of them were read out
    ghost var longestPoll: nat
    var clockMS: int
    var cancelled: bool
    ghost var faults: seq<Reason>  // every failure reported so far
    ghost var lateSends: nat       // how many sends began with a cancellation pending
    ghost var latePolls: nat       // and how many polls

    ghost predicate Valid()
      reads `sent, `taken
    {
      taken <= |sent|
    }

    /** What any amount of time may do: the clock runs on, cancellation may be requested. */
    twostate predicate Later()
      reads this
    {
      old(clockMS) <= clockMS && (old(cancelled) ==> cancelled) && old(longestPoll) == longestPoll
    }

    constructor ()
      ensures Valid()
    {
      sent, taken, longestPoll, clockMS, cancelled := [], 0, 0, 0, false;
      faults, lateSends, latePolls := [], 0, 0;
    }

    /** `clock_gettime`; -1 when it fails. */
    method Now() returns (now: int)
      modifies `clockMS, `cancelled, `faults
      ensures old(clockMS) <= clockMS && (old(cancelled) ==> cancelled)
      ensures now == -1 || now == clockMS
      ensures now < 0 <==> faults != old(faults)
      ensures now < 0 ==> faults == old(faults) + [NoClock]
    {
      var t: int :| clockMS <= t && 0 <= t;
      clockMS := t;
      var c: bool :| true;
      cancelled := cancelled || c;
      var fails: bool :| true;
      if fails { faults := faults + [NoClock]; }
      now := if fails then -1 else clockMS;
    }

    method IsCancelled() returns (c: bool)
      ensures c == cancelled
    {
      c := cancelled;
    }

    /** Accept some of `chunk`; the peer may read meanwhile. */
    method Send(chunk: seq<Byte>) returns (r: Call)
      requires Valid() && chunk != []
      modifies this
      ensures Valid() && Later()
      ensures r.Moved? ==> r.count <= |chunk| && sent == old(sent) + chunk[..r.count]
      ensures !r.Moved? ==> sent == old(sent)
      ensures faults == AfterCall(old(faults), r)
      ensures lateSends == old(lateSends) + (if old(cancelled) then 1 else 0) && latePolls == old(latePolls)
      ensures r == Interrupted || r == WouldBlock ==> clockMS > old(clockMS)
    {
      if cancelled { lateSends := lateSends + 1; }
      r := Choose(|chunk|);
      if r.Moved? { sent := sent + chunk[..r.count]; }
      var t: nat :| taken <= t <= |sent|;
      taken := t;
    }

    /** Hand over the next bytes of the stream, at most `room`; the peer may write meanwhile. */
    method Receive(room: nat) returns (r: Call, data: seq<Byte>)
      requires Valid() && room > 0
      modifies this
      ensures Valid() && Later()
      ensures old(sent) <= sent
      ensures r.Moved? ==> |data| == r.count <= room && taken == old(taken) + r.count && data == sent[old(taken)..taken]
      ensures !r.Moved? ==> taken == old(taken)
      ensures faults == AfterCall(old(faults), r)
      ensures r == Interrupted || r == WouldBlock ==> clockMS > old(clockMS)
    {
      var more: seq<Byte> :| true;
      sent := sent + more;
      var available := |sent| - taken;
      r := Choose(if room <= available then room else available);
      data := [];
      if r.Moved? {
        data := sent[taken..taken + r.count];
        taken := taken + r.count;
      }
    }

    /** `poll`; false when the descriptor turns out to be invalid or the call fails. */
    method Poll(timeoutMS: nat) returns (usable: bool)
      requires timeoutMS > 0
      modifies `clockMS, `cancelled, `longestPoll, `faults, `latePolls
      ensures old(clockMS) <= clockMS && (old(cancelled) ==> cancelled)
      ensures longestPoll == if timeoutMS > old(longestPoll) then timeoutMS else old(longestPoll)
      ensures faults == if usable then old(faults) else old(faults) + [KernelError]
      ensures latePolls == old(latePolls) + if old(cancelled) then 1 else 0
    {
      if cancelled { latePolls := latePolls + 1; }
      var t: int :| clockMS <= t;
      clockMS := t;
      var c: bool :| true;
      cancelled := cancelled || c;
      if timeoutMS > longestPoll { longestPoll := timeoutMS; }
      usable :| true;
      if !usable { faults := faults + [KernelError]; }
    }

    method Choose(limit: nat) returns (r: Call)
      modifies `clockMS, `cancelled, `faults
      ensures Later() && faults == AfterCall(old(faults), r)
      ensures r.Moved? ==> r.count <= limit
      ensures r == Interrupted || r == WouldBlock ==> clockMS > old(clockMS)
    {
      var t: int :| clockMS <= t;
      r :| r.Moved? ==> r.count <= limit;
      clockMS := if r == Interrupted || r == WouldBlock then t + 1 else t;
      var c: bool :| true;
      cancelled := cancelled || c;
      faults := AfterCall(faults, r);
    }
  }

  ghost function TimeLeft(deadline: int, clock: int): nat {
    if clock < deadline then deadline - clock else 0
  }

  /** The first `moved` bytes went the right way and nothing else did. */
  ghost predicate Progress(k: Kernel, buffer: array<Byte>, writing: bool, moved: nat,
                           sent: seq<Byte>, taken: nat, was: seq<Byte>)
    reads k`sent, k`taken, buffer
  {
    && k.Valid() && moved <= buffer.Length == |was|
    && (writing ==> k.sent == sent + buffer[..moved] && buffer[..] == was)
    && (!writing ==>
          && k.taken == taken + moved && sent <= k.sent
          && buffer[..moved] == k.sent[taken..k.taken]
          && buffer[moved..] == was[moved..])
  }

  lemma NoProgressYet(k: Kernel, buffer: array<Byte>, writing: bool)
    requires k.Valid()
    ensures Progress(k, buffer, writing, 0, k.sent, k.taken, buffer[..])
  {}

  /**
   `JuiceSocketTransferUntil`. Whatever the kernel does, the bytes moved are the first
   `moved` of the buffer (writing) or the next `moved` of the stream (reading), success
   means all of them, and the loop ends. It fails only after the deadline
   or at the first failure the kernel reports, and never overlooks one.
   */
  method TransferUntil(k: Kernel, buffer: array<Byte>, writing: bool, deadline: int, nonblocking: bool)
    returns (ok: bool, moved: nat)
    requires k.Valid()
    modifies k, buffer
    ensures moved <= buffer.Length
    ensures Progress(k, buffer, writing, moved, old(k.sent), old(k.taken), old(buffer[..]))
    ensures deadline < 0 || !nonblocking ==> !ok && moved == 0 && k.faults == old(k.faults)
    ensures deadline >= 0 && nonblocking ==> (ok <==> moved == buffer.Length)
    ensures ok ==> k.faults == old(k.faults)
    ensures deadline >= 0 && nonblocking && !ok ==>
              || (k.faults == old(k.faults) && k.clockMS >= deadline)
              || (|k.faults| == |old(k.faults)| + 1 && old(k.faults) <= k.faults)
  {
    hide Progress;
    ghost var sent, taken, was := k.sent, k.taken, buffer[..];
    NoProgressYet(k, buffer, writing);
    moved := 0;
    if deadline < 0 { return false, moved; }
    if !nonblocking { return false, moved; }
    while moved < buffer.Length
      invariant moved <= buffer.Length && Progress(k, buffer, writing, moved, sent, taken, was)
      invariant k.faults == old(k.faults)
      decreases buffer.Length - moved + TimeLeft(deadline, k.clockMS)
    {
      var now := k.Now();
      if now < 0 { return false, moved; }
      if now >= deadline { return false, moved; }
      var length := buffer.Length - moved;
      var chunk := if length > SSIZE_MAX then SSIZE_MAX else length;
      var r := Move(k, buffer, writing, moved, chunk, sent, taken, was);
      if r.Moved? && r.count > 0 {
        moved := moved + r.count;
        continue;
      }
      if r.Moved? { return false, moved; }
      if r == Interrupted { continue; }
      if r == Broken { return false, moved; }
      now := k.Now();
      if now < 0 { return false, moved; }
      var remaining := deadline - now;
      if remaining <= 0 { return false, moved; }
      var usable := k.Poll(if remaining > INT_MAX then INT_MAX else remaining);
      if !usable { return false, moved; }
    }
    return true, moved;
  }

  /** One `send` or `recv` at the cursor. */
  method Move(k: Kernel, buffer: array<Byte>, writing: bool, moved: nat, chunk: nat,
              ghost sent: seq<Byte>, ghost taken: nat, ghost was: seq<Byte>)
    returns (r: Call)
    requires Progress(k, buffer, writing, moved, sent, taken, was)
    requires 0 < chunk <= buffer.Length - moved
    modifies k, buffer
    ensures r.Moved? ==> r.count <= chunk
    ensures Progress(k, buffer, writing, moved + (if r.Moved? then r.count else 0), sent, taken, was)
    ensures k.clockMS >= old(k.clockMS) && k.faults == AfterCall(old(k.faults), r)
    ensures r == Interrupted || r == WouldBlock ==> k.clockMS > old(k.clockMS)
  {
    hide AfterCall;
    if writing {
      r := k.Send(buffer[moved..moved + chunk]);
      if r.Moved? { BufferSentMore(sent, buffer, moved, chunk, r.count); }
    } else {
      ghost var before := k.sent;
      var data;
      r, data := k.Receive(chunk);
      ReceivedMore(before, k.sent, taken, moved, if r.Moved? then r.count else 0);
      if r.Moved? {
        Store(buffer, moved, data);
        assert buffer[moved + |data|..] == was[moved..][|data|..];
      }
    }
  }

  lemma SentMore(sent: seq<Byte>, b: seq<Byte>, moved: nat, end: nat, count: nat)
    requires moved + count <= end <= |b|
    ensures (sent + b[..moved]) + b[moved..end][..count] == sent + b[..moved + count]
  {}

  lemma BufferSentMore(sent: seq<Byte>, buffer: array<Byte>, moved: nat, chunk: nat, count: nat)
    requires count <= chunk && moved + chunk <= buffer.Length
    ensures (sent + buffer[..moved]) + buffer[moved..moved + chunk][..count] == sent + buffer[..moved + count]
  {
    assert buffer[..moved] == buffer[..][..moved] && buffer[..moved + count] == buffer[..][..moved + count];
    assert buffer[moved..moved + chunk] == buffer[..][moved..moved + chunk];
    SentMore(sent, buffer[..], moved, moved + chunk, count);
  }

  /** What was read before stays read, and what is read now follows it. */
  lemma ReceivedMore(before: seq<Byte>, now: seq<Byte>, taken: nat, moved: nat, count: nat)
    requires before <= now && taken + moved <= |before| && taken + moved + count <= |now|
    ensures now[taken..taken + moved] == before[taken..taken + moved]
    ensures now[taken..taken + moved + count]
        == before[taken..taken + moved] + now[taken + moved..taken + moved + count]
  {}

  /** `recv` fills the buffer at the cursor. */
  method Store(buffer: array<Byte>, at: nat, data: seq<Byte>)
    requires at + |data| <= buffer.Length
    modifies buffer
    ensures buffer[..at + |data|] == old(buffer[..at]) + data
    ensures buffer[at + |data|..] == old(buffer[at..])[|data|..]
  {
    forall j | 0 <= j < |data| { buffer[at + j] := data[j]; }
  }

  // ---------------------------------------------------------------- both ends at once

  /** Two kernels are the two ends of one stream: neither has seen what the other contradicts. */
  predicate OneStream(writer: seq<Byte>, reader: seq<Byte>) {
    writer <= reader || reader <= writer
  }

  function Min(a: nat, b: nat): nat { if a <= b then a else b }

  /**
   A writing and a reading transfer over one stream, each under a kernel of its own, the
   reader standing where the writer began: however both were fragmented and wherever they
   stopped, the bytes both have moved are the same.
   */
  lemma ExactTransfer(kw: Kernel, a: array<Byte>, m: nat, s0: seq<Byte>, tw: nat, wa: seq<Byte>,
                      kr: Kernel, b: array<Byte>, n: nat, r0: seq<Byte>, wb: seq<Byte>)
    requires Progress(kw, a, true, m, s0, tw, wa) && Progress(kr, b, false, n, r0, |s0|, wb)
    requires OneStream(kw.sent, kr.sent)
    ensures m <= a.Length && n <= b.Length && b[..Min(m, n)] == a[..Min(m, n)] == wa[..Min(m, n)]
  {
    assert kw.sent[|s0|..|s0| + m] == a[..m];
    forall j | 0 <= j < Min(m, n) ensures b[j] == a[j] == wa[j] {
      assert b[..n][j] == kr.sent[|s0| + j] == kw.sent[|s0| + j] == a[..m][j];
      assert a[..][j] == wa[j];
    }
  }

  /** Both ends of a message: when both report success, the receiver holds what the sender had. */
  method Exchange(kw: Kernel, kr: Kernel, a: array<Byte>, b: array<Byte>, deadlineW: int, deadlineR: int)
    returns (sent: bool, received: bool)
    requires kw.Valid() && kr.Valid() && kw != kr && a != b
    requires kr.taken == |kw.sent|
    modifies kw, kr, a, b
    ensures a[..] == old(a[..])
    ensures sent && received && OneStream(kw.sent, kr.sent) && a.Length == b.Length ==> b[..] == a[..]
    ensures sent && received && OneStream(kw.sent, kr.sent) && b.Length <= a.Length ==> b[..] <= a[..]
  {
    ghost var s0, tw, wa, r0, wb := kw.sent, kw.taken, a[..], kr.sent, b[..];
    var m, n;
    sent, m := TransferUntil(kw, a, true, deadlineW, true);
    received, n := TransferUntil(kr, b, false, deadlineR, true);
    if sent && received && OneStream(kw.sent, kr.sent) {
      ExactTransfer(kw, a, m, s0, tw, wa, kr, b, n, r0, wb);
    }
    assert a[..a.Length] == a[..] && b[..b.Length] == b[..];
  }

  /** Exactly the first `moved` bytes were added to the stream. */
  ghost predicate Written(k: Kernel, bytes: seq<Byte>, moved: nat, sent: seq<Byte>)
    reads k`sent, k`taken
  {
    k.Valid() && moved <= |bytes| && k.sent == sent + bytes[..moved]
  }

  lemma NothingWritten(k: Kernel, bytes: seq<Byte>)
    requires k.Valid()
    ensures Written(k, bytes, 0, k.sent)
  {}

  /** One `send` or `write` of what is left. */
  method WriteSome(k: Kernel, bytes: seq<Byte>, moved: nat, ghost sent: seq<Byte>) returns (r: Call)
    requires Written(k, bytes, moved, sent) && moved < |bytes|
    modifies k
    ensures r.Moved? ==> moved + r.count <= |bytes|
    ensures Written(k, bytes, moved + (if r.Moved? then r.count else 0), sent)
    ensures k.Later() && k.faults == AfterCall(old(k.faults), r)
    ensures k.lateSends == old(k.lateSends) + (if old(k.cancelled) then 1 else 0) && k.latePolls == old(k.latePolls)
    ensures r == Interrupted || r == WouldBlock ==> k.clockMS > old(k.clockMS)
  {
    hide AfterCall;
    r := k.Send(bytes[moved..|bytes|]);
    if r.Moved? { SentMore(sent, bytes, moved, |bytes|, r.count); }
  }

  /**
   `JuiceWriteWithDeadline`: as above for writing, in polls of at most 25 ms. Once a
   cancellation is pending at most one send and one poll still begin, and none if it was
   pending from the start.
   */
  method WriteWithDeadline(k: Kernel, bytes: seq<Byte>, timeoutMS: nat, cancellable: bool, nonblocking: bool)
    returns (outcome: Outcome, moved: nat)
    requires k.Valid()
    modifies k
    ensures moved <= |bytes| && Written(k, bytes, moved, old(k.sent))
    ensures outcome == Done ==> moved == |bytes|
    ensures outcome != Done && moved == |bytes| ==>
        bytes == [] && (outcome.reason == BadArgument || outcome.reason == NoClock)
    ensures timeoutMS == 0 || !nonblocking <==> outcome == Failed(BadArgument)
    ensures k.faults == AfterOutcome(old(k.faults), outcome)
    ensures outcome == Failed(Cancelled) ==> cancellable && k.cancelled
    ensures cancellable && old(k.cancelled) && bytes != [] ==> moved == 0 && outcome != Done
    ensures old(k.cancelled) ==> k.cancelled
    ensures cancellable ==>
              && k.lateSends <= old(k.lateSends) + (if old(k.cancelled) then 0 else 1)
              && k.latePolls <= old(k.latePolls) + (if old(k.cancelled) then 0 else 1)
    ensures outcome == Failed(TimedOut) ==> k.clockMS >= old(k.clockMS) + timeoutMS
    ensures k.longestPoll <= old(k.longestPoll) || k.longestPoll <= POLL_SLICE_MS
  {
    hide Written;
    NothingWritten(k, bytes);
    moved := 0;
    if timeoutMS == 0 { return Failed(BadArgument), moved; }
    if !nonblocking { return Failed(BadArgument), moved; }
    var start := k.Now();
    if start < 0 { return Failed(NoClock), moved; }
    var deadline := start + timeoutMS;
    while moved < |bytes|
      invariant moved <= |bytes| && Written(k, bytes, moved, old(k.sent))
      invariant old(k.cancelled) ==> k.cancelled
      invariant k.faults == old(k.faults)
      invariant cancellable && old(k.cancelled) ==> moved == 0
      invariant cancellable ==> k.lateSends <= old(k.lateSends) + if k.cancelled && !old(k.cancelled) then 1 else 0
      invariant cancellable ==> k.latePolls <= old(k.latePolls) + if k.cancelled && !old(k.cancelled) then 1 else 0
      invariant k.longestPoll <= old(k.longestPoll) || k.longestPoll <= POLL_SLICE_MS
      decreases |bytes| - moved + TimeLeft(deadline, k.clockMS)
    {
      var count;
      outcome, count := WriteTurn(k, bytes, moved, deadline, cancellable, old(k.sent));
      if outcome != Done { return outcome, moved; }
      moved := moved + count;
    }
    return Done, moved;
  }

  /** One turn of its loop; the outcome `Done` asks for the next. */
  method WriteTurn(k: Kernel, bytes: seq<Byte>, moved: nat, deadline: int, cancellable: bool, ghost sent: seq<Byte>)
    returns (outcome: Outcome, count: nat)
    requires Written(k, bytes, moved, sent) && moved < |bytes|
    modifies k
    ensures moved + count <= |bytes| && Written(k, bytes, moved + count, sent)
    ensures k.clockMS >= old(k.clockMS) && (old(k.cancelled) ==> k.cancelled)
    ensures k.faults == AfterOutcome(old(k.faults), outcome)
    ensures outcome != Done ==> count == 0 && outcome != Failed(BadArgument)
    ensures outcome == Done ==> count > 0 || TimeLeft(deadline, k.clockMS) < TimeLeft(deadline, old(k.clockMS))
    ensures outcome == Failed(TimedOut) ==> k.clockMS >= deadline
    ensures outcome == Failed(Cancelled) ==> cancellable && k.cancelled
    ensures cancellable && old(k.cancelled) ==>
              outcome == Failed(Cancelled) && k.lateSends == old(k.lateSends) && k.latePolls == old(k.latePolls)
    ensures k.lateSends == old(k.lateSends) || (k.cancelled && k.lateSends == old(k.lateSends) + 1)
    ensures k.latePolls == old(k.latePolls) || (k.cancelled && k.latePolls == old(k.latePolls) + 1)
    ensures k.longestPoll <= old(k.longestPoll) || k.longestPoll <= POLL_SLICE_MS
  {
    hide Written;
    count := 0;
    var c := k.IsCancelled();
    if cancellable && c { return Failed(Cancelled), count; }
    var now := k.Now();
    if now < 0 { return Failed(NoClock), count; }
    if now >= deadline { return Failed(TimedOut), count; }
    var r := WriteSome(k, bytes, moved, sent);
    if r.Moved? && r.count > 0 { return Done, r.count; }
    if r.Moved? { return Failed(PeerClosed), count; }
    if r == Interrupted { return Done, count; }
    if r == Broken { return Failed(KernelError), count; }
    outcome := AwaitRoom(k, deadline);
  }

  /** The wait for room in the stream, in one short poll. */
  method AwaitRoom(k: Kernel, deadline: int) returns (outcome: Outcome)
    modifies k`clockMS, k`cancelled, k`longestPoll, k`faults, k`latePolls
    ensures outcome == Done || outcome == Failed(NoClock) || outcome == Failed(TimedOut)
        || outcome == Failed(KernelError)
    ensures k.clockMS >= old(k.clockMS) && (old(k.cancelled) ==> k.cancelled)
    ensures outcome == Failed(TimedOut) ==> k.clockMS >= deadline
    ensures k.faults == AfterOutcome(old(k.faults), outcome)
    ensures k.longestPoll <= old(k.longestPoll) || k.longestPoll <= POLL_SLICE_MS
    ensures k.latePolls == old(k.latePolls) || (k.cancelled && k.latePolls == old(k.latePolls) + 1)
  {
    var now := k.Now();
    if now < 0 { return Failed(NoClock); }
    var remaining := deadline - now;
    if remaining <= 0 { return Failed(TimedOut); }
    var usable := k.Poll(if remaining < POLL_SLICE_MS then remaining else POLL_SLICE_MS);
    return if usable then Done else Failed(KernelError);
  }
}
