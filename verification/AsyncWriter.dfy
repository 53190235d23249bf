/**
 The ordered writer of app/JuiceAsyncWriter.m: packets are accepted into a bounded queue
 and written one after another, each under its own deadline, by `JuiceWriteWithDeadline`.
 The kernel of StreamIO.dfy is the other side; its `cancelled` is the writer's flag, which
 another thread may set at any time.
 */
module AsyncWriter {
  import opened Bytes
  import opened StreamIO

  const GLOBAL_BYTES: nat := 8 * 1024 * 1024
  const MAX_PACKETS: nat := 512
  const WRITE_TIMEOUT_MS: nat := 2000

  /** `JuiceBufferedBytes`, shared by all writers. */
  class Budget {
    var total: nat

    constructor ()
      ensures total == 0
    {
      total := 0;
    }

    /** `JuiceReserveBytes`. */
    method Reserve(length: nat) returns (ok: bool)
      modifies this
      ensures ok <==> old(total) + length <= GLOBAL_BYTES
      ensures total == if ok then old(total) + length else old(total)
    {
      if length > GLOBAL_BYTES || total > GLOBAL_BYTES - length { return false; }
      total := total + length;
      return true;
    }
  }

  datatype Job = Job(packet: seq<Byte>, deadline: int)

  function Packets(queue: seq<Job>): seq<seq<Byte>> {
    seq(|queue|, i requires 0 <= i < |queue| => queue[i].packet)
  }

  // ---------------------------------------------------------------- what is on the wire

  /**
   Of the packets accepted, the first `ran` were tried. The stream holds the first
   `written` of them whole and in order, then at most a proper prefix of the next one;
   that prefix is there only once the writer is cancelled.
   */
  ghost predicate Framed(sent: seq<Byte>, start: seq<Byte>, accepted: seq<seq<Byte>>, ran: nat, written: nat,
                         partial: seq<Byte>, cancelled: bool)
  {
    && written <= ran <= |accepted|
    && sent == start + (Concat(accepted[..written]) + partial)
    && (written == ran ==> partial == [])
    && (written < ran ==> cancelled && partial < accepted[written])
  }

  ghost predicate AllFilled(packets: seq<seq<Byte>>) {
    forall i :: 0 <= i < |packets| ==> packets[i] != []
  }

  lemma FramedMore(sent: seq<Byte>, start: seq<Byte>, accepted: seq<seq<Byte>>, ran: nat, written: nat,
                   partial: seq<Byte>, cancelled: bool, packet: seq<Byte>)
    requires Framed(sent, start, accepted, ran, written, partial, cancelled)
    ensures Framed(sent, start, accepted + [packet], ran, written, partial, cancelled)
  {
    hide Concat;
    assert (accepted + [packet])[..written] == accepted[..written];
  }

  lemma PacketWritten(sent: seq<Byte>, start: seq<Byte>, accepted: seq<seq<Byte>>, ran: nat)
    requires ran < |accepted| && Framed(sent, start, accepted, ran, ran, [], false)
    ensures Framed(sent + accepted[ran], start, accepted, ran + 1, ran + 1, [], false)
  {
    ConcatSnoc(accepted[..ran], accepted[ran]);
    hide Concat;
    assert accepted[..ran + 1] == accepted[..ran] + [accepted[ran]];
    assert sent + accepted[ran] == start + ((Concat(accepted[..ran]) + accepted[ran]) + []);
  }

  lemma PacketFailed(sent: seq<Byte>, start: seq<Byte>, accepted: seq<seq<Byte>>, ran: nat, written: nat,
                     partial: seq<Byte>, cancelled: bool, moved: nat)
    requires ran < |accepted| && Framed(sent, start, accepted, ran, written, partial, cancelled)
    requires moved < |accepted[ran]| && (cancelled ==> moved == 0)
    ensures Framed(sent + accepted[ran][..moved], start, accepted, ran + 1, written,
                   if written == ran then accepted[ran][..moved] else partial, true)
    ensures written <= ran
  {
    hide Concat;
    if written == ran {
      assert sent + accepted[ran][..moved] == start + (Concat(accepted[..written]) + accepted[ran][..moved]);
    } else {
      assert sent + accepted[ran][..moved] == sent;
    }
  }

  // ---------------------------------------------------------------- the writer

  class Writer {
    const k: Kernel
    const budget: Budget
    const limit: nat
    const socket: bool
    var queue: seq<Job>
    var queuedBytes: nat
    var queuedPackets: nat
    var shutDown: bool
    ghost const start: seq<Byte>
    ghost var accepted: seq<seq<Byte>>
    ghost var written: nat
    ghost var partial: seq<Byte>

    ghost function Ran(): int
      reads `queue, `accepted
    {
      |accepted| - |queue|
    }

    /** The queue holds the packets not tried yet, and the accounts agree with it. */
    ghost predicate Accounts()
      reads `queue, `queuedBytes, `queuedPackets, `accepted, budget
    {
      && Ran() >= 0 && accepted[Ran()..] == Packets(queue) && AllFilled(accepted)
      && queuedPackets == |queue| <= MAX_PACKETS
      && queuedBytes == |Concat(Packets(queue))| <= limit
      && queuedBytes <= budget.total <= GLOBAL_BYTES
    }

    /** The accounts are right and the stream is framed. */
    ghost predicate Valid()
      reads this, k, budget
    {
      && k.Valid() && Accounts() && Ran() >= 0
      && Framed(k.sent, start, accepted, Ran(), written, partial, k.cancelled)
    }

    constructor (k: Kernel, budget: Budget, limit: nat, socket: bool)
      requires k.Valid() && budget.total <= GLOBAL_BYTES
      ensures Valid() && this.k == k && this.budget == budget && this.limit == limit && this.socket == socket
      ensures start == k.sent && accepted == [] && queue == [] && written == 0
    {
      this.k, this.budget, this.limit, this.socket := k, budget, limit, socket;
      queue, queuedBytes, queuedPackets, shutDown := [], 0, 0, false;
      start, accepted, written, partial := k.sent, [], 0, [];
      new;
      assert k.sent == k.sent + (Concat(accepted[..0]) + []);
    }

    /**
     `enqueueData:`: accepted exactly when the writer is not cancelled and the packet fits
     the queue, its limit and what all writers together may hold.
     */
    method Enqueue(data: seq<Byte>) returns (ok: bool)
      requires Valid()
      modifies this`queue, this`queuedBytes, this`queuedPackets, this`accepted, k`clockMS, k`cancelled, k`faults, budget
      ensures Valid() && k.sent == old(k.sent)
      ensures data == [] ==> ok && accepted == old(accepted)
      ensures data != [] ==> accepted == if ok then old(accepted) + [data] else old(accepted)
      ensures data != [] && ok ==>
                && !k.cancelled && k.faults == old(k.faults) && old(queuedBytes) + |data| <= limit
                && old(queuedPackets) < MAX_PACKETS && old(budget.total) + |data| <= GLOBAL_BYTES
      ensures data != [] && !ok ==>
                || k.faults != old(k.faults) || k.cancelled || old(queuedBytes) + |data| > limit
                || old(queuedPackets) >= MAX_PACKETS || old(budget.total) + |data| > GLOBAL_BYTES
      ensures budget.total - queuedBytes == old(budget.total) - old(queuedBytes)
    {
      hide Framed, AllFilled;
      if |data| == 0 { return true; }
      var now := k.Now();
      KeptWhenCancelled(k.sent, start, accepted, Ran(), written, partial, old(k.cancelled), k.cancelled);
      if now < 0 { return false; }
      var deadline := now + WRITE_TIMEOUT_MS;
      if k.cancelled { return false; }
      if |data| > limit || queuedBytes > limit - |data| || queuedPackets >= MAX_PACKETS { return false; }
      var reserved := budget.Reserve(|data|);
      if !reserved { return false; }
      FramedMore(k.sent, start, accepted, Ran(), written, partial, k.cancelled, data);
      QueueGrows(accepted, queue, Ran(), Job(data, deadline));
      hide Packets, Concat;
      queue, accepted := queue + [Job(data, deadline)], accepted + [data];
      queuedBytes, queuedPackets := queuedBytes + |data|, queuedPackets + 1;
      return true;
    }

    /**
     The block a packet is dispatched with: it runs alone and in order. Time spent in the
     queue counts against the deadline. A packet that fails cancels the writer, and
     nothing reaches the stream after that. It shuts the socket down exactly when nobody
     had cancelled the writer before the failure was handled (`raced`).
     */
    method RunJob() returns (failed: bool, ghost raced: bool)
      requires Valid() && queue != []
      modifies this, k, budget
      ensures Valid() && accepted == old(accepted) && queue == old(queue)[1..]
      ensures budget.total - queuedBytes == old(budget.total) - old(queuedBytes)
      ensures old(k.cancelled) ==> failed && raced && k.sent == old(k.sent)
      ensures failed ==> k.cancelled && written == old(written) < Ran()
      ensures !failed ==> written == old(written) + 1 && k.sent == old(k.sent) + old(queue)[0].packet
      ensures raced ==> k.cancelled
      ensures shutDown == (old(shutDown) || (socket && failed && !raced))
      ensures failed && !raced ==> k.clockMS >= old(queue)[0].deadline || k.faults != old(k.faults)
    {
      hide Framed, Accounts;
      failed := Attempt();
      raced := k.cancelled;
      if failed && !k.cancelled {
        k.cancelled := true;
        if socket { shutDown := true; }
      }
      Retire();
    }

    /** Write the packet at the head of the queue. */
    method Attempt() returns (failed: bool)
      requires Valid() && queue != []
      modifies `written, `partial, k
      ensures k.Valid() && Accounts() && Ran() >= 0
      ensures Framed(k.sent, start, accepted, Ran() + 1, written, partial, k.cancelled || failed)
      ensures old(k.cancelled) ==> failed && k.cancelled && k.sent == old(k.sent)
      ensures failed ==> written == old(written) <= Ran()
      ensures !failed ==> written == old(written) + 1 && k.sent == old(k.sent) + queue[0].packet
      ensures failed && !k.cancelled ==> k.clockMS >= queue[0].deadline || k.faults != old(k.faults)
    {
      ghost var ran := Ran();
      JobIsNext(accepted, queue, ran);
      hide Framed, Concat, Packets, AllFilled, Accounts;
      var job := queue[0];
      ghost var sent, before := k.sent, k.cancelled;
      ghost var moved;
      failed, moved := WriteJob(k, job);
      if failed {
        PacketFailed(sent, start, accepted, ran, written, partial, before, moved);
        if written == ran { partial := job.packet[..moved]; }
        assert moved == 0 ==> sent + job.packet[..moved] == sent;
      } else {
        NotCancelled(sent, start, accepted, ran, written, partial, before);
        PacketWritten(sent, start, accepted, ran);
        assert job.packet[..moved] == job.packet;
        KeptWhenCancelled(k.sent, start, accepted, ran + 1, ran + 1, [], false, k.cancelled);
        written := written + 1;
      }
    }

    /** The job leaves the queue and the accounts. */
    method Retire()
      requires Accounts() && queue != []
      modifies `queue, `queuedBytes, `queuedPackets, budget
      ensures Accounts() && queue == old(queue)[1..] && Ran() == old(Ran()) + 1
      ensures budget.total - queuedBytes == old(budget.total) - old(queuedBytes)
    {
      var job := queue[0];
      JobIsNext(accepted, queue, Ran());
      hide Concat, Packets;
      queue := queue[1..];
      queuedBytes, queuedPackets := queuedBytes - |job.packet|, queuedPackets - 1;
      budget.total := budget.total - |job.packet|;
    }

    /** `cancel`. */
    method Cancel()
      requires Valid()
      modifies k`cancelled
      ensures Valid() && k.cancelled
    {
      k.cancelled := true;
    }
  }

  /** Write one packet in what is left of its time. */
  method WriteJob(k: Kernel, job: Job) returns (failed: bool, ghost moved: nat)
    requires k.Valid() && job.packet != []
    modifies k
    ensures k.Valid() && moved <= |job.packet| && k.sent == old(k.sent) + job.packet[..moved]
    ensures failed <==> moved < |job.packet|
    ensures old(k.cancelled) ==> failed && moved == 0 && k.cancelled
    ensures failed && !k.cancelled ==> k.clockMS >= job.deadline || k.faults != old(k.faults)
  {
    failed, moved := true, 0;
    var current := k.Now();
    var remaining := job.deadline - current;
    if current >= 0 && remaining > 0 {
      var outcome;
      outcome, moved := WriteWithDeadline(k, job.packet, remaining, true, true);
      failed := outcome != Done;
    }
  }

  lemma KeptWhenCancelled(sent: seq<Byte>, start: seq<Byte>, accepted: seq<seq<Byte>>, ran: int, written: nat,
                          partial: seq<Byte>, before: bool, after: bool)
    requires ran >= 0 && Framed(sent, start, accepted, ran, written, partial, before) && (before ==> after)
    ensures Framed(sent, start, accepted, ran, written, partial, after)
  {}

  /** A packet is written whole only while nothing failed before it. */
  lemma NotCancelled(sent: seq<Byte>, start: seq<Byte>, accepted: seq<seq<Byte>>, ran: nat, written: nat,
                     partial: seq<Byte>, cancelled: bool)
    requires Framed(sent, start, accepted, ran, written, partial, cancelled) && !cancelled
    ensures written == ran && partial == [] && Framed(sent, start, accepted, ran, ran, [], false)
  {}

  lemma JobIsNext(accepted: seq<seq<Byte>>, queue: seq<Job>, ran: nat)
    requires queue != [] && ran + |queue| == |accepted| && accepted[ran..] == Packets(queue) && AllFilled(accepted)
    ensures accepted[ran] == queue[0].packet != []
    ensures accepted[ran + 1..] == Packets(queue[1..])
    ensures |Concat(Packets(queue))| == |queue[0].packet| + |Concat(Packets(queue[1..]))|
  {
    assert Packets(queue)[1..] == Packets(queue[1..]);
    assert accepted[ran] == accepted[ran..][0];
    assert accepted[ran + 1..] == accepted[ran..][1..];
  }

  lemma QueueGrows(accepted: seq<seq<Byte>>, queue: seq<Job>, ran: nat, job: Job)
    requires ran + |queue| == |accepted| && accepted[ran..] == Packets(queue) && AllFilled(accepted) && job.packet != []
    ensures AllFilled(accepted + [job.packet]) && (accepted + [job.packet])[ran..] == Packets(queue + [job])
    ensures |Concat(Packets(queue + [job]))| == |Concat(Packets(queue))| + |job.packet|
  {
    ConcatSnoc(Packets(queue), job.packet);
    assert Packets(queue + [job]) == Packets(queue) + [job.packet];
  }

  // ---------------------------------------------------------------- the other end

  lemma {:induction false} FramesBefore(packets: seq<seq<Byte>>, i: nat, j: nat)
    requires i <= j <= |packets|
    ensures |Concat(packets[..i])| <= |Concat(packets[..j])|
    ensures i < j ==> |Concat(packets[..i])| + |packets[i]| <= |Concat(packets[..j])|
  {
    if i < j {
      assert packets[..j] == packets[..j - 1] + [packets[j - 1]];
      ConcatSnoc(packets[..j - 1], packets[j - 1]);
      FramesBefore(packets, i, j - 1);
    }
  }

  /** Packet `i` of those written whole, where it stands in the stream. */
  lemma FrameInStream(sent: seq<Byte>, start: seq<Byte>, accepted: seq<seq<Byte>>, ran: nat, written: nat,
                      partial: seq<Byte>, cancelled: bool, i: nat)
    requires Framed(sent, start, accepted, ran, written, partial, cancelled) && i < written
    ensures var at := |start| + |Concat(accepted[..i])|;
            at + |accepted[i]| <= |sent| && sent[at..at + |accepted[i]|] == accepted[i]
  {
    var rest := accepted[i + 1..written];
    ConcatJoin(accepted[..i] + [accepted[i]], rest);
    ConcatSnoc(accepted[..i], accepted[i]);
    hide Concat;
    assert accepted[..written] == accepted[..i] + [accepted[i]] + rest;
    SliceAfter(start, Concat(accepted[..i]), accepted[i], Concat(rest), partial);
  }

  lemma SliceAfter(s: seq<Byte>, a: seq<Byte>, b: seq<Byte>, c: seq<Byte>, d: seq<Byte>)
    ensures var all := s + (((a + b) + c) + d);
            var at := |s| + |a|;
            at + |b| <= |all| && all[at..at + |b|] == b
  {}

  /**
   Whoever reads the stream frame by frame, under a kernel of its own, gets the accepted
   packets: a read of the length of packet `i` that starts where packet `i` starts and
   succeeds has got that packet, which was written whole, and ends where the next starts.
   No read ever succeeds on a packet that was cut short.
   */
  lemma FrameArrives(sent: seq<Byte>, start: seq<Byte>, accepted: seq<seq<Byte>>, ran: nat, written: nat,
                     partial: seq<Byte>, cancelled: bool, i: nat,
                     kr: Kernel, b: array<Byte>, r0: seq<Byte>, was: seq<Byte>)
    requires Framed(sent, start, accepted, ran, written, partial, cancelled) && AllFilled(accepted)
    requires i < |accepted| && b.Length == |accepted[i]| && kr.sent <= sent
    requires Progress(kr, b, false, b.Length, r0, |start| + |Concat(accepted[..i])|, was)
    ensures i < written && b[..] == accepted[i]
    ensures kr.taken == |start| + |Concat(accepted[..i + 1])|
  {
    ConcatSnoc(accepted[..i], accepted[i]);
    assert accepted[..i + 1] == accepted[..i] + [accepted[i]];
    NotReadPastTheEnd(sent, start, accepted, ran, written, partial, cancelled, i);
    hide Concat;
    FrameInStream(sent, start, accepted, ran, written, partial, cancelled, i);
    hide Framed;
    assert b[..b.Length] == b[..];
    var at := |start| + |Concat(accepted[..i])|;
    assert kr.sent[at..at + b.Length] == sent[at..at + b.Length];
  }

  lemma NotReadPastTheEnd(sent: seq<Byte>, start: seq<Byte>, accepted: seq<seq<Byte>>, ran: nat, written: nat,
                          partial: seq<Byte>, cancelled: bool, i: nat)
    requires Framed(sent, start, accepted, ran, written, partial, cancelled) && AllFilled(accepted)
    requires i < |accepted| && |start| + |Concat(accepted[..i])| + |accepted[i]| <= |sent|
    ensures i < written
  {
    hide Concat;
    if written <= i { FramesBefore(accepted, written, i); }
  }
}
