/**
 The JIT hand-off protocol of app/JuiceJITState.h.

 The code keeps one phase; the reference is the history itself. The theorems say,
 for every run whatever its length, at which step the hand-off is ready, at which
 step the child is resumed or stopped, and that nothing else ever happens.
 */
module JitState {
  datatype Phase =
    | Opening | Attaching | Starting | Ready | Cancelled | Failed
    | OpeningAuthorized | Authorized | BadPhase(code: int)

  datatype Event = Tick | OpenAccepted | OpenRejected | Debugged | RuntimeAck | Cancel | BadEvent(code: int)

  datatype Action = NoAction | Resume | Stop

  /** One delivery: the event, the clock, and what the coordinator knows then. */
  datatype Delivery = Delivery(event: Event, nowMS: nat, ownsChild: bool, foreground: bool)

  datatype State = State(phase: Phase, deadlineMS: nat, runtimeAcknowledged: bool)

  /** `JuiceJITPending`. */
  predicate Pending(phase: Phase) {
    match phase
    case Opening | Attaching | Starting | OpeningAuthorized | Authorized => true
    case _ => false
  }

  // ---------------------------------------------------------------- the transition

  /** The session state updated by `JuiceJITTransition`. */
  class Session {
    var phase: Phase
    var deadlineMS: nat
    var runtimeAcknowledged: bool

    function Value(): State
      reads this
    {
      State(phase, deadlineMS, runtimeAcknowledged)
    }

    constructor (deadline: nat)
      ensures Value() == Fresh(deadline)
    {
      phase, deadlineMS, runtimeAcknowledged := Opening, deadline, false;
    }

    method Transition(d: Delivery) returns (action: Action)
      modifies this
      ensures Value() == Next(old(Value()), d)
      ensures action == ActionOf(old(Value()), d)
    {
      if phase == Ready || phase == Cancelled || phase == Failed { return NoAction; }
      if !d.ownsChild || d.event == Cancel {
        phase := Cancelled;
        return NoAction;
      }
      if !Pending(phase) || d.event.BadEvent? || d.nowMS >= deadlineMS || d.event == OpenRejected {
        phase := Failed;
        return Stop;
      }

      if d.event == RuntimeAck { runtimeAcknowledged := true; }
      if d.event == OpenAccepted {
        if phase == Opening { phase := Attaching; }
        else if phase == OpeningAuthorized { phase := Authorized; }
      }
      if d.event == Debugged {
        if phase == Opening { phase := OpeningAuthorized; }
        else if phase == Attaching { phase := Authorized; }
      }

      if !d.foreground { return NoAction; }
      if phase == Authorized || phase == Starting {
        if runtimeAcknowledged { phase := Ready; }
        else if phase == Authorized {
          phase := Starting;
          return Resume;
        }
      }
      return NoAction;
    }

    /** `JuiceJITEventReceived`: a resume whose signal cannot be sent fails the session. */
    method Receive(d: Delivery, signalled: bool) returns (action: Action)
      modifies this
      ensures Value() == NextWith(old(Value()), d, signalled)
      ensures action == ActionWith(old(Value()), d, signalled)
    {
      action := Transition(d);
      if action == Resume && !signalled {
        phase := Failed;
        action := Stop;
      }
    }

    /** Receive a whole run; `signals` tells which signals could be sent. */
    method Deliver(run: seq<Delivery>, signals: seq<bool>) returns (actions: seq<Action>)
      requires |signals| == |run|
      modifies this
      ensures Value() == AfterWith(old(Value()), run, signals)
      ensures actions == ActionsWith(old(Value()), run, signals)
    {
      hide NextWith, ActionWith;
      actions := [];
      for n := 0 to |run|
        invariant Value() == AfterWith(old(Value()), run[..n], signals[..n])
        invariant actions == ActionsWith(old(Value()), run[..n], signals[..n])
      {
        assert run[..n + 1][..n] == run[..n] && signals[..n + 1][..n] == signals[..n];
        var action := Receive(run[n], signals[n]);
        actions := actions + [action];
      }
      assert run[..|run|] == run && signals[..|signals|] == signals;
    }
  }

  // ---------------------------------------------------------------- the simple form

  /**
   What a pending phase stands for: which observations have been made and whether
   the child was resumed. `Next` and `ActionOf` state a step in these terms.
   */
  predicate Opened(p: Phase) { p == Attaching || p == Authorized || p == Starting }

  predicate Attached(p: Phase) { p == OpeningAuthorized || p == Authorized || p == Starting }

  function PhaseOf(accepted: bool, attached: bool, resumed: bool): Phase {
    if accepted && attached then (if resumed then Starting else Authorized)
    else if accepted then Attaching
    else if attached then OpeningAuthorized
    else Opening
  }

  function Fresh(deadline: nat): State {
    State(Opening, deadline, false)
  }

  /** The step withdraws the child or cancels: the session ends without a signal. */
  predicate Revokes(d: Delivery) {
    !d.ownsChild || d.event == Cancel
  }

  /** The step ends an owned session with an error. */
  predicate Breaks(d: Delivery, deadline: nat) {
    d.event.BadEvent? || d.nowMS >= deadline || d.event == OpenRejected
  }

  predicate Sound(d: Delivery, deadline: nat) {
    !Revokes(d) && !Breaks(d, deadline)
  }

  function Next(s: State, d: Delivery): State {
    if s.phase in {Ready, Cancelled, Failed} then s
    else if Revokes(d) then s.(phase := Cancelled)
    else if !Pending(s.phase) || Breaks(d, s.deadlineMS) then s.(phase := Failed)
    else
      var accepted := Opened(s.phase) || d.event == OpenAccepted;
      var attached := Attached(s.phase) || d.event == Debugged;
      var acked := s.runtimeAcknowledged || d.event == RuntimeAck;
      var go := d.foreground && accepted && attached;
      State(if go && acked then Ready else PhaseOf(accepted, attached, s.phase == Starting || go),
            s.deadlineMS, acked)
  }

  function ActionOf(s: State, d: Delivery): Action {
    if s.phase in {Ready, Cancelled, Failed} || Revokes(d) then NoAction
    else if Next(s, d).phase == Failed then Stop
    else if Next(s, d).phase == Starting && s.phase != Starting then Resume
    else NoAction
  }

  function After(s: State, run: seq<Delivery>): State {
    if run == [] then s else Next(After(s, run[..|run| - 1]), run[|run| - 1])
  }

  function Actions(s: State, run: seq<Delivery>): (actions: seq<Action>)
    ensures |actions| == |run|
  {
    if run == [] then []
    else
      var n := |run| - 1;
      Actions(s, run[..n]) + [ActionOf(After(s, run[..n]), run[n])]
  }

  // ---------------------------------------------------------------- with signals that may fail

  function NextWith(s: State, d: Delivery, signalled: bool): State {
    if ActionOf(s, d) == Resume && !signalled then Next(s, d).(phase := Failed) else Next(s, d)
  }

  function ActionWith(s: State, d: Delivery, signalled: bool): Action {
    if ActionOf(s, d) == Resume && !signalled then Stop else ActionOf(s, d)
  }

  function AfterWith(s: State, run: seq<Delivery>, signals: seq<bool>): State
    requires |signals| == |run|
  {
    if run == [] then s
    else
      var n := |run| - 1;
      NextWith(AfterWith(s, run[..n], signals[..n]), run[n], signals[n])
  }

  function ActionsWith(s: State, run: seq<Delivery>, signals: seq<bool>): (actions: seq<Action>)
    requires |signals| == |run|
    ensures |actions| == |run|
  {
    if run == [] then []
    else
      var n := |run| - 1;
      ActionsWith(s, run[..n], signals[..n]) + [ActionWith(AfterWith(s, run[..n], signals[..n]), run[n], signals[n])]
  }

  /** As long as no resume failed, signals make no difference. */
  lemma {:induction false} SignalsSent(s: State, run: seq<Delivery>, signals: seq<bool>)
    requires |signals| == |run|
    requires forall k :: 0 <= k < |run| && Actions(s, run)[k] == Resume ==> signals[k]
    ensures AfterWith(s, run, signals) == After(s, run) && ActionsWith(s, run, signals) == Actions(s, run)
  {
    hide Next, ActionOf;
    if run != [] {
      var n := |run| - 1;
      assert forall k :: 0 <= k < n ==> Actions(s, run)[k] == Actions(s, run[..n])[k];
      assert Actions(s, run)[n] == ActionOf(After(s, run[..n]), run[n]);
      SignalsSent(s, run[..n], signals[..n]);
    }
  }

  /**
   When the resume at step `k` cannot be signalled the session fails there for good: the
   run does what it would have done up to `k`, stops the child at `k`, and then nothing.
   */
  lemma {:induction false} SignalFailed(run: seq<Delivery>, signals: seq<bool>, deadline: nat, k: nat)
    requires |signals| == |run| && k < |run|
    requires Actions(Fresh(deadline), run)[k] == Resume && !signals[k]
    ensures AfterWith(Fresh(deadline), run, signals).phase == Failed
    ensures var acts := ActionsWith(Fresh(deadline), run, signals);
            && acts[..k] == Actions(Fresh(deadline), run)[..k] && acts[k] == Stop
            && forall j :: k < j < |run| ==> acts[j] == NoAction
    decreases |run|
  {
    hide Next, ActionOf;
    var s, n := Fresh(deadline), |run| - 1;
    ActionAt(s, run, k);
    if k < n {
      ActionAt(s, run[..n], k);
      assert run[..n][..k] == run[..k];
      SignalFailed(run[..n], signals[..n], deadline, k);
      FailedStays(AfterWith(s, run[..n], signals[..n]), run[n], signals[n]);
      assert Actions(s, run)[..k] == Actions(s, run[..n])[..k];
    } else {
      forall j | 0 <= j < n ensures Actions(s, run[..n])[j] != Resume {
        ActionsPrefix(s, run, n, j);
        ActionExactly(run, j, deadline);
        ActionExactly(run, n, deadline);
      }
      SignalsSent(s, run[..n], signals[..n]);
      assert Actions(s, run)[..n] == Actions(s, run[..n]);
    }
  }

  lemma FailedStays(s: State, d: Delivery, signalled: bool)
    requires s.phase == Failed
    ensures NextWith(s, d, signalled).phase == Failed && ActionWith(s, d, signalled) == NoAction
  {}

  lemma ActionsPrefix(s: State, run: seq<Delivery>, n: nat, j: nat)
    requires j < n <= |run|
    ensures Actions(s, run[..n])[j] == Actions(s, run)[j]
  {
    ActionAt(s, run, j);
    ActionAt(s, run[..n], j);
    assert run[..n][..j] == run[..j];
  }

  /** With failing signals too, a session is ready exactly when it would have been and no resume failed. */
  lemma ReadyWithSignals(run: seq<Delivery>, signals: seq<bool>, deadline: nat)
    requires |signals| == |run|
    ensures AfterWith(Fresh(deadline), run, signals).phase == Ready <==>
              && After(Fresh(deadline), run).phase == Ready
              && forall k :: 0 <= k < |run| && Actions(Fresh(deadline), run)[k] == Resume ==> signals[k]
  {
    hide After, AfterWith, Actions, ActionsWith;
    if k :| 0 <= k < |run| && Actions(Fresh(deadline), run)[k] == Resume && !signals[k] {
      SignalFailed(run, signals, deadline, k);
    } else {
      SignalsSent(Fresh(deadline), run, signals);
    }
  }

  // ---------------------------------------------------------------- runs, read off their history

  /** One of the first `n` deliveries was `e`. */
  ghost predicate Seen(run: seq<Delivery>, n: nat, e: Event)
    requires n <= |run|
  {
    exists i :: 0 <= i < n && run[i].event == e
  }

  ghost predicate AllSound(run: seq<Delivery>, n: nat, deadline: nat)
    requires n <= |run|
  {
    forall i :: 0 <= i < n ==> Sound(run[i], deadline)
  }

  /** Step `k` is in the foreground with the URL hand-off and the debugger both observed. */
  ghost predicate MayRun(run: seq<Delivery>, k: nat)
    requires k < |run|
  {
    run[k].foreground && Seen(run, k + 1, OpenAccepted) && Seen(run, k + 1, Debugged)
  }

  ghost predicate ReadyAt(run: seq<Delivery>, k: nat)
    requires k < |run|
  {
    MayRun(run, k) && Seen(run, k + 1, RuntimeAck)
  }

  /** Every step up to `n` was sound and none made the session ready: it is still pending. */
  ghost predicate Waiting(run: seq<Delivery>, n: nat, deadline: nat)
    requires n <= |run|
  {
    AllSound(run, n, deadline) && forall k :: 0 <= k < n ==> !ReadyAt(run, k)
  }

  ghost predicate Resumed(run: seq<Delivery>) {
    exists k :: 0 <= k < |run| && MayRun(run, k)
  }

  /** The pending state is a function of the history alone. */
  ghost function WaitingState(run: seq<Delivery>, deadline: nat): State {
    State(PhaseOf(Seen(run, |run|, OpenAccepted), Seen(run, |run|, Debugged), Resumed(run)),
          deadline, Seen(run, |run|, RuntimeAck))
  }

  lemma {:induction false} WaitingRun(run: seq<Delivery>, deadline: nat)
    requires Waiting(run, |run|, deadline)
    ensures After(Fresh(deadline), run) == WaitingState(run, deadline)
    ensures Pending(After(Fresh(deadline), run).phase)
    decreases |run|
  {
    if run != [] {
      var n := |run| - 1;
      PrefixHistory(run, n);
      WaitingRun(run[..n], deadline);
      OneMore(run);
      assert !ReadyAt(run, n) && Sound(run[n], deadline);
      hide Seen, Resumed, Waiting, Sound;
    }
  }

  /** A prefix has the same history as the run it starts. */
  lemma PrefixHistory(run: seq<Delivery>, n: nat)
    requires n <= |run|
    ensures forall k, e :: 0 <= k <= n ==> (Seen(run[..n], k, e) <==> Seen(run, k, e))
    ensures forall k :: 0 <= k < n ==> (MayRun(run[..n], k) <==> MayRun(run, k))
    ensures forall k :: 0 <= k < n ==> (ReadyAt(run[..n], k) <==> ReadyAt(run, k))
  {
    forall k, e | 0 <= k <= n ensures Seen(run[..n], k, e) <==> Seen(run, k, e) {
      assert forall i :: 0 <= i < k ==> run[..n][i] == run[i];
    }
  }

  lemma OneMore(run: seq<Delivery>)
    requires run != []
    ensures var n := |run| - 1;
            && (forall e :: Seen(run, n + 1, e) <==> Seen(run, n, e) || run[n].event == e)
            && (Resumed(run) <==> Resumed(run[..n]) || MayRun(run, n))
            && (Resumed(run[..n]) ==> Seen(run, n, OpenAccepted) && Seen(run, n, Debugged))
  {
    var n := |run| - 1;
    PrefixHistory(run, n);
    forall e ensures Seen(run, n + 1, e) <==> Seen(run, n, e) || run[n].event == e {
      if i :| 0 <= i < n + 1 && run[i].event == e { assert i < n ==> Seen(run, n, e); }
    }
  }

  // ---------------------------------------------------------------- how every run ends

  /** Step `k` takes a waiting session out of its pending phases. */
  ghost predicate EndsAt(run: seq<Delivery>, k: nat, deadline: nat)
    requires k < |run|
  {
    Waiting(run, k, deadline) && (!Sound(run[k], deadline) || ReadyAt(run, k))
  }

  function EndPhase(d: Delivery, deadline: nat): Phase {
    if Revokes(d) then Cancelled else if Breaks(d, deadline) then Failed else Ready
  }

  lemma WaitingPrefix(run: seq<Delivery>, n: nat, deadline: nat)
    requires n <= |run| && Waiting(run, n, deadline)
    ensures Waiting(run[..n], n, deadline)
    ensures After(Fresh(deadline), run[..n]) == WaitingState(run[..n], deadline)
  {
    PrefixHistory(run, n);
    WaitingRun(run[..n], deadline);
  }

  /** The step that ends a run decides its phase for good. */
  lemma {:induction false} Ending(run: seq<Delivery>, k: nat, deadline: nat)
    requires k < |run| && EndsAt(run, k, deadline)
    ensures After(Fresh(deadline), run).phase == EndPhase(run[k], deadline)
    decreases |run|
  {
    var n := |run| - 1;
    PrefixHistory(run, n);
    if k < n {
      Ending(run[..n], k, deadline);
    } else {
      WaitingPrefix(run, n, deadline);
      OneMore(run);
    }
  }

  lemma {:induction false} SomeEnd(run: seq<Delivery>, n: nat, deadline: nat) returns (k: nat)
    requires n <= |run| && !Waiting(run, n, deadline)
    ensures k < n && EndsAt(run, k, deadline)
  {
    k := n - 1;
    if !Waiting(run, k, deadline) { k := SomeEnd(run, k, deadline); }
  }

  /** The last state of every run, read off its deliveries. */
  lemma RunOutcome(run: seq<Delivery>, deadline: nat)
    ensures var s := After(Fresh(deadline), run);
      && (s.phase == Ready <==>
            exists k :: 0 <= k < |run| && AllSound(run, k + 1, deadline) && ReadyAt(run, k))
      && (s.phase == Cancelled <==>
            exists k :: 0 <= k < |run| && Waiting(run, k, deadline) && Revokes(run[k]))
      && (s.phase == Failed <==>
            exists k :: 0 <= k < |run| && Waiting(run, k, deadline) && !Revokes(run[k]) && Breaks(run[k], deadline))
      && (Pending(s.phase) <==> Waiting(run, |run|, deadline))
      && (Pending(s.phase) ==> s == WaitingState(run, deadline))
  {
    hide After, WaitingState, ReadyAt;
    if Waiting(run, |run|, deadline) {
      WaitingRun(run, deadline);
    } else {
      var k := SomeEnd(run, |run|, deadline);
      Ending(run, k, deadline);
      if j :| 0 <= j < |run| && AllSound(run, j + 1, deadline) && ReadyAt(run, j) {
        var i := SomeEnd(run, j + 1, deadline);
        assert i == k;
      }
    }
  }

  /** With an owned child, before the deadline and undisturbed, readiness is the three observations. */
  lemma ReadyExactly(run: seq<Delivery>, deadline: nat)
    requires AllSound(run, |run|, deadline)
    ensures After(Fresh(deadline), run).phase == Ready <==> exists k :: 0 <= k < |run| && ReadyAt(run, k)
  {
    RunOutcome(run, deadline);
  }

  // ---------------------------------------------------------------- what every run does

  lemma {:induction false} ActionAt(s: State, run: seq<Delivery>, k: nat)
    requires k < |run|
    ensures Actions(s, run)[k] == ActionOf(After(s, run[..k]), run[k])
    decreases |run|
  {
    var n := |run| - 1;
    if k < n {
      ActionAt(s, run[..n], k);
      assert run[..n][..k] == run[..k];
    }
  }

  /** What a session that waited so far does next. */
  lemma WaitingAction(run: seq<Delivery>, k: nat, deadline: nat)
    requires k < |run| && Waiting(run, k, deadline)
    ensures var act := ActionOf(After(Fresh(deadline), run[..k]), run[k]);
            && (act == Resume <==> Waiting(run, k + 1, deadline) && MayRun(run, k) && !Resumed(run[..k]))
            && (act == Stop <==> !Revokes(run[k]) && Breaks(run[k], deadline))
  {
    hide Seen, Resumed, AllSound;
    WaitingPrefix(run, k, deadline);
    WaitingOneMore(run, k, deadline);
    var now := run[..k + 1];
    PrefixHistory(run, k);
    PrefixHistory(run, k + 1);
    OneMore(now);
    assert now[..k] == run[..k] && now[k] == run[k];
  }

  lemma WaitingOneMore(run: seq<Delivery>, k: nat, deadline: nat)
    requires k < |run| && Waiting(run, k, deadline)
    ensures Waiting(run, k + 1, deadline) <==> Sound(run[k], deadline) && !ReadyAt(run, k)
  {
    hide ReadyAt, Sound;
  }

  /** Each action of a run, read off its deliveries. */
  lemma ActionExactly(run: seq<Delivery>, k: nat, deadline: nat)
    requires k < |run|
    ensures Actions(Fresh(deadline), run)[k] == Resume <==>
              Waiting(run, k + 1, deadline) && MayRun(run, k) && forall j :: 0 <= j < k ==> !MayRun(run, j)
    ensures Actions(Fresh(deadline), run)[k] == Stop <==>
              Waiting(run, k, deadline) && !Revokes(run[k]) && Breaks(run[k], deadline)
  {
    ActionAt(Fresh(deadline), run, k);
    PrefixHistory(run, k);
    if Waiting(run, k, deadline) {
      WaitingAction(run, k, deadline);
    } else {
      var j := SomeEnd(run, k, deadline);
      Ending(run[..k], j, deadline);
    }
  }

  /**
   Safety of every run: the child is resumed at most once and stopped at most once,
   nothing follows a stop, and each signal meets its conditions.
   */
  lemma RunSafety(run: seq<Delivery>, deadline: nat)
    ensures var acts := Actions(Fresh(deadline), run);
      && (forall j, k :: 0 <= j < k < |run| && acts[j] == Resume ==> acts[k] != Resume)
      && (forall j, k :: 0 <= j < k < |run| && acts[j] == Stop ==> acts[k] == NoAction)
      && (forall k :: 0 <= k < |run| && !run[k].ownsChild ==> acts[k] == NoAction)
      && (forall k :: 0 <= k < |run| && acts[k] == Resume ==>
            && run[k].foreground && run[k].ownsChild && run[k].nowMS < deadline
            && Seen(run, k + 1, OpenAccepted) && Seen(run, k + 1, Debugged) && !Seen(run, k + 1, RuntimeAck))
  {
    hide Actions, Seen;
    forall k | 0 <= k < |run| { ActionExactly(run, k, deadline); }
    assert forall k :: 0 <= k < |run| && Waiting(run, k + 1, deadline) ==> Sound(run[k], deadline) && !ReadyAt(run, k);
  }

  /** A session that left its pending phases never changes or acts again. */
  lemma {:induction false} TerminalAbsorbs(s: State, run: seq<Delivery>)
    requires s.phase in {Ready, Cancelled, Failed}
    ensures After(s, run) == s
    ensures forall k :: 0 <= k < |run| ==> Actions(s, run)[k] == NoAction
  {
    if run != [] { TerminalAbsorbs(s, run[..|run| - 1]); }
  }

  /** From any state, even a corrupt one, no step at or past the deadline makes the session ready. */
  lemma {:induction false} NeverReadyLate(s: State, run: seq<Delivery>)
    requires s.phase != Ready && forall k :: 0 <= k < |run| ==> run[k].nowMS >= s.deadlineMS
    ensures After(s, run).phase != Ready && After(s, run).deadlineMS == s.deadlineMS
  {
    if run != [] { NeverReadyLate(s, run[..|run| - 1]); }
  }
}
