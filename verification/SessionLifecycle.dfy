// networking/connection/state.go, session.go, session_packet.go and security.go: the life of
// a connection session. Every locked section is one step; Disconnect is split at the point
// where it lets go of the lock to run the disposer, and Receive and Send between marking
// traffic and looking at the disconnected flag.
module SessionLifecycle {
  import opened Wrappers

  datatype State =
    | Created | Handshaking | Securing | Authenticating | Authenticated | Connected
    | Closing | Closed | Error

  datatype Event =
    | PacketReceived | DiffieRequested | DiffieCompleted
    | AuthenticationStarted | AuthenticationAccepted | AuthenticationRejected | SessionReady
    | DisconnectRequested | DisconnectCompleted | ProtocolFailed | TransportFailed
    | OtherEvent(name: string)

  datatype Failure = Disposed | InvalidTransition | InvalidState | InvalidSecurity

  datatype Policy = Policy(mode: int)

  // A policy without a mode means the default one, which is optional security.
  const OPTIONAL_MODE := 1

  function Normalized(policy: Policy): Policy {
    if policy.mode == 0 then Policy(OPTIONAL_MODE) else policy
  }

  // What is left of a Disconnect that got past the flag, with the channel it found attached.
  datatype Pending =
    | NotDisconnecting
    | MustDispose(channel: Option<nat>)
    | MustClose(channel: Option<nat>)
    | MustFinish
    | Finished

  datatype View = View(
    state: State, disconnected: bool, authenticated: bool, authenticatedAt: int, lastPongAt: int,
    lastActivityAt: int, reason: Option<int>, trafficStarted: bool, policy: Policy, security: Option<nat>,
    doneCloses: nat, disposals: nat, closed: seq<nat>, pending: Pending)

  // ---------------------------------------------------------------- the transition table

  function TransitionFrom(state: State, from: State, to: State): Option<State> {
    if state != from then None else Some(to)
  }

  function CloseState(state: State): Option<State> {
    if state == Closing || state == Closed then None else Some(Closing)
  }

  function FailState(state: State): Option<State> {
    if state in {Created, Handshaking, Securing, Authenticating, Authenticated, Connected} then Some(Error) else None
  }

  function NextState(state: State, event: Event): Option<State> {
    match event
    case PacketReceived => TransitionFrom(state, Created, Handshaking)
    case DiffieRequested => TransitionFrom(state, Handshaking, Securing)
    case DiffieCompleted => TransitionFrom(state, Securing, Handshaking)
    case AuthenticationStarted => TransitionFrom(state, Handshaking, Authenticating)
    case AuthenticationAccepted => TransitionFrom(state, Authenticating, Authenticated)
    case AuthenticationRejected => TransitionFrom(state, Authenticating, Error)
    case SessionReady => TransitionFrom(state, Authenticated, Connected)
    case DisconnectRequested => CloseState(state)
    case DisconnectCompleted => TransitionFrom(state, Closing, Closed)
    case ProtocolFailed => FailState(state)
    case TransportFailed => FailState(state)
    case OtherEvent(_) => None
  }

  // ---------------------------------------------------------------- the steps

  datatype Step =
    | Transition(event: Event)
    | MarkTraffic(first: Option<Event>)
    | MarkActivity(at: int)
    | MarkPong(at: int)
    | Authenticate(at: int)
    | SetPolicy(policy: Policy)
    | AttachSecurity(channel: nat)
    | BeginDisconnect(reason: int)
    | CallDisposer
    | CloseSecurity
    | FinishDisconnect

  function Refusal(v: View, step: Step): Option<Failure> {
    match step
    case Transition(event) =>
      if v.disconnected && event != DisconnectCompleted then Some(Disposed)
      else if NextState(v.state, event).None? then Some(InvalidTransition)
      else None
    case MarkTraffic(event) =>
      if v.disconnected then Some(Disposed)
      else if event.Some? && v.state == Created && NextState(v.state, event.value).None? then Some(InvalidTransition)
      else None
    case MarkActivity(_) => None
    case MarkPong(_) => if v.disconnected then Some(Disposed) else None
    case Authenticate(_) =>
      if v.disconnected then Some(Disposed)
      else if NextState(v.state, AuthenticationAccepted).None? then Some(InvalidTransition)
      else None
    case SetPolicy(_) => if v.trafficStarted then Some(InvalidState) else None
    case AttachSecurity(_) =>
      if v.disconnected then Some(Disposed) else if v.security.Some? then Some(InvalidSecurity) else None
    case BeginDisconnect(_) => if v.disconnected then Some(Disposed) else None
    case CallDisposer => None
    case CloseSecurity => None
    case FinishDisconnect => None
  }

  // The state after a step. Refused steps change nothing, but for MarkTraffic, which
  // records the traffic before it looks at the event.
  function After(v: View, step: Step): View {
    if Refusal(v, step).Some? then
      if step.MarkTraffic? && !v.disconnected then v.(trafficStarted := true) else v
    else
      match step
      case Transition(event) => v.(state := NextState(v.state, event).value)
      case MarkTraffic(event) =>
        if event.Some? && v.state == Created
        then v.(trafficStarted := true, state := NextState(v.state, event.value).value)
        else v.(trafficStarted := true)
      case MarkActivity(at) => v.(lastActivityAt := at)
      case MarkPong(at) => v.(lastPongAt := at)
      case Authenticate(at) => v.(authenticatedAt := at, authenticated := true, state := Authenticated)
      case SetPolicy(policy) => v.(policy := Normalized(policy))
      case AttachSecurity(channel) => v.(security := Some(channel))
      case BeginDisconnect(reason) =>
        v.(disconnected := true, reason := Some(reason), state := Closing, doneCloses := v.doneCloses + 1,
           pending := MustDispose(v.security))
      case CallDisposer =>
        if v.pending.MustDispose? then v.(disposals := v.disposals + 1, pending := MustClose(v.pending.channel)) else v
      case CloseSecurity =>
        if v.pending.MustClose? then v.(closed := v.closed + Listed(v.pending.channel), pending := MustFinish) else v
      case FinishDisconnect =>
        if v.pending == MustFinish then v.(state := Closed, pending := Finished) else v
  }

  function Listed(channel: Option<nat>): seq<nat> {
    if channel.None? then [] else [channel.value]
  }

  // A time that was not given is taken from the clock.
  function Stamp(at: Option<int>, now: int): int {
    if at.None? then now else at.value
  }

  // A given time is taken as it is.
  lemma StampTakes(at: int, now: int)
    ensures Stamp(Some(at), now) == at && Stamp(None, now) == now
  {
  }

  class Session {
    var state: State
    var disconnected: bool
    var authenticated: bool
    var authenticatedAt: int
    var lastPongAt: int
    var lastActivityAt: int
    var reason: Option<int>
    var trafficStarted: bool
    var policy: Policy
    var security: Option<nat>
    // How often done was closed: a second time would panic.
    var doneCloses: nat
    ghost var disposals: nat
    // The channels closed, in order.
    ghost var closed: seq<nat>
    ghost var pending: Pending

    ghost function Seen(): View
      reads this
    {
      View(state, disconnected, authenticated, authenticatedAt, lastPongAt, lastActivityAt, reason,
           trafficStarted, policy, security, doneCloses, disposals, closed, pending)
    }

    constructor (startedAt: int, policy: Policy)
      ensures Seen() == Start(startedAt, policy)
    {
      state, disconnected, authenticated, authenticatedAt := Created, false, false, 0;
      lastPongAt, lastActivityAt, reason, trafficStarted := startedAt, startedAt, None, false;
      this.policy, security, doneCloses, disposals := Normalized(policy), None, 0, 0;
      closed, pending := [], NotDisconnecting;
    }

    method Transition(event: Event) returns (failure: Option<Failure>)
      modifies this
      ensures failure == Refusal(old(Seen()), Step.Transition(event))
      ensures Seen() == After(old(Seen()), Step.Transition(event))
    {
      if disconnected && event != DisconnectCompleted {
        return Some(Disposed);
      }
      var next := NextState(state, event);
      if next.None? {
        return Some(InvalidTransition);
      }
      state := next.value;
      return None;
    }

    method MarkTraffic(event: Option<Event>) returns (failure: Option<Failure>)
      modifies this
      ensures failure == Refusal(old(Seen()), Step.MarkTraffic(event))
      ensures Seen() == After(old(Seen()), Step.MarkTraffic(event))
    {
      if disconnected {
        return Some(Disposed);
      }
      trafficStarted := true;
      if event.None? || state != Created {
        return None;
      }
      var next := NextState(state, event.value);
      if next.None? {
        return Some(InvalidTransition);
      }
      state := next.value;
      return None;
    }

    method MarkActivity(at: Option<int>, now: int)
      modifies this
      ensures Seen() == After(old(Seen()), Step.MarkActivity(Stamp(at, now)))
    {
      lastActivityAt := Stamp(at, now);
    }

    method MarkPong(at: Option<int>, now: int) returns (failure: Option<Failure>)
      modifies this
      ensures failure == Refusal(old(Seen()), Step.MarkPong(Stamp(at, now)))
      ensures Seen() == After(old(Seen()), Step.MarkPong(Stamp(at, now)))
    {
      if disconnected {
        return Some(Disposed);
      }
      lastPongAt := Stamp(at, now);
      return None;
    }

    method Authenticate(at: Option<int>, now: int) returns (failure: Option<Failure>)
      modifies this
      ensures failure == Refusal(old(Seen()), Step.Authenticate(Stamp(at, now)))
      ensures Seen() == After(old(Seen()), Step.Authenticate(Stamp(at, now)))
    {
      if disconnected {
        return Some(Disposed);
      }
      if NextState(state, AuthenticationAccepted).None? {
        return Some(InvalidTransition);
      }
      authenticatedAt := Stamp(at, now);
      authenticated := true;
      state := Authenticated;
      return None;
    }

    method SetSecurityPolicy(policy: Policy) returns (failure: Option<Failure>)
      modifies this
      ensures failure == Refusal(old(Seen()), SetPolicy(policy))
      ensures Seen() == After(old(Seen()), SetPolicy(policy))
    {
      if trafficStarted {
        return Some(InvalidState);
      }
      this.policy := Normalized(policy);
      return None;
    }

    method AttachSecurity(channel: nat) returns (failure: Option<Failure>)
      modifies this
      ensures failure == Refusal(old(Seen()), Step.AttachSecurity(channel))
      ensures Seen() == After(old(Seen()), Step.AttachSecurity(channel))
    {
      if disconnected {
        return Some(Disposed);
      }
      if security.Some? {
        return Some(InvalidSecurity);
      }
      security := Some(channel);
      return None;
    }

    // Disconnect up to where it unlocks.
    method BeginDisconnect(why: int) returns (failure: Option<Failure>)
      requires Inv(Seen())
      modifies this
      ensures failure == Refusal(old(Seen()), Step.BeginDisconnect(why))
      ensures Seen() == After(old(Seen()), Step.BeginDisconnect(why))
    {
      if disconnected {
        return Some(Disposed);
      }
      disconnected := true;
      reason := Some(why);
      state := Closing;
      assert doneCloses == 0;
      doneCloses := doneCloses + 1;
      pending := MustDispose(security);
      return None;
    }

    // The rest of it, for the caller that got past the flag.
    method FinishDisconnect()
      requires pending == MustFinish
      modifies this
      ensures Seen() == After(old(Seen()), Step.FinishDisconnect)
    {
      state := Closed;
      pending := Finished;
    }

    // With nobody in between: the session ends Closed, its disposer having run once and
    // then the channel attached, if any, having been closed once.
    method Disconnect(why: int) returns (failure: Option<Failure>)
      requires Inv(Seen())
      modifies this
      ensures Inv(Seen())
      ensures failure == Refusal(old(Seen()), Step.BeginDisconnect(why))
      ensures failure.Some? ==> Seen() == old(Seen())
      ensures failure.None? ==>
                Seen() == old(Seen()).(disconnected := true, reason := Some(why), state := Closed, doneCloses := 1,
                                       disposals := 1, closed := Listed(old(security)), pending := Finished)
    {
      failure := BeginDisconnect(why);
      if failure.Some? {
        return;
      }
      disposals := disposals + 1;
      closed := closed + Listed(security);
      pending := MustFinish;
      FinishDisconnect();
    }
  }

  // ---------------------------------------------------------------- runs

  function Start(startedAt: int, policy: Policy): View {
    View(Created, false, false, 0, startedAt, startedAt, None, false, Normalized(policy), None, 0, 0, [],
         NotDisconnecting)
  }

  // A new session: nothing has happened but that it started.
  lemma StartsFresh(startedAt: int, policy: Policy)
    ensures var v := Start(startedAt, policy);
      && v.state == Created && !v.disconnected && !v.authenticated && !v.trafficStarted
      && v.lastPongAt == v.lastActivityAt == startedAt && v.authenticatedAt == 0
      && v.policy == (if policy.mode == 0 then Policy(OPTIONAL_MODE) else policy)
      && v.reason == None && v.security == None && v.doneCloses == v.disposals == 0 && v.closed == []
  {
  }

  function Continue(v: View, steps: seq<Step>): View
    decreases |steps|
  {
    if steps == [] then v else After(Continue(v, steps[..|steps| - 1]), steps[|steps| - 1])
  }

  predicate BeforeAuthentication(state: State) {
    state in {Created, Handshaking, Securing, Authenticating}
  }

  predicate Inv(v: View) {
    && (v.disconnected ==> v.state == Closing || v.state == Closed)
    && (v.disconnected <==> v.reason.Some?)
    && (v.disconnected <==> v.pending != NotDisconnecting)
    && v.doneCloses == (if v.disconnected then 1 else 0)
    && v.disposals == (if v.pending.NotDisconnecting? || v.pending.MustDispose? then 0 else 1)
    && v.closed == (if v.pending == MustFinish || v.pending == Finished then Listed(v.security) else [])
    && (v.pending.MustDispose? || v.pending.MustClose? ==> v.pending.channel == v.security)
    && (v.pending == Finished ==> v.state == Closed)
    && (v.authenticated ==> !BeforeAuthentication(v.state))
    && v.policy.mode != 0
  }

  lemma InvStep(v: View, step: Step)
    requires Inv(v)
    ensures Inv(After(v, step))
  {
  }

  lemma {:induction false} InvContinues(v: View, steps: seq<Step>)
    requires Inv(v)
    ensures Inv(Continue(v, steps))
    decreases |steps|
  {
    hide Inv, After;
    if steps != [] {
      InvContinues(v, steps[..|steps| - 1]);
      InvStep(Continue(v, steps[..|steps| - 1]), steps[|steps| - 1]);
    }
  }

  // Whatever the order of the calls: done closes at most once and the disposer runs at most
  // once, both only after Disconnect got past the flag; the channel attached, and no other, is
  // closed at most once, after the disposer, and was when Disconnect is through; a
  // disconnected session is Closing or Closed; an authenticated one is past authentication;
  // and there is always a policy.
  lemma EveryRunSafe(startedAt: int, policy: Policy, steps: seq<Step>)
    ensures var v := Continue(Start(startedAt, policy), steps);
            && v.doneCloses <= 1 && v.disposals <= v.doneCloses
            && (v.doneCloses == 1 <==> v.disconnected)
            && (v.disconnected ==> v.state == Closing || v.state == Closed)
            && (v.authenticated ==> !BeforeAuthentication(v.state)) && v.policy.mode != 0
            && (v.closed == [] || (v.closed == Listed(v.security) && v.disposals == 1))
            && (v.pending == Finished ==> v.state == Closed && v.disposals == 1 && v.closed == Listed(v.security))
  {
    hide Continue;
    InvContinues(Start(startedAt, policy), steps);
  }

  // ---------------------------------------------------------------- what stays for good

  // What no later step can undo.
  predicate Kept(v: View, w: View) {
    && (v.disconnected ==> w.disconnected && w.reason == v.reason && w.authenticated == v.authenticated
                           && w.authenticatedAt == v.authenticatedAt && w.lastPongAt == v.lastPongAt
                           && w.trafficStarted == v.trafficStarted && w.security == v.security)
    && (v.disconnected && v.state == Closed ==> w.state == Closed)
    && (v.authenticated ==> w.authenticated && w.authenticatedAt == v.authenticatedAt)
    && (v.trafficStarted ==> w.trafficStarted && w.policy == v.policy)
    && (v.security.Some? ==> w.security == v.security)
  }

  lemma KeptStep(v: View, w: View, step: Step)
    requires Inv(v) && Inv(w) && Kept(v, w)
    ensures Kept(v, After(w, step))
  {
  }

  // Disconnection, its reason, authentication and its time, the attached channel, and the
  // policy once traffic started are final, and so is Closed once disconnected.
  lemma {:induction false} KeptForever(v: View, steps: seq<Step>)
    requires Inv(v)
    ensures Kept(v, Continue(v, steps))
    decreases |steps|
  {
    hide Inv, After, Kept;
    if steps == [] {
      KeptNow(v);
    } else {
      KeptForever(v, steps[..|steps| - 1]);
      InvContinues(v, steps[..|steps| - 1]);
      KeptStep(v, Continue(v, steps[..|steps| - 1]), steps[|steps| - 1]);
    }
  }

  lemma KeptNow(v: View)
    ensures Kept(v, v)
  {
  }

  // Closed is left by one kind of step only: a Disconnect of a session that reached it by
  // raw transitions.
  lemma ClosedLeftExactly(v: View, step: Step)
    requires Inv(v) && v.state == Closed
    ensures (After(v, step).state != Closed) <==> (step.BeginDisconnect? && !v.disconnected)
  {
  }

  // ---------------------------------------------------------------- the order of phases

  // Every state the session was in.
  function Visited(v: View, steps: seq<Step>): set<State>
    decreases |steps|
  {
    if steps == [] then {v.state} else Visited(v, steps[..|steps| - 1]) + {Continue(v, steps).state}
  }

  // Each phase comes after the one it needs.
  predicate InOrder(visited: set<State>) {
    && (Connected in visited ==> Authenticated in visited)
    && (Authenticated in visited ==> Authenticating in visited)
    && (Authenticating in visited ==> Handshaking in visited)
    && (Securing in visited ==> Handshaking in visited)
    && (Handshaking in visited ==> Created in visited)
    && (Closed in visited ==> Closing in visited)
  }

  lemma OrderStep(v: View, step: Step, visited: set<State>)
    requires Inv(v) && InOrder(visited) && v.state in visited
    requires v.disconnected ==> Closing in visited
    ensures InOrder(visited + {After(v, step).state})
    ensures After(v, step).disconnected ==> Closing in visited + {After(v, step).state}
  {
  }

  lemma {:induction false} OrderHolds(v: View, steps: seq<Step>)
    requires Inv(v) && v.state == Created && !v.disconnected
    ensures InOrder(Visited(v, steps)) && Continue(v, steps).state in Visited(v, steps)
    ensures Continue(v, steps).disconnected ==> Closing in Visited(v, steps)
    decreases |steps|
  {
    hide After, Inv;
    if steps != [] {
      var front := steps[..|steps| - 1];
      OrderHolds(v, front);
      InvContinues(v, front);
      OrderStep(Continue(v, front), steps[|steps| - 1], Visited(v, front));
    }
  }

  // No run skips a phase: a connected session was authenticated, authenticating and
  // handshaking before, and a closed one was closing.
  lemma PhasesInOrder(startedAt: int, policy: Policy, steps: seq<Step>)
    ensures InOrder(Visited(Start(startedAt, policy), steps))
  {
    OrderHolds(Start(startedAt, policy), steps);
  }

  // ---------------------------------------------------------------- which moves there are

  // Every move of a session that is not disconnected, by the event that makes it.
  lemma MovesExactly(v: View, event: Event, to: State)
    requires !v.disconnected
    ensures Refusal(v, Transition(event)).None? && After(v, Transition(event)).state == to <==>
      || (event == PacketReceived && v.state == Created && to == Handshaking)
      || (event == DiffieRequested && v.state == Handshaking && to == Securing)
      || (event == DiffieCompleted && v.state == Securing && to == Handshaking)
      || (event == AuthenticationStarted && v.state == Handshaking && to == Authenticating)
      || (event == AuthenticationAccepted && v.state == Authenticating && to == Authenticated)
      || (event == AuthenticationRejected && v.state == Authenticating && to == State.Error)
      || (event == SessionReady && v.state == Authenticated && to == Connected)
      || (event == DisconnectRequested && v.state != Closing && v.state != Closed && to == Closing)
      || (event == DisconnectCompleted && v.state == Closing && to == Closed)
      || ((event == ProtocolFailed || event == TransportFailed)
          && v.state != Closing && v.state != Closed && v.state != State.Error && to == State.Error)
  {
  }

  // Which steps are accepted, and what else they say when not.
  lemma AcceptedExactly(v: View, step: Step)
    ensures match step
      case Transition(event) =>
        if v.disconnected && event != DisconnectCompleted then Refusal(v, step) == Some(Disposed)
        else Refusal(v, step) in {None, Some(InvalidTransition)}
      case MarkTraffic(event) =>
        && (Refusal(v, step) == Some(Disposed) <==> v.disconnected)
        && Refusal(v, step) in {None, Some(Disposed), Some(InvalidTransition)}
        && (Refusal(v, step) == Some(InvalidTransition) <==>
              !v.disconnected && v.state == Created && event.Some?
              && event.value !in {PacketReceived, DisconnectRequested, ProtocolFailed, TransportFailed})
      case MarkActivity(at) => Refusal(v, step) == None
      case MarkPong(at) => Refusal(v, step) == (if v.disconnected then Some(Disposed) else None)
      case Authenticate(at) =>
        && (Refusal(v, step) == None <==> !v.disconnected && v.state == Authenticating)
        && (Refusal(v, step) == Some(Disposed) <==> v.disconnected)
        && Refusal(v, step) in {None, Some(Disposed), Some(InvalidTransition)}
      case SetPolicy(policy) => Refusal(v, step) == (if v.trafficStarted then Some(InvalidState) else None)
      case AttachSecurity(channel) =>
        && (Refusal(v, step) == None <==> !v.disconnected && v.security == None)
        && (Refusal(v, step) == Some(Disposed) <==> v.disconnected)
        && Refusal(v, step) in {None, Some(Disposed), Some(InvalidSecurity)}
      case BeginDisconnect(reason) => Refusal(v, step) == (if v.disconnected then Some(Disposed) else None)
      case CallDisposer => Refusal(v, step) == None
      case CloseSecurity => Refusal(v, step) == None
      case FinishDisconnect => Refusal(v, step) == None
  {
  }

  // All other steps that move a session to another state.
  lemma OtherMoves(v: View, step: Step, to: State)
    requires Inv(v) && !step.Transition?
    ensures After(v, step).state == to && to != v.state <==>
      || (step.MarkTraffic? && !v.disconnected && v.state == Created && to != Created && step.first.Some?
          && Refusal(v, Transition(step.first.value)) == None && to == After(v, Transition(step.first.value)).state)
      || (step.Authenticate? && !v.disconnected && v.state == Authenticating && to == Authenticated)
      || (step.BeginDisconnect? && !v.disconnected && v.state != Closing && to == Closing)
      || (step == FinishDisconnect && v.pending == MustFinish && v.state != Closed && to == Closed)
  {
  }

  // What the accepted steps leave, field by field.
  lemma StepEffects(v: View, step: Step)
    requires Refusal(v, step).None?
    ensures var w := After(v, step);
      && w.authenticated == (v.authenticated || step.Authenticate?)
      && w.authenticatedAt == (if step.Authenticate? then step.at else v.authenticatedAt)
      && w.lastPongAt == (if step.MarkPong? then step.at else v.lastPongAt)
      && w.lastActivityAt == (if step.MarkActivity? then step.at else v.lastActivityAt)
      && w.trafficStarted == (v.trafficStarted || step.MarkTraffic?)
      && w.policy == (if !step.SetPolicy? then v.policy
                      else if step.policy.mode == 0 then Policy(OPTIONAL_MODE) else step.policy)
      && w.security == (if step.AttachSecurity? then Some(step.channel) else v.security)
      && w.disconnected == (v.disconnected || step.BeginDisconnect?)
      && w.reason == (if step.BeginDisconnect? then Some(step.reason) else v.reason)
      && w.doneCloses == v.doneCloses + (if step.BeginDisconnect? then 1 else 0)
      && w.disposals == v.disposals + (if step == CallDisposer && v.pending.MustDispose? then 1 else 0)
      && w.closed == (if step == CloseSecurity && v.pending.MustClose? && v.pending.channel.Some?
                      then v.closed + [v.pending.channel.value] else v.closed)
  {
  }

  // And what refused ones leave: everything, but for traffic that was recorded first.
  lemma RefusedEffects(v: View, step: Step)
    requires Refusal(v, step).Some?
    ensures After(v, step) == v.(trafficStarted := v.trafficStarted || (step.MarkTraffic? && !v.disconnected))
  {
  }

  // Every step of a run is accepted.
  predicate AllAccepted(v: View, steps: seq<Step>)
    decreases |steps|
  {
    steps == [] || (Refusal(v, steps[0]).None? && AllAccepted(After(v, steps[0]), steps[1..]))
  }

  lemma {:induction false} AllAcceptedFirst(v: View, step: Step, rest: seq<Step>)
    requires Refusal(v, step).None? && AllAccepted(After(v, step), rest)
    ensures AllAccepted(v, [step] + rest)
  {
    assert ([step] + rest)[1..] == rest;
  }

  lemma {:induction false} ContinueFirst(v: View, step: Step, rest: seq<Step>)
    ensures Continue(v, [step] + rest) == Continue(After(v, step), rest)
    decreases |rest|
  {
    hide After;
    var all := [step] + rest;
    if rest == [] {
      assert all == [step] && [step][..0] == [];
      assert Continue(v, [step]) == After(Continue(v, []), step);
    } else {
      assert all[..|all| - 1] == [step] + rest[..|rest| - 1];
      ContinueFirst(v, step, rest[..|rest| - 1]);
    }
  }

  // A key exchange brings a session back to Handshaking, both steps being accepted.
  lemma ExchangeReturns(v: View)
    requires !v.disconnected && v.state == Handshaking
    ensures var steps := [Transition(DiffieRequested), Transition(DiffieCompleted)];
      AllAccepted(v, steps) && Continue(v, steps) == v
  {
    var a, b := Transition(DiffieRequested), Transition(DiffieCompleted);
    var steps := [a, b];
    assert steps == [a] + [b] && [b] == [b] + [];
    ContinueFirst(v, a, [b]);
    ContinueFirst(After(v, a), b, []);
    AllAcceptedFirst(After(v, a), b, []);
    AllAcceptedFirst(v, a, [b]);
  }

  // From there it is let in, every step being accepted.
  lemma EntryConnects(v: View, at: int)
    requires !v.disconnected && v.state == Handshaking
    ensures var steps := [Transition(AuthenticationStarted), Authenticate(at), Transition(SessionReady)];
      && AllAccepted(v, steps)
      && Continue(v, steps) == v.(state := Connected, authenticated := true, authenticatedAt := at)
  {
    var a, b, c := Transition(AuthenticationStarted), Authenticate(at), Transition(SessionReady);
    var x := After(v, a);
    var y := After(x, b);
    assert [a, b, c] == [a] + [b, c] && [b, c] == [b] + [c] && [c] == [c] + [];
    ContinueFirst(v, a, [b, c]);
    ContinueFirst(x, b, [c]);
    ContinueFirst(y, c, []);
    AllAcceptedFirst(y, c, []);
    AllAcceptedFirst(x, b, [c]);
    AllAcceptedFirst(v, a, [b, c]);
  }

  lemma {:induction false} RunsJoin(v: View, a: seq<Step>, b: seq<Step>)
    requires AllAccepted(v, a) && AllAccepted(Continue(v, a), b)
    ensures AllAccepted(v, a + b) && Continue(v, a + b) == Continue(Continue(v, a), b)
    decreases |a|
  {
    hide After, Refusal;
    if a == [] {
      assert a + b == b;
    } else {
      var rest := a[1..];
      assert a == [a[0]] + rest && a + b == [a[0]] + (rest + b);
      ContinueFirst(v, a[0], rest);
      RunsJoin(After(v, a[0]), rest, b);
      ContinueFirst(v, a[0], rest + b);
    }
  }

  // n key exchanges, one after the other.
  function Exchanges(n: nat): seq<Step> {
    if n == 0 then [] else [Transition(DiffieRequested), Transition(DiffieCompleted)] + Exchanges(n - 1)
  }

  lemma {:induction false} ExchangesSpelled(n: nat, i: nat)
    requires i < n
    ensures |Exchanges(n)| == 2 * n
    ensures Exchanges(n)[2 * i] == Transition(DiffieRequested) && Exchanges(n)[2 * i + 1] == Transition(DiffieCompleted)
  {
    if i > 0 {
      ExchangesSpelled(n - 1, i - 1);
    } else if n > 1 {
      ExchangesSpelled(n - 1, 0);
    }
  }

  lemma {:induction false} ExchangesReturn(v: View, n: nat)
    requires !v.disconnected && v.state == Handshaking
    ensures AllAccepted(v, Exchanges(n)) && Continue(v, Exchanges(n)) == v
  {
    if n > 0 {
      ExchangeReturns(v);
      ExchangesReturn(v, n - 1);
      RunsJoin(v, [Transition(DiffieRequested), Transition(DiffieCompleted)], Exchanges(n - 1));
    }
  }

  // So with or without key exchanges, a new session whose client sends a packet and
  // authenticates gets to Connected, authenticated, without any step being refused.
  lemma LoginConnects(startedAt: int, policy: Policy, n: nat, at: int)
    ensures var start := Start(startedAt, policy);
      var run := [MarkTraffic(Some(PacketReceived))] + Exchanges(n)
                 + [Transition(AuthenticationStarted), Authenticate(at), Transition(SessionReady)];
      && AllAccepted(start, run)
      && Continue(start, run)
         == start.(trafficStarted := true, state := Connected, authenticated := true, authenticatedAt := at)
  {
    var start, first := Start(startedAt, policy), MarkTraffic(Some(PacketReceived));
    var entry := [Transition(AuthenticationStarted), Authenticate(at), Transition(SessionReady)];
    var shaking := After(start, first);
    assert [first] == [first] + [];
    ContinueFirst(start, first, []);
    AllAcceptedFirst(start, first, []);
    ExchangesReturn(shaking, n);
    RunsJoin(start, [first], Exchanges(n));
    EntryConnects(shaking, at);
    RunsJoin(start, [first] + Exchanges(n), entry);
  }

  function Rank(state: State): nat {
    match state
    case Created => 0
    case Handshaking => 1
    case Securing => 1
    case Authenticating => 2
    case Authenticated => 3
    case Connected => 4
    case Error => 5
    case Closing => 6
    case Closed => 7
  }

  lemma RanksRise()
    ensures Rank(Created) < Rank(Handshaking) == Rank(Securing) < Rank(Authenticating) < Rank(Authenticated)
    ensures Rank(Authenticated) < Rank(Connected) < Rank(State.Error) < Rank(Closing) < Rank(Closed)
  {
  }

  // No step goes back to an earlier phase, but for a Disconnect of a session that was
  // closed by raw transitions.
  lemma NeverBack(v: View, step: Step)
    requires Inv(v)
    ensures Rank(After(v, step).state) < Rank(v.state)
            <==> (v.state == Closed && step.BeginDisconnect? && !v.disconnected)
  {
  }

  // ---------------------------------------------------------------- the state and the flag

  // Some raw transition took the session from Authenticating to Authenticated.
  predicate RawAccepted(v: View, steps: seq<Step>)
    decreases |steps|
  {
    steps != [] &&
    (RawAccepted(v, steps[..|steps| - 1]) ||
     (steps[|steps| - 1] == Transition(AuthenticationAccepted)
      && !Continue(v, steps[..|steps| - 1]).disconnected
      && Continue(v, steps[..|steps| - 1]).state == Authenticating))
  }

  // States that come after Authenticating.
  predicate Later(v: View, raw: bool) {
    && (BeforeAuthentication(v.state) ==> !v.authenticated && !raw)
    && !(v.authenticated && raw)
    && (v.state == Authenticated || v.state == Connected ==> v.authenticated || raw)
  }

  lemma LaterStep(v: View, step: Step, raw: bool)
    requires Later(v, raw) && Inv(v)
    ensures Later(After(v, step),
                  raw || (step == Transition(AuthenticationAccepted) && !v.disconnected && v.state == Authenticating))
  {
  }

  lemma {:induction false} FlagFollowsRun(v: View, steps: seq<Step>)
    requires Inv(v) && Later(v, false)
    ensures Later(Continue(v, steps), RawAccepted(v, steps))
    decreases |steps|
  {
    hide Inv, After, Later;
    if steps != [] {
      var front := steps[..|steps| - 1];
      FlagFollowsRun(v, front);
      InvContinues(v, front);
      LaterStep(Continue(v, front), steps[|steps| - 1], RawAccepted(v, front));
    }
  }

  // A session in the state Authenticated or Connected carries the flag exactly when it did
  // not get there by a raw transition.
  lemma FlagUnlessRaw(startedAt: int, policy: Policy, steps: seq<Step>)
    ensures var v := Continue(Start(startedAt, policy), steps);
            (v.state == Authenticated || v.state == Connected) ==>
              (v.authenticated <==> !RawAccepted(Start(startedAt, policy), steps))
  {
    hide Continue;
    FlagFollowsRun(Start(startedAt, policy), steps);
  }

  // And some run does get there by a raw transition.
  lemma RawWithoutFlag(startedAt: int, policy: Policy) returns (steps: seq<Step>)
    ensures var v := Continue(Start(startedAt, policy), steps); v.state == Authenticated && !v.authenticated
  {
    var a, b, c := MarkTraffic(Some(PacketReceived)), Transition(AuthenticationStarted),
                   Transition(AuthenticationAccepted);
    steps := [a, b, c];
    ThreeSteps(Start(startedAt, policy), a, b, c);
  }

  lemma ThreeSteps(v: View, a: Step, b: Step, c: Step)
    ensures Continue(v, [a, b, c]) == After(After(After(v, a), b), c)
  {
    hide After;
    assert [a, b, c][..2] == [a, b] && [a, b][..1] == [a] && [a][..0] == [];
    assert Continue(v, [a]) == After(v, a);
    assert Continue(v, [a, b]) == After(After(v, a), b);
  }

  // ---------------------------------------------------------------- traffic against disposal

  // What a packet call hands its packet to. Handlers and sender can end the call with an
  // error.
  datatype Part = Handler | Sender | Observers

  // The parts in the order a call reaches them. Inbound, an error of the handler comes last.
  function Plan(inbound: bool): (r: seq<Part>) {
    if inbound then [Observers, Handler] else [Handler, Sender, Observers]
  }

  // A packet call: between its two looks at the session, refused by one of them, or let
  // through, under way or stopped by an error, having reached that many parts of its plan.
  datatype Stage = Marked | Refused | Through(reached: nat) | Stopped(reached: nat)

  datatype Call = Call(inbound: bool, stage: Stage)

  datatype Traffic =
    | Enter(id: nat, inbound: bool, at: int)  // mark traffic, and activity when inbound
    | Check(id: nat)                          // the context snapshot
    | Hand(id: nat, ok: bool)                 // the next part is called, and returns
    | Other(step: Step)

  datatype World = World(view: View, calls: map<nat, Call>)

  function Advance(w: World, t: Traffic): World {
    match t
    case Other(step) => w.(view := After(w.view, step))
    case Check(id) =>
      if id in w.calls && w.calls[id].stage == Marked
      then w.(calls := w.calls[id := w.calls[id].(stage := if w.view.disconnected then Refused else Through(0))])
      else w
    case Hand(id, ok) => if id in w.calls then w.(calls := w.calls[id := Handed(w.calls[id], ok)]) else w
    case Enter(id, inbound, at) =>
      if id in w.calls then w
      else
        var mark := MarkTraffic(if inbound then Some(PacketReceived) else None);
        var marked := After(w.view, mark);
        if Refusal(w.view, mark).Some? then World(marked, w.calls[id := Call(inbound, Refused)])
        else World(if inbound then After(marked, MarkActivity(at)) else marked, w.calls[id := Call(inbound, Marked)])
  }

  function Handed(call: Call, ok: bool): Call {
    if !call.stage.Through? || call.stage.reached >= |Plan(call.inbound)| then call
    else
      var k := call.stage.reached;
      call.(stage := if ok || Plan(call.inbound)[k] == Observers then Through(k + 1) else Stopped(k + 1))
  }

  function Play(w: World, events: seq<Traffic>): World
    decreases |events|
  {
    if events == [] then w else Advance(Play(w, events[..|events| - 1]), events[|events| - 1])
  }

  // A new packet call is refused at its first look exactly when the session is disconnected;
  // otherwise it records the traffic and, inbound, the activity, and opens a new session.
  lemma EntersExactly(w: World, id: nat, inbound: bool, at: int)
    requires id !in w.calls
    ensures var v := w.view; var t := Advance(w, Enter(id, inbound, at));
      t == if v.disconnected then World(v, w.calls[id := Call(inbound, Refused)])
           else
             World(v.(trafficStarted := true,
                      lastActivityAt := if inbound then at else v.lastActivityAt,
                      state := if inbound && v.state == Created then Handshaking else v.state),
                   w.calls[id := Call(inbound, Marked)])
  {
  }

  // The second look lets it through exactly when the session is still connected.
  lemma ChecksExactly(w: World, id: nat)
    requires id in w.calls && w.calls[id].stage == Marked
    ensures var t := Advance(w, Check(id));
      t == World(w.view, w.calls[id := Call(w.calls[id].inbound, if w.view.disconnected then Refused else Through(0))])
  {
  }

  predicate LetThrough(call: Call) {
    call.stage.Through? || call.stage.Stopped?
  }

  function AdmittedCalls(w: World): set<nat> {
    set id | id in w.calls && LetThrough(w.calls[id])
  }

  // Marking traffic fails only because of disposal.
  lemma TrafficRefusedExactly(v: View, inbound: bool)
    ensures Refusal(v, MarkTraffic(if inbound then Some(PacketReceived) else None))
            == (if v.disconnected then Some(Disposed) else None)
  {
  }

  lemma AdvanceDisconnected(w: World, t: Traffic)
    requires Inv(w.view) && w.view.disconnected
    ensures Inv(Advance(w, t).view) && Advance(w, t).view.disconnected
    ensures AdmittedCalls(Advance(w, t)) == AdmittedCalls(w)
  {
    hide Inv;
    match t
    case Other(step) =>
      InvStep(w.view, step);
      StaysDisconnected(w.view, step);
    case Check(id) =>
    case Hand(id, ok) =>
    case Enter(id, inbound, at) =>
      TrafficRefusedExactly(w.view, inbound);
  }

  lemma StaysDisconnected(v: View, step: Step)
    requires v.disconnected
    ensures After(v, step).disconnected
  {
  }

  // Once the session is disconnected no packet is let through to handlers, sender or
  // observers any more, not even one that had already marked its traffic.
  lemma {:induction false} NothingAdmittedAfterDisconnect(w: World, events: seq<Traffic>)
    requires Inv(w.view) && w.view.disconnected
    ensures Inv(Play(w, events).view) && Play(w, events).view.disconnected
    ensures AdmittedCalls(Play(w, events)) == AdmittedCalls(w)
    decreases |events|
  {
    hide Inv, Advance, AdmittedCalls;
    if events != [] {
      NothingAdmittedAfterDisconnect(w, events[..|events| - 1]);
      AdvanceDisconnected(Play(w, events[..|events| - 1]), events[|events| - 1]);
    }
  }

  // ---------------------------------------------------------------- what still gets delivered

  // What the parts one call is handed to returned, in order.
  function Outcomes(events: seq<Traffic>, id: nat): seq<bool>
    decreases |events|
  {
    if events == [] then []
    else
      var t := events[|events| - 1];
      Outcomes(events[..|events| - 1], id) + (if t.Hand? && t.id == id then [t.ok] else [])
  }

  function HandedAll(call: Call, outcomes: seq<bool>): Call
    decreases |outcomes|
  {
    if outcomes == [] then call else HandedAll(Handed(call, outcomes[0]), outcomes[1..])
  }

  lemma {:induction false} HandedLast(call: Call, outcomes: seq<bool>, ok: bool)
    ensures HandedAll(call, outcomes + [ok]) == Handed(HandedAll(call, outcomes), ok)
    decreases |outcomes|
  {
    hide Handed;
    var all := outcomes + [ok];
    if outcomes == [] {
      assert all == [ok] && [ok][1..] == [];
      assert HandedAll(call, all) == HandedAll(Handed(call, all[0]), all[1..]);
    } else {
      assert all[1..] == outcomes[1..] + [ok];
      HandedLast(Handed(call, outcomes[0]), outcomes[1..], ok);
    }
  }

  lemma AdvanceAlone(w: World, t: Traffic, id: nat)
    requires id in w.calls && LetThrough(w.calls[id])
    ensures id in Advance(w, t).calls && LetThrough(Advance(w, t).calls[id])
    ensures Advance(w, t).calls[id] == (if t.Hand? && t.id == id then Handed(w.calls[id], t.ok) else w.calls[id])
  {
    hide After, Refusal;
  }

  // A call that was let through goes on by itself, whatever else happens to the session.
  lemma {:induction false} GoesOnAlone(w: World, events: seq<Traffic>, id: nat)
    requires id in w.calls && LetThrough(w.calls[id])
    ensures id in Play(w, events).calls && LetThrough(Play(w, events).calls[id])
    ensures Play(w, events).calls[id] == HandedAll(w.calls[id], Outcomes(events, id))
    decreases |events|
  {
    hide Advance, Handed, LetThrough;
    if events != [] {
      var front, t := events[..|events| - 1], events[|events| - 1];
      GoesOnAlone(w, front, id);
      AdvanceAlone(Play(w, front), t, id);
      if t.Hand? && t.id == id {
        HandedLast(w.calls[id], Outcomes(front, id), t.ok);
      } else {
        assert Outcomes(front, id) + [] == Outcomes(front, id);
      }
    }
  }

  // The call reached the i-th part of its plan.
  predicate Reached(w: World, id: nat, i: nat) {
    id in w.calls && LetThrough(w.calls[id]) && i < w.calls[id].stage.reached
  }

  // From the k-th part on, these outcomes take the call to the i-th part: there are enough
  // of them, and none of the parts before ended it with an error.
  predicate Leads(plan: seq<Part>, k: nat, outcomes: seq<bool>, i: nat)
    requires i < |plan|
  {
    k <= i < k + |outcomes| && forall j :: k <= j < i ==> plan[j] == Observers || outcomes[j - k]
  }

  lemma LeadsOn(plan: seq<Part>, k: nat, outcomes: seq<bool>, i: nat)
    requires k < i < |plan| && outcomes != []
    ensures Leads(plan, k, outcomes, i)
            <==> (outcomes[0] || plan[k] == Observers) && Leads(plan, k + 1, outcomes[1..], i)
  {
    var rest := outcomes[1..];
    if (outcomes[0] || plan[k] == Observers) && Leads(plan, k + 1, rest, i) {
      forall j | k <= j < i ensures plan[j] == Observers || outcomes[j - k] {
        if j > k {
          assert outcomes[j - k] == rest[j - (k + 1)];
        }
      }
    }
  }

  lemma {:induction false} HandedReaches(call: Call, outcomes: seq<bool>, i: nat)
    requires i < |Plan(call.inbound)| && LetThrough(call)
    ensures LetThrough(HandedAll(call, outcomes))
    ensures i < HandedAll(call, outcomes).stage.reached
            <==> i < call.stage.reached
                 || (call.stage.Through? && Leads(Plan(call.inbound), call.stage.reached, outcomes, i))
    decreases |outcomes|
  {
    hide Leads;
    var plan, k := Plan(call.inbound), call.stage.reached;
    if outcomes == [] {
      LeadsNowhere(plan, k, i);
    } else {
      HandedReaches(Handed(call, outcomes[0]), outcomes[1..], i);
      if call.stage.Through? && k < i {
        LeadsOn(plan, k, outcomes, i);
      } else if call.stage.Through? && k == i {
        LeadsHere(plan, k, outcomes);
      }
    }
  }

  lemma LeadsNowhere(plan: seq<Part>, k: nat, i: nat)
    requires i < |plan|
    ensures !Leads(plan, k, [], i)
  {
  }

  lemma LeadsHere(plan: seq<Part>, k: nat, outcomes: seq<bool>)
    requires k < |plan| && outcomes != []
    ensures Leads(plan, k, outcomes, k)
  {
  }

  // What the plans say: inbound the observers come first and the handler follows whatever
  // happens; outbound the sender needs the handlers' consent, and the observers, last, that
  // the packet was sent.
  lemma PlansMean(outcomes: seq<bool>)
    ensures |Plan(true)| == 2 && Plan(true)[0] == Observers && Plan(true)[1] == Handler
    ensures Leads(Plan(true), 0, outcomes, 1) <==> |outcomes| >= 2
    ensures |Plan(false)| == 3 && Plan(false)[0] == Handler && Plan(false)[1] == Sender && Plan(false)[2] == Observers
    ensures Leads(Plan(false), 0, outcomes, 1) <==> |outcomes| >= 2 && outcomes[0]
    ensures Leads(Plan(false), 0, outcomes, 2) <==> |outcomes| >= 3 && outcomes[0] && outcomes[1]
  {
    var plan := Plan(false);
    assert plan[0] == Handler && plan[1] == Sender;
  }

  // After Disconnect got past the flag, a packet still reaches a part of its plan exactly
  // when its call had been let through before, was not stopped, and its own remaining parts
  // lead there.
  lemma DeliveredAfterDisconnect(w: World, events: seq<Traffic>, id: nat, i: nat)
    requires Inv(w.view) && w.view.disconnected
    requires id in w.calls ==> i < |Plan(w.calls[id].inbound)|
    ensures Reached(Play(w, events), id, i)
            <==> Reached(w, id, i)
                 || (id in w.calls && w.calls[id].stage.Through?
                     && Leads(Plan(w.calls[id].inbound), w.calls[id].stage.reached, Outcomes(events, id), i))
  {
    hide Inv, Play, Leads;
    NothingAdmittedAfterDisconnect(w, events);
    assert id in AdmittedCalls(w) <==> id in AdmittedCalls(Play(w, events));
    if id in AdmittedCalls(w) {
      GoesOnAlone(w, events, id);
      HandedReaches(w.calls[id], Outcomes(events, id), i);
    }
  }
}
