// internal/plugin/player/access.go (invokeInterceptor) over internal/plugin/runtime/scope.go
// (InvokeCallback), as a state machine whose steps are the single atomic actions of the
// host goroutine and of any number of plugin goroutines calling next, in any order.
module Interceptor {
  import opened Wrappers

  // Errors, nil among them. Infrastructure stands for every error that errors.Is
  // recognises as a callback panic, a callback timeout or a disabled plugin; a plugin may
  // return one itself, having got it from an inner plugin.
  datatype Failure = Disabled | Panicked | TimedOut
  datatype Error = Plain(code: int) | Infrastructure(failure: Failure)

  // Who produced the error that invokeInterceptor returns.
  datatype Answer = PluginAnswer(error: Error) | NativeAnswer(error: Error) | FailureAnswer(error: Error)

  datatype Host =
    | Entering          // about to check the plugin scope
    | Waiting           // callback started, select pending
    | Cancelling        // select done, deferred cancel pending
    | Deactivating      // about to clear active
    | Judging           // about to look at the error and at called
    | CallingNative     // about to run the native handler itself
    | InNative          // inside it
    | Asking            // about to load completed
    | Reading           // about to take the stored result
    | Returned(answer: Answer)

  datatype Caller =
    | AtActive | AtSwap | AtContext | AtNative | Inside | AtStore(error: Error) | AtComplete
    | Refused  // ErrNextUnavailable, or the context error
    | Done

  // derived says of each goroutine whether the context it hands to next descends from the
  // callback context, so that it reports an error once that is cancelled. The last row
  // records history: who won the swap, whether its context was another one, whether the
  // host saw that somebody had won, who entered the native handler, how often it was entered
  // and what it returned.
  datatype State = State(
    host: Host, error: Error, invoked: bool, enabled: bool,
    active: bool, called: bool, completed: bool, cancelled: bool, nextResult: Option<Error>,
    callers: map<int, Caller>, derived: map<int, bool>,
    owner: Option<int>, foreign: bool, seen: bool, started: bool, hostStarted: bool, runs: nat, results: seq<Error>)

  function Start(): State {
    State(Entering, Plain(0), false, true, true, false, false, false, None, map[], map[],
          None, false, false, false, false, 0, [])
  }

  datatype Event =
    | Disable                        // another callback of this plugin panicked
    | Enter
    | Expire                         // the callback deadline passes
    | Finish(error: Error)           // select sees the callback's own error
    | Panic                          // select sees a recovered panic
    | TimeOut                        // select sees the expired context
    | Cancel
    | Deactivate
    | Judge
    | EnterHost
    | LeaveHost(error: Error)
    | Ask
    | Read
    | Call(id: int, derived: bool)   // some plugin goroutine calls next
    | LoadActive(id: int)
    | Swap(id: int)
    | CheckContext(id: int, expired: bool)
    | EnterNative(id: int)
    | LeaveNative(id: int, error: Error)
    | Store(id: int)
    | Complete(id: int)

  predicate At(s: State, id: int, pc: Caller) {
    id in s.callers && s.callers[id] == pc
  }

  predicate Derived(s: State, id: int) {
    id in s.derived && s.derived[id]
  }

  function Move(s: State, id: int, pc: Caller): State {
    s.(callers := s.callers[id := pc])
  }

  // The host until it has cleared active.
  predicate Selecting(e: Event) {
    e.Disable? || e.Enter? || e.Expire? || e.Finish? || e.Panic? || e.TimeOut? || e.Cancel? || e.Deactivate?
  }

  // Each function is one atomic step; an event whose turn it is not changes nothing.
  function Select(s: State, e: Event): (t: State)
    requires Selecting(e)
    ensures t.foreign == s.foreign
  {
    match e
    case Disable => s.(enabled := false)
    case Enter =>
      if s.host != Entering then s
      else if s.enabled then s.(host := Waiting, invoked := true)
      else s.(host := Deactivating, error := Infrastructure(Disabled))
    case Expire => if s.invoked then s.(cancelled := true) else s
    case Finish(error) => if s.host == Waiting then s.(host := Cancelling, error := error) else s
    case Panic =>
      if s.host == Waiting then s.(host := Cancelling, error := Infrastructure(Panicked), enabled := false) else s
    case TimeOut =>
      if s.host == Waiting && s.cancelled then s.(host := Cancelling, error := Infrastructure(TimedOut)) else s
    case Cancel => if s.host == Cancelling then s.(host := Deactivating, cancelled := true) else s
    case Deactivate => if s.host == Deactivating then s.(host := Judging, active := false) else s
  }

  // The host from there to its return.
  predicate Deciding(e: Event) {
    e.Judge? || e.EnterHost? || e.LeaveHost? || e.Ask? || e.Read?
  }

  function Decide(s: State, e: Event): (t: State)
    requires Deciding(e)
    ensures t.foreign == s.foreign
  {
    match e
    case Judge =>
      if s.host != Judging then s
      else if s.error.Plain? then s.(host := Returned(PluginAnswer(s.error)))
      else if !s.called then s.(host := CallingNative)
      else s.(host := Asking, seen := true)
    case EnterHost =>
      if s.host == CallingNative then s.(host := InNative, hostStarted := true, runs := s.runs + 1) else s
    case LeaveHost(error) =>
      if s.host == InNative then s.(host := Returned(NativeAnswer(error)), results := s.results + [error]) else s
    case Ask =>
      if s.host != Asking then s
      else if s.completed then s.(host := Reading)
      else s.(host := Returned(FailureAnswer(s.error)))
    case Read =>
      if s.host == Reading && s.nextResult.Some? then s.(host := Returned(NativeAnswer(s.nextResult.value))) else s
  }

  // A goroutine inside next until it may run the native handler.
  predicate Admitting(e: Event) {
    e.Call? || e.LoadActive? || e.Swap? || e.CheckContext?
  }

  function Admit(s: State, e: Event): (t: State)
    requires Admitting(e)
    ensures s.foreign ==> t.foreign
  {
    match e
    case Call(id, derived) =>
      if s.invoked && id !in s.callers then
        s.(callers := s.callers[id := AtActive], derived := s.derived[id := derived])
      else s
    case LoadActive(id) =>
      if At(s, id, AtActive) then Move(s, id, if s.active then AtSwap else Refused) else s
    case Swap(id) =>
      if !At(s, id, AtSwap) then s
      else if s.called then Move(s, id, Refused)
      else s.(callers := s.callers[id := AtContext], called := true, owner := Some(id),
              foreign := s.foreign || !Derived(s, id))
    case CheckContext(id, expired) =>
      if At(s, id, AtContext) && (Derived(s, id) && s.cancelled ==> expired)
      then Move(s, id, if expired then Refused else AtNative) else s
  }

  // A goroutine running it.
  predicate Serving(e: Event) {
    e.EnterNative? || e.LeaveNative? || e.Store? || e.Complete?
  }

  function Serve(s: State, e: Event): (t: State)
    requires Serving(e)
    ensures t.foreign == s.foreign
  {
    match e
    case EnterNative(id) =>
      if At(s, id, AtNative) then Move(s, id, Inside).(started := true, runs := s.runs + 1) else s
    case LeaveNative(id, error) =>
      if At(s, id, Inside) then Move(s, id, AtStore(error)).(results := s.results + [error]) else s
    case Store(id) =>
      if id in s.callers && s.callers[id].AtStore?
      then Move(s, id, AtComplete).(nextResult := Some(s.callers[id].error)) else s
    case Complete(id) => if At(s, id, AtComplete) then Move(s, id, Done).(completed := true) else s
  }

  function Next(s: State, e: Event): State {
    if Selecting(e) then Select(s, e)
    else if Deciding(e) then Decide(s, e)
    else if Admitting(e) then Admit(s, e)
    else Serve(s, e)
  }

  function Continue(s: State, es: seq<Event>): State
    decreases |es|
  {
    if es == [] then s else Next(Continue(s, es[..|es| - 1]), es[|es| - 1])
  }

  function Run(es: seq<Event>): State {
    Continue(Start(), es)
  }

  // ---------------------------------------------------------------- the invariant

  // Where a goroutine can be once it has won the swap.
  predicate Won(pc: Caller) {
    pc != AtActive && pc != AtSwap
  }

  predicate HasStarted(pc: Caller) {
    pc == Inside || pc.AtStore? || pc == AtComplete || pc == Done
  }

  ghost predicate OwnerInv(s: State) {
    && (s.called <==> s.owner.Some?)
    && (s.owner.Some? ==> s.owner.value in s.callers && Won(s.callers[s.owner.value]))
    && (forall id :: id in s.callers && Won(s.callers[id]) && s.callers[id] != Refused ==> s.owner == Some(id))
    && (!s.invoked ==> s.callers == map[])
    && (s.owner.Some? && !s.foreign ==> Derived(s, s.owner.value))
  }

  predicate StartInv(s: State)
    requires OwnerInv(s)
  {
    && (s.started <==> s.owner.Some? && HasStarted(s.callers[s.owner.value]))
    && (s.completed <==> s.owner.Some? && s.callers[s.owner.value] == Done)
    && s.runs == (if s.started then 1 else 0) + (if s.hostStarted then 1 else 0)
  }

  // A winner that is not in the handler, and has not been let in.
  predicate NotIn(pc: Caller) {
    pc == AtContext || pc == Refused
  }

  predicate HasResult(pc: Caller) {
    pc == AtComplete || pc == Done
  }

  // The host has not got past its select.
  predicate Early(h: Host) {
    h == Entering || h == Waiting || h == Cancelling
  }

  // The host runs, or has run, the native handler itself.
  predicate TakesOver(s: State) {
    s.host == CallingNative || s.hostStarted
  }

  predicate HostInv(s: State)
    requires OwnerInv(s)
  {
    && (!Early(s.host) && s.invoked ==> s.cancelled)
    && (s.host == Entering ==> !s.invoked)
    && (s.host == InNative ==> s.hostStarted)
    && (s.hostStarted ==> s.host == InNative || (s.host.Returned? && s.host.answer.NativeAnswer?))
    && (TakesOver(s) && s.owner.Some? ==> NotIn(s.callers[s.owner.value]))
    && (s.host == CallingNative || s.host == InNative || s.host == Asking || s.host == Reading ==>
          s.error.Infrastructure?)
    && (s.seen ==> s.called)
    && (s.seen <==> s.host == Asking || s.host == Reading
                    || (s.host.Returned? && s.error.Infrastructure? && !s.hostStarted))
    && (s.host == Reading ==> s.completed)
  }

  predicate AnswerInv(s: State) {
    s.host.Returned? ==>
      match s.host.answer
      case PluginAnswer(error) => error == s.error && error.Plain? && !s.hostStarted
      case FailureAnswer(error) => error == s.error && error.Infrastructure? && s.called && !s.hostStarted
      case NativeAnswer(error) =>
        s.error.Infrastructure? && s.results == [error] && (s.hostStarted || s.completed)
  }

  predicate ResultInv(s: State)
    requires OwnerInv(s)
  {
    && (!s.started && !(s.hostStarted && s.host.Returned?) ==> s.results == [])
    && (s.owner.Some? && s.callers[s.owner.value] == Inside ==> s.results == [])
    && (s.owner.Some? && s.callers[s.owner.value].AtStore? ==> s.results == [s.callers[s.owner.value].error])
    && (s.owner.Some? && HasResult(s.callers[s.owner.value]) ==> s.nextResult.Some?)
    && (s.nextResult.Some? ==> s.started && s.results == [s.nextResult.value])
  }

  ghost predicate Inv(s: State) {
    OwnerInv(s) && StartInv(s) && HostInv(s) && AnswerInv(s) && ResultInv(s)
  }

  // ---------------------------------------------------------------- every run

  lemma WaitStep(s: State, e: Event)
    requires Inv(s) && (e.Disable? || e.Enter? || e.Expire? || e.Finish?)
    ensures Inv(Select(s, e))
  {
  }

  lemma EndStep(s: State, e: Event)
    requires Inv(s) && (e.Panic? || e.TimeOut? || e.Cancel? || e.Deactivate?)
    ensures Inv(Select(s, e))
  {
  }

  // What only looks at the host is all that a step of the host alone can break.
  lemma HostAlone(s: State, h: Host, seen: bool)
    requires OwnerInv(s) && StartInv(s) && ResultInv(s) && !s.hostStarted
    ensures var t := s.(host := h, seen := seen); OwnerInv(t) && StartInv(t) && ResultInv(t)
  {
  }

  lemma OwnerKnown(s: State)
    requires OwnerInv(s)
    ensures s.called <==> s.owner.Some?
    ensures s.owner.Some? ==> s.owner.value in s.callers
  {
  }

  function Verdict(s: State): Host {
    if s.error.Plain? then Returned(PluginAnswer(s.error)) else if !s.called then CallingNative else Asking
  }

  lemma Judged(s: State)
    requires s.host == Judging && !s.seen
    ensures Decide(s, Judge) == s.(host := Verdict(s), seen := s.error.Infrastructure? && s.called)
  {
  }

  lemma HostMoves(s: State)
    requires Inv(s) && s.host == Judging
    ensures Inv(s.(host := Verdict(s), seen := s.error.Infrastructure? && s.called))
  {
    hide OwnerInv, StartInv, ResultInv;
    HostAlone(s, Verdict(s), s.error.Infrastructure? && s.called);
    OwnerKnown(s);
  }

  lemma NotJudging(s: State)
    requires s.host != Judging
    ensures Decide(s, Judge) == s
  {
  }

  lemma NotSeenYet(s: State)
    requires Inv(s) && s.host == Judging
    ensures !s.seen
  {
  }

  lemma JudgeStep(s: State)
    requires Inv(s)
    ensures Inv(Decide(s, Judge))
  {
    hide Inv, Decide, Verdict;
    if s.host == Judging {
      NotSeenYet(s);
      Judged(s);
      HostMoves(s);
    } else {
      NotJudging(s);
    }
  }

  lemma TakeOverStep(s: State, e: Event)
    requires Inv(s) && (e.EnterHost? || e.LeaveHost?)
    ensures Inv(Decide(s, e))
  {
  }

  lemma AskStep(s: State, e: Event)
    requires Inv(s) && (e.Ask? || e.Read?)
    ensures Inv(Decide(s, e))
  {
  }

  lemma CallStep(s: State, e: Event)
    requires Inv(s) && (e.Call? || e.LoadActive?)
    ensures Inv(Admit(s, e))
  {
  }

  lemma SwapStep(s: State, id: int)
    requires Inv(s) && !Admit(s, Swap(id)).foreign
    ensures Inv(Admit(s, Swap(id)))
  {
  }

  // The winner of the swap cannot enter the handler once the host may have taken over:
  // its context was cancelled before the host looked at called.
  lemma CheckStep(s: State, id: int, expired: bool)
    requires Inv(s) && !s.foreign
    ensures Inv(Admit(s, CheckContext(id, expired)))
  {
  }

  lemma EnterStep(s: State, e: Event)
    requires Inv(s) && (e.EnterNative? || e.LeaveNative?)
    ensures Inv(Serve(s, e))
  {
  }

  lemma StoreStep(s: State, e: Event)
    requires Inv(s) && (e.Store? || e.Complete?)
    ensures Inv(Serve(s, e))
  {
  }

  lemma InvStep(s: State, e: Event)
    requires Inv(s) && !Next(s, e).foreign
    ensures Inv(Next(s, e))
  {
    hide Inv, Select, Decide, Admit, Serve;
    if e.Panic? || e.TimeOut? || e.Cancel? || e.Deactivate? {
      EndStep(s, e);
    } else if Selecting(e) {
      WaitStep(s, e);
    } else if e.Judge? {
      JudgeStep(s);
    } else if e.Ask? || e.Read? {
      AskStep(s, e);
    } else if Deciding(e) {
      TakeOverStep(s, e);
    } else {
      GoroutineStep(s, e);
    }
  }

  lemma GoroutineStep(s: State, e: Event)
    requires Inv(s) && !Next(s, e).foreign && !Selecting(e) && !Deciding(e)
    ensures Inv(Next(s, e))
  {
    hide Inv, Select, Decide, Admit, Serve;
    if e.Swap? {
      SwapStep(s, e.id);
    } else if e.CheckContext? {
      CheckStep(s, e.id, e.expired);
    } else if Admitting(e) {
      CallStep(s, e);
    } else if e.EnterNative? || e.LeaveNative? {
      EnterStep(s, e);
    } else {
      StoreStep(s, e);
    }
  }

  lemma ForeignStays(s: State, e: Event)
    ensures s.foreign ==> Next(s, e).foreign
  {
    hide Select, Decide, Admit, Serve;
  }

  lemma {:induction false} InvariantHolds(es: seq<Event>)
    requires !Run(es).foreign
    ensures Inv(Run(es))
  {
    hide Inv, Next;
    if es == [] {
      InvariantAtStart();
    } else {
      ForeignStays(Run(es[..|es| - 1]), es[|es| - 1]);
      InvariantHolds(es[..|es| - 1]);
      InvStep(Run(es[..|es| - 1]), es[|es| - 1]);
    }
  }

  lemma InvariantAtStart()
    ensures Inv(Start())
  {
  }

  // ---------------------------------------------------------------- what a whole run guarantees

  lemma ContinueStep(s: State, es: seq<Event>, e: Event)
    ensures Continue(s, es + [e]) == Next(Continue(s, es), e)
  {
    assert (es + [e])[..|es|] == es;
  }

  // When the goroutine that wins the swap uses a derived context, the native handler runs at
  // most once, whatever contexts the others use and however the steps interleave.
  lemma AtMostOnce(es: seq<Event>)
    requires !Run(es).foreign
    ensures Run(es).runs <= 1
  {
    hide Run;
    InvariantHolds(es);
  }

  lemma {:induction false} ContinueConcat(s: State, a: seq<Event>, b: seq<Event>)
    ensures Continue(s, a + b) == Continue(Continue(s, a), b)
    decreases |b|
  {
    hide Next;
    if b == [] {
      assert a + b == a;
    } else {
      var front, e := b[..|b| - 1], b[|b| - 1];
      ContinueConcat(s, a, front);
      ContinueStep(s, a + front, e);
      assert a + b == a + front + [e];
    }
  }

  lemma ThreeSteps(s: State, a: Event, b: Event, c: Event)
    ensures Continue(s, [a, b, c]) == Next(Next(Next(s, a), b), c)
  {
    hide Next;
    assert [a, b, c][..2] == [a, b] && [a, b][..1] == [a];
    assert Continue(s, [a]) == Next(s, a);
    assert Continue(s, [a, b]) == Next(Continue(s, [a]), b);
  }

  // Otherwise it can run twice: a goroutine loads active, the host gives up on the
  // callback, finds that nobody called and runs the handler itself, and only then does the
  // goroutine swap called, with a context that is still good.
  function Called(): seq<Event> { [Enter, Call(0, false), LoadActive(0)] }
  function GivenUp(): seq<Event> { [Expire, TimeOut, Cancel] }
  function TakenOver(): seq<Event> { [Deactivate, Judge, EnterHost] }
  function SlippedIn(): seq<Event> { [Swap(0), CheckContext(0, false), EnterNative(0)] }
  function Race(): seq<Event> { Called() + GivenUp() + TakenOver() + SlippedIn() }

  lemma RaceInOrder()
    ensures Run(Race())
            == Continue(Continue(Continue(Run(Called()), GivenUp()), TakenOver()), SlippedIn())
  {
    hide Next, Continue;
    ContinueConcat(Start(), Called(), GivenUp());
    ContinueConcat(Start(), Called() + GivenUp(), TakenOver());
    ContinueConcat(Start(), Called() + GivenUp() + TakenOver(), SlippedIn());
  }

  predicate AboutToSwap(s: State) {
    At(s, 0, AtSwap) && !Derived(s, 0) && !s.called && s.invoked && s.runs == 0
  }

  lemma CallerLoads()
    ensures AboutToSwap(Run(Called())) && Run(Called()).host == Waiting
  {
    hide Continue;
    ThreeSteps(Start(), Enter, Call(0, false), LoadActive(0));
  }

  lemma HostGivesUp(s: State)
    requires AboutToSwap(s) && s.host == Waiting
    ensures AboutToSwap(Continue(s, GivenUp()))
    ensures Continue(s, GivenUp()).host == Deactivating && Continue(s, GivenUp()).error == Infrastructure(TimedOut)
  {
    hide Continue;
    ThreeSteps(s, Expire, TimeOut, Cancel);
  }

  lemma HostTakesOver(s: State)
    requires AboutToSwap(s) && s.host == Deactivating && s.error == Infrastructure(TimedOut)
    ensures var t := Continue(s, TakenOver()); At(t, 0, AtSwap) && !Derived(t, 0) && !t.called && t.runs == 1
  {
    hide Continue;
    ThreeSteps(s, Deactivate, Judge, EnterHost);
  }

  lemma CallerSlipsIn(s: State)
    requires At(s, 0, AtSwap) && !Derived(s, 0) && !s.called && s.runs == 1
    ensures Continue(s, SlippedIn()).runs == 2 && Continue(s, SlippedIn()).foreign
  {
    hide Continue, Next, At, Derived;
    ThreeSteps(s, Swap(0), CheckContext(0, false), EnterNative(0));
    WinsSwap(s);
    PassesCheck(Next(s, Swap(0)));
    EntersNative(Next(Next(s, Swap(0)), CheckContext(0, false)));
  }

  lemma WinsSwap(s: State)
    requires At(s, 0, AtSwap) && !Derived(s, 0) && !s.called
    ensures var t := Next(s, Swap(0)); At(t, 0, AtContext) && !Derived(t, 0) && t.foreign && t.runs == s.runs
  {
  }

  lemma PassesCheck(s: State)
    requires At(s, 0, AtContext) && !Derived(s, 0)
    ensures var t := Next(s, CheckContext(0, false));
            At(t, 0, AtNative) && t.foreign == s.foreign && t.runs == s.runs
  {
  }

  lemma EntersNative(s: State)
    requires At(s, 0, AtNative)
    ensures var t := Next(s, EnterNative(0));
            t.runs == s.runs + 1 && t.foreign == s.foreign
  {
  }

  lemma RaceRunsTwice()
    ensures Run(Race()).runs == 2 && Run(Race()).foreign
  {
    hide Continue;
    RaceInOrder();
    CallerLoads();
    HostGivesUp(Run(Called()));
    HostTakesOver(Continue(Run(Called()), GivenUp()));
    CallerSlipsIn(Continue(Continue(Run(Called()), GivenUp()), TakenOver()));
  }

  // In a run whose winner's context is derived or not as allowed, the handler ran at most once.
  predicate Within(foreignAllowed: bool, es: seq<Event>) {
    (Run(es).foreign ==> foreignAllowed) ==> Run(es).runs <= 1
  }

  // So at-most-once holds of all runs exactly when only derived contexts may win.
  lemma AtMostOnceIffDerived(foreignAllowed: bool)
    ensures (forall es: seq<Event> :: Within(foreignAllowed, es)) <==> !foreignAllowed
  {
    hide Run;
    if foreignAllowed {
      RaceRunsTwice();
      assert !Within(true, Race());
    } else {
      forall es: seq<Event> ensures Within(false, es) {
        if !Run(es).foreign {
          AtMostOnce(es);
        }
      }
    }
  }

  // What the host returns, and what the native handler did by then.
  predicate Meaning(s: State)
    requires s.host.Returned?
  {
    match s.host.answer
    case PluginAnswer(error) => s.error == error && error.Plain?
    case NativeAnswer(error) => s.error.Infrastructure? && s.runs == 1 && s.results == [error]
    case FailureAnswer(error) => s.error == error && error.Infrastructure? && s.called
  }

  // The plugin's own answer stands unless infrastructure failed. After a failure the
  // handler's own answer is returned if the host or a completed goroutine has one; and if the
  // host saw nobody win the swap, the handler ran exactly once.
  lemma AnswerMeaning(es: seq<Event>)
    requires Run(es).host.Returned? && !Run(es).foreign
    ensures Meaning(Run(es))
    ensures Run(es).error.Infrastructure? && !Run(es).seen ==>
              Run(es).host.answer.NativeAnswer? && Run(es).runs == 1
  {
    InvariantHolds(es);
    AnsweredOnce(Run(es));
  }

  lemma AnsweredOnce(s: State)
    requires Inv(s) && s.host.Returned?
    ensures Meaning(s)
    ensures s.error.Infrastructure? && !s.seen ==> s.host.answer.NativeAnswer? && s.runs == 1
  {
  }

  // After a failure, once the winner of the swap is through: the handler has not run at all
  // exactly when the host saw that somebody had won, and the winner was then turned away by
  // its context. A winner that comes later is turned away too, but the host has stepped in.
  lemma DroppedExactlyWhenRefused(es: seq<Event>)
    requires Run(es).host.Returned? && Run(es).error.Infrastructure?
    requires !Run(es).foreign
    requires Run(es).owner.Some? ==>
               At(Run(es), Run(es).owner.value, Refused) || At(Run(es), Run(es).owner.value, Done)
    ensures Run(es).runs == 0 <==>
              Run(es).seen && Run(es).owner.Some? && At(Run(es), Run(es).owner.value, Refused)
  {
    hide Run;
    InvariantHolds(es);
    DroppedState(Run(es));
  }

  lemma DroppedState(s: State)
    requires Inv(s) && s.host.Returned? && s.error.Infrastructure?
    requires s.owner.Some? ==> At(s, s.owner.value, Refused) || At(s, s.owner.value, Done)
    ensures s.runs == 0 <==> s.seen && s.owner.Some? && At(s, s.owner.value, Refused)
  {
  }

  // ---------------------------------------------------------------- undisturbed calls

  lemma {:induction false} FirstThenRest(s: State, e: Event, es: seq<Event>)
    ensures Continue(s, [e] + es) == Continue(Next(s, e), es)
  {
    hide Next;
    ContinueConcat(s, [e], es);
    assert [e][..0] == [];
    assert Continue(s, [e]) == Next(Continue(s, []), e);
  }

  // What the host does once its select is done, if nobody gets in between; result is what
  // the native handler returns to it, should it run it.
  function Finale(s: State, result: Error): seq<Event> {
    [Cancel, Deactivate, Judge]
    + (if s.error.Plain? then [] else if !s.called then [EnterHost, LeaveHost(result)]
       else if s.completed then [Ask, Read] else [Ask])
  }

  lemma Cancels(s: State)
    requires s.host == Cancelling
    ensures Next(s, Cancel) == s.(host := Deactivating, cancelled := true)
  {
  }

  lemma Clears(s: State)
    requires s.host == Deactivating
    ensures Next(s, Deactivate) == s.(host := Judging, active := false)
  {
  }

  lemma Judges(s: State)
    requires s.host == Cancelling && !s.seen
    ensures Continue(s, [Cancel, Deactivate, Judge]) == Settling(s)
  {
    hide Continue, Next, Verdict;
    ThreeSteps(s, Cancel, Deactivate, Judge);
    Cancels(s);
    Clears(s.(host := Deactivating, cancelled := true));
    var t := s.(host := Judging, cancelled := true, active := false);
    JudgedNext(t);
    SameVerdict(s, t);
  }

  lemma JudgedNext(s: State)
    requires s.host == Judging && !s.seen
    ensures Next(s, Judge) == s.(host := Verdict(s), seen := s.error.Infrastructure? && s.called)
  {
    Judged(s);
  }

  lemma SameVerdict(s: State, t: State)
    requires t.error == s.error && t.called == s.called
    ensures Verdict(t) == Verdict(s)
  {
  }

  // The host has cancelled the context, cleared active and looked at error and called.
  function Settling(s: State): State {
    s.(cancelled := true, active := false, seen := s.error.Infrastructure? && s.called, host := Verdict(s))
  }

  // The callback's own answer stands. After a failure the host runs the handler itself when
  // nobody called it, hands on the result of a call that completed, and otherwise returns
  // the failure; in every case next is no longer available.
  lemma HostFinishes(s: State, result: Error)
    requires Inv(s) && s.host == Cancelling
    ensures Continue(s, Finale(s, result))
            == if s.error.Plain? then Settling(s)
               else if !s.called then
                 Settling(s).(host := Returned(NativeAnswer(result)), hostStarted := true, runs := s.runs + 1,
                              results := s.results + [result])
               else if s.completed && s.nextResult.Some? then
                 Settling(s).(host := Returned(NativeAnswer(s.nextResult.value)))
               else Settling(s).(host := Returned(FailureAnswer(s.error)))
  {
    hide Continue, Next, Inv;
    NotYetSeen(s);
    Judges(s);
    var rest := Finale(s, result)[3..];
    ContinueConcat(s, [Cancel, Deactivate, Judge], rest);
    assert Finale(s, result) == [Cancel, Deactivate, Judge] + rest;
    CompletedStored(s);
    if s.error.Plain? {
      ContinueNothing(Settling(s));
    } else if !s.called {
      RunsItself(Settling(s), result);
    } else {
      Asks(Settling(s));
    }
  }

  lemma RunsItself(s: State, result: Error)
    requires s.host == CallingNative
    ensures Continue(s, [EnterHost, LeaveHost(result)])
            == s.(host := Returned(NativeAnswer(result)), hostStarted := true, runs := s.runs + 1,
                  results := s.results + [result])
  {
    hide Continue;
    TwoSteps(s, EnterHost, LeaveHost(result));
  }

  lemma Asks(s: State)
    requires s.host == Asking
    ensures s.completed && s.nextResult.Some? ==>
              Continue(s, [Ask, Read]) == s.(host := Returned(NativeAnswer(s.nextResult.value)))
    ensures !s.completed ==> Continue(s, [Ask]) == s.(host := Returned(FailureAnswer(s.error)))
  {
    hide Continue;
    TwoSteps(s, Ask, Read);
    OneStep(s, Ask);
  }

  lemma NotYetSeen(s: State)
    requires Inv(s) && s.host == Cancelling
    ensures !s.seen
  {
  }

  lemma CompletedStored(s: State)
    requires Inv(s)
    ensures s.completed ==> s.nextResult.Some?
  {
  }

  lemma ContinueNothing(s: State)
    ensures Continue(s, []) == s
  {
  }

  lemma OneStep(s: State, a: Event)
    ensures Continue(s, [a]) == Next(s, a)
  {
    hide Next;
    assert [a][..0] == [];
    assert Continue(s, []) == s;
  }

  lemma TwoSteps(s: State, a: Event, b: Event)
    ensures Continue(s, [a, b]) == Next(Next(s, a), b)
  {
    hide Next;
    assert [a, b][..1] == [a];
    OneStep(s, a);
  }

  // How the callback can end: by its own error, by a panic, which disables the plugin, or by
  // its deadline; or it never starts, because the plugin is disabled.
  lemma CallbackEnds(s: State, error: Error)
    requires s.host == Waiting && s.invoked
    ensures Next(s, Finish(error)) == s.(host := Cancelling, error := error)
    ensures Next(s, Panic) == s.(host := Cancelling, error := Infrastructure(Panicked), enabled := false)
    ensures Continue(s, [Expire, TimeOut])
            == s.(host := Cancelling, error := Infrastructure(TimedOut), cancelled := true)
    ensures !s.cancelled ==> Next(s, TimeOut) == s
  {
    hide Continue, Next;
    TwoSteps(s, Expire, TimeOut);
    EndsItself(s, error);
    Expires(s);
    TimesOut(s);
    TimesOut(s.(cancelled := true));
  }

  lemma EndsItself(s: State, error: Error)
    requires s.host == Waiting
    ensures Next(s, Finish(error)) == s.(host := Cancelling, error := error)
    ensures Next(s, Panic) == s.(host := Cancelling, error := Infrastructure(Panicked), enabled := false)
  {
  }

  lemma Expires(s: State)
    requires s.invoked
    ensures Next(s, Expire) == s.(cancelled := true)
  {
  }

  lemma TimesOut(s: State)
    requires s.host == Waiting
    ensures Next(s, TimeOut) == if s.cancelled then s.(host := Cancelling, error := Infrastructure(TimedOut)) else s
  {
  }

  lemma CallbackStarts(s: State)
    requires s.host == Entering
    ensures Next(s, Enter) == if s.enabled then s.(host := Waiting, invoked := true)
                              else s.(host := Deactivating, error := Infrastructure(Disabled))
    ensures !Next(s, Disable).enabled
  {
  }

  // A disabled plugin is passed over: the host runs the handler itself, and nobody else can.
  lemma DisabledPassedOver(result: Error)
    ensures var t := Run([Disable, Enter, Deactivate] + [Judge, EnterHost, LeaveHost(result)]);
      t.host == Returned(NativeAnswer(result)) && t.runs == 1 && !t.invoked && !t.active
  {
    hide Continue, Next;
    ContinueConcat(Start(), [Disable, Enter, Deactivate], [Judge, EnterHost, LeaveHost(result)]);
    ThreeSteps(Start(), Disable, Enter, Deactivate);
    NeverStarts();
    StepsIn(Continue(Start(), [Disable, Enter, Deactivate]), result);
  }

  lemma NeverStarts()
    ensures var s := Next(Next(Next(Start(), Disable), Enter), Deactivate);
      s == Start().(enabled := false, host := Judging, active := false, error := Infrastructure(Disabled))
  {
  }

  lemma StepsIn(s: State, result: Error)
    requires s.host == Judging && s.error.Infrastructure? && !s.called
    ensures Continue(s, [Judge, EnterHost, LeaveHost(result)])
            == s.(host := Returned(NativeAnswer(result)), hostStarted := true, runs := s.runs + 1,
                  results := s.results + [result])
  {
    hide Continue;
    FirstThenRest(s, Judge, [EnterHost, LeaveHost(result)]);
    assert [Judge, EnterHost, LeaveHost(result)] == [Judge] + [EnterHost, LeaveHost(result)];
    RunsItself(Next(s, Judge), result);
  }

  // A goroutine calling next, up to the point where it may run the handler.
  function Admission(id: int): seq<Event> { [Call(id, true), LoadActive(id), Swap(id)] }

  lemma Calls(s: State, id: int, derived: bool)
    requires s.invoked && id !in s.callers
    ensures Next(s, Call(id, derived)) == Calling(s, id, derived)
  {
  }

  lemma Loads(s: State, id: int)
    requires At(s, id, AtActive)
    ensures Next(s, LoadActive(id)) == Move(s, id, if s.active then AtSwap else Refused)
  {
  }

  lemma Swaps(s: State, id: int)
    requires At(s, id, AtSwap)
    ensures Next(s, Swap(id))
            == if s.called then Move(s, id, Refused)
               else Move(s, id, AtContext).(called := true, owner := Some(id), foreign := s.foreign || !Derived(s, id))
  {
  }

  lemma MovedTwice(s: State, id: int, a: Caller, b: Caller)
    ensures Move(Move(s, id, a), id, b) == Move(s, id, b)
  {
    assert s.callers[id := a][id := b] == s.callers[id := b];
  }

  // A goroutine that has called next, and one that has loaded active as well; once the host
  // has cleared that, next refuses.
  function Calling(s: State, id: int, derived: bool): State {
    Move(s, id, AtActive).(derived := s.derived[id := derived])
  }

  function Loaded(s: State, id: int, derived: bool): State {
    Move(Calling(s, id, derived), id, if s.active then AtSwap else Refused)
  }

  lemma CallsAndLoads(s: State, id: int, derived: bool)
    requires s.invoked && id !in s.callers
    ensures Continue(s, [Call(id, derived), LoadActive(id)]) == Loaded(s, id, derived)
  {
    hide Continue, Next;
    TwoSteps(s, Call(id, derived), LoadActive(id));
    Calls(s, id, derived);
    Loads(Calling(s, id, derived), id);
  }

  // The first to call it while active is set gets to its check, all others are refused.
  lemma FirstCallAdmitted(s: State, id: int)
    requires s.invoked && s.active && id !in s.callers
    ensures var t := Continue(s, Admission(id));
      && t.callers == s.callers[id := if s.called then Refused else AtContext]
      && t == Loaded(s, id, true)
              .(callers := t.callers, called := true, owner := if s.called then s.owner else Some(id))
  {
    hide Continue, Next;
    ThreeSteps(s, Call(id, true), LoadActive(id), Swap(id));
    TwoSteps(s, Call(id, true), LoadActive(id));
    CallsAndLoads(s, id, true);
    Swaps(Loaded(s, id, true), id);
    assert s.callers[id := AtActive][id := AtSwap][id := Refused] == s.callers[id := Refused];
    assert s.callers[id := AtActive][id := AtSwap][id := AtContext] == s.callers[id := AtContext];
  }

  // The context decides: good or expired as it may be, and expired once it was cancelled.
  lemma ContextDecides(s: State, id: int)
    requires At(s, id, AtContext)
    ensures Next(s, CheckContext(id, true)) == Move(s, id, Refused)
    ensures Next(s, CheckContext(id, false))
            == if Derived(s, id) && s.cancelled then s else Move(s, id, AtNative)
  {
  }

  lemma Enters(s: State, id: int)
    requires At(s, id, AtNative)
    ensures Next(s, EnterNative(id)) == Move(s, id, Inside).(started := true, runs := s.runs + 1)
  {
  }

  lemma Leaves(s: State, id: int, result: Error)
    requires At(s, id, Inside)
    ensures Next(s, LeaveNative(id, result)) == Move(s, id, AtStore(result)).(results := s.results + [result])
  {
  }

  lemma Stores(s: State, id: int, result: Error)
    requires At(s, id, AtStore(result))
    ensures Next(s, Store(id)) == Move(s, id, AtComplete).(nextResult := Some(result))
  {
  }

  lemma Completes(s: State, id: int)
    requires At(s, id, AtComplete)
    ensures Next(s, Complete(id)) == Move(s, id, Done).(completed := true)
  {
  }

  // A goroutine that has run the handler, and one that has told its result as well.
  function Ran(s: State, id: int, result: Error): State {
    Move(s, id, AtStore(result)).(started := true, runs := s.runs + 1, results := s.results + [result])
  }

  function Told(s: State, id: int, result: Error): State {
    Move(s, id, Done).(nextResult := Some(result), completed := true)
  }

  lemma RunsHandler(s: State, id: int, result: Error)
    requires At(s, id, AtNative)
    ensures Continue(s, [EnterNative(id), LeaveNative(id, result)]) == Ran(s, id, result)
  {
    hide Continue, Next;
    TwoSteps(s, EnterNative(id), LeaveNative(id, result));
    Enters(s, id);
    Leaves(Move(s, id, Inside).(started := true, runs := s.runs + 1), id, result);
    MovedTwice(s, id, Inside, AtStore(result));
  }

  lemma TellsResult(s: State, id: int, result: Error)
    requires At(s, id, AtStore(result))
    ensures Continue(s, [Store(id), Complete(id)]) == Told(s, id, result)
  {
    hide Continue, Next;
    TwoSteps(s, Store(id), Complete(id));
    Stores(s, id, result);
    Completes(Move(s, id, AtComplete).(nextResult := Some(result)), id);
    MovedTwice(s, id, AtComplete, Done);
  }

  // The handler runs once and its result is stored before the call counts as completed.
  lemma AdmittedRuns(s: State, id: int, result: Error)
    requires At(s, id, AtNative)
    ensures Continue(s, [EnterNative(id), LeaveNative(id, result)] + [Store(id), Complete(id)])
            == Told(Ran(s, id, result), id, result)
  {
    hide Continue, Told;
    ContinueConcat(s, [EnterNative(id), LeaveNative(id, result)], [Store(id), Complete(id)]);
    RunsHandler(s, id, result);
    TellsResult(Ran(s, id, result), id, result);
  }

  // So a plugin whose callback calls next and returns has the handler run once and its own
  // answer returned; if it fails after that, the handler's answer is returned instead.
  function CallsNext(id: int, result: Error): seq<Event> {
    [Enter] + (Admission(id) + ([CheckContext(id, false)]
    + ([EnterNative(id), LeaveNative(id, result)] + [Store(id), Complete(id)])))
  }

  lemma CalledThrough(id: int, result: Error)
    ensures var t := Run(CallsNext(id, result));
      && t.host == Waiting && t.invoked && t.active && !t.cancelled && t.called && t.completed
      && t.nextResult == Some(result) && t.runs == 1 && t.results == [result] && !t.foreign
  {
    hide Continue, Next, Admission;
    var s := Start();
    var inner := [EnterNative(id), LeaveNative(id, result)] + [Store(id), Complete(id)];
    FirstThenRest(s, Enter, Admission(id) + ([CheckContext(id, false)] + inner));
    CallbackStarts(s);
    var a := Next(s, Enter);
    ContinueConcat(a, Admission(id), [CheckContext(id, false)] + inner);
    FirstCallAdmitted(a, id);
    var b := Continue(a, Admission(id));
    FirstThenRest(b, CheckContext(id, false), inner);
    ContextDecides(b, id);
    AdmittedRuns(Next(b, CheckContext(id, false)), id, result);
  }

  lemma CallbackAnswers(id: int, result: Error, code: int, other: Error)
    ensures var s := Next(Run(CallsNext(id, result)), Finish(Plain(code)));
      Continue(s, Finale(s, other)).host == Returned(PluginAnswer(Plain(code)))
      && Continue(s, Finale(s, other)).runs == 1
    ensures var s := Next(Run(CallsNext(id, result)), Panic);
      Continue(s, Finale(s, other)).host == Returned(NativeAnswer(result)) && Continue(s, Finale(s, other)).runs == 1
  {
    hide Continue, Next, Finale, CallsNext;
    CalledThrough(id, result);
    var through := Run(CallsNext(id, result));
    CallbackEnds(through, Plain(code));
    InvariantHolds(CallsNext(id, result));
    InvStep(through, Finish(Plain(code)));
    InvStep(through, Panic);
    HostFinishes(Next(through, Finish(Plain(code))), other);
    HostFinishes(Next(through, Panic), other);
  }

  // ---------------------------------------------------------------- completing first

  // The handler called through next has completed with error, and a host that returns after
  // a failure returns that.
  predicate Reported(s: State, error: Error) {
    s.completed && s.nextResult == Some(error)
    && (s.host.Returned? && s.error.Infrastructure? ==> s.host.answer == NativeAnswer(error))
  }

  lemma ReportedSelect(s: State, e: Event, error: Error)
    requires Inv(s) && Reported(s, error) && Selecting(e)
    ensures Reported(Select(s, e), error)
  {
  }

  lemma ReportedJudge(s: State, error: Error)
    requires Inv(s) && Reported(s, error)
    ensures Reported(Decide(s, Judge), error)
  {
  }

  lemma ReportedDecide(s: State, e: Event, error: Error)
    requires Inv(s) && Reported(s, error) && Deciding(e) && !e.Judge?
    ensures Reported(Decide(s, e), error)
  {
  }

  lemma ReportedAdmit(s: State, e: Event, error: Error)
    requires Inv(s) && Reported(s, error) && Admitting(e)
    ensures Reported(Admit(s, e), error)
  {
  }

  lemma ReportedServe(s: State, e: Event, error: Error)
    requires Inv(s) && Reported(s, error) && Serving(e)
    ensures Reported(Serve(s, e), error)
  {
  }

  lemma ReportedStep(s: State, e: Event, error: Error)
    requires Inv(s) && Reported(s, error)
    ensures Reported(Next(s, e), error)
  {
    hide Reported, Inv, Select, Decide, Admit, Serve;
    if Selecting(e) {
      ReportedSelect(s, e, error);
    } else if e.Judge? {
      ReportedJudge(s, error);
    } else if Deciding(e) {
      ReportedDecide(s, e, error);
    } else if Admitting(e) {
      ReportedAdmit(s, e, error);
    } else {
      ReportedServe(s, e, error);
    }
  }

  lemma CompletedHasResult(s: State)
    requires Inv(s) && s.completed && !s.host.Returned?
    ensures s.nextResult.Some? && Reported(s, s.nextResult.value)
  {
  }

  // Once the handler called through next has completed before the host returned, the host
  // returns that handler's own result after any failure, whatever happens in between.
  lemma {:induction false} CompletedFirstIsReturned(es: seq<Event>, more: seq<Event>)
    requires Run(es).completed && !Run(es).host.Returned? && !Run(es + more).foreign
    ensures Run(es).nextResult.Some?
    ensures Reported(Run(es + more), Run(es).nextResult.value)
    decreases |more|
  {
    hide Reported, Inv, Next;
    if more == [] {
      assert es + more == es;
      InvariantHolds(es);
      CompletedHasResult(Run(es));
    } else {
      var front, e := more[..|more| - 1], more[|more| - 1];
      assert es + more == es + front + [e];
      ContinueStep(Start(), es + front, e);
      ForeignStays(Run(es + front), e);
      CompletedFirstIsReturned(es, front);
      InvariantHolds(es + front);
      ReportedStep(Run(es + front), e, Run(es).nextResult.value);
    }
  }
}
