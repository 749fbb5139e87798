/** The process daemon (core/process/daemon.go): it starts a process again until it ends by itself, is stopped, or
    has failed too often, and tells a signal handler about each step over an unbuffered channel. */
module Daemon {
  import opened Sequences

  datatype Signal = SignalCreate | SignalStart | SignalStopped | SignalError | SignalExited | SignalReachedMaxErrors

  /** How one process ended: whether Wait returned an error, whether Stop had been called by then, the exit code. */
  datatype Outcome = Outcome(failed: bool, stopped: bool, exitCode: int)

  /** How a run ends, or that it does not. */
  datatype Ending = GoingOn | ByStop | ByItself | ByErrors

  // ---------- one process ----------

  /** How the loop ends after a process, if it does; errors counts the earlier ones. */
  function EndingOf(o: Outcome, errors: int, maxErrors: int): Ending {
    if o.failed && o.stopped then ByStop
    else if o.exitCode == 0 then ByItself
    else if errors + 1 >= maxErrors then ByErrors
    else GoingOn
  }

  function SignalsOf(o: Outcome): seq<Signal> {
    [SignalCreate, SignalStart]
    + (if !o.failed then [SignalExited]
       else if o.stopped then [SignalStopped]
       else [SignalStopped, SignalError, SignalExited])
  }

  function GivingUp(ending: Ending): seq<Signal> {
    if ending == ByErrors then [SignalReachedMaxErrors] else []
  }

  // ---------- a run ----------

  /** The processes of a run: each but the last one ended in an error that left room for another. */
  ghost predicate IsRun(run: seq<Outcome>, errors: int, maxErrors: int, ending: Ending) {
    && run != []
    && GoesOn(run[..|run| - 1], errors, maxErrors)
    && EndingOf(run[|run| - 1], errors + |run| - 1, maxErrors) == ending && ending != GoingOn
  }

  ghost predicate GoesOn(run: seq<Outcome>, errors: int, maxErrors: int) {
    forall i | 0 <= i < |run| :: EndingOf(run[i], errors + i, maxErrors) == GoingOn
  }

  function AllSignals(run: seq<Outcome>): seq<Signal> {
    if run == [] then [] else AllSignals(run[..|run| - 1]) + SignalsOf(run[|run| - 1])
  }

  /** An exit that counts as an error: a non-zero code, and no stop. */
  function ErrorOf(o: Outcome): nat {
    if !(o.failed && o.stopped) && o.exitCode != 0 then 1 else 0
  }

  function Errors(run: seq<Outcome>): nat {
    if run == [] then 0 else Errors(run[..|run| - 1]) + ErrorOf(run[|run| - 1])
  }

  /** One more process. */
  lemma {:induction false} OneMore(run: seq<Outcome>, o: Outcome, errors: int, maxErrors: int)
    requires GoesOn(run, errors, maxErrors)
    ensures AllSignals(run + [o]) == AllSignals(run) + SignalsOf(o)
    ensures Errors(run + [o]) == Errors(run) + ErrorOf(o)
    ensures EndingOf(o, errors + |run|, maxErrors) == GoingOn ==> GoesOn(run + [o], errors, maxErrors)
    ensures EndingOf(o, errors + |run|, maxErrors) != GoingOn ==>
            IsRun(run + [o], errors, maxErrors, EndingOf(o, errors + |run|, maxErrors))
  {
  }

  class Process {
    var maxErrors: int
    var errors: int
    var exitCode: int
    /** The handlers that receive from the channel, and what they received. */
    var receivers: nat
    var received: seq<Signal>
    /** The processes launched so far. */
    var launched: seq<Outcome>
    /** What newCmdFn's processes come to, one after the other. */
    const outcome: nat -> Outcome

    constructor (maxErrors: int, outcome: nat -> Outcome)
      ensures this.maxErrors == maxErrors && this.outcome == outcome
      ensures errors == 0 && receivers == 0 && received == [] && launched == []
    {
      this.maxErrors, this.outcome := maxErrors, outcome;
      errors, exitCode, receivers, received, launched := 0, 0, 0, [], [];
    }

    /** d.ch <- signal: without a receiver the daemon would block for ever. The handler returns after
        SignalReachedMaxErrors. */
    method Send(signal: Signal)
      requires receivers > 0
      modifies `received, `receivers
      ensures received == old(received) + [signal]
      ensures receivers == if signal == SignalReachedMaxErrors then old(receivers) - 1 else old(receivers)
    {
      received := received + [signal];
      if signal == SignalReachedMaxErrors { receivers := receivers - 1; }
    }

    /** One round of the loop, up to the exit code. */
    method RunProcess() returns (o: Outcome)
      requires receivers > 0
      modifies `received, `receivers, `launched, `exitCode
      ensures o == outcome(|old(launched)|) && launched == old(launched) + [o]
      ensures received == old(received) + SignalsOf(o) && receivers == old(receivers)
      ensures !(o.failed && o.stopped) ==> exitCode == o.exitCode
    {
      o := outcome(|launched|);
      launched := launched + [o];
      Send(SignalCreate);
      Send(SignalStart);
      if o.failed {
        Send(SignalStopped);
        if o.stopped { return; }
        Send(SignalError);
      }
      Send(SignalExited);
      exitCode := o.exitCode;
    }

    /** The whole round, and whether the loop ends with it. */
    method Round() returns (o: Outcome, ending: Ending)
      requires receivers > 0
      modifies this
      ensures maxErrors == old(maxErrors) && errors == old(errors) + ErrorOf(o)
      ensures o == outcome(|old(launched)|) && launched == old(launched) + [o]
      ensures ending == EndingOf(o, old(errors), maxErrors)
      ensures received == old(received) + SignalsOf(o) + GivingUp(ending)
      ensures receivers == old(receivers) - |GivingUp(ending)|
    {
      o := RunProcess();
      if o.failed && o.stopped { return o, ByStop; }
      if exitCode == 0 { return o, ByItself; }
      errors := errors + 1;
      if errors >= maxErrors {
        Send(SignalReachedMaxErrors);
        return o, ByErrors;
      }
      ending := GoingOn;
    }

    /** What a run has come to, when it started with the given state. */
    ghost predicate Ran(run: seq<Outcome>, ending: Ending, errors0: int, launched0: seq<Outcome>,
                        received0: seq<Signal>, receivers0: nat)
      reads this
    {
      && launched == launched0 + run && errors == errors0 + Errors(run)
      && (forall i | 0 <= i < |run| :: run[i] == outcome(|launched0| + i))
      && received == received0 + (AllSignals(run) + GivingUp(ending))
      && receivers == receivers0 + 1 - |GivingUp(ending)|
    }

    method Continue(ghost run: seq<Outcome>, ghost errors0: int, ghost launched0: seq<Outcome>,
                    ghost received0: seq<Signal>, ghost receivers0: nat)
      returns (o: Outcome, ending: Ending)
      requires Ran(run, GoingOn, errors0, launched0, received0, receivers0)
      requires GoesOn(run, errors0, maxErrors) && Errors(run) == |run|
      modifies this
      ensures maxErrors == old(maxErrors) && ending == EndingOf(o, errors0 + |run|, maxErrors)
      ensures ending == GoingOn ==> old(errors) < errors < maxErrors
      ensures Ran(run + [o], ending, errors0, launched0, received0, receivers0)
    {
      o, ending := Round();
      OneMore(run, o, errors0, maxErrors);
      Assoc(launched0, run, [o]);
      AppendSignals(received0, AllSignals(run), SignalsOf(o), GivingUp(ending));
    }

    /** Start: every send finds a receiver. A handler outlives the call unless the daemon gave up. */
    method Start() returns (ending: Ending, ghost run: seq<Outcome>)
      modifies this
      ensures maxErrors == old(maxErrors) && IsRun(run, old(errors), maxErrors, ending)
      ensures Ran(run, ending, old(errors), old(launched), old(received), old(receivers))
    {
      receivers := receivers + 1;
      run, ending := [], GoingOn;
      while ending == GoingOn
        invariant maxErrors == old(maxErrors)
        invariant Ran(run, ending, old(errors), old(launched), old(received), old(receivers))
        invariant if ending == GoingOn then GoesOn(run, old(errors), maxErrors) && Errors(run) == |run|
                  else IsRun(run, old(errors), maxErrors, ending)
        decreases ending == GoingOn, maxErrors - errors
      {
        var o: Outcome;
        o, ending := Continue(run, old(errors), old(launched), old(received), old(receivers));
        OneMore(run, o, old(errors), maxErrors);
        run := run + [o];
      }
    }
  }

  lemma AppendSignals(a: seq<Signal>, b: seq<Signal>, c: seq<Signal>, d: seq<Signal>)
    ensures a + (b + []) + c + d == a + (b + c + d)
  {
  }

  // ---------- what holds of every run ----------

  /** No run launches more processes than there are errors left, but one is always launched. */
  lemma {:induction false} LaunchesAreBounded(run: seq<Outcome>, errors: int, maxErrors: int, ending: Ending)
    requires IsRun(run, errors, maxErrors, ending)
    ensures 1 <= |run| <= if maxErrors - errors > 1 then maxErrors - errors else 1
    ensures ending == ByErrors ==> |run| == if maxErrors - errors > 1 then maxErrors - errors else 1
    ensures Errors(run) == |run| - 1 + if ending == ByErrors then 1 else 0
  {
    var n := |run| - 1;
    if n > 0 {
      assert EndingOf(run[..n][n - 1], errors + (n - 1), maxErrors) == GoingOn;
    }
    AllErrors(run[..n], errors, maxErrors);
  }

  lemma {:induction false} AllErrors(run: seq<Outcome>, errors: int, maxErrors: int)
    requires GoesOn(run, errors, maxErrors)
    ensures Errors(run) == |run|
  {
    if run != [] {
      AllErrors(run[..|run| - 1], errors, maxErrors);
    }
  }

  lemma {:induction false} EarlierGoesOn(run: seq<Outcome>, errors: int, maxErrors: int, ending: Ending, i: nat)
    requires IsRun(run, errors, maxErrors, ending) && i < |run| - 1
    ensures EndingOf(run[i], errors + i, maxErrors) == GoingOn
  {
  }

  /** What the processes do determines the run: of two runs on the same processes neither goes on longer. */
  lemma {:induction false} RunIsDetermined(run: seq<Outcome>, other: seq<Outcome>, errors: int, maxErrors: int,
                                           e: Ending, f: Ending)
    requires IsRun(run, errors, maxErrors, e) && IsRun(other, errors, maxErrors, f)
    requires run <= other
    ensures run == other && e == f
  {
    var i := |run| - 1;
    assert other[i] == run[i];
    if i < |other| - 1 {
      EarlierGoesOn(other, errors, maxErrors, f, i);
    }
  }

  /** If Wait reports every non-zero exit, a process that sees the stop is the last one: Stop is followed by at most
      one more launch, when it comes between two processes. */
  lemma {:induction false} NothingAfterStop(run: seq<Outcome>, errors: int, maxErrors: int, ending: Ending, i: nat)
    requires IsRun(run, errors, maxErrors, ending)
    requires forall o | o in run :: !o.failed ==> o.exitCode == 0
    requires i < |run| && run[i].stopped
    ensures i == |run| - 1 && ending != ByErrors
  {
    if i < |run| - 1 {
      EarlierGoesOn(run, errors, maxErrors, ending, i);
    }
  }

  /** How a run ends: stopped, or with code 0, or with as many errors as are allowed, in this order; all earlier
      processes ended with another code and were not stopped. */
  lemma {:induction false} EndsExactlyWhen(run: seq<Outcome>, errors: int, maxErrors: int, ending: Ending)
    requires IsRun(run, errors, maxErrors, ending)
    ensures var last := run[|run| - 1];
            && (ending == ByStop <==> last.failed && last.stopped)
            && (ending == ByItself <==> last.exitCode == 0 && !(last.failed && last.stopped))
            && (ending == ByErrors <==> Errors(run) == |run|)
            && (ending == ByErrors ==> errors + Errors(run) >= maxErrors)
    ensures forall i | 0 <= i < |run| - 1 :: run[i].exitCode != 0 && !(run[i].failed && run[i].stopped)
  {
    LaunchesAreBounded(run, errors, maxErrors, ending);
    forall i | 0 <= i < |run| - 1 ensures run[i].exitCode != 0 && !(run[i].failed && run[i].stopped) {
      EarlierGoesOn(run, errors, maxErrors, ending, i);
    }
  }

  // ---------- what the signals tell ----------

  /** The number of processes with the given property. */
  function Number(run: seq<Outcome>, has: Outcome -> bool): nat {
    if run == [] then 0
    else Number(run[..|run| - 1], has) + if has(run[|run| - 1]) then 1 else 0
  }

  predicate Fails(o: Outcome) {
    o.failed
  }

  predicate FailsByItself(o: Outcome) {
    o.failed && !o.stopped
  }

  predicate Exits(o: Outcome) {
    !o.failed || !o.stopped
  }

  /** Each process is created and started once; it is said to have stopped exactly if Wait failed, to be in error
      exactly if it failed without being stopped, and to have exited unless it failed and was stopped. */
  lemma SignalsTell(o: Outcome)
    ensures var signals := multiset(SignalsOf(o));
            && signals[SignalCreate] == 1 && signals[SignalStart] == 1
            && signals[SignalStopped] == (if o.failed then 1 else 0)
            && signals[SignalError] == (if o.failed && !o.stopped then 1 else 0)
            && signals[SignalExited] == (if !o.failed || !o.stopped then 1 else 0)
            && signals[SignalReachedMaxErrors] == 0
  {
  }

  /** So the handler can count the processes of a run, and how they ended. */
  lemma {:induction false} SignalsCount(run: seq<Outcome>)
    ensures var signals := multiset(AllSignals(run));
            && signals[SignalCreate] == signals[SignalStart] == |run|
            && signals[SignalStopped] == Number(run, Fails) && signals[SignalError] == Number(run, FailsByItself)
            && signals[SignalExited] == Number(run, Exits) && signals[SignalReachedMaxErrors] == 0
  {
    if run != [] {
      SignalsCount(run[..|run| - 1]);
      SignalsTell(run[|run| - 1]);
    }
  }

  // ---------- the protocol of the signals ----------

  datatype State = Idle | Created | Running | WasStopped | HadError | HasExited | GaveUp | Illegal

  /** The order the signal handler can rely on. */
  function Next(state: State, signal: Signal): State {
    match (state, signal)
    case (Idle, SignalCreate) => Created
    case (Created, SignalStart) => Running
    case (Running, SignalStopped) => WasStopped
    case (WasStopped, SignalError) => HadError
    case (HadError, SignalExited) => HasExited
    case (Running, SignalExited) => HasExited
    case (HasExited, SignalCreate) => Created
    case (HasExited, SignalReachedMaxErrors) => GaveUp
    case _ => Illegal
  }

  function After(signals: seq<Signal>): State {
    if signals == [] then Idle else Next(After(signals[..|signals| - 1]), signals[|signals| - 1])
  }

  /** The signals of a run follow the protocol, and its ending can be told from them. */
  lemma {:induction false} SignalsFollowProtocol(run: seq<Outcome>, errors: int, maxErrors: int, ending: Ending)
    requires IsRun(run, errors, maxErrors, ending)
    ensures After(AllSignals(run) + GivingUp(ending))
         == match ending case ByStop => WasStopped case ByErrors => GaveUp case _ => HasExited
  {
    LastProcess(run, errors, maxErrors, ending);
    if ending == ByErrors {
      AfterOne(AllSignals(run), SignalReachedMaxErrors);
    } else {
      assert AllSignals(run) + [] == AllSignals(run);
    }
  }

  lemma {:induction false} LastProcess(run: seq<Outcome>, errors: int, maxErrors: int, ending: Ending)
    requires IsRun(run, errors, maxErrors, ending)
    ensures var last := run[|run| - 1];
            After(AllSignals(run)) == if last.failed && last.stopped then WasStopped else HasExited
  {
    var n := |run| - 1;
    AllExited(run[..n], errors, maxErrors);
    AfterProcess(AllSignals(run[..n]), run[n]);
  }

  lemma {:induction false} AllExited(run: seq<Outcome>, errors: int, maxErrors: int)
    requires GoesOn(run, errors, maxErrors)
    ensures After(AllSignals(run)) == if run == [] then Idle else HasExited
  {
    if run != [] {
      var n := |run| - 1;
      AllExited(run[..n], errors, maxErrors);
      AfterProcess(AllSignals(run[..n]), run[n]);
      assert EndingOf(run[n], errors + n, maxErrors) == GoingOn;
    }
  }

  lemma {:induction false} AfterProcess(before: seq<Signal>, o: Outcome)
    requires After(before) == Idle || After(before) == HasExited
    ensures After(before + SignalsOf(o)) == if o.failed && o.stopped then WasStopped else HasExited
  {
    AfterTwo(before, SignalCreate, SignalStart);
    var running := before + [SignalCreate, SignalStart];
    if !o.failed {
      AfterOne(running, SignalExited);
      assert before + SignalsOf(o) == running + [SignalExited];
    } else if o.stopped {
      AfterOne(running, SignalStopped);
      assert before + SignalsOf(o) == running + [SignalStopped];
    } else {
      AfterTwo(running, SignalStopped, SignalError);
      AfterOne(running + [SignalStopped, SignalError], SignalExited);
      assert before + SignalsOf(o) == running + [SignalStopped, SignalError] + [SignalExited];
    }
  }

  lemma {:induction false} AfterOne(before: seq<Signal>, signal: Signal)
    ensures After(before + [signal]) == Next(After(before), signal)
  {
  }

  lemma {:induction false} AfterTwo(before: seq<Signal>, s: Signal, t: Signal)
    ensures After(before + [s, t]) == Next(Next(After(before), s), t)
  {
    AfterOne(before, s);
    AfterOne(before + [s], t);
    assert before + [s, t] == before + [s] + [t];
  }
}
