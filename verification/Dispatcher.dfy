/** The request dispatcher of SeaweedFsManager (fs/seaweedfs_manager.go): start, process and the bounded
    retries, as a state machine over every interleaving, with requests that issue nested requests. */
module Dispatcher {
  import opened Wrappers

  datatype Result = Ok(value: string) | Fail(error: string)

  /** One run of a handle's function: the requests it issues and waits for, one by one, then its result. */
  datatype Attempt = Attempt(nested: seq<Request>, result: Result)

  /** A request, by what each of its possible attempts would do. */
  datatype Request = Request(attempts: seq<Attempt>)

  /** Every request scripts as many attempts as the dispatcher may make: one, and retryNum retries. */
  ghost predicate Scripted(r: Request, retryNum: nat) {
    |r.attempts| == retryNum + 1 && forall a | a in r.attempts :: forall n | n in a.nested :: Scripted(n, retryNum)
  }

  /** What a requester must get: the first success, or else the last error. */
  function Answer(attempts: seq<Attempt>): Result
    requires attempts != []
  {
    if attempts[0].result.Ok? || |attempts| == 1 then attempts[0].result else Answer(attempts[1..])
  }

  datatype Phase =
    | Sending                                           // blocked on m.ch <- handle
    | Queued                                            // in the channel
    | Running(attempt: nat, answered: nat, waiting: bool)
    | Replying(result: Result)                          // blocked on handle.resChan <- result
    | Done(reply: Result)

  /** owner is the handle whose function issued this request; None for an outside caller. */
  datatype Handle = Handle(request: Request, owner: Option<nat>, phase: Phase)

  /** The receiving loop: about to test m.closed, blocked on the channel, or returned. */
  datatype Loop = AtCheck | Receiving | Ended

  datatype Config = Config(retryNum: nat, workerNum: nat)

  datatype State = State(handles: seq<Handle>, ch: seq<nat>, loop: Loop, closed: bool, replies: seq<(nat, Result)>)
  {
    predicate Is(h: nat) {
      h < |handles|
    }

    function To(h: nat, p: Phase): State
      requires Is(h)
    {
      this.(handles := handles[h := handles[h].(phase := p)])
    }

    function Current(h: nat): Attempt
      requires Is(h) && handles[h].phase.Running? && handles[h].phase.attempt < |handles[h].request.attempts|
    {
      handles[h].request.attempts[handles[h].phase.attempt]
    }
  }

  datatype Step =
    | Enqueue(h: nat)
    | Check
    | Take
    | TakeDirect(h: nat)
    | Issue(h: nat)
    | Finish(h: nat)
    | Deliver(h: nat)
    | Close

  function Start(requests: seq<Request>): State {
    State(seq(|requests|, i requires 0 <= i < |requests| => Handle(requests[i], None, Sending)), [], AtCheck, false, [])
  }

  predicate Enabled(c: Config, s: State, step: Step) {
    match step
    // the channel has room
    case Enqueue(h) => s.Is(h) && s.handles[h].phase.Sending? && |s.ch| < c.workerNum
    case Check => s.loop.AtCheck?
    case Take => s.loop.Receiving? && s.ch != [] && s.Is(s.ch[0])
    // the receiver meets a blocked sender over an empty channel
    case TakeDirect(h) => s.loop.Receiving? && s.ch == [] && s.Is(h) && s.handles[h].phase.Sending?
    case Issue(h) =>
      s.Is(h) && s.handles[h].phase.Running? && !s.handles[h].phase.waiting
      && s.handles[h].phase.attempt < |s.handles[h].request.attempts|
      && s.handles[h].phase.answered < |s.Current(h).nested|
    case Finish(h) =>
      s.Is(h) && s.handles[h].phase.Running? && !s.handles[h].phase.waiting
      && s.handles[h].phase.attempt < |s.handles[h].request.attempts|
      && s.handles[h].phase.answered == |s.Current(h).nested|
    // the requester is blocked on <-handle.resChan
    case Deliver(h) =>
      s.Is(h) && s.handles[h].phase.Replying?
      && (s.handles[h].owner.Some? ==> s.Is(s.handles[h].owner.value) && s.handles[h].owner.value != h
                                       && s.handles[s.handles[h].owner.value].phase.Running?
                                       && s.handles[s.handles[h].owner.value].phase.waiting)
    case Close => !s.closed
  }

  function Apply(c: Config, s: State, step: Step): State
    requires Enabled(c, s, step)
  {
    match step
    case Enqueue(h) => s.To(h, Queued).(ch := s.ch + [h])
    case Check => s.(loop := if s.closed then Ended else Receiving)
    case Take => s.To(s.ch[0], Running(0, 0, false)).(ch := s.ch[1..], loop := AtCheck)
    case TakeDirect(h) => s.To(h, Running(0, 0, false)).(loop := AtCheck)
    case Issue(h) =>
      var p := s.handles[h].phase;
      var child := Handle(s.Current(h).nested[p.answered], Some(h), Sending);
      var s' := s.To(h, p.(waiting := true));
      s'.(handles := s'.handles + [child])
    case Finish(h) =>
      var p := s.handles[h].phase;
      var r := s.Current(h).result;
      if r.Ok? then s.To(h, Replying(r))
      else if p.attempt < c.retryNum then s.To(h, Running(p.attempt + 1, 0, false))
      else s.To(h, Replying(r))
    case Deliver(h) =>
      var r := s.handles[h].phase.result;
      var s' := s.To(h, Done(r)).(replies := s.replies + [(h, r)]);
      (match s.handles[h].owner
       case None => s'
       case Some(o) => s'.To(o, Running(s.handles[o].phase.attempt, s.handles[o].phase.answered + 1, false)))
    case Close => s.(closed := true)
  }

  // ---------- the invariant ----------

  function Count(replies: seq<(nat, Result)>, h: nat): nat {
    if replies == [] then 0
    else Count(replies[..|replies| - 1], h) + if replies[|replies| - 1].0 == h then 1 else 0
  }

  ghost predicate PhaseOk(c: Config, h: Handle) {
    && Scripted(h.request, c.retryNum)
    && match h.phase
       case Running(a, d, w) =>
         && a <= c.retryNum && (forall k | 0 <= k < a :: h.request.attempts[k].result.Fail?)
         && d <= |h.request.attempts[a].nested| && (w ==> d < |h.request.attempts[a].nested|)
       case Replying(r) => r == Answer(h.request.attempts)
       case Done(r) => r == Answer(h.request.attempts)
       case _ => true
  }

  /** A request in progress belongs to an owner that waits for it and for nothing else. */
  ghost predicate Linked(s: State, h: nat)
    requires s.Is(h)
  {
    s.handles[h].owner.Some? ==>
      var o := s.handles[h].owner.value;
      && o < h
      && (!s.handles[h].phase.Done? ==> s.handles[o].phase.Running? && s.handles[o].phase.waiting)
  }

  ghost predicate Waits(s: State, o: nat, h: nat) {
    s.Is(h) && s.handles[h].owner == Some(o) && !s.handles[h].phase.Done?
  }

  ghost predicate Inv(c: Config, s: State) {
    && PhasesOk(c, s) && LinksOk(s) && QueueOk(c, s) && RepliesOk(s)
    && (s.loop.Ended? ==> s.closed)
  }

  ghost predicate PhasesOk(c: Config, s: State) {
    forall h: nat | s.Is(h) :: PhaseOk(c, s.handles[h])
  }

  /** Whoever waits does so for exactly one request, and every request in progress is waited for. */
  ghost predicate LinksOk(s: State) {
    && (forall h: nat | s.Is(h) :: Linked(s, h))
    && (forall o: nat, g: nat, h: nat | Waits(s, o, g) && Waits(s, o, h) :: g == h)
    && (forall o: nat | s.Is(o) && s.handles[o].phase.Running? && s.handles[o].phase.waiting ::
          exists h: nat :: Waits(s, o, h))
  }

  /** The channel holds exactly the queued handles, each once. */
  ghost predicate QueueOk(c: Config, s: State) {
    && |s.ch| <= c.workerNum
    && (forall i | 0 <= i < |s.ch| :: s.Is(s.ch[i]) && s.handles[s.ch[i]].phase.Queued?)
    && (forall i, j | 0 <= i < j < |s.ch| :: s.ch[i] != s.ch[j])
    && (forall h: nat | s.Is(h) && s.handles[h].phase.Queued? :: h in s.ch)
  }

  /** Every handle has been sent one result if it is done, and none before. */
  ghost predicate RepliesOk(s: State) {
    && (forall h: nat | s.Is(h) :: Count(s.replies, h) == if s.handles[h].phase.Done? then 1 else 0)
    && (forall r | r in s.replies :: s.Is(r.0) && s.handles[r.0].phase == Done(r.1))
  }

  lemma StartOk(c: Config, requests: seq<Request>)
    requires forall r | r in requests :: Scripted(r, c.retryNum)
    ensures Inv(c, Start(requests))
  {
  }

  lemma {:induction false} AnswerIs(attempts: seq<Attempt>, a: nat)
    requires a < |attempts| && forall k | 0 <= k < a :: attempts[k].result.Fail?
    requires attempts[a].result.Ok? || a == |attempts| - 1
    ensures Answer(attempts) == attempts[a].result
  {
    if a > 0 {
      AnswerIs(attempts[1..], a - 1);
    }
  }

  predicate IsWaiting(p: Phase) {
    p.Running? && p.waiting
  }

  /** Who waits for whom depends only on the owners and on who waits or is done. */
  lemma SameLinks(s: State, s': State)
    requires LinksOk(s) && |s'.handles| == |s.handles|
    requires forall h: nat | s.Is(h) :: s'.handles[h].owner == s.handles[h].owner
    requires forall h: nat | s.Is(h) :: s'.handles[h].phase.Done? == s.handles[h].phase.Done?
    requires forall h: nat | s.Is(h) :: IsWaiting(s'.handles[h].phase) == IsWaiting(s.handles[h].phase)
    ensures LinksOk(s')
  {
    assert forall o: nat, g: nat :: Waits(s', o, g) <==> Waits(s, o, g);
    forall h: nat | s'.Is(h) ensures Linked(s', h) {
      assert Linked(s, h);
      if s.handles[h].owner.Some? {
        var o := s.handles[h].owner.value;
        assert IsWaiting(s'.handles[o].phase) == IsWaiting(s.handles[o].phase);
      }
    }
    forall o: nat | s'.Is(o) && s'.handles[o].phase.Running? && s'.handles[o].phase.waiting
      ensures exists g: nat :: Waits(s', o, g)
    {
      assert IsWaiting(s.handles[o].phase);
      var g: nat :| Waits(s, o, g);
      assert Waits(s', o, g);
    }
  }

  lemma EnqueueOk(c: Config, s: State, h: nat)
    requires Inv(c, s) && Enabled(c, s, Enqueue(h))
    ensures Inv(c, Apply(c, s, Enqueue(h)))
  {
    var s' := Apply(c, s, Enqueue(h));
    SameLinks(s, s');
  }

  lemma TakeOk(c: Config, s: State)
    requires Inv(c, s) && Enabled(c, s, Take)
    ensures Inv(c, Apply(c, s, Take))
  {
    var s' := Apply(c, s, Take);
    SameLinks(s, s');
  }

  lemma TakeDirectOk(c: Config, s: State, h: nat)
    requires Inv(c, s) && Enabled(c, s, TakeDirect(h))
    ensures Inv(c, Apply(c, s, TakeDirect(h)))
  {
    var s' := Apply(c, s, TakeDirect(h));
    SameLinks(s, s');
  }

  lemma FinishOk(c: Config, s: State, h: nat)
    requires Inv(c, s) && Enabled(c, s, Finish(h))
    ensures Inv(c, Apply(c, s, Finish(h)))
  {
    var s' := Apply(c, s, Finish(h));
    FinishPhase(c, s, h);
    assert s' == s.To(h, s'.handles[h].phase);
    SameLinks(s, s');
    BooksKept(c, s, h, s'.handles[h].phase);
  }

  /** Channel and replies do not see a request go from one phase of being worked on to another. */
  lemma BooksKept(c: Config, s: State, h: nat, p: Phase)
    requires QueueOk(c, s) && RepliesOk(s) && s.Is(h)
    requires !s.handles[h].phase.Queued? && !s.handles[h].phase.Done? && !p.Queued? && !p.Done?
    ensures QueueOk(c, s.To(h, p)) && RepliesOk(s.To(h, p))
  {
  }

  lemma FinishPhase(c: Config, s: State, h: nat)
    requires Inv(c, s) && Enabled(c, s, Finish(h))
    ensures PhasesOk(c, Apply(c, s, Finish(h)))
  {
    var s' := Apply(c, s, Finish(h));
    var p := s.handles[h].phase;
    assert PhaseOk(c, s.handles[h]);
    if s.Current(h).result.Ok? || p.attempt == c.retryNum {
      AnswerIs(s.handles[h].request.attempts, p.attempt);
    }
    assert PhaseOk(c, s'.handles[h]);
    forall g: nat | s'.Is(g) ensures PhaseOk(c, s'.handles[g]) {
      assert PhaseOk(c, s.handles[g]);
    }
  }

  lemma StepKeepsInv(c: Config, s: State, step: Step)
    requires Inv(c, s) && Enabled(c, s, step)
    ensures Inv(c, Apply(c, s, step))
  {
    match step
    case Enqueue(h) => EnqueueOk(c, s, h);
    case Check => SameLinks(s, Apply(c, s, step));
    case Take => TakeOk(c, s);
    case TakeDirect(h) => TakeDirectOk(c, s, h);
    case Issue(h) => IssueOk(c, s, h);
    case Finish(h) => FinishOk(c, s, h);
    case Deliver(h) => DeliverOk(c, s, h);
    case Close => SameLinks(s, Apply(c, s, step));
  }

  lemma IssueOk(c: Config, s: State, h: nat)
    requires Inv(c, s) && Enabled(c, s, Issue(h))
    ensures Inv(c, Apply(c, s, Issue(h)))
  {
    IssueLinks(c, s, h);
    IssuePhases(c, s, h);
    IssueReplies(c, s, h);
  }

  lemma IssueReplies(c: Config, s: State, h: nat)
    requires RepliesOk(s) && Enabled(c, s, Issue(h))
    ensures RepliesOk(Apply(c, s, Issue(h)))
  {
    var s' := Apply(c, s, Issue(h));
    NoReplyYet(s, |s.handles|);
    assert forall g: nat | s'.Is(g) :: s'.handles[g].phase.Done? <==> s.Is(g) && s.handles[g].phase.Done?;
  }

  lemma IssuePhases(c: Config, s: State, h: nat)
    requires Inv(c, s) && Enabled(c, s, Issue(h))
    ensures PhasesOk(c, Apply(c, s, Issue(h))) && QueueOk(c, Apply(c, s, Issue(h)))
  {
    var s' := Apply(c, s, Issue(h));
    assert s.Current(h) in s.handles[h].request.attempts;
    assert s'.handles[|s.handles|].request in s.Current(h).nested;
    forall g: nat | s'.Is(g) ensures PhaseOk(c, s'.handles[g]) {
      if s.Is(g) { assert PhaseOk(c, s.handles[g]); }
    }
  }

  lemma IssueLinks(c: Config, s: State, h: nat)
    requires Inv(c, s) && Enabled(c, s, Issue(h))
    ensures LinksOk(Apply(c, s, Issue(h)))
  {
    var s' := Apply(c, s, Issue(h));
    var child := |s.handles|;
    NotWaitedFor(c, s, h);
    assert forall o: nat, g: nat :: Waits(s', o, g) <==> Waits(s, o, g) || (o == h && g == child);
    forall g: nat | s'.Is(g) ensures Linked(s', g) {
      if g < child { assert Linked(s, g); }
    }
    assert Waits(s', h, child);
  }

  /** Nobody is in progress on behalf of a handle that is not waiting. */
  lemma NotWaitedFor(c: Config, s: State, o: nat)
    requires Inv(c, s) && s.Is(o) && !(s.handles[o].phase.Running? && s.handles[o].phase.waiting)
    ensures forall h: nat :: !Waits(s, o, h)
  {
  }

  lemma NoReplyYet(s: State, h: nat)
    requires RepliesOk(s) && !s.Is(h)
    ensures Count(s.replies, h) == 0
  {
    NotCounted(s.replies, h);
  }

  lemma {:induction false} NotCounted(replies: seq<(nat, Result)>, h: nat)
    requires forall r | r in replies :: r.0 != h
    ensures Count(replies, h) == 0
  {
    if replies != [] {
      NotCounted(replies[..|replies| - 1], h);
    }
  }

  lemma DeliverOk(c: Config, s: State, h: nat)
    requires Inv(c, s) && Enabled(c, s, Deliver(h))
    ensures Inv(c, Apply(c, s, Deliver(h)))
  {
    DeliverPhases(c, s, h);
    DeliverQueue(c, s, h);
    DeliverLinks(c, s, h);
    DeliverReplies(c, s, h);
  }

  lemma DeliverQueue(c: Config, s: State, h: nat)
    requires Inv(c, s) && Enabled(c, s, Deliver(h))
    ensures QueueOk(c, Apply(c, s, Deliver(h)))
  {
  }

  lemma DeliverPhases(c: Config, s: State, h: nat)
    requires Inv(c, s) && Enabled(c, s, Deliver(h))
    ensures PhasesOk(c, Apply(c, s, Deliver(h)))
  {
    var s' := Apply(c, s, Deliver(h));
    forall g: nat | s'.Is(g) ensures PhaseOk(c, s'.handles[g]) {
      assert PhaseOk(c, s.handles[g]);
    }
  }

  lemma DeliverLinks(c: Config, s: State, h: nat)
    requires Inv(c, s) && Enabled(c, s, Deliver(h))
    ensures LinksOk(Apply(c, s, Deliver(h)))
  {
    var s' := Apply(c, s, Deliver(h));
    assert Linked(s, h);
    DeliverWaits(c, s, h);
    forall g: nat | s'.Is(g) ensures Linked(s', g) {
      assert Linked(s, g);
      if s.handles[g].owner.Some? && !s'.handles[g].phase.Done? {
        assert Waits(s, s.handles[g].owner.value, g);
      }
    }
    forall o: nat | s'.Is(o) && s'.handles[o].phase.Running? && s'.handles[o].phase.waiting
      ensures exists g: nat :: Waits(s', o, g)
    {
      var g: nat :| Waits(s, o, g);
      assert Waits(s', o, g);
    }
  }

  lemma DeliverWaits(c: Config, s: State, h: nat)
    requires Inv(c, s) && Enabled(c, s, Deliver(h))
    ensures forall o: nat, g: nat :: Waits(Apply(c, s, Deliver(h)), o, g) <==> Waits(s, o, g) && g != h
    ensures s.handles[h].owner.Some? ==> Waits(s, s.handles[h].owner.value, h)
  {
    assert Linked(s, h);
  }

  /** The phases before and after a result is handed over, by whether they are done. */
  lemma DeliverDone(c: Config, s: State, h: nat)
    requires Inv(c, s) && Enabled(c, s, Deliver(h))
    ensures var s' := Apply(c, s, Deliver(h));
            && |s'.handles| == |s.handles|
            && s'.handles[h].phase == Done(s.handles[h].phase.result)
            && (forall g: nat | s.Is(g) && s.handles[g].phase.Done? :: s'.handles[g].phase == s.handles[g].phase)
            && (forall g: nat | s.Is(g) && g != h && s'.handles[g].phase.Done? :: s.handles[g].phase.Done?)
  {
  }

  lemma DeliverReplies(c: Config, s: State, h: nat)
    requires Inv(c, s) && Enabled(c, s, Deliver(h))
    ensures RepliesOk(Apply(c, s, Deliver(h)))
  {
    DeliverDone(c, s, h);
    OneMoreReply(s, Apply(c, s, Deliver(h)), h);
  }

  lemma OneMoreReply(s: State, s': State, h: nat)
    requires RepliesOk(s) && s.Is(h) && s.handles[h].phase.Replying? && |s'.handles| == |s.handles|
    requires s'.handles[h].phase == Done(s.handles[h].phase.result)
    requires forall g: nat | s.Is(g) && s.handles[g].phase.Done? :: s'.handles[g].phase == s.handles[g].phase
    requires forall g: nat | s.Is(g) && g != h && s'.handles[g].phase.Done? :: s.handles[g].phase.Done?
    requires s'.replies == s.replies + [(h, s.handles[h].phase.result)]
    ensures RepliesOk(s')
  {
    assert s'.replies[..|s.replies|] == s.replies;
    forall g: nat | s'.Is(g) ensures Count(s'.replies, g) == if s'.handles[g].phase.Done? then 1 else 0 {
      assert Count(s'.replies, g) == Count(s.replies, g) + if g == h then 1 else 0;
    }
  }

  // ---------- progress ----------

  ghost predicate CanMove(c: Config, s: State) {
    exists step :: Enabled(c, s, step) && step != Close
  }

  /** A handle that is not done and does not wait: the last one not done. */
  lemma LastUndone(c: Config, s: State, n: nat) returns (h: nat)
    requires Inv(c, s) && n <= |s.handles|
    requires exists g: nat :: g < n && !s.handles[g].phase.Done?
    requires forall g: nat | n <= g < |s.handles| :: s.handles[g].phase.Done?
    ensures s.Is(h) && !s.handles[h].phase.Done? && !IsWaiting(s.handles[h].phase)
  {
    h := n - 1;
    if s.handles[h].phase.Done? {
      h := LastUndone(c, s, n - 1);
    } else if IsWaiting(s.handles[h].phase) {
      WaitsForLater(c, s, h);
    }
  }

  lemma WaitsForLater(c: Config, s: State, h: nat)
    requires Inv(c, s) && s.Is(h) && IsWaiting(s.handles[h].phase)
    ensures exists g: nat :: h < g < |s.handles| && !s.handles[g].phase.Done?
  {
  }

  /** Nothing can get stuck while the loop has not returned and something is left to do. */
  lemma NeverStuck(c: Config, s: State)
    requires Inv(c, s) && !s.loop.Ended?
    requires exists h: nat :: s.Is(h) && !s.handles[h].phase.Done?
    ensures CanMove(c, s)
  {
    var h := LastUndone(c, s, |s.handles|);
    assert PhaseOk(c, s.handles[h]) && Linked(s, h);
    if s.loop.AtCheck? {
      assert Enabled(c, s, Check);
    } else {
      match s.handles[h].phase
      case Sending =>
        if s.ch == [] { assert Enabled(c, s, TakeDirect(h)); } else { assert Enabled(c, s, Take); }
      case Queued => assert h in s.ch && Enabled(c, s, Take);
      case Running(a, d, w) =>
        if d < |s.Current(h).nested| { assert Enabled(c, s, Issue(h)); } else { assert Enabled(c, s, Finish(h)); }
      case Replying(r) => assert Enabled(c, s, Deliver(h));
    }
  }

  /** The loop is not needed for a handle whose function runs or whose result waits to be taken. */
  lemma WorkCanGoOn(c: Config, s: State, h: nat)
    requires Inv(c, s) && s.Is(h)
    requires s.handles[h].phase.Replying? || (s.handles[h].phase.Running? && !s.handles[h].phase.waiting)
    ensures CanMove(c, s)
  {
    assert PhaseOk(c, s.handles[h]) && Linked(s, h);
    match s.handles[h].phase
    case Replying(r) => assert Enabled(c, s, Deliver(h));
    case Running(a, d, w) =>
      if d < |s.Current(h).nested| { assert Enabled(c, s, Issue(h)); } else { assert Enabled(c, s, Finish(h)); }
  }

  /** The request was never taken from the channel. */
  predicate IsPending(p: Phase) {
    p.Sending? || p.Queued?
  }

  ghost predicate AllDone(s: State) {
    forall h: nat | s.Is(h) :: s.handles[h].phase.Done?
  }

  /** Where nothing can move, all requests are answered exactly when all were taken; if not, the loop has returned. */
  lemma StuckExactlyWhenPending(c: Config, s: State)
    requires Inv(c, s) && !CanMove(c, s)
    ensures AllDone(s) <==> forall h: nat | s.Is(h) :: !IsPending(s.handles[h].phase)
    ensures !AllDone(s) ==> s.closed && s.loop.Ended?
  {
    if !AllDone(s) {
      var h := LastUndone(c, s, |s.handles|);
      if !IsPending(s.handles[h].phase) {
        WorkCanGoOn(c, s, h);
      }
      if !s.loop.Ended? {
        NeverStuck(c, s);
      }
    }
  }

  /** h was never taken, or waits for a request that is stranded. */
  ghost predicate Stranded(s: State, h: nat)
    requires s.Is(h)
    decreases |s.handles| - h
  {
    IsPending(s.handles[h].phase) || exists g: nat | h < g < |s.handles| :: Waits(s, h, g) && Stranded(s, g)
  }

  /** Of a single request: where nothing can move, it is left without an answer exactly when a chain of waiting leads
      from it to one that was never taken. */
  lemma {:induction false} UnansweredExactlyWhenStranded(c: Config, s: State, h: nat)
    requires Inv(c, s) && !CanMove(c, s) && s.Is(h)
    ensures !s.handles[h].phase.Done? <==> Stranded(s, h)
    decreases |s.handles| - h
  {
    if IsWaiting(s.handles[h].phase) {
      var g: nat :| Waits(s, h, g);
      assert Linked(s, g);
      UnansweredExactlyWhenStranded(c, s, g);
    } else {
      NotWaitedFor(c, s, h);
      if !s.handles[h].phase.Done? && !IsPending(s.handles[h].phase) {
        WorkCanGoOn(c, s, h);
      }
    }
  }

  // ---------- termination ----------

  /** Steps an issued request may still take, with those of its nested requests. */
  function Cost(r: Request): nat {
    3 + AttemptsCost(r.attempts)
  }

  function AttemptsCost(attempts: seq<Attempt>): nat {
    if attempts == [] then 0 else 1 + NestedCost(attempts[0].nested) + AttemptsCost(attempts[1..])
  }

  function NestedCost(nested: seq<Request>): nat {
    if nested == [] then 0 else 2 + Cost(nested[0]) + NestedCost(nested[1..])
  }

  function Remaining(h: Handle): nat {
    match h.phase
    case Sending => 1 + Cost(h.request)
    case Queued => Cost(h.request)
    case Running(a, d, w) =>
      if a < |h.request.attempts| && d < |h.request.attempts[a].nested| then
        2 + NestedCost(h.request.attempts[a].nested[if w then d + 1 else d..])
        + AttemptsCost(h.request.attempts[a + 1..])
      else 2 + if a < |h.request.attempts| then AttemptsCost(h.request.attempts[a + 1..]) else 0
    case Replying(_) => 1
    case Done(_) => 0
  }

  function Total(hs: seq<Handle>): nat {
    if hs == [] then 0 else Total(hs[..|hs| - 1]) + Remaining(hs[|hs| - 1])
  }

  function Measure(s: State): nat {
    Total(s.handles) + (if s.loop.AtCheck? then 1 else 0) + if s.closed then 0 else 1
  }

  lemma {:induction false} TotalUpdate(hs: seq<Handle>, i: nat, h: Handle)
    requires i < |hs|
    ensures Total(hs[i := h]) == Total(hs) - Remaining(hs[i]) + Remaining(h)
  {
    var n := |hs| - 1;
    if i == n {
      assert hs[i := h][..n] == hs[..n];
    } else {
      assert hs[i := h][..n] == hs[..n][i := h];
      TotalUpdate(hs[..n], i, h);
    }
  }

  /** Every step uses up some of the measure, so every run is finite. */
  lemma StepDescends(c: Config, s: State, step: Step)
    requires Inv(c, s) && Enabled(c, s, step)
    ensures Measure(Apply(c, s, step)) < Measure(s)
  {
    match step
    case Check =>
    case Close =>
    case Enqueue(h) => TotalUpdate(s.handles, h, s.handles[h].(phase := Queued));
    case Take => TakenCosts(c, s, s.ch[0]);
    case TakeDirect(h) => TakenCosts(c, s, h);
    case Issue(h) => IssueDescends(c, s, h);
    case Finish(h) => FinishDescends(c, s, h);
    case Deliver(h) =>
      assert s.handles[h].owner.Some? ==> PhaseOk(c, s.handles[s.handles[h].owner.value]);
      DeliverDescends(c, s, h);
  }

  lemma TakenCosts(c: Config, s: State, h: nat)
    requires Inv(c, s) && s.Is(h)
    ensures Total(s.handles[h := s.handles[h].(phase := Running(0, 0, false))]) + 2
            <= Total(s.handles) - Remaining(s.handles[h]) + Cost(s.handles[h].request)
  {
    assert PhaseOk(c, s.handles[h]);
    TotalUpdate(s.handles, h, s.handles[h].(phase := Running(0, 0, false)));
    assert s.handles[h].request.attempts[0].nested[0..] == s.handles[h].request.attempts[0].nested;
  }

  lemma IssueDescends(c: Config, s: State, h: nat)
    requires Enabled(c, s, Issue(h))
    ensures Measure(Apply(c, s, Issue(h))) < Measure(s)
  {
    var p := s.handles[h].phase;
    var s' := Apply(c, s, Issue(h));
    var nested := s.Current(h).nested;
    TotalUpdate(s.handles, h, s.handles[h].(phase := p.(waiting := true)));
    assert s'.handles[..|s.handles|] == s.handles[h := s.handles[h].(phase := p.(waiting := true))];
    assert nested[p.answered..][0] == nested[p.answered] && nested[p.answered..][1..] == nested[p.answered + 1..];
  }

  lemma FinishDescends(c: Config, s: State, h: nat)
    requires Inv(c, s) && Enabled(c, s, Finish(h))
    ensures Measure(Apply(c, s, Finish(h))) < Measure(s)
  {
    FinishedCosts(c, s, h);
    TotalUpdate(s.handles, h, Apply(c, s, Finish(h)).handles[h]);
  }

  lemma FinishedCosts(c: Config, s: State, h: nat)
    requires Inv(c, s) && Enabled(c, s, Finish(h))
    ensures Remaining(Apply(c, s, Finish(h)).handles[h]) < Remaining(s.handles[h])
  {
    var p := s.handles[h].phase;
    assert PhaseOk(c, s.handles[h]);
    if p.attempt < c.retryNum {
      NextAttemptCosts(s.handles[h], p.attempt, p.answered);
    }
  }

  lemma NextAttemptCosts(h: Handle, a: nat, d: nat)
    requires h.phase == Running(a, d, false) && a + 1 < |h.request.attempts| && d == |h.request.attempts[a].nested|
    ensures Remaining(h.(phase := Running(a + 1, 0, false))) < Remaining(h)
  {
  }

  lemma DeliverDescends(c: Config, s: State, h: nat)
    requires Enabled(c, s, Deliver(h))
    requires s.handles[h].owner.Some? ==> PhaseOk(c, s.handles[s.handles[h].owner.value])
    ensures Measure(Apply(c, s, Deliver(h))) < Measure(s)
  {
    if s.handles[h].owner.Some? {
      ReplyTotal(s.handles, h, s.handles[h].owner.value);
    } else {
      TotalUpdate(s.handles, h, s.handles[h].(phase := Done(s.handles[h].phase.result)));
    }
  }

  lemma ReplyTotal(hs: seq<Handle>, h: nat, o: nat)
    requires h < |hs| && o < |hs| && o != h && hs[h].phase.Replying? && IsWaiting(hs[o].phase)
    requires hs[o].phase.attempt < |hs[o].request.attempts|
    requires hs[o].phase.answered < |hs[o].request.attempts[hs[o].phase.attempt].nested|
    ensures var done := hs[h].(phase := Done(hs[h].phase.result));
            var resumed := hs[o].(phase := Running(hs[o].phase.attempt, hs[o].phase.answered + 1, false));
            Total(hs[h := done][o := resumed]) == Total(hs) - 1
  {
    var done := hs[h].(phase := Done(hs[h].phase.result));
    var p := hs[o].phase;
    var resumed := hs[o].(phase := Running(p.attempt, p.answered + 1, false));
    DoneIsFree(hs[h]);
    ResumingIsFree(hs[o], p.attempt, p.answered);
    TotalUpdate(hs, h, done);
    TotalUpdate(hs[h := done], o, resumed);
  }

  lemma DoneIsFree(h: Handle)
    requires h.phase.Replying?
    ensures Remaining(h) == 1 && Remaining(h.(phase := Done(h.phase.result))) == 0
  {
  }

  lemma ResumingIsFree(h: Handle, a: nat, d: nat)
    requires a < |h.request.attempts| && d < |h.request.attempts[a].nested| && h.phase == Running(a, d, true)
    ensures Remaining(h.(phase := Running(a, d + 1, false))) == Remaining(h)
  {
  }

  // ---------- whole runs ----------

  ghost predicate Run(c: Config, s: State, steps: seq<Step>)
    decreases |steps|
  {
    steps == [] || (Enabled(c, s, steps[0]) && Run(c, Apply(c, s, steps[0]), steps[1..]))
  }

  ghost function After(c: Config, s: State, steps: seq<Step>): State
    requires Run(c, s, steps)
    decreases |steps|
  {
    if steps == [] then s else After(c, Apply(c, s, steps[0]), steps[1..])
  }

  lemma {:induction false} RunKeepsInv(c: Config, s: State, steps: seq<Step>)
    requires Inv(c, s) && Run(c, s, steps)
    ensures Inv(c, After(c, s, steps))
    ensures Measure(After(c, s, steps)) + |steps| <= Measure(s)
    decreases |steps|
  {
    if steps != [] {
      StepKeepsInv(c, s, steps[0]);
      StepDescends(c, s, steps[0]);
      RunKeepsInv(c, Apply(c, s, steps[0]), steps[1..]);
    }
  }

  /** In every interleaving: runs are bounded; no request is ever sent two results, and the one it is sent
      is its first success or else its last error; a run that can go no further without Close having ended
      the loop has sent every request, nested ones included, exactly one. */
  lemma ExactlyOneReply(c: Config, requests: seq<Request>, steps: seq<Step>)
    requires forall r | r in requests :: Scripted(r, c.retryNum)
    requires Run(c, Start(requests), steps)
    ensures var s := After(c, Start(requests), steps);
            && |steps| <= Measure(Start(requests))
            && (forall h: nat | s.Is(h) ::
                  |s.handles[h].request.attempts| == c.retryNum + 1 && Count(s.replies, h) <= 1)
            && (forall r | r in s.replies :: s.Is(r.0) && r.1 == Answer(s.handles[r.0].request.attempts))
            && (forall h: nat | s.Is(h) && s.handles[h].phase.Running? :: s.handles[h].phase.attempt <= c.retryNum)
            && (!CanMove(c, s) && !s.loop.Ended? ==>
                  forall h: nat | s.Is(h) :: s.handles[h].phase.Done? && Count(s.replies, h) == 1)
  {
    StartOk(c, requests);
    RunKeepsInv(c, Start(requests), steps);
    var s := After(c, Start(requests), steps);
    if !CanMove(c, s) && !s.loop.Ended? {
      forall h: nat | s.Is(h) ensures s.handles[h].phase.Done? {
        if !s.handles[h].phase.Done? { NeverStuck(c, s); }
      }
    }
    forall r | r in s.replies ensures r.1 == Answer(s.handles[r.0].request.attempts) {
      assert PhaseOk(c, s.handles[r.0]);
    }
    forall h: nat | s.Is(h) ensures |s.handles[h].request.attempts| == c.retryNum + 1 {
      assert PhaseOk(c, s.handles[h]);
    }
  }

  // ---------- closing ----------

  /** How often the loop has to take something to get a request answered: the request, and whatever its attempts issue
      up to the first success. */
  function Takes(r: Request): (n: nat)
    ensures n > 0
  {
    1 + AttemptsTakes(r.attempts)
  }

  function AttemptsTakes(attempts: seq<Attempt>): nat {
    if attempts == [] then 0
    else NestedTakes(attempts[0].nested) + if attempts[0].result.Ok? then 0 else AttemptsTakes(attempts[1..])
  }

  function NestedTakes(nested: seq<Request>): nat {
    if nested == [] then 0 else Takes(nested[0]) + NestedTakes(nested[1..])
  }

  /** How often it still has to for this handle; what it waits for has a handle of its own. */
  function TakesLeft(h: Handle): nat {
    match h.phase
    case Sending => Takes(h.request)
    case Queued => Takes(h.request)
    case Running(a, d, w) =>
      var next := if w then d + 1 else d;
      if a < |h.request.attempts| && next <= |h.request.attempts[a].nested| then
        NestedTakes(h.request.attempts[a].nested[next..])
        + if h.request.attempts[a].result.Ok? then 0 else AttemptsTakes(h.request.attempts[a + 1..])
      else 0
    case Replying(_) => 0
    case Done(_) => 0
  }

  function ToTake(hs: seq<Handle>): nat {
    if hs == [] then 0 else ToTake(hs[..|hs| - 1]) + TakesLeft(hs[|hs| - 1])
  }

  lemma {:induction false} ToTakeUpdate(hs: seq<Handle>, i: nat, h: Handle)
    requires i < |hs|
    ensures ToTake(hs[i := h]) == ToTake(hs) - TakesLeft(hs[i]) + TakesLeft(h)
  {
    var n := |hs| - 1;
    if i == n {
      assert hs[i := h][..n] == hs[..n];
    } else {
      assert hs[i := h][..n] == hs[..n][i := h];
      ToTakeUpdate(hs[..n], i, h);
    }
  }

  /** Taking a request lowers the number by one, and nothing else changes it. */
  lemma StepTakes(c: Config, s: State, step: Step)
    requires Inv(c, s) && Enabled(c, s, step)
    ensures ToTake(Apply(c, s, step).handles)
            == ToTake(s.handles) - if step.Take? || step.TakeDirect? then 1 else 0
  {
    match step
    case Check =>
    case Close =>
    case Enqueue(h) => ToTakeUpdate(s.handles, h, s.handles[h].(phase := Queued));
    case Take => TakenTakes(c, s, s.ch[0]);
    case TakeDirect(h) => TakenTakes(c, s, h);
    case Issue(h) => IssueTakes(c, s, h);
    case Finish(h) =>
      assert PhaseOk(c, s.handles[h]);
      FinishedTakes(c, s, h);
      ToTakeUpdate(s.handles, h, Apply(c, s, step).handles[h]);
    case Deliver(h) =>
      assert s.handles[h].owner.Some? ==> PhaseOk(c, s.handles[s.handles[h].owner.value]);
      DeliverTakes(c, s, h);
  }

  lemma TakenTakes(c: Config, s: State, h: nat)
    requires Inv(c, s) && s.Is(h) && IsPending(s.handles[h].phase)
    ensures ToTake(s.handles[h := s.handles[h].(phase := Running(0, 0, false))]) == ToTake(s.handles) - 1
  {
    assert PhaseOk(c, s.handles[h]);
    FirstAttemptTakes(s.handles[h]);
    ToTakeUpdate(s.handles, h, s.handles[h].(phase := Running(0, 0, false)));
  }

  lemma FirstAttemptTakes(h: Handle)
    requires h.request.attempts != []
    ensures TakesLeft(h.(phase := Running(0, 0, false))) + 1 == Takes(h.request)
  {
    var attempts := h.request.attempts;
    assert attempts[0].nested[0..] == attempts[0].nested && attempts[0 + 1..] == attempts[1..];
    assert Takes(h.request) == 1 + AttemptsTakes(attempts);
  }

  lemma IssueTakes(c: Config, s: State, h: nat)
    requires Enabled(c, s, Issue(h))
    ensures ToTake(Apply(c, s, Issue(h)).handles) == ToTake(s.handles)
  {
    var p, nested := s.handles[h].phase, s.Current(h).nested;
    var asking := s.handles[h].(phase := p.(waiting := true));
    var s' := Apply(c, s, Issue(h));
    ToTakeUpdate(s.handles, h, asking);
    assert s'.handles[..|s.handles|] == s.handles[h := asking];
    assert nested[p.answered..][0] == nested[p.answered] && nested[p.answered..][1..] == nested[p.answered + 1..];
  }

  lemma FinishedTakes(c: Config, s: State, h: nat)
    requires Enabled(c, s, Finish(h)) && PhaseOk(c, s.handles[h])
    ensures TakesLeft(Apply(c, s, Finish(h)).handles[h]) == TakesLeft(s.handles[h])
  {
    var a := s.handles[h].phase.attempt;
    if s.Current(h).result.Fail? && a < c.retryNum {
      NextAttemptTakes(s.handles[h], a);
    } else {
      LastAttemptTakes(s.handles[h], a);
    }
  }

  lemma NextAttemptTakes(h: Handle, a: nat)
    requires a + 1 < |h.request.attempts| && h.request.attempts[a].result.Fail?
    requires h.phase == Running(a, |h.request.attempts[a].nested|, false)
    ensures TakesLeft(h.(phase := Running(a + 1, 0, false))) == TakesLeft(h)
  {
    var attempts := h.request.attempts;
    assert attempts[a + 1..][0] == attempts[a + 1] && attempts[a + 1..][1..] == attempts[a + 1 + 1..];
    assert attempts[a].nested[|attempts[a].nested|..] == [];
    assert attempts[a + 1].nested[0..] == attempts[a + 1].nested;
  }

  lemma LastAttemptTakes(h: Handle, a: nat)
    requires a < |h.request.attempts| && (h.request.attempts[a].result.Ok? || a + 1 == |h.request.attempts|)
    requires h.phase == Running(a, |h.request.attempts[a].nested|, false)
    ensures TakesLeft(h) == 0
  {
    var attempts := h.request.attempts;
    assert attempts[a].nested[|attempts[a].nested|..] == [];
    assert NestedTakes([]) == 0 && AttemptsTakes([]) == 0;
    assert a + 1 == |attempts| ==> attempts[a + 1..] == [];
  }

  lemma DeliverTakes(c: Config, s: State, h: nat)
    requires Enabled(c, s, Deliver(h))
    requires s.handles[h].owner.Some? ==> PhaseOk(c, s.handles[s.handles[h].owner.value])
    ensures ToTake(Apply(c, s, Deliver(h)).handles) == ToTake(s.handles)
  {
    if s.handles[h].owner.Some? {
      ReplyTakes(s.handles, h, s.handles[h].owner.value);
    } else {
      ToTakeUpdate(s.handles, h, s.handles[h].(phase := Done(s.handles[h].phase.result)));
    }
  }

  lemma ReplyTakes(hs: seq<Handle>, h: nat, o: nat)
    requires h < |hs| && o < |hs| && o != h && hs[h].phase.Replying? && IsWaiting(hs[o].phase)
    requires hs[o].phase.attempt < |hs[o].request.attempts|
    requires hs[o].phase.answered < |hs[o].request.attempts[hs[o].phase.attempt].nested|
    ensures var done := hs[h].(phase := Done(hs[h].phase.result));
            var resumed := hs[o].(phase := Running(hs[o].phase.attempt, hs[o].phase.answered + 1, false));
            ToTake(hs[h := done][o := resumed]) == ToTake(hs)
  {
    var done := hs[h].(phase := Done(hs[h].phase.result));
    var resumed := hs[o].(phase := Running(hs[o].phase.attempt, hs[o].phase.answered + 1, false));
    assert TakesLeft(resumed) == TakesLeft(hs[o]);
    ToTakeUpdate(hs, h, done);
    ToTakeUpdate(hs[h := done], o, resumed);
  }

  /** What a closed manager still takes: one request if the loop is already receiving. */
  function Allowance(s: State): nat {
    if s.loop.Receiving? then 1 else 0
  }

  lemma {:induction false} ClosedRunTakes(c: Config, s: State, steps: seq<Step>)
    requires Inv(c, s) && s.closed && Run(c, s, steps)
    ensures var t := After(c, s, steps);
            ToTake(t.handles) - Allowance(t) == ToTake(s.handles) - Allowance(s)
    decreases |steps|
  {
    if steps != [] {
      StepKeepsInv(c, s, steps[0]);
      StepTakes(c, s, steps[0]);
      ClosedRunTakes(c, Apply(c, s, steps[0]), steps[1..]);
    }
  }

  lemma {:induction false} NothingToTake(hs: seq<Handle>)
    ensures ToTake(hs) == 0 ==> forall h | h in hs :: !IsPending(h.phase)
    ensures (forall h | h in hs :: h.phase.Done?) ==> ToTake(hs) == 0
  {
    if hs != [] {
      NothingToTake(hs[..|hs| - 1]);
      assert hs == hs[..|hs| - 1] + [hs[|hs| - 1]];
    }
  }

  /** When it does no harm to close the manager: whatever happens afterwards, once nothing can move all requests, those
      yet to be issued included, are answered exactly when none was left to take, or a single one with the loop already
      receiving. */
  lemma AnsweredExactlyWhen(c: Config, s: State, steps: seq<Step>)
    requires Inv(c, s) && Enabled(c, s, Close) && Run(c, Apply(c, s, Close), steps)
    requires !CanMove(c, After(c, Apply(c, s, Close), steps))
    ensures AllDone(After(c, Apply(c, s, Close), steps)) <==> ToTake(s.handles) <= if s.loop.Receiving? then 1 else 0
  {
    StepKeepsInv(c, s, Close);
    StepTakes(c, s, Close);
    RunKeepsInv(c, Apply(c, s, Close), steps);
    ClosedRunTakes(c, Apply(c, s, Close), steps);
    var t := After(c, Apply(c, s, Close), steps);
    NothingToTake(t.handles);
    StuckExactlyWhenPending(c, t);
    assert AllDone(t) ==> forall h | h in t.handles :: h.phase.Done?;
    assert ToTake(t.handles) == 0 ==> forall h: nat | t.Is(h) :: !IsPending(t.handles[h].phase);
  }

  function Inner(): Request {
    Request([Attempt([], Ok("inner"))])
  }

  function Outer(): Request {
    Request([Attempt([Inner()], Ok("outer"))])
  }

  /** The manager is closed while a taken request still has a nested one to issue. However the run goes on, both stay
      without a reply if the loop is about to test m.closed, and both get theirs if it is already receiving. */
  lemma CloseBeforeNestedRequest(c: Config, receiving: bool, steps: seq<Step>)
    requires c.retryNum == 0
    ensures var before := if receiving then [Check, TakeDirect(0), Check] else [Check, TakeDirect(0)];
            && Scripted(Outer(), c.retryNum) && Run(c, Start([Outer()]), before)
            && var s := After(c, Start([Outer()]), before);
               && !s.closed
               && (Run(c, Apply(c, s, Close), steps) && !CanMove(c, After(c, Apply(c, s, Close), steps)) ==>
                     (AllDone(After(c, Apply(c, s, Close), steps)) <==> receiving))
  {
    var s1 := Start([Outer()]).(loop := Receiving);
    var s2 := State([Handle(Outer(), None, Running(0, 0, false))], [], AtCheck, false, []);
    var s := if receiving then s2.(loop := Receiving) else s2;
    var rest := if receiving then [Check] else [];
    StartOk(c, [Outer()]);
    assert s1.To(0, Running(0, 0, false)).(loop := AtCheck) == s2;
    if receiving { RunOne(c, s2, Check, []); }
    assert [Check] + [] == [Check];
    RunOne(c, s1, TakeDirect(0), rest);
    RunOne(c, Start([Outer()]), Check, [TakeDirect(0)] + rest);
    assert [Check] + ([TakeDirect(0)] + rest)
           == if receiving then [Check, TakeDirect(0), Check] else [Check, TakeDirect(0)];
    RunKeepsInv(c, Start([Outer()]), [Check] + ([TakeDirect(0)] + rest));
    OuterTakes(s);
    if Run(c, Apply(c, s, Close), steps) && !CanMove(c, After(c, Apply(c, s, Close), steps)) {
      AnsweredExactlyWhen(c, s, steps);
    }
  }

  lemma OuterTakes(s: State)
    requires s.handles == [Handle(Outer(), None, Running(0, 0, false))]
    ensures ToTake(s.handles) == 1
  {
    assert Outer().attempts[0].nested[0..] == [Inner()];
    assert Takes(Inner()) == 1;
    assert NestedTakes([Inner()]) == 1;
    assert ToTake([]) == 0 && s.handles[..0] == [];
  }

  lemma RunOne(c: Config, s: State, step: Step, steps: seq<Step>)
    requires Enabled(c, s, step) && Run(c, Apply(c, s, step), steps)
    ensures Run(c, s, [step] + steps) && After(c, s, [step] + steps) == After(c, Apply(c, s, step), steps)
  {
  }
}
