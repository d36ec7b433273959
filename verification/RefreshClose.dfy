/** What is left to happen once the cache is closed. */
module RefreshClose {
  import opened RefreshMachine
  import opened RefreshChain

  /** Admin API calls that can still start: one, by an operation whose token was reserved before. */
  function CallsLeft(p: Phase): nat {
    if p.Waiting? || p.Granted? then 1 else 0
  }

  /** Operations that can still be scheduled without ForceRefresh: one, by an operation that was
      past its context check. */
  function ScheduleLeft(p: Phase): nat {
    if Live(p) && !p.Scheduled? && !p.Fired? then 1 else 0
  }

  /** Steps the refresh goroutines can still take: the termination measure. */
  function StepsLeft(p: Phase): nat {
    match p
    case Waiting(_, _) => 7
    case Granted(_) => 6
    case Calling(_) => 5
    case Admitted(_) => 5
    case Computed(_) => 4
    case Published(_) => 3
    case Scheduled(_) => 2
    case Fired => 1
    case Stopped => 0
    case Done(_) => 0
  }

  predicate IsCycleStep(a: Action) {
    IsLocal(a) || a.Update?
  }

  lemma ClosedStep(s: State, a: Action)
    requires Chain(s) && s.closed && Enabled(s, a)
    ensures Next(s, a).closed
    ensures |Next(s, a).calls| + CallsLeft(Next(s, a).ops[Next(s, a).next])
         <= |s.calls| + CallsLeft(s.ops[s.next])
    ensures !a.ForceRefresh? ==>
              |Next(s, a).ops| + ScheduleLeft(Next(s, a).ops[Next(s, a).next])
              <= |s.ops| + ScheduleLeft(s.ops[s.next])
    ensures !a.ForceRefresh? ==>
              StepsLeft(Next(s, a).ops[Next(s, a).next]) + (if IsCycleStep(a) then 1 else 0)
              <= StepsLeft(s.ops[s.next])
  {
    if IsLocal(a) {
      LocalStep(s, a);
      LiveIsNext(s, a.k);
    } else if a.Close? {
      CloseStopsNext(s);
    } else if a.Update? {
      LiveIsNext(s, a.k);
    }
  }

  /** Close itself: it stops the pending timer and leaves everything else alone, so what is still
      live is an operation that had already fired. */
  lemma CloseStopsTheTimer(s: State)
    requires Reachable(s)
    ensures Indexed(s)
    ensures Next(s, Close).closed && Next(s, Close).cur == s.cur && Next(s, Close).next == s.next
    ensures Next(s, Close).calls == s.calls && |Next(s, Close).ops| == |s.ops|
    ensures forall k :: 0 <= k < |s.ops| ==> !Next(s, Close).ops[k].Scheduled?
    ensures forall k :: 0 <= k < |s.ops| ==>
              Next(s, Close).ops[k] == if s.ops[k].Scheduled? then Stopped else s.ops[k]
  {
    ReachableIsChain(s);
    CloseStopsNext(s);
  }

  lemma {:induction false} CallsAfterClose(s: State, acts: seq<Action>)
    requires Chain(s) && s.closed && IsRun(s, acts)
    ensures After(s, acts).closed
    ensures |After(s, acts).calls| <= |s.calls| + CallsLeft(s.ops[s.next])
    decreases |acts|
  {
    if acts != [] {
      ClosedStep(s, acts[0]);
      StepKeepsChain(s, acts[0]);
      CallsAfterClose(Next(s, acts[0]), acts[1..]);
    }
  }

  /** After Close at most one more Admin API call starts, however the run goes on and however
      often ForceRefresh is called; none starts unless a token had been reserved before Close. */
  lemma AtMostOneCallAfterClose(s: State, acts: seq<Action>)
    requires Reachable(s) && Indexed(s) && IsRun(Next(s, Close), acts)
    ensures |After(Next(s, Close), acts).calls| <= |s.calls| + 1
    ensures !s.ops[s.next].Waiting? && !s.ops[s.next].Granted? ==>
              |After(Next(s, Close), acts).calls| == |s.calls|
  {
    ReachableIsChain(s);
    StepKeepsChain(s, Close);
    CloseStopsNext(s);
    CallsAfterClose(Next(s, Close), acts);
    RunPrecedes(Next(s, Close), acts);
  }

  lemma GrantedCallStarts(s: State) returns (acts: seq<Action>)
    requires Indexed(s) && s.ops[s.next].Granted?
    ensures IsRun(s, acts) && |After(s, acts).calls| == |s.calls| + 1
  {
    assert IsRun(Next(s, Start(s.next)), []);
    RunOfStep(s, Start(s.next), []);
    acts := [Start(s.next)] + [];
  }

  lemma ReservedCallStarts(s: State) returns (acts: seq<Action>)
    requires Indexed(s) && (s.ops[s.next].Waiting? || s.ops[s.next].Granted?)
    ensures IsRun(s, acts) && |After(s, acts).calls| == |s.calls| + 1
  {
    if s.ops[s.next].Granted? {
      acts := GrantedCallStarts(s);
    } else {
      var grantAt := s.ops[s.next].grantAt;
      var sleep := Tick(if s.now < grantAt then grantAt - s.now else 0);
      var s1 := Next(s, sleep);
      acts := GrantedCallStarts(Next(s1, Grant(s.next)));
      RunOfStep(s1, Grant(s.next), acts);
      RunOfStep(s, sleep, [Grant(s.next)] + acts);
      acts := [sleep] + ([Grant(s.next)] + acts);
    }
  }

  /** A call can still start after Close if and only if a token had been reserved for it: the
      limiter's wait may take its token though the context is cancelled, and the call that follows
      is not guarded again. */
  lemma OneMoreCallIff(s: State)
    requires Reachable(s) && Indexed(s)
    ensures (exists acts :: IsRun(Next(s, Close), acts) && |After(Next(s, Close), acts).calls| == |s.calls| + 1)
        <==> s.ops[s.next].Waiting? || s.ops[s.next].Granted?
  {
    CloseStopsTheTimer(s);
    if s.ops[s.next].Waiting? || s.ops[s.next].Granted? {
      var acts := ReservedCallStarts(Next(s, Close));
    }
    if acts :| IsRun(Next(s, Close), acts) && |After(Next(s, Close), acts).calls| == |s.calls| + 1 {
      AtMostOneCallAfterClose(s, acts);
    }
  }

  /** An operation that fires after Close never calls the API and never schedules a successor:
      from the context check on it is done, with the context's error. */
  lemma FiringAfterCloseEndsTheCycle(s: State, k: nat, acts: seq<Action>)
    requires Reachable(s) && Indexed(s) && s.closed && Enabled(s, CheckContext(k))
    requires IsRun(Next(s, CheckContext(k)), acts)
    ensures After(Next(s, CheckContext(k)), acts).ops == s.ops[k := Done(Failure(ContextCanceled))]
    ensures After(Next(s, CheckContext(k)), acts).calls == s.calls
  {
    ReachableIsChain(s);
    LiveIsNext(s, k);
    StepKeepsChain(s, CheckContext(k));
    DeadStaysDead(Next(s, CheckContext(k)), acts);
  }

  lemma {:induction false} DeadStaysDead(s: State, acts: seq<Action>)
    requires Chain(s) && s.closed && !Live(s.ops[s.next]) && IsRun(s, acts)
    ensures After(s, acts).ops == s.ops && After(s, acts).calls == s.calls
    decreases |acts|
  {
    if acts != [] {
      DeadStep(s, acts[0]);
      StepKeepsChain(s, acts[0]);
      DeadStaysDead(Next(s, acts[0]), acts[1..]);
    }
  }

  lemma DeadStep(s: State, a: Action)
    requires Chain(s) && s.closed && !Live(s.ops[s.next]) && Enabled(s, a)
    ensures Next(s, a).closed && Next(s, a).ops == s.ops && Next(s, a).calls == s.calls
    ensures Next(s, a).next == s.next
  {
    if IsLocal(a) {
      LocalStep(s, a);
    } else if a.Close? {
      CloseStopsNext(s);
    }
  }

  function CountCycleSteps(acts: seq<Action>): nat {
    if acts == [] then 0
    else (if IsCycleStep(acts[0]) then 1 else 0) + CountCycleSteps(acts[1..])
  }

  lemma {:induction false} ClosedRunIsShort(s: State, acts: seq<Action>)
    requires Chain(s) && s.closed && IsRun(s, acts) && NoForce(acts)
    ensures |After(s, acts).ops| <= |s.ops| + ScheduleLeft(s.ops[s.next])
    ensures CountCycleSteps(acts) + StepsLeft(After(s, acts).ops[After(s, acts).next])
         <= StepsLeft(s.ops[s.next])
    decreases |acts|
  {
    if acts != [] {
      ClosedStep(s, acts[0]);
      StepKeepsChain(s, acts[0]);
      assert NoForce(acts[1..]);
      ClosedRunIsShort(Next(s, acts[0]), acts[1..]);
    }
  }

  predicate Quiet(s: State) {
    forall k :: 0 <= k < |s.ops| ==> !Live(s.ops[k])
  }

  /** A cycle step can be taken, if need be after some time has passed. */
  ghost predicate GoesOn(s: State)
    requires Indexed(s)
  {
    exists d: nat, a: Action :: IsCycleStep(a) && Enabled(Next(s, Tick(d)), a)
  }

  lemma QuietOrGoesOn(s: State)
    requires Reachable(s) && Indexed(s)
    ensures Quiet(s) || GoesOn(s)
    ensures StepsLeft(s.ops[s.next]) == 0 ==> Quiet(s)
  {
    ReachableIsChain(s);
    if Live(s.ops[s.next]) {
      var wake := WakeAt(s.ops[s.next], s.now);
      var d: nat := if s.now < wake then wake - s.now else 0;
      var s1 := Extend(s, Tick(d));
      var a := CycleNeverStuck(s1, Failure(WaitFailed));
      assert IsCycleStep(a) && Enabled(Next(s, Tick(d)), a);
    }
  }

  lemma ClosedRunEnds(s: State, acts: seq<Action>)
    requires Reachable(s) && Indexed(s) && s.closed && IsRun(s, acts) && NoForce(acts)
    ensures |After(s, acts).ops| <= |s.ops| + 1
    ensures CountCycleSteps(acts) <= StepsLeft(s.ops[s.next])
    ensures Quiet(After(s, acts)) || GoesOn(After(s, acts))
    ensures CountCycleSteps(acts) == StepsLeft(s.ops[s.next]) ==> Quiet(After(s, acts))
  {
    var end := After(s, acts);
    RunReachable(s, acts);
    QuietOrGoesOn(end);
    ReachableIsChain(s);
    ClosedRunIsShort(s, acts);
  }

  /** Close quiesces. Without further ForceRefresh the refresh goroutines take at most seven more
      steps and schedule at most one more operation; whenever they can take no more, however long
      one waits, nothing is scheduled or running. */
  lemma CloseQuiesces(s: State, acts: seq<Action>)
    requires Reachable(s) && Indexed(s) && IsRun(Next(s, Close), acts) && NoForce(acts)
    ensures |After(Next(s, Close), acts).ops| <= |s.ops| + 1
    ensures CountCycleSteps(acts) <= StepsLeft(Next(s, Close).ops[s.next]) <= 7
    ensures Quiet(After(Next(s, Close), acts)) || GoesOn(After(Next(s, Close), acts))
    ensures CountCycleSteps(acts) == StepsLeft(Next(s, Close).ops[s.next]) ==> Quiet(After(Next(s, Close), acts))
  {
    var s1 := Extend(s, Close);
    CloseStopsTheTimer(s);
    ClosedRunEnds(s1, acts);
  }
}
