/** What readers are served: a good result is never displaced by a bad one, and under stated
    timing assumptions `cur` stays valid at every instant until Close. */
module RefreshValidity {
  import opened Timing
  import opened RefreshMachine
  import opened RefreshChain
  import opened RefreshRate

  // ---------- a good result is not displaced by a bad one ----------

  /** The certificate this step would install has not expired yet. */
  predicate InstallsUnexpired(s: State, a: Action) {
    a.Update? && a.k < |s.ops| && s.ops[a.k].Published? && s.ops[a.k].outcome.Success? ==>
      s.now <= s.ops[a.k].outcome.info.expiration
  }

  /** The clock does not pass the expiration of a valid `cur`, and no expired certificate is
      installed. */
  predicate SparesGood(s: State, a: Action)
    requires Indexed(s)
  {
    && InstallsUnexpired(s, a)
    && (a.Tick? && IsValid(s.ops[s.cur], s.now) ==> s.now + a.d <= s.ops[s.cur].outcome.info.expiration)
  }

  /** One step from a valid `cur`: exactly those two things take it away. In particular a failed
      refresh never does, nor ForceRefresh, nor Close; they do not even replace it. */
  lemma GoodStepIff(s: State, a: Action)
    requires Indexed(s) && Enabled(s, a) && IsValid(s.ops[s.cur], s.now)
    ensures IsValid(Next(s, a).ops[Next(s, a).cur], Next(s, a).now) <==> SparesGood(s, a)
    ensures !(a.Update? && s.ops[a.k].outcome.Success?) ==> Next(s, a).cur == s.cur
  {
  }

  predicate AllSpareGood(s: State, acts: seq<Action>)
    requires Indexed(s) && IsRun(s, acts)
    decreases |acts|
  {
    acts == [] || (SparesGood(s, acts[0]) && AllSpareGood(Next(s, acts[0]), acts[1..]))
  }

  /** `cur` is valid in every state of the run. */
  predicate ValidThroughout(s: State, acts: seq<Action>)
    requires Indexed(s) && IsRun(s, acts)
    decreases |acts|
  {
    IsValid(s.ops[s.cur], s.now) && (acts != [] ==> ValidThroughout(Next(s, acts[0]), acts[1..]))
  }

  /** Over any run from a valid `cur`, it stays valid throughout if and only if no step lets the clock
      pass its expiration or installs an expired certificate. */
  lemma {:induction false} GoodResultIsKeptIff(s: State, acts: seq<Action>)
    requires Indexed(s) && IsRun(s, acts) && IsValid(s.ops[s.cur], s.now)
    ensures ValidThroughout(s, acts) <==> AllSpareGood(s, acts)
    decreases |acts|
  {
    if acts != [] {
      var s1 := Next(s, acts[0]);
      GoodStepIff(s, acts[0]);
      if IsValid(s1.ops[s1.cur], s1.now) {
        GoodResultIsKeptIff(s1, acts[1..]);
      }
    }
  }

  /** A run in which a valid result is displaced: with an hour left on its certificate, a refresh
      forced at once brings one that has expired. */
  lemma ExpiredResultDisplacesGood() returns (s: State, a: Action)
    ensures Reachable(s) && Indexed(s) && !s.closed && Enabled(s, a)
    ensures IsValid(s.ops[s.cur], s.now)
    ensures a.Update? && !IsValid(Next(s, a).ops[Next(s, a).cur], s.now)
  {
    s := Init(0, REFRESH_INTERVAL);
    InitReachable(0, REFRESH_INTERVAL);
    s := ToPublished(s, Success(ConnectionInfo(0, HOUR)));
    s := Extend(s, Update(0));
    s := Extend(s, ForceRefresh);
    s := ToPublished(s, Success(ConnectionInfo(1, -1)));
    a := Update(2);
  }

  // ---------- continuous validity ----------

  /** Failed refreshes since the last successful one; stopped operations do not count. */
  function FailStreak(ops: seq<Phase>): nat {
    if ops == [] then 0
    else
      var p := ops[|ops| - 1];
      if p.Done? && p.outcome.Success? then 0
      else FailStreak(ops[..|ops| - 1]) + (if p.Done? then 1 else 0)
  }

  predicate HasSucceeded(ops: seq<Phase>) {
    exists k :: 0 <= k < |ops| && ops[k].Done? && ops[k].outcome.Success?
  }

  /** The latest instant to which the clock may advance: due timers, grants and runnable goroutines
      do not lag behind it, and an Admin API call takes at most `fetchTime`. */
  function Horizon(p: Phase, now: int, fetchTime: nat): int {
    match p
    case Scheduled(due) => due
    case Waiting(grantAt, _) => grantAt
    case Calling(started) => started + fetchTime
    case _ => now
  }

  predicate Timely(s: State, a: Action, fetchTime: nat)
    requires Indexed(s)
  {
    match a
    case Tick(d) => Live(s.ops[s.next]) ==> s.now + d <= Horizon(s.ops[s.next], s.now, fetchTime)
    case Update(k) =>
      k < |s.ops| && s.ops[k].Published? && s.ops[k].outcome.Success? ==>
        s.now + REFRESH_BUFFER <= s.ops[k].outcome.info.expiration
    case _ => true
  }

  /** A run in which every step is timely and no more than `failures` refreshes in a row fail. */
  predicate TimelyRun(s: State, acts: seq<Action>, fetchTime: nat, failures: nat)
    requires Indexed(s)
    decreases |acts|
  {
    acts == [] ||
    (&& Enabled(s, acts[0])
     && Timely(s, acts[0], fetchTime)
     && FailStreak(Next(s, acts[0]).ops) <= failures
     && TimelyRun(Next(s, acts[0]), acts[1..], fetchTime, failures))
  }

  // One refresh: the longest wait for a token and the longest call.
  function Attempt(fetchTime: nat): nat {
    REFRESH_INTERVAL + fetchTime
  }

  /** When the live operation must have got where it is, if its timer was due by `due`. */
  predicate OnTime(p: Phase, now: int, due: int, fetchTime: nat) {
    match p
    case Scheduled(d) => now <= d <= due
    case Fired => now <= due
    case Admitted(_) => now <= due
    case Waiting(grantAt, _) => now <= grantAt <= due + REFRESH_INTERVAL
    case Granted(_) => now <= due + REFRESH_INTERVAL
    case Calling(started) => started <= due + REFRESH_INTERVAL && now <= started + fetchTime
    case Computed(_) => now <= due + Attempt(fetchTime)
    case Published(_) => now <= due + Attempt(fetchTime)
    case _ => false
  }

  /** The latest instant the live operation's timer can be due, given what `cur` holds. */
  function DueBy(s: State, fetchTime: nat): int
    requires Chain(s) && Ready(s.ops[s.cur]) && s.ops[s.cur].outcome.Success?
  {
    s.ops[s.cur].outcome.info.expiration - REFRESH_BUFFER + FailStreak(s.ops[..s.next]) * Attempt(fetchTime)
  }

  /** Once some refresh has succeeded: `cur` holds a success and the live operation is on time. */
  predicate Served(s: State, fetchTime: nat)
    requires Chain(s)
  {
    && s.cur < s.next
    && s.ops[s.cur].outcome.Success?
    && OnTime(s.ops[s.next], s.now, DueBy(s, fetchTime), fetchTime)
  }

  predicate ServedOnceSucceeded(s: State, fetchTime: nat)
    requires Chain(s)
  {
    !s.closed && HasSucceeded(s.ops) ==> Served(s, fetchTime)
  }

  predicate Affordable(fetchTime: nat, failures: nat) {
    (failures + 1) * Attempt(fetchTime) <= REFRESH_BUFFER
  }

  lemma AttemptsFit(fetchTime: nat, failures: nat, streak: nat)
    requires Affordable(fetchTime, failures) && streak <= failures
    ensures streak * Attempt(fetchTime) + Attempt(fetchTime) <= REFRESH_BUFFER
  {
    assert (streak + 1) * Attempt(fetchTime) <= (failures + 1) * Attempt(fetchTime);
  }

  lemma StreakOfExtension(ops: seq<Phase>, p: Phase)
    ensures FailStreak(ops + [p]) ==
            if p.Done? && p.outcome.Success? then 0 else FailStreak(ops) + (if p.Done? then 1 else 0)
  {
    assert (ops + [p])[..|ops|] == ops;
  }

  lemma StreakOfChain(s: State)
    requires Chain(s) && !s.closed
    ensures FailStreak(s.ops) == FailStreak(s.ops[..s.next])
  {
    assert s.ops == s.ops[..s.next] + [s.ops[s.next]];
    StreakOfExtension(s.ops[..s.next], s.ops[s.next]);
  }

  lemma ServedIsValid(s: State, fetchTime: nat, failures: nat)
    requires Chain(s) && !s.closed && Served(s, fetchTime)
    requires Affordable(fetchTime, failures) && FailStreak(s.ops) <= failures
    ensures IsValid(s.ops[s.cur], s.now)
  {
    StreakOfChain(s);
    AttemptsFit(fetchTime, failures, FailStreak(s.ops));
  }

  // ---------- steps ----------

  /** What the induction over a timely run carries. */
  predicate Invariant(s: State, fetchTime: nat, failures: nat) {
    Metered(s) && FailStreak(s.ops) <= failures && ServedOnceSucceeded(s, fetchTime)
  }

  // Only the locked update of a success adds one.
  lemma NoNewSuccess(s: State, a: Action)
    requires Chain(s) && !s.closed && Enabled(s, a)
    requires a.Update? ==> s.ops[a.k].outcome.Failure?
    ensures HasSucceeded(Next(s, a).ops) ==> HasSucceeded(s.ops)
  {
    var s' := Next(s, a);
    if IsLocal(a) {
      LocalStep(s, a);
    }
    if HasSucceeded(s'.ops) {
      var j :| 0 <= j < |s'.ops| && s'.ops[j].Done? && s'.ops[j].outcome.Success?;
      assert s.ops[j].Done? && s.ops[j].outcome.Success?;
    }
  }

  lemma LocalKeepsServed(s: State, a: Action, fetchTime: nat)
    requires Metered(s) && !s.closed && Enabled(s, a) && (IsLocal(a) || a.Tick?)
    requires Timely(s, a, fetchTime) && Chain(Next(s, a))
    ensures Served(s, fetchTime) ==> Served(Next(s, a), fetchTime)
  {
    var s' := Next(s, a);
    if IsLocal(a) {
      LocalStep(s, a);
      LiveIsNext(s, a.k);
    }
    assert s'.ops[..s'.next] == s.ops[..s.next];
  }

  lemma ForceKeepsServed(s: State, fetchTime: nat, failures: nat)
    requires Chain(s) && !s.closed && FailStreak(s.ops) <= failures && Affordable(fetchTime, failures)
    requires Chain(Next(s, ForceRefresh))
    ensures Served(s, fetchTime) ==> Served(Next(s, ForceRefresh), fetchTime)
  {
    var s' := Next(s, ForceRefresh);
    if Served(s, fetchTime) {
      ServedIsValid(s, fetchTime, failures);
      if s.ops[s.next].Scheduled? {
        assert s'.ops[..s'.next] == s.ops[..s.next] + [Stopped];
        StreakOfExtension(s.ops[..s.next], Stopped);
      }
    }
  }

  // A failure that leaves `cur` alone moves the bound on by one attempt.
  lemma FailureMovesDue(s: State, k: nat, fetchTime: nat)
    requires Chain(s) && !s.closed && Served(s, fetchTime) && IsValid(s.ops[s.cur], s.now)
    requires Enabled(s, Update(k)) && s.ops[k].outcome.Failure? && Chain(Next(s, Update(k)))
    ensures Next(s, Update(k)).cur == s.cur && Next(s, Update(k)).ops[s.cur] == s.ops[s.cur]
    ensures DueBy(Next(s, Update(k)), fetchTime) == DueBy(s, fetchTime) + Attempt(fetchTime)
  {
    var s' := Next(s, Update(k));
    LiveIsNext(s, k);
    var streak := FailStreak(s.ops[..s.next]);
    assert s'.ops[..s'.next] == s.ops[..s.next] + [Done(s.ops[k].outcome)];
    StreakOfExtension(s.ops[..s.next], Done(s.ops[k].outcome));
    assert (streak + 1) * Attempt(fetchTime) == streak * Attempt(fetchTime) + Attempt(fetchTime);
  }

  lemma FailureKeepsServed(s: State, k: nat, fetchTime: nat, failures: nat)
    requires Chain(s) && !s.closed && FailStreak(s.ops) <= failures && Affordable(fetchTime, failures)
    requires Enabled(s, Update(k)) && s.ops[k].outcome.Failure? && Chain(Next(s, Update(k)))
    ensures Served(s, fetchTime) ==> Served(Next(s, Update(k)), fetchTime)
  {
    LiveIsNext(s, k);
    if Served(s, fetchTime) {
      ServedIsValid(s, fetchTime, failures);
      FailureMovesDue(s, k, fetchTime);
    }
  }

  lemma SuccessIsServed(s: State, k: nat, fetchTime: nat)
    requires Chain(s) && Enabled(s, Update(k)) && s.ops[k].outcome.Success?
    requires Timely(s, Update(k), fetchTime) && Chain(Next(s, Update(k)))
    ensures Served(Next(s, Update(k)), fetchTime)
  {
    var s' := Next(s, Update(k));
    LiveIsNext(s, k);
    assert s'.ops[..s'.next] == s.ops[..s.next] + [Done(s.ops[k].outcome)];
    StreakOfExtension(s.ops[..s.next], Done(s.ops[k].outcome));
  }

  lemma StepKeepsInvariant(s: State, a: Action, fetchTime: nat, failures: nat)
    requires Invariant(s, fetchTime, failures) && Affordable(fetchTime, failures)
    requires Enabled(s, a) && Timely(s, a, fetchTime) && FailStreak(Next(s, a).ops) <= failures
    ensures Invariant(Next(s, a), fetchTime, failures)
  {
    StepKeepsMetered(s, a);
    if !s.closed {
      match a
      case Close =>
      case ForceRefresh =>
        NoNewSuccess(s, a);
        ForceKeepsServed(s, fetchTime, failures);
      case Update(k) =>
        if s.ops[k].outcome.Failure? {
          NoNewSuccess(s, a);
          FailureKeepsServed(s, k, fetchTime, failures);
        } else {
          SuccessIsServed(s, k, fetchTime);
        }
      case _ =>
        NoNewSuccess(s, a);
        LocalKeepsServed(s, a, fetchTime);
    } else {
      StepPrecedes(s, a);
    }
  }

  lemma {:induction false} RunKeepsInvariant(s: State, acts: seq<Action>, fetchTime: nat, failures: nat)
    requires Invariant(s, fetchTime, failures) && Affordable(fetchTime, failures)
    requires TimelyRun(s, acts, fetchTime, failures)
    ensures IsRun(s, acts) && Invariant(After(s, acts), fetchTime, failures)
    decreases |acts|
  {
    if acts != [] {
      StepKeepsInvariant(s, acts[0], fetchTime, failures);
      RunKeepsInvariant(Next(s, acts[0]), acts[1..], fetchTime, failures);
    }
  }

  /** Continuous validity. Suppose due timers fire before time advances, an Admin API call takes at
      most `fetchTime`, each certificate outlives its installation by at least the refresh buffer,
      and at most `failures` refreshes in a row fail, with (failures + 1) attempts fitting into the
      buffer. Then from the first successful refresh until Close, `cur` is valid at every instant,
      whatever ForceRefresh calls are made and whatever the refresh timeout is. */
  lemma ContinuousValidity(start: int, timeout: int, acts: seq<Action>, fetchTime: nat, failures: nat)
    requires TimelyRun(Init(start, timeout), acts, fetchTime, failures) && Affordable(fetchTime, failures)
    ensures IsRun(Init(start, timeout), acts)
    ensures var s := After(Init(start, timeout), acts);
            HasSucceeded(s.ops) && !s.closed ==> s.cur < s.next && IsValid(s.ops[s.cur], s.now)
  {
    RunKeepsInvariant(Init(start, timeout), acts, fetchTime, failures);
    var s := After(Init(start, timeout), acts);
    if HasSucceeded(s.ops) && !s.closed {
      ServedIsValid(s, fetchTime, failures);
    }
  }

  // ---------- the assumptions can be met ----------

  /** A timely run leads from the cache's construction to `s`. */
  ghost predicate TimelyReached(s: State, fetchTime: nat, failures: nat) {
    exists acts: seq<Action> ::
      && TimelyRun(Init(0, REFRESH_INTERVAL), acts, fetchTime, failures)
      && IsRun(Init(0, REFRESH_INTERVAL), acts) && After(Init(0, REFRESH_INTERVAL), acts) == s
  }

  lemma {:induction false} TimelyRunOfExtension(s: State, acts: seq<Action>, a: Action, fetchTime: nat, failures: nat)
    requires Indexed(s) && IsRun(s, acts) && TimelyRun(s, acts, fetchTime, failures)
    requires Enabled(After(s, acts), a) && Timely(After(s, acts), a, fetchTime)
    requires FailStreak(Next(After(s, acts), a).ops) <= failures
    ensures TimelyRun(s, acts + [a], fetchTime, failures)
    decreases |acts|
  {
    if acts == [] {
      assert TimelyRun(Next(s, a), [], fetchTime, failures);
      assert ([] + [a])[1..] == [];
    } else {
      TimelyRunOfExtension(Next(s, acts[0]), acts[1..], a, fetchTime, failures);
      assert (acts + [a])[1..] == acts[1..] + [a];
    }
  }

  lemma OneMore(s: State, a: Action, fetchTime: nat, failures: nat) returns (s': State)
    requires TimelyReached(s, fetchTime, failures) && Chain(s)
    requires Enabled(s, a) && Timely(s, a, fetchTime) && FailStreak(Next(s, a).ops) <= failures
    ensures s' == Next(s, a) && TimelyReached(s', fetchTime, failures) && Chain(s')
  {
    var start := Init(0, REFRESH_INTERVAL);
    var acts :| TimelyRun(start, acts, fetchTime, failures) && IsRun(start, acts) && After(start, acts) == s;
    TimelyRunOfExtension(start, acts, a, fetchTime, failures);
    RunOfExtension(start, acts, a);
    StepKeepsChain(s, a);
    s' := Next(s, a);
  }

  // A local step of an open cache finishes no operation.
  lemma OneMoreLocal(s: State, a: Action, fetchTime: nat, failures: nat) returns (s': State)
    requires TimelyReached(s, fetchTime, failures) && Chain(s)
    requires !s.closed && FailStreak(s.ops) <= failures && Enabled(s, a) && IsLocal(a)
    ensures s' == Next(s, a) && TimelyReached(s', fetchTime, failures) && Chain(s')
    ensures FailStreak(s'.ops) == FailStreak(s.ops)
  {
    LocalStep(s, a);
    StepKeepsChain(s, a);
    StreakOfChain(s);
    StreakOfChain(Next(s, a));
    LiveIsNext(s, a.k);
    assert Next(s, a).ops[..s.next] == s.ops[..s.next];
    s' := OneMore(s, a, fetchTime, failures);
  }

  lemma UpdateStreak(s: State, k: nat)
    requires Chain(s) && !s.closed && Enabled(s, Update(k))
    ensures FailStreak(Next(s, Update(k)).ops) ==
            if s.ops[k].outcome.Success? then 0 else FailStreak(s.ops) + 1
  {
    var s' := Next(s, Update(k));
    LiveIsNext(s, k);
    StepKeepsChain(s, Update(k));
    StreakOfChain(s);
    StreakOfChain(s');
    assert s'.ops[..s'.next] == s.ops[..s.next] + [Done(s.ops[k].outcome)];
    StreakOfExtension(s.ops[..s.next], Done(s.ops[k].outcome));
  }

  lemma ForceStreak(s: State)
    requires Chain(s) && !s.closed
    ensures FailStreak(Next(s, ForceRefresh).ops) == FailStreak(s.ops)
  {
    var s' := Next(s, ForceRefresh);
    StepKeepsChain(s, ForceRefresh);
    StreakOfChain(s);
    StreakOfChain(s');
    if s.ops[s.next].Scheduled? {
      assert s'.ops[..s'.next] == s.ops[..s.next] + [Stopped];
      StreakOfExtension(s.ops[..s.next], Stopped);
    }
  }

  // One refresh at an instant, step by step: its timer, the limiter, the call and its publication.
  lemma FireThenCheck(s: State, s1: State)
    requires Indexed(s) && !s.closed && s.ops[s.next] == Scheduled(s.now)
    requires s1 == s.(ops := s.ops[s.next := Fired])
    ensures Enabled(s, Fire(s.next)) && Next(s, Fire(s.next)) == s1
    ensures Enabled(s1, CheckContext(s.next))
    ensures Next(s1, CheckContext(s.next)) == s.(ops := s.ops[s.next := Admitted(s.now + s.timeout)])
  {
  }

  lemma TimelyAdmit(s: State, fetchTime: nat, failures: nat) returns (s': State)
    requires TimelyReached(s, fetchTime, failures) && Chain(s) && !s.closed
    requires s.ops[s.next] == Scheduled(s.now) && FailStreak(s.ops) <= failures
    ensures TimelyReached(s', fetchTime, failures) && Chain(s') && FailStreak(s'.ops) == FailStreak(s.ops)
    ensures s' == s.(ops := s.ops[s.next := Admitted(s.now + s.timeout)])
  {
    FireThenCheck(s, s.(ops := s.ops[s.next := Fired]));
    s' := OneMoreLocal(s, Fire(s.next), fetchTime, failures);
    s' := OneMoreLocal(s', CheckContext(s.next), fetchTime, failures);
  }

  lemma TimelyGrant(s: State, fetchTime: nat, failures: nat) returns (s': State)
    requires TimelyReached(s, fetchTime, failures) && Chain(s) && !s.closed && s.timeout >= 0
    requires s.ops[s.next] == Scheduled(s.now) && Level(s.bucket, s.now) >= REFRESH_INTERVAL
    requires FailStreak(s.ops) <= failures
    ensures TimelyReached(s', fetchTime, failures) && Chain(s') && FailStreak(s'.ops) == FailStreak(s.ops)
    ensures s' == s.(ops := s.ops[s.next := Granted(s.now)], bucket := Take(s.bucket, s.now))
  {
    s' := TimelyAdmit(s, fetchTime, failures);
    s' := OneMoreLocal(s', Reserve(s.next), fetchTime, failures);
  }

  lemma TimelyReturn(s: State, outcome: Outcome, fetchTime: nat, failures: nat) returns (s': State)
    requires TimelyReached(s, fetchTime, failures) && Chain(s) && !s.closed && s.ops[s.next].Calling?
    requires FailStreak(s.ops) <= failures
    ensures TimelyReached(s', fetchTime, failures) && Chain(s') && FailStreak(s'.ops) == FailStreak(s.ops)
    ensures s' == s.(ops := s.ops[s.next := Published(outcome)])
  {
    var s1 := s.(ops := s.ops[s.next := Computed(outcome)]);
    ReturnThenPublish(s, s1, outcome);
    s' := OneMoreLocal(s, Return(s.next, outcome), fetchTime, failures);
    s' := OneMoreLocal(s', Publish(s.next), fetchTime, failures);
  }

  lemma ReturnThenPublish(s: State, s1: State, outcome: Outcome)
    requires Indexed(s) && s.ops[s.next].Calling?
    requires s1 == s.(ops := s.ops[s.next := Computed(outcome)])
    ensures Enabled(s, Return(s.next, outcome)) && Next(s, Return(s.next, outcome)) == s1
    ensures Enabled(s1, Publish(s.next))
    ensures Next(s1, Publish(s.next)) == s.(ops := s.ops[s.next := Published(outcome)])
  {
  }

  lemma TimelyCall(s: State, outcome: Outcome, fetchTime: nat, failures: nat) returns (s': State)
    requires TimelyReached(s, fetchTime, failures) && Chain(s) && !s.closed && s.ops[s.next].Granted?
    requires FailStreak(s.ops) <= failures
    ensures TimelyReached(s', fetchTime, failures) && Chain(s') && FailStreak(s'.ops) == FailStreak(s.ops)
    ensures s' == s.(ops := s.ops[s.next := Published(outcome)],
                     calls := s.calls + [Call(s.ops[s.next].grantedAt, s.now)])
  {
    s' := OneMoreLocal(s, Start(s.next), fetchTime, failures);
    s' := TimelyReturn(s', outcome, fetchTime, failures);
  }

  lemma TimelyUpdate(s: State, fetchTime: nat, failures: nat) returns (s': State)
    requires TimelyReached(s, fetchTime, failures) && Chain(s) && !s.closed && s.ops[s.next].Published?
    requires FailStreak(s.ops) + 1 <= failures
    requires Timely(s, Update(s.next), fetchTime)
    ensures TimelyReached(s', fetchTime, failures) && Chain(s') && s' == Next(s, Update(s.next))
    ensures FailStreak(s'.ops) == if s.ops[s.next].outcome.Success? then 0 else FailStreak(s.ops) + 1
  {
    UpdateStreak(s, s.next);
    s' := OneMore(s, Update(s.next), fetchTime, failures);
  }

  /** What one refresh at an instant makes of an open cache whose `next` is the last operation. */
  function Refreshed(s: State, outcome: Outcome): State
    requires Indexed(s)
  {
    var delay := if outcome.Success? then RefreshDuration(s.now, outcome.info.expiration) else 0;
    s.(ops := s.ops[s.next := Done(outcome)] + [Scheduled(s.now + delay)],
       cur := if outcome.Success? || !IsValid(s.ops[s.cur], s.now) then s.next else s.cur,
       next := |s.ops|,
       bucket := Take(s.bucket, s.now),
       calls := s.calls + [Call(s.now, s.now)],
       updates := s.updates + 1)
  }

  lemma UpdateIsRefreshed(s: State, s1: State, outcome: Outcome)
    requires Indexed(s) && s.ops[s.next].Scheduled?
    requires s1 == s.(ops := s.ops[s.next := Published(outcome)], bucket := Take(s.bucket, s.now),
                      calls := s.calls + [Call(s.now, s.now)])
    ensures Next(s1, Update(s.next)) == Refreshed(s, outcome)
  {
    assert s1.ops[s.next := Done(outcome)] == s.ops[s.next := Done(outcome)];
  }

  lemma OneRefresh(s: State, outcome: Outcome, fetchTime: nat, failures: nat) returns (s': State)
    requires TimelyReached(s, fetchTime, failures) && Chain(s) && !s.closed && s.timeout >= 0
    requires s.ops[s.next] == Scheduled(s.now) && Level(s.bucket, s.now) >= REFRESH_INTERVAL
    requires FailStreak(s.ops) + 1 <= failures
    requires outcome.Success? ==> s.now + REFRESH_BUFFER <= outcome.info.expiration
    ensures TimelyReached(s', fetchTime, failures) && Chain(s') && s' == Refreshed(s, outcome)
    ensures FailStreak(s'.ops) == if outcome.Success? then 0 else FailStreak(s.ops) + 1
  {
    s' := TimelyGrant(s, fetchTime, failures);
    s' := TimelyCall(s', outcome, fetchTime, failures);
    UpdateIsRefreshed(s, s', outcome);
    s' := TimelyUpdate(s', fetchTime, failures);
  }

  // The clock moves on, not beyond the instant at which the timer is due.
  lemma TimelySleep(s: State, d: nat, fetchTime: nat, failures: nat) returns (s': State)
    requires TimelyReached(s, fetchTime, failures) && Chain(s)
    requires s.ops[s.next].Scheduled? && s.now + d <= s.ops[s.next].due && FailStreak(s.ops) <= failures
    ensures TimelyReached(s', fetchTime, failures) && Chain(s') && s' == s.(now := s.now + d)
  {
    s' := OneMore(s, Tick(d), fetchTime, failures);
  }

  lemma TimelyForce(s: State, fetchTime: nat, failures: nat) returns (s': State)
    requires TimelyReached(s, fetchTime, failures) && Chain(s) && !s.closed && FailStreak(s.ops) <= failures
    requires s.ops[s.next].Scheduled? && IsValid(s.ops[s.cur], s.now)
    ensures TimelyReached(s', fetchTime, failures) && Chain(s')
    ensures s' == s.(ops := s.ops[s.next := Stopped] + [Scheduled(s.now)], next := |s.ops|, forced := s.forced + 1)
    ensures FailStreak(s'.ops) == FailStreak(s.ops)
  {
    ForceStreak(s);
    s' := OneMore(s, ForceRefresh, fetchTime, failures);
  }

  const FIRST: Outcome := Success(ConnectionInfo(0, HOUR))
  const SECOND: Outcome := Success(ConnectionInfo(1, 30 * MINUTE + 4 * HOUR))

  // Two refreshes by their timers, half an hour apart, and an hour after that.
  lemma FirstRefresh(fetchTime: nat, failures: nat) returns (s: State)
    requires failures >= 1
    ensures TimelyReached(s, fetchTime, failures) && Chain(s) && FailStreak(s.ops) == 0
    ensures s == Refreshed(Init(0, REFRESH_INTERVAL), FIRST).(now := 30 * MINUTE)
  {
    s := Init(0, REFRESH_INTERVAL);
    assert TimelyRun(s, [], fetchTime, failures) && After(s, []) == s;
    s := OneRefresh(s, FIRST, fetchTime, failures);
    s := TimelySleep(s, 30 * MINUTE, fetchTime, failures);
  }

  lemma TwoRefreshes(fetchTime: nat, failures: nat) returns (s: State)
    requires failures >= 1
    ensures TimelyReached(s, fetchTime, failures) && Chain(s) && !s.closed && FailStreak(s.ops) == 0
    ensures s.ops == [Done(FIRST), Done(SECOND), Scheduled(30 * MINUTE + 2 * HOUR)]
    ensures s.cur == 1 && s.next == 2 && s.now == 90 * MINUTE && s.timeout == REFRESH_INTERVAL && s.forced == 0
    ensures Level(s.bucket, s.now) >= REFRESH_INTERVAL
  {
    s := FirstRefresh(fetchTime, failures);
    s := OneRefresh(s, SECOND, fetchTime, failures);
    s := TimelySleep(s, HOUR, fetchTime, failures);
  }

  /** The assumptions of ContinuousValidity can be met over time, for any call time and any positive
      number of failures: a timely run in which a second refresh comes with its timer and succeeds,
      the first certificate expires, ForceRefresh cancels the next timer, and the refresh put in its
      place fails. Readers are served the second certificate. */
  lemma TimelyRunExists(fetchTime: nat, failures: nat) returns (s: State)
    requires failures >= 1
    ensures TimelyReached(s, fetchTime, failures)
    ensures !s.closed && s.forced == 1 && FailStreak(s.ops) == 1
    ensures |s.ops| == 5 && s.ops[0] == Done(FIRST) && s.ops[1] == Done(SECOND)
    ensures !IsValid(s.ops[0], s.now) && s.cur == 1 && IsValid(s.ops[1], s.now)
  {
    s := TwoRefreshes(fetchTime, failures);
    s := TimelyForce(s, fetchTime, failures);
    s := OneRefresh(s, Failure(FetchFailed(0)), fetchTime, failures);
  }
}
