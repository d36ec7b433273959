/** The refresh cycle never forks and, until Close, never dies; readers never move backwards;
    every operation publishes at most once. All over every interleaving. */
module RefreshChain {
  import opened Timing
  import opened RefreshMachine

  /** Scheduled or running. */
  predicate Live(p: Phase) {
    !p.Stopped? && !p.Done?
  }

  predicate HasOutcome(p: Phase) {
    p.Computed? || p.Published? || p.Done?
  }

  // ---------- the chain invariant ----------

  function CountStopped(ops: seq<Phase>): nat {
    if ops == [] then 0
    else CountStopped(ops[..|ops| - 1]) + (if ops[|ops| - 1].Stopped? then 1 else 0)
  }

  function CountDone(ops: seq<Phase>): nat {
    if ops == [] then 0
    else CountDone(ops[..|ops| - 1]) + (if ops[|ops| - 1].Done? then 1 else 0)
  }

  predicate Chain(s: State) {
    && s.cur <= s.next
    && s.next + 1 == |s.ops|
    && (forall k :: 0 <= k < s.next ==> !Live(s.ops[k]))
    && (s.cur < s.next ==> s.ops[s.cur].Done?)
    && (!s.closed ==> Live(s.ops[s.next]))
    && CountStopped(s.ops[..s.next]) == s.forced
    && CountDone(s.ops[..s.next]) == s.updates
  }

  lemma LiveIsNext(s: State, k: nat)
    requires Chain(s) && k < |s.ops| && Live(s.ops[k])
    ensures k == s.next
  {
  }

  lemma CountsOfExtension(ops: seq<Phase>, p: Phase)
    ensures CountStopped(ops + [p]) == CountStopped(ops) + (if p.Stopped? then 1 else 0)
    ensures CountDone(ops + [p]) == CountDone(ops) + (if p.Done? then 1 else 0)
  {
    assert (ops + [p])[..|ops|] == ops;
  }

  // The live operation takes a step of its own, or its timer is stopped by Close.
  lemma SettingKeepsChain(s: State, p: Phase, s': State)
    requires Chain(s)
    requires s'.ops == s.ops[s.next := p] && s'.cur == s.cur && s'.next == s.next
    requires s'.forced == s.forced && s'.updates == s.updates
    requires !s'.closed ==> Live(p)
    ensures Chain(s')
  {
    assert s'.ops[..s'.next] == s.ops[..s.next];
  }

  // The live operation ends and a successor is appended.
  lemma AppendingKeepsChain(s: State, p: Phase, q: Phase, s': State)
    requires Chain(s) && !Live(p) && Live(q)
    requires s'.ops == s.ops[s.next := p] + [q] && s'.next == s.next + 1
    requires s'.cur == s'.next || (s'.cur == s.cur && s.cur < s.next) || (s'.cur == s.next && p.Done?)
    requires s'.forced == s.forced + (if p.Stopped? then 1 else 0)
    requires s'.updates == s.updates + (if p.Done? then 1 else 0)
    ensures Chain(s')
  {
    assert s'.ops[..s'.next] == s.ops[..s.next] + [p];
    CountsOfExtension(s.ops[..s.next], p);
  }

  /** A step that a refresh goroutine takes without the lock. */
  predicate IsLocal(a: Action) {
    a.Fire? || a.CheckContext? || a.Reserve? || a.Grant? || a.Abandon? || a.Start? || a.Return? || a.Publish?
  }

  lemma LocalStep(s: State, a: Action)
    requires Indexed(s) && Enabled(s, a) && IsLocal(a)
    ensures a.k < |s.ops| && Live(s.ops[a.k])
    ensures Next(s, a) == s.(ops := s.ops[a.k := Next(s, a).ops[a.k]],
                             bucket := Next(s, a).bucket, calls := Next(s, a).calls)
    ensures s.calls <= Next(s, a).calls
    ensures Evolves(s.ops[a.k], Next(s, a).ops[a.k])
    ensures Rank(s.ops[a.k]) < Rank(Next(s, a).ops[a.k])
    ensures !Next(s, a).ops[a.k].Stopped?
    ensures Next(s, a).ops[a.k].Done? ==> a.CheckContext? && s.closed
    ensures Ready(Next(s, a).ops[a.k]) <==> ClosesReady(s, a, a.k)
    ensures !Ready(s.ops[a.k])
  {
  }

  lemma ForceKeepsChain(s: State)
    requires Chain(s)
    ensures Chain(Next(s, ForceRefresh))
  {
    if s.ops[s.next].Scheduled? {
      AppendingKeepsChain(s, Stopped, Scheduled(s.now), Next(s, ForceRefresh));
    }
  }

  lemma UpdateKeepsChain(s: State, k: nat)
    requires Chain(s) && Enabled(s, Update(k))
    ensures Chain(Next(s, Update(k)))
  {
    LiveIsNext(s, k);
    var s' := Next(s, Update(k));
    AppendingKeepsChain(s, Done(s.ops[k].outcome), s'.ops[s'.next], s');
  }

  // The operation behind `cur` has no timer left, unless it is `next` itself.
  lemma CloseStopsNext(s: State)
    requires Chain(s)
    ensures Next(s, Close) == s.(closed := true,
                                 ops := if s.ops[s.next].Scheduled? then s.ops[s.next := Stopped] else s.ops)
  {
  }

  lemma CloseKeepsChain(s: State)
    requires Chain(s)
    ensures Chain(Next(s, Close))
  {
    CloseStopsNext(s);
    var s' := Next(s, Close);
    assert s'.ops == s.ops[s.next := s'.ops[s.next]];
    SettingKeepsChain(s, s'.ops[s.next], s');
  }

  lemma StepKeepsChain(s: State, a: Action)
    requires Chain(s) && Enabled(s, a)
    ensures Chain(Next(s, a))
  {
    if IsLocal(a) {
      LocalStep(s, a);
      LiveIsNext(s, a.k);
      SettingKeepsChain(s, Next(s, a).ops[a.k], Next(s, a));
    } else {
      match a
      case Tick(_) => assert Next(s, a) == s.(now := Next(s, a).now);
      case Update(k) => UpdateKeepsChain(s, k);
      case ForceRefresh => ForceKeepsChain(s);
      case Close => CloseKeepsChain(s);
    }
  }

  lemma {:induction false} RunKeepsChain(s: State, acts: seq<Action>)
    requires Chain(s) && IsRun(s, acts)
    ensures Chain(After(s, acts))
    decreases |acts|
  {
    if acts != [] {
      StepKeepsChain(s, acts[0]);
      RunKeepsChain(Next(s, acts[0]), acts[1..]);
    }
  }

  lemma ReachableIsChain(s: State)
    requires Reachable(s)
    ensures Chain(s)
  {
    var now: int, timeout: int, acts: seq<Action> :|
      IsRun(Init(now, timeout), acts) && After(Init(now, timeout), acts) == s;
    RunKeepsChain(Init(now, timeout), acts);
  }

  // ---------- building reachable states ----------

  lemma InitReachable(now: int, timeout: int)
    ensures Reachable(Init(now, timeout))
  {
    assert IsRun(Init(now, timeout), []) && After(Init(now, timeout), []) == Init(now, timeout);
  }

  lemma {:induction false} RunOfExtension(s: State, acts: seq<Action>, a: Action)
    requires Indexed(s) && IsRun(s, acts) && Enabled(After(s, acts), a)
    ensures IsRun(s, acts + [a]) && After(s, acts + [a]) == Next(After(s, acts), a)
    decreases |acts|
  {
    if acts == [] {
      assert IsRun(Next(s, a), []);
      assert ([] + [a])[1..] == [];
    } else {
      RunOfExtension(Next(s, acts[0]), acts[1..], a);
      assert (acts + [a])[1..] == acts[1..] + [a];
    }
  }

  lemma Extend(s: State, a: Action) returns (s': State)
    requires Reachable(s) && Indexed(s) && Enabled(s, a)
    ensures s' == Next(s, a) && Reachable(s') && Indexed(s')
  {
    var now: int, timeout: int, acts: seq<Action> :|
      IsRun(Init(now, timeout), acts) && After(Init(now, timeout), acts) == s;
    RunOfExtension(Init(now, timeout), acts, a);
    s' := Next(s, a);
  }

  lemma {:induction false} RunReachable(s: State, acts: seq<Action>)
    requires Reachable(s) && Indexed(s) && IsRun(s, acts)
    ensures Reachable(After(s, acts))
    decreases |acts|
  {
    if acts != [] {
      var s1 := Extend(s, acts[0]);
      RunReachable(s1, acts[1..]);
    }
  }

  lemma RunOfStep(s: State, a: Action, acts: seq<Action>)
    requires Indexed(s) && Enabled(s, a) && IsRun(Next(s, a), acts)
    ensures IsRun(s, [a] + acts) && After(s, [a] + acts) == After(Next(s, a), acts)
  {
    assert ([a] + acts)[1..] == acts;
  }

  // The state in which operation k of `s` has moved on to phase p.
  ghost predicate Moved(s: State, s': State, k: nat, p: Phase) {
    && Reachable(s') && Indexed(s') && k < |s.ops|
    && s' == s.(ops := s.ops[k := p], bucket := s'.bucket, calls := s'.calls)
  }

  lemma ToGranted(s: State) returns (s': State)
    requires Reachable(s) && Indexed(s) && !s.closed && s.timeout >= 0
    requires s.ops[s.next] == Scheduled(s.now) && Level(s.bucket, s.now) >= REFRESH_INTERVAL
    ensures Moved(s, s', s.next, Granted(s.now)) && s'.bucket == Take(s.bucket, s.now)
  {
    s' := Extend(s, Fire(s.next));
    s' := Extend(s', CheckContext(s.next));
    s' := Extend(s', Reserve(s.next));
  }

  /** One refresh at an instant: from a due timer, with a token at hand, to `close(r.ready)`. */
  lemma ToPublished(s: State, outcome: Outcome) returns (s': State)
    requires Reachable(s) && Indexed(s) && !s.closed && s.timeout >= 0
    requires s.ops[s.next] == Scheduled(s.now) && Level(s.bucket, s.now) >= REFRESH_INTERVAL
    ensures Moved(s, s', s.next, Published(outcome)) && s'.bucket == Take(s.bucket, s.now)
  {
    s' := ToGranted(s);
    s' := Extend(s', Start(s.next));
    s' := Extend(s', Return(s.next, outcome));
    s' := Extend(s', Publish(s.next));
  }

  // ---------- what the chain means ----------

  /** In every reachable state the only operation that can be scheduled or running is `next`,
      and before Close it is: the cycle neither forks nor dies. */
  lemma SingleLiveChain(s: State)
    requires Reachable(s)
    ensures Indexed(s)
    ensures forall k :: 0 <= k < |s.ops| && Live(s.ops[k]) ==> k == s.next
    ensures !s.closed ==> Live(s.ops[s.next])
  {
    ReachableIsChain(s);
  }

  /** The instant at which the live operation can take its next step, if time is all it waits for. */
  function WakeAt(p: Phase, now: int): int {
    match p
    case Scheduled(due) => due
    case Waiting(grantAt, _) => grantAt
    case _ => now
  }

  /** The cycle is never stuck: once the wake-up instant of a live `next` has come it can take a
      step, and it is its locked update, and nothing before it, that hands over to a successor.
      Before Close `next` is always live, so this goes on forever; after Close it drains. */
  lemma CycleNeverStuck(s: State, outcome: Outcome) returns (a: Action)
    requires Reachable(s) && Indexed(s) && Live(s.ops[s.next])
    requires WakeAt(s.ops[s.next], s.now) <= s.now
    ensures a != Close && a != ForceRefresh && !a.Tick? && Enabled(s, a)
    ensures Next(s, a).ops[s.next] != s.ops[s.next]
    ensures s.ops[s.next].Published? <==> Next(s, a).next == s.next + 1
  {
    ReachableIsChain(s);
    var k := s.next;
    match s.ops[k]
    case Scheduled(_) => a := Fire(k);
    case Fired => a := CheckContext(k);
    case Admitted(deadline) => a := if !s.closed && s.now <= deadline then Reserve(k) else Abandon(k);
    case Waiting(_, _) => a := Grant(k);
    case Granted(_) => a := Start(k);
    case Calling(_) => a := Return(k, outcome);
    case Computed(_) => a := Publish(k);
    case Published(_) => a := Update(k);
  }

  lemma {:induction false} CountsPartition(ops: seq<Phase>)
    requires forall k :: 0 <= k < |ops| ==> !Live(ops[k])
    ensures CountStopped(ops) + CountDone(ops) == |ops|
  {
    if ops != [] {
      CountsPartition(ops[..|ops| - 1]);
    }
  }

  /** Conservation: every operation scheduled is stopped, finished or the one live one; each
      comes from the constructor, from a timer that ForceRefresh cancelled or from a locked update.
      While the cache is open the stopped ones are exactly those ForceRefresh cancelled. */
  lemma Conservation(s: State)
    requires Reachable(s)
    ensures Indexed(s)
    ensures |s.ops| == 1 + s.forced + s.updates
    ensures CountStopped(s.ops) + CountDone(s.ops) + (if Live(s.ops[s.next]) then 1 else 0) == |s.ops|
    ensures !s.closed ==> CountStopped(s.ops) == s.forced && CountDone(s.ops) == s.updates
  {
    ReachableIsChain(s);
    CountsPartition(s.ops[..s.next]);
    assert s.ops == s.ops[..s.next] + [s.ops[s.next]];
    CountsOfExtension(s.ops[..s.next], s.ops[s.next]);
  }

  /** A reader that captures `cur` before Close never captures an operation whose timer was
      stopped: what it captured is published or is the live `next`. */
  lemma NoReaderCapturesDeadOperation(s: State)
    requires Reachable(s) && !s.closed
    ensures Indexed(s)
    ensures Ready(s.ops[s.cur]) || (s.cur == s.next && Live(s.ops[s.cur]))
  {
    ReachableIsChain(s);
  }

  // ---------- two states of one run ----------

  function Rank(p: Phase): nat {
    match p
    case Scheduled(_) => 0
    case Stopped => 9
    case Fired => 1
    case Admitted(_) => 2
    case Waiting(_, _) => 3
    case Granted(_) => 4
    case Calling(_) => 5
    case Computed(_) => 6
    case Published(_) => 7
    case Done(_) => 8
  }

  /** How one operation may differ between two states of a run. */
  predicate Evolves(p: Phase, q: Phase) {
    && Rank(p) <= Rank(q)
    && (p.Stopped? ==> q.Stopped?)
    && (q.Stopped? ==> p.Stopped? || p.Scheduled?)
    && (HasOutcome(p) ==> HasOutcome(q) && q.outcome == p.outcome)
    && (Ready(p) ==> Ready(q))
  }

  /** How two states of a run are related: pointers only move forward, operations are only added. */
  predicate Precedes(s: State, s': State) {
    && s.cur <= s'.cur
    && s.next <= s'.next
    && s.now <= s'.now
    && s.calls <= s'.calls
    && (s.closed ==> s'.closed)
    && |s.ops| <= |s'.ops|
    && forall k :: 0 <= k < |s.ops| ==> Evolves(s.ops[k], s'.ops[k])
  }

  lemma UpdatePrecedes(s: State, k: nat)
    requires Chain(s) && Enabled(s, Update(k))
    ensures Precedes(s, Next(s, Update(k)))
  {
    LiveIsNext(s, k);
  }

  lemma ForcePrecedes(s: State)
    requires Chain(s)
    ensures Precedes(s, Next(s, ForceRefresh))
  {
  }

  lemma ClosePrecedes(s: State)
    requires Chain(s)
    ensures Precedes(s, Next(s, Close))
  {
    CloseStopsNext(s);
  }

  lemma LocalPrecedes(s: State, a: Action)
    requires Indexed(s) && Enabled(s, a) && IsLocal(a)
    ensures Precedes(s, Next(s, a))
  {
    LocalStep(s, a);
  }

  lemma StepPrecedes(s: State, a: Action)
    requires Chain(s) && Enabled(s, a)
    ensures Precedes(s, Next(s, a))
  {
    if IsLocal(a) {
      LocalPrecedes(s, a);
    } else {
      match a
      case Tick(d) => assert Next(s, a) == s.(now := s.now + d);
      case Update(k) => UpdatePrecedes(s, k);
      case ForceRefresh => ForcePrecedes(s);
      case Close => ClosePrecedes(s);
    }
  }

  lemma {:induction false} RunPrecedes(s: State, acts: seq<Action>)
    requires Chain(s) && IsRun(s, acts)
    ensures Precedes(s, After(s, acts))
    decreases |acts|
  {
    if acts != [] {
      var s1 := Next(s, acts[0]);
      StepPrecedes(s, acts[0]);
      StepKeepsChain(s, acts[0]);
      RunPrecedes(s1, acts[1..]);
      PrecedesIsTransitive(s, s1, After(s1, acts[1..]));
    }
  }

  lemma PrecedesIsTransitive(s: State, s1: State, s2: State)
    requires Precedes(s, s1) && Precedes(s1, s2)
    ensures Precedes(s, s2)
  {
    forall k | 0 <= k < |s.ops| ensures Evolves(s.ops[k], s2.ops[k]) {
      assert Evolves(s.ops[k], s1.ops[k]) && Evolves(s1.ops[k], s2.ops[k]);
    }
  }

  /** Readers never return to an older refresh, and `cur` never passes the last one scheduled. */
  lemma MonotoneReads(s: State, acts: seq<Action>)
    requires Reachable(s) && Indexed(s) && IsRun(s, acts)
    ensures s.cur <= After(s, acts).cur <= After(s, acts).next == |After(s, acts).ops| - 1
    ensures s.next <= After(s, acts).next
  {
    ReachableIsChain(s);
    RunPrecedes(s, acts);
    RunKeepsChain(s, acts);
  }

  /** Write-once: what an operation published is what it will always hold, so all its readers
      agree; an operation that was stopped never publishes anything. */
  lemma WriteOnce(s: State, acts: seq<Action>, k: nat)
    requires Reachable(s) && Indexed(s) && IsRun(s, acts) && k < |s.ops|
    ensures |s.ops| <= |After(s, acts).ops|
    ensures Ready(s.ops[k]) ==>
              Ready(After(s, acts).ops[k]) && After(s, acts).ops[k].outcome == s.ops[k].outcome
    ensures s.ops[k].Stopped? ==> After(s, acts).ops[k].Stopped?
  {
    ReachableIsChain(s);
    RunPrecedes(s, acts);
    assert Evolves(s.ops[k], After(s, acts).ops[k]);
  }

  /** Does this step execute `close(r.ready)` for operation k? Closing twice would panic. */
  predicate ClosesReady(s: State, a: Action, k: nat) {
    a == Publish(k) || (a == CheckContext(k) && s.closed)
  }

  function CountCloses(s: State, acts: seq<Action>, k: nat): nat
    requires Indexed(s) && IsRun(s, acts)
    decreases |acts|
  {
    if acts == [] then 0
    else (if ClosesReady(s, acts[0], k) then 1 else 0) + CountCloses(Next(s, acts[0]), acts[1..], k)
  }

  predicate ReadyAt(s: State, k: nat) {
    k < |s.ops| && Ready(s.ops[k])
  }

  lemma StepClosesReady(s: State, a: Action, k: nat)
    requires Chain(s) && Enabled(s, a)
    ensures ClosesReady(s, a, k) <==> !ReadyAt(s, k) && ReadyAt(Next(s, a), k)
    ensures ReadyAt(s, k) ==> ReadyAt(Next(s, a), k)
  {
    if IsLocal(a) {
      LocalStep(s, a);
    } else if a.Close? {
      CloseStopsNext(s);
    } else if a.Update? {
      LiveIsNext(s, a.k);
    }
  }

  /** Over any run, `ready` is closed once for each operation that became readable and never
      for one that already was. */
  lemma {:induction false} ReadyClosedAtMostOnce(s: State, acts: seq<Action>, k: nat)
    requires Chain(s) && IsRun(s, acts)
    ensures CountCloses(s, acts, k) + (if ReadyAt(s, k) then 1 else 0)
         == (if ReadyAt(After(s, acts), k) then 1 else 0)
    decreases |acts|
  {
    if acts != [] {
      StepKeepsChain(s, acts[0]);
      StepClosesReady(s, acts[0], k);
      ReadyClosedAtMostOnce(Next(s, acts[0]), acts[1..], k);
    }
  }

  // ---------- where results come from ----------

  lemma StepOutcome(s: State, a: Action, k: nat)
    requires Indexed(s) && Enabled(s, a)
    requires k < |Next(s, a).ops| && HasOutcome(Next(s, a).ops[k])
    requires k < |s.ops| ==> !HasOutcome(s.ops[k])
    ensures || a == Return(k, Next(s, a).ops[k].outcome)
            || Next(s, a).ops[k].outcome in {Failure(WaitFailed), Failure(ContextCanceled)}
  {
    if IsLocal(a) {
      LocalStep(s, a);
    }
  }

  /** No result is made up: whatever an operation came to hold over a run, the Admin API returned it to
      that operation, unless it is the failure of the wait or of the context check. */
  lemma {:induction false} OutcomesAreReturned(s: State, acts: seq<Action>, k: nat)
    requires Chain(s) && IsRun(s, acts)
    requires k < |After(s, acts).ops| && HasOutcome(After(s, acts).ops[k])
    requires k < |s.ops| ==> !HasOutcome(s.ops[k])
    ensures || Return(k, After(s, acts).ops[k].outcome) in acts
            || After(s, acts).ops[k].outcome in {Failure(WaitFailed), Failure(ContextCanceled)}
    decreases |acts|
  {
    if acts != [] {
      var s1 := Next(s, acts[0]);
      StepKeepsChain(s, acts[0]);
      if k < |s1.ops| && HasOutcome(s1.ops[k]) {
        StepOutcome(s, acts[0], k);
        RunPrecedes(s1, acts[1..]);
        assert Evolves(s1.ops[k], After(s1, acts[1..]).ops[k]);
      } else {
        OutcomesAreReturned(s1, acts[1..], k);
      }
    }
  }

  // ---------- ForceRefresh and the timer ----------

  /** What ForceRefresh does. A pending timer is stopped and an operation due at once
      takes its place; a refresh under way is left alone. A valid result stays current, otherwise
      readers are sent to the refresh that is coming. No call is made and no token taken. */
  lemma ForceReplacesTimer(s: State)
    requires Reachable(s)
    ensures Indexed(s)
    ensures var s' := Next(s, ForceRefresh);
            && (s.ops[s.next].Scheduled? ==>
                  && s'.ops == s.ops[s.next := Stopped] + [Scheduled(s.now)]
                  && s'.next == |s.ops| && s'.forced == s.forced + 1)
            && (!s.ops[s.next].Scheduled? ==> s'.ops == s.ops && s'.next == s.next && s'.forced == s.forced)
            && s'.cur == (if IsValid(s.ops[s.cur], s.now) then s.cur else s'.next)
            && s'.now == s.now && s'.closed == s.closed && s'.calls == s.calls && s'.bucket == s.bucket
  {
    ReachableIsChain(s);
  }

  /** So after it a refresh is running or can start at once, whatever the timers were set to; and a
      reader captures a valid result or that refresh. */
  lemma ForceStartsRefresh(s: State)
    requires Reachable(s) && !s.closed
    ensures Indexed(s)
    ensures var s' := Next(s, ForceRefresh);
            && Live(s'.ops[s'.next])
            && (s'.ops[s'.next].Scheduled? ==> Enabled(s', Fire(s'.next)))
            && (s'.cur == s'.next || IsValid(s'.ops[s'.cur], s'.now))
  {
    ReachableIsChain(s);
    StepKeepsChain(s, ForceRefresh);
    ForceReplacesTimer(s);
  }

  /** How a refresh hands over: after a failure the next one is due at once, after a success at the
      latest when the buffer is left, or at once if less is left. The finished refresh becomes current
      unless it failed and the current result is still good. */
  lemma UpdateHandsOver(s: State, k: nat)
    requires Reachable(s) && Indexed(s) && Enabled(s, Update(k))
    ensures var s' := Next(s, Update(k));
            && k == s.next && s'.next == |s.ops| && |s'.ops| == |s.ops| + 1
            && s'.ops[..|s.ops|] == s.ops[k := Done(s.ops[k].outcome)]
            && s'.ops[s'.next].Scheduled? && s.now <= s'.ops[s'.next].due
            && (s.ops[k].outcome.Failure? ==> s'.ops[s'.next].due == s.now)
            && (s.ops[k].outcome.Success? ==>
                  var left := s.ops[k].outcome.info.expiration - s.now;
                  && (s'.ops[s'.next].due == s.now <==> left <= REFRESH_BUFFER)
                  && (left > REFRESH_BUFFER ==> s'.ops[s'.next].due <= s.ops[k].outcome.info.expiration - REFRESH_BUFFER))
            && s'.cur == (if s.ops[k].outcome.Failure? && IsValid(s.ops[s.cur], s.now) then s.cur else k)
            && s'.calls == s.calls && s'.bucket == s.bucket && s'.now == s.now && s'.closed == s.closed
  {
    ReachableIsChain(s);
    LiveIsNext(s, k);
  }

  predicate NoForce(acts: seq<Action>) {
    forall i :: 0 <= i < |acts| ==> !acts[i].ForceRefresh?
  }

  /** And only ForceRefresh can do that: while a refresh is not due, nothing else starts a call or
      replaces the operation. */
  lemma {:induction false} NoCallBeforeDue(s: State, acts: seq<Action>, due: int)
    requires Chain(s) && (s.ops[s.next] == Scheduled(due) || s.ops[s.next].Stopped?)
    requires IsRun(s, acts) && NoForce(acts) && After(s, acts).now < due
    ensures After(s, acts).calls == s.calls && After(s, acts).bucket == s.bucket
    ensures After(s, acts).next == s.next && After(s, acts).cur == s.cur && |After(s, acts).ops| == |s.ops|
    ensures After(s, acts).ops[s.next] == Scheduled(due) || After(s, acts).ops[s.next].Stopped?
    decreases |acts|
  {
    if acts != [] {
      RunPrecedes(s, acts);
      WaitingStep(s, acts[0], due);
      StepKeepsChain(s, acts[0]);
      assert NoForce(acts[1..]);
      NoCallBeforeDue(Next(s, acts[0]), acts[1..], due);
    }
  }

  lemma WaitingStep(s: State, a: Action, due: int)
    requires Chain(s) && (s.ops[s.next] == Scheduled(due) || s.ops[s.next].Stopped?)
    requires Enabled(s, a) && !a.ForceRefresh? && s.now < due
    ensures var s' := Next(s, a);
            && s'.calls == s.calls && s'.bucket == s.bucket && s'.next == s.next && s'.cur == s.cur
            && |s'.ops| == |s.ops| && (s'.ops[s.next] == Scheduled(due) || s'.ops[s.next].Stopped?)
  {
    if IsLocal(a) || a.Update? {
      LiveIsNext(s, a.k);
    } else if a.Close? {
      CloseStopsNext(s);
    }
  }

  // ---------- the expired-certificate path of Dial ----------

  // An operation that ended as the last of the chain found the cache closed.
  predicate EndsInError(s: State)
    requires Indexed(s)
  {
    s.ops[s.next].Done? ==> s.closed && s.ops[s.next].outcome.Failure?
  }

  lemma StepKeepsEnd(s: State, a: Action)
    requires Chain(s) && EndsInError(s) && Enabled(s, a)
    ensures EndsInError(Next(s, a))
  {
    if IsLocal(a) {
      LocalStep(s, a);
      LiveIsNext(s, a.k);
    } else if a.Close? {
      CloseStopsNext(s);
    } else if a.Update? {
      LiveIsNext(s, a.k);
    }
  }

  lemma {:induction false} RunKeepsEnd(s: State, acts: seq<Action>)
    requires Chain(s) && EndsInError(s) && IsRun(s, acts)
    ensures EndsInError(After(s, acts))
    decreases |acts|
  {
    if acts != [] {
      StepKeepsEnd(s, acts[0]);
      StepKeepsChain(s, acts[0]);
      RunKeepsEnd(Next(s, acts[0]), acts[1..]);
    }
  }

  lemma ReachableEnd(s: State)
    requires Reachable(s)
    ensures Chain(s) && EndsInError(s)
  {
    ReachableIsChain(s);
    var now: int, timeout: int, acts: seq<Action> :|
      IsRun(Init(now, timeout), acts) && After(Init(now, timeout), acts) == s;
    RunKeepsEnd(Init(now, timeout), acts);
  }

  /** Dial read an expired certificate from operation k, calls ForceRefresh and reads again. It
      never gets k's result again, whatever happens in between, exactly when k's locked update
      has run: in the window between `close(r.ready)` and the lock the retry captures k itself. That
      another Dial may have closed the cache meanwhile makes no difference. (Of an open cache the
      same holds if k failed.) */
  lemma RetryAvoidsExpiredResult(s: State, k: nat)
    requires Reachable(s) && k < |s.ops| && k <= s.cur
    requires Ready(s.ops[k]) && !IsValid(s.ops[k], s.now)
    requires s.ops[k].outcome.Success? || !s.closed
    ensures Indexed(s)
    ensures k < Next(s, ForceRefresh).cur <==> s.ops[k].Done?
    ensures s.ops[k].Done? ==>
              forall acts :: IsRun(Next(s, ForceRefresh), acts) ==>
                k < After(Next(s, ForceRefresh), acts).cur
  {
    ReachableEnd(s);
    RetryMovesOn(s, k);
    if s.ops[k].Done? {
      var s1 := Next(s, ForceRefresh);
      StepKeepsChain(s, ForceRefresh);
      forall acts | IsRun(s1, acts) ensures k < After(s1, acts).cur {
        RunPrecedes(s1, acts);
      }
    }
  }

  lemma RetryMovesOn(s: State, k: nat)
    requires Chain(s) && EndsInError(s) && k < |s.ops| && k <= s.cur
    requires Ready(s.ops[k]) && !IsValid(s.ops[k], s.now)
    requires s.ops[k].outcome.Success? || !s.closed
    ensures k < Next(s, ForceRefresh).cur <==> s.ops[k].Done?
  {
    assert s.ops[k].Done? <==> k < s.next;
    ForcePrecedes(s);
  }

  /** The other side of the condition above occurs: the first refresh publishes a certificate
      that is already expired, and ForceRefresh arrives before its locked update. */
  lemma RetryCanMeetExpiredResult() returns (s: State)
    ensures Reachable(s) && Indexed(s) && !s.closed
    ensures Ready(s.ops[s.cur]) && !IsValid(s.ops[s.cur], s.now)
    ensures Next(s, ForceRefresh).cur == s.cur
  {
    InitReachable(10, REFRESH_INTERVAL);
    s := ToPublished(Init(10, REFRESH_INTERVAL), Success(ConnectionInfo(0, 9)));
  }
}
