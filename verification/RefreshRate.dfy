/** The rate limiter over whole runs: how often the Admin API is called, and how long a refresh
    can wait for its token. Both rest on the single live chain: at most one reservation is ever
    outstanding, so the bucket is never in debt when a refresh reserves. */
module RefreshRate {
  import opened Timing
  import opened RefreshMachine
  import opened RefreshChain

  // A token is reserved but its call has not started.
  predicate Pending(p: Phase) {
    p.Waiting? || p.Granted?
  }

  function GrantInstant(p: Phase): int
    requires Pending(p)
  {
    if p.Waiting? then p.grantAt else p.grantedAt
  }

  // Tokens taken after call i was granted, an outstanding reservation included.
  function TokensAfter(s: State, i: nat): int
    requires Indexed(s)
  {
    |s.calls| - 1 - i + (if Pending(s.ops[s.next]) then 1 else 0)
  }

  // The bucket has not been touched since instant t, when it was out of debt.
  predicate OutOfDebtSince(b: Bucket, t: int, now: int) {
    b.last <= t <= now && 0 <= b.level + (t - b.last)
  }

  /** The bucket is solvent whenever nobody is waiting, and solvent at the grant otherwise. */
  predicate Solvent(s: State)
    requires Indexed(s)
  {
    var p := s.ops[s.next];
    && s.bucket.last <= s.now
    && -REFRESH_INTERVAL <= s.bucket.level
    && (Pending(p) ==>
          && s.bucket.last <= GrantInstant(p) <= s.bucket.last + REFRESH_INTERVAL
          && 0 <= s.bucket.level + (GrantInstant(p) - s.bucket.last)
          && s.bucket.level <= REFRESH_INTERVAL + (s.bucket.last - GrantInstant(p)))
    && (p.Waiting? ==> p.grantAt <= p.deadline && (REFRESH_INTERVAL < s.timeout ==> p.grantAt < p.deadline))
    && (p.Granted? ==> p.grantedAt <= s.now)
    && (p.Admitted? ==> OutOfDebtSince(s.bucket, p.deadline - s.timeout, s.now))
    && (!p.Waiting? ==> 0 <= s.bucket.level + (s.now - s.bucket.last))
  }

  /** What is left in the bucket bounds how many tokens were taken since each call. */
  predicate Charged(s: State)
    requires Indexed(s)
  {
    forall i :: 0 <= i < |s.calls| ==>
      s.bucket.level <= REFRESH_INTERVAL + (s.bucket.last - s.calls[i].granted)
                        - REFRESH_INTERVAL * TokensAfter(s, i)
  }

  predicate Ordered(s: State)
    requires Indexed(s)
  {
    && (forall i :: 0 <= i < |s.calls| ==> s.calls[i].granted <= s.calls[i].started <= s.now)
    && (forall i, j :: 0 <= i < j < |s.calls| ==> s.calls[i].granted <= s.calls[j].granted)
    && (Pending(s.ops[s.next]) ==>
          forall i :: 0 <= i < |s.calls| ==> s.calls[i].granted <= GrantInstant(s.ops[s.next]))
  }

  /** Among any m + 2 successive calls the limiter's grants spread over at least m intervals. */
  predicate Spaced(calls: seq<Call>) {
    forall i, j :: 0 <= i < j < |calls| ==>
      REFRESH_INTERVAL * (j - i - 1) <= calls[j].granted - calls[i].granted
  }

  predicate Metered(s: State) {
    Chain(s) && Solvent(s) && Charged(s) && Ordered(s) && Spaced(s.calls)
  }

  // ---------- steps ----------

  // A step that touches neither the bucket nor the calls and leaves no reservation outstanding.
  lemma QuietKeepsMetered(s: State, s': State)
    requires Metered(s) && Chain(s') && s'.timeout == s.timeout
    requires s'.ops[s'.next].Admitted? ==> s'.ops[s'.next].deadline == s.now + s.timeout
    requires s'.bucket == s.bucket && s'.calls == s.calls && s'.now == s.now
    requires !Pending(s.ops[s.next]) && !Pending(s'.ops[s'.next])
    ensures Metered(s')
  {
    forall i | 0 <= i < |s'.calls| ensures TokensAfter(s', i) == TokensAfter(s, i) {
    }
  }

  lemma TickKeepsMetered(s: State, d: nat)
    requires Metered(s)
    ensures Metered(Next(s, Tick(d)))
  {
    var s' := Next(s, Tick(d));
    StepKeepsChain(s, Tick(d));
    forall i | 0 <= i < |s'.calls| ensures TokensAfter(s', i) == TokensAfter(s, i) {
    }
  }

  lemma ReserveKeepsMetered(s: State, k: nat)
    requires Metered(s) && Enabled(s, Reserve(k))
    ensures Metered(Next(s, Reserve(k)))
  {
    var s' := Next(s, Reserve(k));
    LiveIsNext(s, k);
    StepKeepsChain(s, Reserve(k));
    if s'.ops[k].Computed? {
      QuietKeepsMetered(s, s');
    } else {
      forall i | 0 <= i < |s'.calls| ensures TokensAfter(s', i) == TokensAfter(s, i) + 1 {
      }
    }
  }

  lemma GrantKeepsMetered(s: State, k: nat)
    requires Metered(s) && Enabled(s, Grant(k))
    ensures Metered(Next(s, Grant(k)))
  {
    var s' := Next(s, Grant(k));
    LiveIsNext(s, k);
    StepKeepsChain(s, Grant(k));
    forall i | 0 <= i < |s'.calls| ensures TokensAfter(s', i) == TokensAfter(s, i) {
    }
  }

  // Abandon gives back the token of a reservation whose time has not come, and none otherwise.
  lemma GiveBackKeepsCharged(s: State, k: nat)
    requires Indexed(s) && Solvent(s) && Charged(s) && Ordered(s)
    requires Enabled(s, Abandon(k)) && k == s.next && s.ops[k].Waiting?
    ensures Charged(Next(s, Abandon(k)))
  {
    var s' := Next(s, Abandon(k));
    forall i | 0 <= i < |s'.calls|
      ensures s'.bucket.level <= REFRESH_INTERVAL + (s'.bucket.last - s'.calls[i].granted)
                                 - REFRESH_INTERVAL * TokensAfter(s', i)
    {
      assert TokensAfter(s', i) == TokensAfter(s, i) - 1;
    }
  }

  lemma GiveBackKeepsSolvent(s: State, k: nat)
    requires Indexed(s) && Solvent(s) && Ordered(s)
    requires Enabled(s, Abandon(k)) && k == s.next && s.ops[k].Waiting?
    ensures Solvent(Next(s, Abandon(k))) && Ordered(Next(s, Abandon(k)))
  {
  }

  lemma AbandonKeepsMetered(s: State, k: nat)
    requires Metered(s) && Enabled(s, Abandon(k))
    ensures Metered(Next(s, Abandon(k)))
  {
    LiveIsNext(s, k);
    StepKeepsChain(s, Abandon(k));
    if s.ops[k].Admitted? {
      QuietKeepsMetered(s, Next(s, Abandon(k)));
    } else {
      GiveBackKeepsSolvent(s, k);
      GiveBackKeepsCharged(s, k);
    }
  }

  // Start turns the reservation into the newest call.
  lemma StartKeepsSpaced(s: State, k: nat)
    requires Metered(s) && Enabled(s, Start(k)) && k == s.next
    ensures Spaced(Next(s, Start(k)).calls)
  {
    var newest := |s.calls|;
    forall i | 0 <= i < newest
      ensures REFRESH_INTERVAL * (newest - i - 1) <= s.ops[k].grantedAt - s.calls[i].granted
    {
      assert TokensAfter(s, i) == newest - i;
    }
  }

  lemma StartKeepsOrdered(s: State, k: nat)
    requires Indexed(s) && Solvent(s) && Ordered(s) && Enabled(s, Start(k)) && k == s.next
    ensures Solvent(Next(s, Start(k))) && Ordered(Next(s, Start(k)))
  {
  }

  lemma StartKeepsCharged(s: State, k: nat)
    requires Indexed(s) && Solvent(s) && Charged(s) && Enabled(s, Start(k)) && k == s.next
    ensures Charged(Next(s, Start(k)))
  {
    var s' := Next(s, Start(k));
    forall i | 0 <= i < |s.calls| ensures TokensAfter(s', i) == TokensAfter(s, i) && s'.calls[i] == s.calls[i] {
    }
  }

  lemma StartKeepsMetered(s: State, k: nat)
    requires Metered(s) && Enabled(s, Start(k))
    ensures Metered(Next(s, Start(k)))
  {
    LiveIsNext(s, k);
    StepKeepsChain(s, Start(k));
    StartKeepsSpaced(s, k);
    StartKeepsOrdered(s, k);
    StartKeepsCharged(s, k);
  }

  // `next` keeps its phase.
  lemma CursorKeepsMetered(s: State, s': State)
    requires Metered(s) && Chain(s') && s'.timeout == s.timeout
    requires s'.bucket == s.bucket && s'.calls == s.calls && s'.now == s.now
    requires s'.next == s.next && s'.ops[s'.next] == s.ops[s.next]
    ensures Metered(s')
  {
    forall i | 0 <= i < |s'.calls| ensures TokensAfter(s', i) == TokensAfter(s, i) {
    }
  }

  lemma CursorOrStopKeepsMetered(s: State, s': State)
    requires Metered(s) && Chain(s') && s'.timeout == s.timeout
    requires s'.bucket == s.bucket && s'.calls == s.calls && s'.now == s.now && s'.next == s.next
    requires s'.ops[s'.next] == s.ops[s.next] || (s.ops[s.next].Scheduled? && s'.ops[s'.next].Stopped?)
    ensures Metered(s')
  {
    if s'.ops[s'.next] == s.ops[s.next] {
      CursorKeepsMetered(s, s');
    } else {
      QuietKeepsMetered(s, s');
    }
  }

  lemma ForceKeepsMetered(s: State)
    requires Metered(s)
    ensures Metered(Next(s, ForceRefresh))
  {
    StepKeepsChain(s, ForceRefresh);
    if s.ops[s.next].Scheduled? {
      QuietKeepsMetered(s, Next(s, ForceRefresh));
    } else {
      CursorKeepsMetered(s, Next(s, ForceRefresh));
    }
  }

  lemma CloseKeepsMetered(s: State)
    requires Metered(s)
    ensures Metered(Next(s, Close))
  {
    StepKeepsChain(s, Close);
    CloseStopsNext(s);
    CursorOrStopKeepsMetered(s, Next(s, Close));
  }

  lemma UpdateKeepsMetered(s: State, k: nat)
    requires Metered(s) && Enabled(s, Update(k))
    ensures Metered(Next(s, Update(k)))
  {
    StepKeepsChain(s, Update(k));
    LiveIsNext(s, k);
    QuietKeepsMetered(s, Next(s, Update(k)));
  }

  // A local step that has nothing to do with the limiter.
  lemma OtherKeepsMetered(s: State, a: Action)
    requires Metered(s) && Enabled(s, a)
    requires a.Fire? || a.CheckContext? || a.Return? || a.Publish?
    ensures Metered(Next(s, a))
  {
    LocalStep(s, a);
    LiveIsNext(s, a.k);
    StepKeepsChain(s, a);
    QuietKeepsMetered(s, Next(s, a));
  }

  lemma StepKeepsMetered(s: State, a: Action)
    requires Metered(s) && Enabled(s, a)
    ensures Metered(Next(s, a))
  {
    match a
    case Tick(d) => TickKeepsMetered(s, d);
    case Reserve(k) => ReserveKeepsMetered(s, k);
    case Grant(k) => GrantKeepsMetered(s, k);
    case Abandon(k) => AbandonKeepsMetered(s, k);
    case Start(k) => StartKeepsMetered(s, k);
    case Update(k) => UpdateKeepsMetered(s, k);
    case ForceRefresh => ForceKeepsMetered(s);
    case Close => CloseKeepsMetered(s);
    case _ => OtherKeepsMetered(s, a);
  }

  lemma {:induction false} RunKeepsMetered(s: State, acts: seq<Action>)
    requires Metered(s) && IsRun(s, acts)
    ensures Metered(After(s, acts))
    decreases |acts|
  {
    if acts != [] {
      StepKeepsMetered(s, acts[0]);
      RunKeepsMetered(Next(s, acts[0]), acts[1..]);
    }
  }

  lemma ReachableIsMetered(s: State)
    requires Reachable(s)
    ensures Metered(s)
  {
    var now: int, timeout: int, acts: seq<Action> :|
      IsRun(Init(now, timeout), acts) && After(Init(now, timeout), acts) == s;
    RunKeepsMetered(Init(now, timeout), acts);
  }

  // ---------- the rate bound ----------

  /** How many calls the limiter granted within [lo, hi]. */
  function CallsGranted(calls: seq<Call>, lo: int, hi: int): nat {
    if calls == [] then 0
    else
      var c := calls[|calls| - 1];
      CallsGranted(calls[..|calls| - 1], lo, hi) + (if lo <= c.granted <= hi then 1 else 0)
  }

  predicate Sorted(calls: seq<Call>) {
    forall i, j :: 0 <= i < j < |calls| ==> calls[i].granted <= calls[j].granted
  }

  // The calls in the window are among those from the first call granted at `lo` or later.
  lemma {:induction false} WindowStart(calls: seq<Call>, lo: int, hi: int) returns (first: nat)
    requires Sorted(calls)
    ensures first <= |calls|
    ensures first < |calls| ==> lo <= calls[first].granted
    ensures CallsGranted(calls, lo, hi) <= |calls| - first
    ensures forall i :: 0 <= i < first ==> calls[i].granted < lo
  {
    if calls == [] {
      first := 0;
    } else {
      var init := calls[..|calls| - 1];
      first := WindowStart(init, lo, hi);
      if first == |init| && calls[|init|].granted < lo {
        first := |calls|;
      }
    }
  }

  lemma {:induction false} WindowBound(calls: seq<Call>, lo: int, length: nat)
    requires Sorted(calls) && Spaced(calls)
    ensures CallsGranted(calls, lo, lo + length) <= REFRESH_BURST + length / REFRESH_INTERVAL
  {
    if calls != [] {
      var last := |calls| - 1;
      if calls[last].granted > lo + length {
        WindowBound(calls[..last], lo, length);
      } else {
        var first := WindowStart(calls, lo, lo + length);
        if first < last {
          assert REFRESH_INTERVAL * (last - first - 1) <= length;
        }
      }
    }
  }

  /** Whatever fails, whenever ForceRefresh is called and however steps interleave, any window of
      the given length holds at most the burst plus one call per full refresh interval. */
  lemma RateBound(s: State, lo: int, length: nat)
    requires Reachable(s)
    ensures CallsGranted(s.calls, lo, lo + length) <= REFRESH_BURST + length / REFRESH_INTERVAL
  {
    ReachableIsMetered(s);
    WindowBound(s.calls, lo, length);
  }

  function CountStarts(acts: seq<Action>): nat {
    if acts == [] then 0 else (if acts[0].Start? then 1 else 0) + CountStarts(acts[1..])
  }

  /** The calls counted are all there are: one for every Start step of the run. */
  lemma {:induction false} EveryStartIsCounted(s: State, acts: seq<Action>)
    requires Indexed(s) && IsRun(s, acts)
    ensures |After(s, acts).calls| == |s.calls| + CountStarts(acts)
    decreases |acts|
  {
    if acts != [] {
      EveryStartIsCounted(Next(s, acts[0]), acts[1..]);
    }
  }

  /** How many calls started within [lo, hi]. */
  function CallsStarted(calls: seq<Call>, lo: int, hi: int): nat {
    if calls == [] then 0
    else
      var c := calls[|calls| - 1];
      CallsStarted(calls[..|calls| - 1], lo, hi) + (if lo <= c.started <= hi then 1 else 0)
  }

  lemma {:induction false} StartedWereGranted(calls: seq<Call>, lo: int, hi: int, lateness: nat)
    requires forall i :: 0 <= i < |calls| ==> calls[i].granted <= calls[i].started <= calls[i].granted + lateness
    ensures CallsStarted(calls, lo, hi) <= CallsGranted(calls, lo - lateness, hi)
  {
    if calls != [] {
      StartedWereGranted(calls[..|calls| - 1], lo, hi, lateness);
    }
  }

  /** The same bound for the instants at which the calls really start, when a goroutine runs at
      most `lateness` after the instant the limiter granted it. */
  lemma StartRateBound(s: State, lo: int, length: nat, lateness: nat)
    requires Reachable(s)
    requires forall i :: 0 <= i < |s.calls| ==> s.calls[i].started <= s.calls[i].granted + lateness
    ensures CallsStarted(s.calls, lo, lo + length) <= REFRESH_BURST + (length + lateness) / REFRESH_INTERVAL
  {
    ReachableIsMetered(s);
    StartedWereGranted(s.calls, lo, lo + length, lateness);
    WindowBound(s.calls, lo - lateness, length + lateness);
  }

  // ---------- the limiter and the refresh timeout ----------

  /** A refresh that is about to reserve finds the bucket out of debt, so it waits no longer than
      one interval; a refresh that sleeps is granted within one interval and within its deadline. */
  lemma WaitIsAtMostOneInterval(s: State, k: nat)
    requires Reachable(s) && k < |s.ops|
    ensures s.ops[k].Admitted? ==> 0 <= LimiterWait(s.bucket, s.now) <= REFRESH_INTERVAL
    ensures s.ops[k].Waiting? ==>
              s.ops[k].grantAt <= s.now + REFRESH_INTERVAL && s.ops[k].grantAt <= s.ops[k].deadline
  {
    ReachableIsMetered(s);
    if s.ops[k].Admitted? || s.ops[k].Waiting? {
      LiveIsNext(s, k);
    }
  }

  /** Operation k has made its timeout context and is about to call Wait, however long that takes
      it: its deadline has not passed, or it has only just been set. */
  predicate AboutToWait(s: State, k: nat) {
    && k < |s.ops| && s.ops[k].Admitted? && !s.closed
    && (s.now <= s.ops[k].deadline || s.now == s.ops[k].deadline - s.timeout)
  }

  /** The limiter turns the refresh away: it fails without ever sleeping. */
  predicate TurnedAway(s: State, k: nat)
    requires Indexed(s)
  {
    !Enabled(s, Reserve(k)) || Next(s, Reserve(k)).ops[k].Computed?
  }

  /** The refresh is let in, and if it has to sleep its token comes strictly before its deadline, so
      that the deadline cannot end the wait first. */
  predicate Unhurried(s: State, k: nat)
    requires Indexed(s)
  {
    && !TurnedAway(s, k)
    && var p := Next(s, Reserve(k)).ops[k]; (p.Waiting? ==> p.grantAt < p.deadline)
  }

  /** With this timeout, no refresh is turned away while its deadline has not passed. */
  ghost predicate TimeoutSuffices(timeout: int) {
    forall s: State, k: nat ::
      Reachable(s) && s.timeout == timeout && Indexed(s) && AboutToWait(s, k) ==> !TurnedAway(s, k)
  }

  /** With this timeout, no deadline can end a wait for a token that was entered before it. */
  ghost predicate TimeoutIsSafe(timeout: int) {
    forall s: State, k: nat ::
      Reachable(s) && s.timeout == timeout && Indexed(s) && AboutToWait(s, k) ==> Unhurried(s, k)
  }

  // Whatever time the goroutine lost since its context check has also refilled the bucket.
  lemma NeverTurnedAway(s: State, k: nat)
    requires Reachable(s) && Indexed(s) && AboutToWait(s, k) && REFRESH_INTERVAL <= s.timeout
    ensures !TurnedAway(s, k)
    ensures REFRESH_INTERVAL < s.timeout ==> Unhurried(s, k)
  {
    ReachableIsMetered(s);
    LiveIsNext(s, k);
  }

  /** Once it sleeps, it gets its token: with a timeout greater than the interval an open cache never
      abandons the wait before the token's time has come, and from then on the token is there. */
  lemma WaitIsGranted(s: State, k: nat)
    requires Reachable(s) && !s.closed && REFRESH_INTERVAL < s.timeout
    requires k < |s.ops| && s.ops[k].Waiting?
    ensures s.now <= s.ops[k].grantAt ==> !Enabled(s, Abandon(k))
    ensures s.ops[k].grantAt <= s.now ==> Enabled(s, Grant(k))
  {
    ReachableIsMetered(s);
    LiveIsNext(s, k);
  }

  /** A wait given up before its token's time leaves the limiter as if it had never been entered, for
      all time; given up later it has cost its token all the same. */
  lemma CancelledWaitIsFree(s: State, k: nat, d: nat, later: int)
    requires Indexed(s) && Enabled(s, Reserve(k)) && Next(s, Reserve(k)).ops[k].Waiting?
    requires Enabled(Next(Next(s, Reserve(k)), Tick(d)), Abandon(k)) && s.bucket.last <= s.now && s.now + d <= later
    ensures var s1 := Next(s, Reserve(k));
            var s2 := Next(Next(s1, Tick(d)), Abandon(k));
            Level(s2.bucket, later) == Level(if s1.ops[k].grantAt < s.now + d then s1.bucket else s.bucket, later)
  {
  }

  // One whole refresh that fails, from its timer to its locked update.
  lemma FailedRefresh(s: State) returns (s': State)
    requires Reachable(s) && Indexed(s) && !s.closed && s.timeout >= 0
    requires s.next + 1 == |s.ops| && s.ops[s.next] == Scheduled(s.now)
    requires Level(s.bucket, s.now) >= REFRESH_INTERVAL
    ensures Reachable(s') && Indexed(s') && !s'.closed && s'.timeout == s.timeout && s'.now == s.now
    ensures s'.next + 1 == |s'.ops| && s'.ops[s'.next] == Scheduled(s'.now)
    ensures s'.bucket == Take(s.bucket, s.now)
  {
    s' := ToPublished(s, Failure(FetchFailed(0)));
    s' := Extend(s', Update(s.next));
  }

  // Two failed refreshes use up the burst; the third needs a whole interval.
  lemma ThirdRefresh(timeout: int) returns (s: State, k: nat)
    requires timeout <= REFRESH_INTERVAL
    ensures Reachable(s) && s.timeout == timeout && Indexed(s) && AboutToWait(s, k)
    ensures !Unhurried(s, k)
    ensures timeout < REFRESH_INTERVAL ==> TurnedAway(s, k)
  {
    InitReachable(0, timeout);
    s := Init(0, timeout);
    if timeout >= 0 {
      s := FailedRefresh(s);
      s := FailedRefresh(s);
    }
    k := s.next;
    s := Extend(s, Fire(k));
    s := Extend(s, CheckContext(k));
  }

  /** No refresh is ever turned away, however late it comes to reserve, if and only if the timeout
      covers one interval. */
  lemma TimeoutSufficesIff(timeout: int)
    ensures TimeoutSuffices(timeout) <==> REFRESH_INTERVAL <= timeout
  {
    if REFRESH_INTERVAL <= timeout {
      forall s: State, k: nat | Reachable(s) && s.timeout == timeout && Indexed(s) && AboutToWait(s, k)
        ensures !TurnedAway(s, k)
      {
        NeverTurnedAway(s, k);
      }
    } else {
      var s, k := ThirdRefresh(timeout);
    }
  }

  /** Why RefreshTimeout should be greater than refreshInterval: that, and nothing less, keeps the
      deadline from ever ending a wait for a token. */
  lemma TimeoutIsSafeIff(timeout: int)
    ensures TimeoutIsSafe(timeout) <==> REFRESH_INTERVAL < timeout
  {
    if REFRESH_INTERVAL < timeout {
      forall s: State, k: nat | Reachable(s) && s.timeout == timeout && Indexed(s) && AboutToWait(s, k)
        ensures Unhurried(s, k)
      {
        NeverTurnedAway(s, k);
      }
    } else {
      var s, k := ThirdRefresh(timeout);
    }
  }

  /** With the limiter's settings: never more than three calls granted in thirty seconds, nor more than
      122 in an hour. */
  lemma CallsAreRare(s: State, lo: int)
    requires Reachable(s)
    ensures CallsGranted(s.calls, lo, lo + 30_000_000_000) <= 3
    ensures CallsGranted(s.calls, lo, lo + 3_600_000_000_000) <= 122
  {
    RateBound(s, lo, 30_000_000_000);
    RateBound(s, lo, 3_600_000_000_000);
  }

  /** And the default refresh timeout of sixty seconds is safe. */
  lemma DefaultTimeoutIsSafe()
    ensures TimeoutIsSafe(60_000_000_000)
  {
    TimeoutIsSafeIff(60_000_000_000);
  }

  /** What the bound counts: the calls whose grant lies in the window. */
  lemma {:induction false} CallsGrantedCounts(calls: seq<Call>, lo: int, hi: int)
    ensures CallsGranted(calls, lo, hi) == |set i | 0 <= i < |calls| && lo <= calls[i].granted <= hi|
  {
    var all := set i | 0 <= i < |calls| && lo <= calls[i].granted <= hi;
    if calls != [] {
      var n := |calls| - 1;
      CallsGrantedCounts(calls[..n], lo, hi);
      var rest := set i | 0 <= i < |calls[..n]| && lo <= calls[..n][i].granted <= hi;
      assert all == rest + (if lo <= calls[n].granted <= hi then {n} else {});
    } else {
      assert all == {};
    }
  }
}
