/** The refresh-ahead cache as a machine whose steps are the atomic sections of the source:
    a timer firing, each stretch of the refresh goroutine between two points where another
    goroutine can interleave, and the two locked entry points ForceRefresh and Close.

    A step names the operation it belongs to, and nothing here restricts which operation that
    is or how steps interleave: that only one operation is ever running is proved, not built in. */
module RefreshMachine {
  import opened Timing
  import opened Wrappers

  // What the Admin API returns. `material` stands for the addresses, certificates and roots.
  datatype ConnectionInfo = ConnectionInfo(material: int, expiration: int)

  datatype Error = ContextCanceled | WaitFailed | FetchFailed(code: int)

  datatype Outcome = Success(info: ConnectionInfo) | Failure(err: Error)

  /** Where one refreshOperation stands. */
  datatype Phase =
    | Scheduled(due: int)                      // timer armed
    | Stopped                                  // timer.Stop() returned true
    | Fired                                    // goroutine started, context not yet checked
    | Admitted(deadline: int)                  // past the context check, timeout context made
    | Waiting(grantAt: int, deadline: int)     // token reserved, Wait sleeps until grantAt
    | Granted(grantedAt: int)                  // Wait returned nil
    | Calling(started: int)                    // Admin API call running
    | Computed(outcome: Outcome)               // result and err assigned
    | Published(outcome: Outcome)              // ready closed, lock not yet taken
    | Done(outcome: Outcome)                   // callback returned

  /** rate.NewLimiter(rate.Every(30s), 2) as an exact token bucket: one unit accrues per
      nanosecond, a token costs REFRESH_INTERVAL units, and a negative level is a debt. */
  datatype Bucket = Bucket(level: int, last: int)

  const CAPACITY: int := REFRESH_BURST * REFRESH_INTERVAL

  function Level(b: Bucket, t: int): int {
    Min(CAPACITY, b.level + (t - b.last))
  }

  function LimiterWait(b: Bucket, t: int): int {
    var left := Level(b, t) - REFRESH_INTERVAL;
    if left < 0 then -left else 0
  }

  function Take(b: Bucket, t: int): Bucket {
    Bucket(Level(b, t) - REFRESH_INTERVAL, t)
  }

  /** Reservation.Cancel: the token goes back unless its time to act has passed. */
  function GiveBack(b: Bucket, grantAt: int, t: int): Bucket {
    if grantAt < t then b else Bucket(Min(CAPACITY, Level(b, t) + REFRESH_INTERVAL), t)
  }

  // An Admin API call: when the limiter granted it and when it started.
  datatype Call = Call(granted: int, started: int)

  datatype State = State(
    ops: seq<Phase>,     // every operation ever scheduled, in order
    cur: nat,
    next: nat,
    closed: bool,        // the cache's context is cancelled
    now: int,
    bucket: Bucket,
    timeout: int,        // refreshTimeout
    calls: seq<Call>,    // every Admin API call ever started, in order
    forced: nat,         // times ForceRefresh cancelled a timer
    updates: nat)        // locked updates run

  datatype Action =
    | Tick(d: nat)
    | Fire(k: nat)
    | CheckContext(k: nat)
    | Reserve(k: nat)
    | Grant(k: nat)
    | Abandon(k: nat)
    | Start(k: nat)
    | Return(k: nat, outcome: Outcome)
    | Publish(k: nat)
    | Update(k: nat)
    | ForceRefresh
    | Close

  function Init(now: int, timeout: int): State {
    State([Scheduled(now)], 0, 0, false, now, Bucket(CAPACITY, now), timeout, [], 0, 0)
  }

  predicate Ready(p: Phase) {
    p.Published? || p.Done?
  }

  /** refreshOperation.isValid */
  predicate IsValid(p: Phase, now: int) {
    Ready(p) && p.outcome.Success? && !(now > p.outcome.info.expiration)
  }

  predicate Indexed(s: State) {
    s.cur < |s.ops| && s.next < |s.ops|
  }

  predicate Enabled(s: State, a: Action) {
    match a
    case Tick(_) => true
    case ForceRefresh => true
    case Close => true
    case Fire(k) => k < |s.ops| && s.ops[k].Scheduled? && s.ops[k].due <= s.now
    case CheckContext(k) => k < |s.ops| && s.ops[k].Fired?
    case Reserve(k) => k < |s.ops| && s.ops[k].Admitted? && !s.closed && s.now <= s.ops[k].deadline
    case Grant(k) => k < |s.ops| && s.ops[k].Waiting? && s.ops[k].grantAt <= s.now
    case Abandon(k) =>
      k < |s.ops| && (s.ops[k].Admitted? || s.ops[k].Waiting?) && (s.closed || s.ops[k].deadline <= s.now)
    case Start(k) => k < |s.ops| && s.ops[k].Granted?
    case Return(k, _) => k < |s.ops| && s.ops[k].Calling?
    case Publish(k) => k < |s.ops| && s.ops[k].Computed?
    case Update(k) => k < |s.ops| && s.ops[k].Published?
  }

  function SetPhase(s: State, k: nat, p: Phase): State
    requires k < |s.ops|
  {
    s.(ops := s.ops[k := p])
  }

  /** timer.Stop(): stops the timer if it has not fired and was not stopped before. */
  function StopTimer(s: State, k: nat): State
    requires k < |s.ops|
  {
    if s.ops[k].Scheduled? then SetPhase(s, k, Stopped) else s
  }

  /** scheduleRefresh, with the new operation stored in `next`. */
  function ScheduleNext(s: State, delay: int): State {
    s.(ops := s.ops + [Scheduled(s.now + delay)], next := |s.ops|)
  }

  /** Limiter.Wait up to the point where it returns or sleeps. */
  function ReserveToken(s: State, k: nat): State
    requires k < |s.ops| && s.ops[k].Admitted?
  {
    var deadline := s.ops[k].deadline;
    var wait := LimiterWait(s.bucket, s.now);
    if wait > deadline - s.now then
      SetPhase(s, k, Computed(Failure(WaitFailed)))
    else if wait == 0 then
      SetPhase(s, k, Granted(s.now)).(bucket := Take(s.bucket, s.now))
    else
      SetPhase(s, k, Waiting(s.now + wait, deadline)).(bucket := Take(s.bucket, s.now))
  }

  /** The locked section at the end of a refresh. */
  function LockedUpdate(s: State, k: nat): State
    requires Indexed(s) && k < |s.ops| && s.ops[k].Published?
  {
    var outcome := s.ops[k].outcome;
    var s1 := SetPhase(s, k, Done(outcome)).(updates := s.updates + 1);
    if outcome.Failure? then
      ScheduleNext(s1, 0).(cur := if IsValid(s.ops[s.cur], s.now) then s.cur else k)
    else
      ScheduleNext(s1, RefreshDuration(s.now, outcome.info.expiration)).(cur := k)
  }

  function Forced(s: State): State
    requires Indexed(s)
  {
    var s1 :=
      if s.ops[s.next].Scheduled? then
        ScheduleNext(StopTimer(s, s.next), 0).(forced := s.forced + 1)
      else
        s;
    if IsValid(s1.ops[s1.cur], s1.now) then s1 else s1.(cur := s1.next)
  }

  function Closed(s: State): State
    requires Indexed(s)
  {
    StopTimer(StopTimer(s.(closed := true), s.cur), s.next)
  }

  function Next(s: State, a: Action): (s': State)
    requires Indexed(s) && Enabled(s, a)
    ensures Indexed(s')
  {
    match a
    case Tick(d) => s.(now := s.now + d)
    case Fire(k) => SetPhase(s, k, Fired)
    case CheckContext(k) =>
      if s.closed then SetPhase(s, k, Done(Failure(ContextCanceled)))
      else SetPhase(s, k, Admitted(s.now + s.timeout))
    case Reserve(k) => ReserveToken(s, k)
    case Grant(k) => SetPhase(s, k, Granted(s.ops[k].grantAt))
    case Abandon(k) =>
      var s1 := SetPhase(s, k, Computed(Failure(WaitFailed)));
      if s.ops[k].Waiting? then s1.(bucket := GiveBack(s.bucket, s.ops[k].grantAt, s.now)) else s1
    case Start(k) =>
      SetPhase(s, k, Calling(s.now)).(calls := s.calls + [Call(s.ops[k].grantedAt, s.now)])
    case Return(k, outcome) => SetPhase(s, k, Computed(outcome))
    case Publish(k) => SetPhase(s, k, Published(s.ops[k].outcome))
    case Update(k) => LockedUpdate(s, k)
    case ForceRefresh => Forced(s)
    case Close => Closed(s)
  }

  /** `acts` can be taken from `s`, one after the other. */
  predicate IsRun(s: State, acts: seq<Action>)
    requires Indexed(s)
    decreases |acts|
  {
    acts == [] || (Enabled(s, acts[0]) && IsRun(Next(s, acts[0]), acts[1..]))
  }

  function After(s: State, acts: seq<Action>): (s': State)
    requires Indexed(s) && IsRun(s, acts)
    ensures Indexed(s')
    decreases |acts|
  {
    if acts == [] then s else After(Next(s, acts[0]), acts[1..])
  }

  ghost predicate Reachable(s: State) {
    exists now: int, timeout: int, acts: seq<Action> ::
      IsRun(Init(now, timeout), acts) && After(Init(now, timeout), acts) == s
  }
}
