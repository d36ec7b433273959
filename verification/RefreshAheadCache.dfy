/** RefreshAheadCache as the source has it: operations are objects whose timer, result, error and
    ready flag are updated in place, shared through the `cur` and `next` pointers. Each cache
    carries the machine state it stands for; Valid ties every real field to it, and every method
    takes exactly one step of RefreshMachine. `now` is the clock reading a section sees. */
module RefreshAheadCache {
  import opened Timing
  import opened RefreshMachine
  import opened RefreshChain
  import RefreshClose
  import opened Wrappers

  datatype Timer = Armed(due: int) | Halted | Expired

  datatype Result = Info(info: ConnectionInfo) | Err(err: Error)

  class RefreshOperation {
    var result: ConnectionInfo
    var err: Option<Error>
    var timer: Timer
    var ready: bool

    ghost predicate Holds(outcome: Outcome)
      reads this
    {
      match outcome
      case Success(info) => err == None && result == info
      case Failure(e) => err == Some(e)
    }

    /** The fields are those of an operation that stands at phase `p`. */
    ghost predicate At(p: Phase)
      reads this
    {
      && timer == (if p.Scheduled? then Armed(p.due) else if p.Stopped? then Halted else Expired)
      && ready == Ready(p)
      && (HasOutcome(p) ==> Holds(p.outcome))
    }

    constructor (due: int)
      ensures At(Scheduled(due))
    {
      result := ConnectionInfo(0, 0);
      err := None;
      timer := Armed(due);
      ready := false;
    }

    /** Stops the timer; true if and only if it had not fired and was not stopped before. */
    method Cancel(ghost p: Phase) returns (stopped: bool)
      requires At(p)
      modifies this
      ensures stopped <==> p.Scheduled?
      ensures At(if p.Scheduled? then Stopped else p)
    {
      stopped := timer.Armed?;
      if stopped {
        timer := Halted;
      }
    }

    method IsValidAt(now: int, ghost p: Phase) returns (valid: bool)
      requires At(p)
      ensures valid == IsValid(p, now)
    {
      if !ready {
        return false;
      }
      if err != None || now > result.expiration {
        return false;
      }
      return true;
    }
  }

  class Cache {
    var cur: RefreshOperation
    var next: RefreshOperation
    var closed: bool
    const timeout: int

    ghost var ops: seq<RefreshOperation>   // every operation ever scheduled
    ghost var s: State                     // the machine state this cache is in

    /** The real fields are those of machine state `s`. */
    ghost predicate Represents()
      reads this, ops
    {
      && |ops| == |s.ops|
      && s.cur < |ops| && ops[s.cur] == cur
      && s.next < |ops| && ops[s.next] == next
      && closed == s.closed
      && timeout == s.timeout
      && (forall k :: 0 <= k < |ops| ==> ops[k].At(s.ops[k]))
      && (forall j, k :: 0 <= j < k < |ops| ==> ops[j] != ops[k])
    }

    /** The cache is in a state that some run of the machine reaches. */
    ghost predicate Valid()
      reads this, ops
    {
      Represents() && Reachable(s)
    }

    constructor (now: int, refreshTimeout: int)
      ensures Valid() && fresh(ops)
      ensures s == Init(now, refreshTimeout)
      ensures cur == next && ops == [cur] && cur.timer == Armed(now) && !cur.ready && !closed
    {
      var op := new RefreshOperation(now);
      cur := op;
      next := op;
      closed := false;
      timeout := refreshTimeout;
      ops := [op];
      s := Init(now, refreshTimeout);
      new;
      InitReachable(now, refreshTimeout);
    }

    // isValid, read off the fields.
    ghost predicate Servable(op: RefreshOperation, now: int)
      reads op
    {
      op.ready && op.err == None && now <= op.result.expiration
    }

    // ---------- pieces of the locked sections ----------

    /** scheduleRefresh, its result stored in `next`. */
    method ScheduleRefresh(now: int, delay: int)
      requires Represents() && now == s.now
      modifies this`next, this`ops, this`s
      ensures Represents() && fresh(next) && ops == old(ops) + [next]
      ensures s == ScheduleNext(old(s), delay)
    {
      next := new RefreshOperation(now + delay);
      ops := ops + [next];
      s := ScheduleNext(s, delay);
    }

    method CancelTimer(op: RefreshOperation, ghost k: nat) returns (stopped: bool)
      requires Represents() && k < |ops| && ops[k] == op
      modifies op, this`s
      ensures Represents()
      ensures stopped <==> old(s).ops[k].Scheduled?
      ensures s == StopTimer(old(s), k)
    {
      stopped := op.Cancel(s.ops[k]);
      s := StopTimer(s, k);
    }

    method SetCur(op: RefreshOperation, ghost k: nat)
      requires Represents() && k < |ops| && ops[k] == op
      modifies this`cur, this`s
      ensures Represents() && cur == op
      ensures s == old(s).(cur := k)
    {
      cur := op;
      s := s.(cur := k);
    }

    // The callback has reached its last section.
    ghost method MarkDone(k: nat)
      requires Represents() && k < |ops| && s.ops[k].Published?
      modifies this`s
      ensures Represents()
      ensures s == SetPhase(old(s), k, Done(old(s).ops[k].outcome)).(updates := old(s).updates + 1)
    {
      s := SetPhase(s, k, Done(s.ops[k].outcome)).(updates := s.updates + 1);
    }

    // ---------- the locked sections ----------

    method ForceRefresh(now: int)
      requires Valid() && now == s.now
      modifies this, ops
      ensures Valid() && old(ops) <= ops && fresh(ops[|old(ops)|..])
      ensures s == Next(old(s), Action.ForceRefresh)
      ensures old(next.timer.Armed?) ==> old(next).timer == Halted && fresh(next) && next.timer == Armed(now)
      ensures !old(next.timer.Armed?) ==> next == old(next)
      ensures cur == if old(Servable(cur, now)) then old(cur) else next
    {
      ghost var after := Extend(s, Action.ForceRefresh);
      ForceLocked(now);
    }

    // The body of ForceRefresh, under the lock.
    method ForceLocked(now: int)
      requires Represents() && now == s.now
      modifies this, ops
      ensures Represents() && old(ops) <= ops && fresh(ops[|old(ops)|..])
      ensures s == Forced(old(s))
      ensures old(next.timer.Armed?) ==> old(next).timer == Halted && fresh(next) && next.timer == Armed(now)
      ensures !old(next.timer.Armed?) ==> next == old(next)
      ensures cur == if old(Servable(cur, now)) then old(cur) else next
    {
      Reschedule(now);
      var valid := cur.IsValidAt(now, s.ops[s.cur]);
      if !valid {
        SetCur(next, s.next);
      }
    }

    // A pending refresh is replaced by one that is due at once.
    method Reschedule(now: int)
      requires Represents() && now == s.now
      modifies this, ops
      ensures Represents() && old(ops) <= ops && fresh(ops[|old(ops)|..])
      ensures s == if old(s).ops[old(s).next].Scheduled?
                   then ScheduleNext(StopTimer(old(s), old(s).next), 0).(forced := old(s).forced + 1)
                   else old(s)
    {
      var stopped := CancelTimer(next, s.next);
      if stopped {
        ScheduleRefresh(now, 0);
        s := s.(forced := s.forced + 1);
      }
    }

    method Close()
      requires Valid()
      modifies this, ops
      ensures Valid() && ops == old(ops)
      ensures s == Next(old(s), Action.Close)
      ensures closed && cur == old(cur) && next == old(next)
      ensures forall k :: 0 <= k < |ops| ==> !ops[k].timer.Armed?
    {
      ghost var after := Extend(s, Action.Close);
      RefreshClose.CloseStopsTheTimer(s);
      closed := true;
      s := s.(closed := true);
      var _ := CancelTimer(cur, s.cur);
      var _ := CancelTimer(next, s.next);
    }

    /** The end of a refresh: the locked update that follows `close(r.ready)`. */
    method CompleteRefresh(r: RefreshOperation, ghost k: nat, now: int)
      requires Valid() && now == s.now && k < |ops| && ops[k] == r && Enabled(s, Update(k))
      modifies this
      ensures Valid() && old(ops) <= ops && fresh(ops[|old(ops)|..])
      ensures s == Next(old(s), Update(k))
      ensures fresh(next) && next.timer == Armed(now + if r.err == None then RefreshDuration(now, r.result.expiration) else 0)
      ensures cur == if r.err != None && old(Servable(cur, now)) then old(cur) else r
    {
      ghost var after := Extend(s, Update(k));
      CompleteLocked(r, k, now);
    }

    // A failed refresh replaces `cur` only if that is not valid any more.
    method ScheduleAfterFailure(r: RefreshOperation, ghost k: nat, now: int)
      requires Represents() && now == s.now && k < |ops| && ops[k] == r
      modifies this
      ensures Represents() && old(ops) <= ops && fresh(ops[|old(ops)|..])
      ensures s == ScheduleNext(old(s), 0).(
                     cur := if IsValid(old(s).ops[old(s).cur], now) then old(s).cur else k)
      ensures fresh(next) && next.timer == Armed(now)
      ensures cur == if old(Servable(cur, now)) then old(cur) else r
    {
      ScheduleRefresh(now, 0);
      var valid := cur.IsValidAt(now, s.ops[s.cur]);
      if !valid {
        SetCur(r, k);
      }
    }

    // A successful refresh replaces `cur` and spaces out the next one.
    method ScheduleAfterSuccess(r: RefreshOperation, ghost k: nat, now: int)
      requires Represents() && now == s.now && k < |ops| && ops[k] == r
      requires s.ops[k].Done? && s.ops[k].outcome.Success?
      modifies this
      ensures Represents() && old(ops) <= ops && fresh(ops[|old(ops)|..])
      ensures s == ScheduleNext(
                     old(s), RefreshDuration(now, old(s).ops[k].outcome.info.expiration)).(cur := k)
      ensures fresh(next) && next.timer == Armed(now + RefreshDuration(now, r.result.expiration)) && cur == r
    {
      SetCur(r, k);
      var t := RefreshDuration(now, cur.result.expiration);
      ScheduleRefresh(now, t);
    }

    // The body of the update, under the lock.
    method CompleteLocked(r: RefreshOperation, ghost k: nat, now: int)
      requires Represents() && now == s.now && k < |ops| && ops[k] == r && s.ops[k].Published?
      modifies this
      ensures Represents() && old(ops) <= ops && fresh(ops[|old(ops)|..])
      ensures s == LockedUpdate(old(s), k)
      ensures fresh(next) && next.timer == Armed(now + if r.err == None then RefreshDuration(now, r.result.expiration) else 0)
      ensures cur == if r.err != None && old(Servable(cur, now)) then old(cur) else r
    {
      MarkDone(k);
      assert r.At(s.ops[k]);
      if r.err != None {
        ScheduleAfterFailure(r, k, now);
        return;
      }
      ScheduleAfterSuccess(r, k, now);
    }

    // ---------- what the refresh goroutine writes without the lock ----------

    method TimerFires(r: RefreshOperation, ghost k: nat)
      requires Valid() && k < |ops| && ops[k] == r && Enabled(s, Fire(k))
      modifies r, this`s
      ensures Valid()
      ensures s == Next(old(s), Fire(k))
      ensures r.timer == Expired
    {
      ghost var after := Extend(s, Fire(k));
      r.timer := Expired;
      s := Next(s, Fire(k));
    }

    /** The context check: a closed cache ends the callback here, with the context's error. */
    method CheckClosed(r: RefreshOperation, ghost k: nat) returns (stop: bool)
      requires Valid() && k < |ops| && ops[k] == r && Enabled(s, CheckContext(k))
      modifies r, this`s
      ensures Valid() && stop == closed
      ensures s == Next(old(s), CheckContext(k))
      ensures stop ==> r.ready && r.err == Some(ContextCanceled)
      ensures !stop ==> r.ready == old(r.ready) && r.err == old(r.err)
    {
      ghost var after := Extend(s, CheckContext(k));
      stop := closed;
      if stop {
        r.err := Some(ContextCanceled);
        r.ready := true;
      }
      s := Next(s, CheckContext(k));
    }

    /** The result and error of a refresh, or the error of a wait that failed, are stored. */
    method StoreOutcome(r: RefreshOperation, ghost k: nat, outcome: Outcome, ghost a: Action)
      requires Valid() && k < |ops| && ops[k] == r && Enabled(s, a)
      requires a == Return(k, outcome) || a == Reserve(k) || a == Abandon(k)
      requires Next(s, a).ops[k] == Computed(outcome)
      modifies r, this`s
      ensures Valid() && !r.ready
      ensures s == Next(old(s), a)
      ensures match outcome
              case Success(info) => r.err == None && r.result == info
              case Failure(e) => r.err == Some(e)
    {
      ghost var after := Extend(s, a);
      LocalStep(s, a);
      StoreFields(r, k, outcome, after);
    }

    method StoreFields(r: RefreshOperation, ghost k: nat, outcome: Outcome, ghost after: State)
      requires Represents() && k < |ops| && ops[k] == r
      requires !s.ops[k].Scheduled? && !s.ops[k].Stopped? && !Ready(s.ops[k])
      requires after == s.(ops := s.ops[k := Computed(outcome)], bucket := after.bucket, calls := after.calls)
      modifies r, this`s
      ensures Represents() && !r.ready && s == after
      ensures r.Holds(outcome)
    {
      match outcome {
        case Success(info) => r.result, r.err := info, None;
        case Failure(e) => r.result, r.err := ConnectionInfo(0, 0), Some(e);
      }
      s := after;
    }

    /** `close(r.ready)` */
    method CloseReady(r: RefreshOperation, ghost k: nat)
      requires Valid() && k < |ops| && ops[k] == r && Enabled(s, Publish(k))
      modifies r, this`s
      ensures Valid()
      ensures !old(r.ready) && r.ready
      ensures s == Next(old(s), Publish(k))
    {
      ghost var after := Extend(s, Publish(k));
      r.ready := true;
      s := Next(s, Publish(k));
    }

    /** Steps that write no field of the cache: the clock, the limiter and the start of a call. */
    ghost method Elsewhere(a: Action)
      requires Valid() && Enabled(s, a)
      requires a.Tick? || a.Grant? || a.Start? || (a.Reserve? && !Next(s, a).ops[a.k].Computed?)
      modifies this`s
      ensures Valid()
      ensures s == Next(old(s), a)
    {
      ghost var after := Extend(s, a);
      ElsewhereIsUnseen(s, a);
      MoveOn(after);
    }

    // The fields are those of this state too.
    ghost method MoveOn(after: State)
      requires Represents() && |after.ops| == |s.ops|
      requires after == s.(ops := after.ops, now := after.now, bucket := after.bucket, calls := after.calls)
      requires forall k :: 0 <= k < |s.ops| ==>
                 after.ops[k] == s.ops[k] || (Running(s.ops[k]) && Running(after.ops[k]))
      modifies this`s
      ensures Represents() && s == after
    {
      s := after;
    }

    // ---------- readers ----------

    /** The part of ConnectionInfo under the read lock. */
    method Capture() returns (op: RefreshOperation)
      requires Valid()
      ensures op == cur && op in ops
      ensures !closed ==> op.ready || (op == next && Live(s.ops[s.next]))
    {
      ReachableIsChain(s);
      op := cur;
    }

    /** The select of ConnectionInfo, on the operation captured: any case that is ready may be
        taken. It blocks until one is; on a closed cache one always is. */
    method Await(op: RefreshOperation, ghost k: nat, ctxErr: Option<Error>) returns (r: Result)
      requires Valid() && k < |ops| && ops[k] == op
      requires op.ready || ctxErr.Some? || closed
      ensures r.Info? ==> Ready(s.ops[k]) && s.ops[k].outcome == Success(r.info)
      ensures r.Err? ==>
                || (Ready(s.ops[k]) && s.ops[k].outcome == Failure(r.err))
                || ctxErr == Some(r.err)
                || (closed && r.err == ContextCanceled)
      ensures !closed && ctxErr.None? ==> (r.Info? <==> s.ops[k].outcome.Success?)
    {
      if {
        case op.ready =>
          match op.err {
            case None => r := Info(op.result);
            case Some(e) => r := Err(e);
          }
        case ctxErr.Some? => r := Err(ctxErr.value);
        case closed => r := Err(ContextCanceled);
      }
    }
  }

  // The timer is spent and there is nothing to read yet.
  predicate Running(p: Phase) {
    p.Fired? || p.Admitted? || p.Waiting? || p.Granted? || p.Calling?
  }

  lemma ElsewhereIsUnseen(s: State, a: Action)
    requires Indexed(s) && Enabled(s, a)
    requires a.Tick? || a.Grant? || a.Start? || (a.Reserve? && !Next(s, a).ops[a.k].Computed?)
    ensures var s' := Next(s, a);
            && |s'.ops| == |s.ops|
            && s' == s.(ops := s'.ops, now := s'.now, bucket := s'.bucket, calls := s'.calls)
            && forall k :: 0 <= k < |s.ops| ==> s'.ops[k] == s.ops[k] || (Running(s.ops[k]) && Running(s'.ops[k]))
  {
  }
}
