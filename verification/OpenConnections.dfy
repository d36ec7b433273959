/** The counter of open connections that all connections dialed through one cache share. It is a
    uint64 to which goroutines add 1 after a dial and ^uint64(0) after a close, whenever they come
    to run; a close may well be counted before the dial it belongs to. */
module OpenConnections {

  const WORD: int := 0x1_0000_0000_0000_0000

  type Uint64 = x: int | 0 <= x < WORD

  // ^uint64(0)
  const ALL_ONES: Uint64 := WORD - 1

  // Modulo 2^64.
  function Wrap(x: int): Uint64 {
    x % 0x1_0000_0000_0000_0000
  }

  /** atomic.AddUint64 */
  function AddUint64(n: Uint64, delta: Uint64): Uint64 {
    Wrap(n + delta)
  }

  datatype State = State(
    counter: Uint64,
    conns: seq<bool>,       // for every connection dialed, whether it is open
    increments: nat,        // goroutines that have yet to add 1
    decrements: nat,        // goroutines that have yet to add ^uint64(0)
    incremented: nat,       // goroutines that have
    decremented: nat)

  datatype Action = Dial | Close(i: nat) | Increment | Decrement

  predicate Initial(s: State) {
    && s.counter == 0 && |s.conns| == 0
    && s.increments == s.decrements == s.incremented == s.decremented == 0
  }

  predicate Enabled(s: State, a: Action) {
    match a
    case Dial => true
    case Close(i) => i < |s.conns|
    case Increment => s.increments > 0
    case Decrement => s.decrements > 0
  }

  /** The underlying connection closes successfully once; closing it again reports an error, and
      then nothing is counted. */
  function Next(s: State, a: Action): State
    requires Enabled(s, a)
  {
    match a
    case Dial => s.(conns := s.conns + [true], increments := s.increments + 1)
    case Close(i) =>
      if s.conns[i] then s.(conns := s.conns[i := false], decrements := s.decrements + 1) else s
    case Increment =>
      s.(counter := AddUint64(s.counter, 1), increments := s.increments - 1, incremented := s.incremented + 1)
    case Decrement =>
      s.(counter := AddUint64(s.counter, ALL_ONES), decrements := s.decrements - 1, decremented := s.decremented + 1)
  }

  predicate IsRun(s: State, acts: seq<Action>)
    decreases |acts|
  {
    acts == [] || (Enabled(s, acts[0]) && IsRun(Next(s, acts[0]), acts[1..]))
  }

  function After(s: State, acts: seq<Action>): State
    requires IsRun(s, acts)
    decreases |acts|
  {
    if acts == [] then s else After(Next(s, acts[0]), acts[1..])
  }

  function CountOpen(conns: seq<bool>): nat {
    if conns == [] then 0
    else CountOpen(conns[..|conns| - 1]) + (if conns[|conns| - 1] then 1 else 0)
  }

  lemma {:induction false} CountAfterClose(conns: seq<bool>, i: nat)
    requires i < |conns| && conns[i]
    ensures CountOpen(conns[i := false]) == CountOpen(conns) - 1
  {
    var last := |conns| - 1;
    if i == last {
      assert conns[i := false][..last] == conns[..last];
    } else {
      assert conns[i := false][..last] == conns[..last][i := false];
      CountAfterClose(conns[..last], i);
    }
  }

  lemma {:induction false} CountAtMostAll(conns: seq<bool>)
    ensures CountOpen(conns) <= |conns|
  {
    if conns != [] {
      CountAtMostAll(conns[..|conns| - 1]);
    }
  }

  predicate Invariant(s: State) {
    && |s.conns| == s.increments + s.incremented
    && CountOpen(s.conns) == s.increments + s.incremented - s.decrements - s.decremented
    && s.counter == Wrap(s.incremented - s.decremented)
  }

  lemma AddIsModular(x: int, delta: int)
    ensures AddUint64(Wrap(x), Wrap(delta)) == Wrap(x + delta)
  {
  }

  lemma StepKeeps(s: State, a: Action)
    requires Invariant(s) && Enabled(s, a)
    ensures Invariant(Next(s, a))
  {
    match a
    case Dial =>
      assert (s.conns + [true])[..|s.conns|] == s.conns;
    case Close(i) =>
      if s.conns[i] {
        CountAfterClose(s.conns, i);
      }
    case Increment =>
      AddIsModular(s.incremented - s.decremented, 1);
    case Decrement =>
      AddIsModular(s.incremented - s.decremented, -1);
  }

  lemma {:induction false} RunKeeps(s: State, acts: seq<Action>)
    requires Invariant(s) && IsRun(s, acts)
    ensures Invariant(After(s, acts))
    decreases |acts|
  {
    if acts != [] {
      StepKeeps(s, acts[0]);
      RunKeeps(Next(s, acts[0]), acts[1..]);
    }
  }

  ghost predicate Reachable(s: State) {
    exists start, acts :: Initial(start) && IsRun(start, acts) && After(start, acts) == s
  }

  lemma InitialKeeps(s: State)
    requires Initial(s)
    ensures Invariant(s)
  {
  }

  lemma ReachableKeeps(s: State)
    requires Reachable(s)
    ensures Invariant(s)
  {
    var start, acts :| Initial(start) && IsRun(start, acts) && After(start, acts) == s;
    InitialKeeps(start);
    RunKeeps(start, acts);
  }

  lemma ExactIff(s: State)
    requires Invariant(s) && |s.conns| < WORD
    ensures s.counter == CountOpen(s.conns) <==> s.increments == s.decrements
  {
    CountAtMostAll(s.conns);
    var x := s.incremented - s.decremented;
    assert -WORD < x < WORD;
    assert Wrap(x) == if x < 0 then x + WORD else x;
  }

  /** At every moment, under every interleaving, the counter is the number of dials less the number
      of closes counted so far, modulo 2^64; that is the number of open connections, less the dials
      and plus the closes that have yet to be counted. */
  lemma CounterAtEveryMoment(s: State)
    requires Reachable(s)
    ensures s.counter == Wrap(s.incremented - s.decremented)
    ensures s.incremented - s.decremented == CountOpen(s.conns) - s.increments + s.decrements
  {
    ReachableKeeps(s);
  }

  /** The counter shows the true number of open connections if and only if as many dials as closes
      have yet to be counted; in particular when none has. */
  lemma CounterIsExactIff(s: State)
    requires Reachable(s) && |s.conns| < WORD
    ensures s.counter == CountOpen(s.conns) <==> s.increments == s.decrements
  {
    ReachableKeeps(s);
    ExactIff(s);
  }

  // ---------- counting the actions ----------

  /** Closing an open connection closes it, and no other, and starts one decrement; closing it again
      changes nothing. */
  lemma CloseCountsOnce(s: State, i: nat)
    requires Enabled(s, Close(i))
    ensures s.conns[i] ==> Next(s, Close(i)) == s.(conns := s.conns[i := false], decrements := s.decrements + 1)
    ensures !s.conns[i] ==> Next(s, Close(i)) == s
    ensures Enabled(Next(s, Close(i)), Close(i))
    ensures Next(Next(s, Close(i)), Close(i)) == Next(s, Close(i))
  {
  }

  function Dials(acts: seq<Action>): nat {
    if acts == [] then 0 else Dials(acts[..|acts| - 1]) + (if acts[|acts| - 1].Dial? then 1 else 0)
  }

  function Increments(acts: seq<Action>): nat {
    if acts == [] then 0 else Increments(acts[..|acts| - 1]) + (if acts[|acts| - 1].Increment? then 1 else 0)
  }

  function Decrements(acts: seq<Action>): nat {
    if acts == [] then 0 else Decrements(acts[..|acts| - 1]) + (if acts[|acts| - 1].Decrement? then 1 else 0)
  }

  /** The connections that were closed, once or several times. */
  function Closed(acts: seq<Action>): set<nat> {
    set k | 0 <= k < |acts| && acts[k].Close? :: acts[k].i
  }

  lemma ClosedByLast(acts: seq<Action>)
    requires acts != []
    ensures var last := acts[|acts| - 1];
            Closed(acts) == Closed(acts[..|acts| - 1]) + (if last.Close? then {last.i} else {})
  {
    var n := |acts| - 1;
    forall i: nat | i in Closed(acts) ensures i in Closed(acts[..n]) + (if acts[n].Close? then {acts[n].i} else {}) {
      var k :| 0 <= k < |acts| && acts[k].Close? && acts[k].i == i;
      assert k < n ==> acts[..n][k] == acts[k];
    }
    forall i: nat | i in Closed(acts[..n]) ensures i in Closed(acts) {
      var k :| 0 <= k < n && acts[..n][k].Close? && acts[..n][k].i == i;
      assert acts[k] == acts[..n][k];
    }
  }

  lemma {:induction false} LastStep(s: State, acts: seq<Action>)
    requires acts != [] && IsRun(s, acts)
    ensures var n := |acts| - 1;
            && IsRun(s, acts[..n]) && Enabled(After(s, acts[..n]), acts[n])
            && After(s, acts) == Next(After(s, acts[..n]), acts[n])
    decreases |acts|
  {
    var n := |acts| - 1;
    if n > 0 {
      LastStep(Next(s, acts[0]), acts[1..]);
      assert acts[1..][..n - 1] == acts[..n][1..];
    }
  }

  /** What the state says is what the actions did. */
  predicate Tells(s: State, acts: seq<Action>) {
    && |s.conns| == Dials(acts) == s.increments + s.incremented
    && s.incremented == Increments(acts) && s.decremented == Decrements(acts)
    && (forall i :: i in Closed(acts) ==> i < |s.conns|)
    && (forall i :: 0 <= i < |s.conns| ==> (s.conns[i] <==> i !in Closed(acts)))
    && |Closed(acts)| == s.decrements + s.decremented
  }

  lemma CloseTells(s: State, init: seq<Action>, acts: seq<Action>, i: nat)
    requires acts == init + [Close(i)] && Tells(s, init) && Enabled(s, Close(i))
    ensures Tells(Next(s, Close(i)), acts)
  {
    assert acts[..|acts| - 1] == init;
    ClosedByLast(acts);
    assert s.conns[i] <==> i !in Closed(init);
    if !s.conns[i] {
      assert Closed(acts) == Closed(init);
    }
  }

  lemma OtherTells(s: State, init: seq<Action>, acts: seq<Action>, a: Action)
    requires acts == init + [a] && Tells(s, init) && Enabled(s, a) && !a.Close?
    ensures Tells(Next(s, a), acts)
  {
    assert acts[..|acts| - 1] == init;
    ClosedByLast(acts);
    assert Closed(acts) == Closed(init);
  }

  lemma StepTells(s: State, acts: seq<Action>)
    requires acts != [] && Tells(s, acts[..|acts| - 1]) && Enabled(s, acts[|acts| - 1])
    ensures Tells(Next(s, acts[|acts| - 1]), acts)
  {
    var init, last := acts[..|acts| - 1], acts[|acts| - 1];
    assert acts == init + [last];
    if last.Close? {
      CloseTells(s, init, acts, last.i);
    } else {
      OtherTells(s, init, acts, last);
    }
  }

  lemma {:induction false} RunTells(s: State, acts: seq<Action>)
    requires Initial(s) && IsRun(s, acts)
    ensures Tells(After(s, acts), acts)
    decreases |acts|
  {
    if acts == [] {
      assert Closed(acts) == {};
    } else {
      LastStep(s, acts);
      RunTells(s, acts[..|acts| - 1]);
      StepTells(After(s, acts[..|acts| - 1]), acts);
    }
  }

  /** From the actions alone, whatever their order: the counter is the increments less the decrements
      made so far, modulo 2^64, and once none is pending it is the dials less the connections that were
      closed, each once however often it was closed. */
  lemma CounterCountsActions(s: State, acts: seq<Action>)
    requires Initial(s) && IsRun(s, acts)
    ensures var end := After(s, acts);
            && end.counter == Wrap(Increments(acts) - Decrements(acts))
            && end.increments == Dials(acts) - Increments(acts)
            && end.decrements == |Closed(acts)| - Decrements(acts)
            && (end.increments == 0 && end.decrements == 0 ==> end.counter == Wrap(Dials(acts) - |Closed(acts)|))
  {
    RunTells(s, acts);
    InitialKeeps(s);
    RunKeeps(s, acts);
  }

  // ---------- the counter and the connections as objects ----------

  class InstrumentedConn {
    var open: bool

    constructor ()
      ensures open
    {
      open := true;
    }

    /** The underlying Close: succeeds once. */
    method CloseUnderlying() returns (ok: bool)
      modifies this
      ensures ok == old(open) && !open
    {
      ok := open;
      open := false;
    }
  }

  class MonitoredCache {
    var openConns: Uint64

    ghost var conns: seq<InstrumentedConn>
    ghost var s: State

    ghost predicate Valid()
      reads this, conns
    {
      && openConns == s.counter
      && |conns| == |s.conns|
      && (forall i :: 0 <= i < |conns| ==> conns[i].open == s.conns[i])
      && (forall i, j :: 0 <= i < j < |conns| ==> conns[i] != conns[j])
      && Invariant(s)
    }

    constructor ()
      ensures Valid() && Initial(s)
    {
      openConns := 0;
      conns := [];
      s := State(0, [], 0, 0, 0, 0);
      new;
      InitialKeeps(s);
    }

    /** The end of a successful Dial: the goroutine that counts it is started, not awaited. */
    method Dialed() returns (conn: InstrumentedConn)
      requires Valid()
      modifies this`conns, this`s
      ensures Valid() && fresh(conn) && conns == old(conns) + [conn]
      ensures s == Next(old(s), Dial)
      ensures conn.open && openConns == old(openConns)
    {
      StepKeeps(s, Dial);
      conn := new InstrumentedConn();
      conns := conns + [conn];
      s := Next(s, Dial);
    }

    /** instrumentedConn.Close: only a successful close starts the goroutine that counts it. */
    method CloseConn(conn: InstrumentedConn, ghost i: nat) returns (ok: bool)
      requires Valid() && i < |conns| && conns[i] == conn
      modifies conn, this`s
      ensures Valid() && ok == old(conn.open)
      ensures s == Next(old(s), Close(i))
      ensures !conn.open && s.decrements == old(s.decrements) + (if ok then 1 else 0)
    {
      StepKeeps(s, Close(i));
      ok := conn.CloseUnderlying();
      s := Next(s, Close(i));
    }

    method RunIncrement() returns (n: Uint64)
      requires Valid() && Enabled(s, Increment)
      modifies this`openConns, this`s
      ensures Valid() && n == openConns
      ensures s == Next(old(s), Increment)
      ensures n == (if old(openConns) == WORD - 1 then 0 else old(openConns) + 1)
    {
      StepKeeps(s, Increment);
      openConns := AddUint64(openConns, 1);
      s := Next(s, Increment);
      n := openConns;
    }

    method RunDecrement() returns (n: Uint64)
      requires Valid() && Enabled(s, Decrement)
      modifies this`openConns, this`s
      ensures Valid() && n == openConns
      ensures s == Next(old(s), Decrement)
      ensures n == (if old(openConns) == 0 then WORD - 1 else old(openConns) - 1)
    {
      StepKeeps(s, Decrement);
      openConns := AddUint64(openConns, ALL_ONES);
      s := Next(s, Decrement);
      n := openConns;
    }
  }
}
