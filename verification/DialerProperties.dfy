/** The double-checked lookup refines an atomic get-or-create, under every interleaving of Dial
    threads; and what holds of the map, the key and the caches over whole runs. */
module DialerProperties {
  import opened DialerMachine

  // ---------- reachable states ----------

  ghost predicate Reached(s: State) {
    exists option, acts :: IsRun(State(Fresh(option), []), acts) && After(State(Fresh(option), []), acts) == s
  }

  lemma {:induction false} RunOfExtension(s: State, acts: seq<Action>, a: Action)
    requires IsRun(s, acts) && Enabled(After(s, acts), a)
    ensures IsRun(s, acts + [a]) && After(s, acts + [a]) == Next(After(s, acts), a)
    decreases |acts|
  {
    if acts == [] {
      assert ([] + [a])[1..] == [] && IsRun(Next(s, a), []);
    } else {
      RunOfExtension(Next(s, acts[0]), acts[1..], a);
      assert (acts + [a])[1..] == acts[1..] + [a];
    }
  }

  lemma Extend(s: State, a: Action) returns (s': State)
    requires Reached(s) && Enabled(s, a)
    ensures s' == Next(s, a) && Reached(s')
  {
    var option, acts :| IsRun(State(Fresh(option), []), acts) && After(State(Fresh(option), []), acts) == s;
    RunOfExtension(State(Fresh(option), []), acts, a);
    s' := Next(s, a);
  }

  lemma FreshIsReached(option: KeyOption)
    ensures Reached(State(Fresh(option), []))
  {
    var s := State(Fresh(option), []);
    assert IsRun(s, []) && After(s, []) == s;
  }

  // ---------- refinement ----------

  /** A thread between the two locks has, for the specification, not begun. */
  function AbsThread(t: Thread): Thread {
    if t.Missed? then Calling(t.uri) else t
  }

  function Abs(s: State): (r: State)
    ensures r.sh == s.sh && |r.threads| == |s.threads|
    ensures forall t :: 0 <= t < |s.threads| ==> r.threads[t] == AbsThread(s.threads[t])
  {
    State(s.sh, seq(|s.threads|, t requires 0 <= t < |s.threads| => AbsThread(s.threads[t])))
  }

  /** The specification step a concrete step amounts to: a hit under the read lock is the whole
      operation, a miss is nothing yet, and the section under the write lock is the whole operation. */
  function SpecOf(s: State, a: Action): seq<SpecAction>
    requires Enabled(s, a)
  {
    match a
    case Spawn(uri) => [SpecSpawn(uri)]
    case Lookup(t) =>
      if s.threads[t].uri in s.sh.cache then [GetOrCreate(t, Err(0), Err(0))] else []
    case LockAndCreate(t, gen, built) => [GetOrCreate(t, gen, built)]
    case RemoveCached(uri, h) => [SpecRemove(uri, h)]
    case CloseAll => [SpecClose]
  }

  function SpecTrace(s: State, acts: seq<Action>): seq<SpecAction>
    requires IsRun(s, acts)
    decreases |acts|
  {
    if acts == [] then [] else SpecOf(s, acts[0]) + SpecTrace(Next(s, acts[0]), acts[1..])
  }

  lemma StepRefines(s: State, a: Action)
    requires Enabled(s, a)
    ensures IsSpecRun(Abs(s), SpecOf(s, a)) && SpecAfter(Abs(s), SpecOf(s, a)) == Abs(Next(s, a))
  {
    var spec := SpecOf(s, a);
    if spec == [] {
      assert Abs(Next(s, a)).threads == Abs(s).threads;
    } else {
      assert spec[1..] == [];
      assert SpecEnabled(Abs(s), spec[0]);
      assert SpecNext(Abs(s), spec[0]).threads == Abs(Next(s, a)).threads;
      assert SpecNext(Abs(s), spec[0]) == Abs(Next(s, a));
      assert IsSpecRun(SpecNext(Abs(s), spec[0]), spec[1..]);
    }
  }

  lemma SpecRunConcat(s: State, xs: seq<SpecAction>, ys: seq<SpecAction>)
    requires |xs| <= 1 && IsSpecRun(s, xs) && IsSpecRun(SpecAfter(s, xs), ys)
    ensures IsSpecRun(s, xs + ys) && SpecAfter(s, xs + ys) == SpecAfter(SpecAfter(s, xs), ys)
  {
    if xs == [] {
      assert xs + ys == ys;
    } else {
      assert (xs + ys)[1..] == ys && (xs + ys)[0] == xs[0] && xs[1..] == [];
      assert SpecAfter(s, xs) == SpecNext(s, xs[0]);
    }
  }

  /** Linearizability: every run of any number of threads is a run of the specification, in which
      each lookup is one atomic get-or-create taken at one of its own steps, ending in the same
      map and with the same value returned to every thread. */
  lemma {:induction false} Linearizes(s: State, acts: seq<Action>)
    requires IsRun(s, acts)
    ensures IsSpecRun(Abs(s), SpecTrace(s, acts))
    ensures SpecAfter(Abs(s), SpecTrace(s, acts)) == Abs(After(s, acts))
    decreases |acts|
  {
    if acts != [] {
      var s1 := Next(s, acts[0]);
      StepRefines(s, acts[0]);
      Linearizes(s1, acts[1..]);
      SpecRunConcat(Abs(s), SpecOf(s, acts[0]), SpecTrace(s1, acts[1..]));
    }
  }

  // ---------- what the log says ----------

  function CountInserted(log: seq<Event>, uri: Uri): nat {
    if log == [] then 0
    else
      var e := log[|log| - 1];
      CountInserted(log[..|log| - 1], uri) + (if e.Inserted? && e.uri == uri then 1 else 0)
  }

  function CountDeleted(log: seq<Event>, uri: Uri): nat {
    if log == [] then 0
    else
      var e := log[|log| - 1];
      CountDeleted(log[..|log| - 1], uri) + (if e.Deleted? && e.uri == uri then 1 else 0)
  }

  predicate Balanced(sh: Shared, uri: Uri) {
    CountInserted(sh.log, uri) == CountDeleted(sh.log, uri) + (if uri in sh.cache then 1 else 0)
  }

  /** The key, and who got it. */
  predicate Keyed(sh: Shared) {
    && sh.generated <= 1
    && (sh.generated == 1 ==> sh.once.Ran?)
    && (forall i :: 0 <= i < |sh.log| ==> sh.once == Ran(Ok(sh.log[i].handle.key)))
  }

  /** Every entry is a cache that was created for it, and each was created once. */
  predicate Numbered(sh: Shared) {
    && (forall i :: 0 <= i < |sh.log| ==> sh.log[i].handle.id < sh.created)
    && (forall i, j :: 0 <= i < j < |sh.log| && sh.log[i].Inserted? && sh.log[j].Inserted? ==>
          sh.log[i].handle.id < sh.log[j].handle.id)
    && (forall uri :: uri in sh.cache ==> Inserted(uri, sh.cache[uri]) in sh.log)
  }

  predicate Invariant(sh: Shared) {
    Keyed(sh) && Numbered(sh)
  }

  lemma CountsOfExtension(log: seq<Event>, e: Event, uri: Uri)
    ensures CountInserted(log + [e], uri) == CountInserted(log, uri) + (if e.Inserted? && e.uri == uri then 1 else 0)
    ensures CountDeleted(log + [e], uri) == CountDeleted(log, uri) + (if e.Deleted? && e.uri == uri then 1 else 0)
  {
    assert (log + [e])[..|log|] == log;
  }

  lemma CreateKeeps(sh: Shared, uri: Uri, gen: Result<int>, built: Result<()>)
    requires Invariant(sh) && uri !in sh.cache
    ensures Invariant(Create(sh, uri, gen, built).0)
  {
    var (sh', r) := Create(sh, uri, gen, built);
    if r.Ok? {
      var e := Inserted(uri, r.value);
      assert sh'.log == sh.log + [e];
      forall u | u in sh'.cache ensures Inserted(u, sh'.cache[u]) in sh'.log {
        if u == uri {
          assert sh'.log[|sh.log|] == e;
        }
      }
    }
  }

  lemma RemoveKeeps(sh: Shared, uri: Uri, h: Handle)
    requires Invariant(sh)
    ensures Invariant(Remove(sh, uri, h))
  {
    var sh' := Remove(sh, uri, h);
    if uri in sh.cache {
      var k :| 0 <= k < |sh.log| && sh.log[k] == Inserted(uri, sh.cache[uri]);
      forall u | u in sh'.cache ensures Inserted(u, sh'.cache[u]) in sh'.log {
        assert Inserted(u, sh.cache[u]) in sh.log;
      }
    }
  }

  lemma StepKeeps(s: State, a: Action)
    requires Invariant(s.sh) && Enabled(s, a)
    ensures Invariant(Next(s, a).sh)
  {
    match a
    case LockAndCreate(t, gen, built) =>
      if s.threads[t].uri !in s.sh.cache {
        CreateKeeps(s.sh, s.threads[t].uri, gen, built);
      }
    case RemoveCached(uri, h) =>
      RemoveKeeps(s.sh, uri, h);
    case _ =>
  }

  lemma CreateKeepsBalance(sh: Shared, u: Uri, gen: Result<int>, built: Result<()>, uri: Uri)
    requires Balanced(sh, uri) && u !in sh.cache
    ensures Balanced(Create(sh, u, gen, built).0, uri)
  {
    var (sh', r) := Create(sh, u, gen, built);
    if r.Ok? {
      CountsOfExtension(sh.log, Inserted(u, r.value), uri);
    }
  }

  lemma RemoveKeepsBalance(sh: Shared, u: Uri, h: Handle, uri: Uri)
    requires Balanced(sh, uri)
    ensures Balanced(Remove(sh, u, h), uri)
  {
    if u in sh.cache {
      CountsOfExtension(sh.log, Deleted(u, sh.cache[u]), uri);
    }
  }

  lemma StepKeepsBalance(s: State, a: Action, uri: Uri)
    requires Balanced(s.sh, uri) && Enabled(s, a)
    ensures Balanced(Next(s, a).sh, uri)
  {
    match a
    case LockAndCreate(t, gen, built) =>
      if s.threads[t].uri !in s.sh.cache {
        CreateKeepsBalance(s.sh, s.threads[t].uri, gen, built, uri);
      }
    case RemoveCached(u, h) =>
      RemoveKeepsBalance(s.sh, u, h, uri);
    case _ =>
  }

  lemma {:induction false} RunKeeps(s: State, acts: seq<Action>)
    requires Invariant(s.sh) && IsRun(s, acts)
    ensures Invariant(After(s, acts).sh)
    decreases |acts|
  {
    if acts != [] {
      StepKeeps(s, acts[0]);
      RunKeeps(Next(s, acts[0]), acts[1..]);
    }
  }

  lemma {:induction false} RunKeepsBalance(s: State, acts: seq<Action>, uri: Uri)
    requires Balanced(s.sh, uri) && IsRun(s, acts)
    ensures Balanced(After(s, acts).sh, uri)
    decreases |acts|
  {
    if acts != [] {
      StepKeepsBalance(s, acts[0], uri);
      RunKeepsBalance(Next(s, acts[0]), acts[1..], uri);
    }
  }

  /** For every instance, the caches inserted are the removals that found one, plus the one that is
      there now, if any: no two threads ever create a cache for the same gap. */
  lemma InsertionsMatchRemovals(option: KeyOption, acts: seq<Action>, uri: Uri)
    requires IsRun(State(Fresh(option), []), acts)
    ensures var sh := After(State(Fresh(option), []), acts).sh;
            CountInserted(sh.log, uri) == CountDeleted(sh.log, uri) + (if uri in sh.cache then 1 else 0)
  {
    RunKeepsBalance(State(Fresh(option), []), acts, uri);
  }

  // Once the key is there it does not change, and a key that was given is never generated.
  lemma {:induction false} OnceIsForever(s: State, acts: seq<Action>)
    requires IsRun(s, acts) && s.sh.once.Ran?
    ensures After(s, acts).sh.once == s.sh.once && After(s, acts).sh.generated == s.sh.generated
    decreases |acts|
  {
    if acts != [] {
      OnceIsForever(Next(s, acts[0]), acts[1..]);
    }
  }

  // A key made on demand is what genFunc returned the first time the run called it.
  lemma {:induction false} MadeByRun(s: State, acts: seq<Action>)
    requires IsRun(s, acts) && s.sh.once.NotRun? && s.sh.generated == 0
    ensures var sh := After(s, acts).sh;
            && sh.generated == (if sh.once.Ran? then 1 else 0)
            && (sh.once.Ran? ==> exists k :: 0 <= k < |acts| && acts[k].LockAndCreate? && acts[k].gen == sh.once.result)
    decreases |acts|
  {
    if acts != [] {
      var s1 := Next(s, acts[0]);
      if s1.sh.once.Ran? {
        assert acts[0].LockAndCreate? && acts[0].gen == s1.sh.once.result;
        OnceIsForever(s1, acts[1..]);
      } else {
        MadeByRun(s1, acts[1..]);
        var sh := After(s1, acts[1..]).sh;
        if sh.once.Ran? {
          var k :| 0 <= k < |acts[1..]| && acts[1..][k].LockAndCreate? && acts[1..][k].gen == sh.once.result;
          assert acts[k + 1] == acts[1..][k];
        }
      }
    }
  }

  /** The key generator runs at most once over a whole run, not at all if a key was provided, and
      every cache ever created was given the same key: the one provided or made at the start, or else
      the one that genFunc returned when the run called it. */
  lemma OneKey(option: KeyOption, acts: seq<Action>)
    requires IsRun(State(Fresh(option), []), acts)
    ensures var sh := After(State(Fresh(option), []), acts).sh;
            && sh.generated <= 1
            && (option.Provided? ==> sh.generated == 0)
            && (option.Eager? ==> sh.generated == 1)
            && (forall i, j :: 0 <= i < j < |sh.log| ==> sh.log[i].handle.key == sh.log[j].handle.key)
            && (!option.OnDemand? ==> forall i :: 0 <= i < |sh.log| ==> sh.log[i].handle.key == option.key)
            && (option.OnDemand? && sh.log != [] ==>
                  && sh.generated == 1
                  && exists k :: 0 <= k < |acts| && acts[k].LockAndCreate? && acts[k].gen == Ok(sh.log[0].handle.key))
  {
    var s := State(Fresh(option), []);
    RunKeeps(s, acts);
    var sh := After(s, acts).sh;
    if option.OnDemand? {
      MadeByRun(s, acts);
      assert sh.log != [] ==> sh.once == Ran(Ok(sh.log[0].handle.key));
    } else {
      OnceIsForever(s, acts);
    }
    forall i, j | 0 <= i < j < |sh.log| ensures sh.log[i].handle.key == sh.log[j].handle.key {
      assert sh.once == Ran(Ok(sh.log[i].handle.key)) == Ran(Ok(sh.log[j].handle.key));
    }
  }

  predicate NeverRemoves(acts: seq<Action>, uri: Uri) {
    forall i :: 0 <= i < |acts| && acts[i].RemoveCached? ==> acts[i].uri != uri
  }

  /** Without a removal in between, all callers of one instance share one cache: an entry stays, and
      whoever returns later returns it. */
  lemma {:induction false} CallersShareOneCache(s: State, acts: seq<Action>, uri: Uri, t: nat)
    requires IsRun(s, acts) && uri in s.sh.cache && NeverRemoves(acts, uri)
    requires t < |s.threads| && s.threads[t].uri == uri
    ensures uri in After(s, acts).sh.cache && After(s, acts).sh.cache[uri] == s.sh.cache[uri]
    ensures t < |After(s, acts).threads|
    ensures !s.threads[t].Returned? && After(s, acts).threads[t].Returned? ==>
              After(s, acts).threads[t].result == Ok(s.sh.cache[uri])
    decreases |acts|
  {
    if acts != [] {
      var s1 := Next(s, acts[0]);
      assert NeverRemoves(acts[1..], uri);
      assert s1.threads[t].uri == uri;
      CallersShareOneCache(s1, acts[1..], uri, t);
      if s1.threads[t].Returned? {
        ReturnedStays(s1, acts[1..], t);
      }
    }
  }

  lemma {:induction false} ReturnedStays(s: State, acts: seq<Action>, t: nat)
    requires IsRun(s, acts) && t < |s.threads| && s.threads[t].Returned?
    ensures t < |After(s, acts).threads| && After(s, acts).threads[t] == s.threads[t]
    decreases |acts|
  {
    if acts != [] {
      ReturnedStays(Next(s, acts[0]), acts[1..], t);
    }
  }

  // ---------- the single sections ----------

  /** The section under the write lock. An entry that appeared meanwhile is returned and nothing
      changes. Otherwise the key is the one the generator holds, or the one it now makes; a failure to
      make it or to build the cache is returned and leaves the map alone; and a new cache with that key
      becomes the entry, and no other entry changes. */
  lemma SectionCreates(s: State, t: nat, gen: Result<int>, built: Result<()>)
    requires Enabled(s, LockAndCreate(t, gen, built))
    ensures var s' := Next(s, LockAndCreate(t, gen, built));
            var uri, once := s.threads[t].uri, if s.sh.once.NotRun? then Ran(gen) else s.sh.once;
            && |s'.threads| == |s.threads| && s'.threads[t].Returned? && s'.threads[t].uri == uri
            && s'.sh.shut == s.sh.shut
            && (uri in s.sh.cache ==> s'.threads[t].result == Ok(s.sh.cache[uri]) && s'.sh == s.sh)
            && (uri !in s.sh.cache ==> s'.sh.once == once)
            && (uri !in s.sh.cache && (once.result.Err? || built.Err?) ==>
                  && s'.threads[t].result == Err(if once.result.Err? then once.result.code else built.code)
                  && s'.sh.cache == s.sh.cache && s'.sh.created == s.sh.created && s'.sh.log == s.sh.log)
            && (uri !in s.sh.cache && once.result.Ok? && built.Ok? ==>
                  var h := Handle(s.sh.created, once.result.value);
                  && s'.threads[t].result == Ok(h)
                  && s'.sh.cache == s.sh.cache[uri := h] && s'.sh.created == s.sh.created + 1)
  {
  }

  /** removeCached deletes the entry and closes the caller's cache, whichever cache the entry held, and
      changes nothing else. */
  lemma RemovalDeletes(s: State, uri: Uri, h: Handle)
    requires Enabled(s, RemoveCached(uri, h))
    ensures var s' := Next(s, RemoveCached(uri, h));
            && uri !in s'.sh.cache
            && s'.sh.cache == s.sh.cache - {uri}
            && s'.sh.shut == s.sh.shut + {h.id}
            && s'.sh.created == s.sh.created && s'.sh.once == s.sh.once && s'.threads == s.threads
  {
  }

  // From now on an entry for `uri` can only be a cache numbered n or later.
  lemma {:induction false} LaterIsNew(s: State, acts: seq<Action>, uri: Uri, n: nat, t: nat)
    requires IsRun(s, acts) && n <= s.sh.created && (uri in s.sh.cache ==> n <= s.sh.cache[uri].id)
    requires t < |s.threads| ==> !s.threads[t].Returned?
    requires t < |After(s, acts).threads| && After(s, acts).threads[t].uri == uri
    ensures var end := After(s, acts).threads[t];
            end.Returned? && end.result.Ok? ==> n <= end.result.value.id
    decreases |acts|
  {
    if acts != [] {
      var s1 := Next(s, acts[0]);
      if t < |s1.threads| && s1.threads[t].Returned? {
        ReturnedStays(s1, acts[1..], t);
      } else {
        LaterIsNew(s1, acts[1..], uri, n, t);
      }
    }
  }

  /** After a removal, whoever returns later for that instance, in any continuation, gets a cache that
      was created after the removal: never the removed one. */
  lemma RemovedIsNeverReturned(s: State, uri: Uri, h: Handle, acts: seq<Action>, t: nat)
    requires Enabled(s, RemoveCached(uri, h)) && IsRun(Next(s, RemoveCached(uri, h)), acts)
    requires t < |s.threads| ==> !s.threads[t].Returned?
    ensures var end := After(Next(s, RemoveCached(uri, h)), acts);
            t < |end.threads| && end.threads[t].uri == uri && end.threads[t].Returned? && end.threads[t].result.Ok? ==>
              s.sh.created <= end.threads[t].result.value.id
  {
    RemovalDeletes(s, uri, h);
    var s1 := Next(s, RemoveCached(uri, h));
    if t < |After(s1, acts).threads| && After(s1, acts).threads[t].uri == uri {
      LaterIsNew(s1, acts, uri, s.sh.created, t);
    }
  }

  // ---------- caches that leave the map ----------

  /** Every cache that is not in the map has been closed. */
  ghost predicate NoStray(sh: Shared) {
    forall id: nat :: id < sh.created && Running(sh, id) ==> HasEntry(sh, id)
  }

  predicate Running(sh: Shared, id: nat) {
    id !in sh.shut
  }

  lemma EntriesDiffer(sh: Shared, u: Uri, v: Uri)
    requires Numbered(sh) && u in sh.cache && v in sh.cache && u != v
    ensures sh.cache[u].id != sh.cache[v].id
  {
    var j :| 0 <= j < |sh.log| && sh.log[j] == Inserted(u, sh.cache[u]);
    var k :| 0 <= k < |sh.log| && sh.log[k] == Inserted(v, sh.cache[v]);
    assert j < k || k < j;
  }

  predicate HasEntry(sh: Shared, id: nat) {
    exists uri :: uri in sh.cache && sh.cache[uri].id == id
  }

  /** The entry that a removal would delete is the caller's own cache, or has been closed. */
  predicate RemovesOwn(sh: Shared, uri: Uri, h: Handle) {
    uri in sh.cache ==> sh.cache[uri].id == h.id || sh.cache[uri].id in sh.shut
  }

  /** removeCached closes the cache its caller holds but deletes whatever entry is there. It leaves
      a running cache outside the map if and only if that entry is another cache, still running. */
  lemma RemovalStraysIff(sh: Shared, uri: Uri, h: Handle)
    requires Invariant(sh) && NoStray(sh) && h.id < sh.created
    ensures NoStray(Remove(sh, uri, h)) <==> RemovesOwn(sh, uri, h)
  {
    var sh' := Remove(sh, uri, h);
    if uri in sh.cache && sh.cache[uri].id != h.id && sh.cache[uri].id !in sh.shut {
      var mine := sh.cache[uri].id;
      var k :| 0 <= k < |sh.log| && sh.log[k] == Inserted(uri, sh.cache[uri]);
      forall u | u in sh'.cache ensures sh'.cache[u].id != mine {
        EntriesDiffer(sh, u, uri);
      }
      assert mine < sh'.created && Running(sh', mine) && !HasEntry(sh', mine);
    } else {
      forall id: nat | id < sh'.created && Running(sh', id) ensures HasEntry(sh', id) {
        assert Running(sh, id) && HasEntry(sh, id);
        var u :| u in sh.cache && sh.cache[u].id == id;
        assert u in sh'.cache;
      }
    }
  }

  // Only a removal can leave one behind.
  lemma OthersKeepNoStray(s: State, a: Action)
    requires Enabled(s, a) && NoStray(s.sh) && !a.RemoveCached?
    ensures NoStray(Next(s, a).sh)
  {
    var sh, sh' := s.sh, Next(s, a).sh;
    forall id: nat | id < sh'.created && Running(sh', id) ensures HasEntry(sh', id) {
      if id < sh.created {
        assert Running(sh, id);
        var u :| u in sh.cache && sh.cache[u].id == id;
        assert sh'.cache[u] == sh.cache[u];
      } else {
        assert sh'.cache[s.threads[a.t].uri].id == id;
      }
    }
  }

  /** Every removal of the run deletes its caller's own cache, or one that has been closed. */
  predicate RemovalsOwn(s: State, acts: seq<Action>)
    requires IsRun(s, acts)
    decreases |acts|
  {
    acts == [] ||
    (&& (acts[0].RemoveCached? ==> RemovesOwn(s.sh, acts[0].uri, acts[0].h))
     && RemovalsOwn(Next(s, acts[0]), acts[1..]))
  }

  ghost predicate NeverStray(s: State, acts: seq<Action>)
    requires IsRun(s, acts)
    decreases |acts|
  {
    NoStray(s.sh) && (acts != [] ==> NeverStray(Next(s, acts[0]), acts[1..]))
  }

  lemma {:induction false} NeverStrayFrom(s: State, acts: seq<Action>)
    requires IsRun(s, acts) && Invariant(s.sh) && NoStray(s.sh)
    ensures NeverStray(s, acts) <==> RemovalsOwn(s, acts)
    decreases |acts|
  {
    if acts != [] {
      var a, s1 := acts[0], Next(s, acts[0]);
      StepKeeps(s, a);
      if a.RemoveCached? {
        RemovalStraysIff(s.sh, a.uri, a.h);
      } else {
        OthersKeepNoStray(s, a);
      }
      if NoStray(s1.sh) {
        NeverStrayFrom(s1, acts[1..]);
      }
    }
  }

  /** Dialer.Close closes the caches in the map, those and no others. */
  lemma CloseAllCloses(s: State, id: nat)
    ensures Enabled(s, CloseAll)
    ensures var s' := Next(s, CloseAll);
            && (id in s'.sh.shut <==> id in s.sh.shut || HasEntry(s.sh, id))
            && s'.sh.cache == s.sh.cache && s'.sh.created == s.sh.created && s'.threads == s.threads
  {
  }

  /** So it leaves no cache running if and only if none was left outside the map before. */
  lemma CloseAllIsEnoughIff(s: State)
    ensures (forall id: nat :: id < s.sh.created ==> !Running(Next(s, CloseAll).sh, id)) <==> NoStray(s.sh)
  {
    var sh' := Next(s, CloseAll).sh;
    forall id: nat ensures Running(sh', id) <==> Running(s.sh, id) && !HasEntry(s.sh, id) {
      CloseAllCloses(s, id);
    }
    if forall id: nat :: id < s.sh.created ==> !Running(sh', id) {
      forall id: nat | id < s.sh.created && Running(s.sh, id) ensures HasEntry(s.sh, id) {
        assert !Running(sh', id);
      }
    }
  }

  /** Over a whole run from a new Dialer, no cache ever runs on outside the map if and only if every
      removal deletes its caller's own cache, or one that has been closed. */
  lemma NeverStrayIff(option: KeyOption, acts: seq<Action>)
    requires IsRun(State(Fresh(option), []), acts)
    ensures NeverStray(State(Fresh(option), []), acts) <==> RemovalsOwn(State(Fresh(option), []), acts)
  {
    NeverStrayFrom(State(Fresh(option), []), acts);
  }

  // A Dial that finds no entry and creates one, on its own.
  lemma DialCreates(s: State, uri: Uri) returns (s': State)
    requires Reached(s) && uri !in s.sh.cache && s.sh.once == Ran(Ok(7))
    ensures Reached(s')
    ensures var h := Handle(s.sh.created, 7);
            && s'.threads == s.threads + [Returned(uri, Ok(h))]
            && s'.sh == s.sh.(cache := s.sh.cache[uri := h], created := s.sh.created + 1,
                              log := s.sh.log + [Inserted(uri, h)])
  {
    var t := |s.threads|;
    s' := Extend(s, Spawn(uri));
    s' := Extend(s', Lookup(t));
    s' := Extend(s', LockAndCreate(t, Err(0), Ok(())));
    assert s'.threads == s.threads + [Returned(uri, Ok(Handle(s.sh.created, 7)))];
  }

  /** The failing side occurs when Dials overlap: two threads hold the same cache, the first removes
      it, a third puts a new one in its place, and the second's removal then deletes that one. */
  lemma OverlappingDialsStray(uri: Uri) returns (s: State, h: Handle)
    ensures Reached(s) && NoStray(s.sh) && Enabled(s, RemoveCached(uri, h))
    ensures |s.threads| == 3 && s.threads[1] == Returned(uri, Ok(h))
    ensures !NoStray(Next(s, RemoveCached(uri, h)).sh)
  {
    s := State(Fresh(Provided(7)), []);
    FreshIsReached(Provided(7));
    h := Handle(0, 7);
    s := DialCreates(s, uri);
    s := Extend(s, Spawn(uri));
    s := Extend(s, Lookup(1));
    s := Extend(s, RemoveCached(uri, h));
    s := DialCreates(s, uri);
    var sh := s.sh;
    assert sh.cache[uri] == Handle(1, 7) && sh.shut == {0} && sh.created == 2;
    assert HasEntry(sh, 1);
    forall id: nat | id < sh.created && Running(sh, id) ensures HasEntry(sh, id) {
      assert id == 1;
    }
    var sh' := Next(s, RemoveCached(uri, h)).sh;
    assert Running(sh', 1) && !HasEntry(sh', 1) && 1 < sh'.created;
  }
}
