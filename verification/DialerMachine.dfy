/** The Dialer's shared map of connection info caches, as a machine over the critical sections of
    connectionInfoCache and removeCached. Any number of Dial threads interleave. */
module DialerMachine {
  import InstanceUri

  type Uri = InstanceUri.InstanceURI

  datatype Result<T> = Ok(value: T) | Err(code: int)

  /** A cache that was created: which one, and the RSA key it was given. */
  datatype Handle = Handle(id: nat, key: int)

  // keyGenerator: its sync.Once has not run, or it holds what the first run stored.
  datatype Once = NotRun | Ran(result: Result<int>)

  // Creations and removals of an entry, in order.
  datatype Event = Inserted(uri: Uri, handle: Handle) | Deleted(uri: Uri, handle: Handle)

  datatype Shared = Shared(
    cache: map<Uri, Handle>,
    once: Once,
    generated: nat,        // times genFunc was called
    created: nat,          // caches created so far; the next one gets this number
    shut: set<nat>,        // caches whose Close was called
    log: seq<Event>)

  /** What newKeyGenerator can leave behind. */
  datatype KeyOption = Provided(key: int) | OnDemand | Eager(key: int)

  function Fresh(option: KeyOption): Shared {
    var once := if option.OnDemand? then NotRun else Ran(Ok(option.key));
    Shared(map[], once, if option.Eager? then 1 else 0, 0, {}, [])
  }

  /** keyGenerator.rsaKey; `gen` is what genFunc would return. */
  function RunOnce(sh: Shared, gen: Result<int>): Shared {
    if sh.once.NotRun? then sh.(once := Ran(gen), generated := sh.generated + 1) else sh
  }

  /** The part of connectionInfoCache that runs when no entry was found. `built` is whether the
      cache's constructor succeeds, which only a static one can fail to do. */
  function Create(sh: Shared, uri: Uri, gen: Result<int>, built: Result<()>): (Shared, Result<Handle>) {
    var s1 := RunOnce(sh, gen);
    match s1.once.result
    case Err(code) => (s1, Err(code))
    case Ok(key) =>
      match built
      case Err(code) => (s1, Err(code))
      case Ok(_) =>
        var h := Handle(s1.created, key);
        (s1.(cache := s1.cache[uri := h], created := s1.created + 1, log := s1.log + [Inserted(uri, h)]),
         Ok(h))
  }

  /** removeCached: closes the cache the caller holds and deletes whatever entry is there. */
  function Remove(sh: Shared, uri: Uri, h: Handle): Shared {
    var s1 := sh.(shut := sh.shut + {h.id});
    if uri in sh.cache then
      s1.(cache := sh.cache - {uri}, log := sh.log + [Deleted(uri, sh.cache[uri])])
    else
      s1
  }

  // Dialer.Close, past the closed check.
  function Shut(sh: Shared): Shared {
    sh.(shut := sh.shut + set uri | uri in sh.cache :: sh.cache[uri].id)
  }

  // ---------- the threads ----------

  datatype Thread =
    | Calling(uri: Uri)                              // before the read lock
    | Missed(uri: Uri)                               // between the two locks
    | Returned(uri: Uri, result: Result<Handle>)

  datatype State = State(sh: Shared, threads: seq<Thread>)

  datatype Action =
    | Spawn(uri: Uri)
    | Lookup(t: nat)
    | LockAndCreate(t: nat, gen: Result<int>, built: Result<()>)
    | RemoveCached(uri: Uri, h: Handle)
    | CloseAll

  predicate Enabled(s: State, a: Action) {
    match a
    case Spawn(_) => true
    case Lookup(t) => t < |s.threads| && s.threads[t].Calling?
    case LockAndCreate(t, _, _) => t < |s.threads| && s.threads[t].Missed?
    case RemoveCached(_, h) => h.id < s.sh.created
    case CloseAll => true
  }

  function Next(s: State, a: Action): State
    requires Enabled(s, a)
  {
    match a
    case Spawn(uri) => s.(threads := s.threads + [Calling(uri)])
    case Lookup(t) =>
      var uri := s.threads[t].uri;
      if uri in s.sh.cache then
        s.(threads := s.threads[t := Returned(uri, Ok(s.sh.cache[uri]))])
      else
        s.(threads := s.threads[t := Missed(uri)])
    case LockAndCreate(t, gen, built) =>
      var uri := s.threads[t].uri;
      if uri in s.sh.cache then
        s.(threads := s.threads[t := Returned(uri, Ok(s.sh.cache[uri]))])
      else
        var (sh, r) := Create(s.sh, uri, gen, built);
        State(sh, s.threads[t := Returned(uri, r)])
    case RemoveCached(uri, h) => s.(sh := Remove(s.sh, uri, h))
    case CloseAll => s.(sh := Shut(s.sh))
  }

  predicate IsRun(s: State, acts: seq<Action>)
    decreases |acts|
  {
    acts == [] || (Enabled(s, acts[0]) && IsRun(Next(s, acts[0]), acts[1..]))
  }

  function After(s: State, acts: seq<Action>): State
    requires IsRun(s, acts)
    decreases |acts|
  {
    if acts == [] then s else After(Next(s, acts[0]), acts[1..])
  }

  // ---------- the atomic specification ----------

  /** In the specification a call of connectionInfoCache is one indivisible step. */
  datatype SpecAction =
    | SpecSpawn(uri: Uri)
    | GetOrCreate(t: nat, gen: Result<int>, built: Result<()>)
    | SpecRemove(uri: Uri, h: Handle)
    | SpecClose

  predicate SpecEnabled(s: State, a: SpecAction) {
    match a
    case GetOrCreate(t, _, _) => t < |s.threads| && s.threads[t].Calling?
    case SpecRemove(_, h) => h.id < s.sh.created
    case _ => true
  }

  function SpecNext(s: State, a: SpecAction): State
    requires SpecEnabled(s, a)
  {
    match a
    case SpecSpawn(uri) => s.(threads := s.threads + [Calling(uri)])
    case GetOrCreate(t, gen, built) =>
      var uri := s.threads[t].uri;
      var (sh, r) := if uri in s.sh.cache then (s.sh, Ok(s.sh.cache[uri])) else Create(s.sh, uri, gen, built);
      State(sh, s.threads[t := Returned(uri, r)])
    case SpecRemove(uri, h) => s.(sh := Remove(s.sh, uri, h))
    case SpecClose => s.(sh := Shut(s.sh))
  }

  predicate IsSpecRun(s: State, acts: seq<SpecAction>)
    decreases |acts|
  {
    acts == [] || (SpecEnabled(s, acts[0]) && IsSpecRun(SpecNext(s, acts[0]), acts[1..]))
  }

  function SpecAfter(s: State, acts: seq<SpecAction>): State
    requires IsSpecRun(s, acts)
    decreases |acts|
  {
    if acts == [] then s else SpecAfter(SpecNext(s, acts[0]), acts[1..])
  }
}
