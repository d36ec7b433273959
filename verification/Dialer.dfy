/** The Dialer's map, its key generator and the caches themselves as objects. Each critical section
    is one method, proved to be the corresponding step of DialerMachine. */
module Dialer {
  import opened DialerMachine
  import opened DialerProperties
  import opened Wrappers

  /** keyGenerator: `done` is whether its sync.Once has run. */
  class KeyGenerator {
    var done: bool
    var key: Option<int>
    var err: Option<int>

    ghost predicate Holds(once: Once)
      reads this
    {
      match once
      case NotRun => !done && key == None && err == None
      case Ran(Ok(k)) => done && key == Some(k) && err == None
      case Ran(Err(e)) => done && err == Some(e)
    }

    constructor ()
      ensures Holds(NotRun)
    {
      done := false;
      key, err := None, None;
    }

    /** g.once.Do: stores the outcome of the first generation and ignores every later one. */
    method Do(gen: Result<int>, ghost once: Once)
      requires Holds(once)
      modifies this
      ensures Holds(if once.NotRun? then Ran(gen) else once)
    {
      if !done {
        done := true;
        match gen {
          case Ok(k) => key, err := Some(k), None;
          case Err(e) => key, err := None, Some(e);
        }
      }
    }

    /** rsaKey: whatever the once holds, after running it if need be. */
    method RsaKey(gen: Result<int>, ghost once: Once) returns (r: Result<int>)
      requires Holds(once)
      modifies this
      ensures Holds(if once.NotRun? then Ran(gen) else once)
      ensures r == if once.NotRun? then gen else once.result
    {
      Do(gen, once);
      r := if err.Some? then Err(err.value) else Ok(key.value);
    }
  }

  /** newKeyGenerator: a provided key uses up the once, lazy mode leaves it, otherwise the key is
      generated here and a failure is reported. */
  method NewKeyGenerator(k: Option<int>, lazy: bool, gen: Result<int>) returns (g: KeyGenerator, err: Option<int>)
    ensures fresh(g)
    ensures k.Some? ==> err == None && g.Holds(Ran(Ok(k.value)))
    ensures k.None? && lazy ==> err == None && g.Holds(NotRun)
    ensures k.None? && !lazy ==> g.Holds(Ran(gen)) && err == if gen.Err? then Some(gen.code) else None
    ensures k.Some? ==> g.Holds(Fresh(Provided(k.value)).once)
    ensures k.None? && lazy ==> g.Holds(Fresh(OnDemand).once)
    ensures k.None? && !lazy && gen.Ok? ==> g.Holds(Fresh(Eager(gen.value)).once)
  {
    g := new KeyGenerator();
    if k.Some? {
      g.Do(Ok(k.value), NotRun);
    } else if lazy {
    } else {
      g.Do(gen, NotRun);
    }
    err := g.err;
  }

  class ConnectionInfoCache {
    const key: int
    var closed: bool

    constructor (key: int)
      ensures this.key == key && !closed
    {
      this.key := key;
      closed := false;
    }
  }

  class Dialer {
    var cache: map<Uri, ConnectionInfoCache>
    const keyGenerator: KeyGenerator

    ghost var created: seq<ConnectionInfoCache>   // every cache this dialer ever created
    ghost var s: State                       // the machine state this dialer is in

    /** `c` is the cache that handle `h` stands for. */
    ghost predicate IsCache(c: ConnectionInfoCache, h: Handle)
      reads this
    {
      h.id < |created| && created[h.id] == c && c.key == h.key
    }

    /** The real fields are those of machine state `s`. */
    ghost predicate Represents()
      reads this, keyGenerator, created
    {
      && keyGenerator.Holds(s.sh.once)
      && |created| == s.sh.created
      && cache.Keys == s.sh.cache.Keys
      && (forall uri :: uri in cache ==> IsCache(cache[uri], s.sh.cache[uri]))
      && (forall i, j :: 0 <= i < j < |created| ==> created[i] != created[j])
      && (forall i :: i in s.sh.shut ==> i < |created|)
      && (forall i :: 0 <= i < |created| ==> (created[i].closed <==> i in s.sh.shut))
    }

    /** The dialer is in a state that some run of the machine reaches. */
    ghost predicate Valid()
      reads this, keyGenerator, created
    {
      Represents() && Reached(s)
    }

    constructor (g: KeyGenerator, ghost option: KeyOption)
      requires g.Holds(Fresh(option).once)
      ensures Valid() && s == State(Fresh(option), []) && keyGenerator == g
    {
      cache := map[];
      keyGenerator := g;
      created := [];
      s := State(Fresh(option), []);
      new;
      FreshIsReached(option);
    }

    /** A thread enters connectionInfoCache. */
    ghost method Begin(uri: Uri)
      requires Valid()
      modifies this`s
      ensures Valid() && s == Next(old(s), Spawn(uri))
    {
      ghost var after := Extend(s, Spawn(uri));
      s := after;
    }

    /** Thread t in the section under the read lock. */
    method Find(uri: Uri, ghost t: nat) returns (c: Option<ConnectionInfoCache>)
      requires Valid() && Enabled(s, Lookup(t)) && s.threads[t].uri == uri
      modifies this`s
      ensures Valid() && s == Next(old(s), Lookup(t))
      ensures c.Some? <==> s.threads[t].Returned?
      ensures c.Some? ==> IsCache(c.value, s.threads[t].result.value)
      ensures c == if uri in cache then Some(cache[uri]) else None
    {
      ghost var after := Extend(s, Lookup(t));
      c := if uri in cache then Some(cache[uri]) else None;
      s := after;
    }

    /** Thread t in the section under the write lock, with its recheck. */
    method FindOrCreate(uri: Uri, gen: Result<int>, built: Result<()>, ghost t: nat) returns (r: Result<ConnectionInfoCache>)
      requires Valid() && Enabled(s, LockAndCreate(t, gen, built)) && s.threads[t].uri == uri
      modifies this, keyGenerator
      ensures Valid() && old(created) <= created && fresh(created[|old(created)|..])
      ensures s == Next(old(s), LockAndCreate(t, gen, built))
      ensures match s.threads[t].result
              case Ok(h) => r.Ok? && IsCache(r.value, h)
              case Err(code) => r == Err(code)
      ensures uri in old(cache) ==> r == Ok(old(cache)[uri]) && cache == old(cache)
      ensures uri !in old(cache) && r.Ok? ==> fresh(r.value) && cache == old(cache)[uri := r.value]
      ensures r.Err? ==> cache == old(cache)
    {
      ghost var after := Extend(s, LockAndCreate(t, gen, built));
      if uri in cache {
        s := after;
        return Ok(cache[uri]);
      }
      r := Make(uri, gen, built, t);
    }

    // The recheck found nothing either.
    method Make(uri: Uri, gen: Result<int>, built: Result<()>, ghost t: nat) returns (r: Result<ConnectionInfoCache>)
      requires Represents() && uri !in cache
      requires Enabled(s, LockAndCreate(t, gen, built)) && s.threads[t].uri == uri
      modifies this, keyGenerator
      ensures Represents() && old(created) <= created && fresh(created[|old(created)|..])
      ensures s == Next(old(s), LockAndCreate(t, gen, built))
      ensures match s.threads[t].result
              case Ok(h) => r.Ok? && IsCache(r.value, h)
              case Err(code) => r == Err(code)
      ensures r.Ok? ==> fresh(r.value) && cache == old(cache)[uri := r.value]
      ensures r.Err? ==> cache == old(cache)
    {
      ghost var after := Next(s, LockAndCreate(t, gen, built));
      var k := keyGenerator.RsaKey(gen, s.sh.once);
      s := s.(sh := RunOnce(s.sh, gen));
      if k.Err? {
        s := after;
        return Err(k.code);
      }
      if built.Err? {
        s := after;
        return Err(built.code);
      }
      var c := Insert(uri, k.value, after);
      r := Ok(c);
    }

    // The cache itself, under its key.
    method Insert(uri: Uri, key: int, ghost after: State) returns (c: ConnectionInfoCache)
      requires Represents() && uri !in cache
      requires var h := Handle(s.sh.created, key);
               after == State(s.sh.(cache := s.sh.cache[uri := h], created := s.sh.created + 1, log := after.sh.log),
                              after.threads)
      modifies this
      ensures Represents() && s == after
      ensures fresh(c) && created == old(created) + [c] && IsCache(c, Handle(old(s).sh.created, key))
      ensures cache == old(cache)[uri := c]
    {
      c := new ConnectionInfoCache(key);
      cache := cache[uri := c];
      created := created + [c];
      s := after;
    }

    /** removeCached, on the cache that handle `h` stands for. */
    method Remove(uri: Uri, c: ConnectionInfoCache, ghost h: Handle)
      requires Valid() && IsCache(c, h)
      modifies this, c
      ensures Valid() && created == old(created)
      ensures s == Next(old(s), RemoveCached(uri, h))
      ensures cache == old(cache) - {uri} && c.closed
    {
      ghost var after := Extend(s, RemoveCached(uri, h));
      CloseCache(c, h);
      DeleteEntry(uri, after);
    }

    method DeleteEntry(uri: Uri, ghost after: State)
      requires Represents()
      requires after == State(s.sh.(cache := s.sh.cache - {uri}, log := after.sh.log), after.threads)
      modifies this`cache, this`s
      ensures Represents() && s == after && cache == old(cache) - {uri}
    {
      cache := cache - {uri};
      s := after;
    }

    // The Close of one cache.
    method CloseCache(c: ConnectionInfoCache, ghost h: Handle)
      requires Represents() && IsCache(c, h)
      modifies this`s, c
      ensures Represents()
      ensures s == old(s).(sh := old(s).sh.(shut := old(s).sh.shut + {h.id}))
    {
      c.closed := true;
      s := s.(sh := s.sh.(shut := s.sh.shut + {h.id}));
    }

    /** The locked part of Close: every cache in the map is closed; the map is left as it is. */
    method Close()
      requires Valid()
      modifies this`s, created
      ensures Valid()
      ensures s == Next(old(s), CloseAll)
      ensures forall uri :: uri in cache ==> cache[uri].closed
    {
      ghost var after := Extend(s, CloseAll);
      CloseEach();
    }

    // Close has yet to close the caches of the instances in `todo`; nothing else has changed.
    ghost predicate HasYet(was: State, todo: set<Uri>)
      reads this
    {
      && todo <= cache.Keys == was.sh.cache.Keys
      && s == was.(sh := was.sh.(shut := was.sh.shut + Ids(was.sh.cache, cache.Keys - todo)))
    }

    // One turn of Close's loop.
    method CloseNext(todo: set<Uri>, ghost was: State) returns (rest: set<Uri>)
      requires Represents() && HasYet(was, todo) && todo != {}
      modifies this`s, created
      ensures Represents() && HasYet(was, rest) && rest < todo
    {
      var uri :| uri in todo;
      CloseCache(cache[uri], s.sh.cache[uri]);
      rest := todo - {uri};
      IdsOfMore(was.sh.cache, cache.Keys - todo, uri);
      assert cache.Keys - todo + {uri} == cache.Keys - rest;
    }

    method CloseEach()
      requires Represents()
      modifies this`s, created
      ensures Represents()
      ensures s == Next(old(s), CloseAll)
    {
      ghost var was := s;
      var todo := cache.Keys;
      assert s.sh.shut == s.sh.shut + Ids(s.sh.cache, {});
      while todo != {}
        invariant Represents() && HasYet(was, todo)
        decreases todo
      {
        todo := CloseNext(todo, was);
      }
      AllIds(was, s);
    }
  }

  lemma AllIds(was: State, s: State)
    requires s == was.(sh := was.sh.(shut := was.sh.shut + Ids(was.sh.cache, was.sh.cache.Keys)))
    ensures s == Next(was, CloseAll)
  {
    assert Ids(was.sh.cache, was.sh.cache.Keys) == set uri | uri in was.sh.cache :: was.sh.cache[uri].id;
  }

  ghost function Ids(cache: map<Uri, Handle>, uris: set<Uri>): set<nat>
    requires uris <= cache.Keys
  {
    set uri | uri in uris :: cache[uri].id
  }

  lemma IdsOfMore(cache: map<Uri, Handle>, uris: set<Uri>, uri: Uri)
    requires uris <= cache.Keys && uri in cache
    ensures Ids(cache, uris + {uri}) == Ids(cache, uris) + {cache[uri].id}
  {
  }
}
