/** LazyRefreshCache, against a specification that speaks only of the calls made so far: which of
    them fetched, which fetch was the latest to succeed, and whether ForceRefresh came after it. */
module LazyCache {
  import opened Timing
  import opened RefreshMachine
  import opened Wrappers

  /** A call on the cache. `fetch` is what the Admin API answers if the call asks it. */
  datatype Request = Info(now: int, fetch: Outcome) | Force

  // ---------- the specification over histories ----------

  predicate ForcedSince(h: seq<Request>, k: int) {
    exists j :: 0 <= j < |h| && k < j && h[j].Force?
  }

  /** Would a ConnectionInfo call at `now`, after history `h`, fetch? Unless there is a success whose
      certificate has more than the buffer left and that no ForceRefresh followed. */
  predicate Fetches(h: seq<Request>, now: int)
    decreases |h|, 1
  {
    match Latest(h)
    case None => true
    case Some(k) => ForcedSince(h, k) || !(now < h[k].fetch.info.expiration - REFRESH_BUFFER)
  }

  /** The latest call that fetched successfully. */
  function Latest(h: seq<Request>): (k: Option<nat>)
    ensures k.Some? ==> k.value < |h| && h[k.value].Info? && h[k.value].fetch.Success?
    decreases |h|, 0
  {
    if h == [] then None
    else
      var n := |h| - 1;
      if h[n].Info? && Fetches(h[..n], h[n].now) && h[n].fetch.Success? then Some(n)
      else Latest(h[..n])
  }

  function Reply(h: seq<Request>, now: int, fetch: Outcome): Outcome {
    if Fetches(h, now) then fetch else Success(h[Latest(h).value].fetch.info)
  }

  /** Call i of the history fetched, and successfully. */
  predicate FetchedOk(h: seq<Request>, i: nat) {
    i < |h| && h[i].Info? && h[i].fetch.Success? && Fetches(h[..i], h[i].now)
  }

  lemma {:induction false} LatestIsLatest(h: seq<Request>)
    ensures match Latest(h)
            case Some(k) => FetchedOk(h, k) && forall i :: k < i < |h| ==> !FetchedOk(h, i)
            case None => forall i :: 0 <= i < |h| ==> !FetchedOk(h, i)
  {
    if h != [] {
      var n := |h| - 1;
      LatestIsLatest(h[..n]);
      forall i | 0 <= i < n ensures FetchedOk(h, i) <==> FetchedOk(h[..n], i) {
        assert h[..n][..i] == h[..i];
      }
    }
  }

  /** A successful reply is the call's own fetch, or the latest successful fetch before it, with
      more than the refresh buffer left and no ForceRefresh in between. */
  lemma RepliesAreFresh(h: seq<Request>, now: int, fetch: Outcome)
    requires Reply(h, now, fetch).Success?
    ensures || (Fetches(h, now) && Reply(h, now, fetch) == fetch)
            || (exists k: nat :: FetchedOk(h, k) && (forall i :: k < i < |h| ==> !FetchedOk(h, i) && !h[i].Force?)
                         && Reply(h, now, fetch) == h[k].fetch
                         && now < h[k].fetch.info.expiration - REFRESH_BUFFER)
  {
    LatestIsLatest(h);
    if !Fetches(h, now) {
      var k := Latest(h).value;
      assert FetchedOk(h, k);
    }
  }

  /** When the cache answers without a fetch: if and only if some call fetched successfully, no later
      one did, no ForceRefresh came after it, and more than the buffer is left of its certificate. The
      answer is then what that call fetched. */
  lemma AnswersFromCacheIff(h: seq<Request>, now: int, fetch: Outcome)
    ensures !Fetches(h, now) <==>
            exists k: nat :: FetchedOk(h, k) && (forall i :: k < i < |h| ==> !FetchedOk(h, i) && !h[i].Force?)
                             && now < h[k].fetch.info.expiration - REFRESH_BUFFER
    ensures forall k: nat :: !Fetches(h, now) && FetchedOk(h, k) && (forall i :: k < i < |h| ==> !FetchedOk(h, i)) ==>
              Reply(h, now, fetch) == h[k].fetch
    ensures Fetches(h, now) ==> Reply(h, now, fetch) == fetch
  {
    LatestIsLatest(h);
    if Latest(h).Some? {
      var k := Latest(h).value;
      assert FetchedOk(h, k);
      assert forall j: nat :: FetchedOk(h, j) && (forall i :: j < i < |h| ==> !FetchedOk(h, i)) ==> j == k;
    }
  }

  /** Whatever succeeds after a ForceRefresh comes from a fetch begun after it. */
  lemma SuccessAfterForceIsNew(h: seq<Request>, f: nat, now: int, fetch: Outcome)
    requires f < |h| && h[f].Force? && Reply(h, now, fetch).Success?
    ensures || (Fetches(h, now) && Reply(h, now, fetch) == fetch)
            || (exists k: nat :: f < k < |h| && FetchedOk(h, k) && Reply(h, now, fetch) == h[k].fetch)
  {
    LatestIsLatest(h);
    if !Fetches(h, now) {
      var k := Latest(h).value;
      assert !ForcedSince(h, k);
      assert FetchedOk(h, k) && f < k;
    }
  }

  lemma ForcedByExtension(h: seq<Request>, r: Request, k: int)
    requires k < |h|
    ensures ForcedSince(h + [r], k) <==> ForcedSince(h, k) || r.Force?
  {
    var h' := h + [r];
    assert h'[|h|] == r;
    if ForcedSince(h, k) {
      var j :| 0 <= j < |h| && k < j && h[j].Force?;
      assert h'[j].Force?;
    }
    if r.Force? {
      assert h'[|h|].Force?;
    }
  }

  /** All that later calls depend on: the latest success, and whether a ForceRefresh followed it. */
  datatype Held = Nothing | Held(info: ConnectionInfo, forced: bool)

  function HeldAfter(h: seq<Request>): Held {
    match Latest(h)
    case None => Nothing
    case Some(k) => Held(h[k].fetch.info, ForcedSince(h, k))
  }

  predicate Wants(held: Held, now: int) {
    held.Nothing? || held.forced || !(now < held.info.expiration - REFRESH_BUFFER)
  }

  function Then(held: Held, r: Request): Held {
    match r
    case Force => if held.Nothing? then held else held.(forced := true)
    case Info(now, fetch) => if Wants(held, now) && fetch.Success? then Held(fetch.info, false) else held
  }

  lemma HeldByExtension(h: seq<Request>, r: Request)
    ensures HeldAfter(h + [r]) == Then(HeldAfter(h), r)
  {
    var h' := h + [r];
    assert h'[..|h|] == h && h'[|h|] == r;
    if Latest(h).Some? {
      ForcedByExtension(h, r, Latest(h).value);
    }
    assert r.Info? ==> Fetches(h, r.now) == Wants(HeldAfter(h), r.now);
    assert !ForcedSince(h', |h|);
  }

  lemma HeldOfLast(h: seq<Request>, g: seq<Request>)
    requires g != []
    ensures HeldAfter(h + g) == Then(HeldAfter(h + g[..|g| - 1]), g[|g| - 1])
  {
    HeldByExtension(h + g[..|g| - 1], g[|g| - 1]);
    assert h + g == h + g[..|g| - 1] + [g[|g| - 1]];
  }

  lemma HeldAnswers(h: seq<Request>, now: int, fetch: Outcome)
    ensures Fetches(h, now) <==> Wants(HeldAfter(h), now)
    ensures Reply(h, now, fetch) == if Wants(HeldAfter(h), now) then fetch else Success(HeldAfter(h).info)
  {
  }

  // Requests tell two histories apart only by what was held at the end of each.
  lemma {:induction false} HeldDecides(h1: seq<Request>, h2: seq<Request>, g: seq<Request>)
    requires HeldAfter(h1) == HeldAfter(h2)
    ensures HeldAfter(h1 + g) == HeldAfter(h2 + g)
    decreases |g|
  {
    if g == [] {
      assert h1 + g == h1 && h2 + g == h2;
    } else {
      var n := |g| - 1;
      HeldDecides(h1, h2, g[..n]);
      HeldOfLast(h1, g);
      HeldOfLast(h2, g);
    }
  }

  /** A failed fetch changes nothing for any later call, whatever else is requested in between: the
      history with it and the history without it decide every call the same way. */
  lemma FailedFetchChangesNothing(
    h: seq<Request>, now: int, err: Error, g: seq<Request>, later: int, fetch: Outcome
  )
    ensures var h' := h + [Info(now, Failure(err))];
            Fetches(h' + g, later) == Fetches(h + g, later) && Reply(h' + g, later, fetch) == Reply(h + g, later, fetch)
  {
    HeldByExtension(h, Info(now, Failure(err)));
    HeldDecides(h + [Info(now, Failure(err))], h, g);
    HeldAnswers(h + [Info(now, Failure(err))] + g, later, fetch);
    HeldAnswers(h + g, later, fetch);
  }

  // ---------- the cache ----------

  class LazyRefreshCache {
    var needsRefresh: bool
    var cached: ConnectionInfo

    ghost var history: seq<Request>

    /** The two fields hold exactly what the history makes of them. */
    ghost predicate Valid()
      reads this
    {
      Holds(HeldAfter(history))
    }

    /** Before any success `cached` is the zero value, whose expiration is Go's zero time. */
    ghost predicate Holds(held: Held)
      reads this
    {
      match held
      case Nothing => cached.expiration == 0
      case Held(info, forced) => cached == info && needsRefresh == forced
    }

    constructor ()
      ensures Valid() && history == []
    {
      needsRefresh := false;
      cached := RefreshMachine.ConnectionInfo(0, 0);
      history := [];
    }

    /** The clock reads an instant after Go's zero time. `fetch` is asked for only if `asked`; only a
        fetch that succeeds is kept. */
    method ConnectionInfo(now: int, fetch: Outcome) returns (r: Outcome, asked: bool)
      requires Valid() && now >= 0
      modifies this
      ensures Valid() && history == old(history) + [Info(now, fetch)]
      ensures asked == Fetches(old(history), now)
      ensures r == Reply(old(history), now, fetch)
      ensures !asked || fetch.Failure? ==> cached == old(cached) && needsRefresh == old(needsRefresh)
      ensures asked && fetch.Success? ==> cached == fetch.info && !needsRefresh
    {
      ghost var held := HeldAfter(history);
      HeldAnswers(history, now, fetch);
      HeldByExtension(history, Info(now, fetch));
      history := history + [Info(now, fetch)];
      r, asked := Serve(now, fetch, held);
    }

    // The locked section, for what the fields hold.
    method Serve(now: int, fetch: Outcome, ghost held: Held) returns (r: Outcome, asked: bool)
      requires Holds(held) && now >= 0
      modifies this`cached, this`needsRefresh
      ensures Holds(Then(held, Info(now, fetch)))
      ensures asked == Wants(held, now) && r == if asked then fetch else Success(held.info)
      ensures !asked || fetch.Failure? ==> cached == old(cached) && needsRefresh == old(needsRefresh)
      ensures asked && fetch.Success? ==> cached == fetch.info && !needsRefresh
    {
      var exp := cached.expiration - REFRESH_BUFFER;
      if !needsRefresh && now < exp {
        return Success(cached), false;
      }
      asked := true;
      if fetch.Failure? {
        return fetch, asked;
      }
      cached := fetch.info;
      needsRefresh := false;
      r := fetch;
    }

    method ForceRefresh()
      requires Valid()
      modifies this`needsRefresh, this`history
      ensures Valid() && history == old(history) + [Force] && needsRefresh
    {
      HeldByExtension(history, Force);
      history := history + [Force];
      needsRefresh := true;
    }
  }
}
