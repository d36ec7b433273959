/** adminAPIClient.connectionInfo: two fetches in goroutines of their own, each delivering its result
    through a channel with room for one, joined by a caller that may be cancelled at any time. */
module ForkJoin {
  import opened Wrappers

  datatype Fetched<T> = Ok(value: T) | Err(code: int)

  // What the two API methods return, as far as they matter here.
  datatype InstanceInfo = InstanceInfo(addresses: int)
  datatype Certificate = Certificate(chain: int, expiry: int)

  datatype Error = NoAddress(code: int) | NoCertificate(code: int) | Canceled

  datatype Result = Info(info: InstanceInfo, cert: Certificate) | Failed(err: Error)

  const ROOM := 1

  /** A goroutine: `defer close(ch)`, fetch, send. */
  datatype Worker<T> = Fetching | Sending(value: Fetched<T>) | Closing | Finished

  /** One fetch: its goroutine, the values in its channel, and (history) what it returned. */
  datatype Branch<T> = Branch(worker: Worker<T>, channel: seq<Fetched<T>>, returned: Option<Fetched<T>>)

  datatype Main = AwaitInfo | AwaitCert(info: InstanceInfo) | Returned(result: Result)

  datatype State = State(md: Branch<InstanceInfo>, cert: Branch<Certificate>, main: Main, canceled: bool)

  datatype Action =
    | InfoFetched(i: Fetched<InstanceInfo>)
    | CertFetched(c: Fetched<Certificate>)
    | InfoSends
    | CertSends
    | InfoCloses
    | CertCloses
    | ReceiveInfo
    | ReceiveCert
    | GiveUp
    | Cancel

  function Init(): State {
    State(Branch(Fetching, [], None), Branch(Fetching, [], None), AwaitInfo, false)
  }

  /** A receive goes ahead on a value, and also on a closed channel, where it yields the zero value. */
  predicate CanReceive<T>(b: Branch<T>) {
    b.channel != [] || b.worker.Finished?
  }

  function ReceiveFrom<T>(b: Branch<T>, zero: T): Fetched<T> {
    if b.channel != [] then b.channel[0] else Ok(zero)
  }

  function Drain<T>(b: Branch<T>): Branch<T> {
    if b.channel != [] then b.(channel := b.channel[1..]) else b
  }

  predicate Enabled(s: State, a: Action) {
    match a
    case InfoFetched(_) => s.md.worker.Fetching?
    case CertFetched(_) => s.cert.worker.Fetching?
    case InfoSends => s.md.worker.Sending? && |s.md.channel| < ROOM
    case CertSends => s.cert.worker.Sending? && |s.cert.channel| < ROOM
    case InfoCloses => s.md.worker.Closing?
    case CertCloses => s.cert.worker.Closing?
    case ReceiveInfo => s.main.AwaitInfo? && CanReceive(s.md)
    case ReceiveCert => s.main.AwaitCert? && CanReceive(s.cert)
    case GiveUp => !s.main.Returned? && s.canceled
    case Cancel => true
  }

  function Next(s: State, a: Action): State
    requires Enabled(s, a)
  {
    match a
    case InfoFetched(i) => s.(md := s.md.(worker := Sending(i), returned := Some(i)))
    case CertFetched(c) => s.(cert := s.cert.(worker := Sending(c), returned := Some(c)))
    case InfoSends => s.(md := s.md.(worker := Closing, channel := s.md.channel + [s.md.worker.value]))
    case CertSends => s.(cert := s.cert.(worker := Closing, channel := s.cert.channel + [s.cert.worker.value]))
    case InfoCloses => s.(md := s.md.(worker := Finished))
    case CertCloses => s.(cert := s.cert.(worker := Finished))
    case ReceiveInfo =>
      var main :=
        match ReceiveFrom(s.md, InstanceInfo(0))
        case Ok(info) => AwaitCert(info)
        case Err(code) => Returned(Failed(NoAddress(code)));
      s.(md := Drain(s.md), main := main)
    case ReceiveCert =>
      var result :=
        match ReceiveFrom(s.cert, Certificate(0, 0))
        case Ok(cert) => Info(s.main.info, cert)
        case Err(code) => Failed(NoCertificate(code));
      s.(cert := Drain(s.cert), main := Returned(result))
    case GiveUp => s.(main := Returned(Failed(Canceled)))
    case Cancel => s.(canceled := true)
  }

  predicate IsRun(s: State, acts: seq<Action>)
    decreases |acts|
  {
    acts == [] || (Enabled(s, acts[0]) && IsRun(Next(s, acts[0]), acts[1..]))
  }

  function After(s: State, acts: seq<Action>): State
    requires IsRun(s, acts)
    decreases |acts|
  {
    if acts == [] then s else After(Next(s, acts[0]), acts[1..])
  }

  ghost predicate Reachable(s: State) {
    exists acts :: IsRun(Init(), acts) && After(Init(), acts) == s
  }

  /** The two fetches one after the other, without goroutines. */
  function Sequential(i: Fetched<InstanceInfo>, c: Fetched<Certificate>): Result {
    match i
    case Err(code) => Failed(NoAddress(code))
    case Ok(info) =>
      match c
      case Err(code) => Failed(NoCertificate(code))
      case Ok(cert) => Info(info, cert)
  }

  // ---------- the invariant ----------

  /** A branch whose value has (not) been received. */
  ghost predicate Flows<T>(b: Branch<T>, received: bool) {
    match b.worker
    case Fetching => b.channel == [] && b.returned == None && !received
    case Sending(v) => b.channel == [] && b.returned == Some(v) && !received
    case _ => b.returned.Some? && b.channel == if received then [] else [b.returned.value]
  }

  ghost predicate Invariant(s: State) {
    match s.main
    case AwaitInfo => Flows(s.md, false) && Flows(s.cert, false)
    case AwaitCert(info) => Flows(s.md, true) && s.md.returned == Some(Ok(info)) && Flows(s.cert, false)
    case Returned(r) =>
      exists gotInfo: bool, gotCert: bool ::
        Flows(s.md, gotInfo) && Flows(s.cert, gotCert) && Explained(s, r, gotInfo, gotCert)
  }

  /** Why the caller returned `r`. */
  predicate Explained(s: State, r: Result, gotInfo: bool, gotCert: bool) {
    match r
    case Failed(Canceled) => s.canceled
    case Failed(NoAddress(code)) => gotInfo && s.md.returned == Some(Err(code))
    case Failed(NoCertificate(code)) =>
      gotInfo && gotCert && s.md.returned.Some? && s.md.returned.value.Ok? && s.cert.returned == Some(Err(code))
    case Info(info, cert) =>
      gotInfo && gotCert && s.md.returned == Some(Ok(info)) && s.cert.returned == Some(Ok(cert))
  }

  lemma StepKeeps(s: State, a: Action)
    requires Invariant(s) && Enabled(s, a)
    ensures Invariant(Next(s, a))
  {
    var s' := Next(s, a);
    if s.main.Returned? {
      var gotInfo: bool, gotCert: bool :|
        Flows(s.md, gotInfo) && Flows(s.cert, gotCert) && Explained(s, s.main.result, gotInfo, gotCert);
      assert Flows(s'.md, gotInfo) && Flows(s'.cert, gotCert) && Explained(s', s'.main.result, gotInfo, gotCert);
    } else if s'.main.Returned? {
      var gotInfo, gotCert := a.ReceiveInfo? || s.main.AwaitCert?, a.ReceiveCert?;
      assert Flows(s'.md, gotInfo) && Flows(s'.cert, gotCert) && Explained(s', s'.main.result, gotInfo, gotCert);
    }
  }

  lemma {:induction false} RunKeeps(s: State, acts: seq<Action>)
    requires Invariant(s) && IsRun(s, acts)
    ensures Invariant(After(s, acts))
    decreases |acts|
  {
    if acts != [] {
      StepKeeps(s, acts[0]);
      RunKeeps(Next(s, acts[0]), acts[1..]);
    }
  }

  lemma ReachableKeeps(s: State)
    requires Reachable(s)
    ensures Invariant(s)
  {
    var acts :| IsRun(Init(), acts) && After(Init(), acts) == s;
    RunKeeps(Init(), acts);
  }

  // ---------- what it means ----------

  /** Confluence: unless it was cancelled, the caller returns what metadata first and certificate
      second would have returned, in whatever order the fetches completed; a metadata error takes
      priority over anything the certificate fetch returned or may yet return. */
  lemma Confluence(s: State, i: Fetched<InstanceInfo>, c: Fetched<Certificate>)
    requires Reachable(s) && s.main.Returned? && !s.canceled
    requires s.md.returned == None || s.md.returned == Some(i)
    requires s.cert.returned == None || s.cert.returned == Some(c)
    ensures s.main.result == Sequential(i, c)
    ensures s.md.returned == Some(i)
    ensures i.Err? ==> s.main.result == Failed(NoAddress(i.code))
    ensures i.Ok? && c.Err? ==> s.main.result == Failed(NoCertificate(c.code))
    ensures i.Ok? && c.Ok? ==> s.main.result == Info(i.value, c.value)
    ensures s.cert.returned == None ==> i.Err?
  {
    ReachableKeeps(s);
  }

  /** With cancellation too, a success holds the results of both fetches of this very call, and an
      error that names a fetch is that fetch's error. */
  lemma SuccessMeansBothSucceeded(s: State)
    requires Reachable(s) && s.main.Returned?
    ensures s.main.result.Info? ==>
              s.md.returned == Some(Ok(s.main.result.info)) && s.cert.returned == Some(Ok(s.main.result.cert))
    ensures s.main.result == Failed(Canceled) ==> s.canceled
    ensures s.main.result != Failed(Canceled) ==>
              && s.md.returned.Some?
              && (s.cert.returned.Some? ==> s.main.result == Sequential(s.md.returned.value, s.cert.returned.value))
              && (s.cert.returned.None? ==> s.md.returned.value.Err?)
  {
    ReachableKeeps(s);
  }

  /** No goroutine ever blocks: whoever is about to send finds room, also when the caller has long
      returned; and the caller never receives the zero value of a closed channel. */
  lemma NobodyBlocksOnSend(s: State)
    requires Reachable(s)
    ensures s.md.worker.Sending? ==> Enabled(s, InfoSends)
    ensures s.cert.worker.Sending? ==> Enabled(s, CertSends)
    ensures Enabled(s, ReceiveInfo) ==> s.md.channel != []
    ensures Enabled(s, ReceiveCert) ==> s.cert.channel != []
  {
    ReachableKeeps(s);
  }

  /** Cancellation ends the wait: a caller that has not returned can return at once with the context's
      error, whatever the goroutines are doing; and without cancellation it never gives up. */
  lemma CancelEndsTheWait(s: State)
    requires !s.main.Returned?
    ensures Enabled(s, Cancel) && Enabled(Next(s, Cancel), GiveUp)
    ensures Next(Next(s, Cancel), GiveUp).main == Returned(Failed(Canceled))
    ensures Enabled(s, GiveUp) <==> s.canceled
    ensures Next(s, Cancel).md == s.md && Next(s, Cancel).cert == s.cert && Next(s, Cancel).main == s.main
  {
  }

  /** Steps the three goroutines have yet to take. */
  function StepsLeft(s: State): nat {
    WorkerSteps(s.md.worker) + WorkerSteps(s.cert.worker) +
    (match s.main case AwaitInfo => 2 case AwaitCert(_) => 1 case Returned(_) => 0)
  }

  function WorkerSteps<T>(w: Worker<T>): nat {
    match w case Fetching => 3 case Sending(_) => 2 case Closing => 1 case Finished => 0
  }

  lemma StepUsesOne(s: State, b: Action)
    requires Invariant(s) && Enabled(s, b) && b != Cancel
    ensures StepsLeft(Next(s, b)) < StepsLeft(s)
  {
  }

  /** The call always ends: every step but Cancel uses up one of at most eight, and as long as one is
      left some goroutine can take it, whatever the fetches return. */
  lemma AlwaysEnds(s: State, i: Fetched<InstanceInfo>, c: Fetched<Certificate>) returns (a: Action)
    requires Reachable(s)
    ensures StepsLeft(s) <= 8
    ensures forall b :: Enabled(s, b) && b != Cancel ==> StepsLeft(Next(s, b)) < StepsLeft(s)
    ensures StepsLeft(s) > 0 ==> Enabled(s, a) && a != Cancel
    ensures StepsLeft(s) == 0 ==> s.main.Returned? && s.md.worker.Finished? && s.cert.worker.Finished?
  {
    ReachableKeeps(s);
    forall b | Enabled(s, b) && b != Cancel ensures StepsLeft(Next(s, b)) < StepsLeft(s) {
      StepUsesOne(s, b);
    }
    a := match s.md.worker
      case Fetching => InfoFetched(i)
      case Sending(_) => InfoSends
      case Closing => InfoCloses
      case Finished =>
        match s.cert.worker
        case Fetching => CertFetched(c)
        case Sending(_) => CertSends
        case Closing => CertCloses
        case Finished => if s.main.AwaitInfo? then ReceiveInfo else ReceiveCert;
  }
}
