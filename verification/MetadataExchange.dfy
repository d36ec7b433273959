/** The metadata exchange that precedes the database protocol on every connection: a request and
    a response, each a message behind its length as a big-endian uint32. The client builds its
    request and reads its response in one buffer taken from a pool and never cleared; the server
    half is the one of internal/mock. Messages are the bytes the protobuf library makes of them. */
module MetadataExchange {
  import opened Bytes
  import opened Wrappers

  datatype Error =
    | Eof
    | BadMessage
    | Refused(message: string)
    | ShortCount(moved: nat, want: nat)
    | Io(code: int)

  datatype Response = Response(ok: bool, message: string)

  datatype Result = Completed | Failed(err: Error) | Panicked

  /** What one side did: the bytes it wrote, how many it read, and what it returned. */
  datatype Effect = Effect(written: seq<Byte>, consumed: nat, result: Result)

  /** How one Read or Write on the connection goes: it moves all it was asked for, or it returns
      after at most `moved` bytes, with an error or without one. */
  datatype Transfer = All | Part(moved: nat, err: Option<Error>)

  // What the environment does to the client, call by call.
  datatype Faults = Faults(
    token: Option<Error>,
    marshal: Option<Error>,
    writeDeadline: Option<Error>,
    write: Transfer,
    readDeadline: Option<Error>,
    readSize: Transfer,
    readBody: Transfer)

  const NO_FAULTS := Faults(None, None, None, All, None, All, All)

  // And to the server.
  datatype ServerFaults = ServerFaults(
    readSize: Transfer,
    readBody: Transfer,
    marshal: Option<Error>,
    write: Transfer)

  const NO_SERVER_FAULTS := ServerFaults(All, All, None, All)

  const MAX_MESSAGE_SIZE: nat := 16 * 1024

  // ---------- the connection ----------

  /** How many of the n bytes asked for a call moves when `available` could be moved. */
  function Moves(available: nat, n: nat, t: Transfer): (moved: nat)
    ensures moved <= n && moved <= available
  {
    match t
    case All => Min(n, available)
    case Part(moved, _) => Min(moved, Min(n, available))
  }

  function TransferError(available: nat, n: nat, t: Transfer): Option<Error> {
    match t
    case All => if available < n then Some(Eof) else None
    case Part(_, err) => err
  }

  /** The first bytes of `buf` overwritten. */
  function Overlay(bytes: seq<Byte>, buf: seq<Byte>): (r: seq<Byte>)
    requires |bytes| <= |buf|
    ensures |r| == |buf|
  {
    bytes + buf[|bytes|..]
  }

  class Conn {
    var inbox: seq<Byte>    // bytes the peer sends, not read yet
    var outbox: seq<Byte>   // bytes written so far

    method Write(buf: array<Byte>, n: nat, t: Transfer) returns (moved: nat, err: Option<Error>)
      requires n <= buf.Length
      modifies this`outbox
      ensures moved == Moves(n, n, t) && err == TransferError(n, n, t)
      ensures outbox == old(outbox) + buf[..moved]
    {
      moved, err := Moves(n, n, t), TransferError(n, n, t);
      outbox := outbox + buf[..moved];
    }

    /** Overwrites the first bytes of `buf` and leaves the others as they were. */
    method Read(buf: array<Byte>, n: nat, t: Transfer) returns (moved: nat, err: Option<Error>)
      requires n <= buf.Length
      modifies this`inbox, buf
      ensures moved == Moves(|old(inbox)|, n, t) && err == TransferError(|old(inbox)|, n, t)
      ensures inbox == old(inbox)[moved..]
      ensures buf[..] == Overlay(old(inbox)[..moved], old(buf[..]))
    {
      moved, err := Moves(|inbox|, n, t), TransferError(|inbox|, n, t);
      var i := 0;
      while i < moved
        invariant 0 <= i <= moved
        invariant buf[..i] == inbox[..i] && buf[i..] == old(buf[i..])
        modifies buf
      {
        buf[i] := inbox[i];
        i := i + 1;
      }
      inbox := inbox[moved..];
    }
  }

  // ---------- the buffer pool ----------

  class BufferPool {
    var free: set<array<Byte>>
    ghost var lent: set<array<Byte>>   // buffers now in the hands of an exchange

    /** Every pooled buffer has the full length, and no two exchanges hold the same one. What a
        pooled buffer contains is anybody's guess. */
    ghost predicate Valid()
      reads this, free
    {
      && (forall b :: b in free ==> b.Length == MAX_MESSAGE_SIZE)
      && free !! lent
    }

    constructor ()
      ensures Valid() && free == {} && lent == {}
    {
      free := {};
      lent := {};
    }

    /** sync.Pool may hand out a used buffer or make a new one. */
    method Get() returns (b: array<Byte>)
      requires Valid()
      modifies this
      ensures Valid() && b.Length == MAX_MESSAGE_SIZE
      ensures b !in old(lent) && lent == old(lent) + {b} && free == old(free) - {b}
      ensures b in old(free) || fresh(b)
    {
      if {
        case free != {} =>
          b :| b in free;
          free := free - {b};
        case true =>
          b := new Byte[MAX_MESSAGE_SIZE];
      }
      lent := lent + {b};
    }

    method Put(b: array<Byte>)
      requires Valid() && b in lent && b.Length == MAX_MESSAGE_SIZE
      modifies this
      ensures Valid() && free == old(free) + {b} && lent == old(lent) - {b}
    {
      free := free + {b};
      lent := lent - {b};
    }
  }

  method PutUint32(buf: array<Byte>, n: int)
    requires 0 <= n < UINT32 && 4 <= buf.Length
    modifies buf
    ensures buf[..4] == BE32(n) && buf[4..] == old(buf[4..])
  {
    buf[0] := n / 0x100_0000;
    buf[1] := n / 0x1_0000 % 0x100;
    buf[2] := n / 0x100 % 0x100;
    buf[3] := n % 0x100;
  }

  /** `append(buf[:n], m...)`: in place when the capacity allows, otherwise into a new array with
      `growth` zero bytes to spare. */
  method Append(buf: array<Byte>, n: nat, m: seq<Byte>, growth: nat) returns (out: array<Byte>)
    requires n <= buf.Length
    modifies buf
    ensures out[..] == Appended(old(buf[..]), n, m, growth)
    ensures if n + |m| <= buf.Length then out == buf else fresh(out)
  {
    var i := 0;
    if n + |m| <= buf.Length {
      out := buf;
    } else {
      out := new Byte[n + |m| + growth](_ => 0);
      while i < n
        invariant 0 <= i <= n
        invariant out[..i] == old(buf[..i])
        invariant forall k :: n <= k < out.Length ==> out[k] == 0
        invariant buf[..] == old(buf[..])
        modifies out
      {
        out[i] := buf[i];
        i := i + 1;
      }
    }
    ghost var tail := out[n + |m|..];
    i := 0;
    while i < |m|
      invariant 0 <= i <= |m|
      invariant out[..n] == old(buf[..n])
      invariant out[n..n + i] == m[..i]
      invariant out[n + |m|..] == tail
      modifies out
    {
      out[n + i] := m[i];
      i := i + 1;
    }
    assert out[..] == out[..n] + out[n..n + |m|] + out[n + |m|..];
    assert n + |m| > buf.Length ==> tail == Zeros(growth);
  }

  // ---------- the client ----------

  function Zeros(n: nat): (z: seq<Byte>)
    ensures |z| == n
  {
    seq(n, _ => 0)
  }

  /** What is in the whole array after appending to the first n bytes of `buf`. */
  function Appended(buf: seq<Byte>, n: nat, m: seq<Byte>, growth: nat): (out: seq<Byte>)
    requires n <= |buf|
    ensures |out| == if n + |m| <= |buf| then |buf| else n + |m| + growth
  {
    buf[..n] + m + if n + |m| <= |buf| then buf[n + |m|..] else Zeros(growth)
  }

  function Frame(m: seq<Byte>, size: nat): seq<Byte> {
    BE32(size % UINT32) + m
  }

  /** The capacity of the buffer once the request has been appended to it. */
  function Capacity(m: seq<Byte>, growth: nat): nat {
    if 4 + |m| <= MAX_MESSAGE_SIZE then MAX_MESSAGE_SIZE else 4 + |m| + growth
  }

  /** The buffer with the request in it: its frame, and behind that what a pooled buffer held. */
  function Filled(m: seq<Byte>, size: nat, stale: seq<Byte>, growth: nat): (buf: seq<Byte>)
    requires |stale| == MAX_MESSAGE_SIZE
    ensures |buf| == Capacity(m, growth)
  {
    Appended(Overlay(BE32(size % UINT32), stale), 4, m, growth)
  }

  function Verdict(response: Option<Response>): Result {
    match response
    case None => Failed(BadMessage)
    case Some(r) => if r.ok then Completed else Failed(Refused(r.message))
  }

  /** `buf[:4]` and then `buf[:respSize]` are read into, the second over the first. How many bytes
      a read moved is not looked at, so what it did not overwrite is taken as received. */
  function ClientReads(
    inbox: seq<Byte>, buf: seq<Byte>, faults: Faults, decode: seq<Byte> -> Option<Response>
  ): (e: Effect)
    requires |buf| >= 4
    ensures e.consumed <= |inbox|
  {
    var n1 := Moves(|inbox|, 4, faults.readSize);
    var err1 := TransferError(|inbox|, 4, faults.readSize);
    if err1.Some? then Effect([], n1, Failed(err1.value))
    else
      var buf1, rest := Overlay(inbox[..n1], buf), inbox[n1..];
      var respSize := FromBE32(buf1[..4]);
      if respSize > |buf| then Effect([], n1, Panicked)
      else
        var n2 := Moves(|rest|, respSize, faults.readBody);
        var err2 := TransferError(|rest|, respSize, faults.readBody);
        if err2.Some? then Effect([], n1 + n2, Failed(err2.value))
        else Effect([], n1 + n2, Verdict(decode(Overlay(rest[..n2], buf1)[..respSize])))
  }

  /** What one exchange does, as a function of the request, of what the peer sends, of what the
      environment does and of what the pooled buffer held before. */
  function ClientEffect(
    m: seq<Byte>, size: nat, stale: seq<Byte>, inbox: seq<Byte>, growth: nat, faults: Faults,
    decode: seq<Byte> -> Option<Response>
  ): (e: Effect)
    requires |stale| == MAX_MESSAGE_SIZE
    ensures e.consumed <= |inbox|
  {
    var frame := Frame(m, size);
    if faults.token.Some? then Effect([], 0, Failed(faults.token.value))
    else if faults.marshal.Some? then Effect([], 0, Failed(faults.marshal.value))
    else if faults.writeDeadline.Some? then Effect([], 0, Failed(faults.writeDeadline.value))
    else
      var written := frame[..Moves(|frame|, |frame|, faults.write)];
      var err := TransferError(|frame|, |frame|, faults.write);
      if err.Some? then Effect(written, 0, Failed(err.value))
      else if faults.readDeadline.Some? then Effect(written, 0, Failed(faults.readDeadline.value))
      else ClientReads(inbox, Filled(m, size, stale, growth), faults, decode).(written := written)
  }

  /** Dialer.metadataExchange. `m` is the marshalled request and `size` what proto.Size says of it;
      `stale` is what the buffer from the pool turns out to hold. */
  method Exchange(
    pool: BufferPool, conn: Conn, m: seq<Byte>, size: nat, growth: nat, faults: Faults,
    decode: seq<Byte> -> Option<Response>
  ) returns (r: Result, ghost stale: seq<Byte>)
    requires pool.Valid()
    modifies pool, pool.free, conn
    ensures pool.Valid() && old(pool.free) <= pool.free && fresh(pool.free - old(pool.free))
    ensures pool.lent == old(pool.lent)
    ensures |stale| == MAX_MESSAGE_SIZE
    ensures var e := ClientEffect(m, size, stale, old(conn.inbox), growth, faults, decode);
            && r == e.result
            && conn.outbox == old(conn.outbox) + e.written
            && conn.inbox == old(conn.inbox)[e.consumed..]
  {
    stale := Zeros(MAX_MESSAGE_SIZE);
    if faults.token.Some? {
      return Failed(faults.token.value), stale;
    }
    if faults.marshal.Some? {
      return Failed(faults.marshal.value), stale;
    }
    var b := pool.Get();
    stale := b[..];
    r := ExchangeInBuffer(b, conn, m, size, growth, faults, decode);
    pool.Put(b);
  }

  // The exchange between `get` and the deferred `put`.
  method ExchangeInBuffer(
    b: array<Byte>, conn: Conn, m: seq<Byte>, size: nat, growth: nat, faults: Faults,
    decode: seq<Byte> -> Option<Response>
  ) returns (r: Result)
    requires b.Length == MAX_MESSAGE_SIZE && faults.token.None? && faults.marshal.None?
    modifies b, conn
    ensures var e := ClientEffect(m, size, old(b[..]), old(conn.inbox), growth, faults, decode);
            && r == e.result
            && conn.outbox == old(conn.outbox) + e.written
            && conn.inbox == old(conn.inbox)[e.consumed..]
  {
    PutUint32(b, size % UINT32);
    var buf := Append(b, 4, m, growth);
    assert buf[..] == Filled(m, size, old(b[..]), growth);
    assert buf[..4 + |m|] == Frame(m, size);
    if faults.writeDeadline.Some? {
      return Failed(faults.writeDeadline.value);
    }
    var _, err := conn.Write(buf, 4 + |m|, faults.write);
    if err.Some? {
      return Failed(err.value);
    }
    if faults.readDeadline.Some? {
      return Failed(faults.readDeadline.value);
    }
    r := ReadResponse(buf, conn, faults, decode);
  }

  method ReadResponse(
    buf: array<Byte>, conn: Conn, faults: Faults, decode: seq<Byte> -> Option<Response>
  ) returns (r: Result)
    requires 4 <= buf.Length
    modifies buf, conn`inbox
    ensures var e := ClientReads(old(conn.inbox), old(buf[..]), faults, decode);
            r == e.result && conn.inbox == old(conn.inbox)[e.consumed..]
  {
    var _, sizeErr := conn.Read(buf, 4, faults.readSize);
    if sizeErr.Some? {
      return Failed(sizeErr.value);
    }
    assert buf[..4] == buf[..][..4];
    var respSize := FromBE32(buf[..4]);
    if respSize > buf.Length {
      return Panicked;
    }
    var _, bodyErr := conn.Read(buf, respSize, faults.readBody);
    if bodyErr.Some? {
      return Failed(bodyErr.value);
    }
    assert buf[..respSize] == buf[..][..respSize];
    r := Verdict(decode(buf[..respSize]));
  }

  // ---------- the server ----------

  /** What the server made of the request: the message it received, if it received one. */
  datatype Served = Served(effect: Effect, received: Option<seq<Byte>>)

  /** How the server's call for n bytes ends: unlike the client it looks at the count too. */
  function Checked(available: nat, n: nat, t: Transfer): Option<Error> {
    var moved, err := Moves(available, n, t), TransferError(available, n, t);
    if err.Some? then err else if moved != n then Some(ShortCount(moved, n)) else None
  }

  function ServerEffect(
    inbox: seq<Byte>, accepts: seq<Byte> -> bool, response: seq<Byte>, size: nat, faults: ServerFaults
  ): (s: Served)
    ensures s.effect.consumed <= |inbox|
  {
    var err1 := Checked(|inbox|, 4, faults.readSize);
    if err1.Some? then Served(Effect([], Moves(|inbox|, 4, faults.readSize), Failed(err1.value)), None)
    else
      var n, rest := FromBE32(inbox[..4]), inbox[4..];
      var err2 := Checked(|rest|, n, faults.readBody);
      if err2.Some? then Served(Effect([], 4 + Moves(|rest|, n, faults.readBody), Failed(err2.value)), None)
      else
        var m := rest[..n];
        if !accepts(m) then Served(Effect([], 4 + n, Failed(BadMessage)), Some(m))
        else if faults.marshal.Some? then Served(Effect([], 4 + n, Failed(faults.marshal.value)), Some(m))
        else
          var frame := Frame(response, size);
          var err3 := Checked(|frame|, |frame|, faults.write);
          Served(Effect(frame[..Moves(|frame|, |frame|, faults.write)], 4 + n,
                        if err3.Some? then Failed(err3.value) else Completed), Some(m))
  }

  /** metadataExchange of internal/mock. */
  method Serve(
    conn: Conn, accepts: seq<Byte> -> bool, response: seq<Byte>, size: nat, faults: ServerFaults
  ) returns (r: Result, received: Option<seq<Byte>>)
    modifies conn
    ensures var s := ServerEffect(old(conn.inbox), accepts, response, size, faults);
            && r == s.effect.result && received == s.received
            && conn.outbox == old(conn.outbox) + s.effect.written
            && conn.inbox == old(conn.inbox)[s.effect.consumed..]
  {
    received := None;
    ghost var inbox := conn.inbox;
    var msgSize := new Byte[4];
    var moved, err := conn.Read(msgSize, 4, faults.readSize);
    if err.Some? {
      return Failed(err.value), None;
    }
    if moved != 4 {
      return Failed(ShortCount(moved, 4)), None;
    }
    assert msgSize[..] == inbox[..4];
    var n := FromBE32(msgSize[..]);
    var buf := new Byte[n];
    moved, err := conn.Read(buf, n, faults.readBody);
    if err.Some? {
      return Failed(err.value), None;
    }
    if moved != n {
      return Failed(ShortCount(moved, n)), None;
    }
    assert buf[..] == inbox[4..][..n];
    assert conn.inbox == inbox[4 + n..];
    received := Some(buf[..]);
    if !accepts(buf[..]) {
      return Failed(BadMessage), received;
    }
    if faults.marshal.Some? {
      return Failed(faults.marshal.value), received;
    }
    r := Answer(conn, response, size, faults.write);
  }

  method Answer(conn: Conn, response: seq<Byte>, size: nat, write: Transfer) returns (r: Result)
    modifies conn`outbox
    ensures var frame := Frame(response, size);
            && conn.outbox == old(conn.outbox) + frame[..Moves(|frame|, |frame|, write)]
            && r == match Checked(|frame|, |frame|, write)
                    case Some(err) => Failed(err)
                    case None => Completed
  {
    var out := new Byte[4];
    PutUint32(out, size % UINT32);
    out := Append(out, 4, response, 0);
    assert out[..] == Frame(response, size);
    var moved, err := conn.Write(out, out.Length, write);
    if err.Some? {
      return Failed(err.value);
    }
    if moved != out.Length {
      return Failed(ShortCount(moved, out.Length));
    }
    r := Completed;
  }
}
