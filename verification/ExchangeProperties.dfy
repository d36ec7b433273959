/** Client and server of the metadata exchange put together. The client's reads see what the server
    writes in answer to the client's own request, followed by the bytes of the database protocol. */
module ExchangeProperties {
  import opened Bytes
  import opened MetadataExchange
  import opened Wrappers

  /** What a peer reads: a message behind its length, and then the rest. */
  function Stream(m: seq<Byte>, rest: seq<Byte>): seq<Byte> {
    Frame(m, |m|) + rest
  }

  lemma StreamLength(m: seq<Byte>, rest: seq<Byte>)
    ensures Stream(m, rest)[..4] == BE32(|m| % UINT32)
    ensures |m| < UINT32 ==> FromBE32(Stream(m, rest)[..4]) == |m|
  {
    DecodeOfEncode(|m| % UINT32);
  }

  lemma Three(a: seq<Byte>, b: seq<Byte>, c: seq<Byte>)
    ensures (a + b + c)[|a|..] == b + c
    ensures (a + b + c)[|a|..|a| + |b|] == b
    ensures (a + b + c)[|a| + |b|..] == c
  {
  }

  lemma StreamParts(m: seq<Byte>, rest: seq<Byte>)
    ensures |Stream(m, rest)| == 4 + |m| + |rest|
    ensures |m| < UINT32 ==> FromBE32(Stream(m, rest)[..4]) == |m|
    ensures Stream(m, rest)[4..] == m + rest
    ensures Stream(m, rest)[4..4 + |m|] == m
    ensures Stream(m, rest)[4 + |m|..] == rest
  {
    StreamLength(m, rest);
    Three(BE32(|m| % UINT32), m, rest);
  }

  /** A message behind its true length is recovered by the server exactly, and what follows on the
      stream is left there. */
  lemma ServerRecovers(m: seq<Byte>, rest: seq<Byte>, accepts: seq<Byte> -> bool, response: seq<Byte>)
    requires |m| < UINT32 && accepts(m)
    ensures ServerEffect(Stream(m, rest), accepts, response, |response|, NO_SERVER_FAULTS) ==
            Served(Effect(Frame(response, |response|), 4 + |m|, Completed), Some(m))
    ensures Stream(m, rest)[4 + |m|..] == rest
  {
    StreamParts(m, rest);
    assert (m + rest)[..|m|] == m;
  }

  /** The length prefix is 32 bits wide, so the server recovers a request if and only if its length
      fits. */
  lemma ServerRecoversIff(m: seq<Byte>, rest: seq<Byte>, accepts: seq<Byte> -> bool, response: seq<Byte>)
    ensures ServerEffect(Stream(m, rest), accepts, response, |response|, NO_SERVER_FAULTS).received == Some(m)
            <==> |m| < UINT32
  {
    StreamParts(m, rest);
    assert (m + rest)[..|m|] == m;
  }

  // A transfer of n bytes, all of them available, that moves them all.
  predicate MovesAll(n: nat, t: Transfer) {
    t.All? || (t.err.None? && t.moved >= n)
  }

  lemma FrameOf(m: seq<Byte>, n: nat, prefix: seq<Byte>)
    requires n < UINT32 && |m| % UINT32 == n && BE32(n) == prefix
    ensures Stream(m, []) == prefix + m
  {
    var size := |m| % UINT32;
    assert BE32(size) == prefix;
  }

  lemma SplitAt(s: seq<Byte>, i: nat, n: nat)
    requires i + n <= |s|
    ensures s[..i] + s[i..][..n] <= s
  {
  }

  lemma PrefixIsStream(inbox: seq<Byte>, n: nat)
    requires 4 + n <= |inbox| && n == FromBE32(inbox[..4])
    ensures Stream(inbox[4..][..n], []) <= inbox
  {
    EncodeOfDecode(inbox[..4]);
    FrameOf(inbox[4..][..n], n, inbox[..4]);
    SplitAt(inbox, 4, n);
  }

  lemma ReceivedWasSent(
    inbox: seq<Byte>, m: seq<Byte>, accepts: seq<Byte> -> bool, response: seq<Byte>, size: nat, faults: ServerFaults
  )
    requires ServerEffect(inbox, accepts, response, size, faults).received == Some(m)
    ensures |m| < UINT32 && Stream(m, []) <= inbox
    ensures MovesAll(4, faults.readSize) && MovesAll(|m|, faults.readBody)
  {
    PrefixIsStream(inbox, |m|);
  }

  /** What the server takes for a message was sent as one: it receives m if and only if its input
      begins with m behind its true length and both its reads are complete, whatever else fails. */
  lemma ReceivesIff(
    inbox: seq<Byte>, m: seq<Byte>, accepts: seq<Byte> -> bool, response: seq<Byte>, size: nat, faults: ServerFaults
  )
    ensures ServerEffect(inbox, accepts, response, size, faults).received == Some(m)
            <==> |m| < UINT32 && Stream(m, []) <= inbox
                 && MovesAll(4, faults.readSize) && MovesAll(|m|, faults.readBody)
  {
    if |m| < UINT32 && Stream(m, []) <= inbox {
      StreamParts(m, []);
      assert inbox[..4] == Stream(m, [])[..4];
      assert inbox[4..][..|m|] == Stream(m, [])[4..4 + |m|];
    }
    if ServerEffect(inbox, accepts, response, size, faults).received == Some(m) {
      ReceivedWasSent(inbox, m, accepts, response, size, faults);
    }
  }

  /** The server answers only what it accepted, with a prefix of its own frame, and completes if and
      only if all of it went out. Otherwise its error says what went wrong. */
  lemma ServerAnswersIff(
    inbox: seq<Byte>, accepts: seq<Byte> -> bool, response: seq<Byte>, size: nat, faults: ServerFaults, s: Served
  )
    requires s == ServerEffect(inbox, accepts, response, size, faults)
    ensures s.effect.written <= Frame(response, size)
    ensures s.effect.written != [] ==> s.received.Some? && accepts(s.received.value) && faults.marshal.None?
    ensures s.effect.result == Completed <==>
            && s.received.Some? && accepts(s.received.value) && faults.marshal.None?
            && MovesAll(4 + |response|, faults.write)
    ensures s.effect.result == Completed ==> s.effect.written == Frame(response, size)
    ensures s.received.Some? ==> s.effect.consumed == 4 + |s.received.value|
    ensures s.received.Some? && !accepts(s.received.value) ==> s.effect.result == Failed(BadMessage)
    ensures s.received.Some? && accepts(s.received.value) && faults.marshal.Some? ==>
              s.effect.result == Failed(faults.marshal.value)
    ensures TransferError(|inbox|, 4, faults.readSize).Some? ==>
              s.effect.result == Failed(TransferError(|inbox|, 4, faults.readSize).value)
    ensures s.received.None? && TransferError(|inbox|, 4, faults.readSize).None? && s.effect.consumed < 4 ==>
              s.effect.result == Failed(ShortCount(s.effect.consumed, 4))
  {
  }

  /** Nothing ends the exchange before the length of the response has been read. */
  predicate ReadsSize(m: seq<Byte>, inbox: seq<Byte>, faults: Faults) {
    && faults.token.None? && faults.marshal.None? && faults.writeDeadline.None? && faults.readDeadline.None?
    && TransferError(4 + |m|, 4 + |m|, faults.write).None?
    && TransferError(|inbox|, 4, faults.readSize).None?
  }

  /** If both its reads are complete, the client reads a response to its last byte and no further, so
      the stream that remains is the database protocol's. Its verdict is that of the response the
      server sent, whatever a pooled buffer held before. */
  lemma ClientRecovers(
    m: seq<Byte>, size: nat, stale: seq<Byte>, response: seq<Byte>, database: seq<Byte>, growth: nat,
    faults: Faults, decode: seq<Byte> -> Option<Response>
  )
    requires |stale| == MAX_MESSAGE_SIZE
    requires |response| < UINT32 && |response| <= Capacity(m, growth)
    requires ReadsSize(m, Stream(response, database), faults)
    requires MovesAll(4, faults.readSize) && MovesAll(|response|, faults.readBody)
    ensures var c := ClientEffect(m, size, stale, Stream(response, database), growth, faults, decode);
            && c.consumed == 4 + |response|
            && match decode(response)
               case None => c.result == Failed(BadMessage)
               case Some(r) => c.result == if r.ok then Completed else Failed(Refused(r.message))
    ensures Stream(response, database)[4 + |response|..] == database
  {
    StreamParts(response, database);
    var inbox, buf := Stream(response, database), Filled(m, size, stale, growth);
    var buf1, rest := Overlay(inbox[..4], buf), inbox[4..];
    assert buf1[..4] == inbox[..4];
    assert Overlay(rest[..|response|], buf1)[..|response|] == rest[..|response|] == response;
  }

  /** The whole exchange. The server reads what the client wrote and then whatever the client sends
      later; the client reads what the server wrote and then the database protocol. Whenever the two
      streams fit together like this, each side recovers exactly the other's message and leaves the
      other's later bytes unread. */
  lemma ExchangeIsFaithful(
    m: seq<Byte>, stale: seq<Byte>, later: seq<Byte>, response: seq<Byte>, database: seq<Byte>, growth: nat,
    accepts: seq<Byte> -> bool, decode: seq<Byte> -> Option<Response>,
    toServer: seq<Byte>, s: Served, toClient: seq<Byte>, c: Effect
  )
    requires |stale| == MAX_MESSAGE_SIZE && accepts(m)
    requires |m| < UINT32 && |response| < UINT32 && |response| <= Capacity(m, growth)
    requires s == ServerEffect(toServer, accepts, response, |response|, NO_SERVER_FAULTS)
    requires c == ClientEffect(m, |m|, stale, toClient, growth, NO_FAULTS, decode)
    requires toServer == c.written + later && toClient == s.effect.written + database
    ensures s.received == Some(m) && s.effect.result == Completed
    ensures toServer[s.effect.consumed..] == later
    ensures match decode(response)
            case None => c.result == Failed(BadMessage)
            case Some(r) => c.result == if r.ok then Completed else Failed(Refused(r.message))
    ensures toClient[c.consumed..] == database
  {
    WritesPrefixOfFrame(m, |m|, stale, toClient, growth, NO_FAULTS, decode, c);
    assert toServer == Stream(m, later);
    ServerRecovers(m, later, accepts, response);
    assert toClient == Stream(response, database);
    StreamParts(response, database);
    ClientRecovers(m, |m|, stale, response, database, growth, NO_FAULTS, decode);
  }

  /** There is such an exchange, for all messages, later bytes and buffers. */
  lemma StreamsFitTogether(
    m: seq<Byte>, stale: seq<Byte>, later: seq<Byte>, response: seq<Byte>, database: seq<Byte>, growth: nat,
    accepts: seq<Byte> -> bool, decode: seq<Byte> -> Option<Response>
  ) returns (toServer: seq<Byte>, s: Served, toClient: seq<Byte>, c: Effect)
    requires |stale| == MAX_MESSAGE_SIZE && accepts(m) && |m| < UINT32
    ensures s == ServerEffect(toServer, accepts, response, |response|, NO_SERVER_FAULTS)
    ensures c == ClientEffect(m, |m|, stale, toClient, growth, NO_FAULTS, decode)
    ensures toServer == c.written + later && toClient == s.effect.written + database
  {
    toServer, toClient := Stream(m, later), Stream(response, database);
    s := ServerEffect(toServer, accepts, response, |response|, NO_SERVER_FAULTS);
    c := ClientEffect(m, |m|, stale, toClient, growth, NO_FAULTS, decode);
    ServerRecovers(m, later, accepts, response);
    WritesPrefixOfFrame(m, |m|, stale, toClient, growth, NO_FAULTS, decode, c);
  }

  // ---------- what the client does not check ----------

  /** The length the client takes the response to have. A read that falls short leaves the last
      bytes of its own request's length prefix in place. */
  function Announced(size: nat, inbox: seq<Byte>, faults: Faults): nat {
    FromBE32(Overlay(inbox[..Moves(|inbox|, 4, faults.readSize)], BE32(size % UINT32)))
  }

  // The first four bytes of the buffer, before and after the first read.
  lemma AnnouncedIsRead(m: seq<Byte>, size: nat, stale: seq<Byte>, inbox: seq<Byte>, growth: nat, faults: Faults)
    requires |stale| == MAX_MESSAGE_SIZE
    ensures var read := inbox[..Moves(|inbox|, 4, faults.readSize)];
            FromBE32(Overlay(read, Filled(m, size, stale, growth))[..4]) == Announced(size, inbox, faults)
  {
    var read, buf := inbox[..Moves(|inbox|, 4, faults.readSize)], Filled(m, size, stale, growth);
    assert buf[..4] == BE32(size % UINT32);
    assert Overlay(read, buf)[..4] == Overlay(read, buf[..4]);
  }

  /** Slicing the response out of the buffer panics exactly when the announced length is greater
      than the buffer's capacity, whatever else the peer sends. */
  lemma PanicsIff(
    m: seq<Byte>, size: nat, stale: seq<Byte>, inbox: seq<Byte>, growth: nat, faults: Faults,
    decode: seq<Byte> -> Option<Response>
  )
    requires |stale| == MAX_MESSAGE_SIZE
    ensures ClientEffect(m, size, stale, inbox, growth, faults, decode).result == Panicked
            <==> ReadsSize(m, inbox, faults) && Announced(size, inbox, faults) > Capacity(m, growth)
    ensures |inbox| >= 4 && MovesAll(4, faults.readSize) ==> Announced(size, inbox, faults) == FromBE32(inbox[..4])
  {
    AnnouncedIsRead(m, size, stale, inbox, growth, faults);
    assert |inbox| >= 4 && MovesAll(4, faults.readSize) ==> Overlay(inbox[..4], BE32(size % UINT32)) == inbox[..4];
  }

  /** And it does: a true length is enough, if the response is longer than the buffer. */
  lemma LongResponsePanics(
    m: seq<Byte>, stale: seq<Byte>, response: seq<Byte>, rest: seq<Byte>, growth: nat,
    decode: seq<Byte> -> Option<Response>
  )
    requires |stale| == MAX_MESSAGE_SIZE && Capacity(m, growth) < |response| < UINT32
    ensures ClientEffect(m, |m|, stale, Stream(response, rest), growth, NO_FAULTS, decode).result == Panicked
  {
    StreamParts(response, rest);
    PanicsIff(m, |m|, stale, Stream(response, rest), growth, NO_FAULTS, decode);
  }

  /** Both reads return without an error and the announced response fits the buffer, so that bytes
      are handed to the protobuf library. */
  predicate Decodes(m: seq<Byte>, size: nat, inbox: seq<Byte>, growth: nat, faults: Faults) {
    && ReadsSize(m, inbox, faults)
    && Announced(size, inbox, faults) <= Capacity(m, growth)
    && TransferError(|Body(inbox, faults)|, Announced(size, inbox, faults), faults.readBody).None?
  }

  // What is left to read after the length.
  function Body(inbox: seq<Byte>, faults: Faults): seq<Byte> {
    inbox[Moves(|inbox|, 4, faults.readSize)..]
  }

  // How many bytes of the response arrive.
  function Arrives(size: nat, inbox: seq<Byte>, faults: Faults): (n: nat)
    ensures n <= |Body(inbox, faults)| && n <= Announced(size, inbox, faults)
  {
    Moves(|Body(inbox, faults)|, Announced(size, inbox, faults), faults.readBody)
  }

  /** The bytes handed to the protobuf library: those that arrived, then what the buffer held. */
  function Decoded(m: seq<Byte>, size: nat, stale: seq<Byte>, inbox: seq<Byte>, growth: nat, faults: Faults): seq<Byte>
    requires |stale| == MAX_MESSAGE_SIZE && Announced(size, inbox, faults) <= Capacity(m, growth)
  {
    var n := Arrives(size, inbox, faults);
    var read := inbox[..Moves(|inbox|, 4, faults.readSize)];
    var buf := Overlay(read, Filled(m, size, stale, growth));
    Overlay(Body(inbox, faults)[..n], buf)[..Announced(size, inbox, faults)]
  }

  lemma EffectOfDecoded(
    m: seq<Byte>, size: nat, stale: seq<Byte>, inbox: seq<Byte>, growth: nat, faults: Faults,
    decode: seq<Byte> -> Option<Response>
  )
    requires |stale| == MAX_MESSAGE_SIZE && Decodes(m, size, inbox, growth, faults)
    ensures ClientEffect(m, size, stale, inbox, growth, faults, decode).result
         == Verdict(decode(Decoded(m, size, stale, inbox, growth, faults)))
  {
    AnnouncedIsRead(m, size, stale, inbox, growth, faults);
  }

  /** The exchange completes if and only if nothing failed, the response fits, and what was decoded says
      OK. A refusal is reported with the server's own message. */
  lemma CompletesIff(
    m: seq<Byte>, size: nat, stale: seq<Byte>, inbox: seq<Byte>, growth: nat, faults: Faults,
    decode: seq<Byte> -> Option<Response>, c: Effect
  )
    requires |stale| == MAX_MESSAGE_SIZE && c == ClientEffect(m, size, stale, inbox, growth, faults, decode)
    ensures c.result == Completed <==>
            && Decodes(m, size, inbox, growth, faults)
            && var r := decode(Decoded(m, size, stale, inbox, growth, faults)); r.Some? && r.value.ok
    ensures Decodes(m, size, inbox, growth, faults) ==>
              match decode(Decoded(m, size, stale, inbox, growth, faults))
              case None => c.result == Failed(BadMessage)
              case Some(r) => !r.ok ==> c.result == Failed(Refused(r.message))
  {
    AnnouncedIsRead(m, size, stale, inbox, growth, faults);
    if Decodes(m, size, inbox, growth, faults) {
      EffectOfDecoded(m, size, stale, inbox, growth, faults, decode);
    }
  }

  /** What each call before the response returns, in the order in which they are made. */
  function Stages(m: seq<Byte>, inbox: seq<Byte>, faults: Faults): seq<Option<Error>> {
    [faults.token, faults.marshal, faults.writeDeadline, TransferError(4 + |m|, 4 + |m|, faults.write),
     faults.readDeadline, TransferError(|inbox|, 4, faults.readSize)]
  }

  /** The first call to fail ends the exchange with its own error: nothing is written before the third
      and nothing read before the last. If none of them fails and the response fits, a failed read of
      the response is reported. */
  lemma FirstFailureIsReported(
    m: seq<Byte>, size: nat, stale: seq<Byte>, inbox: seq<Byte>, growth: nat, faults: Faults,
    decode: seq<Byte> -> Option<Response>, c: Effect, i: nat
  )
    requires |stale| == MAX_MESSAGE_SIZE && c == ClientEffect(m, size, stale, inbox, growth, faults, decode)
    requires i <= 6 && forall j :: 0 <= j < i ==> Stages(m, inbox, faults)[j].None?
    ensures i < 6 && Stages(m, inbox, faults)[i].Some? ==>
              && c.result == Failed(Stages(m, inbox, faults)[i].value)
              && (i < 3 ==> c.written == [])
              && (i < 5 ==> c.consumed == 0)
    ensures i == 6 && Announced(size, inbox, faults) <= Capacity(m, growth) ==>
              match TransferError(|Body(inbox, faults)|, Announced(size, inbox, faults), faults.readBody)
              case Some(err) => c.result == Failed(err)
              case None => Decodes(m, size, inbox, growth, faults)
  {
    AnnouncedIsRead(m, size, stale, inbox, growth, faults);
    var stages := Stages(m, inbox, faults);
    assert |Frame(m, size)| == 4 + |m|;
    assert (i > 0 ==> stages[0].None?) && (i > 1 ==> stages[1].None?) && (i > 2 ==> stages[2].None?);
    assert (i > 3 ==> stages[3].None?) && (i > 4 ==> stages[4].None?) && (i > 5 ==> stages[5].None?);
  }

  /** Bytes left in the buffer by an earlier exchange are among those decoded: the response falls
      short and its announced length reaches beyond the client's own frame, which was built in the
      pooled buffer. */
  predicate Exposed(m: seq<Byte>, size: nat, inbox: seq<Byte>, growth: nat, faults: Faults) {
    && Decodes(m, size, inbox, growth, faults)
    && Arrives(size, inbox, faults) < Announced(size, inbox, faults)
    && 4 + |m| < Announced(size, inbox, faults)
    && 4 + |m| <= MAX_MESSAGE_SIZE
  }

  ghost predicate BufferIsInvisible(m: seq<Byte>, size: nat, inbox: seq<Byte>, growth: nat, faults: Faults) {
    forall stale1, stale2, decode :: |stale1| == MAX_MESSAGE_SIZE == |stale2| ==>
      ClientEffect(m, size, stale1, inbox, growth, faults, decode) ==
      ClientEffect(m, size, stale2, inbox, growth, faults, decode)
  }

  lemma FilledAt(m: seq<Byte>, size: nat, stale: seq<Byte>, growth: nat, k: nat)
    requires |stale| == MAX_MESSAGE_SIZE && k < Capacity(m, growth)
    ensures Filled(m, size, stale, growth)[k] ==
            if k < 4 + |m| then Frame(m, size)[k] else if 4 + |m| <= MAX_MESSAGE_SIZE then stale[k] else 0
  {
  }

  // Where each decoded byte comes from.
  lemma DecodedAt(
    m: seq<Byte>, size: nat, stale: seq<Byte>, inbox: seq<Byte>, growth: nat, faults: Faults, k: nat
  )
    requires |stale| == MAX_MESSAGE_SIZE && Announced(size, inbox, faults) <= Capacity(m, growth)
    requires k < Announced(size, inbox, faults)
    ensures Decoded(m, size, stale, inbox, growth, faults)[k] ==
            if k < Arrives(size, inbox, faults) then Body(inbox, faults)[k]
            else if k < Moves(|inbox|, 4, faults.readSize) then inbox[k]
            else Filled(m, size, stale, growth)[k]
  {
    var buf := Overlay(inbox[..Moves(|inbox|, 4, faults.readSize)], Filled(m, size, stale, growth));
    assert Overlay(Body(inbox, faults)[..Arrives(size, inbox, faults)], buf)[k] ==
           if k < Arrives(size, inbox, faults) then Body(inbox, faults)[k] else buf[k];
  }

  lemma DecodedAgree(
    m: seq<Byte>, size: nat, stale1: seq<Byte>, stale2: seq<Byte>, inbox: seq<Byte>, growth: nat, faults: Faults
  )
    requires |stale1| == MAX_MESSAGE_SIZE == |stale2|
    requires Decodes(m, size, inbox, growth, faults) && !Exposed(m, size, inbox, growth, faults)
    ensures Decoded(m, size, stale1, inbox, growth, faults) == Decoded(m, size, stale2, inbox, growth, faults)
  {
    var one := Decoded(m, size, stale1, inbox, growth, faults);
    var two := Decoded(m, size, stale2, inbox, growth, faults);
    forall k | 0 <= k < |one| ensures one[k] == two[k] {
      DecodedAt(m, size, stale1, inbox, growth, faults, k);
      DecodedAt(m, size, stale2, inbox, growth, faults, k);
      FilledAt(m, size, stale1, growth, k);
      FilledAt(m, size, stale2, growth, k);
    }
  }

  // The last byte decoded is one the buffer held.
  lemma LastIsStale(m: seq<Byte>, size: nat, stale: seq<Byte>, inbox: seq<Byte>, growth: nat, faults: Faults)
    requires |stale| == MAX_MESSAGE_SIZE && Exposed(m, size, inbox, growth, faults)
    ensures var last := Announced(size, inbox, faults) - 1;
            Decoded(m, size, stale, inbox, growth, faults)[last] == stale[last]
  {
    var last := Announced(size, inbox, faults) - 1;
    DecodedAt(m, size, stale, inbox, growth, faults, last);
    FilledAt(m, size, stale, growth, last);
  }

  lemma DecodedDiffer(
    m: seq<Byte>, size: nat, stale1: seq<Byte>, stale2: seq<Byte>, inbox: seq<Byte>, growth: nat, faults: Faults
  )
    requires |stale1| == MAX_MESSAGE_SIZE == |stale2|
    requires forall k :: 0 <= k < MAX_MESSAGE_SIZE ==> stale1[k] != stale2[k]
    requires Exposed(m, size, inbox, growth, faults)
    ensures Decoded(m, size, stale1, inbox, growth, faults) != Decoded(m, size, stale2, inbox, growth, faults)
  {
    LastIsStale(m, size, stale1, inbox, growth, faults);
    LastIsStale(m, size, stale2, inbox, growth, faults);
  }

  lemma UnexposedAgree(
    m: seq<Byte>, size: nat, stale1: seq<Byte>, stale2: seq<Byte>, inbox: seq<Byte>, growth: nat, faults: Faults,
    decode: seq<Byte> -> Option<Response>
  )
    requires |stale1| == MAX_MESSAGE_SIZE == |stale2| && !Exposed(m, size, inbox, growth, faults)
    ensures ClientEffect(m, size, stale1, inbox, growth, faults, decode) ==
            ClientEffect(m, size, stale2, inbox, growth, faults, decode)
  {
    AnnouncedIsRead(m, size, stale1, inbox, growth, faults);
    AnnouncedIsRead(m, size, stale2, inbox, growth, faults);
    if Decodes(m, size, inbox, growth, faults) {
      DecodedAgree(m, size, stale1, stale2, inbox, growth, faults);
      EffectOfDecoded(m, size, stale1, inbox, growth, faults, decode);
      EffectOfDecoded(m, size, stale2, inbox, growth, faults, decode);
    }
  }

  /** Buffers are reused without being cleared. That makes no difference to any exchange, whatever
      the decoder, if and only if no short read exposes what they held. */
  lemma BufferIsInvisibleIff(m: seq<Byte>, size: nat, inbox: seq<Byte>, growth: nat, faults: Faults)
    ensures BufferIsInvisible(m, size, inbox, growth, faults) <==> !Exposed(m, size, inbox, growth, faults)
  {
    if Exposed(m, size, inbox, growth, faults) {
      var stale1, stale2 := Zeros(MAX_MESSAGE_SIZE), seq(MAX_MESSAGE_SIZE, _ => 1);
      var mine := Decoded(m, size, stale1, inbox, growth, faults);
      var decode := (b: seq<Byte>) => if b == mine then Some(Response(true, "")) else None;
      DecodedDiffer(m, size, stale1, stale2, inbox, growth, faults);
      EffectOfDecoded(m, size, stale1, inbox, growth, faults, decode);
      EffectOfDecoded(m, size, stale2, inbox, growth, faults, decode);
    } else {
      forall stale1, stale2, decode | |stale1| == MAX_MESSAGE_SIZE == |stale2|
        ensures ClientEffect(m, size, stale1, inbox, growth, faults, decode) ==
                ClientEffect(m, size, stale2, inbox, growth, faults, decode)
      {
        UnexposedAgree(m, size, stale1, stale2, inbox, growth, faults, decode);
      }
    }
  }

  /** It happens after any request that leaves room in the pooled buffer: a response longer than the
      request's frame of which only the length and the first bytes have arrived. */
  lemma ShortReadExposes(m: seq<Byte>, response: seq<Byte>, moved: nat)
    requires 4 + |m| < |response| <= MAX_MESSAGE_SIZE && moved < |response|
    ensures var faults := NO_FAULTS.(readBody := Part(moved, None));
            !BufferIsInvisible(m, |m|, Stream(response, []), 0, faults)
  {
    var faults := NO_FAULTS.(readBody := Part(moved, None));
    StreamParts(response, []);
    var inbox := Stream(response, []);
    assert Overlay(inbox[..4], BE32(|m| % UINT32)) == inbox[..4];
    BufferIsInvisibleIff(m, |m|, inbox, 0, faults);
  }

  // A Write that moves fewer bytes than it was given returns an error, as io.Writer demands.
  predicate HonestWrite(n: nat, t: Transfer) {
    t.All? || t.err.Some? || t.moved >= n
  }

  /** Whatever fails, the client writes a prefix of its frame; unless something fails before the
      first read it writes all of it, and before it reads anything. */
  lemma WritesPrefixOfFrame(
    m: seq<Byte>, size: nat, stale: seq<Byte>, inbox: seq<Byte>, growth: nat, faults: Faults,
    decode: seq<Byte> -> Option<Response>, c: Effect
  )
    requires |stale| == MAX_MESSAGE_SIZE && c == ClientEffect(m, size, stale, inbox, growth, faults, decode)
    ensures c.written <= Frame(m, size)
    ensures && faults.token.None? && faults.marshal.None? && faults.writeDeadline.None?
            && HonestWrite(4 + |m|, faults.write) && TransferError(4 + |m|, 4 + |m|, faults.write).None?
            ==> c.written == Frame(m, size)
    ensures HonestWrite(4 + |m|, faults.write) && (c.consumed > 0 || c.result == Completed) ==>
              c.written == Frame(m, size)
    ensures c.result == Completed ==> Decodes(m, size, inbox, growth, faults)
  {
    AnnouncedIsRead(m, size, stale, inbox, growth, faults);
  }
}
