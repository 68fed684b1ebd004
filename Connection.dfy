/** lib/Connection.js: the client side of a connection. Incoming chunks drive
    a four-state machine (greeting, authentication reply, idle, awaiting a
    command's reply); commands queue a listener and send one frame. */
module Connections {
  import opened Octets
  import opened JsOps
  import opened Readers
  import opened Packets
  import opened Server
  import Outgoing
  import MySqlErrors
  import LegacyHandshake
  import LegacyGenericPacket

  type LegacyGeneric = LegacyGenericPacket.LegacyGeneric

  /** The hash the crypto module computes. */
  type Sha1 = Bytes -> Bytes

  /** SHA1 digests are 20 bytes long. */
  ghost predicate Digest20(sha1: Sha1)
  {
    forall b :: |sha1(b)| == 20
  }

  /** Connection.States. */
  datatype State = HANDSHAKE | AUTHENTICATE | CONNECTED | QUERYING

  /** Connection.Fetchstate; only NONE is ever stored. */
  datatype Fetchstate = NONE | STANDARD | RESULTSET

  /** The identity of a callback function. */
  type Callback = nat

  /** An entry of the listener queue; `None` is a missing callback. */
  datatype QueryListener = QueryListener(listener: Option<Callback>, packets: seq<Packet>, state: Fetchstate)

  /** The entry every command pushes. */
  function Waiting(cb: Option<Callback>): QueryListener
  {
    QueryListener(cb, [], NONE)
  }

  /** What the connection emits, and the callbacks it calls, in order. */
  datatype Event =
    | Authenticated(packet: LegacyGeneric)
    | Error(error: MySqlErrors.MySqlError, packet: LegacyGeneric)
    | UnknownAuthReply(packet: LegacyGeneric)
    | Answered(listener: Callback, packet: LegacyGeneric)

  /** Why handling a chunk threw: no packet header; the greeting parser given
      a Packet where it calls the Buffer method `slice` (a TypeError); a
      parser error; or a reply with no queued listener to read `.listener`
      from. */
  datatype Failure = NoPacket | NotABuffer | Thrown(error: ParseError) | NoListener

  /** The fields of a connection the protocol logic reads and writes; `sent`
      lists the buffers written to the socket, `events` what was emitted. */
  datatype Conn = Conn(
    user: JsString,
    password: Option<JsString>,
    state: State,
    server: Option<ServerInfo>,
    listeners: seq<QueryListener>,
    sent: seq<Bytes>,
    events: seq<Event>)

  /** The connection after a chunk, and what was thrown, if anything. */
  datatype Reaction = Reaction(next: Conn, failure: Option<Failure>)

  /** The constructor's password: a falsy password (none, or empty) is null,
      anything else is replaced by its SHA1 digest as a binary string. */
  function HashPassword(sha1: Sha1, password: Option<JsString>): (r: Option<JsString>)
    ensures r.Some? <==> password.Some? && password.value != []
    ensures r.Some? ==> LowBytes(r.value) == sha1(LowBytes(password.value))
  {
    if password.None? || password.value == [] then None
    else
      var digest := sha1(LowBytes(password.value));
      LowBytesOfBinary(digest);
      Some(BinaryString(digest))
  }

  /** The constructor's port: a falsy port (none, or 0) is 3306. */
  function PortOf(port: Option<int>): (r: int)
    ensures port.None? || port.value == 0 ==> r == 3306
    ensures port.Some? && port.value != 0 ==> r == port.value
  {
    if port.None? || port.value == 0 then 3306 else port.value
  }

  function XorByte(x: byte, y: byte): byte
  {
    BitXorBelow(x, y, 8);
    PowersOfTwo();
    BitXor(x, y)
  }

  /** `hashed[i] ^ b[i]` for every index of `hashed`; past the end of `b` the
      operand is undefined, which `^` treats as 0. */
  function Xor(hashed: Bytes, b: Bytes): (r: Bytes)
    ensures |r| == |hashed|
  {
    seq(|hashed|, i requires 0 <= i < |hashed| => if i < |b| then XorByte(hashed[i], b[i]) else hashed[i])
  }

  /** Masking twice with the same bytes unmasks. */
  lemma XorCancels(m: Bytes, s: Bytes)
    requires |m| == |s|
    ensures Xor(Xor(m, s), m) == s
  {
    forall i | 0 <= i < |s|
      ensures Xor(Xor(m, s), m)[i] == s[i]
    {
      BitXorCancels(m[i], s[i]);
    }
  }

  /** Connection.createScramble: nothing without a password; otherwise
      SHA1(scramble + SHA1(password)) masked with the password bytes, where
      the password is already the digest the constructor stored. */
  function Scramble(sha1: Sha1, scramble: Bytes, password: Option<JsString>): (r: JsString)
    ensures password.None? ==> r == []
    ensures password.Some? ==> |r| == |sha1(scramble + sha1(LowBytes(password.value)))|
  {
    if password.None? then []
    else
      var b := LowBytes(password.value);
      BinaryString(Xor(sha1(scramble + sha1(b)), b))
  }

  /** The masking loop, over the digest's buffer. */
  method CreateScramble(sha1: Sha1, scramble: Bytes, password: Option<JsString>) returns (r: JsString)
    ensures r == Scramble(sha1, scramble, password)
  {
    if password.None? {
      return [];
    }
    var b := LowBytes(password.value);
    var digest := sha1(scramble + sha1(b));
    var hashed := new byte[|digest|](i requires 0 <= i < |digest| => digest[i]);
    for i := 0 to hashed.Length
      invariant hashed[..i] == Xor(digest, b)[..i]
      invariant hashed[i..] == digest[i..]
    {
      hashed[i] := if i < |b| then XorByte(hashed[i], b[i]) else hashed[i];
      assert hashed[..i + 1] == hashed[..i] + [hashed[i]];
    }
    assert hashed[..] == hashed[..hashed.Length];
    r := BinaryString(hashed[..]);
  }

  /** The server's check of mysql_native_password: unmasking the token with
      SHA1(scramble + SHA1(SHA1(password))), which the server stores, gives
      SHA1(password), whose hash it can compare with what it stores. */
  lemma NativePasswordVerifies(sha1: Sha1, scramble: Bytes, plain: JsString)
    requires plain != [] && Digest20(sha1)
    ensures var stage1 := sha1(LowBytes(plain));
      var token := LowBytes(Scramble(sha1, scramble, HashPassword(sha1, Some(plain))));
      Xor(token, sha1(scramble + sha1(stage1))) == stage1
  {
    var stage1 := sha1(LowBytes(plain));
    var mask := sha1(scramble + sha1(stage1));
    LowBytesOfBinary(stage1);
    LowBytesOfBinary(Xor(mask, stage1));
    XorCancels(mask, stage1);
  }

  /** A token is sent exactly when a non-empty password was given, and then
      it has the 20 bytes of a digest. */
  lemma TokenLength(sha1: Sha1, scramble: Bytes, password: Option<JsString>)
    requires Digest20(sha1)
    ensures |Scramble(sha1, scramble, HashPassword(sha1, password))|
         == if password.None? || password.value == [] then 0 else 20
  {
  }

  /** The authentication packet authorize writes: the client capabilities,
      the largest packet size, charset 8, 23 filler bytes, the user with its
      terminator, then the token after its length. */
  function AuthPayload(user: JsString, token: JsString): Bytes
  {
    Outgoing.FixedNumberBytes(DefaultCapabilities(), 4) + Outgoing.FixedNumberBytes(4294967295, 4)
    + Outgoing.FixedNumberBytes(8, 1) + Zeros(23) + LowBytes(user) + [0]
    + Outgoing.WrittenLcb(Some(|token|)) + LowBytes(token)
  }

  /** A server reading the authentication packet with the protocol's readers
      finds every field that was written, as long as the user's bytes hold no
      terminator and the token is short. */
  lemma AuthPayloadReadsBack(user: JsString, token: JsString)
    requires 0 !in LowBytes(user) && |token| < 251
    ensures var d := AuthPayload(user, token);
      && ReadFixed(d, 0, 4) == Ok(Read(DefaultCapabilities(), 4))
      && ReadFixed(d, 4, 4) == Ok(Read(4294967295, 8))
      && ReadFixed(d, 8, 1) == Ok(Read(8, 9))
      && d[9..32] == Zeros(23)
      && ReadNullString(d, 32) == Read(LowBytes(user), 33 + |user|)
      && ReadLcbString(d, 33 + |user|) == Ok(Read(Some(LowBytes(token)), |d|))
  {
    var d := AuthPayload(user, token);
    var t := LowBytes(token);
    var back := LowBytes(user) + ([0] + (EncodeLcbString(Some(t)) + []));
    AuthLayout(user, token);
    AuthHeadReads(d, back);
    AuthTailReads(d, LowBytes(user), t);
  }

  /** The authentication packet as a head of fixed fields and a tail of
      strings. */
  lemma AuthLayout(user: JsString, token: JsString)
    requires |token| < 251
    ensures var back := LowBytes(user) + ([0] + (EncodeLcbString(Some(LowBytes(token))) + []));
      StartsAt(AuthPayload(user, token), 0, AuthHead() + back)
  {
    var d := AuthPayload(user, token);
    var t := LowBytes(token);
    Outgoing.WrittenLcbEncoding(|token|);
    var w := Outgoing.WrittenLcb(Some(|token|));
    assert EncodeLcbString(Some(t)) == w + t;
    WrittenHead();
    TailRegroup(AuthHead(), LowBytes(user), w, t);
    assert d[0..|d|] == d;
  }

  lemma WrittenHead()
    ensures Outgoing.FixedNumberBytes(DefaultCapabilities(), 4) + Outgoing.FixedNumberBytes(4294967295, 4)
      + Outgoing.FixedNumberBytes(8, 1) + Zeros(23) == AuthHead()
  {
    DefaultCapabilitiesValue();
    Outgoing.FixedNumberLowBytes(DefaultCapabilities(), 4);
    Outgoing.FixedNumberLowBytes(4294967295, 4);
    Outgoing.FixedNumberLowBytes(8, 1);
  }

  /** The writer's array is its four header cells followed by the payload. */
  lemma HeaderRegroup(h: Bytes, p1: Bytes, p2: Bytes, p3: Bytes, p4: Bytes, u: Bytes, w: Bytes, t: Bytes)
    requires |h| == 4
    ensures (h + p1 + p2 + p3 + p4 + u + [0] + w + t)[4..] == p1 + p2 + p3 + p4 + u + [0] + w + t
  {
  }

  lemma TailRegroup(h: Bytes, u: Bytes, w: Bytes, t: Bytes)
    ensures h + u + [0] + w + t == h + (u + ([0] + ((w + t) + [])))
  {
  }

  /** The fixed fields of the authentication packet, as the writer lays them
      out. */
  function AuthHead(): (r: Bytes)
    ensures |r| == 32
  {
    ToLE(DefaultCapabilities(), 4) + ToLE(4294967295, 4) + [8] + Zeros(23)
  }

  lemma AuthHeadReads(d: Bytes, back: Bytes)
    requires StartsAt(d, 0, AuthHead() + back)
    ensures ReadFixed(d, 0, 4) == Ok(Read(DefaultCapabilities(), 4))
    ensures ReadFixed(d, 4, 4) == Ok(Read(4294967295, 8))
    ensures ReadFixed(d, 8, 1) == Ok(Read(8, 9))
    ensures d[9..32] == Zeros(23) && StartsAt(d, 32, back)
  {
    DefaultCapabilitiesValue();
    FourBytes();
    var r3 := Zeros(23) + back;
    var r2 := [8] + r3;
    var r1 := ToLE(4294967295, 4) + r2;
    HeadRegroup(ToLE(DefaultCapabilities(), 4), ToLE(4294967295, 4), Zeros(23), back);
    FixedThen(d, 0, DefaultCapabilities(), 4, r1);
    FixedThen(d, 4, 4294967295, 4, r2);
    ByteThen(d, 8, 8, r3);
    SplitAt(d, 9, Zeros(23), back);
  }

  lemma FourBytes()
    ensures Pow256(4) == 0x1_0000_0000
  {
    assert Pow256(2) == 65536;
  }

  lemma HeadRegroup(a: Bytes, b: Bytes, z: Bytes, back: Bytes)
    ensures a + b + [8] + z + back == a + (b + ([8] + (z + back)))
  {
  }

  lemma AuthTailReads(d: Bytes, u: Bytes, t: Bytes)
    requires 0 !in u && |t| < 251
    requires StartsAt(d, 32, u + ([0] + (EncodeLcbString(Some(t)) + []))) && |d| == 33 + |u| + |EncodeLcbString(Some(t))|
    ensures ReadNullString(d, 32) == Read(u, 33 + |u|)
    ensures ReadLcbString(d, 33 + |u|) == Ok(Read(Some(t), |d|))
  {
    NullStringThen(d, 32, u, EncodeLcbString(Some(t)) + []);
    LcbStringThen(d, 33 + |u|, Some(t), []);
  }

  // The state machine, one function per way in.

  /** authorize(scramble): one frame, packet number 1, holding the
      authentication packet. */
  function Authorized(c: Conn, scramble: Bytes, sha1: Sha1): Conn
  {
    c.(sent := c.sent + [Outgoing.Frame(AuthPayload(c.user, Scramble(sha1, scramble, c.password)), 1)])
  }

  /** The error an ERR reply is reported as. */
  function AsError(g: LegacyGeneric): MySqlErrors.MySqlError
    requires g.errNo.Some? && g.sqlState.Some? && g.message.Some?
  {
    MySqlErrors.MySqlError(g.errNo.value, Some(BinaryString(g.sqlState.value)), Some(BinaryString(g.message.value)))
  }

  /** data(chunk): build the packet, then act on it according to the state.
      In HANDSHAKE the packet, not the chunk, goes to the greeting parser,
      whose Packet constructor calls `slice` on it and throws before anything
      is changed. */
  function Receive(c: Conn, chunk: Bytes): Reaction
  {
    match FromChunk(chunk)
    case None => Reaction(c, Some(NoPacket))
    case Some(p) =>
      match c.state
      case HANDSHAKE => Reaction(c, Some(NotABuffer))
      case AUTHENTICATE => OnAuthReply(c, p)
      case CONNECTED => Reaction(c, None)
      case QUERYING => OnReply(c, p)
  }

  /** data(chunk) with the greeting branch as evidently intended: the chunk
      itself goes to the greeting parser. `shared` is the server record that
      parser starts from and `blank` the contents of its fresh 20-byte
      scramble buffer. Every other branch is the one the code runs. */
  function IntendedReceive(c: Conn, chunk: Bytes, sha1: Sha1, shared: ServerInfo, blank: Bytes): Reaction
    requires |blank| == 20
  {
    if c.state == HANDSHAKE && |chunk| >= 4 then IntendedOnGreeting(c, FromChunk(chunk).value, sha1, shared, blank)
    else Receive(c, chunk)
  }

  /** The greeting, as intended: remember the server, answer with the
      authentication packet, wait for its reply. */
  function IntendedOnGreeting(c: Conn, p: Packet, sha1: Sha1, shared: ServerInfo, blank: Bytes): Reaction
    requires |blank| == 20
  {
    match LegacyHandshake.Decode(p, shared, blank)
    case Fail(e) => Reaction(c, Some(Thrown(e)))
    case Ok(g) => Reaction(Authorized(c.(server := Some(g.server)), g.scramble, sha1).(state := AUTHENTICATE), None)
  }

  /** The reply to the authentication packet: OK connects, ERR reports the
      server's error and stays. */
  function OnAuthReply(c: Conn, p: Packet): Reaction
  {
    match LegacyGenericPacket.Decode(p)
    case Fail(e) => Reaction(c, Some(Thrown(e)))
    case Ok(g) =>
      if g.fieldCount == 0x00 then
        Reaction(c.(state := CONNECTED, events := c.events + [Authenticated(g)]), None)
      else if g.fieldCount == 0xFF then
        Reaction(c.(events := c.events + [Error(AsError(g), g)]), None)
      else
        Reaction(c.(events := c.events + [UnknownAuthReply(g)]), None)
  }

  /** The reply to a command: on OK or ERR the connection is idle again and
      the oldest listener is taken off the queue and called; any other first
      byte is ignored. */
  function OnReply(c: Conn, p: Packet): Reaction
  {
    match ReadFixed(p.data, 0, 1)
    case Fail(e) => Reaction(c, Some(Thrown(e)))
    case Ok(first) =>
      if first.value == 0x00 || first.value == 0xFF then
        var idle := c.(state := CONNECTED);
        match LegacyGenericPacket.Decode(p)
        case Fail(e) => Reaction(idle, Some(Thrown(e)))
        case Ok(g) =>
          if idle.listeners == [] then Reaction(idle, Some(NoListener))
          else
            var head := idle.listeners[0];
            var rest := idle.(listeners := idle.listeners[1..]);
            if head.listener.Some? then Reaction(rest.(events := rest.events + [Answered(head.listener.value, g)]), None)
            else Reaction(rest, None)
      else Reaction(c, None)
  }

  /** A command: the opcode and the argument's bytes in one frame, with a
      listener queued for its reply. */
  function Commanded(c: Conn, opcode: byte, arg: JsString, cb: Option<Callback>): Conn
  {
    c.(state := QUERYING, listeners := c.listeners + [Waiting(cb)],
       sent := c.sent + [Outgoing.Frame([opcode] + LowBytes(arg), 0)])
  }

  /** close(cb): COM_QUIT, then straight back to the handshake state. */
  function Closed(c: Conn, cb: Option<Callback>): Conn
  {
    Commanded(c, 0x01, [], cb).(state := HANDSHAKE)
  }

  /** destroy(): back to the handshake state; the queue is kept. */
  function Destroyed(c: Conn): Conn
  {
    c.(state := HANDSHAKE)
  }

  /** selectDb(db, cb): COM_INIT_DB. */
  function SelectedDb(c: Conn, db: JsString, cb: Option<Callback>): Conn
  {
    Commanded(c, 0x02, db, cb)
  }

  /** query(cmd, cb): COM_QUERY. getBuffer is called without a packet number,
      which the header byte stores as 0. */
  function Queried(c: Conn, cmd: JsString, cb: Option<Callback>): Conn
  {
    Commanded(c, 0x03, cmd, cb)
  }

  // What the state machine promises.

  /** Without a full header nothing happens; an idle connection ignores every
      packet. */
  lemma IdleIgnoresData(c: Conn, chunk: Bytes)
    requires c.state == CONNECTED || |chunk| < 4
    ensures Receive(c, chunk).next == c
    ensures Receive(c, chunk).failure == if |chunk| < 4 then Some(NoPacket) else None
  {
  }

  /** Every chunk that reaches the greeting branch throws and changes nothing,
      so the connection never leaves HANDSHAKE on its own and never answers a
      greeting. */
  lemma HandshakeAlwaysThrows(c: Conn, chunk: Bytes)
    requires c.state == HANDSHAKE
    ensures Receive(c, chunk).next == c
    ensures Receive(c, chunk).failure == Some(if |chunk| < 4 then NoPacket else NotABuffer)
  {
  }

  /** As intended, a greeting the parser accepts is answered by exactly one
      frame, packet number 1, carrying the authentication packet for this user
      and the greeting's scramble; a rejected greeting changes nothing. */
  lemma GreetingAnswered(c: Conn, chunk: Bytes, sha1: Sha1, shared: ServerInfo, blank: Bytes)
    requires |blank| == 20 && c.state == HANDSHAKE && |chunk| >= 4
    ensures var r := IntendedReceive(c, chunk, sha1, shared, blank);
      var g := LegacyHandshake.Decode(FromChunk(chunk).value, shared, blank);
      && (g.Fail? ==> r == Reaction(c, Some(Thrown(g.error))))
      && (g.Ok? ==>
        var payload := AuthPayload(c.user, Scramble(sha1, g.value.scramble, c.password));
        && r.failure.None? && r.next.state == AUTHENTICATE && r.next.server == Some(g.value.server)
        && r.next.listeners == c.listeners && r.next.events == c.events
        && |r.next.sent| == |c.sent| + 1 && r.next.sent[..|c.sent|] == c.sent
        && FromChunk(r.next.sent[|c.sent|]) == Some(Packet(|payload| % 0x100_0000, 1, payload)))
  {
    var g := LegacyHandshake.Decode(FromChunk(chunk).value, shared, blank);
    if g.Ok? {
      var payload := AuthPayload(c.user, Scramble(sha1, g.value.scramble, c.password));
      var r := IntendedReceive(c, chunk, sha1, shared, blank);
      assert r.next.sent == c.sent + [Outgoing.Frame(payload, 1)];
      LastFrameReads(c.sent, r.next.sent, payload, 1);
    }
  }

  /** The corrected data handler differs from the code only on a full chunk in
      HANDSHAKE. */
  lemma IntendedDiffersOnlyInHandshake(c: Conn, chunk: Bytes, sha1: Sha1, shared: ServerInfo, blank: Bytes)
    requires |blank| == 20
    ensures c.state != HANDSHAKE || |chunk| < 4 ==> IntendedReceive(c, chunk, sha1, shared, blank) == Receive(c, chunk)
  {
  }

  /** The frame appended last to the written buffers reads back as a packet. */
  lemma LastFrameReads(before: seq<Bytes>, after: seq<Bytes>, payload: Bytes, packetNo: byte)
    requires after == before + [Outgoing.Frame(payload, packetNo)]
    ensures |after| == |before| + 1 && after[..|before|] == before
    ensures FromChunk(after[|before|]) == Some(Packet(|payload| % 0x100_0000, packetNo, payload))
  {
    FromFrame(payload, packetNo);
  }

  /** The authentication reply: OK connects and announces it; ERR reports the
      server's number, state and message and stays; any other first byte
      throws, so the unknown-packet branch is never reached. */
  lemma AuthReplyOutcome(c: Conn, chunk: Bytes)
    requires c.state == AUTHENTICATE && |chunk| >= 4
    ensures var r := Receive(c, chunk);
      var d := chunk[4..];
      && (r.failure.Some? ==> r.next == c)
      && (r.failure.None? ==> |r.next.events| == |c.events| + 1 && !r.next.events[|c.events|].UnknownAuthReply?)
      && (|d| == 0 ==> r.failure.Some?)
      && (|d| > 0 && d[0] == 0x00 ==>
            r == Reaction(c.(state := CONNECTED,
                             events := c.events + [Authenticated(LegacyGenericPacket.LegacyGeneric(0, None, None, None))]), None))
      && (|d| > 0 && d[0] == 0xFF ==>
            && (r.failure.None? <==> |d| >= 9)
            && (|d| >= 9 ==>
                  && r.next.state == AUTHENTICATE && r.next.events[..|c.events|] == c.events
                  && r.next.events[|c.events|].Error?
                  && r.next.events[|c.events|].error
                     == MySqlErrors.MySqlError(LE(d[1..3]), Some(BinaryString(d[4..9])), Some(BinaryString(d[9..])))))
      && (|d| > 0 && d[0] != 0x00 && d[0] != 0xFF ==> r == Reaction(c, Some(Thrown(UnknownPacket(d[0])))))
  {
  }

  /** The intended greeting branch: a failed parse throws with nothing
      changed; otherwise the server is stored, authorize runs and the
      connection waits for the authentication reply. */
  lemma GreetingOutcome(c: Conn, p: Packet, sha1: Sha1, shared: ServerInfo, blank: Bytes, g: Result<LegacyHandshake.LegacyGreeting>)
    requires |blank| == 20 && g == LegacyHandshake.Decode(p, shared, blank)
    ensures g.Fail? ==> IntendedOnGreeting(c, p, sha1, shared, blank) == Reaction(c, Some(Thrown(g.error)))
    ensures g.Ok? ==>
      IntendedOnGreeting(c, p, sha1, shared, blank)
        == Reaction(Authorized(c.(server := Some(g.value.server)), g.value.scramble, sha1).(state := AUTHENTICATE), None)
  {
  }

  /** A reply that ends a command goes to the oldest listener: the queue
      loses its head, the head's callback (if any) gets the packet, and the
      connection is idle. */
  lemma ReplyAnswersOldest(c: Conn, chunk: Bytes)
    requires c.state == QUERYING && c.listeners != []
    requires |chunk| >= 5 && (chunk[4] == 0x00 || (chunk[4] == 0xFF && |chunk| >= 13))
    ensures var r := Receive(c, chunk);
      var g := LegacyGenericPacket.Decode(FromChunk(chunk).value);
      var head := c.listeners[0].listener;
      && g.Ok? && r.failure.None?
      && r.next.state == CONNECTED && r.next.listeners == c.listeners[1..] && r.next.sent == c.sent
      && r.next.events == c.events + (if head.Some? then [Answered(head.value, g.value)] else [])
  {
    ReadByte(chunk[4..], 0);
  }

  /** The same reply with an empty queue throws, after the connection has
      already become idle; a malformed ERR throws the same way and keeps the
      queue. */
  lemma ReplyFailures(c: Conn, chunk: Bytes)
    requires c.state == QUERYING
    requires |chunk| >= 5 && (chunk[4] == 0x00 || chunk[4] == 0xFF)
    ensures var r := Receive(c, chunk);
      && (chunk[4] == 0xFF && |chunk| < 13 ==> r.next == c.(state := CONNECTED) && r.failure.Some? && r.failure.value.Thrown?)
      && ((chunk[4] == 0x00 || |chunk| >= 13) && c.listeners == [] ==> r == Reaction(c.(state := CONNECTED), Some(NoListener)))
  {
    ReadByte(chunk[4..], 0);
  }

  /** A reply whose first byte is neither OK nor ERR leaves everything as it
      was; an empty one throws. */
  lemma OtherReplyIgnored(c: Conn, chunk: Bytes)
    requires c.state == QUERYING && |chunk| >= 4
    requires |chunk| == 4 || (chunk[4] != 0x00 && chunk[4] != 0xFF)
    ensures var r := Receive(c, chunk);
      r.next == c && (r.failure.None? <==> |chunk| > 4)
  {
    if |chunk| > 4 {
      ReadByte(chunk[4..], 0);
    }
  }

  /** Two commands issued back to back: the first reply answers the first
      callback and makes the connection idle, so the second reply is ignored
      and the second callback stays queued until the reply to some later
      command is handed to it (`CloseListenerTakesNextReply` shows that). */
  lemma SecondCommandStranded(c: Conn, q1: JsString, q2: JsString, cb1: Callback, cb2: Callback, ok1: Bytes, ok2: Bytes)
    requires c.listeners == []
    requires |ok1| >= 5 && ok1[4] == 0x00 && |ok2| >= 5 && ok2[4] == 0x00
    ensures var pending := Queried(Queried(c, q1, Some(cb1)), q2, Some(cb2));
      var r1 := Receive(pending, ok1);
      var r2 := Receive(r1.next, ok2);
      && r1.failure.None? && r1.next.state == CONNECTED
      && r1.next.events == c.events + [Answered(cb1, LegacyGenericPacket.LegacyGeneric(0, None, None, None))]
      && r1.next.listeners == [Waiting(Some(cb2))]
      && r2 == Reaction(r1.next, None)
  {
    var pending := Queried(Queried(c, q1, Some(cb1)), q2, Some(cb2));
    assert pending.listeners == [Waiting(Some(cb1)), Waiting(Some(cb2))];
    ReplyAnswersOldest(pending, ok1);
  }

  /** close leaves the connection in HANDSHAKE with its listener queued, and
      the chunk that arrives next changes nothing, so that listener is not
      called by it. */
  lemma CloseListenerWaits(c: Conn, cb: Option<Callback>, chunk: Bytes)
    ensures var closed := Closed(c, cb);
      && closed.state == HANDSHAKE && closed.listeners == c.listeners + [Waiting(cb)]
      && Receive(closed, chunk).next == closed
  {
  }

  /** The listener close leaves queued takes the reply of the next command:
      after close and a query on an empty queue, the query's OK goes to
      close's callback and the query's own callback is left waiting. */
  lemma CloseListenerTakesNextReply(c: Conn, cb1: Callback, q: JsString, cb2: Callback, ok: Bytes)
    requires c.listeners == []
    requires |ok| >= 5 && ok[4] == 0x00
    ensures var pending := Queried(Closed(c, Some(cb1)), q, Some(cb2));
      var r := Receive(pending, ok);
      && r.failure.None? && r.next.state == CONNECTED
      && r.next.events == c.events + [Answered(cb1, LegacyGenericPacket.LegacyGeneric(0, None, None, None))]
      && r.next.listeners == [Waiting(Some(cb2))]
  {
    var pending := Queried(Closed(c, Some(cb1)), q, Some(cb2));
    assert pending.listeners == [Waiting(Some(cb1)), Waiting(Some(cb2))];
    ReplyAnswersOldest(pending, ok);
  }

  /** destroy keeps every queued listener, and neither the next chunk nor an
      intended greeting releases them. */
  lemma DestroyKeepsListeners(c: Conn, chunk: Bytes, sha1: Sha1, shared: ServerInfo, blank: Bytes)
    requires |blank| == 20
    ensures Destroyed(c).state == HANDSHAKE
    ensures Receive(Destroyed(c), chunk).next == Destroyed(c)
    ensures IntendedReceive(Destroyed(c), chunk, sha1, shared, blank).next.listeners == c.listeners
  {
  }

  /** Each command's frame reads back as a packet numbered 0 whose payload is
      the opcode followed by the argument's low bytes; the queue grows by the
      command's listener. */
  lemma CommandFrame(c: Conn, opcode: byte, arg: JsString, cb: Option<Callback>)
    ensures var next := Commanded(c, opcode, arg, cb);
      var payload := [opcode] + LowBytes(arg);
      && next.state == QUERYING && next.listeners == c.listeners + [Waiting(cb)]
      && |next.sent| == |c.sent| + 1 && next.sent[..|c.sent|] == c.sent
      && FromChunk(next.sent[|c.sent|]) == Some(Packet((1 + |arg|) % 0x100_0000, 0, payload))
  {
    var next := Commanded(c, opcode, arg, cb);
    FromFrame([opcode] + LowBytes(arg), 0);
    assert next.sent[|c.sent|] == Outgoing.Frame([opcode] + LowBytes(arg), 0);
  }

  /** The writes authorize makes, in order, into a fresh outgoing packet. */
  method AuthPacket(user: JsString, token: JsString) returns (buffer: Bytes)
    ensures buffer == Outgoing.Frame(AuthPayload(user, token), 1)
  {
    var out := new Outgoing.OutgoingPacket();
    out.WriteFixedNumber(DefaultCapabilities(), 4);
    out.WriteFixedNumber(4294967295, 4);
    out.WriteFixedNumber(8, 1);
    out.WriteFiller(23);
    out.WriteString(user, false);
    out.WriteLengthString(token);
    HeaderRegroup([0, 0, 0, 0], Outgoing.FixedNumberBytes(DefaultCapabilities(), 4),
      Outgoing.FixedNumberBytes(4294967295, 4), Outgoing.FixedNumberBytes(8, 1), Zeros(23),
      LowBytes(user), Outgoing.WrittenLcb(Some(|token|)), LowBytes(token));
    buffer := out.GetBuffer(1);
  }

  /** The connection object: the fields the source keeps, plus the frames it
      wrote to the socket and the events it emitted. */
  class Connection {
    var host: Option<JsString>
    var port: int
    var user: JsString
    var password: Option<JsString>
    var state: State
    var server: Option<ServerInfo>
    var listeners: seq<QueryListener>
    ghost var sent: seq<Bytes>
    ghost var events: seq<Event>

    ghost function Model(): Conn
      reads this
    {
      Conn(user, password, state, server, listeners, sent, events)
    }

    /** new Connection(user, password, host, port); the socket is not
        modelled. */
    constructor(user: JsString, password: Option<JsString>, host: Option<JsString>, port: Option<int>, sha1: Sha1)
      ensures Model() == Conn(user, HashPassword(sha1, password), HANDSHAKE, None, [], [], [])
      ensures this.host == host && this.port == PortOf(port)
    {
      this.host := host;
      this.user := user;
      this.password := HashPassword(sha1, password);
      this.port := PortOf(port);
      this.listeners := [];
      this.state := HANDSHAKE;
      this.server := None;
      this.sent := [];
      this.events := [];
    }

    /** data(chunk). In HANDSHAKE the Packet object, not the chunk, is handed
        to the greeting parser, whose Packet constructor calls the Buffer
        method `slice` on it and throws. */
    method Data(chunk: Bytes) returns (failure: Option<Failure>)
      modifies this
      ensures Reaction(Model(), failure) == Receive(old(Model()), chunk)
      ensures host == old(host) && port == old(port)
    {
      var packet := FromChunk(chunk);
      if packet.None? {
        return Some(NoPacket);
      }
      var p := packet.value;
      match state
      case HANDSHAKE =>
        failure := Some(NotABuffer);
      case AUTHENTICATE =>
        failure := AuthReply(p);
      case CONNECTED =>
        failure := None;
      case QUERYING =>
        failure := Reply(p);
    }

    /** The HANDSHAKE branch of data as intended: the received buffer handed
        to the greeting parser. */
    method IntendedGreet(p: Packet, sha1: Sha1, shared: ServerInfo, blank: Bytes) returns (failure: Option<Failure>)
      requires |blank| == 20
      modifies this
      ensures Reaction(Model(), failure) == IntendedOnGreeting(old(Model()), p, sha1, shared, blank)
      ensures host == old(host) && port == old(port)
    {
      var greeting := LegacyHandshake.Parse(p, shared, blank);
      GreetingOutcome(Model(), p, sha1, shared, blank, greeting);
      if greeting.Fail? {
        return Some(Thrown(greeting.error));
      }
      server := Some(greeting.value.server);
      Authorize(greeting.value.scramble, sha1);
      state := AUTHENTICATE;
      failure := None;
    }

    /** The AUTHENTICATE branch of data. */
    method AuthReply(p: Packet) returns (failure: Option<Failure>)
      modifies this
      ensures Reaction(Model(), failure) == OnAuthReply(old(Model()), p)
      ensures host == old(host) && port == old(port)
    {
      var reply := LegacyGenericPacket.Parse(p);
      if reply.Fail? {
        return Some(Thrown(reply.error));
      }
      var g := reply.value;
      if g.fieldCount == 0x00 {
        state := CONNECTED;
        events := events + [Authenticated(g)];
      } else if g.fieldCount == 0xFF {
        events := events + [Error(AsError(g), g)];
      } else {
        // The parser rejects every other first byte.
        assert false;
      }
      failure := None;
    }

    /** The QUERYING branch of data. */
    method Reply(p: Packet) returns (failure: Option<Failure>)
      modifies this
      ensures Reaction(Model(), failure) == OnReply(old(Model()), p)
      ensures host == old(host) && port == old(port)
    {
      var first := ReadFixed(p.data, 0, 1);
      if first.Fail? {
        return Some(Thrown(first.error));
      }
      failure := None;
      if first.value.value == 0x00 || first.value.value == 0xFF {
        state := CONNECTED;
        var reply := LegacyGenericPacket.Parse(p);
        if reply.Fail? {
          return Some(Thrown(reply.error));
        }
        if listeners == [] {
          return Some(NoListener);
        }
        var head := listeners[0];
        listeners := listeners[1..];
        if head.listener.Some? {
          events := events + [Answered(head.listener.value, reply.value)];
        }
      }
    }

    /** authorize(scramble). */
    method Authorize(scramble: Bytes, sha1: Sha1)
      modifies this
      ensures Model() == Authorized(old(Model()), scramble, sha1)
      ensures host == old(host) && port == old(port)
    {
      var token := CreateScramble(sha1, scramble, password);
      var buffer := AuthPacket(user, token);
      sent := sent + [buffer];
    }

    /** close(cb). */
    method Close(cb: Option<Callback>)
      modifies this
      ensures Model() == Closed(old(Model()), cb)
      ensures host == old(host) && port == old(port)
    {
      var out := new Outgoing.OutgoingPacket();
      out.WriteFixedNumber(0x01, 1);
      assert out.Payload() == [0x01] + LowBytes([]) by {
        Outgoing.FixedNumberLowBytes(0x01, 1);
      }
      state := QUERYING;
      listeners := listeners + [Waiting(cb)];
      var buffer := out.GetBuffer(0);
      sent := sent + [buffer];
      state := HANDSHAKE;
    }

    /** destroy(); ending the socket is not modelled. */
    method Destroy()
      modifies this
      ensures Model() == Destroyed(old(Model()))
      ensures host == old(host) && port == old(port)
    {
      state := HANDSHAKE;
    }

    /** selectDb(db, cb). */
    method SelectDb(db: JsString, cb: Option<Callback>)
      modifies this
      ensures Model() == SelectedDb(old(Model()), db, cb)
      ensures host == old(host) && port == old(port)
    {
      var out := new Outgoing.OutgoingPacket();
      out.WriteFixedNumber(0x02, 1);
      out.WriteString(db, true);
      assert out.Payload() == [0x02] + LowBytes(db) by {
        Outgoing.FixedNumberLowBytes(0x02, 1);
      }
      state := QUERYING;
      listeners := listeners + [Waiting(cb)];
      var buffer := out.GetBuffer(0);
      sent := sent + [buffer];
    }

    /** query(cmd, cb). */
    method Query(cmd: JsString, cb: Option<Callback>)
      modifies this
      ensures Model() == Queried(old(Model()), cmd, cb)
      ensures host == old(host) && port == old(port)
    {
      var out := new Outgoing.OutgoingPacket();
      out.WriteFixedNumber(0x03, 1);
      out.WriteString(cmd, true);
      assert out.Payload() == [0x03] + LowBytes(cmd) by {
        Outgoing.FixedNumberLowBytes(0x03, 1);
      }
      state := QUERYING;
      listeners := listeners + [Waiting(cb)];
      var buffer := out.GetBuffer(0);
      sent := sent + [buffer];
    }
  }
}
