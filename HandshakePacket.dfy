/** lib/packets/HandshakePacket.js: the protocol-10 greeting read with the
    cursor API into a fresh Server object and a 20-byte scramble. */
module HandshakeV10 {
  import opened Octets
  import opened Readers
  import opened Packets
  import opened Server

  /** The parsed greeting: the server description and the scramble buffer. */
  datatype Greeting = Greeting(server: ServerInfo, scramble: Bytes)

  /** The reads in source order. `blank` is what `new Buffer(20)` holds
      before anything is copied into it. The first copy takes the 8 bytes
      after the thread id; 9 bytes are skipped; capabilities, charset and
      status follow; 13 bytes are skipped; the second copy fills the scramble
      from byte 8 with the payload up to, but not including, its last byte
      by the header's length. */
  function Decode(p: Packet, blank: Bytes): (r: Result<Greeting>)
    requires |blank| == 20
    ensures r.Ok? ==> |p.data| >= 1 && r.value.server.protocolVersion == Some(p.data[0])
    ensures r.Ok? ==> |r.value.scramble| == 20
    ensures r.Ok? ==> var s := r.value.server;
      && s.serverVersion.Some? && 0 !in s.serverVersion.value
      && s.threadNo.Some? && 0 <= s.threadNo.value < 0x1_0000_0000 && s.threadNr.None?
      && 0 <= s.capabilities < 0x1_0000
      && s.charset.Some? && s.charset.value < 0x100
      && s.status.Some? && s.status.value < 0x1_0000
  {
    var protocolVersion :- ReadFixed(p.data, 0, 1);
    ReadByte(p.data, 0);
    var serverVersion := ReadNullString(p.data, 1);
    var threadNo :- ReadFixed(p.data, serverVersion.next, 4);
    var front := BufferCopy(blank, 0, p.data, threadNo.next, threadNo.next + 8);
    var capabilities :- ReadFixed(p.data, threadNo.next + 9, 2);
    var charset :- ReadFixed(p.data, capabilities.next, 1);
    var status :- ReadFixed(p.data, charset.next, 2);
    var scramble := BufferCopy(front, 8, p.data, status.next + 13, p.length - 1);
    LcbWidths();
    assert Pow256(1) == 0x100 && Pow256(4) == 0x1_0000_0000;
    Ok(Greeting(
      ServerInfo(Some(protocolVersion.value), Some(serverVersion.value), Some(threadNo.value), None,
                 capabilities.value, Some(charset.value), Some(status.value)),
      scramble))
  }

  /** new HandshakePacket(packet): the constructor's reads and copies on one
      cursor, with the explicit `+= 9` and `+= 13` skips. */
  method Parse(p: Packet, blank: Bytes) returns (r: Result<Greeting>)
    requires |blank| == 20
    ensures r == Decode(p, blank)
  {
    var scramble := blank;
    var index := 0;
    var protocolVersion :- ReadFixed(p.data, index, 1);
    index := protocolVersion.next;
    var serverVersion := ReadNullString(p.data, index);
    index := serverVersion.next;
    var threadNo :- ReadFixed(p.data, index, 4);
    index := threadNo.next;
    scramble := BufferCopy(scramble, 0, p.data, index, index + 8);
    index := index + 9;
    var capabilities :- ReadFixed(p.data, index, 2);
    index := capabilities.next;
    var charset :- ReadFixed(p.data, index, 1);
    index := charset.next;
    var status :- ReadFixed(p.data, index, 2);
    index := status.next;
    index := index + 13;
    scramble := BufferCopy(scramble, 8, p.data, index, p.length - 1);
    r := Ok(Greeting(
      ServerInfo(Some(protocolVersion.value), Some(serverVersion.value), Some(threadNo.value), None,
                 capabilities.value, Some(charset.value), Some(status.value)),
      scramble));
  }

  /** A greeting as a server sends it: protocol version, NUL-terminated
      version string, thread id, the first 8 scramble bytes, one filler byte,
      capabilities, charset, status, 13 reserved bytes, the last 12 scramble
      bytes and their terminator. */
  function Encode(protocolVersion: byte, serverVersion: Bytes, threadNo: nat, scramble: Bytes, filler: byte,
                  capabilities: nat, charset: byte, status: nat, reserved: Bytes): (r: Bytes)
    requires |scramble| == 20 && |reserved| == 13
    ensures |r| == |serverVersion| + 46
  {
    [protocolVersion] + serverVersion + [0] + ToLE(threadNo, 4) + scramble[..8] + [filler]
    + ToLE(capabilities, 2) + [charset] + ToLE(status, 2) + reserved + scramble[8..] + [0]
  }

  /** Every field of a greeting is read back, and the whole 20-byte scramble
      is recovered whatever the buffer held before. */
  lemma RoundTrip(protocolVersion: byte, serverVersion: Bytes, threadNo: nat, scramble: Bytes, filler: byte,
                  capabilities: nat, charset: byte, status: nat, reserved: Bytes, nr: byte, blank: Bytes)
    requires |scramble| == 20 && |reserved| == 13 && |blank| == 20
    requires 0 !in serverVersion && threadNo < 0x1_0000_0000
    requires capabilities < 0x1_0000 && status < 0x1_0000
    ensures var e := Encode(protocolVersion, serverVersion, threadNo, scramble, filler, capabilities, charset, status, reserved);
      Decode(Packet(|e|, nr, e), blank)
      == Ok(Greeting(ServerInfo(Some(protocolVersion), Some(serverVersion), Some(threadNo), None,
                                capabilities, Some(charset), Some(status)), scramble))
  {
    var e := Encode(protocolVersion, serverVersion, threadNo, scramble, filler, capabilities, charset, status, reserved);
    var h1 := [protocolVersion];
    var h2 := h1 + serverVersion + [0];
    var h3 := h2 + ToLE(threadNo, 4);
    var h4 := h3 + scramble[..8];
    var h5 := h4 + [filler];
    var h6 := h5 + ToLE(capabilities, 2);
    var h7 := h6 + [charset];
    var h8 := h7 + ToLE(status, 2);
    var h9 := h8 + reserved;
    var h10 := h9 + scramble[8..];
    assert Prefix(h10 + [0], e);
    PrefixStep(h10, [0], e);
    PrefixStep(h9, scramble[8..], e);
    PrefixStep(h8, reserved, e);
    PrefixStep(h7, ToLE(status, 2), e);
    PrefixStep(h6, [charset], e);
    PrefixStep(h5, ToLE(capabilities, 2), e);
    PrefixStep(h4, [filler], e);
    PrefixStep(h3, scramble[..8], e);
    PrefixStep(h2, ToLE(threadNo, 4), e);
    PrefixStep(h1 + serverVersion, [0], e);
    PrefixStep(h1, serverVersion, e);
    LcbWidths();
    assert Pow256(4) == 0x1_0000_0000;
    ReadByte(e, 0);
    assert e[0] == e[..1][0];
    NullStringAtEnd(h1, serverVersion, e);
    FixedAtEnd(h2, threadNo, 4, e);
    CopyAtEnd(h3, scramble[..8], e, blank, 0);
    var front := scramble[..8] + blank[8..];
    assert blank[..0] + scramble[..8] + blank[8..] == front;
    FixedAtEnd(h5, capabilities, 2, e);
    ByteAtEnd(h6, charset, e);
    FixedAtEnd(h7, status, 2, e);
    CopyAtEnd(h9, scramble[8..], e, front, 8);
    assert front[..8] + scramble[8..] + front[20..] == scramble;
    DecodeSteps(Packet(|e|, nr, e), blank, protocolVersion, serverVersion, |h2|, threadNo, front,
                capabilities, charset, status, scramble);
  }

  /** Where each field of an encoded greeting sits, counted from the
      terminator `t` of the version string. */
  lemma Layout(protocolVersion: byte, serverVersion: Bytes, threadNo: nat, scramble: Bytes, filler: byte,
               capabilities: nat, charset: byte, status: nat, reserved: Bytes)
    requires |scramble| == 20 && |reserved| == 13 && 0 !in serverVersion
    ensures var e := Encode(protocolVersion, serverVersion, threadNo, scramble, filler, capabilities, charset, status, reserved);
      var t := |serverVersion| + 1;
      && e[0] == protocolVersion && e[1..t] == serverVersion && NullEnd(e, 1) == t
      && e[t + 1..t + 5] == ToLE(threadNo, 4)
      && e[t + 5..t + 13] == scramble[..8]
      && e[t + 14..t + 16] == ToLE(capabilities, 2)
      && e[t + 16..t + 18] == [charset, ToLE(status, 2)[0]]
  {
    var e := Encode(protocolVersion, serverVersion, threadNo, scramble, filler, capabilities, charset, status, reserved);
    var h1 := [protocolVersion];
    var h2 := h1 + serverVersion + [0];
    var h3 := h2 + ToLE(threadNo, 4);
    var h4 := h3 + scramble[..8];
    var h5 := h4 + [filler];
    var h6 := h5 + ToLE(capabilities, 2);
    var h7 := h6 + [charset];
    var h8 := h7 + ToLE(status, 2);
    var h9 := h8 + reserved;
    var h10 := h9 + scramble[8..];
    assert Prefix(h10 + [0], e);
    PrefixStep(h10, [0], e);
    PrefixStep(h9, scramble[8..], e);
    PrefixStep(h8, reserved, e);
    PieceAt(h7, ToLE(status, 2), e);
    PrefixStep(h7, ToLE(status, 2), e);
    PieceAt(h6, [charset], e);
    PrefixStep(h6, [charset], e);
    PieceAt(h5, ToLE(capabilities, 2), e);
    PrefixStep(h5, ToLE(capabilities, 2), e);
    PrefixStep(h4, [filler], e);
    PieceAt(h3, scramble[..8], e);
    PrefixStep(h3, scramble[..8], e);
    PieceAt(h2, ToLE(threadNo, 4), e);
    PrefixStep(h2, ToLE(threadNo, 4), e);
    PieceAt(h1 + serverVersion, [0], e);
    PrefixStep(h1 + serverVersion, [0], e);
    PieceAt(h1, serverVersion, e);
    PrefixStep(h1, serverVersion, e);
    assert e[0] == e[..1][0];
    var t := |serverVersion| + 1;
    assert forall j :: 1 <= j < t ==> e[j] == serverVersion[j - 1];
    NullEndAt(e, 1, |serverVersion|);
    assert e[t + 16..t + 18] == [e[t + 16], e[t + 17]];
    assert e[t + 17] == e[|h7|..|h7| + 2][0];
  }

  /** Decode put together from the results of its reads and copies. */
  lemma DecodeSteps(p: Packet, blank: Bytes, protocolVersion: nat, serverVersion: Bytes, v: nat, threadNo: nat,
                    front: Bytes, capabilities: nat, charset: nat, status: nat, scramble: Bytes)
    requires |blank| == 20
    requires ReadFixed(p.data, 0, 1) == Ok(Read(protocolVersion, 1))
    requires ReadNullString(p.data, 1) == Read(serverVersion, v)
    requires ReadFixed(p.data, v, 4) == Ok(Read(threadNo, v + 4))
    requires BufferCopy(blank, 0, p.data, v + 4, v + 12) == front
    requires ReadFixed(p.data, v + 13, 2) == Ok(Read(capabilities, v + 15))
    requires ReadFixed(p.data, v + 15, 1) == Ok(Read(charset, v + 16))
    requires ReadFixed(p.data, v + 16, 2) == Ok(Read(status, v + 18))
    requires BufferCopy(front, 8, p.data, v + 31, p.length - 1) == scramble
    ensures Decode(p, blank)
         == Ok(Greeting(ServerInfo(Some(protocolVersion), Some(serverVersion), Some(threadNo), None,
                                   capabilities, Some(charset), Some(status)), scramble))
  {
  }
}
