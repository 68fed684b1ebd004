/** lib/HandshakePacket.js: the older greeting parser, the one the connection
    uses. It finds the version string with Packet.getNullString and then
    reads every later field at a fixed distance from the terminator, with
    JavaScript's 32-bit shifts. */
module LegacyHandshake {
  import opened Octets
  import opened JsOps
  import opened Readers
  import opened Packets
  import opened Server
  import HandshakeV10

  /** The parsed greeting: the updated server description and the scramble
      buffer. */
  datatype LegacyGreeting = LegacyGreeting(server: ServerInfo, scramble: Bytes)

  /** The greeting is accepted when the version string's terminator `t`
      leaves room for the reads at fixed offsets after it; a greeting too
      short for these offsets is rejected. `prior` is the Server object
      shared through the prototype. */
  function Decode(p: Packet, prior: ServerInfo, blank: Bytes): (r: Result<LegacyGreeting>)
    requires |blank| == 20
    ensures r.Ok? <==> |p.data| >= 1 && NullEnd(p.data, 1) + 18 <= |p.data|
    ensures r.Ok? ==> r.value == Fields(p.data, NullEnd(p.data, 1), prior, blank)
  {
    if |p.data| == 0 then Fail(OutOfRange(0, 1))
    else
      var t := NullEnd(p.data, 1);
      if t + 18 > |p.data| then Fail(OutOfRange(t + 1, 17))
      else Ok(Fields(p.data, t, prior, blank))
  }

  /** The fields at their offsets from the terminator `t` of the version
      string: thread id at t+1..t+4, the first 8 scramble bytes at t+5..t+12,
      capabilities at t+14..t+15, charset at t+16 and status at t+16..t+17.
      The fields the parser does not write keep the values of `prior`. */
  function Fields(d: Bytes, t: nat, prior: ServerInfo, blank: Bytes): (r: LegacyGreeting)
    requires |blank| == 20 && 1 <= t && t + 18 <= |d|
    ensures var s := r.server;
      && s.protocolVersion == Some(d[0])
      && s.serverVersion == Some(d[1..t])
      && s.threadNr == Some(ToInt32(LE(d[t + 1..t + 5])))
      && s.capabilities == LE(d[t + 14..t + 16])
      && s.charset == Some(d[t + 16])
      && s.status == Some(LE(d[t + 16..t + 18]))
      && s.threadNo == prior.threadNo
      && r.scramble == d[t + 5..t + 13] + blank[8..]
  {
    CopyExact(blank, 0, d, t + 5, d[t + 5..t + 13]);
    LegacyGreeting(
      prior.(protocolVersion := Some(d[0]), serverVersion := Some(d[1..t]), threadNr := Some(ThreadNr(d, t + 1)),
             capabilities := Word(d, t + 14), charset := Some(d[t + 16]), status := Some(Word(d, t + 16))),
      BufferCopy(blank, 0, d, t + 5, t + 13))
  }

  /** `(d[i+3] << 24) + (d[i+2] << 16) + (d[i+1] << 8) + d[i]`: the
      little-endian value of the four bytes as a signed 32-bit number, since
      the top byte's shift reaches the sign bit. */
  function ThreadNr(d: Bytes, i: nat): (r: int)
    requires i + 4 <= |d|
    ensures r == ToInt32(LE(d[i..i + 4]))
  {
    assert d[i..i + 4] == [d[i], d[i + 1], d[i + 2], d[i + 3]];
    ThreadShifts(d[i], d[i + 1], d[i + 2], d[i + 3]);
    Shl(d[i + 3], 24) + Shl(d[i + 2], 16) + Shl(d[i + 1], 8) + d[i]
  }

  /** `(d[i+1] << 8) + d[i]`: the little-endian value of the two bytes. */
  function Word(d: Bytes, i: nat): (r: nat)
    requires i + 2 <= |d|
    ensures r == LE(d[i..i + 2])
  {
    assert d[i..i + 2] == [d[i], d[i + 1]];
    WordShifts(d[i], d[i + 1]);
    Shl(d[i + 1], 8) + d[i]
  }

  /** new HandshakePacket(buffer): the version string through
      Packet.getNullString, then the local `index` moved by `++`, `+= 3`,
      `+= 9` and the post- and pre-increments inside the field expressions. */
  method Parse(p: Packet, prior: ServerInfo, blank: Bytes) returns (r: Result<LegacyGreeting>)
    requires |blank| == 20
    ensures r == Decode(p, prior, blank)
  {
    if |p.data| == 0 {
      return Fail(OutOfRange(0, 1));
    }
    var d := p.data;
    var protocolVersion := d[0];
    var serverVersion, terminator := GetNullString(p, 1);
    var index := terminator + 1;
    if index + 17 > |d| {
      return Fail(OutOfRange(index, 17));
    }
    var threadNr := ThreadNr(d, index);
    index := index + 3;
    index := index + 1;
    var scramble := BufferCopy(blank, 0, d, index, index + 8);
    index := index + 9;
    var capabilities := Word(d, index);
    index := index + 1;
    index := index + 1;
    var charset := d[index];
    var status := Word(d, index);
    r := Ok(LegacyGreeting(
      prior.(protocolVersion := Some(protocolVersion), serverVersion := Some(serverVersion), threadNr := Some(threadNr),
             capabilities := capabilities, charset := Some(charset), status := Some(status)),
      scramble));
  }

  /** Four bytes combined with JavaScript's shifts give the little-endian
      value as a signed 32-bit number: the top byte's shift reaches the sign
      bit. */
  lemma ThreadShifts(b1: byte, b2: byte, b3: byte, b4: byte)
    ensures Shl(b4, 24) + Shl(b3, 16) + Shl(b2, 8) + b1 == ToInt32(LE([b1, b2, b3, b4]))
  {
    assert Pow2(8) == 256 && Pow2(16) == 65536 && Pow2(24) == 16777216 by {
      assert Pow2(4) == 16;
    }
    var s := [b1, b2, b3, b4];
    assert LE(s) == (b1 as int) + 256 * (b2 as int) + 65536 * (b3 as int) + 16777216 * (b4 as int) by {
      assert LE(s[3..]) == b4 by { assert s[3..][1..] == []; }
      assert LE(s[2..]) == (b3 as int) + 256 * (b4 as int) by { assert s[2..][1..] == s[3..]; }
      assert LE(s[1..]) == (b2 as int) + 256 * ((b3 as int) + 256 * (b4 as int)) by { assert s[1..][1..] == s[2..]; }
    }
    var top := 16777216 * b4;
    if b4 >= 128 {
      DivModUnique(top + TWO31, TWO32, 1, top + TWO31 - TWO32);
      DivModUnique(LE(s) + TWO31, TWO32, 1, LE(s) + TWO31 - TWO32);
    }
  }

  /** Two bytes combined with `(hi << 8) + lo` give their little-endian
      value. */
  lemma WordShifts(lo: byte, hi: byte)
    ensures Shl(hi, 8) + lo == LE([lo, hi])
  {
    HeaderShifts(lo, hi, 0);
    assert LE([lo, hi][1..]) == hi by { assert [lo, hi][1..][1..] == []; }
  }

  /** What the older parser makes of a protocol-10 greeting: the version,
      the thread id as a signed 32-bit number and the capabilities are right,
      but the status is read one byte early, over the charset, and scramble
      bytes 8 to 19 keep whatever the buffer held. */
  lemma ReadsV10Greeting(protocolVersion: byte, serverVersion: Bytes, threadNo: nat, scramble: Bytes, filler: byte,
                         capabilities: nat, charset: byte, status: nat, reserved: Bytes, nr: byte,
                         prior: ServerInfo, blank: Bytes)
    requires |scramble| == 20 && |reserved| == 13 && |blank| == 20
    requires 0 !in serverVersion && threadNo < 0x1_0000_0000
    requires capabilities < 0x1_0000 && status < 0x1_0000
    ensures var e := HandshakeV10.Encode(protocolVersion, serverVersion, threadNo, scramble, filler,
                                         capabilities, charset, status, reserved);
      var r := Decode(Packet(|e|, nr, e), prior, blank);
      && r.Ok?
      && r.value.server.protocolVersion == Some(protocolVersion)
      && r.value.server.serverVersion == Some(serverVersion)
      && r.value.server.threadNr == Some(ToInt32(threadNo))
      && r.value.server.capabilities == capabilities
      && r.value.server.charset == Some(charset)
      && r.value.server.status == Some(charset + 256 * (status % 256))
      && r.value.scramble == scramble[..8] + blank[8..]
  {
    var e := HandshakeV10.Encode(protocolVersion, serverVersion, threadNo, scramble, filler,
                                 capabilities, charset, status, reserved);
    HandshakeV10.Layout(protocolVersion, serverVersion, threadNo, scramble, filler,
                        capabilities, charset, status, reserved);
    var t := |serverVersion| + 1;
    var low := ToLE(status, 2)[0];
    assert low == status % 256;
    LEOfNarrow(e[t + 1..t + 5], threadNo, 4);
    LEOfNarrow(e[t + 14..t + 16], capabilities, 2);
    LEOfPair(e[t + 16..t + 18], charset, low);
    assert e[t + 16] == e[t + 16..t + 18][0];
    ReadsLaidOut(e, t, nr, prior, blank, protocolVersion, serverVersion, threadNo,
                 scramble[..8], capabilities, charset, charset as nat + 256 * (low as nat));
  }

  /** The older parser on any data whose fields sit where a protocol-10
      greeting puts them. */
  lemma ReadsLaidOut(d: Bytes, t: nat, nr: byte, prior: ServerInfo, blank: Bytes, protocolVersion: byte,
                     serverVersion: Bytes, threadNo: nat, front: Bytes, capabilities: nat, charset: byte, status: nat)
    requires |blank| == 20 && |front| == 8 && 1 <= t && t + 18 <= |d|
    requires d[0] == protocolVersion && d[1..t] == serverVersion && NullEnd(d, 1) == t
    requires LE(d[t + 1..t + 5]) == threadNo && d[t + 5..t + 13] == front
    requires LE(d[t + 14..t + 16]) == capabilities && d[t + 16] == charset && LE(d[t + 16..t + 18]) == status
    ensures var r := Decode(Packet(|d|, nr, d), prior, blank);
      && r.Ok?
      && r.value.server.protocolVersion == Some(protocolVersion)
      && r.value.server.serverVersion == Some(serverVersion)
      && r.value.server.threadNr == Some(ToInt32(threadNo))
      && r.value.server.capabilities == capabilities
      && r.value.server.charset == Some(charset)
      && r.value.server.status == Some(status)
      && r.value.scramble == front + blank[8..]
  {
  }

  /** A value written in `n` bytes that it fits in reads back unchanged. */
  lemma LEOfNarrow(s: Bytes, v: nat, n: nat)
    requires n <= 4 && v < (if n == 4 then 0x1_0000_0000 else if n == 2 then 0x1_0000 else 0)
    requires s == ToLE(v, n)
    ensures LE(s) == v
  {
    LcbWidths();
    assert Pow256(4) == 0x1_0000_0000;
    LEOfToLE(v, n);
    DivModUnique(v, Pow256(n), 0, v);
  }

  /** The little-endian value of two bytes. */
  lemma LEOfPair(s: Bytes, lo: byte, hi: byte)
    requires s == [lo, hi]
    ensures LE(s) == lo + 256 * hi
  {
    assert LE(s[1..]) == hi by { assert s[1..][1..] == []; }
  }
}
