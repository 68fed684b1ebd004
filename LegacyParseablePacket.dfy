/** lib/ParseablePacket.js: the older OK/ERR parser, the one the connection
    uses. An OK packet is recognised but its body is not read; an ERR packet
    takes its message up to the end of the received data. */
module LegacyGenericPacket {
  import opened Octets
  import opened Readers
  import opened Packets
  import GenericPacket

  /** The fields the parser sets; `None` is the prototype's null. */
  datatype LegacyGeneric = LegacyGeneric(
    fieldCount: nat,
    errNo: Option<nat>,
    sqlState: Option<Bytes>,
    message: Option<Bytes>)

  /** The reads in source order: the field count; nothing more for 0x00; for
      0xFF a 2-byte error number, one skipped byte, a 5-byte SQL state and
      every remaining byte of the data; any other first byte is rejected. */
  function Decode(p: Packet): (r: Result<LegacyGeneric>)
    ensures r.Ok? ==> |p.data| >= 1 && r.value.fieldCount == p.data[0]
    ensures |p.data| == 0 ==> r.Fail?
    ensures |p.data| >= 1 && p.data[0] == 0x00 ==> r == Ok(LegacyGeneric(0x00, None, None, None))
    ensures |p.data| >= 1 && p.data[0] == 0xFF ==> (r.Ok? <==> |p.data| >= 9)
    ensures |p.data| >= 1 && p.data[0] != 0x00 && p.data[0] != 0xFF ==> r == Fail(UnknownPacket(p.data[0]))
    ensures r.Ok? && r.value.fieldCount == 0xFF ==>
      && r.value.errNo == Some(LE(p.data[1..3]))
      && r.value.sqlState == Some(p.data[4..9])
      && r.value.message == Some(p.data[9..])
  {
    var fieldCount :- ReadFixed(p.data, 0, 1);
    ReadByte(p.data, 0);
    if fieldCount.value == 0x00 then
      Ok(LegacyGeneric(0x00, None, None, None))
    else if fieldCount.value == 0xFF then
      var errNo :- ReadFixed(p.data, 1, 2);
      var sqlState :- ReadFixedString(p.data, 4, 5);
      // Once the state is read the rest of the data is always there.
      var message := ReadFixedString(p.data, 9, |p.data| - 9).value;
      assert message.value == p.data[9..];
      Ok(LegacyGeneric(0xFF, Some(errNo.value), Some(sqlState.value), Some(message.value)))
    else
      Fail(UnknownPacket(fieldCount.value))
  }

  /** new ParseablePacket(packet): the constructor's reads on one cursor. */
  method Parse(p: Packet) returns (r: Result<LegacyGeneric>)
    ensures r == Decode(p)
  {
    var index := 0;
    var fieldCount :- ReadFixed(p.data, index, 1);
    index := fieldCount.next;
    if fieldCount.value == 0x00 {
      r := Ok(LegacyGeneric(0x00, None, None, None));
    } else if fieldCount.value == 0xFF {
      var errNo :- ReadFixed(p.data, index, 2);
      index := errNo.next;
      index := index + 1;
      var sqlState :- ReadFixedString(p.data, index, 5);
      index := sqlState.next;
      var message := ReadFixedString(p.data, index, |p.data| - index).value;
      r := Ok(LegacyGeneric(0xFF, Some(errNo.value), Some(sqlState.value), Some(message.value)));
    } else {
      r := Fail(UnknownPacket(fieldCount.value));
    }
  }

  /** Every field of an ERR packet is read back, whatever length the header
      declares. */
  lemma ErrRoundTrip(errNo: nat, marker: byte, sqlState: Bytes, message: Bytes, length: nat, nr: byte)
    requires |sqlState| == 5 && errNo < 0x1_0000
    ensures Decode(Packet(length, nr, GenericPacket.EncodeErr(errNo, marker, sqlState, message)))
         == Ok(LegacyGeneric(0xFF, Some(errNo), Some(sqlState), Some(message)))
  {
    var e := GenericPacket.EncodeErr(errNo, marker, sqlState, message);
    assert e[0] == 0xFF;
    assert LE(e[1..3]) == errNo by {
      assert e[1..3] == ToLE(errNo, 2);
      LEOfToLE(errNo, 2);
      LcbWidths();
      DivModUnique(errNo, 0x1_0000, 0, errNo);
    }
    assert e[4..9] == sqlState;
    assert e[9..] == message;
  }

  /** On an ERR packet whose header length matches the data, the older and
      the newer parser read the same error number, state and message. */
  lemma AgreesOnErr(p: Packet)
    requires p.length == |p.data|
    requires |p.data| >= 1 && p.data[0] == 0xFF
    ensures Decode(p).Ok? <==> GenericPacket.Decode(p).Ok?
    ensures Decode(p).Ok? ==>
      && Decode(p).value.errNo == GenericPacket.Decode(p).value.errNo
      && Decode(p).value.sqlState == GenericPacket.Decode(p).value.sqlState
      && Decode(p).value.message == GenericPacket.Decode(p).value.message
  {
    if |p.data| >= 9 {
      assert p.data[9..p.length] == p.data[9..];
    }
  }

  /** The older parser reads nothing of an OK packet, so whatever follows the
      0x00 byte, the result is the same. */
  lemma OkBodyIgnored(p: Packet, q: Packet)
    requires |p.data| >= 1 && |q.data| >= 1 && p.data[0] == 0x00 && q.data[0] == 0x00
    ensures Decode(p) == Decode(q) == Ok(LegacyGeneric(0x00, None, None, None))
  {
  }
}
