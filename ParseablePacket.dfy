/** lib/packets/ParseablePacket.js: the generic OK and ERR packets, read with
    one cursor from the start of the payload. */
module GenericPacket {
  import opened Octets
  import opened Readers
  import opened Packets

  /** A parsed generic packet. The fields of the variant not taken keep the
      prototype's defaults: `modifiedRows`, `insertId` and `warningCount` 0,
      `serverStatus`, `errNo` and `sqlState` null (`None`). */
  datatype Generic = Generic(
    fieldCount: nat,
    message: Option<Bytes>,
    modifiedRows: Lcb,
    insertId: Lcb,
    serverStatus: Option<nat>,
    warningCount: nat,
    errNo: Option<nat>,
    sqlState: Option<Bytes>)

  /** The reads in source order: the field count, then the OK or ERR body;
      any other first byte is rejected. */
  function Decode(p: Packet): (r: Result<Generic>)
    ensures r.Ok? ==> |p.data| >= 1 && r.value.fieldCount == p.data[0]
    ensures |p.data| >= 1 && p.data[0] != 0x00 && p.data[0] != 0xFF ==> r == Fail(UnknownPacket(p.data[0]))
    ensures |p.data| >= 1 && p.data[0] == 0x00 ==> r == DecodeOk(p)
    ensures |p.data| >= 1 && p.data[0] == 0xFF ==> r == DecodeErr(p)
  {
    var fieldCount :- ReadFixed(p.data, 0, 1);
    ReadByte(p.data, 0);
    if fieldCount.value == 0x00 then DecodeOk(p)
    else if fieldCount.value == 0xFF then DecodeErr(p)
    else Fail(UnknownPacket(fieldCount.value))
  }

  /** The OK body from offset 1: two LCB numbers, two 2-byte numbers and the
      rest up to the header's length. */
  function DecodeOk(p: Packet): (r: Result<Generic>)
    ensures r.Ok? ==>
      r.value.fieldCount == 0x00 && r.value.serverStatus.Some? && r.value.errNo.None?
      && r.value.sqlState.None? && r.value.message.Some?
      && |r.value.message.value| <= p.length - 5
      && r.value.serverStatus.value < 0x1_0000 && r.value.warningCount < 0x1_0000
  {
    var modifiedRows :- ReadLcb(p.data, 1);
    var insertId :- ReadLcb(p.data, modifiedRows.next);
    var serverStatus :- ReadFixed(p.data, insertId.next, 2);
    var warningCount :- ReadFixed(p.data, serverStatus.next, 2);
    var message :- ReadFixedString(p.data, warningCount.next, p.length - warningCount.next);
    LcbWidths();
    Ok(Generic(0x00, Some(message.value), modifiedRows.value, insertId.value,
               Some(serverStatus.value), warningCount.value, None, None))
  }

  /** The ERR body from offset 1: a 2-byte error number, one skipped byte, a
      5-byte SQL state and the rest up to the header's length. */
  function DecodeErr(p: Packet): (r: Result<Generic>)
    ensures r.Ok? <==> 9 <= p.length <= |p.data|
    ensures r.Ok? ==>
      r.value.fieldCount == 0xFF
      && r.value.errNo == Some(LE(p.data[1..3]))
      && r.value.sqlState == Some(p.data[4..9])
      && r.value.message == Some(p.data[9..p.length])
      && r.value.modifiedRows == LcbNum(0) && r.value.insertId == LcbNum(0)
      && r.value.serverStatus.None? && r.value.warningCount == 0
  {
    var errNo :- ReadFixed(p.data, 1, 2);
    var sqlState :- ReadFixedString(p.data, 4, 5);
    var message :- ReadFixedString(p.data, 9, p.length - 9);
    Ok(Generic(0xFF, Some(message.value), LcbNum(0), LcbNum(0), None, 0,
               Some(errNo.value), Some(sqlState.value)))
  }

  /** new ParseablePacket(packet): the constructor's reads on one cursor,
      `++indexWrapper.index` skipping the ERR filler byte. */
  method Parse(p: Packet) returns (r: Result<Generic>)
    ensures r == Decode(p)
  {
    var index := 0;
    var fieldCount :- ReadFixed(p.data, index, 1);
    index := fieldCount.next;
    if fieldCount.value == 0x00 {
      var modifiedRows :- ReadLcb(p.data, index);
      index := modifiedRows.next;
      var insertId :- ReadLcb(p.data, index);
      index := insertId.next;
      var serverStatus :- ReadFixed(p.data, index, 2);
      index := serverStatus.next;
      var warningCount :- ReadFixed(p.data, index, 2);
      index := warningCount.next;
      var message :- ReadFixedString(p.data, index, p.length - index);
      r := Ok(Generic(0x00, Some(message.value), modifiedRows.value, insertId.value,
                      Some(serverStatus.value), warningCount.value, None, None));
    } else if fieldCount.value == 0xFF {
      var errNo :- ReadFixed(p.data, index, 2);
      index := errNo.next;
      index := index + 1;
      var sqlState :- ReadFixedString(p.data, index, 5);
      index := sqlState.next;
      var message :- ReadFixedString(p.data, index, p.length - index);
      r := Ok(Generic(0xFF, Some(message.value), LcbNum(0), LcbNum(0), None, 0,
                      Some(errNo.value), Some(sqlState.value)));
    } else {
      r := Fail(UnknownPacket(fieldCount.value));
    }
  }

  /** An OK packet as a server sends it. */
  function EncodeOk(modifiedRows: Lcb, insertId: Lcb, status: nat, warnings: nat, message: Bytes): (r: Bytes)
    requires Encodable(modifiedRows) && Encodable(insertId)
    ensures |r| == 1 + |EncodeLcb(modifiedRows)| + |EncodeLcb(insertId)| + 4 + |message|
  {
    [0x00] + EncodeLcb(modifiedRows) + EncodeLcb(insertId) + ToLE(status, 2) + ToLE(warnings, 2) + message
  }

  /** An ERR packet as a server sends it: the byte after the error number is
      the '#' marker in the protocol, and is skipped whatever it holds. */
  function EncodeErr(errNo: nat, marker: byte, sqlState: Bytes, message: Bytes): (r: Bytes)
    requires |sqlState| == 5
    ensures |r| == 9 + |message|
  {
    [0xFF] + ToLE(errNo, 2) + [marker] + sqlState + message
  }

  /** Every field of an OK packet is read back in place. */
  lemma OkRoundTrip(modifiedRows: Lcb, insertId: Lcb, status: nat, warnings: nat, message: Bytes, nr: byte)
    requires Encodable(modifiedRows) && Encodable(insertId)
    requires status < 0x1_0000 && warnings < 0x1_0000
    ensures var e := EncodeOk(modifiedRows, insertId, status, warnings, message);
      Decode(Packet(|e|, nr, e))
      == Ok(Generic(0x00, Some(message), modifiedRows, insertId, Some(status), warnings, None, None))
  {
    var e := EncodeOk(modifiedRows, insertId, status, warnings, message);
    var a := 1 + |EncodeLcb(modifiedRows)|;
    var b := a + |EncodeLcb(insertId)|;
    assert Prefix(e, e) && e[0] == 0x00;
    OkReadsIn(e, modifiedRows, insertId, status, warnings, message);
    DecodeOkSteps(e, nr, a, b, modifiedRows, insertId, status, warnings, message);
  }

  /** The reads of DecodeOk in any data that starts with an encoded OK
      packet. */
  lemma OkReadsIn(d: Bytes, modifiedRows: Lcb, insertId: Lcb, status: nat, warnings: nat, message: Bytes)
    requires Encodable(modifiedRows) && Encodable(insertId)
    requires status < 0x1_0000 && warnings < 0x1_0000
    requires Prefix(EncodeOk(modifiedRows, insertId, status, warnings, message), d)
    ensures var a := 1 + |EncodeLcb(modifiedRows)|;
      var b := a + |EncodeLcb(insertId)|;
      && ReadLcb(d, 1) == Ok(Read(modifiedRows, a))
      && ReadLcb(d, a) == Ok(Read(insertId, b))
      && ReadFixed(d, b, 2) == Ok(Read(status, b + 2))
      && ReadFixed(d, b + 2, 2) == Ok(Read(warnings, b + 4))
      && ReadFixedString(d, b + 4, |message|) == Ok(Read(message, b + 4 + |message|))
  {
    var h1 := [0x00];
    var h2 := h1 + EncodeLcb(modifiedRows);
    var h3 := h2 + EncodeLcb(insertId);
    var h4 := h3 + ToLE(status, 2);
    var h5 := h4 + ToLE(warnings, 2);
    PrefixStep(h5, message, d);
    PrefixStep(h4, ToLE(warnings, 2), d);
    PrefixStep(h3, ToLE(status, 2), d);
    PrefixStep(h2, EncodeLcb(insertId), d);
    LcbWidths();
    LcbAtEnd(h1, modifiedRows, d);
    LcbAtEnd(h2, insertId, d);
    FixedAtEnd(h3, status, 2, d);
    FixedAtEnd(h4, warnings, 2, d);
    StringAtEnd(h5, message, d);
  }

  /** The reads of DecodeOk, one by one, give the result of Decode. */
  lemma DecodeOkSteps(d: Bytes, nr: byte, a: nat, b: nat, modifiedRows: Lcb, insertId: Lcb, status: nat, warnings: nat,
                      message: Bytes)
    requires |d| == b + 4 + |message| && d[0] == 0x00
    requires ReadLcb(d, 1) == Ok(Read(modifiedRows, a))
    requires ReadLcb(d, a) == Ok(Read(insertId, b))
    requires ReadFixed(d, b, 2) == Ok(Read(status, b + 2))
    requires ReadFixed(d, b + 2, 2) == Ok(Read(warnings, b + 4))
    requires ReadFixedString(d, b + 4, |message|) == Ok(Read(message, b + 4 + |message|))
    ensures Decode(Packet(|d|, nr, d))
      == Ok(Generic(0x00, Some(message), modifiedRows, insertId, Some(status), warnings, None, None))
  {
  }

  /** Every field of an ERR packet is read back in place. */
  lemma ErrRoundTrip(errNo: nat, marker: byte, sqlState: Bytes, message: Bytes, nr: byte)
    requires |sqlState| == 5 && errNo < 0x1_0000
    ensures var e := EncodeErr(errNo, marker, sqlState, message);
      Decode(Packet(|e|, nr, e))
      == Ok(Generic(0xFF, Some(message), LcbNum(0), LcbNum(0), None, 0, Some(errNo), Some(sqlState)))
  {
    var e := EncodeErr(errNo, marker, sqlState, message);
    var p := Packet(|e|, nr, e);
    assert e[0] == 0xFF;
    assert Decode(p) == DecodeErr(p);
    assert LE(e[1..3]) == errNo by {
      assert e[1..3] == ToLE(errNo, 2);
      LEOfToLE(errNo, 2);
      LcbWidths();
      DivModUnique(errNo, 0x1_0000, 0, errNo);
    }
    assert e[4..9] == sqlState;
    assert e[9..|e|] == message;
  }

  /** The payload 00 03 00 02 00 00 00: three rows changed, insert id 0,
      status 2, no warnings, an empty message. */
  lemma OkExample(nr: byte)
    ensures Decode(Packet(7, nr, [0x00, 0x03, 0x00, 0x02, 0x00, 0x00, 0x00]))
         == Ok(Generic(0x00, Some([]), LcbNum(3), LcbNum(0), Some(2), 0, None, None))
  {
    OkRoundTrip(LcbNum(3), LcbNum(0), 2, 0, [], nr);
    assert EncodeOk(LcbNum(3), LcbNum(0), 2, 0, [])
        == [0x00, 0x03, 0x00, 0x02, 0x00, 0x00, 0x00];
  }
}
