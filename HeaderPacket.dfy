/** lib/HeaderPacket.js: the result-set header, two length-coded numbers read
    from the start of the payload. */
module Header {
  import opened Octets
  import opened Readers
  import opened Packets

  /** The column count and the extra number. */
  datatype ResultHeader = ResultHeader(columns: Lcb, extra: Lcb)

  /** The column count at 0, then the extra number right after it; both are
      read unconditionally, so a header without the extra number is
      rejected. */
  function Decode(p: Packet): (r: Result<ResultHeader>)
    ensures r.Ok? ==> |p.data| >= 2 && p.data[0] != 255
    ensures |p.data| >= 1 && p.data[0] < 251 ==> (r.Ok? <==> ReadLcb(p.data, 1).Ok?)
    ensures r.Ok? && p.data[0] < 251 ==> r.value.columns == LcbNum(p.data[0]) && r.value.extra == ReadLcb(p.data, 1).value.value
  {
    var columns :- ReadLcb(p.data, 0);
    var extra :- ReadLcb(p.data, columns.next);
    Ok(ResultHeader(columns.value, extra.value))
  }

  /** new HeaderPacket(packet): both reads on one cursor. */
  method Parse(p: Packet) returns (r: Result<ResultHeader>)
    ensures r == Decode(p)
  {
    var index := 0;
    var columns :- ReadLcb(p.data, index);
    index := columns.next;
    var extra :- ReadLcb(p.data, index);
    r := Ok(ResultHeader(columns.value, extra.value));
  }

  /** A header as the reader expects it: both numbers LCB-encoded. */
  function Encode(h: ResultHeader): (r: Bytes)
    requires Encodable(h.columns) && Encodable(h.extra)
    ensures 2 <= |r| <= 18
  {
    EncodeLcb(h.columns) + EncodeLcb(h.extra)
  }

  /** Both numbers are read back, whatever the header's length says. */
  lemma RoundTrip(h: ResultHeader, length: nat, nr: byte)
    requires Encodable(h.columns) && Encodable(h.extra)
    ensures Decode(Packet(length, nr, Encode(h))) == Ok(h)
  {
    var e := Encode(h);
    assert Prefix(e, e);
    Reads(e, h);
  }

  /** The two reads in any data that starts with an encoded header. */
  lemma Reads(d: Bytes, h: ResultHeader)
    requires Encodable(h.columns) && Encodable(h.extra)
    requires Prefix(EncodeLcb(h.columns) + EncodeLcb(h.extra), d)
    ensures ReadLcb(d, 0) == Ok(Read(h.columns, |EncodeLcb(h.columns)|))
    ensures ReadLcb(d, |EncodeLcb(h.columns)|) == Ok(Read(h.extra, |EncodeLcb(h.columns)| + |EncodeLcb(h.extra)|))
  {
    PrefixStep(EncodeLcb(h.columns), EncodeLcb(h.extra), d);
    assert [] + EncodeLcb(h.columns) == EncodeLcb(h.columns);
    LcbAtEnd([], h.columns, d);
    LcbAtEnd(EncodeLcb(h.columns), h.extra, d);
  }

  /** The usual header of a result set, the column count alone, fails in
      this model: the extra number is read past the end of the payload, and
      the model's readers fail there where JavaScript's would yield NaN. */
  lemma CountAloneRejected(columns: nat, length: nat, nr: byte)
    requires columns < 251
    ensures Decode(Packet(length, nr, [columns])) == Fail(OutOfRange(1, 1))
  {
  }
}
