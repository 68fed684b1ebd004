/** lib/packets/PreparePacket.js: the answer to a statement prepare, read
    with one cursor that starts after the status byte. The prototype's
    `fieldCount` is the constant 0x00; the constructor never reads byte 0. */
module Prepare {
  import opened Octets
  import opened Readers
  import opened Packets

  /** The fields the constructor sets. */
  datatype PrepareOk = PrepareOk(handleId: nat, columns: nat, parameters: nat, warningCount: nat)

  /** The reads in source order: a 4-byte statement id at 1, the column and
      parameter counts at 5 and 7, one byte skipped, the warning count at 10.
      A payload too short for the last read is rejected. */
  function Decode(p: Packet): (r: Result<PrepareOk>)
    ensures r.Ok? <==> |p.data| >= 12
    ensures r.Ok? ==> r.value == PrepareOk(LE(p.data[1..5]), LE(p.data[5..7]), LE(p.data[7..9]), LE(p.data[10..12]))
  {
    var handleId :- ReadFixed(p.data, 1, 4);
    var columns :- ReadFixed(p.data, 5, 2);
    var parameters :- ReadFixed(p.data, 7, 2);
    var warningCount :- ReadFixed(p.data, 10, 2);
    Ok(PrepareOk(handleId.value, columns.value, parameters.value, warningCount.value))
  }

  /** new PreparePacket(packet): the reads on one cursor starting at 1, with
      `++indexWrapper.index` skipping the filler byte. */
  method Parse(p: Packet) returns (r: Result<PrepareOk>)
    ensures r == Decode(p)
  {
    var index := 1;
    var handleId :- ReadFixed(p.data, index, 4);
    index := handleId.next;
    var columns :- ReadFixed(p.data, index, 2);
    index := columns.next;
    var parameters :- ReadFixed(p.data, index, 2);
    index := parameters.next;
    index := index + 1;
    var warningCount :- ReadFixed(p.data, index, 2);
    r := Ok(PrepareOk(handleId.value, columns.value, parameters.value, warningCount.value));
  }

  /** A prepare answer as a server sends it: the status byte, the statement
      id, the column and parameter counts, a filler byte and the warning
      count. */
  function Encode(status: byte, handleId: nat, columns: nat, parameters: nat, filler: byte, warningCount: nat): (r: Bytes)
    ensures |r| == 12
  {
    [status] + ToLE(handleId, 4) + ToLE(columns, 2) + ToLE(parameters, 2) + [filler] + ToLE(warningCount, 2)
  }

  /** Every field is read back, whatever the status and filler bytes hold. */
  lemma RoundTrip(status: byte, handleId: nat, columns: nat, parameters: nat, filler: byte, warningCount: nat,
                  length: nat, nr: byte)
    requires handleId < 0x1_0000_0000 && columns < 0x1_0000 && parameters < 0x1_0000 && warningCount < 0x1_0000
    ensures Decode(Packet(length, nr, Encode(status, handleId, columns, parameters, filler, warningCount)))
         == Ok(PrepareOk(handleId, columns, parameters, warningCount))
  {
    var e := Encode(status, handleId, columns, parameters, filler, warningCount);
    assert Prefix(e, e);
    Fields(e, status, handleId, columns, parameters, filler, warningCount);
  }

  /** Where each field of an encoded answer sits, in any data that starts
      with one. */
  lemma Fields(d: Bytes, status: byte, handleId: nat, columns: nat, parameters: nat, filler: byte, warningCount: nat)
    requires handleId < 0x1_0000_0000 && columns < 0x1_0000 && parameters < 0x1_0000 && warningCount < 0x1_0000
    requires Prefix(Encode(status, handleId, columns, parameters, filler, warningCount), d)
    ensures LE(d[1..5]) == handleId && LE(d[5..7]) == columns
    ensures LE(d[7..9]) == parameters && LE(d[10..12]) == warningCount
  {
    var h1 := [status];
    var h2 := h1 + ToLE(handleId, 4);
    var h3 := h2 + ToLE(columns, 2);
    var h4 := h3 + ToLE(parameters, 2);
    var h5 := h4 + [filler];
    PieceAt(h5, ToLE(warningCount, 2), d);
    PrefixStep(h5, ToLE(warningCount, 2), d);
    PrefixStep(h4, [filler], d);
    PieceAt(h3, ToLE(parameters, 2), d);
    PrefixStep(h3, ToLE(parameters, 2), d);
    PieceAt(h2, ToLE(columns, 2), d);
    PrefixStep(h2, ToLE(columns, 2), d);
    PieceAt(h1, ToLE(handleId, 4), d);
    LcbWidths();
    assert Pow256(4) == 0x1_0000_0000;
    NarrowValue(handleId, 4);
    NarrowValue(columns, 2);
    NarrowValue(parameters, 2);
    NarrowValue(warningCount, 2);
  }

  /** A value that fits in `n` bytes reads back from its `n`-byte encoding. */
  lemma NarrowValue(v: nat, n: nat)
    requires v < Pow256(n)
    ensures LE(ToLE(v, n)) == v
  {
    LEOfToLE(v, n);
    DivModUnique(v, Pow256(n), 0, v);
  }

  /** The status byte and the filler byte are never read: two answers that
      differ only there parse the same. */
  lemma IgnoresStatusAndFiller(p: Packet, q: Packet)
    requires |p.data| == |q.data|
    requires forall i :: 0 <= i < |p.data| && i != 0 && i != 9 ==> p.data[i] == q.data[i]
    ensures Decode(p) == Decode(q)
  {
    if |p.data| >= 12 {
      assert p.data[1..5] == q.data[1..5];
      assert p.data[5..7] == q.data[5..7];
      assert p.data[7..9] == q.data[7..9];
      assert p.data[10..12] == q.data[10..12];
    }
  }
}
