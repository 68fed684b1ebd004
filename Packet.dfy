/** lib/Packet.js: an inbound frame. The constructor decodes the four header
    bytes of a chunk; getNullString scans the payload for a terminator. */
module Packets {
  import opened Octets
  import opened JsOps
  import opened Readers
  import Outgoing

  /** `length` is the header's declared payload length, `nr` the sequence
      number, `data` the rest of the chunk (which need not be `length` long). */
  datatype Packet = Packet(length: nat, nr: byte, data: Bytes)

  /** new Packet(chunk). A chunk shorter than its four header bytes has no
      packet. */
  function FromChunk(chunk: Bytes): (r: Option<Packet>)
    ensures r.Some? <==> |chunk| >= 4
    ensures r.Some? ==> r.value.length == LE(chunk[..3]) < 0x100_0000
    ensures r.Some? ==> r.value.nr == chunk[3] && r.value.data == chunk[4..]
  {
    if |chunk| < 4 then None
    else
      var length := Shl(chunk[2], 16) + Shl(chunk[1], 8) + chunk[0];
      assert length == LE(chunk[..3]) by {
        HeaderShifts(chunk[0], chunk[1], chunk[2]);
        var h := chunk[..3];
        assert LE(h[2..]) == h[2] by { assert h[2..][1..] == []; }
        assert LE(h[1..]) == (h[1] as int) + 256 * (h[2] as int) by { assert h[1..][1..] == h[2..]; }
      }
      LEBound(chunk[..3]);
      assert Pow256(3) == 0x100_0000;
      Some(Packet(length, chunk[3], chunk[4..]))
  }

  /** The shifted header bytes never reach the sign bit. */
  lemma HeaderShifts(b0: byte, b1: byte, b2: byte)
    ensures Shl(b2, 16) == 65536 * b2 && Shl(b1, 8) == 256 * b1
  {
    assert Pow2(8) == 256 && Pow2(16) == 65536 by {
      assert Pow2(4) == 16;
    }
  }

  /** Packet.prototype.getNullString(start, indexWrapper): the bytes from
      `start` up to the first 0 byte, with the index left ON the terminator,
      or the rest of the payload and the index at its end. */
  method GetNullString(p: Packet, start: nat) returns (s: Bytes, index: nat)
    ensures index == NullEnd(p.data, start)
    ensures index < |p.data| ==> p.data[index] == 0
    ensures start <= |p.data| ==> start <= index <= |p.data| && s == p.data[start..index]
    ensures start > |p.data| ==> s == [] && index == start
    ensures forall k :: 0 <= k < |s| ==> s[k] != 0
  {
    var i := start;
    while i < |p.data|
      invariant start <= i
      invariant start <= |p.data| ==> i <= |p.data|
      invariant forall k :: start <= k < i && k < |p.data| ==> p.data[k] != 0
      invariant NullEnd(p.data, start) == NullEnd(p.data, i)
      decreases |p.data| - i
    {
      if p.data[i] == 0 {
        index := i;
        s := p.data[start..i];
        return;
      }
      i := i + 1;
    }
    index := i;
    s := if start <= |p.data| then p.data[start..i] else [];
  }

  /** Reading back a frame the writer built recovers the payload, the packet
      number modulo 256, and the payload length modulo 2^24. */
  lemma FromFrame(payload: Bytes, packetNo: int)
    ensures FromChunk(Outgoing.Frame(payload, packetNo))
         == Some(Packet(|payload| % 0x100_0000, packetNo % 256, payload))
  {
    Outgoing.FrameHeader(payload, packetNo);
  }

  /** The declared length matches the payload exactly when it fits in three
      bytes. */
  lemma FrameLengthAgrees(payload: Bytes, packetNo: int)
    ensures var p := FromChunk(Outgoing.Frame(payload, packetNo)).value;
      p.length == |p.data| <==> |payload| < 0x100_0000
  {
    FromFrame(payload, packetNo);
  }
}
