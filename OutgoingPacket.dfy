/** lib/OutgoingPacket.js: a request under construction. Every write appends to
    the `data` array; getBuffer stamps the four header cells and returns the
    frame. */
module Outgoing {
  import opened Octets
  import opened JsOps
  import opened Readers

  /** The bytes writeFixedNumber(num, bytes) appends: `num & 255` first, then
      one more `(num >>= 8) & 255` for each further byte, so never fewer than one. */
  function FixedNumberBytes(num: int, bytes: int): (r: Bytes)
    ensures |r| == if bytes > 1 then bytes else 1
  {
    ShiftBytes(num, if bytes > 1 then bytes else 1)
  }

  /** The bytes writeLCB(num) appends, `None` standing for null. A relational
      test compares null as 0, so null takes the first branch; the array then
      holds null itself, which the Buffer stores as 0. */
  function WrittenLcb(num: Option<int>): (r: Bytes)
  {
    var n := if num.None? then 0 else num.value;
    if 0 <= n < 251 then [n]
    else if 255 < n < 65536 then [252] + ShiftBytes(n, 2)
    else if 65535 < n < 16777216 then [253] + ShiftBytes(n, 3)
    else [254] + ShiftBytes(n, 8)
  }

  /** The buffer getBuffer(packetNo) returns for a packet holding `payload`. */
  function Frame(payload: Bytes, packetNo: int): (r: Bytes)
    ensures |r| == |payload| + 4 && r[4..] == payload
  {
    var length := |payload|;
    [And255(length), And255(Shr8(length)), Shr16(length) % 256, packetNo % 256] + payload
  }

  class OutgoingPacket {
    /** The JavaScript array: four header cells, then the payload bytes. */
    var data: seq<int>

    ghost predicate Valid()
      reads this
    {
      |data| >= 4 && forall i :: 4 <= i < |data| ==> 0 <= data[i] < 256
    }

    ghost function Payload(): Bytes
      reads this
      requires Valid()
    {
      data[4..]
    }

    constructor ()
      ensures Valid() && data == [0, 0, 0, 0] && Payload() == []
    {
      data := [0, 0, 0, 0];
    }

    /** `this.data[this.data.length] = b` */
    method Push(b: byte)
      requires Valid()
      modifies this
      ensures Valid() && data == old(data) + [b]
    {
      data := data + [b];
    }

    method WriteFiller(bytes: int)
      requires Valid()
      modifies this
      ensures Valid()
      ensures data == old(data) + Zeros(if bytes > 0 then bytes else 0)
    {
      var i := 0;
      while i < bytes
        invariant 0 <= i <= (if bytes > 0 then bytes else 0)
        invariant Valid() && data == old(data) + Zeros(i)
      {
        Push(0);
        assert Zeros(i + 1) == Zeros(i) + [0];
        i := i + 1;
      }
    }

    method WriteFixedNumber(num: int, bytes: int)
      requires Valid()
      modifies this
      ensures Valid()
      ensures data == old(data) + FixedNumberBytes(num, bytes)
    {
      var n := num;
      Push(And255(n));
      assert ShiftBytes(num, 1) == [And255(num)];
      var i := 0;
      while i < bytes - 1
        invariant 0 <= i <= (if bytes > 1 then bytes - 1 else 0)
        invariant n == Shifted(num, i)
        invariant Valid() && data == old(data) + ShiftBytes(num, i + 1)
      {
        ShiftedSucc(num, i);
        ShiftBytesSnoc(num, i + 1);
        n := Shr8(n);
        Push(And255(n));
        i := i + 1;
      }
    }

    method WriteLcb(num: Option<int>)
      requires Valid()
      modifies this
      ensures Valid()
      ensures data == old(data) + WrittenLcb(num)
    {
      var n := if num.None? then 0 else num.value;
      ghost var written := WrittenLcb(num);
      if 0 <= n < 251 {
        Push(n);
        assert written == [n];
      } else if num.None? {
        // `num === null`: unreachable, null already passed the first test as 0
        assert false;
      } else if 255 < n < 65536 {
        WriteWord16(n);
        assert written == [252] + ShiftBytes(n, 2);
      } else if 65535 < n < 16777216 {
        WriteWord24(n);
        assert written == [253] + ShiftBytes(n, 3);
      } else {
        WriteWord64(n);
        assert written == [254] + ShiftBytes(n, 8);
      }
    }

    /** writeLCB's 16-bit branch: the marker 252 and two bytes. */
    method WriteWord16(n: int)
      requires Valid()
      modifies this
      ensures Valid() && data == old(data) + [252] + ShiftBytes(n, 2)
    {
      Push(252);
      Push(And255(n));
      Push(And255(Shr8(n)));
    }

    /** writeLCB's 24-bit branch: the marker 253 and three bytes. */
    method WriteWord24(n: int)
      requires Valid()
      modifies this
      ensures Valid() && data == old(data) + [253] + ShiftBytes(n, 3)
    {
      Push(253);
      ghost var v := n;
      var num := n;
      Push(And255(num));
      num := Shr8(num);
      Push(And255(num));
      Push(And255(Shr8(num)));
      assert ShiftBytes(v, 3) == [And255(v), And255(Shr8(v)), And255(Shr8(Shr8(v)))];
    }

    /** writeLCB's 64-bit branch: the marker 254, then seven `(num >>= 8) & 255`
        after the first byte, the last one without the assignment. */
    method WriteWord64(n: int)
      requires Valid()
      modifies this
      ensures Valid() && data == old(data) + [254] + ShiftBytes(n, 8)
    {
      Push(254);
      ghost var base := data;
      var num := n;
      Push(And255(num));
      assert data == base + ShiftBytes(n, 1);
      num := Shr8(num);
      Push(And255(num));
      assert data == base + ShiftBytes(n, 2) && num == Shifted(n, 1) by { WideStep(base, n, 1, data, num); }
      num := Shr8(num);
      Push(And255(num));
      assert data == base + ShiftBytes(n, 3) && num == Shifted(n, 2) by { WideStep(base, n, 2, data, num); }
      num := Shr8(num);
      Push(And255(num));
      assert data == base + ShiftBytes(n, 4) && num == Shifted(n, 3) by { WideStep(base, n, 3, data, num); }
      num := Shr8(num);
      Push(And255(num));
      assert data == base + ShiftBytes(n, 5) && num == Shifted(n, 4) by { WideStep(base, n, 4, data, num); }
      num := Shr8(num);
      Push(And255(num));
      assert data == base + ShiftBytes(n, 6) && num == Shifted(n, 5) by { WideStep(base, n, 5, data, num); }
      num := Shr8(num);
      Push(And255(num));
      assert data == base + ShiftBytes(n, 7) && num == Shifted(n, 6) by { WideStep(base, n, 6, data, num); }
      Push(And255(Shr8(num)));
      WideStep(base, n, 7, data, Shr8(num));
    }

    method WriteString(str: JsString, noNull: bool)
      requires Valid()
      modifies this
      ensures Valid()
      ensures data == old(data) + LowBytes(str) + (if noNull then [] else [0])
    {
      var i := 0;
      while i < |str|
        invariant 0 <= i <= |str|
        invariant Valid() && data == old(data) + LowBytes(str)[..i]
      {
        Push(str[i] % 256);
        assert LowBytes(str)[..i + 1] == LowBytes(str)[..i] + [str[i] % 256];
        i := i + 1;
      }
      assert LowBytes(str)[..i] == LowBytes(str);
      if !noNull {
        Push(0);
      }
    }

    method WriteLengthString(str: JsString)
      requires Valid()
      modifies this
      ensures Valid()
      ensures data == old(data) + WrittenLcb(Some(|str|)) + LowBytes(str)
    {
      WriteLcb(Some(|str|));
      ghost var before := data;
      var i := 0;
      while i < |str|
        invariant 0 <= i <= |str|
        invariant Valid() && data == before + LowBytes(str)[..i]
      {
        Push(str[i] % 256);
        assert LowBytes(str)[..i + 1] == LowBytes(str)[..i] + [str[i] % 256];
        i := i + 1;
      }
      assert LowBytes(str)[..i] == LowBytes(str);
    }

    method GetBuffer(packetNo: int) returns (buffer: Bytes)
      requires Valid()
      modifies this
      ensures Valid() && Payload() == old(Payload())
      ensures var length := |old(data)| - 4;
        data[..4] == [And255(length), And255(Shr8(length)), Shr16(length), packetNo]
      ensures buffer == Frame(Payload(), packetNo)
    {
      var length := |data| - 4;
      data := data[0 := And255(length)];
      data := data[1 := And255(Shr8(length))];
      data := data[2 := Shr16(length)];
      data := data[3 := packetNo];
      buffer := ToUint8(data);
      assert buffer[4..] == Payload();
    }
  }

  /** One `(num >>= 8) & 255` step of writeLCB's eight-byte branch. */
  lemma WideStep(base: seq<int>, v: int, k: nat, data: seq<int>, n: int)
    requires k >= 1
    requires |data| >= 1 && data[..|data| - 1] == base + ShiftBytes(v, k)
    requires data[|data| - 1] == And255(n) && n == Shr8(Shifted(v, k - 1))
    ensures data == base + ShiftBytes(v, k + 1) && n == Shifted(v, k)
  {
    assert data == data[..|data| - 1] + [And255(n)];
    ShiftedSucc(v, k - 1);
    ShiftBytesSnoc(v, k);
  }

  /** Up to four bytes, writeFixedNumber emits `num` modulo 256^bytes, least
      significant byte first. */
  lemma FixedNumberLowBytes(num: int, bytes: int)
    requires 1 <= bytes <= 4
    ensures FixedNumberBytes(num, bytes) == ToLE(num, bytes)
    ensures LE(FixedNumberBytes(num, bytes)) == num % Pow256(bytes)
  {
    ShiftBytesLE(num, bytes);
  }

  /** Beyond four bytes the writer repeats the sign of the 32-bit value. */
  lemma FixedNumberSignExtends(num: int, bytes: int)
    requires bytes >= 1
    ensures LE(FixedNumberBytes(num, bytes)) == ToInt32(num) % Pow256(bytes)
  {
    ShiftBytesValue(num, bytes);
  }

  /** The header of a built frame: the payload length modulo 2^24 in three
      little-endian bytes, then the packet number modulo 256. */
  lemma FrameHeader(payload: Bytes, packetNo: int)
    ensures var f := Frame(payload, packetNo);
      LE(f[..3]) == |payload| % 0x100_0000 && f[3] == packetNo % 256 && f[4..] == payload
  {
    var length := |payload|;
    var t := ToInt32(length);
    var f := Frame(payload, packetNo);
    assert Shr8(Shr8(length)) == t / 65536 by {
      DivModUnique(t, 65536, (t / 256) / 256, (t / 256) % 256 * 256 + t % 256);
    }
    And255IsMod(Shr8(Shr8(length)));
    assert f[..3] == ShiftBytes(length, 3);
    ShiftBytesLE(length, 3);
  }

  /** Whatever writeLCB is given, getLCBNumber reads back the 32-bit value of
      the number (null counting as 0), taken modulo 2^64, and consumes exactly
      the bytes written. */
  lemma ReadLcbOfWritten(data: Bytes, at: nat, num: Option<int>)
    requires at + |WrittenLcb(num)| <= |data|
    requires data[at..at + |WrittenLcb(num)|] == WrittenLcb(num)
    ensures var v := if num.None? then 0 else num.value;
      ReadLcb(data, at) == Ok(Read(LcbNum(ToInt32(v) % LCB_LIMIT), at + |WrittenLcb(num)|))
  {
    var v := if num.None? then 0 else num.value;
    if 0 <= v < 251 {
      assert data[at] == v;
    } else if 255 < v < 65536 {
      ReadShifted(data, at, v, 252, 2);
      NarrowValue(v, 2);
    } else if 65535 < v < 16777216 {
      ReadShifted(data, at, v, 253, 3);
      NarrowValue(v, 3);
    } else {
      ReadShifted(data, at, v, 254, 8);
      LcbWidths();
    }
  }

  /** A value that fits in k < 4 bytes is its own 32-bit and 64-bit residue. */
  lemma NarrowValue(v: int, k: nat)
    requires k < 4 && 0 <= v < Pow256(k)
    ensures ToInt32(v) % Pow256(k) == v == ToInt32(v) % LCB_LIMIT
  {
    LcbWidths();
    assert Pow256(k) <= Pow256(3) by {
      if k < 3 {
        assert Pow256(k) <= Pow256(2) by {
          assert Pow256(1) == 256;
        }
      }
    }
  }

  /** getLCBNumber over a marker followed by the writer's k shifted bytes. */
  lemma ReadShifted(data: Bytes, at: nat, v: int, marker: byte, k: nat)
    requires 252 <= marker <= 254 && LcbWidth(marker) == k
    requires at + 1 + k <= |data| && data[at..at + 1 + k] == [marker] + ShiftBytes(v, k)
    ensures ReadLcb(data, at) == Ok(Read(LcbNum(ToInt32(v) % Pow256(k)), at + 1 + k))
  {
    assert data[at] == marker;
    assert data[at + 1..at + 1 + k] == ShiftBytes(v, k);
    ShiftBytesValue(v, k);
  }

  /** For the numbers the client writes (lengths and counts below 2^31),
      writeLCB followed by getLCBNumber is the identity. */
  lemma WrittenLcbRoundTrip(data: Bytes, at: nat, v: int)
    requires 0 <= v < TWO31
    requires at + |WrittenLcb(Some(v))| <= |data|
    requires data[at..at + |WrittenLcb(Some(v))|] == WrittenLcb(Some(v))
    ensures ReadLcb(data, at) == Ok(Read(LcbNum(v), at + |WrittenLcb(Some(v))|))
  {
    ReadLcbOfWritten(data, at, Some(v));
    DivModUnique(v, LCB_LIMIT, 0, v);
  }

  /** Outside 251..255 and below 2^24, writeLCB emits the shortest encoding;
      251..255 and everything from 2^24 up take the nine-byte form. */
  lemma WrittenLcbEncoding(v: int)
    requires 0 <= v < TWO31
    ensures (v < 251 || 255 < v < 0x100_0000) ==> WrittenLcb(Some(v)) == EncodeLcb(LcbNum(v))
    ensures (251 <= v <= 255 || v >= 0x100_0000) ==> WrittenLcb(Some(v)) == [254] + ToLE(v, 8)
  {
    if 255 < v < 0x100_0000 {
      ShiftBytesLE(v, if v < 0x1_0000 then 2 else 3);
    } else if !(v < 251) {
      ShiftBytesValue(v, 8);
      LEOfToLE(v, 8);
      assert Pow256(8) == LCB_LIMIT;
      LEInjective(ShiftBytes(v, 8), ToLE(v, 8));
    }
  }

  // writeLCB as written: null and numbers from 2^31 up do not read back.

  /** null passes the `num >= 0 && num < 251` test (it compares as 0), so the
      NULL marker 251 is never written: getLCBNumber reads the number 0. */
  lemma WrittenNullReadsAsZero()
    ensures WrittenLcb(None) == [0]
    ensures ReadLcb(WrittenLcb(None), 0) == Ok(Read(LcbNum(0), 1))
    ensures ReadLcb(WrittenLcb(None), 0) != Ok(Read(LcbNull, 1))
  {
  }

  /** 2^31 is written through the 32-bit shifts and comes back sign-extended. */
  lemma WrittenLargeSignExtends()
    ensures ReadLcb(WrittenLcb(Some(TWO31)), 0)
         == Ok(Read(LcbNum(LCB_LIMIT - TWO31), 9))
  {
    var w := WrittenLcb(Some(TWO31));
    ReadLcbOfWritten(w, 0, Some(TWO31));
    assert ToInt32(TWO31) == -TWO31;
    DivModUnique(-TWO31, LCB_LIMIT, -1, LCB_LIMIT - TWO31);
  }

  /** The intended writeLCB: null as the NULL marker, every number in its
      shortest length-coded form. */
  function IntendedLcb(num: Option<int>): (r: Bytes)
    requires num.Some? ==> 0 <= num.value < LCB_LIMIT
    ensures 1 <= |r| <= 9
  {
    if num.None? then EncodeLcb(LcbNull) else EncodeLcb(LcbNum(num.value))
  }

  /** The intended encoder reads back exactly, null included. */
  lemma IntendedLcbRoundTrip(data: Bytes, at: nat, num: Option<int>)
    requires num.Some? ==> 0 <= num.value < LCB_LIMIT
    requires at + |IntendedLcb(num)| <= |data|
    requires data[at..at + |IntendedLcb(num)|] == IntendedLcb(num)
    ensures ReadLcb(data, at)
         == Ok(Read(if num.None? then LcbNull else LcbNum(num.value), at + |IntendedLcb(num)|))
  {
    if num.None? {
      ReadLcbOfEncode(data, at, LcbNull);
    } else {
      ReadLcbOfEncode(data, at, LcbNum(num.value));
    }
  }
}
