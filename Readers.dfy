/** The cursor readers every packet parser calls: getFixedNumber, getLCBNumber,
    getLCBString, getFixedString and the cursor form of getNullString. The
    repository's Packet.js does not define them, so they are defined here once,
    after the MySQL rules for little-endian fixed integers and length-coded
    binary (LCB) numbers and strings, together with the reference encoders they
    invert. A read that would run past the end of the payload fails. */
module Readers {
  import opened Octets

  /** A length-coded binary number: NULL (marker 251) or a value. */
  datatype Lcb = LcbNull | LcbNum(n: nat)

  /** A value read from a payload and the cursor just past it. */
  datatype Read<+T> = Read(value: T, next: nat)

  const LCB_LIMIT: int := 0x1_0000_0000_0000_0000

  /** getFixedNumber(cursor, n): an n-byte little-endian unsigned integer. */
  function ReadFixed(data: Bytes, at: nat, n: nat): (r: Result<Read<nat>>)
    ensures r.Ok? <==> at + n <= |data|
    ensures r.Ok? ==> r.value.next == at + n && r.value.value < Pow256(n)
  {
    if at + n <= |data| then
      LEBound(data[at..at + n]);
      Ok(Read(LE(data[at..at + n]), at + n))
    else
      Fail(OutOfRange(at, n))
  }

  /** A one-byte read is the byte itself. */
  lemma ReadByte(data: Bytes, at: nat)
    requires at < |data|
    ensures ReadFixed(data, at, 1) == Ok(Read(data[at], at + 1))
  {
    assert data[at..at + 1][1..] == [];
  }

  /** getFixedString(cursor, n): the next n bytes; a negative n cannot be read. */
  function ReadFixedString(data: Bytes, at: nat, n: int): (r: Result<Read<Bytes>>)
    ensures r.Ok? <==> 0 <= n && at + n <= |data|
    ensures r.Ok? ==> |r.value.value| == n && r.value.next == at + n
  {
    if 0 <= n && at + n <= |data| then Ok(Read(data[at..at + n], at + n))
    else Fail(OutOfRange(at, n))
  }

  /** The number of bytes that follow an LCB marker byte of 252, 253 or 254. */
  function LcbWidth(marker: byte): nat
  {
    if marker == 252 then 2 else if marker == 253 then 3 else 8
  }

  /** The ranges of the 2-, 3- and 8-byte forms. */
  lemma LcbWidths()
    ensures Pow256(2) == 0x1_0000 && Pow256(3) == 0x100_0000 && Pow256(8) == LCB_LIMIT
  {
    assert Pow256(4) == 0x1_0000_0000;
  }

  /** getLCBNumber(cursor): 0-250 literal, 251 NULL, 252/253/254 followed by
      2/3/8 little-endian bytes; 255 is not a length-coded number. */
  function ReadLcb(data: Bytes, at: nat): (r: Result<Read<Lcb>>)
    ensures r.Ok? ==> at < r.value.next <= |data|
    ensures r.Ok? ==> data[at] != 255
    ensures r.Ok? && data[at] < 251 ==> r.value == Read(LcbNum(data[at]), at + 1)
    ensures r.Ok? && r.value.value.LcbNum? ==> r.value.value.n < LCB_LIMIT
  {
    if at >= |data| then Fail(OutOfRange(at, 1))
    else if data[at] < 251 then Ok(Read(LcbNum(data[at]), at + 1))
    else if data[at] == 251 then Ok(Read(LcbNull, at + 1))
    else if data[at] == 255 then Fail(BadLcb(at))
    else
      var v :- ReadFixed(data, at + 1, LcbWidth(data[at]));
      LcbWidths();
      Ok(Read(LcbNum(v.value), v.next))
  }

  /** getLCBString(cursor): an LCB length, then that many bytes; NULL stays NULL. */
  function ReadLcbString(data: Bytes, at: nat): (r: Result<Read<Option<Bytes>>>)
    ensures r.Ok? ==> at < r.value.next <= |data|
    ensures r.Ok? && r.value.value.Some? ==> r.value.next == at + 1 + |r.value.value.value| || data[at] >= 251
  {
    var len :- ReadLcb(data, at);
    match len.value
    case LcbNull => Ok(Read(None, len.next))
    case LcbNum(n) =>
      var s :- ReadFixedString(data, len.next, n);
      Ok(Read(Some(s.value), s.next))
  }

  /** The position of the first 0 byte at or after `at`, or the end of the data
      when there is none. */
  function NullEnd(data: Bytes, at: nat): (t: nat)
    ensures at <= t
    ensures t < |data| ==> data[t] == 0
    ensures t >= |data| ==> t == if at > |data| then at else |data|
    ensures forall k :: at <= k < t && k < |data| ==> data[k] != 0
    decreases |data| - at
  {
    if at >= |data| then at
    else if data[at] == 0 then at
    else NullEnd(data, at + 1)
  }

  /** getNullString(cursor) of the cursor API: the bytes up to the terminator,
      with the cursor left just past the terminator. */
  function ReadNullString(data: Bytes, at: nat): (r: Read<Bytes>)
    ensures forall k :: 0 <= k < |r.value| ==> r.value[k] != 0
    ensures at <= |data| ==> r.next == NullEnd(data, at) + 1 || (r.next == |data| && 0 !in data[at..])
    ensures at <= |data| ==> at + |r.value| <= |data| && data[at..at + |r.value|] == r.value
  {
    var t := NullEnd(data, at);
    var s := if at <= |data| then data[at..t] else [];
    assert forall k :: 0 <= k < |s| ==> s[k] == data[at + k];
    Read(s, if t < |data| then t + 1 else t)
  }

  function Min(a: int, b: int): int { if a <= b then a else b }

  /** The number of bytes `source.copy(target, targetStart, sourceStart,
      sourceEnd)` moves: the source range is clipped to the source, the copy to
      the room left in the target. */
  function CopyCount(targetLength: nat, targetStart: nat, sourceLength: nat, sourceStart: nat, sourceEnd: int): (n: nat)
    requires targetStart <= targetLength
    ensures n > 0 ==> sourceStart + n <= sourceLength && targetStart + n <= targetLength
  {
    var end := Min(sourceEnd, sourceLength);
    if sourceStart >= end then 0 else Min(end - sourceStart, targetLength - targetStart)
  }

  /** Node's Buffer.copy: the target with the copied range overwritten. The
      ranges Node rejects with a RangeError (a negative sourceEnd, a
      sourceStart at or past the end of the source) are clipped here, and
      the copy never fails. */
  function BufferCopy(target: Bytes, targetStart: nat, source: Bytes, sourceStart: nat, sourceEnd: int): (r: Bytes)
    requires targetStart <= |target|
    ensures |r| == |target|
  {
    var n := CopyCount(|target|, targetStart, |source|, sourceStart, sourceEnd);
    if n == 0 then target
    else target[..targetStart] + source[sourceStart..sourceStart + n] + target[targetStart + n..]
  }

  lemma BufferCopyParts(target: Bytes, targetStart: nat, source: Bytes, sourceStart: nat, sourceEnd: int)
    requires targetStart <= |target|
    ensures var n := CopyCount(|target|, targetStart, |source|, sourceStart, sourceEnd);
      var r := BufferCopy(target, targetStart, source, sourceStart, sourceEnd);
      && r[..targetStart] == target[..targetStart]
      && (n > 0 ==> r[targetStart..targetStart + n] == source[sourceStart..sourceStart + n])
      && r[targetStart + n..] == target[targetStart + n..]
  {
  }

  // Reference encoders: what a server writes, and what the readers undo.

  predicate Encodable(l: Lcb)
  {
    l.LcbNum? ==> l.n < LCB_LIMIT
  }

  /** The shortest LCB encoding of a number, or the NULL marker. */
  function EncodeLcb(l: Lcb): (r: Bytes)
    requires Encodable(l)
    ensures 1 <= |r| <= 9
  {
    match l
    case LcbNull => [251]
    case LcbNum(n) =>
      if n < 251 then [n]
      else if n < 0x1_0000 then [252] + ToLE(n, 2)
      else if n < 0x100_0000 then [253] + ToLE(n, 3)
      else [254] + ToLE(n, 8)
  }

  /** A number below 251 is its own one-byte encoding, and exactly those
      encodings are one byte below 251. */
  lemma EncodeLcbShort(l: Lcb)
    requires Encodable(l)
    ensures var r := EncodeLcb(l);
      l.LcbNum? && l.n < 251 <==> |r| == 1 && r[0] < 251
  {
  }

  function EncodeLcbString(s: Option<Bytes>): (r: Bytes)
    requires s.Some? ==> |s.value| < LCB_LIMIT
  {
    match s
    case None => EncodeLcb(LcbNull)
    case Some(b) => EncodeLcb(LcbNum(|b|)) + b
  }

  /** Reading n fixed bytes returns the value that was written, modulo 256^n. */
  lemma ReadFixedOfToLE(data: Bytes, at: nat, v: int, n: nat)
    requires at + n <= |data| && data[at..at + n] == ToLE(v, n)
    ensures ReadFixed(data, at, n) == Ok(Read(v % Pow256(n), at + n))
  {
    LEOfToLE(v, n);
  }

  /** getLCBNumber undoes the LCB encoding, wherever it stands in a payload. */
  lemma ReadLcbOfEncode(data: Bytes, at: nat, l: Lcb)
    requires Encodable(l)
    requires at + |EncodeLcb(l)| <= |data| && data[at..at + |EncodeLcb(l)|] == EncodeLcb(l)
    ensures ReadLcb(data, at) == Ok(Read(l, at + |EncodeLcb(l)|))
  {
    LcbWidths();
    match l
    case LcbNull =>
      assert data[at] == 251;
    case LcbNum(n) =>
      if n < 251 {
        assert data[at] == n;
      } else if n < 0x1_0000 {
        ReadMarked(data, at, n, 252);
      } else if n < 0x100_0000 {
        ReadMarked(data, at, n, 253);
      } else {
        ReadMarked(data, at, n, 254);
      }
  }

  /** A marker followed by the little-endian bytes of a value that fits them. */
  lemma ReadMarked(data: Bytes, at: nat, v: nat, marker: byte)
    requires 252 <= marker <= 254 && v < Pow256(LcbWidth(marker))
    requires var k := LcbWidth(marker);
      at + 1 + k <= |data| && data[at..at + 1 + k] == [marker] + ToLE(v, k)
    ensures ReadLcb(data, at) == Ok(Read(LcbNum(v), at + 1 + LcbWidth(marker)))
  {
    var k := LcbWidth(marker);
    assert data[at] == marker;
    assert data[at + 1..at + 1 + k] == ToLE(v, k);
    ReadFixedOfToLE(data, at + 1, v, k);
    DivModUnique(v, Pow256(k), 0, v);
  }

  /** getLCBString undoes the LCB string encoding. */
  lemma ReadLcbStringOfEncode(data: Bytes, at: nat, s: Option<Bytes>)
    requires s.Some? ==> |s.value| < LCB_LIMIT
    requires at + |EncodeLcbString(s)| <= |data| && data[at..at + |EncodeLcbString(s)|] == EncodeLcbString(s)
    ensures ReadLcbString(data, at) == Ok(Read(s, at + |EncodeLcbString(s)|))
  {
    match s
    case None =>
      ReadLcbOfEncode(data, at, LcbNull);
    case Some(b) =>
      ReadSomeOfEncode(data, at, b);
  }

  lemma ReadSomeOfEncode(data: Bytes, at: nat, b: Bytes)
    requires |b| < LCB_LIMIT
    requires var h := EncodeLcb(LcbNum(|b|));
      at + |h| + |b| <= |data| && data[at..at + |h| + |b|] == h + b
    ensures ReadLcbString(data, at) == Ok(Read(Some(b), at + |EncodeLcb(LcbNum(|b|))| + |b|))
  {
    var h := EncodeLcb(LcbNum(|b|));
    SplitSlice(data, at, h, b);
    ReadLcbOfEncode(data, at, LcbNum(|b|));
    LcbStringSteps(data, at, at + |h|, b);
  }

  /** A slice that holds two pieces holds each of them in turn. */
  lemma SplitSlice(data: Bytes, at: nat, h: Bytes, b: Bytes)
    requires at + |h| + |b| <= |data| && data[at..at + |h| + |b|] == h + b
    ensures data[at..at + |h|] == h && data[at + |h|..at + |h| + |b|] == b
  {
    var w := data[at..at + |h| + |b|];
    assert data[at..at + |h|] == w[..|h|] == h;
    assert data[at + |h|..at + |h| + |b|] == w[|h|..] == b;
  }

  /** getLCBString put together from its two reads. */
  lemma LcbStringSteps(data: Bytes, at: nat, next: nat, b: Bytes)
    requires ReadLcb(data, at) == Ok(Read(LcbNum(|b|), next))
    requires next + |b| <= |data| && data[next..next + |b|] == b
    ensures ReadLcbString(data, at) == Ok(Read(Some(b), next + |b|))
  {
  }

  /** Each read, at the end of a prefix of the data, reads back the last
      piece of that prefix and leaves the cursor just past it. */
  lemma FixedAtEnd(a: Bytes, v: nat, n: nat, data: Bytes)
    requires Prefix(a + ToLE(v, n), data) && v < Pow256(n)
    ensures ReadFixed(data, |a|, n) == Ok(Read(v, |a| + n))
  {
    PieceAt(a, ToLE(v, n), data);
    ReadFixedOfToLE(data, |a|, v, n);
    DivModUnique(v, Pow256(n), 0, v);
  }

  lemma ByteAtEnd(a: Bytes, v: byte, data: Bytes)
    requires Prefix(a + [v], data)
    ensures ReadFixed(data, |a|, 1) == Ok(Read(v as nat, |a| + 1))
  {
    PieceAt(a, [v], data);
    ReadByte(data, |a|);
  }

  lemma StringAtEnd(a: Bytes, s: Bytes, data: Bytes)
    requires Prefix(a + s, data)
    ensures ReadFixedString(data, |a|, |s|) == Ok(Read(s, |a| + |s|))
  {
    PieceAt(a, s, data);
  }

  lemma LcbAtEnd(a: Bytes, l: Lcb, data: Bytes)
    requires Encodable(l) && Prefix(a + EncodeLcb(l), data)
    ensures ReadLcb(data, |a|) == Ok(Read(l, |a| + |EncodeLcb(l)|))
  {
    PieceAt(a, EncodeLcb(l), data);
    ReadLcbOfEncode(data, |a|, l);
  }

  lemma LcbStringAtEnd(a: Bytes, s: Option<Bytes>, data: Bytes)
    requires s.Some? ==> |s.value| < LCB_LIMIT
    requires Prefix(a + EncodeLcbString(s), data)
    ensures ReadLcbString(data, |a|) == Ok(Read(s, |a| + |EncodeLcbString(s)|))
  {
    PieceAt(a, EncodeLcbString(s), data);
    ReadLcbStringOfEncode(data, |a|, s);
  }

  /** getNullString over a string without 0 bytes and its terminator. */
  lemma NullStringAtEnd(a: Bytes, s: Bytes, data: Bytes)
    requires 0 !in s && Prefix(a + s + [0], data)
    ensures ReadNullString(data, |a|) == Read(s, |a| + |s| + 1)
  {
    PieceAt(a + s, [0], data);
    PrefixStep(a + s, [0], data);
    PieceAt(a, s, data);
    assert forall j :: |a| <= j < |a| + |s| ==> data[j] == s[j - |a|];
    NullEndAt(data, |a|, |s|);
  }

  /** Buffer.copy of the last piece of a prefix into a target with room for
      it overwrites exactly that range of the target. */
  lemma CopyAtEnd(a: Bytes, s: Bytes, data: Bytes, target: Bytes, targetStart: nat)
    requires Prefix(a + s, data) && targetStart + |s| <= |target|
    ensures BufferCopy(target, targetStart, data, |a|, |a| + |s|)
         == target[..targetStart] + s + target[targetStart + |s|..]
  {
    PieceAt(a, s, data);
    CopyExact(target, targetStart, data, |a|, s);
  }

  /** The terminator sits `k` bytes after `at` when those bytes are not 0. */
  lemma {:induction false} NullEndAt(data: Bytes, at: nat, k: nat)
    requires at + k < |data| && data[at + k] == 0
    requires forall j :: at <= j < at + k ==> data[j] != 0
    ensures NullEnd(data, at) == at + k
    decreases k
  {
    if k > 0 {
      NullEndAt(data, at + 1, k - 1);
    }
  }

  /** Copying a range that fits in the target overwrites exactly that range. */
  lemma CopyExact(target: Bytes, targetStart: nat, source: Bytes, sourceStart: nat, piece: Bytes)
    requires targetStart + |piece| <= |target|
    requires sourceStart + |piece| <= |source| && source[sourceStart..sourceStart + |piece|] == piece
    ensures BufferCopy(target, targetStart, source, sourceStart, sourceStart + |piece|)
         == target[..targetStart] + piece + target[targetStart + |piece|..]
  {
  }

  /** Each read on a cursor at the start of its own encoding, followed by
      `rest`: the value comes back and `rest` sits right after it. */
  lemma FixedThen(data: Bytes, at: nat, v: nat, n: nat, rest: Bytes)
    requires StartsAt(data, at, ToLE(v, n) + rest) && v < Pow256(n)
    ensures ReadFixed(data, at, n) == Ok(Read(v, at + n)) && StartsAt(data, at + n, rest)
  {
    SplitAt(data, at, ToLE(v, n), rest);
    ReadFixedOfToLE(data, at, v, n);
    DivModUnique(v, Pow256(n), 0, v);
  }

  lemma ByteThen(data: Bytes, at: nat, v: byte, rest: Bytes)
    requires StartsAt(data, at, [v] + rest)
    ensures ReadFixed(data, at, 1) == Ok(Read(v as nat, at + 1)) && StartsAt(data, at + 1, rest)
  {
    SplitAt(data, at, [v], rest);
    ReadByte(data, at);
  }

  lemma LcbThen(data: Bytes, at: nat, l: Lcb, rest: Bytes)
    requires Encodable(l) && StartsAt(data, at, EncodeLcb(l) + rest)
    ensures ReadLcb(data, at) == Ok(Read(l, at + |EncodeLcb(l)|)) && StartsAt(data, at + |EncodeLcb(l)|, rest)
  {
    SplitAt(data, at, EncodeLcb(l), rest);
    ReadLcbOfEncode(data, at, l);
  }

  lemma LcbStringThen(data: Bytes, at: nat, s: Option<Bytes>, rest: Bytes)
    requires s.Some? ==> |s.value| < LCB_LIMIT
    requires StartsAt(data, at, EncodeLcbString(s) + rest)
    ensures ReadLcbString(data, at) == Ok(Read(s, at + |EncodeLcbString(s)|))
    ensures StartsAt(data, at + |EncodeLcbString(s)|, rest)
  {
    SplitAt(data, at, EncodeLcbString(s), rest);
    ReadLcbStringOfEncode(data, at, s);
  }

  lemma NullStringThen(data: Bytes, at: nat, s: Bytes, rest: Bytes)
    requires 0 !in s && StartsAt(data, at, s + ([0] + rest))
    ensures ReadNullString(data, at) == Read(s, at + |s| + 1) && StartsAt(data, at + |s| + 1, rest)
  {
    SplitAt(data, at, s, [0] + rest);
    SplitAt(data, at + |s|, [0], rest);
    assert forall j :: at <= j < at + |s| ==> data[j] == s[j - at];
    NullEndAt(data, at, |s|);
  }
}
