/** lib/packets/RowPacket.js: a result row, the LCB strings read one after
    another until the cursor reaches the end of the received data. */
module Row {
  import opened Octets
  import opened Readers
  import opened Packets

  /** A column value: a byte string, or `None` for SQL NULL. */
  type Value = Option<Bytes>

  /** The values read from `at` to the end of `data`; a value that cannot be
      read makes the whole row fail. Every value takes at least one byte, so
      a row has no more values than bytes. */
  function DecodeFrom(data: Bytes, at: nat): (r: Result<seq<Value>>)
    ensures at >= |data| ==> r == Ok([])
    ensures r.Ok? && at <= |data| ==> |r.value| <= |data| - at
    decreases |data| - at
  {
    if at >= |data| then Ok([])
    else
      var v :- ReadLcbString(data, at);
      var rest :- DecodeFrom(data, v.next);
      Ok([v.value] + rest)
  }

  /** The row of a packet: its data read from offset 0. */
  function Decode(p: Packet): (r: Result<seq<Value>>)
    ensures |p.data| == 0 ==> r == Ok([])
    ensures r.Ok? ==> |r.value| <= |p.data|
  {
    DecodeFrom(p.data, 0)
  }

  /** `done` put in front of the values of `rest`, or the failure of `rest`. */
  function Glue(done: seq<Value>, rest: Result<seq<Value>>): Result<seq<Value>>
  {
    match rest
    case Ok(vs) => Ok(done + vs)
    case Fail(e) => Fail(e)
  }

  /** new RowPacket(packet): `this.data[this.data.length] = getLCBString(index)`
      while the cursor is short of the end of the data. */
  method Parse(p: Packet) returns (r: Result<seq<Value>>)
    ensures r == Decode(p)
  {
    var values: seq<Value> := [];
    var index := 0;
    GlueNothing(Decode(p));
    while index < |p.data|
      invariant Decode(p) == Glue(values, DecodeFrom(p.data, index))
      decreases |p.data| - index
    {
      var v := ReadLcbString(p.data, index);
      if v.Fail? {
        return Fail(v.error);
      }
      assert DecodeFrom(p.data, index) == Glue([v.value.value], DecodeFrom(p.data, v.value.next));
      GlueTwice(values, [v.value.value], DecodeFrom(p.data, v.value.next));
      values := values + [v.value.value];
      index := v.value.next;
    }
    assert DecodeFrom(p.data, index) == Ok([]);
    assert values + [] == values;
    r := Ok(values);
  }

  lemma GlueNothing(rest: Result<seq<Value>>)
    ensures Glue([], rest) == rest
  {
    if rest.Ok? {
      assert [] + rest.value == rest.value;
    }
  }

  lemma GlueTwice(first: seq<Value>, second: seq<Value>, rest: Result<seq<Value>>)
    ensures Glue(first, Glue(second, rest)) == Glue(first + second, rest)
  {
    if rest.Ok? {
      assert first + (second + rest.value) == (first + second) + rest.value;
    }
  }

  /** A row as a server sends it: each value LCB-encoded, one after another. */
  function Encode(values: seq<Value>): (r: Bytes)
    requires Fits(values)
    ensures |r| >= |values|
  {
    if values == [] then []
    else EncodeLcbString(values[0]) + Encode(values[1..])
  }

  /** Every value of an encoded row is read back, in order, however many
      there are. */
  lemma RoundTrip(values: seq<Value>, length: nat, nr: byte)
    requires Fits(values)
    ensures Decode(Packet(length, nr, Encode(values))) == Ok(values)
  {
    var e := Encode(values);
    assert e[0..] == e;
    RoundTripFrom(e, 0, values);
  }

  /** An encoded row at the end of the data is read back from its start. */
  lemma {:induction false} RoundTripFrom(data: Bytes, at: nat, values: seq<Value>)
    requires Fits(values)
    requires at <= |data| && data[at..] == Encode(values)
    ensures DecodeFrom(data, at) == Ok(values)
    decreases values
  {
    if values != [] {
      var h := EncodeLcbString(values[0]);
      var rest := Encode(values[1..]);
      TailSplit(data, at, h, rest);
      ReadLcbStringOfEncode(data, at, values[0]);
      RoundTripFrom(data, at + |h|, values[1..]);
      DecodeStep(data, at, values[0], at + |h|, values[1..]);
      assert values == [values[0]] + values[1..];
    }
  }

  /** One value read, then the rest of the row. */
  lemma DecodeStep(data: Bytes, at: nat, v: Value, next: nat, rest: seq<Value>)
    requires at < |data| && ReadLcbString(data, at) == Ok(Read(v, next))
    requires DecodeFrom(data, next) == Ok(rest)
    ensures DecodeFrom(data, at) == Ok([v] + rest)
  {
  }

  /** The two pieces of the tail of `data` that starts at `at`. */
  lemma TailSplit(data: Bytes, at: nat, h: Bytes, rest: Bytes)
    requires at <= |data| && data[at..] == h + rest
    ensures at + |h| <= |data| && data[at..at + |h|] == h && data[at + |h|..] == rest
  {
    assert data[at..at + |h|] == data[at..][..|h|];
    assert data[at + |h|..] == data[at..][|h|..];
  }

  /** A value that cannot be read makes the whole row fail, even when the
      values before it were read. */
  lemma BadMarkerFails(data: Bytes)
    requires |data| >= 2 && data[0] == 0 && data[1] == 255
    ensures DecodeFrom(data, 0) == Fail(BadLcb(1))
  {
    assert ReadLcbString(data, 0) == Ok(Read(Some([]), 1)) by {
      assert data[1..1] == [];
    }
  }

  /** Every value short enough for an LCB length. */
  predicate Fits(values: seq<Value>)
  {
    forall i :: 0 <= i < |values| ==> Fit(values[i])
  }

  /** A value short enough for an LCB length. */
  predicate Fit(v: Value)
  {
    v.Some? ==> |v.value| < LCB_LIMIT
  }



  /** Two encoded values followed by `rest` are read one after the other,
      and `rest` sits right after them. */
  lemma ReadTwo(d: Bytes, at: nat, v1: Value, v2: Value, rest: Bytes) returns (n1: nat, n2: nat)
    requires Fit(v1) && Fit(v2)
    requires StartsAt(d, at, EncodeLcbString(v1) + (EncodeLcbString(v2) + rest))
    ensures ReadLcbString(d, at) == Ok(Read(v1, n1)) && ReadLcbString(d, n1) == Ok(Read(v2, n2))
    ensures StartsAt(d, n2, rest) && n2 == at + |EncodeLcbString(v1)| + |EncodeLcbString(v2)|
  {
    LcbStringThen(d, at, v1, EncodeLcbString(v2) + rest);
    n1 := at + |EncodeLcbString(v1)|;
    LcbStringThen(d, n1, v2, rest);
    n2 := n1 + |EncodeLcbString(v2)|;
  }
}
