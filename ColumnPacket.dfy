/** lib/ColumnPacket.js: a column definition, six LCB strings followed by
    fixed-width fields at fixed distances from the end of the strings, and
    the LCB default value. */
module Column {
  import opened Octets
  import opened Readers
  import opened Packets
  import Row

  /** The fields the constructor sets, in source order (`type` is
      `columnType` here). */
  datatype ColumnDef = ColumnDef(
    catalog: Row.Value,
    db: Row.Value,
    table: Row.Value,
    tableAS: Row.Value,
    name: Row.Value,
    nameAS: Row.Value,
    charset: nat,
    length: nat,
    columnType: nat,
    flags: nat,
    decimals: nat,
    defaults: Lcb)

  /** The six LCB strings at the start of the payload, read one after
      another, and the cursor just past the last one. */
  function ReadNames(data: Bytes): (r: Result<Read<seq<Row.Value>>>)
    ensures r.Ok? ==> |r.value.value| == 6 && 6 <= r.value.next <= |data|
  {
    var catalog :- ReadLcbString(data, 0);
    var db :- ReadLcbString(data, catalog.next);
    var table :- ReadLcbString(data, db.next);
    var tableAS :- ReadLcbString(data, table.next);
    var name :- ReadLcbString(data, tableAS.next);
    var nameAS :- ReadLcbString(data, name.next);
    Ok(Read([catalog.value, db.value, table.value, tableAS.value, name.value, nameAS.value], nameAS.next))
  }

  /** The reads in source order: the six strings, then the fields after
      them. */
  function Decode(p: Packet): (r: Result<ColumnDef>)
    ensures r.Ok? <==> ReadNames(p.data).Ok? && DecodeFixed(p.data, ReadNames(p.data).value).Ok?
    ensures r.Ok? ==> r == DecodeFixed(p.data, ReadNames(p.data).value)
  {
    var names :- ReadNames(p.data);
    DecodeFixed(p.data, names)
  }

  /** After the strings that end at `c`: one skipped byte; the charset (2
      bytes), display length (4), type (1), flags (2) and decimals (1); two
      skipped bytes; the default value. The fixed fields therefore sit 1, 3,
      7, 8 and 10 bytes after `c`, and the default value 13 bytes after it;
      the bytes at c, c+11 and c+12 are never read. */
  function DecodeFixed(d: Bytes, names: Read<seq<Row.Value>>): (r: Result<ColumnDef>)
    requires |names.value| == 6
    ensures var c := names.next;
      (r.Ok? <==> c + 13 < |d| && ReadLcb(d, c + 13).Ok?)
    ensures r.Ok? ==> var c := names.next;
      && [r.value.catalog, r.value.db, r.value.table, r.value.tableAS, r.value.name, r.value.nameAS] == names.value
      && r.value.charset == LE(d[c + 1..c + 3])
      && r.value.length == LE(d[c + 3..c + 7])
      && r.value.columnType == d[c + 7]
      && r.value.flags == LE(d[c + 8..c + 10])
      && r.value.decimals == d[c + 10]
      && r.value.defaults == ReadLcb(d, c + 13).value.value
  {
    var c := names.next;
    var charset :- ReadFixed(d, c + 1, 2);
    var length :- ReadFixed(d, c + 3, 4);
    var columnType :- ReadFixed(d, c + 7, 1);
    var flags :- ReadFixed(d, c + 8, 2);
    var decimals :- ReadFixed(d, c + 10, 1);
    var defaults :- ReadLcb(d, c + 13);
    ReadByte(d, c + 7);
    ReadByte(d, c + 10);
    var n := names.value;
    Ok(ColumnDef(n[0], n[1], n[2], n[3], n[4], n[5], charset.value, length.value, columnType.value, flags.value,
                 decimals.value, defaults.value))
  }

  /** new ColumnPacket(packet): the six getLCBString calls, then the reads
      after them, all on one cursor. */
  method Parse(p: Packet) returns (r: Result<ColumnDef>)
    ensures r == Decode(p)
  {
    var names :- ParseNames(p);
    r := ParseFixed(p, names);
  }

  /** The rest of the constructor: `++index.index`, the five getFixedNumber
      calls, `index.index += 2` and getLCBNumber. */
  method ParseFixed(p: Packet, names: Read<seq<Row.Value>>) returns (r: Result<ColumnDef>)
    requires |names.value| == 6
    ensures r == DecodeFixed(p.data, names)
  {
    var index := names.next;
    index := index + 1;
    var charset :- ReadFixed(p.data, index, 2);
    index := charset.next;
    var length :- ReadFixed(p.data, index, 4);
    index := length.next;
    var columnType :- ReadFixed(p.data, index, 1);
    index := columnType.next;
    var flags :- ReadFixed(p.data, index, 2);
    index := flags.next;
    var decimals :- ReadFixed(p.data, index, 1);
    index := decimals.next;
    index := index + 2;
    var defaults :- ReadLcb(p.data, index);
    var n := names.value;
    r := Ok(ColumnDef(n[0], n[1], n[2], n[3], n[4], n[5],
                      charset.value, length.value, columnType.value, flags.value, decimals.value, defaults.value));
  }

  /** The constructor's first six reads, on the cursor that starts at 0. */
  method ParseNames(p: Packet) returns (r: Result<Read<seq<Row.Value>>>)
    ensures r == ReadNames(p.data)
  {
    var index := 0;
    var catalog :- ReadLcbString(p.data, index);
    index := catalog.next;
    var db :- ReadLcbString(p.data, index);
    index := db.next;
    var table :- ReadLcbString(p.data, index);
    index := table.next;
    var tableAS :- ReadLcbString(p.data, index);
    index := tableAS.next;
    var name :- ReadLcbString(p.data, index);
    index := name.next;
    var nameAS :- ReadLcbString(p.data, index);
    index := nameAS.next;
    r := Ok(Read([catalog.value, db.value, table.value, tableAS.value, name.value, nameAS.value], index));
  }

  /** A column definition as a server sends it: the six strings, then the
      fields after them. */
  function Encode(c: ColumnDef, filler: byte, reserved: Bytes): (r: Bytes)
    requires Encodable(c.defaults) && |reserved| == 2 && Narrow(c) && AllFit(c)
    ensures |r| >= 20
  {
    EncodeNames(c) + EncodeFixed(c, filler, reserved)
  }

  /** The six strings, LCB-encoded one after another. */
  function EncodeNames(c: ColumnDef): (r: Bytes)
    requires AllFit(c)
    ensures |r| >= 6
  {
    EncodeLcbString(c.catalog) + EncodeLcbString(c.db) + EncodeLcbString(c.table) + EncodeLcbString(c.tableAS)
    + EncodeLcbString(c.name) + EncodeLcbString(c.nameAS)
  }

  /** The six strings, in the order they are read. */
  function Names(c: ColumnDef): seq<Row.Value>
  {
    [c.catalog, c.db, c.table, c.tableAS, c.name, c.nameAS]
  }

  /** A filler byte, the fixed fields, two reserved bytes and the default
      value. */
  function EncodeFixed(c: ColumnDef, filler: byte, reserved: Bytes): (r: Bytes)
    requires Encodable(c.defaults) && |reserved| == 2 && Narrow(c)
    ensures |r| >= 14
  {
    [filler] + ToLE(c.charset, 2) + ToLE(c.length, 4) + [c.columnType] + ToLE(c.flags, 2)
    + [c.decimals] + reserved + EncodeLcb(c.defaults)
  }

  /** Every string short enough for an LCB length. */
  predicate AllFit(c: ColumnDef)
  {
    Row.Fit(c.catalog) && Row.Fit(c.db) && Row.Fit(c.table) && Row.Fit(c.tableAS) && Row.Fit(c.name)
    && Row.Fit(c.nameAS)
  }

  /** The fixed fields fit their widths. */
  predicate Narrow(c: ColumnDef)
  {
    c.charset < 0x1_0000 && c.length < 0x1_0000_0000 && c.columnType < 0x100 && c.flags < 0x1_0000
    && c.decimals < 0x100
  }

  /** Every field of an encoded column definition is read back, whatever the
      filler and reserved bytes hold and whatever the header's length says. */
  lemma RoundTrip(c: ColumnDef, filler: byte, reserved: Bytes, length: nat, nr: byte)
    requires Encodable(c.defaults) && |reserved| == 2 && Narrow(c) && AllFit(c)
    ensures Decode(Packet(length, nr, Encode(c, filler, reserved))) == Ok(c)
  {
    var e := Encode(c, filler, reserved);
    var names := EncodeNames(c);
    assert StartsAt(e, 0, names + EncodeFixed(c, filler, reserved)) by {
      assert e[0..|e|] == e;
    }
    var n := NamesIn(e, c, EncodeFixed(c, filler, reserved));
    FixedIn(e, n, c, filler, reserved);
    FixedSteps(e, n, c);
  }

  /** The six strings are read back from data that starts with their
      encoding; the fields after them start at `n`. */
  lemma NamesIn(d: Bytes, c: ColumnDef, rest: Bytes) returns (n: nat)
    requires AllFit(c) && StartsAt(d, 0, EncodeNames(c) + rest)
    ensures ReadNames(d) == Ok(Read(Names(c), n)) && StartsAt(d, n, rest)
  {
    var n1, n2, n3, n4, n5, n6 := NameReads(d, c, rest);
    NamesSteps(d, c.catalog, c.db, c.table, c.tableAS, c.name, c.nameAS, n1, n2, n3, n4, n5, n6);
    n := n6;
  }

  /** The six reads, two at a time. */
  lemma NameReads(d: Bytes, c: ColumnDef, rest: Bytes) returns (n1: nat, n2: nat, n3: nat, n4: nat, n5: nat, n6: nat)
    requires AllFit(c) && StartsAt(d, 0, EncodeNames(c) + rest)
    ensures ReadLcbString(d, 0) == Ok(Read(c.catalog, n1))
    ensures ReadLcbString(d, n1) == Ok(Read(c.db, n2))
    ensures ReadLcbString(d, n2) == Ok(Read(c.table, n3))
    ensures ReadLcbString(d, n3) == Ok(Read(c.tableAS, n4))
    ensures ReadLcbString(d, n4) == Ok(Read(c.name, n5))
    ensures ReadLcbString(d, n5) == Ok(Read(c.nameAS, n6))
    ensures StartsAt(d, n6, rest)
  {
    var e1, e2, e3 := EncodeLcbString(c.catalog), EncodeLcbString(c.db), EncodeLcbString(c.table);
    var e4, e5, e6 := EncodeLcbString(c.tableAS), EncodeLcbString(c.name), EncodeLcbString(c.nameAS);
    Regroup6(e1, e2, e3, e4, e5, e6, rest);
    n1, n2 := Row.ReadTwo(d, 0, c.catalog, c.db, e3 + (e4 + (e5 + (e6 + rest))));
    n3, n4 := Row.ReadTwo(d, n2, c.table, c.tableAS, e5 + (e6 + rest));
    n5, n6 := Row.ReadTwo(d, n4, c.name, c.nameAS, rest);
  }

  /** Six pieces and a tail, grouped from the left or from the right. */
  lemma Regroup6(e1: Bytes, e2: Bytes, e3: Bytes, e4: Bytes, e5: Bytes, e6: Bytes, rest: Bytes)
    ensures e1 + e2 + e3 + e4 + e5 + e6 + rest == e1 + (e2 + (e3 + (e4 + (e5 + (e6 + rest)))))
  {
  }

  /** ReadNames put together from its six reads. */
  lemma NamesSteps(d: Bytes, s1: Row.Value, s2: Row.Value, s3: Row.Value, s4: Row.Value, s5: Row.Value, s6: Row.Value,
                   n1: nat, n2: nat, n3: nat, n4: nat, n5: nat, n6: nat)
    requires ReadLcbString(d, 0) == Ok(Read(s1, n1))
    requires ReadLcbString(d, n1) == Ok(Read(s2, n2))
    requires ReadLcbString(d, n2) == Ok(Read(s3, n3))
    requires ReadLcbString(d, n3) == Ok(Read(s4, n4))
    requires ReadLcbString(d, n4) == Ok(Read(s5, n5))
    requires ReadLcbString(d, n5) == Ok(Read(s6, n6))
    ensures ReadNames(d) == Ok(Read([s1, s2, s3, s4, s5, s6], n6))
  {
  }

  /** The fields after the strings, in any data that holds their encoding at
      `at`. */
  lemma FixedIn(d: Bytes, at: nat, c: ColumnDef, filler: byte, reserved: Bytes)
    requires Encodable(c.defaults) && |reserved| == 2 && Narrow(c)
    requires StartsAt(d, at, EncodeFixed(c, filler, reserved))
    ensures ReadFixed(d, at + 1, 2) == Ok(Read(c.charset, at + 3))
    ensures ReadFixed(d, at + 3, 4) == Ok(Read(c.length, at + 7))
    ensures ReadFixed(d, at + 7, 1) == Ok(Read(c.columnType, at + 8))
    ensures ReadFixed(d, at + 8, 2) == Ok(Read(c.flags, at + 10))
    ensures ReadFixed(d, at + 10, 1) == Ok(Read(c.decimals, at + 11))
    ensures ReadLcb(d, at + 13).Ok? && ReadLcb(d, at + 13).value.value == c.defaults
  {
    var t1, t2, t3 := ToLE(c.charset, 2), ToLE(c.length, 4), ToLE(c.flags, 2);
    var b1, b2 := [c.columnType as byte], [c.decimals as byte];
    var l := EncodeLcb(c.defaults);
    Regroup8([filler], t1, t2, b1, t3, b2, reserved, l);
    FrontReads(d, at, filler, c.charset, c.length, c.columnType as byte, t3 + (b2 + (reserved + (l + []))));
    BackReads(d, at + 8, c.flags, c.decimals as byte, reserved, c.defaults);
  }

  /** Eight pieces grouped from the left or from the right. */
  lemma Regroup8(p1: Bytes, p2: Bytes, p3: Bytes, p4: Bytes, p5: Bytes, p6: Bytes, p7: Bytes, p8: Bytes)
    ensures p1 + p2 + p3 + p4 + p5 + p6 + p7 + p8 == p1 + (p2 + (p3 + (p4 + (p5 + (p6 + (p7 + (p8 + [])))))))
  {
  }

  /** The filler byte, the charset, the display length and the type. */
  lemma FrontReads(d: Bytes, at: nat, filler: byte, charset: nat, length: nat, columnType: byte, back: Bytes)
    requires charset < 0x1_0000 && length < 0x1_0000_0000
    requires StartsAt(d, at, [filler] + (ToLE(charset, 2) + (ToLE(length, 4) + ([columnType] + back))))
    ensures ReadFixed(d, at + 1, 2) == Ok(Read(charset, at + 3))
    ensures ReadFixed(d, at + 3, 4) == Ok(Read(length, at + 7))
    ensures ReadFixed(d, at + 7, 1) == Ok(Read(columnType as nat, at + 8))
    ensures StartsAt(d, at + 8, back)
  {
    LcbWidths();
    assert Pow256(4) == 0x1_0000_0000;
    SplitAt(d, at, [filler], ToLE(charset, 2) + (ToLE(length, 4) + ([columnType] + back)));
    FixedThen(d, at + 1, charset, 2, ToLE(length, 4) + ([columnType] + back));
    FixedThen(d, at + 3, length, 4, [columnType] + back);
    ByteThen(d, at + 7, columnType, back);
  }

  /** The flags, the decimals, the two reserved bytes and the default
      value. */
  lemma BackReads(d: Bytes, at: nat, flags: nat, decimals: byte, reserved: Bytes, defaults: Lcb)
    requires Encodable(defaults) && |reserved| == 2 && flags < 0x1_0000
    requires StartsAt(d, at, ToLE(flags, 2) + ([decimals] + (reserved + (EncodeLcb(defaults) + []))))
    ensures ReadFixed(d, at, 2) == Ok(Read(flags, at + 2))
    ensures ReadFixed(d, at + 2, 1) == Ok(Read(decimals as nat, at + 3))
    ensures ReadLcb(d, at + 5) == Ok(Read(defaults, at + 5 + |EncodeLcb(defaults)|))
  {
    LcbWidths();
    FixedThen(d, at, flags, 2, [decimals] + (reserved + (EncodeLcb(defaults) + [])));
    ByteThen(d, at + 2, decimals, reserved + (EncodeLcb(defaults) + []));
    SplitAt(d, at + 3, reserved, EncodeLcb(defaults) + []);
    LcbThen(d, at + 5, defaults, []);
  }

  /** DecodeFixed put together from its reads. */
  lemma FixedSteps(d: Bytes, at: nat, c: ColumnDef)
    requires ReadFixed(d, at + 1, 2) == Ok(Read(c.charset, at + 3))
    requires ReadFixed(d, at + 3, 4) == Ok(Read(c.length, at + 7))
    requires ReadFixed(d, at + 7, 1) == Ok(Read(c.columnType, at + 8))
    requires ReadFixed(d, at + 8, 2) == Ok(Read(c.flags, at + 10))
    requires ReadFixed(d, at + 10, 1) == Ok(Read(c.decimals, at + 11))
    requires ReadLcb(d, at + 13).Ok? && ReadLcb(d, at + 13).value.value == c.defaults
    ensures DecodeFixed(d, Read([c.catalog, c.db, c.table, c.tableAS, c.name, c.nameAS], at)) == Ok(c)
  {
  }
}
