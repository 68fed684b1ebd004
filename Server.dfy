/** lib/Server.js: the capability flags of the protocol, the capabilities the
    client announces, and the record describing the server. */
module Server {
  import opened Octets
  import opened JsOps

  datatype Capability =
    | LONG_PASSWORD | FOUND_ROWS | LONG_FLAG | CONNECT_WITH_DB | NO_SCHEMA
    | COMPRESS | ODBC | LOCAL_FILES | IGNORE_SPACE | PROTOCOL_41 | INTERACTIVE
    | SSL | IGNORE_SIGPIPE | TRANSACTIONS | RESERVED | SECURE_CONNECTION
    | MULTI_STATEMENTS | MULTI_RESULTS

  /** Server.Capabilities: the numeric value of each flag. */
  function Flag(c: Capability): nat
  {
    match c
    case LONG_PASSWORD => 1
    case FOUND_ROWS => 2
    case LONG_FLAG => 4
    case CONNECT_WITH_DB => 8
    case NO_SCHEMA => 16
    case COMPRESS => 32
    case ODBC => 64
    case LOCAL_FILES => 128
    case IGNORE_SPACE => 256
    case PROTOCOL_41 => 512
    case INTERACTIVE => 1024
    case SSL => 2048
    case IGNORE_SIGPIPE => 4096
    case TRANSACTIONS => 8192
    case RESERVED => 16384
    case SECURE_CONNECTION => 32768
    case MULTI_STATEMENTS => 65536
    case MULTI_RESULTS => 131072
  }

  /** The bit a flag occupies: its position in the table. */
  function Bit(c: Capability): nat
  {
    match c
    case LONG_PASSWORD => 0
    case FOUND_ROWS => 1
    case LONG_FLAG => 2
    case CONNECT_WITH_DB => 3
    case NO_SCHEMA => 4
    case COMPRESS => 5
    case ODBC => 6
    case LOCAL_FILES => 7
    case IGNORE_SPACE => 8
    case PROTOCOL_41 => 9
    case INTERACTIVE => 10
    case SSL => 11
    case IGNORE_SIGPIPE => 12
    case TRANSACTIONS => 13
    case RESERVED => 14
    case SECURE_CONNECTION => 15
    case MULTI_STATEMENTS => 16
    case MULTI_RESULTS => 17
  }

  /** The flags the client lists in Server.defaultCapabilities. */
  predicate Announced(c: Capability)
  {
    c in {LONG_PASSWORD, FOUND_ROWS, LONG_FLAG, CONNECT_WITH_DB, ODBC, LOCAL_FILES,
          IGNORE_SPACE, PROTOCOL_41, INTERACTIVE, IGNORE_SIGPIPE, TRANSACTIONS,
          RESERVED, SECURE_CONNECTION}
  }

  /** The same table as 32-bit words, the operands of JavaScript's `|`. */
  function Flag32(c: Capability): bv32
  {
    match c
    case LONG_PASSWORD => 0x1
    case FOUND_ROWS => 0x2
    case LONG_FLAG => 0x4
    case CONNECT_WITH_DB => 0x8
    case NO_SCHEMA => 0x10
    case COMPRESS => 0x20
    case ODBC => 0x40
    case LOCAL_FILES => 0x80
    case IGNORE_SPACE => 0x100
    case PROTOCOL_41 => 0x200
    case INTERACTIVE => 0x400
    case SSL => 0x800
    case IGNORE_SIGPIPE => 0x1000
    case TRANSACTIONS => 0x2000
    case RESERVED => 0x4000
    case SECURE_CONNECTION => 0x8000
    case MULTI_STATEMENTS => 0x1_0000
    case MULTI_RESULTS => 0x2_0000
  }

  /** The two tables agree. */
  lemma Flag32Agrees(c: Capability)
    ensures Flag32(c) as int == Flag(c)
  {
  }

  /** Server.defaultCapabilities: the bitwise OR of the announced flags. */
  function DefaultCapabilities32(): bv32
  {
    Flag32(LONG_PASSWORD) | Flag32(FOUND_ROWS) | Flag32(LONG_FLAG)
    | Flag32(CONNECT_WITH_DB) | Flag32(ODBC) | Flag32(LOCAL_FILES)
    | Flag32(IGNORE_SPACE) | Flag32(PROTOCOL_41) | Flag32(INTERACTIVE)
    | Flag32(IGNORE_SIGPIPE) | Flag32(TRANSACTIONS) | Flag32(RESERVED)
    | Flag32(SECURE_CONNECTION)
  }

  /** The same value as a JavaScript number. */
  function DefaultCapabilities(): int
  {
    DefaultCapabilities32() as int
  }

  /** Every flag is a power of two, and no two flags share a bit. */
  lemma FlagsArePowersOfTwo(c: Capability, d: Capability)
    ensures Flag(c) == Pow2(Bit(c))
    ensures c != d ==> Flag(c) != Flag(d)
  {
    PowersOfTwo();
  }

  lemma PowersOfTwo()
    ensures Pow2(0) == 1 && Pow2(1) == 2 && Pow2(2) == 4 && Pow2(3) == 8
    ensures Pow2(4) == 16 && Pow2(5) == 32 && Pow2(6) == 64 && Pow2(7) == 128
    ensures Pow2(8) == 256 && Pow2(9) == 512 && Pow2(10) == 1024 && Pow2(11) == 2048
    ensures Pow2(12) == 4096 && Pow2(13) == 8192 && Pow2(14) == 16384
    ensures Pow2(15) == 32768 && Pow2(16) == 65536 && Pow2(17) == 131072
  {
  }

  /** The announced set is 0xF7CF, which fits in two bytes. */
  lemma DefaultCapabilitiesValue()
    ensures DefaultCapabilities32() == 0xF7CF
    ensures DefaultCapabilities() == 63439 < 65536
  {
    assert DefaultCapabilities32() == 0xF7CF;
  }

  /** A flag is set in the default capabilities exactly when it is announced:
      PROTOCOL_41 and SECURE_CONNECTION are, NO_SCHEMA, COMPRESS, SSL,
      MULTI_STATEMENTS and MULTI_RESULTS are not. */
  lemma DefaultCapabilitiesFlags(c: Capability)
    ensures (DefaultCapabilities32() & Flag32(c)) != 0 <==> Announced(c)
    ensures Announced(PROTOCOL_41) && Announced(SECURE_CONNECTION)
    ensures !Announced(NO_SCHEMA) && !Announced(COMPRESS) && !Announced(SSL)
    ensures !Announced(MULTI_STATEMENTS) && !Announced(MULTI_RESULTS)
  {
    DefaultCapabilitiesValue();
  }

  /** writeFixedNumber(defaultCapabilities, 4) emits CF F7 00 00. */
  lemma DefaultCapabilitiesBytes()
    ensures ShiftBytes(DefaultCapabilities(), 4) == [0xCF, 0xF7, 0, 0]
  {
    DefaultCapabilitiesValue();
    ShiftBytesLE(DefaultCapabilities(), 4);
  }

  /** A Server object: the fields a greeting fills in, `None` standing for the
      prototype's null. The legacy greeting parser stores the thread id as
      `threadNr`, a field the prototype does not declare. */
  datatype ServerInfo = ServerInfo(
    protocolVersion: Option<nat>,
    serverVersion: Option<Bytes>,
    threadNo: Option<int>,
    threadNr: Option<int>,
    capabilities: int,
    charset: Option<nat>,
    status: Option<int>)

  /** new Server(): every field at its prototype default. */
  const FreshServer: ServerInfo := ServerInfo(None, None, None, None, 0, None, None)
}
