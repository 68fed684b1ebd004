# mysqlcl in Dafny

A model of the core of mysqlcl, a MySQL client for node.js written in JavaScript.
The model covers:

- **Outgoing packet writer** (`lib/OutgoingPacket.js`). Fixed-width numbers, length-coded binary (LCB) numbers, strings and filler are appended to an array. `getBuffer` stamps the 4-byte frame header.
- **Inbound packet frame** (`lib/Packet.js`). The header decoding and its null-terminated string scan.
- **Packet parsers**:
  - the generic OK/ERR packets, in two generations (`lib/packets/ParseablePacket.js` and the older `lib/ParseablePacket.js`);
  - the server greeting, in two generations (`lib/packets/HandshakePacket.js` and the older `lib/HandshakePacket.js`);
  - the prepare answer, the result-set header, column definitions and result rows.
- **Capability table** (`lib/Server.js`). The protocol's flags and the client's default capabilities.
- **Error value** (`lib/MySqlError.js`). The error a failed login reports, and how it prints.
- **Connection** (`lib/Connection.js`). The state machine driven by incoming chunks. The MySQL connection phase would take it HANDSHAKE → AUTHENTICATE → CONNECTED, and each command CONNECTED → QUERYING → CONNECTED; as written, every packet in HANDSHAKE throws, so the connection never leaves it on its own (see Findings). The model covers the password scramble, the authentication packet, the listener queue and the commands `close`, `destroy`, `selectDb` and `query`.

Bytes are integers in 0..255 (`Octets.byte`). A JavaScript string is a sequence of UTF-16 code units (`JsOps.JsString`). The JavaScript number operations the code depends on are written out in `JsOps`:

- the 32-bit conversions behind `&`, `>>` and `<<`;
- `^` on bytes;
- `charCodeAt(i) & 255`.

The cursor readers that every parser calls are defined once in `Readers`: `getFixedNumber`, `getLCBNumber`, `getLCBString`, `getFixedString`, and the cursor form of `getNullString`. The files that define them are not part of this model; their behaviour follows the protocol and the way the parsers use them.

Each parser has three parts:

- a `Decode` function that states the reads in source order;
- a `Parse` method that performs them on one cursor and is proved equal to `Decode`;
- an `Encode` function describing what a server sends, with a round-trip lemma proving that every field is read back.

The connection is a class. Its ghost `Model()` is a `Conn` value, and every method is proved equal to a pure transition function (`Receive`, `Closed`, `Queried`, …). The lemmas about the connection's behaviour are stated on those functions.

Where the code departs from the MySQL client/server protocol, the model follows the code:

- **Frame boundaries.** In the MySQL protocol a packet's payload is exactly the 3-byte length of its header, so one chunk from the socket may hold part of a packet or several packets. The code takes each chunk as one packet whose data is every byte after the header (`Packets.FromChunk`).
- **LCB null.** The MySQL protocol encodes a NULL length-coded value as the single byte 251. The code writes 0x00 (see Findings).
- **Command replies.**
  - The MySQL protocol is half-duplex: the client sends a command and reads its whole reply before it sends the next.
  - The code writes every command at once and calls the head listener with the parsed packet.
  - The connection then ignores packets in CONNECTED, so the reply meant for a later listener is dropped and that listener receives the reply of whatever command comes next (`Connections.SecondCommandStranded`).
- **Greeting.** In the MySQL protocol the client answers the server's greeting with its handshake response packet. The code hands the parsed `Packet`, not the received buffer, to the greeting parser, which throws. `Connections.Receive` models the code; `Connections.IntendedReceive` models the evident intent, and the greeting lemmas are stated on it.
- **Decode errors.** The code throws out of the data handler on a packet it cannot parse. The model returns a `Failure`, and the state is whatever had been set before the throw.
- **Null-terminated strings.** A null-terminated string in the MySQL protocol includes its terminator, and the greeting parser at lib/packets/HandshakePacket.js:14-16 needs its cursor moved past it. `Packet.prototype.getNullString` leaves the index on it. Both are modelled (`Readers.ReadNullString`, `Packets.GetNullString`).

## Model

| member | source | states |
|---|---|---|
| Outgoing.OutgoingPacket.constructor | lib/OutgoingPacket.js:6-8 | a fresh packet holds exactly four zero header cells and an empty payload |
| Outgoing.OutgoingPacket.WriteFiller | lib/OutgoingPacket.js:22-26 | appends exactly max(n,0) zero bytes and keeps every earlier cell |
| Outgoing.FixedNumberBytes | lib/OutgoingPacket.js:34-40 | writeFixedNumber emits max(bytes,1) bytes |
| Outgoing.OutgoingPacket.WriteFixedNumber | lib/OutgoingPacket.js:34-40 | the loop appends exactly `FixedNumberBytes(num, bytes)` after the old cells |
| Outgoing.FixedNumberLowBytes | lib/OutgoingPacket.js:34-40 | up to four bytes, the bytes are num mod 256^bytes little-endian |
| Outgoing.FixedNumberSignExtends | lib/OutgoingPacket.js:34-40 | beyond four bytes the written value is the 32-bit signed value modulo 256^bytes |
| Outgoing.OutgoingPacket.WriteLcb | lib/OutgoingPacket.js:47-74 | appends exactly the bytes of `WrittenLcb(num)`: the branch chosen by the value, null compared as 0 |
| Outgoing.OutgoingPacket.WriteWord16 | lib/OutgoingPacket.js:53-56 | appends marker 252 and the two shifted low bytes |
| Outgoing.OutgoingPacket.WriteWord24 | lib/OutgoingPacket.js:57-61 | appends marker 253 and the three shifted low bytes |
| Outgoing.OutgoingPacket.WriteWord64 | lib/OutgoingPacket.js:62-71 | appends marker 254 and eight `(num >>= 8) & 255` bytes |
| Outgoing.ReadLcbOfWritten | lib/OutgoingPacket.js:47-74 | whatever writeLCB writes, getLCBNumber reads back the 32-bit value (null as 0) modulo 2^64 and consumes exactly the written bytes |
| Outgoing.WrittenLcbRoundTrip | lib/OutgoingPacket.js:47-74 | every number 0 ≤ v < 2^31 written by writeLCB reads back as v |
| Outgoing.WrittenLcbEncoding | lib/OutgoingPacket.js:47-74 | below 251 and in 256..2^24−1 the writer emits the shortest encoding; 251..255 and ≥ 2^24 take the 9-byte form |
| Outgoing.WrittenNullReadsAsZero | lib/OutgoingPacket.js:48-51 | writeLCB(null) emits the single byte 0, which reads back as the number 0 and not as NULL |
| Outgoing.WrittenLargeSignExtends | lib/OutgoingPacket.js:62-71 | 2^31 is written sign-extended and reads back as 2^64 − 2^31 |
| Outgoing.IntendedLcb | lib/OutgoingPacket.js:47-74 | the intended encoder: NULL as marker 251, numbers in their shortest form, 1..9 bytes |
| Outgoing.IntendedLcbRoundTrip | lib/OutgoingPacket.js:47-74 | the intended encoder reads back exactly, null included, for every value below 2^64 |
| Outgoing.OutgoingPacket.WriteString | lib/OutgoingPacket.js:82-89 | appends each code unit's low byte in order, then a 0 byte unless noNull |
| Outgoing.OutgoingPacket.WriteLengthString | lib/OutgoingPacket.js:96-101 | appends writeLCB(length) then the string's low bytes, with no terminator |
| Outgoing.OutgoingPacket.GetBuffer | lib/OutgoingPacket.js:110-117 | stamps length bytes and the packet number into cells 0-3, leaves the payload unchanged (so a second call returns the same frame) and returns `Frame(payload, packetNo)` |
| Outgoing.Frame | lib/OutgoingPacket.js:110-117 | the frame is 4 header bytes followed by the unchanged payload |
| Outgoing.FrameHeader | lib/OutgoingPacket.js:110-117 | the header holds the payload length mod 2^24 little-endian, then the packet number mod 256 |
| Packets.FromChunk | lib/Packet.js:1-5 | a chunk of at least 4 bytes gives length = little-endian bytes 0-2 (< 2^24), nr = byte 3, data = every byte after the header; a shorter chunk gives no packet |
| Packets.HeaderShifts | lib/Packet.js:2 | the shifted header bytes are plain multiplications (no sign bit reached) |
| Packets.FromFrame | lib/Packet.js:1-5 | reading a frame the writer built recovers the payload and the packet number |
| Packets.FrameLengthAgrees | lib/Packet.js:2 | the declared length equals the payload length exactly when it is below 2^24 |
| Packets.GetNullString | lib/Packet.js:35-45 | the scan returns the bytes from start up to the first 0 (none of them 0) and leaves the index on the terminator, or at the end of the data when there is none |
| Readers.ReadFixed | lib/packets/ParseablePacket.js:9 | getFixedNumber succeeds exactly when n bytes remain, advances by n and returns a value below 256^n |
| Readers.ReadByte | lib/packets/ParseablePacket.js:9 | a one-byte read is the byte itself |
| Readers.ReadFixedString | lib/packets/ParseablePacket.js:16 | getFixedString succeeds exactly when 0 ≤ n and n bytes remain, and returns n bytes |
| Readers.ReadLcb | lib/HeaderPacket.js:9 | getLCBNumber consumes at least one byte, rejects marker 255, reads bytes below 251 literally and returns values below 2^64 |
| Readers.ReadLcbString | lib/ColumnPacket.js:9 | getLCBString consumes the length and exactly that many bytes |
| Readers.ReadNullString | lib/packets/HandshakePacket.js:14 | the cursor getNullString returns the bytes before the first 0 and moves past the terminator |
| Readers.BufferCopy | lib/packets/HandshakePacket.js:17 | Buffer.copy keeps the target's length |
| Readers.CopyExact | lib/packets/HandshakePacket.js:17 | a copy that fits overwrites exactly the target range with the source range |
| Readers.ReadFixedOfToLE | lib/packets/ParseablePacket.js:14-15 | an n-byte little-endian encoding reads back as the value mod 256^n |
| Readers.ReadLcbOfEncode | lib/HeaderPacket.js:9-10 | getLCBNumber undoes the shortest LCB encoding, NULL included, wherever it stands |
| Readers.ReadLcbStringOfEncode | lib/ColumnPacket.js:9-14 | getLCBString undoes the LCB string encoding, NULL included |
| GenericPacket.Decode | lib/packets/ParseablePacket.js:9-26 | fieldCount is byte 0; 0x00 takes the OK reads, 0xFF the ERR reads, any other byte fails |
| GenericPacket.DecodeOk | lib/packets/ParseablePacket.js:11-16 | OK: two LCB numbers, two 2-byte numbers, then the bytes up to the header's length; ERR fields keep their defaults |
| GenericPacket.DecodeErr | lib/packets/ParseablePacket.js:18-23 | ERR succeeds exactly when 9 ≤ length ≤ data size; error number, skipped byte, 5-byte state, message up to length; OK fields keep their defaults |
| GenericPacket.Parse | lib/packets/ParseablePacket.js:7-27 | the constructor's reads on one cursor equal `Decode` |
| GenericPacket.OkRoundTrip | lib/packets/ParseablePacket.js:11-16 | every field of an encoded OK packet is read back |
| GenericPacket.ErrRoundTrip | lib/packets/ParseablePacket.js:18-22 | every field of an encoded ERR packet is read back, whatever the skipped byte holds |
| GenericPacket.OkExample | lib/packets/ParseablePacket.js:11-16 | payload 00 03 00 02 00 00 00 gives modifiedRows 3, insertId 0, status 2, warnings 0 |
| LegacyGenericPacket.Decode | lib/ParseablePacket.js:1-17 | 0x00 reads nothing more (errNo, state and message stay null); 0xFF succeeds exactly with ≥ 9 bytes; other bytes fail |
| LegacyGenericPacket.Parse | lib/ParseablePacket.js:1-17 | the constructor's reads on one cursor equal `Decode` |
| LegacyGenericPacket.ErrRoundTrip | lib/ParseablePacket.js:9-12 | an encoded ERR packet is read back, message from byte 9 to the end, whatever the header length |
| LegacyGenericPacket.AgreesOnErr | lib/ParseablePacket.js:9-12 | on an ERR packet whose length matches its data, both parsers accept alike and read the same error number, state and message |
| LegacyGenericPacket.OkBodyIgnored | lib/ParseablePacket.js:5-7 | any two OK packets parse identically |
| HandshakeV10.Decode | lib/packets/HandshakePacket.js:9-24 | protocol version is byte 0; the scramble is always 20 bytes; the fields are read in order |
| HandshakeV10.Parse | lib/packets/HandshakePacket.js:9-24 | the constructor's reads and copies on one cursor equal `Decode` |
| HandshakeV10.RoundTrip | lib/packets/HandshakePacket.js:13-23 | every field of an encoded greeting is read back, and the whole 20-byte scramble is recovered |
| HandshakeV10.Layout | lib/packets/HandshakePacket.js:13-23 | where each field of an encoded greeting sits |
| LegacyHandshake.Decode | lib/HandshakePacket.js:6-23 | accepted exactly when the version terminator t leaves 18 bytes; then the fields at their offsets from t |
| LegacyHandshake.Fields | lib/HandshakePacket.js:10-22 | the fields: thread at t+1, scramble front at t+5..t+13, capabilities at t+14, charset at t+16, status at t+16..t+18, scramble bytes 8-19 left blank |
| LegacyHandshake.ThreadNr | lib/HandshakePacket.js:15 | the shift-and-add of four bytes is the 32-bit signed little-endian value |
| LegacyHandshake.Word | lib/HandshakePacket.js:20 | `(hi << 8) + lo` is the little-endian value of the two bytes |
| LegacyHandshake.Parse | lib/HandshakePacket.js:6-23 | the constructor's reads equal `Decode` |
| LegacyHandshake.ThreadShifts | lib/HandshakePacket.js:15 | the JavaScript shifts give the 32-bit signed little-endian value |
| LegacyHandshake.WordShifts | lib/HandshakePacket.js:20 | the JavaScript shift gives the little-endian value |
| LegacyHandshake.ReadsV10Greeting | lib/HandshakePacket.js:13-22 | on a protocol-10 greeting the older parser gets the version, the thread id (as a signed 32-bit number), the capabilities and the charset right, reads the status over the charset byte, and leaves 12 scramble bytes blank |
| LegacyHandshake.ReadsLaidOut | lib/HandshakePacket.js:10-22 | the older parser on any data laid out as a protocol-10 greeting |
| Prepare.Decode | lib/packets/PreparePacket.js:7-14 | succeeds exactly with ≥ 12 bytes; handleId = bytes 1-4, columns 5-6, parameters 7-8, warnings 10-11 |
| Prepare.Parse | lib/packets/PreparePacket.js:7-14 | the reads on a cursor starting at 1 equal `Decode` |
| Prepare.RoundTrip | lib/packets/PreparePacket.js:8-13 | every field is read back, whatever the status and filler bytes hold |
| Prepare.Fields | lib/packets/PreparePacket.js:9-13 | where each field of an encoded answer sits |
| Prepare.IgnoresStatusAndFiller | lib/packets/PreparePacket.js:8-12 | bytes 0 and 9 are never read |
| Header.Decode | lib/HeaderPacket.js:7-11 | two LCB numbers on one cursor; a count below 251 puts extra at offset 1 |
| Header.Parse | lib/HeaderPacket.js:7-11 | both reads on one cursor equal `Decode` |
| Header.RoundTrip | lib/HeaderPacket.js:8-11 | both numbers are read back, whatever the header length |
| Header.Reads | lib/HeaderPacket.js:9-10 | extra starts exactly where the count's encoding ends |
| Header.CountAloneRejected | lib/HeaderPacket.js:10 | a header holding only the column count fails on the second read |
| Column.ReadNames | lib/ColumnPacket.js:9-14 | six LCB strings read one after another from offset 0 |
| Column.Decode | lib/ColumnPacket.js:7-23 | succeeds exactly when the six strings and the fixed fields can be read |
| Column.DecodeFixed | lib/ColumnPacket.js:15-22 | one skipped byte, charset 2, length 4, type 1, flags 2, decimals 1, two skipped bytes, defaults as an LCB number 13 bytes after the strings |
| Column.Parse | lib/ColumnPacket.js:7-23 | the constructor's reads on one cursor equal `Decode` |
| Column.ParseNames | lib/ColumnPacket.js:9-14 | the six reads equal `ReadNames` |
| Column.ParseFixed | lib/ColumnPacket.js:15-22 | the fixed reads equal `DecodeFixed` |
| Column.RoundTrip | lib/ColumnPacket.js:8-22 | every field of an encoded column definition is read back, whatever the filler and reserved bytes hold |
| Column.NamesIn | lib/ColumnPacket.js:9-14 | the six strings are read back and the cursor ends where their encoding ends |
| Column.FixedIn | lib/ColumnPacket.js:15-22 | each fixed field is read back at its offset |
| Row.DecodeFrom | lib/packets/RowPacket.js:10-12 | reading stops at the end of the data; never more values than bytes |
| Row.Decode | lib/packets/RowPacket.js:7-13 | an empty payload gives an empty row |
| Row.Parse | lib/packets/RowPacket.js:7-13 | the loop equals `Decode` |
| Row.RoundTrip | lib/packets/RowPacket.js:8-12 | every value of an encoded row, NULL included, is read back in order |
| Row.RoundTripFrom | lib/packets/RowPacket.js:10-12 | an encoded row at the end of the data is read back from its start |
| Row.DecodeStep | lib/packets/RowPacket.js:10-12 | each value starts where the previous ended |
| Row.BadMarkerFails | lib/packets/RowPacket.js:11 | an unreadable value makes the whole row fail |
| Server.Flag32Agrees | lib/Server.js:11-30 | the 32-bit table and the numeric table agree |
| Server.FlagsArePowersOfTwo | lib/Server.js:11-30 | every flag is a power of two, and distinct flags are distinct |
| Server.DefaultCapabilitiesValue | lib/Server.js:37-50 | the OR of the listed flags is 0xF7CF = 63439 < 65536 |
| Server.DefaultCapabilitiesFlags | lib/Server.js:37-50 | a flag is set exactly when it is listed; PROTOCOL_41 and SECURE_CONNECTION in, NO_SCHEMA, COMPRESS, SSL, MULTI_STATEMENTS, MULTI_RESULTS out |
| Server.DefaultCapabilitiesBytes | lib/Server.js:37-50 | its 4-byte encoding is CF F7 00 00 |
| MySqlErrors.Decimal | lib/MySqlError.js:48 | `"" + no` holds no colon and starts with a minus exactly for negative numbers |
| MySqlErrors.ToString | lib/MySqlError.js:47-49 | the printed form is longer than its fixed text |
| MySqlErrors.DecimalRoundTrip | lib/MySqlError.js:48 | the decimal rendering reads back as the number |
| MySqlErrors.IgnoresState | lib/MySqlError.js:47-49 | two errors differing only in state print identically |
| MySqlErrors.ToStringDetermines | lib/MySqlError.js:47-49 | the printed form determines the number and the shown message |
| MySqlErrors.NullMessageLooksLikeText | lib/MySqlError.js:47-49 | a null message prints like the message "null" |
| Connections.HashPassword | lib/Connection.js:27 | a password is hashed exactly when it is non-empty, to the digest's binary string |
| Connections.PortOf | lib/Connection.js:28 | a falsy port becomes 3306, any other is kept |
| Connections.Xor | lib/Connection.js:201-203 | masking keeps the digest's length |
| Connections.XorCancels | lib/Connection.js:201-203 | masking twice with the same bytes unmasks |
| Connections.Scramble | lib/Connection.js:196-205 | no password gives ''; otherwise a token as long as the digest |
| Connections.CreateScramble | lib/Connection.js:196-205 | the in-place masking loop returns `Scramble(...)` |
| Connections.NativePasswordVerifies | lib/Connection.js:196-205 | unmasking the token with SHA1(scramble + SHA1(stored hash)) recovers the stored hash, as the server checks |
| Connections.TokenLength | lib/Connection.js:196-205 | the token is 20 bytes exactly when a non-empty password was given, otherwise empty |
| Connections.AuthPayloadReadsBack | lib/Connection.js:179-188 | the authentication packet reads back as capabilities, 0xFFFFFFFF, charset 8, 23 zeros, the user and the token |
| Connections.AuthPacket | lib/Connection.js:180-187 | authorize's writes produce the frame of `AuthPayload`, packet number 1 |
| Connections.IdleIgnoresData | lib/Connection.js:155-156 | CONNECTED ignores every chunk; a chunk without a header changes nothing |
| Connections.HandshakeAlwaysThrows | lib/Connection.js:136-139 | in HANDSHAKE every chunk throws (no header, or the Packet handed to the greeting parser) and changes nothing |
| Connections.IntendedDiffersOnlyInHandshake | lib/Connection.js:135-172 | the corrected handler agrees with the code outside the HANDSHAKE branch |
| Connections.GreetingAnswered | lib/Connection.js:138-143 | with the received buffer handed to the parser, an accepted greeting stores the server, sends exactly one frame (packet 1) holding the authentication packet and moves to AUTHENTICATE; a rejected one changes nothing |
| Connections.GreetingOutcome | lib/Connection.js:138-143 | the intended HANDSHAKE branch: a failed parse throws with nothing changed, otherwise `Authorized` on the parsed greeting, then AUTHENTICATE |
| Connections.AuthReplyOutcome | lib/Connection.js:144-154 | OK connects and emits authenticated; ERR emits the MySqlError and stays in AUTHENTICATE; other bytes throw, so the unknown-packet event is never emitted |
| Connections.ReplyAnswersOldest | lib/Connection.js:157-170 | an OK or ERR reply sets CONNECTED, removes exactly the head listener and calls it only if present |
| Connections.ReplyFailures | lib/Connection.js:157-170 | a short ERR throws after CONNECTED is set; an empty queue throws |
| Connections.OtherReplyIgnored | lib/Connection.js:157-170 | any other first byte leaves state and queue unchanged |
| Connections.SecondCommandStranded | lib/Connection.js:155-170 | of two queries sent back to back, the first reply answers the first listener and makes the connection idle; the second reply is ignored, and the second listener stays queued until some later command's reply is handed to it |
| Connections.CommandFrame | lib/Connection.js:236-258 | each command appends one listener at the tail, sets QUERYING and sends one frame with packet number 0 holding the opcode and the text |
| Connections.CloseListenerWaits | lib/Connection.js:213-220 | close ends in HANDSHAKE with its listener queued at the tail, and the next chunk does not call it |
| Connections.CloseListenerTakesNextReply | lib/Connection.js:157-170 | after close and a query on an empty queue, the query's OK reply goes to close's callback and the query's own callback stays queued |
| Connections.DestroyKeepsListeners | lib/Connection.js:225-228 | destroy sets HANDSHAKE and keeps the queue; the next chunk changes nothing, and even the intended greeting keeps the queue |
| Connections.Connection.constructor | lib/Connection.js:22-33 | the connection starts in HANDSHAKE with the hashed password, the port default and an empty queue |
| Connections.Connection.Data | lib/Connection.js:135-172 | handling a chunk moves the state as `Receive` says: HANDSHAKE throws, the other states dispatch as the code does |
| Connections.Connection.IntendedGreet | lib/Connection.js:138-143 | the HANDSHAKE branch with the received buffer parsed equals `IntendedOnGreeting` |
| Connections.Connection.AuthReply | lib/Connection.js:144-154 | the AUTHENTICATE branch equals `OnAuthReply` |
| Connections.Connection.Reply | lib/Connection.js:157-170 | the QUERYING branch equals `OnReply` |
| Connections.Connection.Authorize | lib/Connection.js:179-188 | appends the authentication frame to the sent frames |
| Connections.Connection.Close | lib/Connection.js:213-220 | equals `Closed` |
| Connections.Connection.Destroy | lib/Connection.js:225-228 | equals `Destroyed` |
| Connections.Connection.SelectDb | lib/Connection.js:236-243 | equals `SelectedDb` (opcode 2) |
| Connections.Connection.Query | lib/Connection.js:251-258 | equals `Queried` (opcode 3) |

## Left out

- Socket I/O. The model does not cover `createConnection`, `connect`, the `data` subscription or the socket's `destroy`. Each `conn.write` appends the frame to a ghost sequence of sent frames.
- EventEmitter. Emitted events and called listeners are appended to a ghost event log. A listener that re-enters the connection is not modelled.
- SHA1. `crypto.createHash('sha1')` is a parameter (`Sha1`). The 20-byte digest length is a precondition of the lemmas that need it. `hash.update` of a string is taken to hash the low bytes of its code units, as the 'binary' encoding does.
- Text decoding. `Buffer.toString` with utf-8 or binary is not modelled. Decoded strings stay byte sequences; the MySqlError fields are the 'binary' strings of those bytes.
- `lib/Query.js` is not part of this model. It is an unfinished query builder that no core file calls.
- Connection.packetNo is never read or written by the code, so it is not modelled.
- Packets.FromChunk: a chunk shorter than 4 bytes is modelled as a `NoPacket` failure, and `Connections.Receive` reports that failure in every state. JavaScript builds a packet anyway (lib/Packet.js:2-4): an empty chunk gets a NaN length; a chunk of 1 to 3 bytes gets a numeric length, because a missing byte shifted by `<<` counts as 0; both get an undefined `nr` and empty data. The code then goes on where the model fails: in CONNECTED such a chunk changes nothing and throws nothing, and in QUERYING its first-byte read runs past the end of the data, which the Readers line below covers. In AUTHENTICATE the code throws as well (the empty data has no OK or ERR byte), and in HANDSHAKE it throws the TypeError of the greeting finding instead.
- Readers: a read past the end of the payload fails. JavaScript would yield NaN, undefined or a shorter string.
- Connections.Queried: `getBuffer()` is called with no packet number, and the `undefined` header cell is stored as byte 0.
- LegacyHandshake.Decode: `this.getString` is not defined in any file the model covers. It is modelled as `Packet.getNullString`, which it evidently names.
- LegacyHandshake.Decode: data that ends before t+18 (t the position of the version string's terminator) fails in the model. In JavaScript, data that ends at or before t+5 makes the `copy` at lib/HandshakePacket.js:18 throw, because its sourceStart lies at or past the end of the data; some Node versions also throw there for data ending before t+13, whose sourceEnd lies past the end. Data ending between t+13 and t+18 is read without throwing: the missing bytes are undefined and the fields become NaN or undefined (lib/HandshakePacket.js:19-22).
- Readers.BufferCopy / HandshakeV10.Decode: `Buffer.copy` is modelled as clipping its source range to the source and its count to the room in the target, and it never fails. Node throws a RangeError instead for a negative sourceEnd and for a sourceStart at or past the end of the source; depending on the version, also for a sourceEnd before sourceStart or past the end of the source. HandshakeV10.Decode therefore accepts greetings on which the copy at lib/packets/HandshakePacket.js:23 throws: data that ends within or right after the 13 reserved bytes, a header length of 0, and in some versions a header length more than one past the data. An example is a 20-byte greeting cut right after the status field with header length 0. The copy at line 17 stays inside the data whenever the reads after it succeed.
- LegacyHandshake.Decode: the shared prototype Server object is the `prior` parameter (`shared` in the connection). The uninitialised contents of `new Buffer(20)` are the `blank` parameter.
- MySqlErrors.Decimal: numbers at or above 10^21, which JavaScript prints in exponent notation, and non-integral numbers are not modelled.
- Column.Encode and Column.RoundTrip require every fixed field to fit its width (`Narrow`) and every string to fit an LCB length (`AllFit`). The parser itself has no such precondition.
- Connections.AuthPayloadReadsBack assumes a user without 0 code-unit low bytes and a token shorter than 251 bytes. A SHA1 token is 20 bytes.
- Reassembly of split or concatenated chunks, binary rows, type coercion and the prepare/execute/ping commands are not in the code, and the model does not add them.

## Findings

| source | as written | input that shows it | evidently intended | confidence | as-written member | corrected member |
|---|---|---|---|---|---|---|
| lib/OutgoingPacket.js:48-51 | `null >= 0 && null < 251` holds, so null takes the one-byte branch and is written as 0x00 | writeLCB(null) | the NULL marker 251 | high, not executed | Outgoing.WrittenNullReadsAsZero | Outgoing.IntendedLcbRoundTrip |
| lib/OutgoingPacket.js:62-71 | the 8-byte branch shifts a 32-bit value, so numbers ≥ 2^31 are written sign-extended | writeLCB(2147483648) reads back as 2^64 − 2^31 | the number's own 8 little-endian bytes | high, not executed | Outgoing.WrittenLargeSignExtends | Outgoing.IntendedLcbRoundTrip |
| lib/HandshakePacket.js:21-22 | the status is read from the charset byte and the one after it | a protocol-10 greeting with charset 8 and status 2 | status read from t+17..t+18 | high, not executed | LegacyHandshake.ReadsV10Greeting | HandshakeV10.RoundTrip |
| lib/HandshakePacket.js:17-22 | only 8 of the 20 scramble bytes are copied; bytes 8-19 keep the new buffer's contents | any protocol-10 greeting | the last 12 scramble bytes copied from after the reserved bytes | high, not executed | LegacyHandshake.ReadsV10Greeting | HandshakeV10.RoundTrip |
| lib/Connection.js:139 | the Packet object, not the received buffer, is handed to HandshakePacket, whose Packet constructor calls the missing `slice` on it and throws a TypeError | any chunk of 4 or more bytes in HANDSHAKE, e.g. a protocol-10 greeting | the received buffer handed to the greeting parser, the server stored and the authentication packet sent | high, not executed | Connections.HandshakeAlwaysThrows | Connections.GreetingAnswered |
