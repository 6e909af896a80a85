# pyapns-2 protocol layer in Dafny

A model of the binary protocol layer of `apns.py`, a client for the legacy
"enhanced" binary interface of the Apple Push Notification service:

- **Push frames** (`build_msg`). A hex device token is checked and decoded. Then a big-endian
  frame is packed: command byte 1, 4-byte message id, 4-byte expiry 0,
  2-byte token length, token, 2-byte payload length, payload (module
  `PushFrame`, with the hex and big-endian helpers in `Hex` and `Bytes`).
- **Error replies** (`Error`, `ERROR_MSGS`). A 6-byte reply (`!BBI`) decodes to a status
  code and a message id, and `None` gives the "no reply" error. The string form maps the
  code through the fixed table or gives `"unknown code: N"` (module `ErrorReply`).
- **Feedback records** (`Connection.read_feedback_msg`). The reader takes a 6-byte header
  (`!iH`) and a token body. A clean end, a truncated header and a truncated body are
  three different `None` outcomes (pure specification in `Feedback`, method in
  `Transport`).
- **The connection** (`Connection`). The TLS socket is an object holding the bytes the peer
  sends, a read position, the bytes written and a closed flag. `read(n)` returns
  up to n of the remaining bytes and advances; `select` with timeout 0 becomes
  "a byte is pending". `write_push_msg`, `read_feedback_msg`,
  `check_for_error` and `close_connection` are methods of class
  `Transport.Connection`, each proved against a function of the bytes still to
  be read (`ReadRecord`, `CheckForErrorSpec`) or stating its new state.

Where a Python call raises, the model returns an error value: `BuildError`
for the exceptions of `build_msg` and `UnpackError` for `struct.unpack`. A
call on a connection whose socket was set to None returns `SocketIsNone`.

Details of the code that the model keeps as written:

- The token check `re.search('^[0-9a-fA-F]+$', token)` also accepts a token
  whose last character is a newline, since Python's `$` matches before a
  final newline. A token such as `"abc\n"` passes the regex and the parity
  check and then fails in `str.decode("hex")` with a TypeError instead of a
  ValueError. No frame is produced either way.
- The feedback token is printed with `"{0:x}"`, which is not zero-padded.
  A byte below 0x10 gives one digit, so the text can have odd length and two
  different tokens can give the same text (`UnpaddedHexCollision`), where
  device tokens are usually written with two digits per byte. The model
  follows the code and proves that both forms agree when no byte is below
  0x10.
- Code 255 is described as `"none (unknown)"`. An `Error` built from
  `None` has no code and describes itself as `"unknown code: None"`.
- The "incomplete device id" diagnostic carries no counts. Its second
  line, `'(expected {}, got {}'.format(...)`, is a separate expression
  statement whose value is discarded.

## Model

| member | source | states |
|---|---|---|
| Bytes.BigEndian | apns.py:133-135 | the unsigned value of an n-byte network-order field is below 256^n |
| Bytes.ToBigEndian | apns.py:48-50 | packing n into a w-byte big-endian field gives w bytes that read back as n |
| Bytes.ToBigEndianOfBigEndian | apns.py:48-50 | a big-endian field is determined by its width and value (packing what was read gives the same bytes) |
| Bytes.SignedBigEndian32 | apns.py:133-134 | the `!i` dead_at field is a signed 32-bit value congruent to the unsigned one modulo 2^32 |
| Bytes.SignedBigEndian32RoundTrip | apns.py:133-134 | every signed 32-bit value survives encoding and `!i` decoding |
| Bytes.ReadUpTo | apns.py:122-124 | a blocking read returns n bytes, or all that remain if the peer closes first, always a prefix of the stream |
| Hex.HexDecode | apns.py:45-46 | `str.decode("hex")` succeeds exactly for even-length all-hex text and yields half as many bytes |
| Hex.HexDecodePaddedHex | apns.py:45-46 | decoding the two-digit text of any bytes gives the bytes back |
| Hex.PaddedHexOfHexDecode | apns.py:45-46 | re-encoding decoded token bytes gives the token text back in lower case |
| Hex.ByteHexUnpadded | apns.py:145 | `"{0:x}"` of one byte: one lower-case digit whose value is the byte below 0x10; otherwise two digits that spell the byte, the first not '0' |
| Hex.UnpaddedHex | apns.py:145 | the token text read_feedback_msg returns: one or two digits per byte, so between |bytes| and 2·|bytes| characters (full shape in UnpaddedHexShape) |
| Hex.UnpaddedHexShape | apns.py:145 | the feedback token text is lower-case hex of one to two digits per byte, two per byte exactly when no byte is below 0x10 |
| Hex.UnpaddedHexIsPaddedForHighBytes | apns.py:145 | when no byte is below 0x10 the unpadded token text equals the two-digit text |
| Hex.UnpaddedHexAppend | apns.py:145 | the token text of a concatenation is the concatenation of the texts, so each byte contributes its own `"{0:x}"` in order |
| Hex.UnpaddedHexOne | apns.py:145 | the token text of a single byte is that byte's `"{0:x}"` |
| Hex.UnpaddedHexLowByteExample | apns.py:145 | the token 0A 01 gives "a1", where the two-digit text is "0a01" |
| Hex.UnpaddedHexCollision | apns.py:145 | the tokens 01 23 and 12 03 both give "123" from the unpadded text |
| Decimal.NatToDecimal | apns.py:75 | the `{}` text of a code is nonempty decimal digits with no leading zero that reads back as the code |
| Decimal.NatToDecimalInjective | apns.py:75 | different codes give different text |
| PushFrame.MatchesHexPattern | apns.py:34 | the token check `^[0-9a-fA-F]+$`: every non-empty even-length hex token passes, and anything that passes starts with a hex digit; a final newline is also accepted, as Python's `$` does (consequences in BuildMsgRejectsBadTokens) |
| PushFrame.Pack | apns.py:48-50 | a packed frame has length 13 + token length + payload length |
| PushFrame.PackLayout | apns.py:48-50 | byte 0 is 1, bytes 1-4 the message id, bytes 5-8 zero, bytes 9-10 the token length, then the token, the payload length and the payload |
| PushFrame.UnpackPack | apns.py:48-50 | reading a packed frame gives back exactly the message id, token and payload |
| PushFrame.PackUnpack | apns.py:48-50 | every byte string that reads as a frame is the packing of what it reads as |
| PushFrame.BuildMsg | apns.py:21-50 | a frame is built exactly when the token is non-empty, even-length hex and the id and lengths fit their fields; the frame has length 13 + t + p and reads back as the id, the payload and the token (in lower case) |
| PushFrame.BuildMsgLayout | apns.py:43-50 | the field-by-field byte layout of a built frame, with the hex-decoded token in the token field |
| PushFrame.BuildMsgRejectsBadTokens | apns.py:34-45 | an empty or odd-length token raises ValueError; a token with a non-hex character raises and produces no frame; TypeError happens exactly for even-length hex followed by a final newline |
| PushFrame.BuildMsgExamples | apns.py:34-45 | "abc" fails the parity check, "zz" fails the pattern, "abc\n" fails in the hex decoder |
| ErrorReply.DecodeError | apns.py:60-68 | None gives message id 0 and no code; six bytes give code = byte 1 and message id = big-endian bytes 2-5; any other length is a struct.error |
| ErrorReply.Describe | apns.py:70-77 | the description never fails: a code in the table gives its text, any other code (or none) gives "unknown code: ..." and only then |
| ErrorReply.CodeText | apns.py:75 | `'{}'.format(code)`: "None" for a missing code, otherwise the shortest decimal: digits that read back as the code, with no leading zero unless the code is 0 |
| ErrorReply.KnownCodes | apns.py:10-19 | exactly codes 0-8 and 255 are in the table |
| ErrorReply.UnknownCodeReadsBack | apns.py:74-75 | an unknown code is described as "unknown code: " followed by its shortest decimal text, from which the code reads back |
| ErrorReply.DecodeErrorExample | apns.py:66-68 | the reply 08 01 00 00 00 2A decodes to code 1, message id 42 |
| ErrorReply.DescribeExamples | apns.py:70-77 | code 1 gives "processing error", code 9 "unknown code: 9", code 255 "none (unknown)" |
| Feedback.ReadRecord | apns.py:130-157 | one call never consumes more than the stream holds, and a record consumes at least its 6-byte header |
| Feedback.TokenLength | apns.py:133-135 | the token length of a header: the unsigned `!H` field in bytes 4-5, always below 65536 |
| Feedback.ReadRecordCases | apns.py:130-157 | zero bytes give the clean end, 1-5 a truncated header, a short body an incomplete device id, each consuming all that is left; a full record gives signed dead_at and unpadded hex token and consumes 6 + token length |
| Feedback.ReadRecordOfEntry | apns.py:130-146 | reading an encoded record, whatever follows, gives its dead_at and the unpadded hex of its token and consumes exactly the record |
| Feedback.ReadRecordExample | apns.py:130-146 | dead_at 1000000000 with token DE AD BE EF reads as "deadbeef" |
| Feedback.ReadAll | apns.py:111-116 | reading until None: every result but the last is a record, and the last is not |
| Feedback.ReadAllOfEntry | apns.py:111-116 | a call on a stream that starts with a whole record returns that record and leaves the rest for the next call |
| Feedback.ReadAllEntries | apns.py:111-116 | reading a stream of whole records until None yields each record in order and then the clean end |
| Transport.Socket.Pending | apns.py:170-171 | the socket is readable exactly when unread bytes remain |
| Transport.Socket.Read | apns.py:122-124 | a read returns up to n of the remaining bytes and consumes exactly those |
| Transport.Socket.Write | apns.py:105 | a write appends the bytes to what was sent |
| Transport.Socket.Close | apns.py:184 | closing marks the socket closed |
| Transport.CheckForErrorSpec | apns.py:159-172 | nothing pending: returns normally and consumes nothing; otherwise consumes up to 6 bytes and raises the Error they decode to, or a struct.error when fewer than 6 arrive |
| Transport.CheckForErrorAsWritten | apns.py:170-172 | as written, a pending reply raises NameError and consumes nothing |
| Transport.CheckForErrorAsWrittenLosesReply | apns.py:172 | with a reply pending, the code as written never reports it, where the intended code reads it |
| Transport.CheckForErrorAsWrittenExample | apns.py:172 | the reply for status 1 of message 42 gives NameError as written and "processing error" as intended |
| Transport.Connection.constructor | apns.py:85-99 | a connection owns the given socket, which must be open |
| Transport.Connection.WritePushMsg | apns.py:102-105 | a built frame is appended to the socket's output; when build_msg raises nothing is written |
| Transport.Connection.ReadFeedbackMsg | apns.py:107-157 | returns ReadRecord of the unread bytes and consumes what ReadRecord says, nothing else changes |
| Transport.Connection.CheckForError | apns.py:159-172 | returns CheckForErrorSpec of the unread bytes and consumes what it says, nothing else changes |
| Transport.Connection.CloseConnection | apns.py:174-185 | afterwards the socket field is None; an open socket is closed once with its streams untouched; a second call changes nothing |

## Findings

| source | as written | input that shows it | evidently intended | confidence | as-written member | corrected member |
|---|---|---|---|---|---|---|
| apns.py:172 | `raise error(self.socket.read(6))` names `error`, which is undefined (the class is `Error`), so NameError is raised before the reply is read | any pending reply, e.g. the bytes 08 01 00 00 00 2A | raise `Error` built from the (up to) 6 bytes read | high (not executed) | Transport.CheckForErrorAsWritten | Transport.CheckForErrorSpec |

`Transport.Connection.CheckForError` implements the corrected behaviour.

## Left out

- Connecting (apns.py:94-99): TCP socket creation and the mutual-TLS handshake of `ssl.wrap_socket` are foreign I/O. A connection is built over an already open socket. `PUSH_PORT` and `FEEDBACK_PORT` are only passed as the port argument when connecting (push.py:12, prune.py:29).
- The real `select.select` and blocking SSL reads: replaced by the byte-stream socket above. Data buffered inside the TLS layer, which `select` may not see, is not modelled.
- `json.dumps({'aps': {'alert': alert}})` (apns.py:43-44): JSON escaping is not modelled. `build_msg` and `write_push_msg` take the payload's bytes as a parameter, so only its length and placement are modelled.
- `int(msg_id)` (apns.py:32): parsing the message id from text is not modelled; the id is an integer parameter and may be out of range, which gives `FieldOutOfRange`.
- The `print` diagnostics of `read_feedback_msg` (apns.py:148-149, apns.py:154) are outcome tags, not output; the unused `log_file` parameter is dropped.
- The text of the ValueError messages (apns.py:35-41) is not modelled, only which exception is raised.
- prune.py, push.py and build.py: command-line glue (argument parsing, printing, `time.sleep(3)`).
- Transport.Socket.Pending and Transport.Connection.CheckForError: the end of `incoming` stands both for the peer's close (a read there returns short) and for "nothing pending". A real `select` reports a socket readable once the peer has closed, so at end of stream apns.py:170-172 goes on to read: as written it raises NameError, as intended it raises the struct.error of an empty reply. The model returns NoErrorPending there instead, and `MalformedReply(0)` never occurs.
- Transport.Socket.Write: never fails, whereas apns.py:105 passes socket and SSL write errors on to the caller. `WritePushMsg` therefore has no transport-error outcome.
- Concurrency: a connection is used by one caller at a time, as the source assumes.
