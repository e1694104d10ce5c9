# PostgreSQL wire-protocol test server: a Dafny model

The model covers the protocol engine of `PostgresWireProtocolServer`, a small C# test server that speaks the PostgreSQL frontend/backend protocol 3.0. It handles one client connection like this:

- **SSL probe.** If the first read is an 8-byte SSLRequest, the server refuses it with `'N'`.
- **Startup.** It decodes the startup message into a dictionary of parameters.
- **Authentication.** It asks for a clear-text password (`'R'` 3) and accepts whatever password comes back.
- **Welcome burst.** It sends one burst: AuthenticationOk, twelve ParameterStatus messages and BackendKeyData. ReadyForQuery follows.
- **Query loop.** It answers every query with one of three canned result sets plus ReadyForQuery. It stops on a Terminate message.
- **Dispatch.** The canned result is picked by matching the query's `;`-separated, trimmed, lower-cased parts against two regular expressions.

Results are encoded by `SendResult`: a RowDescription, one DataRow per row, then a CommandComplete. Column metadata comes from the registry of type OIDs in `PostgresTypeInformation`. Every message is assembled in a `WireOutputMemoryStream`, an `EndianAwareMemoryStream` that writes integers most significant byte first.

## How the model is built

Pure functions describe each message and each decoder:

- **Encoders:** `Framing.StatusMessageString`, `ResultSets.ResultMessages`.
- **Decoders:** `Framing.DecodeStringMessage`, which returns a `Result` whose error carries the source's exception message.
- **The session:** `SessionScript.Session`, a function from the sequence of reads the client delivers to the bytes written and the way the connection ends.

The source's imperative code is modelled imperatively and proved equal to those functions:

- the two stream classes (`Util`);
- the decoders, which reverse the 8192-byte receive buffer in place, kept as an `array` (`WireServer`);
- the encoders, which build their messages write by write;
- `SendResult`, with its loops over columns, rows and cells;
- `HandleRequest`, with its handshake and query loop, run against a `NetworkStream` class whose reads are given up front.

Properties connect each encoder to its decoder in both directions. They are:

- round trips for integers, string messages, startup messages and DataRow cells;
- complete error tables for every decoder;
- the registry's totality and consistency;
- an if-and-only-if characterisation of each regular expression and of the dispatcher;
- the byte stream of a whole typical session.

The machine's byte order (`BitConverter.IsLittleEndian`) is a parameter wherever the source depends on it. `Process.GetCurrentProcess().Id` is a parameter as well.

## Behaviour kept as the code has it

The model follows the code, not the protocol documentation, in these places:

- **Decoders mutate the buffer.** On a little-endian host, `ReadSSLNegoPackage`, `ReadStartupMessage` and `ReadStringMessage` reverse byte ranges of the receive buffer in place. The buffer also keeps bytes from earlier reads past the current one. The model therefore carries the buffer from phase to phase (`SessionScript.Phase`).
- **The CancelRequest test reads host byte order** (`BitConverter.ToInt32` without reversal):
  - on a big-endian host a CancelRequest in the query loop is skipped silently;
  - on a little-endian host it is not recognised, fails to decode as a query and is answered with ReadyForQuery (`SessionScript.CancelRequestInSession`).
- **A CancelRequest during startup has no effect.** The same buffer is then decoded as a startup message.
- **CommandComplete is always `SELECT 0`.** The command tag passed to `SendResult` ("SHOW", "SELECT 2") is ignored. The protocol documentation would have the row count.
- **`DBNull` is not a null cell.** The static result's `DBNull.Value` cell goes through `ToString()` and is sent as a zero-length value, not as the null marker -1 (`ResultSets.NullAndDBNullDiffer`).
- **`Int2` is recorded with size 32**, both in `PredefinedTypes` and in `Mapping`.
- **The query loop's `!= -1` guard never fails.** An empty read is decoded as a message and raises "message content required". That exception is caught, so ReadyForQuery is still sent (`SessionScript.EmptyReadAnswered`).
- **A 5-byte typed message other than Terminate, with length field 4, depends on the host.** It fails with "message format incorrect" on a big-endian host. On a little-endian host it fails with an `ArgumentOutOfRangeException` (`Framing.FiveByteMessageDependsOnHost`). With any other length field, the 5-byte message fails with "message length incorrect" on both hosts (`Framing.StringMessageErrors`).
- **"startup message invalid" can never be raised.** `String.Split` always returns at least one piece, so an even count is at least 2 (`Framing.StartupNeverInvalid`).

## Model

| member | source | states |
|---|---|---|
| Binary.Ascii | dotnet/PostgresWireProtocolServer/WireServer.cs:348 | The bytes of a literal text have one byte per character (identity encoding of ASCII text in place of UTF-8). |
| Binary.WrapInt32 | dotnet/PostgresWireProtocolServer/WireServer.cs:444 | The `(int)` conversion: the value itself inside the int32 range, and always congruent to it modulo 2^32. |
| Binary.WrapInt16 | dotnet/PostgresWireProtocolServer/WireServer.cs:498 | The `(short)` conversion: the value itself inside the int16 range, and always congruent to it modulo 2^16. |
| Binary.WrapUInt32 | dotnet/PostgresWireProtocolServer/PostgresTypeHandling/PostgresTypeInformation.cs:18 | The `(uint)` conversion: the value itself inside the uint32 range, and always congruent to it modulo 2^32. |
| Binary.Int16BE | dotnet/PostgresWireProtocolServer/Util/EndianAwareMemoryStream.cs:33-37 | A short is sent as exactly two bytes. |
| Binary.Int32BE | dotnet/PostgresWireProtocolServer/Util/EndianAwareMemoryStream.cs:38-42 | An int is sent as exactly four bytes. |
| Binary.UInt32BE | dotnet/PostgresWireProtocolServer/Util/EndianAwareMemoryStream.cs:43-47 | A uint is sent as exactly four bytes. |
| Binary.ReverseRange | dotnet/PostgresWireProtocolServer/WireServer.cs:211-212 | `Array.Reverse(bytes, index, count)` keeps the buffer's length. |
| Binary.ReverseRangeOutside | dotnet/PostgresWireProtocolServer/WireServer.cs:211-212 | Bytes outside the reversed range are unchanged. |
| Binary.ReverseRangeInside | dotnet/PostgresWireProtocolServer/WireServer.cs:211-212 | The byte at offset k inside the range moves to the mirrored position. |
| Binary.ReversedInvolution | dotnet/PostgresWireProtocolServer/Util/EndianAwareMemoryStream.cs:26-29 | Reversing twice restores the bytes. |
| Binary.Int16RoundTrip | dotnet/PostgresWireProtocolServer/Util/EndianAwareMemoryStream.cs:33-37 | Reading the two written bytes back big-endian gives the short that was written. |
| Binary.Int32RoundTrip | dotnet/PostgresWireProtocolServer/Util/EndianAwareMemoryStream.cs:38-42 | Reading the four written bytes back big-endian gives the int that was written. |
| Binary.UInt32RoundTrip | dotnet/PostgresWireProtocolServer/Util/EndianAwareMemoryStream.cs:43-47 | Reading the four written bytes back big-endian gives the uint that was written. |
| Binary.Int32BEInjective | dotnet/PostgresWireProtocolServer/Util/EndianAwareMemoryStream.cs:38-42 | Different ints are written as different bytes. |
| Binary.UInt32BEOfRead | dotnet/PostgresWireProtocolServer/WireServer.cs:215-216 | Writing back a value read big-endian reproduces the four bytes it was read from. |
| Binary.UInt32BEAsInt32 | dotnet/PostgresWireProtocolServer/WireServer.cs:509 | Below 2^31 a uint and an int with the same value are written as the same bytes. |
| Binary.HostReadAfterReversal | dotnet/PostgresWireProtocolServer/WireServer.cs:209-216 | Reversing four bytes on a little-endian host (and nothing on a big-endian one) makes the host-order `BitConverter.ToInt32` read the big-endian value of the original bytes. |
| Binary.Int32AtIff | dotnet/PostgresWireProtocolServer/WireServer.cs:215-216 | The int read at an offset equals v exactly when the four bytes there are v's big-endian encoding. |
| Binary.UInt32AtIff | dotnet/PostgresWireProtocolServer/Util/EndianAwareMemoryStream.cs:43-47 | The uint read at an offset equals u exactly when the four bytes there are u's big-endian encoding. |
| Binary.Int16AtIff | dotnet/PostgresWireProtocolServer/Util/EndianAwareMemoryStream.cs:33-37 | The short read at an offset equals v exactly when the two bytes there are v's big-endian encoding. |
| Strings.NatToString | dotnet/PostgresWireProtocolServer/WireServer.cs:254 | `ToString()` of a non-negative number is a non-empty run of decimal digits with no leading zero (unless the number is 0). |
| Strings.NatToStringValue | dotnet/PostgresWireProtocolServer/WireServer.cs:254 | The decimal digits read back as the number. |
| Strings.IntToStringRoundTrip | dotnet/PostgresWireProtocolServer/WireServer.cs:254 | `ToString()` of any int is an optional minus sign and digits that parse back to the int. |
| Strings.Split | dotnet/PostgresWireProtocolServer/WireServer.cs:242 | `String.Split` always yields at least one piece. |
| Strings.SplitPiecesHaveNoSeparator | dotnet/PostgresWireProtocolServer/WireServer.cs:242 | No piece contains the separator. |
| Strings.JoinSplit | dotnet/PostgresWireProtocolServer/WireServer.cs:242 | Joining the pieces with the separator restores the input: the split loses nothing. |
| Strings.SplitJoin | dotnet/PostgresWireProtocolServer/WireServer.cs:242 | Splitting separator-free pieces joined by the separator gives exactly those pieces. |
| Strings.SplitWithoutSeparator | dotnet/PostgresWireProtocolServer/WireServer.cs:242 | A text without the separator is one piece. |
| Strings.SplitAtSeparator | dotnet/PostgresWireProtocolServer/WireServer.cs:242 | A separator after a separator-free prefix ends the first piece. |
| Strings.SplitConcat | dotnet/PostgresWireProtocolServer/WireServer.cs:161 | Splitting `a;b` gives the pieces of a followed by the pieces of b. |
| Strings.TrimStart | dotnet/PostgresWireProtocolServer/WireServer.cs:161 | The result is a suffix of the input, everything removed is white space, and it does not start with white space. |
| Strings.TrimEnd | dotnet/PostgresWireProtocolServer/WireServer.cs:161 | The result is a prefix of the input, everything removed is white space, and it does not end with white space. |
| Strings.Trim | dotnet/PostgresWireProtocolServer/WireServer.cs:161 | `Trim()` is no longer than its input and is empty or starts and ends with a non-white-space byte. |
| Strings.TrimBounds | dotnet/PostgresWireProtocolServer/WireServer.cs:161 | `Trim()` is a slice of the input with only white space cut on either side. |
| Strings.ToLowerInvariant | dotnet/PostgresWireProtocolServer/WireServer.cs:161 | Lower-casing keeps the length. |
| Strings.ToLowerInvariantProperties | dotnet/PostgresWireProtocolServer/WireServer.cs:161 | No upper-case letter remains, lower-casing twice equals once, and every other byte is unchanged. |
| TypeOids.FromValueOfValue | dotnet/PostgresWireProtocolServer/PostgresTypeHandling/PostgresTypeOID.cs:6-86 | Every enum member is found again from its numeric value. |
| TypeOids.ValuesDistinctAndPositive | dotnet/PostgresWireProtocolServer/PostgresTypeHandling/PostgresTypeOID.cs:9-85 | All 51 values are pairwise distinct (so they can be dictionary keys) and lie in (0, 2^31), so the `(uint)` cast keeps them. |
| TypeOids.WellKnownNumericValues | dotnet/PostgresWireProtocolServer/PostgresTypeHandling/PostgresTypeOID.cs:9-15 | Int2=21, Int4=23, Int8=20, Float4=700, Float8=701, Numeric=1700, Money=790. |
| TypeOids.WellKnownTextValues | dotnet/PostgresWireProtocolServer/PostgresTypeHandling/PostgresTypeOID.cs:30-85 | Char=18, Name=19, Text=25, BPChar=1042, Varchar=1043, Oid=26, Unknown=705. |
| TypeOids.WellKnownValues | dotnet/PostgresWireProtocolServer/PostgresTypeHandling/PostgresTypeOID.cs:9-85 | Both tables of well-known OIDs together. |
| TypeOids.AllTypeOidsComplete | dotnet/PostgresWireProtocolServer/PostgresTypeHandling/PostgresTypeInformation.cs:30-102 | The key set of PredefinedTypes leaves no enum member out. |
| TypeRegistry.OidIsTheEnumValue | dotnet/PostgresWireProtocolServer/PostgresTypeHandling/PostgresTypeInformation.cs:18 | A descriptor's `Oid` is exactly the enum value of its `TypeOid`. |
| TypeRegistry.PredefinedTypesTotal | dotnet/PostgresWireProtocolServer/PostgresTypeHandling/PostgresTypeInformation.cs:30-102 | Lookup by OID is total: every one of the 51 members has an entry, so no OID reaches a missing key. |
| TypeRegistry.PredefinedSizes | dotnet/PostgresWireProtocolServer/PostgresTypeHandling/PostgresTypeInformation.cs:33-101 | An entry has size information exactly for Int2 (32), Int4 (4), Int8 (8), Float4 (4), Float8 (8), Char (1), BPChar (1) and Oid (4). |
| TypeRegistry.DeclaredSizeFixed | dotnet/PostgresWireProtocolServer/PostgresTypeHandling/PostgresTypeInformation.cs:33-101 | A size is recorded exactly for the eight fixed-size types. |
| TypeRegistry.OidDescriptorIsPredefined | dotnet/PostgresWireProtocolServer/PostgresTypeHandling/PostgresTypeInformation.cs:90 | The descriptor used for the `lo` query's columns is the PredefinedTypes entry for Oid. |
| TypeRegistry.PredefinedTypeNames | dotnet/PostgresWireProtocolServer/PostgresTypeHandling/PostgresTypeInformation.cs:127 | The predefined type names are exactly short, int, long, float, double, bool, char, string and DateTime. No other CLR type is among them. |
| TypeRegistry.MappingKeys | dotnet/PostgresWireProtocolServer/PostgresTypeHandling/PostgresTypeInformation.cs:109-120 | Mapping covers short, int, long, float, double, bool, char, string and DateTime, and no other type. |
| TypeRegistry.MappingAgreesWithPredefinedTypes | dotnet/PostgresWireProtocolServer/PostgresTypeHandling/PostgresTypeInformation.cs:111-119 | Every Mapping descriptor equals the PredefinedTypes entry of its OID (same OID and size). |
| Framing.EncodeFrame | dotnet/PostgresWireProtocolServer/WireServer.cs:343-354 | A typed message is five header bytes (tag and length) plus its body. |
| Framing.EncodeFramesAppend | dotnet/PostgresWireProtocolServer/WireServer.cs:101-131 | Messages written one after another are the concatenation of their encodings. |
| Framing.EncodeFramesSnoc | dotnet/PostgresWireProtocolServer/WireServer.cs:101-131 | Appending one message appends its encoding. |
| Framing.ParseEncodedFrames | dotnet/PostgresWireProtocolServer/WireServer.cs:325-354 | A client splitting the written bytes by tag and length field recovers exactly the messages that were sent. |
| Framing.SwapHeader | dotnet/PostgresWireProtocolServer/WireServer.cs:229-233 | The two in-place reversals of the header keep the buffer's length. |
| Framing.HeaderReadsAfterSwap | dotnet/PostgresWireProtocolServer/WireServer.cs:229-235 | After the swap (little-endian host) the host-order reads of the length and version fields give their big-endian values. |
| Framing.SSLRequest | dotnet/PostgresWireProtocolServer/WireServer.cs:215-224 | The SSL probe a client sends is eight bytes. |
| Framing.AfterSSLNegoPackage | dotnet/PostgresWireProtocolServer/WireServer.cs:209-213 | The buffer after `ReadSSLNegoPackage` has its original length. |
| Framing.SSLNegoAcceptsExactlyTheRequest | dotnet/PostgresWireProtocolServer/WireServer.cs:203-225 | The probe is accepted exactly when 8 bytes were received and they are length 8 followed by 80877103. |
| Framing.SSLNegoErrors | dotnet/PostgresWireProtocolServer/WireServer.cs:205-224 | Each failed check raises its own message, in the source's order: length, then length field, then magic number. |
| Framing.StartupTokens | dotnet/PostgresWireProtocolServer/WireServer.cs:241-242 | Splitting the parameter bytes on zero yields at least one token. |
| Framing.AfterStartupMessage | dotnet/PostgresWireProtocolServer/WireServer.cs:229-233 | The buffer after `ReadStartupMessage` has its original length. |
| Framing.StartupMessage | dotnet/PostgresWireProtocolServer/WireServer.cs:227-261 | A client's startup message is the 8-byte header, the zero-terminated strings and a final zero. |
| Framing.ZeroTerminatedIsJoin | dotnet/PostgresWireProtocolServer/WireServer.cs:241-242 | Zero-terminated strings are the strings joined by zero, plus one zero. |
| Framing.ApplyPairsKeys | dotnet/PostgresWireProtocolServer/WireServer.cs:253-259 | After the pairs loop a key is present exactly when it was present before or names some pair. |
| Framing.ApplyPairsLastWins | dotnet/PostgresWireProtocolServer/WireServer.cs:256-259 | A key maps to the value of its last pair. |
| Framing.ApplyPairsKeeps | dotnet/PostgresWireProtocolServer/WireServer.cs:253-259 | An earlier entry that no pair names keeps its value. |
| Framing.ApplyPairsLastValuesWin | dotnet/PostgresWireProtocolServer/WireServer.cs:256-259 | Every named key holds the value of its last pair, whatever the starting dictionary. |
| Framing.ApplyPairsDescribes | dotnet/PostgresWireProtocolServer/WireServer.cs:253-259 | The startup dictionary has these keys: protocol_version and the pair names. Each holds its last value, and protocol_version holds the synthesized version unless a pair overrides it. |
| Framing.AppliedKeys | dotnet/PostgresWireProtocolServer/WireServer.cs:253-259 | The startup dictionary's keys are protocol_version and the pair names, and nothing else. |
| Framing.AppliedLastValues | dotnet/PostgresWireProtocolServer/WireServer.cs:256-259 | In the startup dictionary the last value of each pair wins. |
| Framing.AppliedVersion | dotnet/PostgresWireProtocolServer/WireServer.cs:254 | protocol_version holds the decimal version unless a pair named protocol_version overrides it. |
| Framing.StartupRoundTrip | dotnet/PostgresWireProtocolServer/WireServer.cs:227-261 | A startup message with an even, non-zero number of parameter strings decodes to protocol_version ↦ its version followed by its pairs applied in order, whatever stale bytes follow in the buffer. |
| Framing.StartupMessageFields | dotnet/PostgresWireProtocolServer/WireServer.cs:234-242 | The decoder reads back the message's length, its version and exactly its parameter strings. |
| Framing.StartupWithoutParametersRejected | dotnet/PostgresWireProtocolServer/WireServer.cs:241 | A startup message without parameters makes `GetString` fail with an argument-out-of-range error. |
| Framing.StartupMessageErrors | dotnet/PostgresWireProtocolServer/WireServer.cs:236-252 | The startup error table on the received bytes: a length field other than the bytes read, then a range `GetString` rejects, then an odd token count. Any other message decodes. |
| Framing.StartupNeverInvalid | dotnet/PostgresWireProtocolServer/WireServer.cs:248-251 | The "startup message invalid" error can never be raised. |
| Framing.StartupMessageContents | dotnet/PostgresWireProtocolServer/WireServer.cs:227-261 | Whenever decoding succeeds, the length lies in range, there are at least two tokens, and the dictionary is described by the tokens and by the version read at offset 4. |
| Framing.AfterStringMessage | dotnet/PostgresWireProtocolServer/WireServer.cs:281-284 | The buffer after `ReadStringMessage` has its original length. |
| Framing.DecodePassword | dotnet/PostgresWireProtocolServer/WireServer.cs:306-309 | A decoded password is always text. |
| Framing.PasswordNeverTerminates | dotnet/PostgresWireProtocolServer/WireServer.cs:306-309 | `ReadPassword` never returns the terminate marker, because `x` is not an allowed type. |
| Framing.UnknownTypeRejected | dotnet/PostgresWireProtocolServer/WireServer.cs:269-274 | A tag outside the allowed set raises "unknown message type" and leaves the buffer untouched. |
| Framing.ZeroIsNoQueryType | dotnet/PostgresWireProtocolServer/WireServer.cs:311-314 | Byte 0 (the first byte of a CancelRequest) is neither `q` nor `x`. |
| Framing.TerminateMessage | dotnet/PostgresWireProtocolServer/WireServer.cs:287-291 | Terminate is the `X` message with an empty body. |
| Framing.QueryMessage | dotnet/PostgresWireProtocolServer/WireServer.cs:311-314 | A query message is the `Q` frame of the zero-terminated text, six bytes longer than the text. |
| Framing.PasswordMessage | dotnet/PostgresWireProtocolServer/WireServer.cs:306-309 | A password message is the `p` frame of the zero-terminated text, six bytes longer than the text. |
| Framing.StringMessageRoundTrip | dotnet/PostgresWireProtocolServer/WireServer.cs:263-304 | `ReadStringMessage` of what `SendStatusMessage(string)` writes, for an allowed tag, returns the text, on either host and whatever stale bytes follow. |
| Framing.StringMessageDecoded | dotnet/PostgresWireProtocolServer/WireServer.cs:293-303 | A decoded text came from exactly the message `SendStatusMessage` would write for it, with an allowed tag. |
| Framing.DecodedTextChecks | dotnet/PostgresWireProtocolServer/WireServer.cs:285-303 | A decoded text implies an allowed tag, a length field of length-1, the text between offset 5 and the last byte, and a zero last byte. |
| Framing.AfterStringMessageKeepsLast | dotnet/PostgresWireProtocolServer/WireServer.cs:281-284 | The in-place reversal does not touch the terminating byte of a message of 6 bytes or more. |
| Framing.DecodedTextLayout | dotnet/PostgresWireProtocolServer/WireServer.cs:293-302 | A buffer that passes the length and terminator checks is exactly the written message of its text. |
| Framing.TerminateRecognised | dotnet/PostgresWireProtocolServer/WireServer.cs:287-291 | The terminate marker is returned exactly for 5 received bytes: an allowed `x`/`X` tag and length field 4. |
| Framing.TerminateMessageRecognised | dotnet/PostgresWireProtocolServer/WireServer.cs:311-314 | `ReadQuery` of a Terminate message returns the terminate marker. |
| Framing.StringMessageErrors | dotnet/PostgresWireProtocolServer/WireServer.cs:265-300 | The error table in the source's order: no content, unknown type, short length, length mismatch (from length 5 on, on both hosts), missing terminator. |
| Framing.FiveByteMessageDependsOnHost | dotnet/PostgresWireProtocolServer/WireServer.cs:281-302 | A 5-byte non-terminate message fails differently on the two byte orders. |
| Framing.CancelRequest | dotnet/PostgresWireProtocolServer/WireServer.cs:79 | A client's CancelRequest is 16 bytes. |
| Framing.CancelRecognitionDependsOnHost | dotnet/PostgresWireProtocolServer/WireServer.cs:79 | The host-order test recognises a big-endian CancelRequest on a big-endian host only. |
| Framing.StatusMessageInt | dotnet/PostgresWireProtocolServer/WireServer.cs:325-333 | Always 9 bytes: the tag, length 8, then the status. |
| Framing.StatusMessageChar | dotnet/PostgresWireProtocolServer/WireServer.cs:334-342 | Always 6 bytes: the tag, length 5, then the character. |
| Framing.StatusMessageString | dotnet/PostgresWireProtocolServer/WireServer.cs:343-354 | One frame: the tag, length 4+n+1, the text and a zero. |
| Framing.StatusMessagesAreFrames | dotnet/PostgresWireProtocolServer/WireServer.cs:325-342 | The int and char overloads write well-formed frames whose length field counts itself and the body. |
| Framing.ParameterStatusMessage | dotnet/PostgresWireProtocolServer/WireServer.cs:355-367 | One `S` frame whose body is the name and the value, each zero-terminated. |
| Framing.BackendKeyDataMessage | dotnet/PostgresWireProtocolServer/WireServer.cs:369-379 | One 13-byte `K` frame: length 12, the process id and 3913636326. |
| Framing.AuthenticationCleartextPassword | dotnet/PostgresWireProtocolServer/WireServer.cs:316-319 | The `R` frame with code 3. |
| Framing.AuthenticationOk | dotnet/PostgresWireProtocolServer/WireServer.cs:104 | The `R` frame with code 0. |
| Framing.ReadyForQuery | dotnet/PostgresWireProtocolServer/WireServer.cs:320-323 | The `Z` frame with status `I`. |
| QueryDispatch.Literal | dotnet/PostgresWireProtocolServer/WireServer.cs:163 | A literal part of a pattern has one token per character. |
| QueryDispatch.LiteralMatch | dotnet/PostgresWireProtocolServer/WireServer.cs:163 | A literal matches exactly when the input starts with its bytes and the rest matches the rest of the pattern. |
| QueryDispatch.StarMatch | dotnet/PostgresWireProtocolServer/WireServer.cs:163 | `\W*` matches exactly when some run of non-word bytes, of any length, can be followed by a match of the rest. |
| QueryDispatch.WordsStep | dotnet/PostgresWireProtocolServer/WireServer.cs:163 | A pattern of words separated by `\W*` matches exactly when the first word, then some non-word run, then the remaining words match. |
| QueryDispatch.WordsMatched | dotnet/PostgresWireProtocolServer/WireServer.cs:163-168 | A match spells the words, separated by non-word runs. |
| QueryDispatch.WordsSpelled | dotnet/PostgresWireProtocolServer/WireServer.cs:163-168 | Spelling the words separated by non-word runs gives a match. |
| QueryDispatch.WordsMatch | dotnet/PostgresWireProtocolServer/WireServer.cs:163-168 | Both directions: the two patterns match exactly the texts that spell their words separated by non-word runs. |
| QueryDispatch.TwoWordsSpelled | dotnet/PostgresWireProtocolServer/WireServer.cs:163 | An anchored two-word spelling is the first word, a non-word run, the second word and nothing or a final newline. |
| QueryDispatch.TwoWordsSpell | dotnet/PostgresWireProtocolServer/WireServer.cs:163 | That shape is an anchored spelling of the two words. |
| QueryDispatch.TwoWordsMatched | dotnet/PostgresWireProtocolServer/WireServer.cs:163 | A match of an anchored two-word pattern has that shape. |
| QueryDispatch.TwoWordsMatch | dotnet/PostgresWireProtocolServer/WireServer.cs:163 | Every text of that shape matches. |
| QueryDispatch.ShowTransactionIsolationForms | dotnet/PostgresWireProtocolServer/WireServer.cs:163 | `^show\W*transaction_isolation$` matches exactly "show", non-word bytes, "transaction_isolation", then nothing or a final newline. |
| QueryDispatch.SpacedSpells | dotnet/PostgresWireProtocolServer/WireServer.cs:168 | Words separated by single spaces, followed by anything, spell an unanchored pattern. |
| QueryDispatch.LoTypeQueryMatches | dotnet/PostgresWireProtocolServer/WireServer.cs:168 | The ODBC driver's `select oid, typbasetype from pg_type where typname = 'lo'`, followed by anything, matches the unanchored `lo` pattern. |
| QueryDispatch.NonEmptyTrimmed | dotnet/PostgresWireProtocolServer/WireServer.cs:161 | Trimming and dropping empty parts never adds parts. |
| QueryDispatch.NonEmptyTrimmedMembers | dotnet/PostgresWireProtocolServer/WireServer.cs:161 | A part is kept exactly when it is non-empty and the trim of some piece. |
| QueryDispatch.NonEmptyTrimmedConcat | dotnet/PostgresWireProtocolServer/WireServer.cs:161 | Trimming and filtering work piece by piece and keep order. |
| QueryDispatch.TrimKeepsOut | dotnet/PostgresWireProtocolServer/WireServer.cs:161 | Trimming introduces no byte. |
| QueryDispatch.TrimAllWhite | dotnet/PostgresWireProtocolServer/WireServer.cs:161 | An all-white-space piece trims to empty and is dropped. |
| QueryDispatch.TrimUnchanged | dotnet/PostgresWireProtocolServer/WireServer.cs:161 | A piece without white space at either end is kept as it is. |
| QueryDispatch.PartsAreTrimmedPieces | dotnet/PostgresWireProtocolServer/WireServer.cs:161 | The parts are exactly the non-empty trimmed pieces of the lower-cased query split on `;`. None contains `;` or has white space at either end. |
| QueryDispatch.PartsConcat | dotnet/PostgresWireProtocolServer/WireServer.cs:161 | The parts of `q1;q2` are the parts of q1 followed by those of q2. |
| QueryDispatch.AnyMatches | dotnet/PostgresWireProtocolServer/WireServer.cs:163 | `Any` holds exactly when some part matches. |
| QueryDispatch.DispatchChoice | dotnet/PostgresWireProtocolServer/WireServer.cs:161-176 | The isolation result is chosen exactly when some part is `show transaction_isolation`. The `lo` result is chosen exactly when none is and some part matches the `lo` pattern. Otherwise the static result is chosen. |
| QueryDispatch.DispatchIgnoresCase | dotnet/PostgresWireProtocolServer/WireServer.cs:161 | Lower-casing the query first changes nothing. |
| QueryDispatch.DispatchIgnoresOrder | dotnet/PostgresWireProtocolServer/WireServer.cs:161-176 | Swapping two `;`-separated statements does not change the reply. |
| QueryDispatch.ShowWinsInAnyPosition | dotnet/PostgresWireProtocolServer/WireServer.cs:163-171 | A `show transaction_isolation` statement wins wherever it stands, even beside a `lo` query. |
| QueryDispatch.EmptyQueryGetsStaticResult | dotnet/PostgresWireProtocolServer/WireServer.cs:172-176 | A query of only `;` and white space has no parts and gets the static result. |
| QueryDispatch.ShowQueryDispatched | dotnet/PostgresWireProtocolServer/WireServer.cs:161-166 | `SHOW`, any non-word run, `Transaction_Isolation` gets the isolation result despite the mixed case. |
| ResultSets.TypeInformationOf | dotnet/PostgresWireProtocolServer/WireServer.cs:488-496 | Explicit type information wins, then Mapping. Resolution fails, with a missing-mapping error, exactly when neither exists. A descriptor found through Mapping is the PredefinedTypes entry of its OID, with the same size. |
| ResultSets.ColumnHeader | dotnet/PostgresWireProtocolServer/WireServer.cs:486-515 | A header exists exactly when the column's type resolves, and is then 19 bytes longer than the name. |
| ResultSets.ColumnHeaderLayout | dotnet/PostgresWireProtocolServer/WireServer.cs:497-514 | Header layout: name, 0, table id (default 0), ordinal+1, the OID, `Size ?? 4`, type modifier -1 and format 0, each at its offset and read back to that value. |
| ResultSets.ColumnHeadersResolve | dotnet/PostgresWireProtocolServer/WireServer.cs:430-434 | The headers are produced exactly when every column's type resolves. |
| ResultSets.ColumnHeadersFailOnlyOnMissingMapping | dotnet/PostgresWireProtocolServer/WireServer.cs:493-496 | The only way the headers fail is a missing type mapping. |
| ResultSets.ColumnHeadersLength | dotnet/PostgresWireProtocolServer/WireServer.cs:430-437 | The headers take Σ (name length + 19) bytes. |
| ResultSets.RowDescription | dotnet/PostgresWireProtocolServer/WireServer.cs:436-447 | One `T` frame: the int16 column count, then the headers. |
| ResultSets.DataRow | dotnet/PostgresWireProtocolServer/WireServer.cs:472-479 | One `D` frame: the int16 item count, then the cells. |
| ResultSets.CommandComplete | dotnet/PostgresWireProtocolServer/WireServer.cs:483 | One `C` frame carrying "SELECT 0", zero-terminated. |
| ResultSets.ParseCell | dotnet/PostgresWireProtocolServer/WireServer.cs:452-471 | A client reading one cell consumes at least the 4-byte length and no more than it has. |
| ResultSets.CellReadsBack | dotnet/PostgresWireProtocolServer/WireServer.cs:452-471 | A null cell reads back as null, any other cell as its bytes, and the reader consumes exactly the written cell. |
| ResultSets.DataRowCellsRoundTrip | dotnet/PostgresWireProtocolServer/WireServer.cs:449-480 | A client reading a row's cells recovers every cell's value, in order. |
| ResultSets.NullAndDBNullDiffer | dotnet/PostgresWireProtocolServer/WireServer.cs:454-470 | `null` is written as length -1 with no bytes. `DBNull` is written as length 0 and reads back as the empty value. |
| ResultSets.RowFrames | dotnet/PostgresWireProtocolServer/WireServer.cs:449-480 | Exactly one DataRow per row. |
| ResultSets.RowFramesAt | dotnet/PostgresWireProtocolServer/WireServer.cs:449-480 | The i-th DataRow encodes the i-th row: row order is kept. |
| ResultSets.DataRowsAreFrames | dotnet/PostgresWireProtocolServer/WireServer.cs:449-480 | The rows' output is the sequence of their DataRow frames. |
| ResultSets.ResultFrames | dotnet/PostgresWireProtocolServer/WireServer.cs:428-484 | A result is rows + 2 messages. |
| ResultSets.ResultMessagesAreFrames | dotnet/PostgresWireProtocolServer/WireServer.cs:428-484 | What `SendResult` writes is the encoding of RowDescription, the DataRows and CommandComplete. |
| ResultSets.ClientReadsResult | dotnet/PostgresWireProtocolServer/WireServer.cs:428-484 | A client parsing a result recovers the column count, the headers, each row's DataRow in order and a final "SELECT 0", whatever command tag was passed. |
| ResultSets.RowFrameReadsBack | dotnet/PostgresWireProtocolServer/WireServer.cs:472-478 | A DataRow is tagged `D`, counts the row's items and reads back to the row's cell values. |
| ResultSets.TransactionIsolationEncodes | dotnet/PostgresWireProtocolServer/WireServer.cs:381-389 | The isolation result's string column resolves to Varchar through Mapping, and the result encodes. |
| ResultSets.OidTypeQueryEncodes | dotnet/PostgresWireProtocolServer/WireServer.cs:391-404 | Both columns of the `lo` result carry the Oid descriptor (size 4), and the result encodes. |
| ResultSets.StaticResultEncodes | dotnet/PostgresWireProtocolServer/WireServer.cs:406-426 | Both int columns of the static result resolve to Int4 (size 4), and the result encodes. |
| SessionScript.FirstStep | dotnet/PostgresWireProtocolServer/WireServer.cs:63-89 | A first read that stops the session closes the connection. |
| SessionScript.StartupStep | dotnet/PostgresWireProtocolServer/WireServer.cs:86-89 | A startup message that stops the session closes the connection. |
| SessionScript.PasswordStep | dotnet/PostgresWireProtocolServer/WireServer.cs:91-134 | A password read that stops the session closes the connection. |
| SessionScript.QueryStep | dotnet/PostgresWireProtocolServer/WireServer.cs:139-187 | A query read that stops the session closes the connection. |
| SessionScript.Next | dotnet/PostgresWireProtocolServer/WireServer.cs:53-201 | Any read that stops the session closes the connection. |
| SessionScript.RunContinues | dotnet/PostgresWireProtocolServer/WireServer.cs:53-201 | After a read that continues, the output is that read's output followed by the rest of the session. |
| SessionScript.RunThen | dotnet/PostgresWireProtocolServer/WireServer.cs:53-201 | The same, for a known rest of the session. |
| SessionScript.RunStops | dotnet/PostgresWireProtocolServer/WireServer.cs:53-201 | After a read that stops, later reads are never taken. |
| SessionScript.RunClosesUnlessReadsRunOut | dotnet/PostgresWireProtocolServer/WireServer.cs:137-200 | The connection stays open only while the server waits for input. It always closes once a read fails. |
| SessionScript.BrokenReadCloses | dotnet/PostgresWireProtocolServer/WireServer.cs:178-200 | An IOException from a read ends the session and closes the connection. |
| SessionScript.SSLProbeRefused | dotnet/PostgresWireProtocolServer/WireServer.cs:66-73 | An SSLRequest is answered with `N` and the next read is the startup message. |
| SessionScript.BadSSLProbeFails | dotnet/PostgresWireProtocolServer/WireServer.cs:66-68 | Any other 8-byte first read ends the handshake with an error and no output. |
| SessionScript.StartupAnswered | dotnet/PostgresWireProtocolServer/WireServer.cs:86-89 | A well-formed startup message is answered with the clear-text password request, and its parameters are remembered. |
| SessionScript.NoPasswordClientReconnects | dotnet/PostgresWireProtocolServer/WireServer.cs:91-97 | An empty read after the password request ends the session with no output. |
| SessionScript.PasswordAccepted | dotnet/PostgresWireProtocolServer/WireServer.cs:98-134 | Any password is accepted: the welcome burst and ReadyForQuery follow. |
| SessionScript.CannedRepliesEncode | dotnet/PostgresWireProtocolServer/WireServer.cs:163-176 | Each canned result encodes without error, and its reply is that encoding. |
| SessionScript.QueryNeverCancel | dotnet/PostgresWireProtocolServer/WireServer.cs:143 | A `Q` message is never taken for a CancelRequest. |
| SessionScript.QueryAnswered | dotnet/PostgresWireProtocolServer/WireServer.cs:152-187 | A query message gets the reply its dispatch picks, then ReadyForQuery. |
| SessionScript.TerminateEndsSession | dotnet/PostgresWireProtocolServer/WireServer.cs:152-158 | Terminate ends the loop with no further output. |
| SessionScript.EmptyReadAnswered | dotnet/PostgresWireProtocolServer/WireServer.cs:178-187 | An empty read in the loop is answered with ReadyForQuery alone. |
| SessionScript.UndecodableAnswered | dotnet/PostgresWireProtocolServer/WireServer.cs:178-187 | A message that fails to decode is answered with ReadyForQuery alone, and the loop goes on. |
| SessionScript.CancelSkippedBigEndian | dotnet/PostgresWireProtocolServer/WireServer.cs:143-150 | On a big-endian host a CancelRequest is skipped with no output. |
| SessionScript.CancelAnsweredLittleEndian | dotnet/PostgresWireProtocolServer/WireServer.cs:143-187 | On a little-endian host a CancelRequest is not recognised and is answered with ReadyForQuery. |
| SessionScript.CancelRequestInSession | dotnet/PostgresWireProtocolServer/WireServer.cs:143-187 | Both of the above. |
| SessionScript.QueriesThenTerminate | dotnet/PostgresWireProtocolServer/WireServer.cs:137-188 | Queries followed by Terminate produce each query's reply and ReadyForQuery, in order, then the session ends. |
| SessionScript.QueryThen | dotnet/PostgresWireProtocolServer/WireServer.cs:137-188 | One query pass's output comes before everything that follows it. |
| SessionScript.PasswordThen | dotnet/PostgresWireProtocolServer/WireServer.cs:91-134 | The password step's output comes before everything that follows it. |
| SessionScript.FromPassword | dotnet/PostgresWireProtocolServer/WireServer.cs:91-188 | From the password on: the burst, ReadyForQuery, then the replies, ending with Terminate. |
| SessionScript.FromStartup | dotnet/PostgresWireProtocolServer/WireServer.cs:86-188 | From the startup message on: the password request, then all of the above. |
| SessionScript.TypicalSession | dotnet/PostgresWireProtocolServer/WireServer.cs:53-201 | A whole session writes, in order: `N` (if probed), `R`(3), the burst, `Z`, each query's reply and `Z`. It ends on Terminate. |
| SessionScript.SessionWithoutProbe | dotnet/PostgresWireProtocolServer/WireServer.cs:63-188 | The same session without an SSL probe. |
| SessionScript.SessionAfterProbe | dotnet/PostgresWireProtocolServer/WireServer.cs:63-188 | The same session after an SSL probe, refused with `N`. |
| SessionScript.ParameterStatusFrames | dotnet/PostgresWireProtocolServer/WireServer.cs:116-127 | The ParameterStatus messages are one `S` frame per setting, in order. |
| SessionScript.WelcomeIsFrames | dotnet/PostgresWireProtocolServer/WireServer.cs:101-131 | The burst is a sequence of well-formed frames. |
| SessionScript.BurstIsFrames | dotnet/PostgresWireProtocolServer/WireServer.cs:101-131 | The burst is `R`(0), the settings' `S` frames and `K`, in that order. |
| SessionScript.ServerParametersBounded | dotnet/PostgresWireProtocolServer/WireServer.cs:107-127 | The reported names are short. Their values are bounded whenever the client's values are. |
| SessionScript.WelcomeReadsBack | dotnet/PostgresWireProtocolServer/WireServer.cs:101-131 | A client parsing the burst finds 14 frames: `R`(0), twelve `S` frames giving the settings in source order (application_name defaulting to "", client_encoding to "UTF8"), and `K`. |
| Util.ArrayReverse | dotnet/PostgresWireProtocolServer/WireServer.cs:211-212 | Reverses the range in place, leaving the rest of the array. |
| Util.GetBytes | dotnet/PostgresWireProtocolServer/Util/EndianAwareMemoryStream.cs:35 | `BitConverter.GetBytes` gives the value's bytes in host order, in a fresh array. |
| Util.StreamOrder | dotnet/PostgresWireProtocolServer/Util/EndianAwareMemoryStream.cs:22-31 | A big-endian stream emits the big-endian bytes unchanged. The length is kept either way. |
| Util.StreamOrderIsHostIndependent | dotnet/PostgresWireProtocolServer/Util/EndianAwareMemoryStream.cs:26-29 | Reversing exactly when the host order differs from the stream's makes the output the stream's order, whatever the host. |
| Util.EndianAwareMemoryStream.constructor | dotnet/PostgresWireProtocolServer/Util/EndianAwareMemoryStream.cs:13-16 | The stream starts empty, and its byte order is the one given (a `const`: never changed afterwards). |
| Util.EndianAwareMemoryStream.WriteByte | dotnet/PostgresWireProtocolServer/Util/EndianAwareMemoryStream.cs:17-20 | Appends exactly that byte and keeps everything before it. |
| Util.EndianAwareMemoryStream.WriteBytes | dotnet/PostgresWireProtocolServer/Util/EndianAwareMemoryStream.cs:30 | Appends exactly the given bytes. |
| Util.EndianAwareMemoryStream.WriteEndianAware | dotnet/PostgresWireProtocolServer/Util/EndianAwareMemoryStream.cs:22-31 | Appends the bytes, reversed exactly when host and stream orders differ. The caller's array is left unchanged. |
| Util.EndianAwareMemoryStream.WriteInt16 | dotnet/PostgresWireProtocolServer/Util/EndianAwareMemoryStream.cs:33-37 | Appends the short's two bytes in the stream's order, whatever the host. |
| Util.EndianAwareMemoryStream.WriteInt32 | dotnet/PostgresWireProtocolServer/Util/EndianAwareMemoryStream.cs:38-42 | Appends the int's four two's-complement bytes in the stream's order, whatever the host. |
| Util.EndianAwareMemoryStream.WriteUInt32 | dotnet/PostgresWireProtocolServer/Util/EndianAwareMemoryStream.cs:43-47 | Appends the uint's four bytes in the stream's order, whatever the host. |
| Util.WireOutputMemoryStream.constructor | dotnet/PostgresWireProtocolServer/Util/WireOutputMemoryStream.cs:8-10 | A wire stream is an empty big-endian stream. |
| Util.WireOutputMemoryStream.WriteZeroByte | dotnet/PostgresWireProtocolServer/Util/WireOutputMemoryStream.cs:12-15 | Appends exactly one zero byte and keeps everything before it. |
| WireServer.NetworkStream.constructor | dotnet/PostgresWireProtocolServer/WireServer.cs:55-56 | A connection starts open with nothing written, and the client's reads are queued. |
| WireServer.NetworkStream.Read | dotnet/PostgresWireProtocolServer/WireServer.cs:63 | A read delivers the next chunk into the buffer, or fails with an IOException and leaves the buffer. With nothing left it blocks. |
| WireServer.NetworkStream.Write | dotnet/PostgresWireProtocolServer/WireServer.cs:70 | A write appends to what the client has received. |
| WireServer.NetworkStream.Close | dotnet/PostgresWireProtocolServer/WireServer.cs:198 | Closing changes nothing but the closed flag. |
| WireServer.WireServer.constructor | dotnet/PostgresWireProtocolServer/WireServer.cs:19-23 | The server keeps the host byte order and the process id. |
| WireServer.WireServer.SwapHeaderInPlace | dotnet/PostgresWireProtocolServer/WireServer.cs:229-233 | The two in-place reversals produce the swapped header. |
| WireServer.WireServer.ReadSSLNegoPackage | dotnet/PostgresWireProtocolServer/WireServer.cs:203-225 | Returns the probe's verdict and leaves the buffer as the source's in-place reversals do. |
| WireServer.WireServer.ReadStartupMessage | dotnet/PostgresWireProtocolServer/WireServer.cs:227-261 | Returns the startup dictionary or the error, and leaves the buffer header-swapped on a little-endian host. |
| WireServer.WireServer.AddPairs | dotnet/PostgresWireProtocolServer/WireServer.cs:256-259 | The pairs loop gives the dictionary the pairs describe. |
| WireServer.WireServer.IsValidMessageType | dotnet/PostgresWireProtocolServer/WireServer.cs:269-271 | A tag is valid exactly when the lower-cased allowed types contain it. |
| WireServer.WireServer.ReadStringMessage | dotnet/PostgresWireProtocolServer/WireServer.cs:263-304 | Returns the decoded text, the terminate marker or the error. The buffer is left as the in-place reversal does. |
| WireServer.WireServer.ReadPassword | dotnet/PostgresWireProtocolServer/WireServer.cs:306-309 | Decodes with only `p` allowed. |
| WireServer.WireServer.ReadQuery | dotnet/PostgresWireProtocolServer/WireServer.cs:311-314 | Decodes with `q` and `x` allowed. |
| WireServer.WireServer.SendStatusMessageInt | dotnet/PostgresWireProtocolServer/WireServer.cs:325-333 | Writes the 9-byte status message. |
| WireServer.WireServer.SendStatusMessageChar | dotnet/PostgresWireProtocolServer/WireServer.cs:334-342 | Writes the 6-byte status message. |
| WireServer.WireServer.SendStatusMessageString | dotnet/PostgresWireProtocolServer/WireServer.cs:343-354 | Writes the string message that `ReadStringMessage` reads back. |
| WireServer.WireServer.SendParameterStatusMessage | dotnet/PostgresWireProtocolServer/WireServer.cs:355-367 | Writes the ParameterStatus frame. |
| WireServer.WireServer.SendBackendKeyData | dotnet/PostgresWireProtocolServer/WireServer.cs:369-379 | Writes the 13-byte BackendKeyData frame for this server's process id. |
| WireServer.WireServer.SendClearTextAuthenticationRequest | dotnet/PostgresWireProtocolServer/WireServer.cs:316-319 | Writes `R`(3). |
| WireServer.WireServer.SendReadyForQuery | dotnet/PostgresWireProtocolServer/WireServer.cs:320-323 | Writes `Z`(`I`). |
| WireServer.WireServer.SendServerParameters | dotnet/PostgresWireProtocolServer/WireServer.cs:116-127 | Writes the ParameterStatus messages in order. |
| WireServer.WireServer.CreateColumnHeader | dotnet/PostgresWireProtocolServer/WireServer.cs:486-515 | Builds the column header, or fails when the type does not resolve. |
| WireServer.WireServer.CreateColumnHeaders | dotnet/PostgresWireProtocolServer/WireServer.cs:430-434 | Builds the headers of all columns in order, or fails on the first column without a type. |
| WireServer.WireServer.CreateRowDescription | dotnet/PostgresWireProtocolServer/WireServer.cs:436-447 | Builds the RowDescription. |
| WireServer.WireServer.WriteCell | dotnet/PostgresWireProtocolServer/WireServer.cs:452-471 | Appends the cell's encoding to the row's stream. |
| WireServer.WireServer.RowCells | dotnet/PostgresWireProtocolServer/WireServer.cs:451-471 | The cells loop yields the row's cell encodings in order. |
| WireServer.WireServer.CreateDataRow | dotnet/PostgresWireProtocolServer/WireServer.cs:472-479 | Builds the DataRow. |
| WireServer.WireServer.SendDataRows | dotnet/PostgresWireProtocolServer/WireServer.cs:449-480 | The rows loop writes one DataRow per row, in order. |
| WireServer.WireServer.SendResult | dotnet/PostgresWireProtocolServer/WireServer.cs:428-484 | Succeeds exactly when every column's type resolves, and then writes the whole result. Otherwise it writes nothing and fails with a missing mapping. |
| WireServer.WireServer.SendTransactionIsolationState | dotnet/PostgresWireProtocolServer/WireServer.cs:381-389 | Writes the one-column, one-row "uncommitted read" result. |
| WireServer.WireServer.SendOidTypeQueryResult | dotnet/PostgresWireProtocolServer/WireServer.cs:391-404 | Writes the two-Oid-column, zero-row result. |
| WireServer.WireServer.SendStaticResult | dotnet/PostgresWireProtocolServer/WireServer.cs:406-426 | Writes the static two-column, three-row result. |
| WireServer.WireServer.SendQueryResult | dotnet/PostgresWireProtocolServer/WireServer.cs:161-176 | Writes the canned reply the dispatcher picks. |
| WireServer.WireServer.AnswerStartup | dotnet/PostgresWireProtocolServer/WireServer.cs:86-89 | Writes exactly what the session's startup step emits and reports how it goes on. |
| WireServer.WireServer.AnswerOpening | dotnet/PostgresWireProtocolServer/WireServer.cs:66-89 | The same for the first read: the SSL refusal, or the startup answer. |
| WireServer.WireServer.OpeningRead | dotnet/PostgresWireProtocolServer/WireServer.cs:63-89 | Takes the first read and stays in step with the session function. |
| WireServer.WireServer.StartupRead | dotnet/PostgresWireProtocolServer/WireServer.cs:72-89 | Takes the startup read after the SSL refusal and stays in step with the session function. |
| WireServer.WireServer.AnswerPassword | dotnet/PostgresWireProtocolServer/WireServer.cs:98-134 | Accepts any decodable password, writing the burst and ReadyForQuery. An undecodable one ends the handshake with no output. |
| WireServer.WireServer.PasswordRead | dotnet/PostgresWireProtocolServer/WireServer.cs:91-134 | Takes the password read and stays in step with the session function. |
| WireServer.WireServer.AnswerQuery | dotnet/PostgresWireProtocolServer/WireServer.cs:139-187 | A recognised CancelRequest writes nothing. Terminate finishes. Anything else writes its reply (none after an error) and ReadyForQuery. |
| WireServer.WireServer.QueryRead | dotnet/PostgresWireProtocolServer/WireServer.cs:137-187 | One pass of the loop stays in step with the session function. |
| WireServer.WireServer.Handshake | dotnet/PostgresWireProtocolServer/WireServer.cs:63-134 | The handshake's writes are a prefix of the session's output, or the whole of it if the session ended there. |
| WireServer.ServedRuns | dotnet/PostgresWireProtocolServer/WireServer.cs:137-188 | One served read keeps what has been written in step with the session function: the loop invariant of HandleRequest. |
| WireServer.WireServer.HandleRequest | dotnet/PostgresWireProtocolServer/WireServer.cs:53-201 | Writes exactly the session's output for the reads the client delivers, and closes the connection exactly when the session ends (not when it is waiting for input). |

## Left out

- The accept loop, `TcpListener` and one thread per client (`StartListener`) are socket and thread plumbing. `HandleRequest` is modelled for one connection.
- The constructor's IP address and port are left out; they only feed `StartListener`.
- Console logging of caught exceptions is left out; it does not affect what is written.
- `requestCount` is left out: the source increments it but never reads it.
- Write failures are left out: `stream.Write` always succeeds in the model. Only reads can raise an IOException.
- A read never returns -1. With no reads left, the model stops as waiting in a blocking read (`AwaitingInput`), which is where the source would wait.
- UTF-8 encoding and decoding are left out. Text is bytes, and literals are ASCII.
- `ToLowerInvariant`, `Trim` and `\W` are modelled on ASCII bytes only (`Trim`'s white space is the ASCII white space characters).
- The .NET regular-expression engine is replaced by a hand-written matcher for the two fixed patterns.
- Of the `ToString()` renderings of cells, only `int` (decimal) and `DBNull` (empty) are modelled. Float, double and DateTime renderings depend on the culture. Cells are C# `null`, `DBNull`, strings and ints.
- `DataTable`, `DataColumn` and `ExtendedProperties` are replaced by an explicit column record with an optional descriptor and an optional table id. A property of the wrong type, which the `as` casts would turn into null, is not modelled.
- `ExtendedPropertyName` and its reflection cache are left out; the descriptor is a field of the column record.
- `Constants.ExtendedPropertyTableId` is not part of this model; the table id is a field of the column record.
- `Process.GetCurrentProcess().Id` is a parameter of the server.
- `BitConverter.IsLittleEndian` is a parameter of the server and of the streams.
- `PredefinedTypeNames` is modelled as a set: the enumeration order of the dictionary's keys is not modelled.
- `PredefinedTypes` is written as one rule, not entry by entry. Each member gets its own OID and the size `DeclaredSize` gives: 32, 4, 8, 4, 8, 1, 1 and 4 for Int2, Int4, Int8, Float4, Float8, Char, BPChar and Oid, and none for the rest. So the agreement between each key and its entry's `TypeOid` holds by construction rather than by a proof.
- The exception classes are modelled as an error datatype; the `ProtocolError` message strings are kept.
- SessionScript.FirstStep, SessionScript.StartupStep, SessionScript.PasswordStep, SessionScript.QueryStep and SessionScript.Next: their own contracts only say that a stop closes the connection; what each step emits is stated by the lemmas named beside them.
