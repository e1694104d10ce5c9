/**
  The server side of one connection (WireServer.cs): the decoders that work in place on
  the receive buffer, the encoders that build each message in a WireOutputMemoryStream,
  and HandleRequest, which runs the handshake and the query loop over the client's
  network stream. Every method is proved against the functions of Framing, ResultSets,
  QueryDispatch and SessionScript.
 */
module WireServer {
  import opened Binary
  import opened Errors
  import opened Strings
  import opened Util
  import opened TypeRegistry
  import opened Framing
  import opened ResultSets
  import opened QueryDispatch
  import opened SessionScript

  /** What `stream.Read` gives: a byte count, an IOException, or no answer (a read that waits forever). */
  datatype ReadResult = Count(n: nat) | ReadFailed | Blocked

  /**
    The client's network stream: what its reads will deliver, in order, what the server
    wrote, and whether the connection was closed.
   */
  class NetworkStream {
    var incoming: seq<Incoming>
    var written: Bytes
    var closed: bool

    constructor (incoming: seq<Incoming>)
      ensures this.incoming == incoming && written == [] && !closed
    {
      this.incoming := incoming;
      written := [];
      closed := false;
    }

    /** `Read(buffer, 0, buffer.Length)`: the next delivery is copied to the start of the buffer. */
    method Read(buffer: array<uint8>) returns (r: ReadResult)
      requires buffer.Length == ReceiveBufferSize
      modifies this, buffer
      ensures written == old(written) && closed == old(closed)
      ensures old(incoming) == [] ==> r == Blocked && incoming == [] && buffer[..] == old(buffer[..])
      ensures old(incoming) != [] ==> incoming == old(incoming)[1..]
      ensures old(incoming) != [] && old(incoming)[0].Broken? ==> r == ReadFailed && buffer[..] == old(buffer[..])
      ensures old(incoming) != [] && old(incoming)[0].Received? ==>
                var d := old(incoming)[0].data;
                r == Count(|d|) && buffer[..] == Receive(old(buffer[..]), d)
    {
      if incoming == [] {
        return Blocked;
      }
      if incoming[0].Broken? {
        r := ReadFailed;
      } else {
        var d := incoming[0].data;
        var i := 0;
        while i < |d|
          modifies buffer
          invariant 0 <= i <= |d|
          invariant buffer[..i] == d[..i]
          invariant buffer[i..] == old(buffer[..])[i..]
        {
          buffer[i] := d[i];
          i := i + 1;
          assert buffer[..i] == buffer[..i - 1] + [d[i - 1]];
        }
        assert d[..|d|] == d;
        assert buffer[..] == buffer[..|d|] + buffer[|d|..];
        r := Count(|d|);
      }
      incoming := incoming[1..];
    }

    /** `Write(data)`: the bytes are sent after everything written before. */
    method Write(data: Bytes)
      modifies this
      ensures written == old(written) + data && incoming == old(incoming) && closed == old(closed)
    {
      written := written + data;
    }

    /** `client.Close()`. */
    method Close()
      modifies this
      ensures closed && written == old(written) && incoming == old(incoming)
    {
      closed := true;
    }
  }

  class WireServer {
    /** `BitConverter.IsLittleEndian`. */
    const hostIsLittleEndian: bool
    /** `Process.GetCurrentProcess().Id`, reported in BackendKeyData. */
    const processId: int32

    constructor (hostIsLittleEndian: bool, processId: int32)
      ensures this.hostIsLittleEndian == hostIsLittleEndian && this.processId == processId
    {
      this.hostIsLittleEndian := hostIsLittleEndian;
      this.processId := processId;
    }

    // -------------------------------------------------------------------------
    // Decoders (lines 203-314)
    // -------------------------------------------------------------------------

    /** On a little-endian host, reverses the two header ints in place. */
    method SwapHeaderInPlace(bytes: array<uint8>)
      requires bytes.Length >= 8
      modifies bytes
      ensures bytes[..] == SwapHeader(old(bytes[..]))
    {
      ArrayReverse(bytes, 0, 4);
      ArrayReverse(bytes, 4, 4);
    }

    /** ReadSSLNegoPackage: outcome and buffer as DecodeSSLNegoPackage and AfterSSLNegoPackage say. */
    method ReadSSLNegoPackage(message: array<uint8>, length: int32) returns (r: Result<()>)
      requires message.Length >= 8
      modifies message
      ensures r == DecodeSSLNegoPackage(old(message[..]), length)
      ensures message[..] == AfterSSLNegoPackage(hostIsLittleEndian, old(message[..]), length)
    {
      ghost var before := message[..];
      if length != 8 {
        return Err(ProtocolError("message does not have correct length"));
      }
      if hostIsLittleEndian {
        SwapHeaderInPlace(message);
      }
      HeaderReadsAfterSwap(hostIsLittleEndian, before);
      var msglength := HostInt32At(hostIsLittleEndian, message[..], 0);
      var content := HostInt32At(hostIsLittleEndian, message[..], 4);
      if msglength != 8 {
        return Err(ProtocolError("message length for SSL message is not correct"));
      }
      if content != SSLRequestCode {
        return Err(ProtocolError("SSL magic number is not correct"));
      }
      r := Ok(());
    }

    /** ReadStartupMessage: outcome and buffer as DecodeStartupMessage and AfterStartupMessage say. */
    method ReadStartupMessage(bytes: array<uint8>, length: int32) returns (r: Result<map<Bytes, Bytes>>)
      requires bytes.Length >= 8
      modifies bytes
      ensures r == DecodeStartupMessage(old(bytes[..]), length)
      ensures bytes[..] == AfterStartupMessage(hostIsLittleEndian, old(bytes[..]))
    {
      ghost var before := bytes[..];
      if hostIsLittleEndian {
        SwapHeaderInPlace(bytes);
      }
      HeaderReadsAfterSwap(hostIsLittleEndian, before);
      var startupMessageLength := HostInt32At(hostIsLittleEndian, bytes[..], 0);
      var protocolVersion := HostInt32At(hostIsLittleEndian, bytes[..], 4);
      if length != startupMessageLength {
        return Err(ProtocolError("startup message has incorrect length"));
      }
      if startupMessageLength < 10 || startupMessageLength - 2 > bytes.Length {
        return Err(ArgumentOutOfRange);
      }
      SwapHeaderKeepsBody(before);
      var messageParts := Split(bytes[8..startupMessageLength - 2], 0);
      assert bytes[8..startupMessageLength - 2] == before[8..startupMessageLength - 2];
      if |messageParts| % 2 != 0 {
        return Err(ProtocolError("startup message has invalid token count " + IntToString(|messageParts|)));
      }
      if |messageParts| < 2 {
        return Err(ProtocolError("startup message invalid"));
      }
      var result := map[ProtocolVersionKey := Ascii(IntToString(protocolVersion))];
      result := AddPairs(result, messageParts);
      r := Ok(result);
    }

    /** The loop of ReadStartupMessage: `result[parts[i]] = parts[i + 1]` for i = 0, 2, 4, ... */
    method AddPairs(result: map<Bytes, Bytes>, messageParts: seq<Bytes>) returns (r: map<Bytes, Bytes>)
      requires |messageParts| % 2 == 0
      ensures r == ApplyPairs(result, messageParts)
    {
      r := result;
      var i := 0;
      while i < |messageParts|
        invariant 0 <= i <= |messageParts| && i % 2 == 0
        invariant r == ApplyPairs(result, messageParts[..i])
      {
        assert messageParts[..i + 2][..i] == messageParts[..i];
        r := r[messageParts[i] := messageParts[i + 1]];
        i := i + 2;
      }
      assert messageParts[..i] == messageParts;
    }

    /** Whether the lower-cased type byte is among the lower-cased allowed types (the LINQ `Where(...).Any()`). */
    method IsValidMessageType(messageType: uint8, allowedMessageTypes: Bytes) returns (found: bool)
      ensures found <==> messageType in ToLowerInvariant(allowedMessageTypes)
    {
      var lowered := ToLowerInvariant(allowedMessageTypes);
      found := false;
      var j := 0;
      while j < |allowedMessageTypes|
        invariant 0 <= j <= |allowedMessageTypes|
        invariant found <==> messageType in lowered[..j]
      {
        assert lowered[..j + 1] == lowered[..j] + [LowerAscii(allowedMessageTypes[j])];
        if LowerAscii(allowedMessageTypes[j]) == messageType {
          found := true;
        }
        j := j + 1;
      }
      assert lowered[..j] == lowered;
    }

    /** ReadStringMessage: outcome and buffer as DecodeStringMessage and AfterStringMessage say. */
    method ReadStringMessage(bytes: array<uint8>, length: int32, allowedMessageTypes: Bytes) returns (r: Result<StringMessage>)
      requires length <= bytes.Length
      modifies bytes
      ensures r == DecodeStringMessage(hostIsLittleEndian, old(bytes[..]), length, allowedMessageTypes)
      ensures bytes[..] == AfterStringMessage(hostIsLittleEndian, old(bytes[..]), length, allowedMessageTypes)
    {
      ghost var before := bytes[..];
      if !(bytes.Length > 0) || length <= 0 {
        return Err(ProtocolError("message content required"));
      }
      var messageType := LowerAscii(bytes[0]);
      var valid := IsValidMessageType(messageType, allowedMessageTypes);
      if !valid {
        return Err(ProtocolError("unknown message type"));
      }
      if length < 5 {
        return Err(ProtocolError("invalid length length"));
      }
      if hostIsLittleEndian {
        ArrayReverse(bytes, 1, 4);
      }
      HostReadAfterReversal(hostIsLittleEndian, before, 1);
      var messageLength := HostInt32At(hostIsLittleEndian, bytes[..], 1);
      if messageType == CharToByte('x') && length == 5 && messageLength == 4 {
        return Ok(Terminate);
      }
      if length as int != messageLength as int + 1 {
        return Err(ProtocolError("message length incorrect"));
      }
      if bytes[length - 1] != 0 {
        return Err(ProtocolError("message format incorrect"));
      }
      if messageLength < 5 {
        return Err(ArgumentOutOfRange);
      }
      ReverseRangeKeepsTail(before, 1, 4, 5);
      assert bytes[5..messageLength] == bytes[5..][..messageLength - 5];
      assert before[5..messageLength] == before[5..][..messageLength - 5];
      r := Ok(Text(bytes[5..messageLength]));
    }

    /** ReadPassword: a string message of type 'p'. */
    method ReadPassword(bytes: array<uint8>, length: int32) returns (r: Result<StringMessage>)
      requires length <= bytes.Length
      modifies bytes
      ensures r == DecodePassword(hostIsLittleEndian, old(bytes[..]), length)
      ensures bytes[..] == AfterStringMessage(hostIsLittleEndian, old(bytes[..]), length, PasswordTypes)
    {
      r := ReadStringMessage(bytes, length, PasswordTypes);
    }

    /** ReadQuery: a string message of type 'q', or 'x' for Terminate. */
    method ReadQuery(bytes: array<uint8>, length: int32) returns (r: Result<StringMessage>)
      requires length <= bytes.Length
      modifies bytes
      ensures r == DecodeQuery(hostIsLittleEndian, old(bytes[..]), length)
      ensures bytes[..] == AfterStringMessage(hostIsLittleEndian, old(bytes[..]), length, QueryTypes)
    {
      r := ReadStringMessage(bytes, length, QueryTypes);
    }

    // -------------------------------------------------------------------------
    // Encoders (lines 316-379): each builds its message in a WireOutputMemoryStream
    // and returns the bytes it hands to the output stream in one Write.
    // -------------------------------------------------------------------------

    /** SendStatusMessage with an int status: type, length 8, status. */
    method SendStatusMessageInt(messageType: uint8, status: int32) returns (wire: Bytes)
      ensures wire == StatusMessageInt(messageType, status)
    {
      var wireOutput := new WireOutputMemoryStream(hostIsLittleEndian);
      wireOutput.stream.WriteByte(messageType);
      assert wireOutput.stream.contents == [messageType];
      wireOutput.stream.WriteInt32(8);
      assert wireOutput.stream.contents == [messageType] + Int32BE(8);
      wireOutput.stream.WriteInt32(status);
      wire := wireOutput.stream.contents;
    }

    /** SendStatusMessage with a char status: type, length 5, status byte. */
    method SendStatusMessageChar(messageType: uint8, message: uint8) returns (wire: Bytes)
      ensures wire == StatusMessageChar(messageType, message)
    {
      var wireOutput := new WireOutputMemoryStream(hostIsLittleEndian);
      wireOutput.stream.WriteByte(messageType);
      assert wireOutput.stream.contents == [messageType];
      wireOutput.stream.WriteInt32(5);
      assert wireOutput.stream.contents == [messageType] + Int32BE(5);
      wireOutput.stream.WriteByte(message);
      wire := wireOutput.stream.contents;
    }

    /** SendStatusMessage with a string: type, length, the bytes, a zero byte. */
    method SendStatusMessageString(messageType: uint8, message: Bytes) returns (wire: Bytes)
      ensures wire == StatusMessageString(messageType, message)
    {
      var wireOutput := new WireOutputMemoryStream(hostIsLittleEndian);
      wireOutput.stream.WriteByte(messageType);
      assert wireOutput.stream.contents == [messageType];
      wireOutput.stream.WriteInt32(WrapInt32(4 + |message| + 1));
      assert wireOutput.stream.contents == [messageType] + Int32BE(WrapInt32(4 + |message| + 1));
      wireOutput.stream.WriteBytes(message);
      assert wireOutput.stream.contents == [messageType] + Int32BE(WrapInt32(4 + |message| + 1)) + message;
      wireOutput.WriteZeroByte();
      wire := wireOutput.stream.contents;
    }

    /** SendParameterStatusMessage: 'S', length, the name and the value, each zero-terminated. */
    method SendParameterStatusMessage(parameterName: Bytes, parameterValue: Bytes) returns (wire: Bytes)
      ensures wire == ParameterStatusMessage(parameterName, parameterValue)
    {
      var wireOutput := new WireOutputMemoryStream(hostIsLittleEndian);
      wireOutput.stream.WriteByte(CharToByte('S'));
      assert wireOutput.stream.contents == [CharToByte('S')];
      wireOutput.stream.WriteInt32(WrapInt32(4 + |parameterName| + 1 + |parameterValue| + 1));
      assert wireOutput.stream.contents == [CharToByte('S')] + Int32BE(WrapInt32(4 + |parameterName| + 1 + |parameterValue| + 1));
      wireOutput.stream.WriteBytes(parameterName);
      assert wireOutput.stream.contents == [CharToByte('S')] + Int32BE(WrapInt32(4 + |parameterName| + 1 + |parameterValue| + 1)) + parameterName;
      wireOutput.WriteZeroByte();
      assert wireOutput.stream.contents == [CharToByte('S')] + Int32BE(WrapInt32(4 + |parameterName| + 1 + |parameterValue| + 1)) + parameterName + [0];
      wireOutput.stream.WriteBytes(parameterValue);
      assert wireOutput.stream.contents == [CharToByte('S')] + Int32BE(WrapInt32(4 + |parameterName| + 1 + |parameterValue| + 1)) + parameterName + [0] + parameterValue;
      wireOutput.WriteZeroByte();
      wire := wireOutput.stream.contents;
    }

    /** SendBackendKeyData: 'K', length 12, the process id, the constant secret key. */
    method SendBackendKeyData() returns (wire: Bytes)
      ensures wire == BackendKeyDataMessage(processId)
    {
      var wireOutput := new WireOutputMemoryStream(hostIsLittleEndian);
      wireOutput.stream.WriteByte(CharToByte('K'));
      assert wireOutput.stream.contents == [CharToByte('K')];
      wireOutput.stream.WriteInt32(12);
      assert wireOutput.stream.contents == [CharToByte('K')] + Int32BE(12);
      wireOutput.stream.WriteInt32(processId);
      assert wireOutput.stream.contents == [CharToByte('K')] + Int32BE(12) + Int32BE(processId);
      wireOutput.stream.WriteUInt32(BackendSecretKey);
      wire := wireOutput.stream.contents;
    }

    method SendClearTextAuthenticationRequest() returns (wire: Bytes)
      ensures wire == AuthenticationCleartextPassword()
    {
      wire := SendStatusMessageInt(CharToByte('R'), 3);
    }

    method SendReadyForQuery() returns (wire: Bytes)
      ensures wire == ReadyForQuery()
    {
      wire := SendStatusMessageChar(CharToByte('Z'), CharToByte('I'));
    }

    // -------------------------------------------------------------------------
    // Result sets (lines 381-515)
    // -------------------------------------------------------------------------

    /** CreateColumnHeader: the header ColumnHeader describes, or the missing Mapping entry. */
    method CreateColumnHeader(column: Column, ordinal: nat) returns (r: Result<Bytes>)
      ensures r == ColumnHeader(column, ordinal)
    {
      var postgresTypeInformation: PostgresTypeInformation;
      if column.typeInformation.Some? {
        postgresTypeInformation := column.typeInformation.value;
      } else if column.dataType in Mapping {
        postgresTypeInformation := Mapping[column.dataType];
      } else {
        return Err(MissingTypeMapping);
      }
      var tableId := column.tableId.GetOr(0);
      var columnId := WrapInt16(ordinal + 1);
      var dataTypeId := postgresTypeInformation.Oid();
      var dataTypeSize := WrapInt16(postgresTypeInformation.size.GetOr(4));
      var typeModifier := -1;
      var formatCode := 0;
      var wireOutput := new WireOutputMemoryStream(hostIsLittleEndian);
      wireOutput.stream.WriteBytes(column.name);
      assert wireOutput.stream.contents == column.name;
      wireOutput.WriteZeroByte();
      assert wireOutput.stream.contents == column.name + [0];
      wireOutput.stream.WriteInt32(tableId);
      assert wireOutput.stream.contents == column.name + [0] + Int32BE(tableId);
      wireOutput.stream.WriteInt16(columnId);
      assert wireOutput.stream.contents == column.name + [0] + Int32BE(tableId) + Int16BE(columnId);
      wireOutput.stream.WriteUInt32(dataTypeId);
      assert wireOutput.stream.contents == column.name + [0] + Int32BE(tableId) + Int16BE(columnId) + UInt32BE(dataTypeId);
      wireOutput.stream.WriteInt16(dataTypeSize);
      assert wireOutput.stream.contents == column.name + [0] + Int32BE(tableId) + Int16BE(columnId) + UInt32BE(dataTypeId) + Int16BE(dataTypeSize);
      wireOutput.stream.WriteInt32(typeModifier);
      assert wireOutput.stream.contents == column.name + [0] + Int32BE(tableId) + Int16BE(columnId) + UInt32BE(dataTypeId) + Int16BE(dataTypeSize) + Int32BE(typeModifier);
      wireOutput.stream.WriteInt16(formatCode);
      assert TypeInformationOf(column) == Ok(postgresTypeInformation);
      r := Ok(wireOutput.stream.contents);
    }

    /** One cell of a DataRow: -1 for null, else the byte count and the bytes of the string or of its ToString. */
    method WriteCell(cells: WireOutputMemoryStream, cell: Cell)
      requires !cells.stream.IsLittleEndian
      modifies cells.stream
      ensures cells.stream.contents == old(cells.stream.contents) + CellBytes(cell)
    {
      if cell.Null? {
        cells.stream.WriteInt32(-1);
      } else if cell.Str? {
        var cellContent := cell.s;
        assert CellBytes(cell) == Int32BE(WrapInt32(|cellContent|)) + cellContent;
        cells.stream.WriteInt32(WrapInt32(|cellContent|));
        cells.stream.WriteBytes(cellContent);
        ConcatAssociative(old(cells.stream.contents), Int32BE(WrapInt32(|cellContent|)), cellContent);
      } else {
        var cellContentBytes := DisplayText(cell);
        assert CellBytes(cell) == Int32BE(WrapInt32(|cellContentBytes|)) + cellContentBytes;
        cells.stream.WriteInt32(WrapInt32(|cellContentBytes|));
        cells.stream.WriteBytes(cellContentBytes);
        ConcatAssociative(old(cells.stream.contents), Int32BE(WrapInt32(|cellContentBytes|)), cellContentBytes);
      }
    }

    /** The cells of a row, in column order. */
    method RowCells(row: seq<Cell>) returns (cells: Bytes)
      ensures cells == CellsBytes(row)
    {
      var output := new WireOutputMemoryStream(hostIsLittleEndian);
      var k := 0;
      while k < |row|
        invariant 0 <= k <= |row|
        invariant output.stream.contents == CellsBytes(row[..k])
      {
        assert row[..k + 1][..k] == row[..k];
        WriteCell(output, row[k]);
        k := k + 1;
      }
      assert row[..k] == row;
      cells := output.stream.contents;
    }

    /** The foreach over the columns in SendResult: their headers one after another, or the first missing Mapping entry. */
    method CreateColumnHeaders(columns: seq<Column>) returns (r: Result<Bytes>)
      ensures r == ColumnHeaders(columns)
    {
      var columnHeaders := new WireOutputMemoryStream(hostIsLittleEndian);
      var i := 0;
      while i < |columns|
        invariant 0 <= i <= |columns|
        invariant ColumnHeaders(columns[..i]) == Ok(columnHeaders.stream.contents)
      {
        var header := CreateColumnHeader(columns[i], i);
        assert columns[..i + 1][..i] == columns[..i];
        if header.Err? {
          ColumnHeadersResolve(columns);
          ColumnHeadersFailOnlyOnMissingMapping(columns);
          assert !TypeInformationOf(columns[i]).Ok?;
          return Err(header.error);
        }
        columnHeaders.stream.WriteBytes(header.value);
        i := i + 1;
      }
      assert columns[..i] == columns;
      r := Ok(columnHeaders.stream.contents);
    }

    /** The RowDescription SendResult writes: 'T', the length, the column count, the headers. */
    method CreateRowDescription(columnCount: nat, columnHeaders: Bytes) returns (wire: Bytes)
      ensures wire == RowDescription(columnCount, columnHeaders)
    {
      var header := new WireOutputMemoryStream(hostIsLittleEndian);
      header.stream.WriteBytes([CharToByte('T')]);
      assert header.stream.contents == [CharToByte('T')];
      header.stream.WriteInt32(WrapInt32(4 + 2 + |columnHeaders|));
      assert header.stream.contents == [CharToByte('T')] + Int32BE(WrapInt32(4 + 2 + |columnHeaders|));
      header.stream.WriteInt16(WrapInt16(columnCount));
      assert header.stream.contents == [CharToByte('T')] + Int32BE(WrapInt32(4 + 2 + |columnHeaders|)) + Int16BE(WrapInt16(columnCount));
      header.stream.WriteBytes(columnHeaders);
      wire := header.stream.contents;
    }

    /** The DataRow SendResult writes for a row: 'D', the length, the item count, the cells. */
    method CreateDataRow(row: seq<Cell>) returns (wire: Bytes)
      ensures wire == DataRow(row)
    {
      var cells := RowCells(row);
      var rowOutput := new WireOutputMemoryStream(hostIsLittleEndian);
      rowOutput.stream.WriteByte(CharToByte('D'));
      assert rowOutput.stream.contents == [CharToByte('D')];
      rowOutput.stream.WriteInt32(WrapInt32(4 + 2 + |cells|));
      assert rowOutput.stream.contents == [CharToByte('D')] + Int32BE(WrapInt32(4 + 2 + |cells|));
      rowOutput.stream.WriteInt16(WrapInt16(|row|));
      assert rowOutput.stream.contents == [CharToByte('D')] + Int32BE(WrapInt32(4 + 2 + |cells|)) + Int16BE(WrapInt16(|row|));
      rowOutput.stream.WriteBytes(cells);
      wire := rowOutput.stream.contents;
    }

    /** The foreach over the rows in SendResult: one DataRow per row, each in its own write. */
    method SendDataRows(outputStream: NetworkStream, rows: seq<seq<Cell>>)
      modifies outputStream
      ensures outputStream.incoming == old(outputStream.incoming) && outputStream.closed == old(outputStream.closed)
      ensures outputStream.written == old(outputStream.written) + DataRows(rows)
    {
      var j := 0;
      while j < |rows|
        invariant 0 <= j <= |rows|
        invariant outputStream.written == old(outputStream.written) + DataRows(rows[..j])
        invariant outputStream.incoming == old(outputStream.incoming) && outputStream.closed == old(outputStream.closed)
      {
        var rowOutput := CreateDataRow(rows[j]);
        outputStream.Write(rowOutput);
        DataRowsStep(rows, j);
        ConcatAssociative(old(outputStream.written), DataRows(rows[..j]), rowOutput);
        j := j + 1;
      }
      assert rows[..j] == rows;
    }

    /**
      SendResult: RowDescription, one DataRow per row, CommandComplete, each in its own
      write. A column without a type descriptor fails the result before anything is written.
     */
    method SendResult(outputStream: NetworkStream, data: Table, commandCompleteMessage: string) returns (r: Result<()>)
      modifies outputStream
      ensures outputStream.incoming == old(outputStream.incoming) && outputStream.closed == old(outputStream.closed)
      ensures r.Ok? <==> ResultMessages(data, commandCompleteMessage).Ok?
      ensures r.Ok? ==> outputStream.written == old(outputStream.written) + ResultMessages(data, commandCompleteMessage).value
      ensures r.Err? ==> outputStream.written == old(outputStream.written) && r.error == MissingTypeMapping
    {
      var columnHeaders := CreateColumnHeaders(data.columns);
      if columnHeaders.Err? {
        ColumnHeadersFailOnlyOnMissingMapping(data.columns);
        return Err(columnHeaders.error);
      }
      var header := CreateRowDescription(|data.columns|, columnHeaders.value);
      outputStream.Write(header);
      SendDataRows(outputStream, data.rows);
      var complete := SendStatusMessageString(CharToByte('C'), Ascii("SELECT 0"));
      outputStream.Write(complete);
      ConcatAssociative(old(outputStream.written), header, DataRows(data.rows));
      ConcatAssociative(old(outputStream.written), header + DataRows(data.rows), complete);
      assert ResultMessages(data, commandCompleteMessage) == Ok(header + DataRows(data.rows) + CommandComplete());
      r := Ok(());
    }

    /** SendTransactionIsolationState: SendResult of the table CannedTable gives. */
    method SendTransactionIsolationState(outputStream: NetworkStream)
      modifies outputStream
      ensures outputStream.incoming == old(outputStream.incoming) && outputStream.closed == old(outputStream.closed)
      ensures outputStream.written == old(outputStream.written) + CannedReply(TransactionIsolation)
    {
      CannedRepliesEncode(TransactionIsolation);
      var r := SendResult(outputStream, CannedTable(TransactionIsolation), CannedTag(TransactionIsolation));
    }

    /** SendOidTypeQueryResult: SendResult of the table CannedTable gives. */
    method SendOidTypeQueryResult(outputStream: NetworkStream)
      modifies outputStream
      ensures outputStream.incoming == old(outputStream.incoming) && outputStream.closed == old(outputStream.closed)
      ensures outputStream.written == old(outputStream.written) + CannedReply(OidTypeQuery)
    {
      CannedRepliesEncode(OidTypeQuery);
      var r := SendResult(outputStream, CannedTable(OidTypeQuery), CannedTag(OidTypeQuery));
    }

    /** SendStaticResult: SendResult of the table CannedTable gives. */
    method SendStaticResult(outputStream: NetworkStream)
      modifies outputStream
      ensures outputStream.incoming == old(outputStream.incoming) && outputStream.closed == old(outputStream.closed)
      ensures outputStream.written == old(outputStream.written) + CannedReply(StaticResult)
    {
      CannedRepliesEncode(StaticResult);
      var r := SendResult(outputStream, CannedTable(StaticResult), CannedTag(StaticResult));
    }

    // -------------------------------------------------------------------------
    // HandleRequest (lines 53-201), one read at a time
    // -------------------------------------------------------------------------

    /** The ParameterStatus messages of the welcome burst, one SendParameterStatusMessage after another. */
    method SendServerParameters(settings: seq<(Bytes, Bytes)>) returns (wire: Bytes)
      ensures wire == ParameterStatusMessages(settings)
    {
      wire := [];
      var i := 0;
      while i < |settings|
        invariant 0 <= i <= |settings|
        invariant wire == ParameterStatusMessages(settings[..i])
      {
        assert settings[..i + 1][..i] == settings[..i];
        var message := SendParameterStatusMessage(settings[i].0, settings[i].1);
        wire := wire + message;
        i := i + 1;
      }
      assert settings[..i] == settings;
    }

    /**
      The startup message in the buffer (lines 79-89): decoded, then answered with the
      request for a clear-text password. A CancelRequest noticed here has no effect.
     */
    method AnswerStartup(client: NetworkStream, bytes: array<uint8>, length: int32) returns (progress: Progress, parameters: map<Bytes, Bytes>)
      requires bytes.Length == ReceiveBufferSize
      modifies client, bytes
      ensures client.incoming == old(client.incoming) && client.closed == old(client.closed)
      ensures Answered(StartupStep(hostIsLittleEndian, old(bytes[..]), length), old(client.written), client.written,
                       progress, AwaitingPassword(parameters, bytes[..]))
    {
      var startupMessageContent := ReadStartupMessage(bytes, length);
      if startupMessageContent.Err? {
        return Finished, map[];
      }
      var request := SendClearTextAuthenticationRequest();
      client.Write(request);
      progress, parameters := Proceed, startupMessageContent.value;
    }

    /** The first read (lines 63-73): an 8-byte read is an SSLRequest, refused with 'N'; anything else is the startup message. */
    method OpeningRead(client: NetworkStream, bytes: array<uint8>)
        returns (progress: Progress, probed: bool, parameters: map<Bytes, Bytes>, ghost next: Phase)
      requires bytes.Length == ReceiveBufferSize && bytes[..] == EmptyBuffer()
      modifies client, bytes
      ensures client.closed == old(client.closed)
      ensures Served(hostIsLittleEndian, processId, Connected, old(client.incoming), client.incoming,
                     old(client.written), client.written, progress, next, bytes[..])
      ensures progress == Proceed ==> if probed then next.AwaitingStartup? else next == AwaitingPassword(parameters, bytes[..])
    {
      var bytesReceived := client.Read(bytes);
      if bytesReceived.Blocked? {
        return Waiting, false, map[], Connected;
      }
      if bytesReceived.ReadFailed? {
        return Finished, false, map[], Connected;
      }
      progress, probed, parameters, next := AnswerOpening(client, bytes, bytesReceived.n, old(client.incoming)[0].data);
    }

    /** The first message in the buffer: an SSLRequest if it is 8 bytes long, else the startup message. */
    method AnswerOpening(client: NetworkStream, bytes: array<uint8>, length: int32, ghost d: Chunk)
        returns (progress: Progress, probed: bool, parameters: map<Bytes, Bytes>, ghost next: Phase)
      requires bytes.Length == ReceiveBufferSize && bytes[..] == Receive(EmptyBuffer(), d) && length == |d|
      modifies client, bytes
      ensures client.incoming == old(client.incoming) && client.closed == old(client.closed)
      ensures Answered(FirstStep(hostIsLittleEndian, d), old(client.written), client.written, progress, next)
      ensures progress == Proceed ==>
                if probed then next == AwaitingStartup(bytes[..]) else next == AwaitingPassword(parameters, bytes[..])
    {
      if length == 8 {
        var ssl := ReadSSLNegoPackage(bytes, 8);
        if ssl.Err? {
          return Finished, false, map[], Connected;
        }
        client.Write([CharToByte('N')]);
        return Proceed, true, map[], AwaitingStartup(bytes[..]);
      }
      progress, parameters := AnswerStartup(client, bytes, length);
      probed, next := false, AwaitingPassword(parameters, bytes[..]);
    }

    /** The read of the startup message after the SSL refusal (line 72). */
    method StartupRead(client: NetworkStream, bytes: array<uint8>, ghost phase: Phase)
        returns (progress: Progress, parameters: map<Bytes, Bytes>, ghost next: Phase)
      requires bytes.Length == ReceiveBufferSize && phase == AwaitingStartup(bytes[..])
      modifies client, bytes
      ensures client.closed == old(client.closed)
      ensures Served(hostIsLittleEndian, processId, phase, old(client.incoming), client.incoming,
                     old(client.written), client.written, progress, next, bytes[..])
      ensures progress == Proceed ==> next == AwaitingPassword(parameters, bytes[..])
    {
      var bytesReceived := client.Read(bytes);
      if bytesReceived.Blocked? {
        return Waiting, map[], phase;
      }
      if bytesReceived.ReadFailed? {
        return Finished, map[], phase;
      }
      progress, parameters := AnswerStartup(client, bytes, bytesReceived.n);
      next := AwaitingPassword(parameters, bytes[..]);
    }

    /**
      The password read (lines 91-98): an empty read ends the session (the client
      reconnects to send the password); otherwise it is answered by AnswerPassword.
     */
    method PasswordRead(client: NetworkStream, bytes: array<uint8>, startupMessageContent: map<Bytes, Bytes>, ghost phase: Phase)
        returns (progress: Progress)
      requires bytes.Length == ReceiveBufferSize && phase == AwaitingPassword(startupMessageContent, bytes[..])
      modifies client, bytes
      ensures client.closed == old(client.closed)
      ensures Served(hostIsLittleEndian, processId, phase, old(client.incoming), client.incoming,
                     old(client.written), client.written, progress, Querying(bytes[..]), bytes[..])
    {
      var bytesReceived := client.Read(bytes);
      if bytesReceived.Blocked? {
        return Waiting;
      }
      if bytesReceived.ReadFailed? || bytesReceived.n == 0 {
        return Finished;
      }
      ghost var d := old(client.incoming)[0].data;
      progress := AnswerPassword(client, bytes, bytesReceived.n, startupMessageContent, phase.buffer, d);
    }

    /**
      The password in the buffer and the welcome (lines 98-134): any password is
      accepted, and AuthenticationOk, the parameters and the backend key go out in one
      write before ReadyForQuery.
     */
    method AnswerPassword(client: NetworkStream, bytes: array<uint8>, length: int32, startupMessageContent: map<Bytes, Bytes>,
                          ghost buffer: Buffer, ghost d: Chunk)
        returns (progress: Progress)
      requires bytes.Length == ReceiveBufferSize && bytes[..] == Receive(buffer, d) && length == |d| > 0
      modifies client, bytes
      ensures Answered(PasswordStep(hostIsLittleEndian, processId, startupMessageContent, buffer, d), old(client.written), client.written,
                       progress, Querying(bytes[..]))
      ensures client.incoming == old(client.incoming) && client.closed == old(client.closed)
      ensures bytes[..] == AfterStringMessage(hostIsLittleEndian, old(bytes[..]), length, PasswordTypes)
      ensures var password := DecodePassword(hostIsLittleEndian, old(bytes[..]), length);
              progress != Waiting && (progress == Proceed <==> password.Ok?) &&
              client.written == old(client.written) + (if password.Ok? then Welcome(startupMessageContent, processId) + ReadyForQuery() else [])
    {
      var password := ReadPassword(bytes, length);
      if password.Err? {
        return Finished;
      }
      var combinedOutput := SendStatusMessageInt(CharToByte('R'), 0);
      var parameterStatus := SendServerParameters(ServerParameters(startupMessageContent));
      var backendKeyData := SendBackendKeyData();
      combinedOutput := combinedOutput + parameterStatus + backendKeyData;
      assert combinedOutput == Welcome(startupMessageContent, processId);
      client.Write(combinedOutput);
      var ready := SendReadyForQuery();
      client.Write(ready);
      ConcatAssociative(old(client.written), combinedOutput, ready);
      progress := Proceed;
    }

    /** One pass of the query loop (lines 137-188): a read, answered by AnswerQuery. */
    method QueryRead(client: NetworkStream, bytes: array<uint8>, ghost phase: Phase) returns (progress: Progress)
      requires bytes.Length == ReceiveBufferSize && phase == Querying(bytes[..])
      modifies client, bytes
      ensures client.closed == old(client.closed)
      ensures Served(hostIsLittleEndian, processId, phase, old(client.incoming), client.incoming,
                     old(client.written), client.written, progress, Querying(bytes[..]), bytes[..])
    {
      var bytesReceived := client.Read(bytes);
      if bytesReceived.Blocked? {
        return Waiting;
      }
      if bytesReceived.ReadFailed? {
        return Finished;
      }
      ghost var d := old(client.incoming)[0].data;
      progress := AnswerQuery(client, bytes, bytesReceived.n, phase.buffer, d);
    }

    /**
      The message in the buffer during the query loop (lines 142-187): a CancelRequest is
      skipped, Terminate ends the loop, a query gets its canned result, and a message that
      fails to decode gets nothing (its exception is caught); all but the first two are
      followed by ReadyForQuery.
     */
    method AnswerQuery(client: NetworkStream, bytes: array<uint8>, length: int32, ghost buffer: Buffer, ghost d: Chunk)
        returns (progress: Progress)
      requires bytes.Length == ReceiveBufferSize && bytes[..] == Receive(buffer, d) && length == |d|
      modifies client, bytes
      ensures Answered(QueryStep(hostIsLittleEndian, buffer, d), old(client.written), client.written, progress, Querying(bytes[..]))
      ensures client.incoming == old(client.incoming) && client.closed == old(client.closed)
      ensures progress != Waiting
      ensures IsCancelRequest(hostIsLittleEndian, old(bytes[..]), length) ==>
                progress == Proceed && client.written == old(client.written) && bytes[..] == old(bytes[..])
      ensures !IsCancelRequest(hostIsLittleEndian, old(bytes[..]), length) ==>
                var decoded := DecodeQuery(hostIsLittleEndian, old(bytes[..]), length);
                bytes[..] == AfterStringMessage(hostIsLittleEndian, old(bytes[..]), length, QueryTypes) &&
                (progress == Finished <==> decoded == Ok(Terminate)) &&
                client.written == old(client.written) + (if decoded == Ok(Terminate) then [] else Reply(decoded) + ReadyForQuery())
    {
      if length == 16 && HostInt32At(hostIsLittleEndian, bytes[..], 0) == 16 &&
         HostInt32At(hostIsLittleEndian, bytes[..], 4) == CancelRequestCode {
        return Proceed;
      }
      var data := ReadQuery(bytes, length);
      if data == Ok(Terminate) {
        return Finished;
      }
      ghost var reply := [];
      if data.Ok? {
        SendQueryResult(client, data.value.content);
        reply := CannedReply(Dispatch(data.value.content));
      }
      assert reply == Reply(data);
      var ready := SendReadyForQuery();
      client.Write(ready);
      ConcatAssociative(old(client.written), reply, ready);
      progress := Proceed;
    }

    /** The canned result a query is answered with (lines 160-176). */
    method SendQueryResult(client: NetworkStream, data: Bytes)
      modifies client
      ensures client.incoming == old(client.incoming) && client.closed == old(client.closed)
      ensures client.written == old(client.written) + CannedReply(Dispatch(data))
    {
      var kind := Dispatch(data);
      if kind == TransactionIsolation {
        SendTransactionIsolationState(client);
      } else if kind == OidTypeQuery {
        SendOidTypeQueryResult(client);
      } else {
        SendStaticResult(client);
      }
    }

    /**
      The handshake (lines 63-134): the opening read, the startup read after an SSL
      refusal, and the password read. It either leaves the session in the query loop,
      with the written bytes in step with Session, or ends it.
     */
    method Handshake(client: NetworkStream, bytes: array<uint8>, ghost start: Bytes, ghost total: Outcome)
        returns (progress: Progress, ghost phase: Phase)
      requires bytes.Length == ReceiveBufferSize && bytes[..] == EmptyBuffer()
      requires client.written == start && total == Session(hostIsLittleEndian, processId, client.incoming)
      modifies client, bytes
      ensures client.closed == old(client.closed)
      ensures progress == Proceed ==>
                phase == Querying(bytes[..]) && Tracks(hostIsLittleEndian, processId, start, total, client.written, phase, client.incoming)
      ensures progress != Proceed ==> Ended(start, total, client.written, progress)
    {
      ghost var incoming, written := client.incoming, client.written;
      var probed, startupMessageContent;
      progress, probed, startupMessageContent, phase := OpeningRead(client, bytes);
      ServedRuns(hostIsLittleEndian, processId, Connected, incoming, client.incoming, written, client.written,
                 progress, phase, bytes[..], start, total);
      if progress == Proceed && probed {
        incoming, written := client.incoming, client.written;
        ghost var startupPhase := phase;
        progress, startupMessageContent, phase := StartupRead(client, bytes, startupPhase);
        ServedRuns(hostIsLittleEndian, processId, startupPhase, incoming, client.incoming, written, client.written,
                   progress, phase, bytes[..], start, total);
      }
      if progress == Proceed {
        incoming, written := client.incoming, client.written;
        ghost var passwordPhase := phase;
        progress := PasswordRead(client, bytes, startupMessageContent, passwordPhase);
        phase := Querying(bytes[..]);
        ServedRuns(hostIsLittleEndian, processId, passwordPhase, incoming, client.incoming, written, client.written,
                   progress, phase, bytes[..], start, total);
      }
    }

    /**
      Serves one connection: writes exactly what Session says for the client's reads, and
      closes the connection unless the reads ran out while the server was waiting.
     */
    method HandleRequest(client: NetworkStream)
      requires !client.closed
      modifies client
      ensures client.written == old(client.written) + Session(hostIsLittleEndian, processId, old(client.incoming)).output
      ensures client.closed <==> Closes(Session(hostIsLittleEndian, processId, old(client.incoming)))
    {
      ghost var total := Session(hostIsLittleEndian, processId, client.incoming);
      ghost var start := client.written;
      var bytes := new uint8[ReceiveBufferSize](i => 0);
      assert bytes[..] == EmptyBuffer();
      var progress, phase := Handshake(client, bytes, start, total);
      while progress == Proceed
        invariant !client.closed
        invariant progress == Proceed ==>
                    phase == Querying(bytes[..]) &&
                    Tracks(hostIsLittleEndian, processId, start, total, client.written, phase, client.incoming)
        invariant progress != Proceed ==> Ended(start, total, client.written, progress)
        decreases |client.incoming|, if progress == Proceed then 1 else 0
      {
        ghost var incoming, written := client.incoming, client.written;
        ghost var queryPhase := phase;
        progress := QueryRead(client, bytes, queryPhase);
        phase := Querying(bytes[..]);
        ServedRuns(hostIsLittleEndian, processId, queryPhase, incoming, client.incoming, written, client.written,
                   progress, phase, bytes[..], start, total);
      }
      if progress == Finished {
        client.Close();
      }
    }
  }

  /** How a read in a phase came out: it led to the next phase, it ended the session, or there was nothing to read. */
  datatype Progress = Proceed | Finished | Waiting

  /**
    The effect of one read in a phase, as Next describes it: the read consumed one
    delivery and wrote the step's output, and the buffer is that of the next phase; or
    there was nothing to read and nothing changed.
   */
  ghost predicate Served(hostIsLittleEndian: bool, processId: int32, phase: Phase, before: seq<Incoming>, after: seq<Incoming>,
                         writtenBefore: Bytes, writtenAfter: Bytes, progress: Progress, next: Phase, buffer: Bytes)
  {
    if progress == Waiting then before == [] && after == [] && writtenAfter == writtenBefore
    else
      before != [] && after == before[1..] &&
      Answered(Next(hostIsLittleEndian, processId, phase, before[0]), writtenBefore, writtenAfter, progress, next) &&
      (progress == Proceed ==> !next.Connected? && buffer == next.buffer)
  }

  /** A step was carried out: its output was written, and it went on to the next phase or ended the session, closing it. */
  ghost predicate Answered(s: Step, writtenBefore: Bytes, writtenAfter: Bytes, progress: Progress, next: Phase) {
    progress != Waiting && (progress == Proceed <==> s.Continue?) &&
    writtenAfter == writtenBefore + s.output &&
    (s.Continue? ==> s.next == next) &&
    (s.Stop? ==> s.end != AwaitingInput)
  }

  /** What is written so far, followed by what the rest of the session writes, is what the whole session writes. */
  ghost predicate Tracks(hostIsLittleEndian: bool, processId: int32, start: Bytes, total: Outcome, written: Bytes,
                         phase: Phase, chunks: seq<Incoming>)
  {
    var rest := Run(hostIsLittleEndian, processId, phase, chunks);
    start + total.output == written + rest.output && total.end == rest.end
  }

  /** The session is over: everything it writes has been written, and it closes unless it is waiting for input. */
  ghost predicate Ended(start: Bytes, total: Outcome, written: Bytes, progress: Progress) {
    written == start + total.output && (progress == Finished <==> Closes(total))
  }

  /** One served read keeps the written bytes in step with the session, or ends it. */
  lemma ServedRuns(hostIsLittleEndian: bool, processId: int32, phase: Phase, before: seq<Incoming>, after: seq<Incoming>,
                   writtenBefore: Bytes, writtenAfter: Bytes, progress: Progress, next: Phase, buffer: Bytes,
                   start: Bytes, total: Outcome)
    requires Served(hostIsLittleEndian, processId, phase, before, after, writtenBefore, writtenAfter, progress, next, buffer)
    requires Tracks(hostIsLittleEndian, processId, start, total, writtenBefore, phase, before)
    ensures progress == Proceed ==> Tracks(hostIsLittleEndian, processId, start, total, writtenAfter, next, after)
    ensures progress != Proceed ==> Ended(start, total, writtenAfter, progress)
  {
    if progress != Waiting {
      RunFirstRead(hostIsLittleEndian, processId, phase, before);
      StepTracks(start, total, writtenBefore, writtenAfter, progress, Next(hostIsLittleEndian, processId, phase, before[0]), next,
                 Run(hostIsLittleEndian, processId, phase, before), Run(hostIsLittleEndian, processId, next, after));
    }
  }

  /**
    The bookkeeping of ServedRuns for any step: if the session from a phase is the step
    followed by the session from the next phase, writing the step's output keeps the
    written bytes in step with the session, or ends it.
   */
  lemma StepTracks(start: Bytes, total: Outcome, writtenBefore: Bytes, writtenAfter: Bytes, progress: Progress,
                   s: Step, next: Phase, whole: Outcome, rest: Outcome)
    requires whole == if s.Continue? then Emit(s.output, rest) else Outcome(s.output, s.end)
    requires start + total.output == writtenBefore + whole.output && total.end == whole.end
    requires Answered(s, writtenBefore, writtenAfter, progress, next)
    ensures progress == Proceed ==> start + total.output == writtenAfter + rest.output && total.end == rest.end
    ensures progress != Proceed ==> Ended(start, total, writtenAfter, progress)
  {
    ConcatAssociative(writtenBefore, s.output, rest.output);
  }

  /** The session from a phase is the first read's step followed by the rest. */
  lemma RunFirstRead(hostIsLittleEndian: bool, processId: int32, phase: Phase, chunks: seq<Incoming>)
    requires chunks != []
    ensures var s := Next(hostIsLittleEndian, processId, phase, chunks[0]);
            Run(hostIsLittleEndian, processId, phase, chunks) ==
              if s.Continue? then Emit(s.output, Run(hostIsLittleEndian, processId, s.next, chunks[1..]))
              else Outcome(s.output, s.end)
  {
  }

  /** The DataRows of one more row: those of the rows before it, then its own. */
  lemma DataRowsStep(rows: seq<seq<Cell>>, j: nat)
    requires j < |rows|
    ensures DataRows(rows[..j + 1]) == DataRows(rows[..j]) + DataRow(rows[j])
  {
    assert rows[..j + 1][..j] == rows[..j];
  }

  /** The swap of the header ints leaves every byte from offset 8 on as it was. */
  lemma SwapHeaderKeepsBody(b: Bytes)
    requires 8 <= |b|
    ensures forall k :: 8 <= k < |b| ==> SwapHeader(b)[k] == b[k]
    ensures SwapHeader(b)[8..] == b[8..]
  {
    forall k | 8 <= k < |b|
      ensures SwapHeader(b)[k] == b[k]
    {
      ReverseRangeOutside(b, 0, 4, k);
      ReverseRangeOutside(ReverseRange(b, 0, 4), 4, 4, k);
    }
  }

  /** Reversing a range leaves everything from an offset past it as it was. */
  lemma ReverseRangeKeepsTail(b: Bytes, index: nat, count: nat, from: nat)
    requires index + count <= from <= |b|
    ensures ReverseRange(b, index, count)[from..] == b[from..]
  {
    forall k | from <= k < |b|
      ensures ReverseRange(b, index, count)[k] == b[k]
    {
      ReverseRangeOutside(b, index, count, k);
    }
  }
}
