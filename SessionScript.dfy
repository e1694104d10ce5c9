/**
  What HandleRequest (WireServer.cs lines 53-201) does with one client connection, as a
  function of what the client's reads deliver: the bytes the server writes, in order, and
  how the connection ends.

  The connection goes through four phases, one read each until the query loop, which
  takes one read per pass. The receive buffer is a single 8192-byte array that every
  read overwrites from the start and that the decoders reverse in place on a
  little-endian host; the bytes past what a read delivered are left over from earlier
  reads, so each phase carries the buffer.
 */
module SessionScript {
  import opened Binary
  import opened Errors
  import opened Strings
  import opened Framing
  import opened ResultSets
  import opened QueryDispatch

  /** What one read can deliver: at most the buffer's size. */
  type Chunk = d: Bytes | |d| <= 8192

  /** The receive buffer `new byte[8192]`. */
  type Buffer = b: Bytes | |b| == 8192 witness seq(8192, i => 0)

  /** The result of one `stream.Read`: the bytes received (none once the client has shut down), or an IOException. */
  datatype Incoming = Received(data: Chunk) | Broken

  /** Where the session is: what the next read is taken to be. */
  datatype Phase =
      /** The first read: an SSLRequest or the startup message. */
    | Connected
      /** The read of the startup message after the SSL refusal. */
    | AwaitingStartup(buffer: Buffer)
      /** The read of the password after the authentication request. */
    | AwaitingPassword(parameters: map<Bytes, Bytes>, buffer: Buffer)
      /** The query loop (lines 137-188). */
    | Querying(buffer: Buffer)

  datatype SessionEnd =
      /** The reads ran out: the server is waiting in `stream.Read` and the connection stays open. */
    | AwaitingInput
      /** A Terminate message ended the query loop. */
    | Terminated
      /** The read after the authentication request gave no bytes: the server returns (psql reconnects to send the password). */
    | ClientReconnects
      /** An exception during the handshake, caught by the outer handler. */
    | HandshakeFailed(error: Error)
      /** An IOException from `stream.Read`. */
    | ConnectionLost

  /** What one read leads to: output and the next phase, or output and the end of the session. */
  datatype Step = Continue(output: Bytes, next: Phase) | Stop(output: Bytes, end: SessionEnd)

  /** Everything written to the client, and how the session ended. */
  datatype Outcome = Outcome(output: Bytes, end: SessionEnd)

  /** Whether the session ends with the connection closed: every end but waiting for input runs the `finally`. */
  predicate Closes(o: Outcome) {
    o.end != AwaitingInput
  }

  /** The buffer after a read: the received bytes at the start, the rest as it was. */
  function Receive(buffer: Buffer, data: Chunk): (r: Buffer)
    ensures r[..|data|] == data && r[|data|..] == buffer[|data|..]
  {
    data + buffer[|data|..]
  }

  /** The receive buffer as allocated: all zero. */
  function EmptyBuffer(): (r: Buffer)
    ensures forall i :: 0 <= i < |r| ==> r[i] == 0
  {
    seq(8192, i => 0)
  }

  /** The output of a step followed by the rest of the session. */
  function Emit(prefix: Bytes, rest: Outcome): (r: Outcome)
    ensures r.output == prefix + rest.output && r.end == rest.end
  {
    Outcome(prefix + rest.output, rest.end)
  }

  /** The answer to an SSLRequest: 'N', SSL is not supported. */
  const SSLRefused: Bytes := [CharToByte('N')]

  // ---------------------------------------------------------------------------
  // The welcome burst (lines 101-131)
  // ---------------------------------------------------------------------------

  /** A startup parameter, or the value used when the client did not send it. */
  function Setting(parameters: map<Bytes, Bytes>, name: string, fallback: string): Bytes {
    if Ascii(name) in parameters then parameters[Ascii(name)] else Ascii(fallback)
  }

  /** The parameters reported after authentication, in the order they are sent (standard_conforming_strings twice). */
  function ServerParameters(parameters: map<Bytes, Bytes>): seq<(Bytes, Bytes)> {
    [(Ascii("application_name"), Setting(parameters, "application_name", "")),
     (Ascii("client_encoding"), Setting(parameters, "client_encoding", "UTF8")),
     (Ascii("DateStyle"), Ascii("ISO, DMY")),
     (Ascii("intervalStyle"), Ascii("postgres")),
     (Ascii("integer_datetimes"), Ascii("on")),
     (Ascii("is_superuser"), Ascii("off")),
     (Ascii("server_encoding"), Ascii("UTF8")),
     (Ascii("server_version"), Ascii("13.X")),
     (Ascii("session_authorization"), Ascii("postgres")),
     (Ascii("standard_conforming_strings"), Ascii("on")),
     (Ascii("TimeZone"), Ascii("Europe/London")),
     (Ascii("standard_conforming_strings"), Ascii("on"))]
  }

  function ParameterStatusMessages(settings: seq<(Bytes, Bytes)>): Bytes
    decreases |settings|
  {
    if settings == [] then []
    else ParameterStatusMessages(settings[..|settings| - 1]) + ParameterStatusMessage(settings[|settings| - 1].0, settings[|settings| - 1].1)
  }

  /** The burst sent in one write after the password: AuthenticationOk, the parameters, the backend key. */
  function Welcome(parameters: map<Bytes, Bytes>, processId: int32): Bytes {
    AuthenticationOk() + ParameterStatusMessages(ServerParameters(parameters)) + BackendKeyDataMessage(processId)
  }

  // ---------------------------------------------------------------------------
  // Replies in the query loop (lines 160-176)
  // ---------------------------------------------------------------------------

  /** The table of each canned result. */
  function CannedTable(c: CannedResult): Table {
    match c
    case TransactionIsolation => TransactionIsolationTable
    case OidTypeQuery => OidTypeQueryTable
    case StaticResult => StaticTable
  }

  /** The command tag each canned result passes to SendResult (which then sends "SELECT 0" regardless). */
  function CannedTag(c: CannedResult): string {
    match c
    case TransactionIsolation => "SHOW"
    case OidTypeQuery => "SELECT 0"
    case StaticResult => "SELECT 2"
  }

  /** What is written for a canned result; nothing if encoding fails (it never does). */
  function CannedReply(c: CannedResult): Bytes {
    match ResultMessages(CannedTable(c), CannedTag(c))
    case Ok(m) => m
    case Err(_) => []
  }

  /** What is written before ReadyForQuery for a decoded message: the reply to a query, nothing after an error. */
  function Reply(decoded: Result<StringMessage>): Bytes {
    match decoded
    case Ok(Text(query)) => CannedReply(Dispatch(query))
    case _ => []
  }

  // ---------------------------------------------------------------------------
  // The session
  // ---------------------------------------------------------------------------

  /** The startup message in the buffer: decoded, then answered with the request for a clear-text password. */
  function StartupStep(hostIsLittleEndian: bool, buffer: Buffer, length: int32): (r: Step)
    ensures r.Stop? ==> r.end != AwaitingInput
  {
    match DecodeStartupMessage(buffer, length)
    case Err(e) => Stop([], HandshakeFailed(e))
    case Ok(parameters) =>
      Continue(AuthenticationCleartextPassword(), AwaitingPassword(parameters, AfterStartupMessage(hostIsLittleEndian, buffer)))
  }

  /** The first read: an 8-byte read must be an SSLRequest, answered with 'N'; anything else is the startup message. */
  function FirstStep(hostIsLittleEndian: bool, d: Chunk): (r: Step)
    ensures r.Stop? ==> r.end != AwaitingInput
  {
    var b := Receive(EmptyBuffer(), d);
    if |d| == 8 then
      var probe := DecodeSSLNegoPackage(b, 8);
      if probe.Err? then Stop([], HandshakeFailed(probe.error))
      else Continue(SSLRefused, AwaitingStartup(AfterSSLNegoPackage(hostIsLittleEndian, b, 8)))
    else StartupStep(hostIsLittleEndian, b, |d|)
  }

  /** The password read: an empty read ends the session; a password message is accepted whatever it says. */
  function PasswordStep(hostIsLittleEndian: bool, processId: int32, parameters: map<Bytes, Bytes>, buffer: Buffer, d: Chunk): (r: Step)
    ensures r.Stop? ==> r.end != AwaitingInput
  {
    if |d| == 0 then Stop([], ClientReconnects)
    else
      var b := Receive(buffer, d);
      var password := DecodePassword(hostIsLittleEndian, b, |d|);
      if password.Err? then Stop([], HandshakeFailed(password.error))
      else Continue(Welcome(parameters, processId) + ReadyForQuery(),
                    Querying(AfterStringMessage(hostIsLittleEndian, b, |d|, PasswordTypes)))
  }

  /**
    One pass of the query loop: a CancelRequest is skipped without an answer, Terminate
    ends the session, and anything else gets its reply (none if it failed to decode)
    followed by ReadyForQuery.
   */
  function QueryStep(hostIsLittleEndian: bool, buffer: Buffer, d: Chunk): (r: Step)
    ensures r.Stop? ==> r.end != AwaitingInput
  {
    var b := Receive(buffer, d);
    if IsCancelRequest(hostIsLittleEndian, b, |d|) then Continue([], Querying(b))
    else
      var decoded := DecodeQuery(hostIsLittleEndian, b, |d|);
      if decoded == Ok(Terminate) then Stop([], Terminated)
      else Continue(Reply(decoded) + ReadyForQuery(), Querying(AfterStringMessage(hostIsLittleEndian, b, |d|, QueryTypes)))
  }

  /**
    One read in a phase. (A CancelRequest where the startup message is expected is
    noticed and ignored: it is then decoded as a startup message like anything else.)
   */
  function Next(hostIsLittleEndian: bool, processId: int32, phase: Phase, input: Incoming): (r: Step)
    ensures r.Stop? ==> r.end != AwaitingInput
  {
    match input
    case Broken => Stop([], ConnectionLost)
    case Received(d) =>
      match phase
      case Connected => FirstStep(hostIsLittleEndian, d)
      case AwaitingStartup(buffer) => StartupStep(hostIsLittleEndian, Receive(buffer, d), |d|)
      case AwaitingPassword(parameters, buffer) => PasswordStep(hostIsLittleEndian, processId, parameters, buffer, d)
      case Querying(buffer) => QueryStep(hostIsLittleEndian, buffer, d)
  }

  /** The session from a phase on, over the reads that follow. */
  function Run(hostIsLittleEndian: bool, processId: int32, phase: Phase, chunks: seq<Incoming>): Outcome
    decreases |chunks|
  {
    if chunks == [] then Outcome([], AwaitingInput)
    else
      match Next(hostIsLittleEndian, processId, phase, chunks[0])
      case Continue(output, next) => Emit(output, Run(hostIsLittleEndian, processId, next, chunks[1..]))
      case Stop(output, end) => Outcome(output, end)
  }

  /** The whole session of a connection. */
  function Session(hostIsLittleEndian: bool, processId: int32, chunks: seq<Incoming>): Outcome {
    Run(hostIsLittleEndian, processId, Connected, chunks)
  }

  // ---------------------------------------------------------------------------
  // Running the phases one after another
  // ---------------------------------------------------------------------------

  /** A step that continues writes its output and goes on with the rest of the reads. */
  lemma RunContinues(hostIsLittleEndian: bool, processId: int32, phase: Phase, input: Incoming, rest: seq<Incoming>)
    requires Next(hostIsLittleEndian, processId, phase, input).Continue?
    ensures var s := Next(hostIsLittleEndian, processId, phase, input);
            Run(hostIsLittleEndian, processId, phase, [input] + rest) ==
              Emit(s.output, Run(hostIsLittleEndian, processId, s.next, rest))
  {
    assert ([input] + rest)[0] == input && ([input] + rest)[1..] == rest;
  }

  /** A step that continues, followed by a known rest of the session: its output comes first. */
  lemma RunThen(hostIsLittleEndian: bool, processId: int32, phase: Phase, input: Incoming, rest: seq<Incoming>,
                output: Bytes, next: Phase, o: Outcome)
    requires Next(hostIsLittleEndian, processId, phase, input) == Continue(output, next)
    requires Run(hostIsLittleEndian, processId, next, rest) == o
    ensures Run(hostIsLittleEndian, processId, phase, [input] + rest) == Outcome(output + o.output, o.end)
  {
    RunContinues(hostIsLittleEndian, processId, phase, input, rest);
  }

  /** A step that stops ends the session there, whatever the client sends afterwards. */
  lemma RunStops(hostIsLittleEndian: bool, processId: int32, phase: Phase, input: Incoming, rest: seq<Incoming>)
    requires Next(hostIsLittleEndian, processId, phase, input).Stop?
    ensures var s := Next(hostIsLittleEndian, processId, phase, input);
            Run(hostIsLittleEndian, processId, phase, [input] + rest) == Outcome(s.output, s.end)
  {
    assert ([input] + rest)[0] == input;
  }

  /** The connection stays open only while the reads have not run out, and a failed read always closes it. */
  lemma RunClosesUnlessReadsRunOut(hostIsLittleEndian: bool, processId: int32, phase: Phase, chunks: seq<Incoming>)
    ensures Closes(Run(hostIsLittleEndian, processId, phase, chunks)) ==> chunks != []
    ensures Broken in chunks ==> Closes(Run(hostIsLittleEndian, processId, phase, chunks))
  {
    if Broken in chunks {
      BrokenReadCloses(hostIsLittleEndian, processId, phase, chunks);
    }
  }

  /** A failed read anywhere in the reads closes the connection, at that read or earlier. */
  lemma {:induction false} BrokenReadCloses(hostIsLittleEndian: bool, processId: int32, phase: Phase, chunks: seq<Incoming>)
    requires Broken in chunks
    ensures Closes(Run(hostIsLittleEndian, processId, phase, chunks))
    decreases |chunks|
  {
    var s := Next(hostIsLittleEndian, processId, phase, chunks[0]);
    if chunks[0] != Broken && s.Continue? {
      assert Broken in chunks[1..];
      BrokenReadCloses(hostIsLittleEndian, processId, s.next, chunks[1..]);
    }
  }

  // ---------------------------------------------------------------------------
  // The handshake, phase by phase
  // ---------------------------------------------------------------------------

  /** An SSLRequest as the first read is refused with 'N', and the startup message is read next. */
  lemma SSLProbeRefused(hostIsLittleEndian: bool)
    ensures var b := Receive(EmptyBuffer(), SSLRequest());
            FirstStep(hostIsLittleEndian, SSLRequest()) ==
              Continue(SSLRefused, AwaitingStartup(AfterSSLNegoPackage(hostIsLittleEndian, b, 8)))
  {
    SSLNegoAcceptsExactlyTheRequest(Receive(EmptyBuffer(), SSLRequest()), 8);
  }

  /** Any other 8-byte first read ends the session before anything is written. */
  lemma BadSSLProbeFails(hostIsLittleEndian: bool, probe: Bytes)
    requires |probe| == 8 && probe != SSLRequest()
    ensures FirstStep(hostIsLittleEndian, probe).Stop?
    ensures FirstStep(hostIsLittleEndian, probe).output == []
    ensures FirstStep(hostIsLittleEndian, probe).end.HandshakeFailed?
  {
    var b := Receive(EmptyBuffer(), probe);
    assert b[..8] == probe;
    SSLNegoAcceptsExactlyTheRequest(b, 8);
  }

  /**
    A startup message read into the buffer, whatever the buffer held before, is answered
    with the request for a clear-text password; its parameters, with the protocol
    version, are what the session keeps.
   */
  lemma StartupAnswered(hostIsLittleEndian: bool, buffer: Buffer, version: int32, parameters: seq<Bytes>)
    requires |parameters| >= 2 && |parameters| % 2 == 0
    requires forall k :: 0 <= k < |parameters| ==> 0 !in parameters[k]
    requires |StartupMessage(version, parameters)| <= ReceiveBufferSize
    ensures var m := StartupMessage(version, parameters);
            var b := Receive(buffer, m);
            StartupStep(hostIsLittleEndian, b, |m|) ==
              Continue(AuthenticationCleartextPassword(),
                       AwaitingPassword(ApplyPairs(map[ProtocolVersionKey := Ascii(IntToString(version))], parameters),
                                        AfterStartupMessage(hostIsLittleEndian, b)))
  {
    var m := StartupMessage(version, parameters);
    StartupRoundTrip(version, parameters, buffer[|m|..]);
  }

  /** An empty read where the password is expected ends the session after the password request. */
  lemma NoPasswordClientReconnects(hostIsLittleEndian: bool, processId: int32, parameters: map<Bytes, Bytes>, buffer: Buffer)
    ensures PasswordStep(hostIsLittleEndian, processId, parameters, buffer, []) == Stop([], ClientReconnects)
  {
  }

  /**
    A password message, whatever it says and whatever the buffer held, is accepted: the
    server sends AuthenticationOk, its parameters, the backend key and ReadyForQuery.
   */
  lemma PasswordAccepted(hostIsLittleEndian: bool, processId: int32, parameters: map<Bytes, Bytes>, buffer: Buffer, password: Bytes)
    requires |password| + 6 <= ReceiveBufferSize
    ensures var m := PasswordMessage(password);
            var b := Receive(buffer, m);
            PasswordStep(hostIsLittleEndian, processId, parameters, buffer, m) ==
              Continue(Welcome(parameters, processId) + ReadyForQuery(),
                       Querying(AfterStringMessage(hostIsLittleEndian, b, |m|, PasswordTypes)))
  {
    var m := PasswordMessage(password);
    var b := Receive(buffer, m);
    assert b == m + buffer[|m|..];
    assert ToLowerInvariant(PasswordTypes)[0] == CharToByte('p');
    StringMessageRoundTrip(hostIsLittleEndian, CharToByte('p'), password, buffer[|m|..], PasswordTypes);
  }

  // ---------------------------------------------------------------------------
  // The query loop
  // ---------------------------------------------------------------------------

  /** The canned replies always encode. */
  lemma CannedRepliesEncode(c: CannedResult)
    ensures ResultMessages(CannedTable(c), CannedTag(c)).Ok?
    ensures CannedReply(c) == ResultMessages(CannedTable(c), CannedTag(c)).value
  {
    match c
    case TransactionIsolation => TransactionIsolationEncodes();
    case OidTypeQuery => OidTypeQueryEncodes();
    case StaticResult => StaticResultEncodes();
  }

  /** A message of type 'Q' is never taken for a CancelRequest, on either host. */
  lemma QueryNeverCancel(hostIsLittleEndian: bool, b: Buffer, length: int32)
    requires b[0] == CharToByte('Q')
    ensures !IsCancelRequest(hostIsLittleEndian, b, length)
  {
  }

  /** A Query message, whatever is left in the buffer, is answered with its canned result and ReadyForQuery. */
  lemma QueryAnswered(hostIsLittleEndian: bool, buffer: Buffer, query: Bytes)
    requires |query| + 6 <= ReceiveBufferSize
    ensures var m := QueryMessage(query);
            var b := Receive(buffer, m);
            QueryStep(hostIsLittleEndian, buffer, m) ==
              Continue(CannedReply(Dispatch(query)) + ReadyForQuery(),
                       Querying(AfterStringMessage(hostIsLittleEndian, b, |m|, QueryTypes)))
  {
    var m := QueryMessage(query);
    var b := Receive(buffer, m);
    assert b == m + buffer[|m|..];
    assert ToLowerInvariant(QueryTypes)[0] == CharToByte('q');
    StringMessageRoundTrip(hostIsLittleEndian, CharToByte('Q'), query, buffer[|m|..], QueryTypes);
    QueryNeverCancel(hostIsLittleEndian, b, |m|);
    assert DecodeQuery(hostIsLittleEndian, b, |m|) == Ok(Text(query));
    assert Reply(Ok(Text(query))) == CannedReply(Dispatch(query));
  }

  /** A Terminate message ends the session at once: nothing more is written or read. */
  lemma TerminateEndsSession(hostIsLittleEndian: bool, buffer: Buffer)
    ensures QueryStep(hostIsLittleEndian, buffer, TerminateMessage()) == Stop([], Terminated)
  {
    var m := TerminateMessage();
    var b := Receive(buffer, m);
    assert b == m + buffer[|m|..];
    TerminateMessageRecognised(hostIsLittleEndian, buffer[|m|..]);
  }

  /**
    A read with no bytes (the client has shut down its side) is answered with
    ReadyForQuery alone, and the loop goes on reading.
   */
  lemma EmptyReadAnswered(hostIsLittleEndian: bool, buffer: Buffer)
    ensures QueryStep(hostIsLittleEndian, buffer, []) == Continue(ReadyForQuery(), Querying(buffer))
  {
    assert Receive(buffer, []) == buffer;
  }

  /**
    A CancelRequest sent on the session's own connection is skipped silently on a
    big-endian host; a little-endian host does not recognise it (the comparison reads host
    order) and answers it, as a message of unknown type, with ReadyForQuery.
   */
  lemma CancelRequestInSession(buffer: Buffer, otherProcess: int32, secretKey: int32)
    ensures var m := CancelRequest(otherProcess, secretKey);
            QueryStep(false, buffer, m) == Continue([], Querying(Receive(buffer, m))) &&
            QueryStep(true, buffer, m) == Continue(ReadyForQuery(), Querying(Receive(buffer, m)))
  {
    CancelSkippedBigEndian(buffer, otherProcess, secretKey);
    CancelAnsweredLittleEndian(buffer, otherProcess, secretKey);
  }

  /** On a big-endian host a CancelRequest is recognised and skipped without an answer. */
  lemma CancelSkippedBigEndian(buffer: Buffer, otherProcess: int32, secretKey: int32)
    ensures var m := CancelRequest(otherProcess, secretKey);
            QueryStep(false, buffer, m) == Continue([], Querying(Receive(buffer, m)))
  {
    var m := CancelRequest(otherProcess, secretKey);
    assert Receive(buffer, m) == m + buffer[|m|..];
    CancelRecognitionDependsOnHost(otherProcess, secretKey, buffer[|m|..]);
  }

  /**
    On a little-endian host a CancelRequest is not recognised; it is decoded as a message
    of type 0, which no query message has, and answered with ReadyForQuery alone.
   */
  lemma CancelAnsweredLittleEndian(buffer: Buffer, otherProcess: int32, secretKey: int32)
    ensures var m := CancelRequest(otherProcess, secretKey);
            QueryStep(true, buffer, m) == Continue(ReadyForQuery(), Querying(Receive(buffer, m)))
  {
    var m := CancelRequest(otherProcess, secretKey);
    var b := Receive(buffer, m);
    assert b == m + buffer[|m|..];
    CancelRecognitionDependsOnHost(otherProcess, secretKey, buffer[|m|..]);
    ZeroIsNoQueryType();
    UnknownTypeRejected(true, b, |m|, QueryTypes);
    UndecodableAnswered(true, buffer, m);
  }

  /** A message that is neither a CancelRequest nor decodable gets ReadyForQuery alone, and the loop goes on. */
  lemma UndecodableAnswered(hostIsLittleEndian: bool, buffer: Buffer, d: Chunk)
    requires !IsCancelRequest(hostIsLittleEndian, Receive(buffer, d), |d|)
    requires DecodeQuery(hostIsLittleEndian, Receive(buffer, d), |d|).Err?
    ensures QueryStep(hostIsLittleEndian, buffer, d) ==
              Continue(ReadyForQuery(), Querying(AfterStringMessage(hostIsLittleEndian, Receive(buffer, d), |d|, QueryTypes)))
  {
    assert [] + ReadyForQuery() == ReadyForQuery();
  }

  /** The replies to a run of queries: each query's canned result followed by ReadyForQuery. */
  function Replies(queries: seq<Bytes>): Bytes
    decreases |queries|
  {
    if queries == [] then [] else CannedReply(Dispatch(queries[0])) + ReadyForQuery() + Replies(queries[1..])
  }

  /** Every query fits in one read. */
  predicate QueriesFit(queries: seq<Bytes>) {
    forall i :: 0 <= i < |queries| ==> |queries[i]| + 6 <= ReceiveBufferSize
  }

  /** The reads a client makes to send the queries, each in one read. */
  function QueryReads(queries: seq<Bytes>): (chunks: seq<Incoming>)
    requires QueriesFit(queries)
    ensures |chunks| == |queries|
  {
    seq(|queries|, i requires 0 <= i < |queries| => Received(QueryMessage(queries[i])))
  }

  /** Queries followed by Terminate: every query answered in order, then the connection closed. */
  lemma {:induction false} QueriesThenTerminate(hostIsLittleEndian: bool, processId: int32, buffer: Buffer, queries: seq<Bytes>)
    requires QueriesFit(queries)
    ensures Run(hostIsLittleEndian, processId, Querying(buffer), QueryReads(queries) + [Received(TerminateMessage())]) ==
              Outcome(Replies(queries), Terminated)
    decreases |queries|
  {
    var t := Received(TerminateMessage());
    if queries == [] {
      assert QueryReads(queries) + [t] == [t] + [];
      TerminateEndsSession(hostIsLittleEndian, buffer);
      RunStops(hostIsLittleEndian, processId, Querying(buffer), t, []);
    } else {
      var m := QueryMessage(queries[0]);
      var rest := QueryReads(queries[1..]) + [t];
      assert QueryReads(queries) + [t] == [Received(m)] + rest;
      var next := AfterStringMessage(hostIsLittleEndian, Receive(buffer, m), |m|, QueryTypes);
      QueriesThenTerminate(hostIsLittleEndian, processId, next, queries[1..]);
      QueryThen(hostIsLittleEndian, processId, buffer, queries[0], m, next, rest, Outcome(Replies(queries[1..]), Terminated));
    }
  }

  /** A query read, followed by a known rest of the session: its reply and ReadyForQuery come first. */
  lemma QueryThen(hostIsLittleEndian: bool, processId: int32, buffer: Buffer, query: Bytes, m: Chunk, next: Buffer,
                  rest: seq<Incoming>, o: Outcome)
    requires m == QueryMessage(query)
    requires next == AfterStringMessage(hostIsLittleEndian, Receive(buffer, m), |m|, QueryTypes)
    requires Run(hostIsLittleEndian, processId, Querying(next), rest) == o
    ensures Run(hostIsLittleEndian, processId, Querying(buffer), [Received(m)] + rest) ==
              Outcome(CannedReply(Dispatch(query)) + ReadyForQuery() + o.output, o.end)
  {
    QueryAnswered(hostIsLittleEndian, buffer, query);
    assert Next(hostIsLittleEndian, processId, Querying(buffer), Received(m)) == QueryStep(hostIsLittleEndian, buffer, m);
    RunThen(hostIsLittleEndian, processId, Querying(buffer), Received(m), rest,
            CannedReply(Dispatch(query)) + ReadyForQuery(), Querying(next), o);
  }

  // ---------------------------------------------------------------------------
  // A whole session
  // ---------------------------------------------------------------------------

  /** A startup message whose parameters come in name/value pairs without zero bytes, and that fits in one read. */
  predicate WellFormedStartup(version: int32, parameters: seq<Bytes>) {
    |parameters| >= 2 && |parameters| % 2 == 0 &&
    (forall k :: 0 <= k < |parameters| ==> 0 !in parameters[k]) &&
    |StartupMessage(version, parameters)| <= ReceiveBufferSize
  }

  /** The reads of a client that connects, sends its queries one per read and terminates. */
  function ClientReads(probe: bool, version: int32, parameters: seq<Bytes>, password: Bytes, queries: seq<Bytes>): seq<Incoming>
    requires WellFormedStartup(version, parameters)
    requires |password| + 6 <= ReceiveBufferSize
    requires QueriesFit(queries)
  {
    (if probe then [Received(SSLRequest())] else []) +
    [Received(StartupMessage(version, parameters)), Received(PasswordMessage(password))] +
    QueryReads(queries) + [Received(TerminateMessage())]
  }

  /** What the server writes to such a client, once the SSL refusal (if any) is sent. */
  function ServerWrites(processId: int32, version: int32, parameters: seq<Bytes>, queries: seq<Bytes>): Bytes
    requires |parameters| % 2 == 0
  {
    AuthenticationCleartextPassword() +
    (Welcome(ApplyPairs(map[ProtocolVersionKey := Ascii(IntToString(version))], parameters), processId) + ReadyForQuery() +
     Replies(queries))
  }

  /** From the password on: the welcome burst, then the queries answered up to the Terminate. */
  lemma FromPassword(hostIsLittleEndian: bool, processId: int32, parameters: map<Bytes, Bytes>, buffer: Buffer,
                     password: Bytes, queries: seq<Bytes>)
    requires |password| + 6 <= ReceiveBufferSize
    requires QueriesFit(queries)
    ensures Run(hostIsLittleEndian, processId, AwaitingPassword(parameters, buffer),
                [Received(PasswordMessage(password))] + (QueryReads(queries) + [Received(TerminateMessage())])) ==
              Outcome(Welcome(parameters, processId) + ReadyForQuery() + Replies(queries), Terminated)
  {
    var m := PasswordMessage(password);
    var rest := QueryReads(queries) + [Received(TerminateMessage())];
    var next := AfterStringMessage(hostIsLittleEndian, Receive(buffer, m), |m|, PasswordTypes);
    QueriesThenTerminate(hostIsLittleEndian, processId, next, queries);
    PasswordThen(hostIsLittleEndian, processId, parameters, buffer, password, m, next, rest, Outcome(Replies(queries), Terminated));
  }

  /** A password read, followed by a known rest of the session: the welcome burst and ReadyForQuery come first. */
  lemma PasswordThen(hostIsLittleEndian: bool, processId: int32, parameters: map<Bytes, Bytes>, buffer: Buffer,
                     password: Bytes, m: Chunk, next: Buffer, rest: seq<Incoming>, o: Outcome)
    requires m == PasswordMessage(password)
    requires next == AfterStringMessage(hostIsLittleEndian, Receive(buffer, m), |m|, PasswordTypes)
    requires Run(hostIsLittleEndian, processId, Querying(next), rest) == o
    ensures Run(hostIsLittleEndian, processId, AwaitingPassword(parameters, buffer), [Received(m)] + rest) ==
              Outcome(Welcome(parameters, processId) + ReadyForQuery() + o.output, o.end)
  {
    PasswordAccepted(hostIsLittleEndian, processId, parameters, buffer, password);
    assert Next(hostIsLittleEndian, processId, AwaitingPassword(parameters, buffer), Received(m)) ==
           PasswordStep(hostIsLittleEndian, processId, parameters, buffer, m);
    RunThen(hostIsLittleEndian, processId, AwaitingPassword(parameters, buffer), Received(m), rest,
            Welcome(parameters, processId) + ReadyForQuery(), Querying(next), o);
  }

  /** From the startup message on, read into a buffer holding anything. */
  lemma FromStartup(hostIsLittleEndian: bool, processId: int32, phase: Phase, buffer: Buffer, version: int32,
                    parameters: seq<Bytes>, password: Bytes, queries: seq<Bytes>)
    requires WellFormedStartup(version, parameters)
    requires |password| + 6 <= ReceiveBufferSize
    requires QueriesFit(queries)
    requires (phase == Connected && buffer == EmptyBuffer()) || phase == AwaitingStartup(buffer)
    ensures Run(hostIsLittleEndian, processId, phase,
                [Received(StartupMessage(version, parameters))] +
                ([Received(PasswordMessage(password))] + (QueryReads(queries) + [Received(TerminateMessage())]))) ==
              Outcome(ServerWrites(processId, version, parameters, queries), Terminated)
  {
    var m := StartupMessage(version, parameters);
    var rest := [Received(PasswordMessage(password))] + (QueryReads(queries) + [Received(TerminateMessage())]);
    var b := Receive(buffer, m);
    StartupAnswered(hostIsLittleEndian, buffer, version, parameters);
    assert Next(hostIsLittleEndian, processId, phase, Received(m)) == StartupStep(hostIsLittleEndian, b, |m|);
    RunContinues(hostIsLittleEndian, processId, phase, Received(m), rest);
    FromPassword(hostIsLittleEndian, processId, ApplyPairs(map[ProtocolVersionKey := Ascii(IntToString(version))], parameters),
                 AfterStartupMessage(hostIsLittleEndian, b), password, queries);
  }

  /**
    A whole session: with or without the SSL probe, a client that sends a startup
    message, a password, its queries one per read and a Terminate gets the SSL refusal
    (if it asked), the password request, the welcome burst and ReadyForQuery, then each
    query's canned result followed by ReadyForQuery, and the connection is closed.
   */
  lemma TypicalSession(hostIsLittleEndian: bool, processId: int32, probe: bool, version: int32, parameters: seq<Bytes>,
                       password: Bytes, queries: seq<Bytes>)
    requires WellFormedStartup(version, parameters)
    requires |password| + 6 <= ReceiveBufferSize
    requires QueriesFit(queries)
    ensures Session(hostIsLittleEndian, processId, ClientReads(probe, version, parameters, password, queries)) ==
              Outcome((if probe then SSLRefused else []) + ServerWrites(processId, version, parameters, queries), Terminated)
  {
    var tail := [Received(StartupMessage(version, parameters))] +
                ([Received(PasswordMessage(password))] + (QueryReads(queries) + [Received(TerminateMessage())]));
    if probe {
      RegroupReads([Received(SSLRequest())], Received(StartupMessage(version, parameters)), Received(PasswordMessage(password)),
                   QueryReads(queries), Received(TerminateMessage()));
      SessionAfterProbe(hostIsLittleEndian, processId, version, parameters, password, queries, tail);
    } else {
      SessionWithoutProbe(hostIsLittleEndian, processId, version, parameters, password, queries, tail);
    }
  }

  /** The session of a client that sends its startup message first. */
  lemma SessionWithoutProbe(hostIsLittleEndian: bool, processId: int32, version: int32, parameters: seq<Bytes>,
                            password: Bytes, queries: seq<Bytes>, tail: seq<Incoming>)
    requires WellFormedStartup(version, parameters)
    requires |password| + 6 <= ReceiveBufferSize
    requires QueriesFit(queries)
    requires tail == [Received(StartupMessage(version, parameters))] +
                     ([Received(PasswordMessage(password))] + (QueryReads(queries) + [Received(TerminateMessage())]))
    ensures Session(hostIsLittleEndian, processId, ClientReads(false, version, parameters, password, queries)) ==
              Outcome([] + ServerWrites(processId, version, parameters, queries), Terminated)
  {
    RegroupReads([], Received(StartupMessage(version, parameters)), Received(PasswordMessage(password)),
                 QueryReads(queries), Received(TerminateMessage()));
    assert ClientReads(false, version, parameters, password, queries) == tail;
    FromStartup(hostIsLittleEndian, processId, Connected, EmptyBuffer(), version, parameters, password, queries);
  }

  /** The session of a client that starts with the SSL probe: 'N', then the session from the startup message on. */
  lemma SessionAfterProbe(hostIsLittleEndian: bool, processId: int32, version: int32, parameters: seq<Bytes>,
                          password: Bytes, queries: seq<Bytes>, tail: seq<Incoming>)
    requires WellFormedStartup(version, parameters)
    requires |password| + 6 <= ReceiveBufferSize
    requires QueriesFit(queries)
    requires tail == [Received(StartupMessage(version, parameters))] +
                     ([Received(PasswordMessage(password))] + (QueryReads(queries) + [Received(TerminateMessage())]))
    ensures Run(hostIsLittleEndian, processId, Connected, [Received(SSLRequest())] + tail) ==
              Outcome(SSLRefused + ServerWrites(processId, version, parameters, queries), Terminated)
  {
    var b := AfterSSLNegoPackage(hostIsLittleEndian, Receive(EmptyBuffer(), SSLRequest()), 8);
    SSLProbeRefused(hostIsLittleEndian);
    FromStartup(hostIsLittleEndian, processId, AwaitingStartup(b), b, version, parameters, password, queries);
    RunThen(hostIsLittleEndian, processId, Connected, Received(SSLRequest()), tail, SSLRefused, AwaitingStartup(b),
            Outcome(ServerWrites(processId, version, parameters, queries), Terminated));
  }

  // ---------------------------------------------------------------------------
  // The welcome burst as a client reads it
  // ---------------------------------------------------------------------------

  function StatusFrames(settings: seq<(Bytes, Bytes)>): (fs: seq<Frame>)
    ensures |fs| == |settings|
  {
    seq(|settings|, i requires 0 <= i < |settings| => Frame(CharToByte('S'), settings[i].0 + [0] + settings[i].1 + [0]))
  }

  lemma {:induction false} ParameterStatusFrames(settings: seq<(Bytes, Bytes)>)
    ensures ParameterStatusMessages(settings) == EncodeFrames(StatusFrames(settings))
    decreases |settings|
  {
    if settings != [] {
      var init := settings[..|settings| - 1];
      var last := settings[|settings| - 1];
      var f := Frame(CharToByte('S'), last.0 + [0] + last.1 + [0]);
      ParameterStatusFrames(init);
      assert StatusFrames(settings) == StatusFrames(init) + [f];
      EncodeFramesAppend(StatusFrames(init), [f]);
      assert EncodeFrames([f]) == EncodeFrame(f) + EncodeFrames([]);
    }
  }

  function WelcomeFrames(parameters: map<Bytes, Bytes>, processId: int32): seq<Frame> {
    [Frame(CharToByte('R'), Int32BE(0))] + StatusFrames(ServerParameters(parameters)) +
    [Frame(CharToByte('K'), Int32BE(processId) + UInt32BE(BackendSecretKey))]
  }

  /** The welcome burst is the encoding of its fourteen frames. */
  lemma WelcomeIsFrames(parameters: map<Bytes, Bytes>, processId: int32)
    ensures Welcome(parameters, processId) == EncodeFrames(WelcomeFrames(parameters, processId))
  {
    BurstIsFrames(ServerParameters(parameters), processId);
  }

  /** AuthenticationOk, any run of ParameterStatus messages and BackendKeyData are the encoding of their frames. */
  lemma BurstIsFrames(settings: seq<(Bytes, Bytes)>, processId: int32)
    ensures AuthenticationOk() + ParameterStatusMessages(settings) + BackendKeyDataMessage(processId) ==
              EncodeFrames([Frame(CharToByte('R'), Int32BE(0))] + StatusFrames(settings) +
                           [Frame(CharToByte('K'), Int32BE(processId) + UInt32BE(BackendSecretKey))])
  {
    var r := [Frame(CharToByte('R'), Int32BE(0))];
    var k := [Frame(CharToByte('K'), Int32BE(processId) + UInt32BE(BackendSecretKey))];
    ParameterStatusFrames(settings);
    EncodeFramesAppend(r, StatusFrames(settings));
    EncodeFramesAppend(r + StatusFrames(settings), k);
    assert EncodeFrames(r) == AuthenticationOk() + EncodeFrames([]);
    assert EncodeFrames(k) == BackendKeyDataMessage(processId) + EncodeFrames([]);
  }

  /** Every parameter the server reports has a name shorter than 256 bytes and a value the client sent or a short literal. */
  lemma ServerParametersBounded(parameters: map<Bytes, Bytes>)
    requires forall k :: k in parameters ==> |parameters[k]| < 0x1000_0000
    ensures forall i :: 0 <= i < |ServerParameters(parameters)| ==>
              |ServerParameters(parameters)[i].0| < 0x100 && |ServerParameters(parameters)[i].1| < 0x1000_0000
  {
  }

  /**
    A client reads the welcome burst as AuthenticationOk, the twelve parameters in order
    and the backend key carrying the process id.
   */
  lemma WelcomeReadsBack(parameters: map<Bytes, Bytes>, processId: int32)
    requires forall k :: k in parameters ==> |parameters[k]| < 0x1000_0000
    ensures var settings := ServerParameters(parameters);
            var fs := WelcomeFrames(parameters, processId);
            ParseFrames(Welcome(parameters, processId)) == Some(fs) &&
            |fs| == 14 &&
            fs[0] == Frame(CharToByte('R'), Int32BE(0)) &&
            (forall i :: 0 <= i < 12 ==> fs[i + 1] == Frame(CharToByte('S'), settings[i].0 + [0] + settings[i].1 + [0])) &&
            fs[13] == Frame(CharToByte('K'), Int32BE(processId) + UInt32BE(BackendSecretKey))
  {
    var settings := ServerParameters(parameters);
    var fs := WelcomeFrames(parameters, processId);
    WelcomeIsFrames(parameters, processId);
    ServerParametersBounded(parameters);
    forall i | 0 <= i < |fs|
      ensures Fits(fs[i])
    {
      if 1 <= i < 13 {
        assert fs[i] == StatusFrames(settings)[i - 1];
      }
    }
    ParseEncodedFrames(fs);
  }
}
