/**
  The message formats of WireServer.cs: the decoders for what a client sends during the
  handshake and the query loop, and the encoders for the backend messages the server sends.

  Each decoder is a function of the receive buffer's contents and of the number of bytes
  received, returning either its result or the exception it raises. Where the source
  reverses part of the buffer in place on a little-endian host, a second function gives
  the buffer as the decoder leaves it; the receive buffer is reused by the next read, so
  that effect is observable.
 */
module Framing {
  import opened Binary
  import opened Errors
  import opened Strings

  /** The size of the receive buffer of a session. */
  const ReceiveBufferSize := 8192
  /** The request code of an SSLRequest. */
  const SSLRequestCode := 80877103
  /** The request code of a CancelRequest. */
  const CancelRequestCode := 80877102
  /** The constant secret key sent in BackendKeyData. */
  const BackendSecretKey: uint32 := 3913636326

  // ---------------------------------------------------------------------------
  // Backend messages as a client sees them: a tag, an int32 length that counts
  // itself and the body, then the body
  // ---------------------------------------------------------------------------

  datatype Frame = Frame(tag: uint8, body: Bytes)

  /** Whether the length field of a frame fits in an int32. */
  predicate Fits(f: Frame) {
    4 + |f.body| < 0x8000_0000
  }

  function EncodeFrame(f: Frame): (m: Bytes)
    ensures |m| == 5 + |f.body|
  {
    [f.tag] + Int32BE(WrapInt32(4 + |f.body|)) + f.body
  }

  function EncodeFrames(fs: seq<Frame>): (m: Bytes)
    decreases |fs|
  {
    if fs == [] then [] else EncodeFrame(fs[0]) + EncodeFrames(fs[1..])
  }

  /** A client's reading of a byte stream as a sequence of frames; None if it is not one. */
  function ParseFrames(s: Bytes): Option<seq<Frame>>
    decreases |s|
  {
    if s == [] then Some([])
    else if |s| < 5 then None
    else
      var n := Int32At(s, 1);
      if n < 4 || 1 + n > |s| then None
      else
        match ParseFrames(s[1 + n..])
        case None => None
        case Some(rest) => Some([Frame(s[0], s[5..1 + n])] + rest)
  }

  lemma {:induction false} EncodeFramesAppend(fs: seq<Frame>, gs: seq<Frame>)
    ensures EncodeFrames(fs + gs) == EncodeFrames(fs) + EncodeFrames(gs)
    decreases |fs|
  {
    if fs == [] {
      assert fs + gs == gs;
    } else {
      assert (fs + gs)[0] == fs[0];
      assert (fs + gs)[1..] == fs[1..] + gs;
      EncodeFramesAppend(fs[1..], gs);
    }
  }
  /** One more frame adds its encoding at the end. */
  lemma EncodeFramesSnoc(fs: seq<Frame>, f: Frame)
    ensures EncodeFrames(fs + [f]) == EncodeFrames(fs) + EncodeFrame(f)
  {
    EncodeFramesAppend(fs, [f]);
    assert EncodeFrames([f]) == EncodeFrame(f) + EncodeFrames([]);
  }


  /** Every sequence of frames whose lengths fit is read back by a client as exactly those frames. */
  lemma {:induction false} ParseEncodedFrames(fs: seq<Frame>)
    requires forall i :: 0 <= i < |fs| ==> Fits(fs[i])
    ensures ParseFrames(EncodeFrames(fs)) == Some(fs)
    decreases |fs|
  {
    if fs != [] {
      var f := fs[0];
      var s := EncodeFrames(fs);
      var head := EncodeFrame(f);
      assert s == head + EncodeFrames(fs[1..]);
      assert s[1..5] == Int32BE(4 + |f.body|);
      Int32AtIff(s, 1, 4 + |f.body|);
      assert s[5..1 + 4 + |f.body|] == f.body;
      assert s[1 + 4 + |f.body|..] == EncodeFrames(fs[1..]);
      ParseEncodedFrames(fs[1..]);
      assert [f] + fs[1..] == fs;
    }
  }

  // ---------------------------------------------------------------------------
  // The byte-order handling of the decoders
  // ---------------------------------------------------------------------------

  /** `Array.Reverse(b, 0, 4); Array.Reverse(b, 4, 4)`: the header as a little-endian host leaves it. */
  function SwapHeader(b: Bytes): (r: Bytes)
    requires 8 <= |b|
    ensures |r| == |b|
  {
    ReverseRange(ReverseRange(b, 0, 4), 4, 4)
  }

  /**
    After the in-place swap on a little-endian host (and without it on a big-endian one),
    the host-order reads of the header give the big-endian values of the original bytes.
   */
  lemma HeaderReadsAfterSwap(hostIsLittleEndian: bool, b: Bytes)
    requires 8 <= |b|
    ensures var t := if hostIsLittleEndian then SwapHeader(b) else b;
            HostInt32At(hostIsLittleEndian, t, 0) == Int32At(b, 0) && HostInt32At(hostIsLittleEndian, t, 4) == Int32At(b, 4)
  {
    if hostIsLittleEndian {
      var t1 := ReverseRange(b, 0, 4);
      var t2 := ReverseRange(t1, 4, 4);
      assert t2 == SwapHeader(b);
      HostReadAfterReversal(true, b, 0);
      ReverseRangeOutside(t1, 4, 4, 0);
      ReverseRangeOutside(t1, 4, 4, 1);
      ReverseRangeOutside(t1, 4, 4, 2);
      ReverseRangeOutside(t1, 4, 4, 3);
      HostInt32AtSameBytes(true, t2, t1, 0);
      HostReadAfterReversal(true, t1, 4);
      ReverseRangeOutside(b, 0, 4, 4);
      ReverseRangeOutside(b, 0, 4, 5);
      ReverseRangeOutside(b, 0, 4, 6);
      ReverseRangeOutside(b, 0, 4, 7);
      HostInt32AtSameBytes(false, t1, b, 4);
    }
  }


  // ---------------------------------------------------------------------------
  // SSLRequest (WireServer.cs ReadSSLNegoPackage)
  // ---------------------------------------------------------------------------

  /** The SSLRequest a client sends: length 8 and the request code, most significant byte first. */
  function SSLRequest(): (m: Bytes)
    ensures |m| == 8
  {
    Int32BE(8) + Int32BE(SSLRequestCode)
  }

  /** The outcome of ReadSSLNegoPackage; the conditions come in the source's order. */
  function DecodeSSLNegoPackage(message: Bytes, length: int32): (r: Result<()>)
    requires 8 <= |message|
  {
    if length != 8 then Err(ProtocolError("message does not have correct length"))
    else if Int32At(message, 0) != 8 then Err(ProtocolError("message length for SSL message is not correct"))
    else if Int32At(message, 4) != SSLRequestCode then Err(ProtocolError("SSL magic number is not correct"))
    else Ok(())
  }

  /** The buffer as ReadSSLNegoPackage leaves it: the header is swapped once the length check passes. */
  function AfterSSLNegoPackage(hostIsLittleEndian: bool, message: Bytes, length: int32): (r: Bytes)
    requires 8 <= |message|
    ensures |r| == |message|
  {
    if hostIsLittleEndian && length == 8 then SwapHeader(message) else message
  }

  /** The probe is accepted exactly when 8 bytes were received and they are an SSLRequest. */
  lemma SSLNegoAcceptsExactlyTheRequest(message: Bytes, length: int32)
    requires 8 <= |message|
    ensures DecodeSSLNegoPackage(message, length).Ok? <==> length == 8 && message[..8] == SSLRequest()
  {
    Int32AtIff(message, 0, 8);
    Int32AtIff(message, 4, SSLRequestCode);
    assert message[..8] == message[0..4] + message[4..8];
  }

  /** Each way of failing the probe raises its own message. */
  lemma SSLNegoErrors(message: Bytes, length: int32)
    requires 8 <= |message|
    ensures length != 8 ==> DecodeSSLNegoPackage(message, length) == Err(ProtocolError("message does not have correct length"))
    ensures length == 8 && message[..4] != Int32BE(8) ==>
              DecodeSSLNegoPackage(message, length) == Err(ProtocolError("message length for SSL message is not correct"))
    ensures length == 8 && message[..4] == Int32BE(8) && message[4..8] != Int32BE(SSLRequestCode) ==>
              DecodeSSLNegoPackage(message, length) == Err(ProtocolError("SSL magic number is not correct"))
  {
    Int32AtIff(message, 0, 8);
    Int32AtIff(message, 4, SSLRequestCode);
    assert message[0..4] == message[..4];
  }

  // ---------------------------------------------------------------------------
  // StartupMessage (WireServer.cs ReadStartupMessage)
  // ---------------------------------------------------------------------------

  /** The key under which the protocol version is reported. */
  const ProtocolVersionKey: Bytes := Ascii("protocol_version")

  /**
    The dictionary after `result[parts[i]] = parts[i + 1]` for every even i, in order,
    starting from m.
   */
  function ApplyPairs(m: map<Bytes, Bytes>, parts: seq<Bytes>): map<Bytes, Bytes>
    requires |parts| % 2 == 0
    decreases |parts|
  {
    if parts == [] then m
    else ApplyPairs(m, parts[..|parts| - 2])[parts[|parts| - 2] := parts[|parts| - 1]]
  }

  /** The zero-separated tokens of a startup message: bytes [8, length - 2) split at each 0. */
  function StartupTokens(bytes: Bytes, length: int): (parts: seq<Bytes>)
    requires 10 <= length <= |bytes| + 2
    ensures |parts| >= 1
  {
    Split(bytes[8..length - 2], 0)
  }

  /** The outcome of ReadStartupMessage; the conditions come in the source's order. */
  function DecodeStartupMessage(bytes: Bytes, length: int32): (r: Result<map<Bytes, Bytes>>)
    requires 8 <= |bytes|
  {
    var size := Int32At(bytes, 0);
    var version := Int32At(bytes, 4);
    if length != size then Err(ProtocolError("startup message has incorrect length"))
    // Encoding.GetString(bytes, 8, size - 10) rejects a negative count or a range past the end
    else if size < 10 || size - 2 > |bytes| then Err(ArgumentOutOfRange)
    else
      var parts := StartupTokens(bytes, size);
      if |parts| % 2 != 0 then Err(ProtocolError("startup message has invalid token count " + IntToString(|parts|)))
      else if |parts| < 2 then Err(ProtocolError("startup message invalid"))
      else Ok(ApplyPairs(map[ProtocolVersionKey := Ascii(IntToString(version))], parts))
  }

  /** The buffer as ReadStartupMessage leaves it: its first step swaps the header. */
  function AfterStartupMessage(hostIsLittleEndian: bool, bytes: Bytes): (r: Bytes)
    requires 8 <= |bytes|
    ensures |r| == |bytes|
  {
    if hostIsLittleEndian then SwapHeader(bytes) else bytes
  }

  /** The names and values, each followed by a zero byte. */
  function ZeroTerminated(parameters: seq<Bytes>): Bytes
    decreases |parameters|
  {
    if parameters == [] then [] else parameters[0] + [0] + ZeroTerminated(parameters[1..])
  }

  /** A StartupMessage as a client sends it: length, version, the zero-terminated names and values, a final 0. */
  function StartupMessage(version: int32, parameters: seq<Bytes>): (m: Bytes)
    ensures |m| == 8 + |ZeroTerminated(parameters)| + 1
  {
    var body := ZeroTerminated(parameters) + [0];
    Int32BE(WrapInt32(8 + |body|)) + Int32BE(version) + body
  }

  lemma {:induction false} ZeroTerminatedIsJoin(parameters: seq<Bytes>)
    requires |parameters| >= 1
    ensures ZeroTerminated(parameters) == Join(parameters, 0) + [0]
    decreases |parameters|
  {
    if |parameters| > 1 {
      ZeroTerminatedIsJoin(parameters[1..]);
    }
  }

  /** Whether k is one of the names, the tokens at even positions. */
  ghost predicate IsName(parts: seq<Bytes>, k: Bytes) {
    exists i :: 0 <= i < |parts| && i % 2 == 0 && parts[i] == k
  }

  /** What keys the dictionary ends up with: the initial ones and every name. */
  lemma {:induction false} ApplyPairsKeys(m: map<Bytes, Bytes>, parts: seq<Bytes>)
    requires |parts| % 2 == 0
    ensures forall k :: k in ApplyPairs(m, parts) <==> k in m || IsName(parts, k)
    decreases |parts|
  {
    if parts != [] {
      var init := parts[..|parts| - 2];
      ApplyPairsKeys(m, init);
      forall k
        ensures IsName(parts, k) <==> IsName(init, k) || parts[|parts| - 2] == k
      {
        if IsName(parts, k) {
          var i :| 0 <= i < |parts| && i % 2 == 0 && parts[i] == k;
          if i < |init| {
            assert init[i] == k;
          }
        }
        if IsName(init, k) {
          var i :| 0 <= i < |init| && i % 2 == 0 && init[i] == k;
          assert parts[i] == k;
        }
        if parts[|parts| - 2] == k {
          assert parts[|parts| - 2] == k && (|parts| - 2) % 2 == 0;
        }
      }
    }
  }

  /** A name's value is the one paired with its last occurrence: the last value wins. */
  lemma {:induction false} ApplyPairsLastWins(m: map<Bytes, Bytes>, parts: seq<Bytes>, i: nat)
    requires |parts| % 2 == 0 && i < |parts| && i % 2 == 0 && IsLastName(parts, i)
    ensures parts[i] in ApplyPairs(m, parts) && ApplyPairs(m, parts)[parts[i]] == parts[i + 1]
    decreases |parts|
  {
    var init := parts[..|parts| - 2];
    if i < |parts| - 2 {
      assert parts[|parts| - 2] != parts[i];
      assert IsLastName(init, i) by {
        forall j | i < j < |init| && j % 2 == 0
          ensures init[j] != init[i]
        {
          assert init[j] == parts[j] && init[i] == parts[i];
        }
      }
      ApplyPairsLastWins(m, init, i);
    }
  }

  /** A key that is never named keeps its initial value. */
  lemma {:induction false} ApplyPairsKeeps(m: map<Bytes, Bytes>, parts: seq<Bytes>, k: Bytes)
    requires |parts| % 2 == 0 && k in m
    requires forall j :: 0 <= j < |parts| && j % 2 == 0 ==> parts[j] != k
    ensures k in ApplyPairs(m, parts) && ApplyPairs(m, parts)[k] == m[k]
    decreases |parts|
  {
    if parts != [] {
      var init := parts[..|parts| - 2];
      assert forall j :: 0 <= j < |init| && j % 2 == 0 ==> init[j] == parts[j];
      ApplyPairsKeeps(m, init, k);
    }
  }

  /**
    A StartupMessage built from an even number of zero-free names and values, followed by
    anything, decodes to the dictionary of those pairs over the reported protocol version.
   */
  lemma StartupRoundTrip(version: int32, parameters: seq<Bytes>, stale: Bytes)
    requires |parameters| >= 2 && |parameters| % 2 == 0
    requires forall k :: 0 <= k < |parameters| ==> 0 !in parameters[k]
    requires |StartupMessage(version, parameters)| < 0x8000_0000
    ensures var m := StartupMessage(version, parameters);
            DecodeStartupMessage(m + stale, |m|) ==
              Ok(ApplyPairs(map[ProtocolVersionKey := Ascii(IntToString(version))], parameters))
  {
    StartupMessageFields(version, parameters, stale);
  }

  /** The fields a reader finds in a startup message: the length, the version and the tokens. */
  lemma StartupMessageFields(version: int32, parameters: seq<Bytes>, stale: Bytes)
    requires |parameters| >= 1
    requires forall k :: 0 <= k < |parameters| ==> 0 !in parameters[k]
    requires |StartupMessage(version, parameters)| < 0x8000_0000
    ensures var m := StartupMessage(version, parameters);
            10 <= |m| && Int32At(m + stale, 0) == |m| && Int32At(m + stale, 4) == version &&
            StartupTokens(m + stale, |m|) == parameters
  {
    var m := StartupMessage(version, parameters);
    var b := m + stale;
    assert b[0..4] == Int32BE(|m|);
    Int32AtIff(b, 0, |m|);
    assert b[4..8] == Int32BE(version);
    Int32AtIff(b, 4, version);
    ZeroTerminatedIsJoin(parameters);
    assert b[8..|m| - 2] == Join(parameters, 0);
    SplitJoin(parameters, 0);
  }


  /** A startup message without any parameter is rejected: the string to split would have length -1. */
  lemma StartupWithoutParametersRejected(version: int32, stale: Bytes)
    ensures var m := StartupMessage(version, []);
            DecodeStartupMessage(m + stale, |m|) == Err(ArgumentOutOfRange)
  {
    var m := StartupMessage(version, []);
    assert (m + stale)[0..4] == Int32BE(9);
    Int32AtIff(m + stale, 0, 9);
  }

  /**
    Each way of failing the startup decode, stated on the received bytes: a length field other
    than the bytes read, a range GetString rejects, an odd token count; and success otherwise.
   */
  lemma StartupMessageErrors(bytes: Bytes, length: int32)
    requires 8 <= |bytes|
    ensures bytes[..4] != Int32BE(length) ==>
              DecodeStartupMessage(bytes, length) == Err(ProtocolError("startup message has incorrect length"))
    ensures bytes[..4] == Int32BE(length) && (length < 10 || length - 2 > |bytes|) ==>
              DecodeStartupMessage(bytes, length) == Err(ArgumentOutOfRange)
    ensures bytes[..4] == Int32BE(length) && 10 <= length <= |bytes| + 2 && |StartupTokens(bytes, length)| % 2 != 0 ==>
              DecodeStartupMessage(bytes, length) ==
              Err(ProtocolError("startup message has invalid token count " + IntToString(|StartupTokens(bytes, length)|)))
    ensures bytes[..4] == Int32BE(length) && 10 <= length <= |bytes| + 2 && |StartupTokens(bytes, length)| % 2 == 0 ==>
              DecodeStartupMessage(bytes, length).Ok?
  {
    Int32AtIff(bytes, 0, length);
    assert bytes[0..4] == bytes[..4];
  }

  /** The "startup message invalid" error cannot be raised: a split has at least one token. */
  lemma StartupNeverInvalid(bytes: Bytes, length: int32)
    requires 8 <= |bytes|
    ensures DecodeStartupMessage(bytes, length) != Err(ProtocolError("startup message invalid"))
  {
    var size := Int32At(bytes, 0);
    if length == size && 10 <= size && size - 2 <= |bytes| {
      var parts := StartupTokens(bytes, size);
      if |parts| % 2 != 0 {
        var msg := "startup message has invalid token count " + IntToString(|parts|);
        assert msg[16] == 'h' != "startup message invalid"[16];
      }
    }
  }

  /** Whether the name at the even position i is not named again later. */
  ghost predicate IsLastName(parts: seq<Bytes>, i: int)
    requires 0 <= i < |parts|
  {
    forall j :: i < j < |parts| && j % 2 == 0 ==> parts[j] != parts[i]
  }

  /** The keys of m are "protocol_version" and the names, and nothing else. */
  ghost predicate KeysAreNames(m: map<Bytes, Bytes>, parts: seq<Bytes>) {
    forall k :: k in m <==> k == ProtocolVersionKey || IsName(parts, k)
  }

  /** Every name maps to the value paired with its last occurrence. */
  ghost predicate LastValuesWin(m: map<Bytes, Bytes>, parts: seq<Bytes>)
    requires |parts| % 2 == 0
  {
    forall i :: 0 <= i < |parts| && i % 2 == 0 && IsLastName(parts, i) ==> parts[i] in m && m[parts[i]] == parts[i + 1]
  }

  /** The reported version stays unless a client names protocol_version itself. */
  ghost predicate VersionUnlessNamed(m: map<Bytes, Bytes>, parts: seq<Bytes>, version: Bytes) {
    (forall i :: 0 <= i < |parts| && i % 2 == 0 ==> parts[i] != ProtocolVersionKey) ==>
      ProtocolVersionKey in m && m[ProtocolVersionKey] == version
  }

  /**
    What the startup dictionary m holds after the pairs in parts were applied over a
    reported version: "protocol_version" and every name as keys, and no other; each name's
    last value; and the reported version unless a client names protocol_version itself.
   */
  ghost predicate DescribesPairs(m: map<Bytes, Bytes>, parts: seq<Bytes>, version: Bytes) {
    |parts| % 2 == 0 && KeysAreNames(m, parts) && LastValuesWin(m, parts) && VersionUnlessNamed(m, parts, version)
  }

  /** The pairs applied over the reported version give a dictionary with exactly those contents. */
  lemma ApplyPairsDescribes(parts: seq<Bytes>, version: Bytes)
    requires |parts| % 2 == 0
    ensures DescribesPairs(ApplyPairs(map[ProtocolVersionKey := version], parts), parts, version)
  {
    AppliedKeys(parts, version);
    AppliedLastValues(parts, version);
    AppliedVersion(parts, version);
  }

  lemma AppliedKeys(parts: seq<Bytes>, version: Bytes)
    requires |parts| % 2 == 0
    ensures KeysAreNames(ApplyPairs(map[ProtocolVersionKey := version], parts), parts)
  {
    ApplyPairsKeys(map[ProtocolVersionKey := version], parts);
  }

  lemma AppliedLastValues(parts: seq<Bytes>, version: Bytes)
    requires |parts| % 2 == 0
    ensures LastValuesWin(ApplyPairs(map[ProtocolVersionKey := version], parts), parts)
  {
    ApplyPairsLastValuesWin(map[ProtocolVersionKey := version], parts);
  }

  lemma ApplyPairsLastValuesWin(m: map<Bytes, Bytes>, parts: seq<Bytes>)
    requires |parts| % 2 == 0
    ensures LastValuesWin(ApplyPairs(m, parts), parts)
  {
    forall i | 0 <= i < |parts| && i % 2 == 0 && IsLastName(parts, i)
      ensures parts[i] in ApplyPairs(m, parts) && ApplyPairs(m, parts)[parts[i]] == parts[i + 1]
    {
      ApplyPairsLastWins(m, parts, i);
    }
  }

  lemma AppliedVersion(parts: seq<Bytes>, version: Bytes)
    requires |parts| % 2 == 0
    ensures VersionUnlessNamed(ApplyPairs(map[ProtocolVersionKey := version], parts), parts, version)
  {
    if forall i :: 0 <= i < |parts| && i % 2 == 0 ==> parts[i] != ProtocolVersionKey {
      ApplyPairsKeeps(map[ProtocolVersionKey := version], parts, ProtocolVersionKey);
    }
  }

  /** A decoded startup dictionary is the one its tokens describe, and there are at least two tokens. */
  lemma StartupMessageContents(bytes: Bytes, length: int32)
    requires 8 <= |bytes|
    requires DecodeStartupMessage(bytes, length).Ok?
    ensures 10 <= length <= |bytes| + 2 && |StartupTokens(bytes, length)| >= 2
    ensures DescribesPairs(DecodeStartupMessage(bytes, length).value, StartupTokens(bytes, length),
                           Ascii(IntToString(Int32At(bytes, 4))))
  {
    ApplyPairsDescribes(StartupTokens(bytes, length), Ascii(IntToString(Int32At(bytes, 4))));
  }

  // ---------------------------------------------------------------------------
  // Typed string messages (WireServer.cs ReadStringMessage, ReadPassword, ReadQuery)
  // ---------------------------------------------------------------------------

  /** What ReadStringMessage returns: a string, or null for a Terminate message. */
  datatype StringMessage = Text(content: Bytes) | Terminate

  /** The type letters ReadPassword accepts. */
  const PasswordTypes: Bytes := Ascii("p")
  /** The type letters ReadQuery accepts. */
  const QueryTypes: Bytes := Ascii("qx")

  /** Whether a type byte is one of the allowed letters, ignoring case. */
  predicate TagAllowed(tag: uint8, allowed: Bytes) {
    LowerAscii(tag) in ToLowerInvariant(allowed)
  }

  /** Whether ReadStringMessage gets as far as the length field, which it reverses in place on a little-endian host. */
  predicate ReachesLengthField(bytes: Bytes, length: int32, allowed: Bytes) {
    |bytes| > 0 && length > 0 && TagAllowed(bytes[0], allowed) && length >= 5
  }

  /** The buffer as ReadStringMessage leaves it. */
  function AfterStringMessage(hostIsLittleEndian: bool, bytes: Bytes, length: int32, allowed: Bytes): (r: Bytes)
    requires length <= |bytes|
    ensures |r| == |bytes|
  {
    if hostIsLittleEndian && ReachesLengthField(bytes, length, allowed) then ReverseRange(bytes, 1, 4) else bytes
  }

  /**
    The outcome of ReadStringMessage; the conditions come in the source's order. The final
    zero byte is looked for in the buffer as it is after the reversal.
   */
  function DecodeStringMessage(hostIsLittleEndian: bool, bytes: Bytes, length: int32, allowed: Bytes): (r: Result<StringMessage>)
    requires length <= |bytes|
  {
    if |bytes| == 0 || length <= 0 then Err(ProtocolError("message content required"))
    else if !TagAllowed(bytes[0], allowed) then Err(ProtocolError("unknown message type"))
    else if length < 5 then Err(ProtocolError("invalid length length"))
    else
      var messageLength := Int32At(bytes, 1);
      var after := AfterStringMessage(hostIsLittleEndian, bytes, length, allowed);
      if LowerAscii(bytes[0]) == CharToByte('x') && length == 5 && messageLength == 4 then Ok(Terminate)
      else if length != messageLength + 1 then Err(ProtocolError("message length incorrect"))
      else if after[length - 1] != 0 then Err(ProtocolError("message format incorrect"))
      // Encoding.GetString(bytes, 5, messageLength - 5) rejects a negative count
      else if messageLength < 5 then Err(ArgumentOutOfRange)
      else Ok(Text(bytes[5..messageLength]))
  }

  /** ReadPassword: a string message of type 'p'. */
  function DecodePassword(hostIsLittleEndian: bool, bytes: Bytes, length: int32): (r: Result<StringMessage>)
    requires length <= |bytes|
    ensures r.Ok? ==> r.value.Text?
  {
    DecodeStringMessage(hostIsLittleEndian, bytes, length, PasswordTypes)
  }

  /** A message whose type byte is not allowed is rejected before its length field is touched. */
  lemma UnknownTypeRejected(hostIsLittleEndian: bool, bytes: Bytes, length: int32, allowed: Bytes)
    requires length <= |bytes| && |bytes| > 0 && length > 0 && !TagAllowed(bytes[0], allowed)
    ensures DecodeStringMessage(hostIsLittleEndian, bytes, length, allowed) == Err(ProtocolError("unknown message type"))
    ensures AfterStringMessage(hostIsLittleEndian, bytes, length, allowed) == bytes
  {
  }

  /** A zero type byte is not a query message type. */
  lemma ZeroIsNoQueryType()
    ensures !TagAllowed(0, QueryTypes)
  {
    assert ToLowerInvariant(QueryTypes) == [CharToByte('q'), CharToByte('x')];
  }

  /** ReadQuery: a string message of type 'q', or a Terminate message of type 'x'. */
  function DecodeQuery(hostIsLittleEndian: bool, bytes: Bytes, length: int32): (r: Result<StringMessage>)
    requires length <= |bytes|
  {
    DecodeStringMessage(hostIsLittleEndian, bytes, length, QueryTypes)
  }

  /** The Terminate message a client sends: type 'X' and length 4. */
  function TerminateMessage(): (m: Bytes)
    ensures m == EncodeFrame(Frame(CharToByte('X'), []))
  {
    [CharToByte('X')] + Int32BE(4)
  }

  /** The Query message a client sends: type 'Q', the length, the text and a zero byte. */
  function QueryMessage(query: Bytes): (m: Bytes)
    ensures m == EncodeFrame(Frame(CharToByte('Q'), query + [0]))
    ensures |m| == |query| + 6
  {
    StatusMessageString(CharToByte('Q'), query)
  }

  /** The PasswordMessage a client sends: type 'p', the length, the password and a zero byte. */
  function PasswordMessage(password: Bytes): (m: Bytes)
    ensures m == EncodeFrame(Frame(CharToByte('p'), password + [0]))
    ensures |m| == |password| + 6
  {
    StatusMessageString(CharToByte('p'), password)
  }

  /**
    Round trip: a string message of an allowed type, followed by anything, decodes to its
    text on either host.
   */
  lemma StringMessageRoundTrip(hostIsLittleEndian: bool, tag: uint8, s: Bytes, stale: Bytes, allowed: Bytes)
    requires TagAllowed(tag, allowed)
    requires |s| + 6 < 0x8000_0000
    ensures var m := StatusMessageString(tag, s);
            DecodeStringMessage(hostIsLittleEndian, m + stale, |m|, allowed) == Ok(Text(s))
  {
    var m := StatusMessageString(tag, s);
    var b := m + stale;
    assert b[1..5] == Int32BE(|s| + 5);
    Int32AtIff(b, 1, |s| + 5);
    var after := AfterStringMessage(hostIsLittleEndian, b, |m|, allowed);
    if hostIsLittleEndian {
      ReverseRangeOutside(b, 1, 4, |m| - 1);
    }
    assert after[|m| - 1] == 0;
    assert b[5..|s| + 5] == s;
  }

  /** Decoding is the inverse direction too: a decoded text is exactly what the message's bytes encode. */
  lemma StringMessageDecoded(hostIsLittleEndian: bool, bytes: Bytes, length: int32, allowed: Bytes, s: Bytes)
    requires length <= |bytes|
    requires DecodeStringMessage(hostIsLittleEndian, bytes, length, allowed) == Ok(Text(s))
    ensures TagAllowed(bytes[0], allowed) && length == |s| + 6
    ensures bytes[..length] == StatusMessageString(bytes[0], s)
  {
    DecodedTextChecks(hostIsLittleEndian, bytes, length, allowed, s);
    AfterStringMessageKeepsLast(hostIsLittleEndian, bytes, length, allowed);
    DecodedTextLayout(bytes, length, s);
  }

  /** What the conditions passed by a decoded text establish, read off the buffer as the decoder leaves it. */
  lemma DecodedTextChecks(hostIsLittleEndian: bool, bytes: Bytes, length: int32, allowed: Bytes, s: Bytes)
    requires length <= |bytes|
    requires DecodeStringMessage(hostIsLittleEndian, bytes, length, allowed) == Ok(Text(s))
    ensures |bytes| > 0 && TagAllowed(bytes[0], allowed) && 6 <= length
    ensures Int32At(bytes, 1) == length - 1 && s == bytes[5..length - 1]
    ensures AfterStringMessage(hostIsLittleEndian, bytes, length, allowed)[length - 1] == 0
  {
  }

  /** Reversing the length field leaves the last byte of a message of six bytes or more in place. */
  lemma AfterStringMessageKeepsLast(hostIsLittleEndian: bool, bytes: Bytes, length: int32, allowed: Bytes)
    requires 6 <= length <= |bytes|
    ensures AfterStringMessage(hostIsLittleEndian, bytes, length, allowed)[length - 1] == bytes[length - 1]
  {
    if hostIsLittleEndian && ReachesLengthField(bytes, length, allowed) {
      ReverseRangeOutside(bytes, 1, 4, length - 1);
    }
  }

  /** A type byte, a length field equal to the count after it, the text and a zero byte form StatusMessageString. */
  lemma DecodedTextLayout(bytes: Bytes, length: int32, s: Bytes)
    requires 6 <= length <= |bytes|
    requires Int32At(bytes, 1) == length - 1 && s == bytes[5..length - 1] && bytes[length - 1] == 0
    ensures length == |s| + 6
    ensures bytes[..length] == StatusMessageString(bytes[0], s)
  {
    Int32AtIff(bytes, 1, length - 1);
    assert bytes[..length] == [bytes[0]] + bytes[1..5] + bytes[5..length - 1] + [bytes[length - 1]];
  }

  /** A Terminate marker is returned exactly for a 5-byte message of type 'x' or 'X' with length 4, when 'x' is allowed. */
  lemma TerminateRecognised(hostIsLittleEndian: bool, bytes: Bytes, length: int32, allowed: Bytes)
    requires length <= |bytes|
    ensures DecodeStringMessage(hostIsLittleEndian, bytes, length, allowed) == Ok(Terminate) <==>
              length == 5 && TagAllowed(bytes[0], allowed) && LowerAscii(bytes[0]) == CharToByte('x') &&
              bytes[1..5] == Int32BE(4)
  {
    if length == 5 {
      Int32AtIff(bytes, 1, 4);
    }
  }

  /** A Terminate message is decoded as the marker, whatever is in the rest of the buffer. */
  lemma TerminateMessageRecognised(hostIsLittleEndian: bool, stale: Bytes)
    ensures DecodeQuery(hostIsLittleEndian, TerminateMessage() + stale, 5) == Ok(Terminate)
  {
    var b := TerminateMessage() + stale;
    assert b[1..5] == Int32BE(4);
    assert ToLowerInvariant(QueryTypes)[1] == CharToByte('x');
    TerminateRecognised(hostIsLittleEndian, b, 5, QueryTypes);
  }

  /** Each failed check raises its own message, in the source's order of checks. */
  lemma StringMessageErrors(hostIsLittleEndian: bool, bytes: Bytes, length: int32, allowed: Bytes)
    requires length <= |bytes|
    ensures var r := DecodeStringMessage(hostIsLittleEndian, bytes, length, allowed);
            (length <= 0 ==> r == Err(ProtocolError("message content required"))) &&
            (length > 0 && !TagAllowed(bytes[0], allowed) ==> r == Err(ProtocolError("unknown message type"))) &&
            (0 < length < 5 && TagAllowed(bytes[0], allowed) ==> r == Err(ProtocolError("invalid length length"))) &&
            (length >= 5 && TagAllowed(bytes[0], allowed) && bytes[1..5] != Int32BE(WrapInt32(length - 1)) ==>
               r == Err(ProtocolError("message length incorrect"))) &&
            (length >= 6 && TagAllowed(bytes[0], allowed) && bytes[1..5] == Int32BE(WrapInt32(length - 1)) && bytes[length - 1] != 0 ==>
               r == Err(ProtocolError("message format incorrect")))
  {
    if length >= 5 {
      Int32AtIff(bytes, 1, WrapInt32(length - 1));
    }
    if length >= 6 && hostIsLittleEndian {
      ReverseRangeOutside(bytes, 1, 4, length - 1);
    }
  }

  /**
    The one host-dependent outcome: a 5-byte message of a non-terminate type with length 4.
    The byte checked for the terminating zero is inside the just-reversed length field, so
    a little-endian host finds the length's high byte 0 there and fails on the string's
    count of -1, while a big-endian host finds 4 and reports a format error.
   */
  lemma FiveByteMessageDependsOnHost(tag: uint8, stale: Bytes, allowed: Bytes)
    requires TagAllowed(tag, allowed) && LowerAscii(tag) != CharToByte('x')
    ensures var b := [tag] + Int32BE(4) + stale;
            DecodeStringMessage(true, b, 5, allowed) == Err(ArgumentOutOfRange) &&
            DecodeStringMessage(false, b, 5, allowed) == Err(ProtocolError("message format incorrect"))
  {
    var b := [tag] + Int32BE(4) + stale;
    assert b[1..5] == Int32BE(4);
    Int32AtIff(b, 1, 4);
    assert ReverseRange(b, 1, 4)[4] == b[1];
  }

  /** A password read never yields the Terminate marker: only ReadQuery allows type 'x'. */
  lemma PasswordNeverTerminates(hostIsLittleEndian: bool, bytes: Bytes, length: int32)
    requires length <= |bytes|
    ensures DecodePassword(hostIsLittleEndian, bytes, length) != Ok(Terminate)
  {
    if |bytes| > 0 && TagAllowed(bytes[0], PasswordTypes) {
      assert ToLowerInvariant(PasswordTypes) == [CharToByte('p')];
    }
  }

  // ---------------------------------------------------------------------------
  // CancelRequest (the comparisons at WireServer.cs lines 79 and 143)
  // ---------------------------------------------------------------------------

  /** The cancel check: 16 bytes whose first two ints, read in host order, are 16 and the cancel code. */
  predicate IsCancelRequest(hostIsLittleEndian: bool, bytes: Bytes, length: int32)
    requires 8 <= |bytes|
  {
    length == 16 && HostInt32At(hostIsLittleEndian, bytes, 0) == 16 &&
    HostInt32At(hostIsLittleEndian, bytes, 4) == CancelRequestCode
  }

  /** The CancelRequest a client sends: length 16, the cancel code, the process id and the secret key. */
  function CancelRequest(processId: int32, secretKey: int32): (m: Bytes)
    ensures |m| == 16
  {
    Int32BE(16) + Int32BE(CancelRequestCode) + Int32BE(processId) + Int32BE(secretKey)
  }

  /** A genuine CancelRequest is recognised on a big-endian host only, since the comparison reads host order. */
  lemma CancelRecognitionDependsOnHost(processId: int32, secretKey: int32, stale: Bytes)
    ensures var b := CancelRequest(processId, secretKey) + stale;
            IsCancelRequest(false, b, 16) && !IsCancelRequest(true, b, 16) && b[0] == 0
  {
    var b := CancelRequest(processId, secretKey) + stale;
    assert b[0..4] == Int32BE(16);
    Int32AtIff(b, 0, 16);
    assert b[4..8] == Int32BE(CancelRequestCode);
    Int32AtIff(b, 4, CancelRequestCode);
    assert b[0] == 0 && b[3] == 16;
  }

  // ---------------------------------------------------------------------------
  // Encoders (WireServer.cs SendStatusMessage, SendParameterStatusMessage, SendBackendKeyData)
  // ---------------------------------------------------------------------------

  /** `SendStatusMessage(type, int)`: always 9 bytes, with length 8. */
  function StatusMessageInt(tag: uint8, status: int32): (m: Bytes)
    ensures |m| == 9 && m[0] == tag && Int32At(m, 1) == 8 && Int32At(m, 5) == status
  {
    var m := [tag] + Int32BE(8) + Int32BE(status);
    Int32AtIff(m, 1, 8);
    assert m[5..9] == Int32BE(status);
    Int32AtIff(m, 5, status);
    m
  }

  /** `SendStatusMessage(type, char)`: always 6 bytes, with length 5. */
  function StatusMessageChar(tag: uint8, message: uint8): (m: Bytes)
    ensures |m| == 6 && m[0] == tag && Int32At(m, 1) == 5 && m[5] == message
  {
    var m := [tag] + Int32BE(5) + [message];
    Int32AtIff(m, 1, 5);
    m
  }

  /** `SendStatusMessage(type, string)`: the type, the length 4 + n + 1, the n bytes and a zero byte. */
  function StatusMessageString(tag: uint8, message: Bytes): (m: Bytes)
    ensures m == EncodeFrame(Frame(tag, message + [0]))
  {
    [tag] + Int32BE(WrapInt32(4 + |message| + 1)) + message + [0]
  }

  /** `SendParameterStatusMessage`: 'S', the length, then the name and the value, each zero-terminated. */
  function ParameterStatusMessage(name: Bytes, value: Bytes): (m: Bytes)
    ensures m == EncodeFrame(Frame(CharToByte('S'), name + [0] + value + [0]))
  {
    [CharToByte('S')] + Int32BE(WrapInt32(4 + |name| + 1 + |value| + 1)) + name + [0] + value + [0]
  }

  /** `SendBackendKeyData`: 'K', length 12, the process id and the constant secret key. */
  function BackendKeyDataMessage(processId: int32): (m: Bytes)
    ensures m == EncodeFrame(Frame(CharToByte('K'), Int32BE(processId) + UInt32BE(BackendSecretKey)))
    ensures |m| == 13
  {
    [CharToByte('K')] + Int32BE(12) + Int32BE(processId) + UInt32BE(BackendSecretKey)
  }

  /** `SendClearTextAuthenticationRequest`: AuthenticationCleartextPassword, 'R' with status 3. */
  function AuthenticationCleartextPassword(): (m: Bytes)
    ensures m == EncodeFrame(Frame(CharToByte('R'), Int32BE(3)))
  {
    StatusMessageInt(CharToByte('R'), 3)
  }

  /** AuthenticationOk: 'R' with status 0. */
  function AuthenticationOk(): (m: Bytes)
    ensures m == EncodeFrame(Frame(CharToByte('R'), Int32BE(0)))
  {
    StatusMessageInt(CharToByte('R'), 0)
  }

  /** `SendReadyForQuery`: 'Z' with the status 'I' (idle). */
  function ReadyForQuery(): (m: Bytes)
    ensures m == EncodeFrame(Frame(CharToByte('Z'), [CharToByte('I')]))
  {
    StatusMessageChar(CharToByte('Z'), CharToByte('I'))
  }

  /** The int and char status messages are frames whose length field counts the length and the status. */
  lemma StatusMessagesAreFrames(tag: uint8, status: int32, message: uint8)
    ensures StatusMessageInt(tag, status) == EncodeFrame(Frame(tag, Int32BE(status)))
    ensures StatusMessageChar(tag, message) == EncodeFrame(Frame(tag, [message]))
  {
  }
}
