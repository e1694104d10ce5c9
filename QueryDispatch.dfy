/**
  The choice of reply to a query (WireServer.cs lines 160-176): the query is lower-cased,
  split at ';', each piece trimmed and the empty pieces dropped; if any part is a
  `show transaction_isolation` the transaction isolation result is sent, else if any
  part is the ODBC driver's `lo` type query the Oid result is sent, else the static
  result.

  The two regular expressions are anchored at the start, are made of literal bytes and
  `\W*` runs, and are interpreted here by a backtracking matcher over such patterns.
 */
module QueryDispatch {
  import opened Binary
  import opened Strings

  // ---------------------------------------------------------------------------
  // Patterns made of literals and \W*
  // ---------------------------------------------------------------------------

  /** `\w` on ASCII: letters, digits and the underscore. */
  predicate IsWordByte(b: uint8) {
    0x30 <= b <= 0x39 || 0x41 <= b <= 0x5A || 0x61 <= b <= 0x7A || b == 0x5F
  }

  /** Every byte is matched by `\W`. */
  predicate NonWord(s: Bytes) {
    forall i :: 0 <= i < |s| ==> !IsWordByte(s[i])
  }

  datatype Token = Lit(b: uint8) | NonWordStar

  function Literal(w: string): (p: seq<Token>)
    ensures |p| == |w|
  {
    seq(|w|, i requires 0 <= i < |w| => Lit(CharToByte(w[i])))
  }

  /** `$` without the multiline option: the end of the input, or a final newline. */
  predicate AtEnd(s: Bytes, anchorEnd: bool) {
    anchorEnd ==> s == [] || s == [0x0A]
  }

  /** Whether the pattern matches at the start of s, trying every length of each `\W*` run. */
  function MatchHere(p: seq<Token>, s: Bytes, anchorEnd: bool): bool
    decreases |p|, |s|
  {
    if p == [] then AtEnd(s, anchorEnd)
    else
      match p[0]
      case Lit(b) => |s| > 0 && s[0] == b && MatchHere(p[1..], s[1..], anchorEnd)
      case NonWordStar =>
        MatchHere(p[1..], s, anchorEnd) || (|s| > 0 && !IsWordByte(s[0]) && MatchHere(p, s[1..], anchorEnd))
  }

  /** The pattern `w0\W*w1\W*...\W*wn`. */
  function Words(ws: seq<string>): seq<Token>
    decreases |ws|
  {
    if ws == [] then []
    else if |ws| == 1 then Literal(ws[0])
    else Literal(ws[0]) + [NonWordStar] + Words(ws[1..])
  }

  /**
    The declarative reading of `Words(ws)`: s starts with the first word, and each
    further word follows after a run of non-word bytes; with the end anchor, nothing
    but a newline may follow the last word.
   */
  ghost predicate Spells(s: Bytes, ws: seq<string>, anchorEnd: bool)
    decreases |ws|
  {
    if ws == [] then AtEnd(s, anchorEnd)
    else
      |Ascii(ws[0])| <= |s| && s[..|ws[0]|] == Ascii(ws[0]) &&
      if |ws| == 1 then AtEnd(s[|ws[0]|..], anchorEnd)
      else exists k :: |ws[0]| <= k <= |s| && NonWord(s[|ws[0]|..k]) && Spells(s[k..], ws[1..], anchorEnd)
  }

  lemma {:induction false} LiteralMatch(w: string, rest: seq<Token>, s: Bytes, anchorEnd: bool)
    ensures MatchHere(Literal(w) + rest, s, anchorEnd) <==>
              |w| <= |s| && s[..|w|] == Ascii(w) && MatchHere(rest, s[|w|..], anchorEnd)
    decreases |w|
  {
    if |w| == 0 {
      assert Literal(w) + rest == rest;
    } else {
      var p := Literal(w) + rest;
      assert p[0] == Lit(CharToByte(w[0]));
      assert p[1..] == Literal(w[1..]) + rest;
      if |s| > 0 {
        LiteralMatch(w[1..], rest, s[1..], anchorEnd);
        if |w| <= |s| {
          assert s[1..][|w| - 1..] == s[|w|..];
          assert s[..|w|] == [s[0]] + s[1..][..|w| - 1];
          assert Ascii(w) == [CharToByte(w[0])] + Ascii(w[1..]);
        }
      }
    }
  }

  /** A `\W*` run matches exactly when some prefix of non-word bytes is followed by a match of the rest. */
  lemma {:induction false} StarMatch(rest: seq<Token>, s: Bytes, anchorEnd: bool)
    ensures MatchHere([NonWordStar] + rest, s, anchorEnd) <==>
              exists k :: 0 <= k <= |s| && NonWord(s[..k]) && MatchHere(rest, s[k..], anchorEnd)
    decreases |s|
  {
    var p := [NonWordStar] + rest;
    assert p[1..] == rest;
    if MatchHere(p, s, anchorEnd) {
      if MatchHere(rest, s, anchorEnd) {
        assert s[..0] == [] && s[0..] == s;
      } else {
        StarMatch(rest, s[1..], anchorEnd);
        var k :| 0 <= k <= |s| - 1 && NonWord(s[1..][..k]) && MatchHere(rest, s[1..][k..], anchorEnd);
        assert s[..k + 1] == [s[0]] + s[1..][..k];
        assert s[k + 1..] == s[1..][k..];
      }
    }
    if exists k :: 0 <= k <= |s| && NonWord(s[..k]) && MatchHere(rest, s[k..], anchorEnd) {
      var k :| 0 <= k <= |s| && NonWord(s[..k]) && MatchHere(rest, s[k..], anchorEnd);
      if k == 0 {
        assert s[0..] == s;
      } else {
        assert !IsWordByte(s[..k][0]);
        StarMatch(rest, s[1..], anchorEnd);
        assert s[1..][..k - 1] == s[1..k];
        assert NonWord(s[1..][..k - 1]);
        assert s[1..][k - 1..] == s[k..];
      }
    }
  }

  /** One word and one `\W*` run of a pattern of several words. */
  lemma WordsStep(ws: seq<string>, s: Bytes, anchorEnd: bool)
    requires |ws| > 1
    ensures MatchHere(Words(ws), s, anchorEnd) <==>
              |ws[0]| <= |s| && s[..|ws[0]|] == Ascii(ws[0]) &&
              exists j :: 0 <= j <= |s| - |ws[0]| && NonWord(s[|ws[0]|..][..j]) &&
                          MatchHere(Words(ws[1..]), s[|ws[0]|..][j..], anchorEnd)
  {
    assert Words(ws) == Literal(ws[0]) + ([NonWordStar] + Words(ws[1..]));
    LiteralMatch(ws[0], [NonWordStar] + Words(ws[1..]), s, anchorEnd);
    if |ws[0]| <= |s| {
      StarMatch(Words(ws[1..]), s[|ws[0]|..], anchorEnd);
    }
  }

  lemma {:induction false} WordsMatched(ws: seq<string>, s: Bytes, anchorEnd: bool)
    requires MatchHere(Words(ws), s, anchorEnd)
    ensures Spells(s, ws, anchorEnd)
    decreases |ws|
  {
    if |ws| == 1 {
      LiteralMatch(ws[0], [], s, anchorEnd);
      assert Literal(ws[0]) + [] == Literal(ws[0]);
    } else if |ws| > 1 {
      WordsStep(ws, s, anchorEnd);
      var n := |ws[0]|;
      var u := s[n..];
      var j :| 0 <= j <= |u| && NonWord(u[..j]) && MatchHere(Words(ws[1..]), u[j..], anchorEnd);
      WordsMatched(ws[1..], u[j..], anchorEnd);
      assert u[..j] == s[n..n + j] && u[j..] == s[n + j..];
    }
  }

  lemma {:induction false} WordsSpelled(ws: seq<string>, s: Bytes, anchorEnd: bool)
    requires Spells(s, ws, anchorEnd)
    ensures MatchHere(Words(ws), s, anchorEnd)
    decreases |ws|
  {
    if |ws| == 1 {
      LiteralMatch(ws[0], [], s, anchorEnd);
      assert Literal(ws[0]) + [] == Literal(ws[0]);
    } else if |ws| > 1 {
      var n := |ws[0]|;
      var u := s[n..];
      var k :| n <= k <= |s| && NonWord(s[n..k]) && Spells(s[k..], ws[1..], anchorEnd);
      WordsSpelled(ws[1..], s[k..], anchorEnd);
      assert u[..k - n] == s[n..k] && u[k - n..] == s[k..];
      WordsStepIntro(ws, s, anchorEnd, k - n);
    }
  }

  /** The first word, a run of j non-word bytes and a match of the other words make a match of the pattern. */
  lemma WordsStepIntro(ws: seq<string>, s: Bytes, anchorEnd: bool, j: nat)
    requires |ws| > 1 && |ws[0]| <= |s| && s[..|ws[0]|] == Ascii(ws[0]) && j <= |s| - |ws[0]|
    requires NonWord(s[|ws[0]|..][..j]) && MatchHere(Words(ws[1..]), s[|ws[0]|..][j..], anchorEnd)
    ensures MatchHere(Words(ws), s, anchorEnd)
  {
    WordsStep(ws, s, anchorEnd);
  }

  /** The matcher agrees with the declarative reading of the pattern. */
  lemma WordsMatch(ws: seq<string>, s: Bytes, anchorEnd: bool)
    ensures MatchHere(Words(ws), s, anchorEnd) <==> Spells(s, ws, anchorEnd)
  {
    if MatchHere(Words(ws), s, anchorEnd) {
      WordsMatched(ws, s, anchorEnd);
    }
    if Spells(s, ws, anchorEnd) {
      WordsSpelled(ws, s, anchorEnd);
    }
  }

  // ---------------------------------------------------------------------------
  // The two special queries
  // ---------------------------------------------------------------------------

  const ShowWords: seq<string> := ["show", "transaction_isolation"]
  const LoTypeWords: seq<string> := ["select", "oid,", "typbasetype", "from", "pg_type", "where", "typname", "=", "'lo'"]

  /** `^show\W*transaction_isolation$`, sent by the JDBC driver and the Windows ODBC dialog. */
  predicate IsShowTransactionIsolation(part: Bytes) {
    MatchHere(Words(ShowWords), part, true)
  }

  /** `^select\W*oid,\W*typbasetype\W*from\W*pg_type\W*where\W*typname\W*=\W*'lo'`, sent by the Windows ODBC driver. */
  predicate IsLoTypeQuery(part: Bytes) {
    MatchHere(Words(LoTypeWords), part, false)
  }

  lemma TwoWordsSpelled(w0: string, w1: string, part: Bytes)
    requires Spells(part, [w0, w1], true)
    ensures exists g, tail :: NonWord(g) && (tail == [] || tail == [0x0A]) && part == Ascii(w0) + g + Ascii(w1) + tail
  {
    assert [w0, w1][1..] == [w1];
    var k :| |w0| <= k <= |part| && NonWord(part[|w0|..k]) && Spells(part[k..], [w1], true);
    var g, rest := part[|w0|..k], part[k..];
    var tail := rest[|w1|..];
    Pieces(part, |w0|, k, |w1|);
    assert part == Ascii(w0) + g + Ascii(w1) + tail;
  }

  lemma Pieces(s: Bytes, i: nat, k: nat, m: nat)
    requires i <= k <= |s| && m <= |s| - k
    ensures s == s[..i] + s[i..k] + s[k..][..m] + s[k..][m..]
  {
  }

  lemma TwoWordsSpell(w0: string, w1: string, g: Bytes, tail: Bytes)
    requires NonWord(g) && (tail == [] || tail == [0x0A])
    ensures Spells(Ascii(w0) + g + Ascii(w1) + tail, [w0, w1], true)
  {
    var part := Ascii(w0) + g + Ascii(w1) + tail;
    assert [w0, w1][1..] == [w1];
    var k := |w0| + |g|;
    assert part[..|w0|] == Ascii(w0) && part[|w0|..k] == g;
    var rest := part[k..];
    assert rest == Ascii(w1) + tail;
    assert rest[..|w1|] == Ascii(w1) && rest[|w1|..] == tail;
    assert Spells(rest, [w1], true);
  }

  /** What a two-word pattern with the end anchor matches is the two words with non-word bytes between them. */
  lemma TwoWordsMatched(w0: string, w1: string, part: Bytes)
    requires MatchHere(Words([w0, w1]), part, true)
    ensures exists g, tail :: NonWord(g) && (tail == [] || tail == [0x0A]) && part == Ascii(w0) + g + Ascii(w1) + tail
  {
    WordsMatch([w0, w1], part, true);
    TwoWordsSpelled(w0, w1, part);
  }

  /** The two words with non-word bytes between them, and possibly a final newline, match. */
  lemma TwoWordsMatch(w0: string, w1: string, g: Bytes, tail: Bytes)
    requires NonWord(g) && (tail == [] || tail == [0x0A])
    ensures MatchHere(Words([w0, w1]), Ascii(w0) + g + Ascii(w1) + tail, true)
  {
    TwoWordsSpell(w0, w1, g, tail);
    WordsMatch([w0, w1], Ascii(w0) + g + Ascii(w1) + tail, true);
  }

  /** The words separated by single spaces. */
  function Spaced(ws: seq<string>): Bytes
    requires |ws| >= 1
    decreases |ws|
  {
    if |ws| == 1 then Ascii(ws[0]) else Ascii(ws[0]) + [0x20] + Spaced(ws[1..])
  }

  /** Words separated by single spaces spell the pattern, whatever follows when there is no end anchor. */
  lemma {:induction false} SpacedSpells(ws: seq<string>, tail: Bytes)
    requires |ws| >= 1
    ensures Spells(Spaced(ws) + tail, ws, false)
    decreases |ws|
  {
    var s := Spaced(ws) + tail;
    var n := |ws[0]|;
    if |ws| == 1 {
      assert s[..n] == Ascii(ws[0]);
    } else {
      SpacedSpells(ws[1..], tail);
      assert s == Ascii(ws[0]) + [0x20] + (Spaced(ws[1..]) + tail);
      assert s[..n] == Ascii(ws[0]);
      assert s[n..n + 1] == [0x20];
      assert s[n + 1..] == Spaced(ws[1..]) + tail;
    }
  }

  /** The ODBC driver's query, words separated by single spaces, is the lo query whatever follows it. */
  lemma LoTypeQueryMatches(tail: Bytes)
    ensures IsLoTypeQuery(Spaced(LoTypeWords) + tail)
  {
    SpacedSpells(LoTypeWords, tail);
    WordsMatch(LoTypeWords, Spaced(LoTypeWords) + tail, false);
  }

  /**
    A part asks for the transaction isolation exactly when it is "show", a run of
    non-word bytes and "transaction_isolation", optionally followed by a newline.
   */
  lemma ShowTransactionIsolationForms(part: Bytes)
    ensures IsShowTransactionIsolation(part) <==>
              exists g, tail :: NonWord(g) && (tail == [] || tail == [0x0A]) &&
                                part == Ascii("show") + g + Ascii("transaction_isolation") + tail
  {
    if IsShowTransactionIsolation(part) {
      TwoWordsMatched("show", "transaction_isolation", part);
    }
    if exists g, tail :: NonWord(g) && (tail == [] || tail == [0x0A]) &&
                         part == Ascii("show") + g + Ascii("transaction_isolation") + tail {
      var g, tail :| NonWord(g) && (tail == [] || tail == [0x0A]) &&
                     part == Ascii("show") + g + Ascii("transaction_isolation") + tail;
      TwoWordsMatch("show", "transaction_isolation", g, tail);
    }
  }

  // ---------------------------------------------------------------------------
  // Splitting the query into parts
  // ---------------------------------------------------------------------------

  const Semicolon: uint8 := 0x3B

  /** The trimmed pieces, the empty ones dropped, in order. */
  function NonEmptyTrimmed(pieces: seq<Bytes>): (parts: seq<Bytes>)
    ensures |parts| <= |pieces|
    decreases |pieces|
  {
    if pieces == [] then []
    else
      var t := Trim(pieces[0]);
      if t == [] then NonEmptyTrimmed(pieces[1..]) else [t] + NonEmptyTrimmed(pieces[1..])
  }

  /** `query.ToLowerInvariant().Split(';').Select(Trim).Where(non-empty)` */
  function Parts(query: Bytes): (parts: seq<Bytes>)
  {
    NonEmptyTrimmed(Split(ToLowerInvariant(query), Semicolon))
  }

  ghost predicate IsTrimmedPieceOf(pieces: seq<Bytes>, p: Bytes) {
    exists k :: 0 <= k < |pieces| && Trim(pieces[k]) == p
  }

  lemma {:induction false} NonEmptyTrimmedMembers(pieces: seq<Bytes>, p: Bytes)
    ensures p in NonEmptyTrimmed(pieces) <==> p != [] && IsTrimmedPieceOf(pieces, p)
    decreases |pieces|
  {
    if pieces != [] {
      NonEmptyTrimmedMembers(pieces[1..], p);
      if IsTrimmedPieceOf(pieces, p) {
        var k :| 0 <= k < |pieces| && Trim(pieces[k]) == p;
        if k > 0 {
          assert pieces[1..][k - 1] == pieces[k];
        }
      }
      if IsTrimmedPieceOf(pieces[1..], p) {
        var k :| 0 <= k < |pieces| - 1 && Trim(pieces[1..][k]) == p;
        assert pieces[k + 1] == pieces[1..][k];
      }
    }
  }

  lemma {:induction false} NonEmptyTrimmedConcat(xs: seq<Bytes>, ys: seq<Bytes>)
    ensures NonEmptyTrimmed(xs + ys) == NonEmptyTrimmed(xs) + NonEmptyTrimmed(ys)
    decreases |xs|
  {
    if xs == [] {
      assert xs + ys == ys;
    } else {
      assert (xs + ys)[0] == xs[0];
      assert (xs + ys)[1..] == xs[1..] + ys;
      NonEmptyTrimmedConcat(xs[1..], ys);
    }
  }

  /** A trimmed string is a substring of the original, so it holds no byte the original lacks. */
  lemma TrimKeepsOut(s: Bytes, b: uint8)
    requires b !in s
    ensures b !in Trim(s)
  {
    var i, j := TrimBounds(s);
  }

  /** Trimming white space only leaves nothing. */
  lemma TrimAllWhite(s: Bytes)
    requires forall i :: 0 <= i < |s| ==> IsWhiteSpace(s[i])
    ensures Trim(s) == []
  {
    var i, j := TrimBounds(s);
  }

  /** Trimming a string that neither starts nor ends with white space changes nothing. */
  lemma TrimUnchanged(s: Bytes)
    requires s != [] && !IsWhiteSpace(s[0]) && !IsWhiteSpace(s[|s| - 1])
    ensures Trim(s) == s
  {
    assert TrimStart(s) == s;
    assert TrimEnd(s) == s;
  }

  /**
    The parts are the non-empty trimmed pieces of the lower-cased query between
    semicolons; none is empty, none holds a semicolon, none starts or ends with white space.
   */
  lemma PartsAreTrimmedPieces(query: Bytes)
    ensures forall p :: p in Parts(query) <==> p != [] && IsTrimmedPieceOf(Split(ToLowerInvariant(query), Semicolon), p)
    ensures forall i :: 0 <= i < |Parts(query)| ==>
              Parts(query)[i] != [] && Semicolon !in Parts(query)[i] &&
              !IsWhiteSpace(Parts(query)[i][0]) && !IsWhiteSpace(Parts(query)[i][|Parts(query)[i]| - 1])
  {
    var pieces := Split(ToLowerInvariant(query), Semicolon);
    forall p
      ensures p in Parts(query) <==> p != [] && IsTrimmedPieceOf(pieces, p)
    {
      NonEmptyTrimmedMembers(pieces, p);
    }
    SplitPiecesHaveNoSeparator(ToLowerInvariant(query), Semicolon);
    forall i | 0 <= i < |Parts(query)|
      ensures Parts(query)[i] != [] && Semicolon !in Parts(query)[i]
      ensures !IsWhiteSpace(Parts(query)[i][0]) && !IsWhiteSpace(Parts(query)[i][|Parts(query)[i]| - 1])
    {
      var p := Parts(query)[i];
      assert p in Parts(query);
      var k :| 0 <= k < |pieces| && Trim(pieces[k]) == p;
      TrimKeepsOut(pieces[k], Semicolon);
    }
  }

  /** Joining two queries with a semicolon joins their parts. */
  lemma PartsConcat(q1: Bytes, q2: Bytes)
    ensures Parts(q1 + [Semicolon] + q2) == Parts(q1) + Parts(q2)
  {
    assert ToLowerInvariant(q1 + [Semicolon] + q2) == ToLowerInvariant(q1) + [Semicolon] + ToLowerInvariant(q2);
    SplitConcat(ToLowerInvariant(q1), ToLowerInvariant(q2), Semicolon);
    NonEmptyTrimmedConcat(Split(ToLowerInvariant(q1), Semicolon), Split(ToLowerInvariant(q2), Semicolon));
  }

  // ---------------------------------------------------------------------------
  // The choice of result
  // ---------------------------------------------------------------------------

  /** `parts.Any(part => Regex.IsMatch(part, pattern))` */
  function AnyMatches(parts: seq<Bytes>, pattern: seq<Token>, anchorEnd: bool): (r: bool)
    ensures r <==> exists p :: p in parts && MatchHere(pattern, p, anchorEnd)
    decreases |parts|
  {
    if parts == [] then false
    else if MatchHere(pattern, parts[0], anchorEnd) then
      assert parts[0] in parts;
      true
    else
      assert forall p :: p in parts <==> p == parts[0] || p in parts[1..];
      AnyMatches(parts[1..], pattern, anchorEnd)
  }

  datatype CannedResult = TransactionIsolation | OidTypeQuery | StaticResult

  /** The reply to the text of a Query message. */
  function Dispatch(query: Bytes): (r: CannedResult)
  {
    var parts := Parts(query);
    if AnyMatches(parts, Words(ShowWords), true) then TransactionIsolation
    else if AnyMatches(parts, Words(LoTypeWords), false) then OidTypeQuery
    else StaticResult
  }

  /**
    The transaction isolation is sent exactly when some part asks for it; the Oid
    result exactly when no part asks for the isolation and some part is the lo query;
    the static result otherwise.
   */
  lemma DispatchChoice(query: Bytes)
    ensures Dispatch(query) == TransactionIsolation <==> exists p :: p in Parts(query) && IsShowTransactionIsolation(p)
    ensures Dispatch(query) == OidTypeQuery <==>
              (forall p :: p in Parts(query) ==> !IsShowTransactionIsolation(p)) &&
              exists p :: p in Parts(query) && IsLoTypeQuery(p)
    ensures Dispatch(query) == StaticResult <==>
              forall p :: p in Parts(query) ==> !IsShowTransactionIsolation(p) && !IsLoTypeQuery(p)
  {
  }

  /** Case does not matter: a query is answered as its lower-cased form is. */
  lemma DispatchIgnoresCase(query: Bytes)
    ensures Dispatch(ToLowerInvariant(query)) == Dispatch(query)
  {
    ToLowerInvariantProperties(query);
  }

  /** The order of the statements in a query does not matter. */
  lemma DispatchIgnoresOrder(q1: Bytes, q2: Bytes)
    ensures Dispatch(q1 + [Semicolon] + q2) == Dispatch(q2 + [Semicolon] + q1)
  {
    PartsConcat(q1, q2);
    PartsConcat(q2, q1);
    DispatchChoice(q1 + [Semicolon] + q2);
    DispatchChoice(q2 + [Semicolon] + q1);
  }

  /** A statement asking for the transaction isolation wins, wherever it stands in the query. */
  lemma ShowWinsInAnyPosition(q1: Bytes, q2: Bytes)
    requires Dispatch(q2) == TransactionIsolation
    ensures Dispatch(q1 + [Semicolon] + q2) == TransactionIsolation
    ensures Dispatch(q2 + [Semicolon] + q1) == TransactionIsolation
  {
    PartsConcat(q1, q2);
    PartsConcat(q2, q1);
    DispatchChoice(q2);
    DispatchChoice(q1 + [Semicolon] + q2);
    DispatchChoice(q2 + [Semicolon] + q1);
  }

  /** A query with no statements (empty, or only semicolons and white space) gets the static result. */
  lemma EmptyQueryGetsStaticResult(query: Bytes)
    requires forall i :: 0 <= i < |query| ==> query[i] == Semicolon || IsWhiteSpace(query[i])
    ensures Parts(query) == []
    ensures Dispatch(query) == StaticResult
  {
    var lower := ToLowerInvariant(query);
    var pieces := Split(lower, Semicolon);
    assert forall b :: b in lower ==> b == Semicolon || IsWhiteSpace(b);
    SplitPiecesHaveNoSeparator(lower, Semicolon);
    forall k | 0 <= k < |pieces|
      ensures Trim(pieces[k]) == []
    {
      SplitPiecesFrom(lower, Semicolon, k);
      TrimAllWhite(pieces[k]);
    }
    if Parts(query) != [] {
      NonEmptyTrimmedMembers(pieces, Parts(query)[0]);
    }
  }

  /** Every byte of a piece of a split is a byte of the string other than the separator. */
  lemma {:induction false} SplitPiecesFrom(s: Bytes, sep: uint8, k: nat)
    requires k < |Split(s, sep)|
    ensures forall b :: b in Split(s, sep)[k] ==> b in s
    decreases |s|
  {
    if |s| > 0 {
      var rest := Split(s[1..], sep);
      if s[0] == sep {
        if k > 0 {
          SplitPiecesFrom(s[1..], sep, k - 1);
        }
      } else {
        SplitPiecesFrom(s[1..], sep, if k == 0 then 0 else k);
      }
    }
  }

  lemma ToLowerConcat(a: Bytes, b: Bytes)
    ensures ToLowerInvariant(a + b) == ToLowerInvariant(a) + ToLowerInvariant(b)
  {
  }

  /** Non-word bytes are not letters, so lower-casing keeps them. */
  lemma ToLowerNonWord(g: Bytes)
    requires NonWord(g)
    ensures ToLowerInvariant(g) == g
  {
  }

  lemma ShowKeywordLowered()
    ensures ToLowerInvariant(Ascii("SHOW")) == Ascii("show")
    ensures Semicolon !in Ascii("show")
  {
  }

  lemma TransactionIsolationKeywordLowered()
    ensures ToLowerInvariant(Ascii("Transaction_Isolation")) == Ascii("transaction_isolation")
    ensures Semicolon !in Ascii("transaction_isolation")
  {
  }

  /** The statement the JDBC driver sends, with any run of non-word bytes between the words, in any case. */
  lemma ShowQueryDispatched(g: Bytes)
    requires NonWord(g) && Semicolon !in g
    ensures Dispatch(Ascii("SHOW") + g + Ascii("Transaction_Isolation")) == TransactionIsolation
  {
    var show, ti := Ascii("show"), Ascii("transaction_isolation");
    var q := Ascii("SHOW") + g + Ascii("Transaction_Isolation");
    var lower := show + g + ti;
    ToLowerConcat(Ascii("SHOW") + g, Ascii("Transaction_Isolation"));
    ToLowerConcat(Ascii("SHOW"), g);
    ToLowerNonWord(g);
    ShowKeywordLowered();
    TransactionIsolationKeywordLowered();
    assert ToLowerInvariant(q) == lower;
    assert Semicolon !in lower;
    SplitWithoutSeparator(lower, Semicolon);
    assert lower[0] == show[0] && lower[|lower| - 1] == ti[20];
    TrimUnchanged(lower);
    assert Parts(q) == [lower];
    TwoWordsMatch("show", "transaction_isolation", g, []);
    assert lower + [] == lower;
    DispatchChoice(q);
    assert lower in Parts(q);
  }
}
